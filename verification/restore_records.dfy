/** The record restore script: system fields stripped from each record,
    records added in batches, the choice of backup file and the command
    line. */
module RestoreRecords {
  import opened Wrappers
  import opened Seqs
  import opened Strings
  import opened Json
  import opened Sorting

  /** Records per `addRecords` request. */
  const BatchSize: nat := 100

  /** The fields the platform fills in itself and rejects on insert: the
      record id and revision and the built-in fields in both display
      languages. */
  const RecordSystemFields: set<string> := {
    "$id", "$revision", "レコード番号", "RECORD_NUMBER",
    "作成者", "CREATOR", "更新者", "MODIFIER",
    "作成日時", "CREATED_TIME", "更新日時", "UPDATED_TIME",
    "ステータス", "STATUS", "作業者", "STATUS_ASSIGNEE",
    "カテゴリー", "CATEGORY"
  }

  /** A record as read from a backup: field code to field value. */
  type Record = seq<(string, Json)>

  /** `cleanRecordForInsert`: exactly the fields outside the system list are
      kept, with their values and in their order. */
  function CleanRecordForInsert(record: Record): (r: Record)
    ensures Keys(r) == Filter(Keys(record), k => k !in RecordSystemFields)
    ensures forall k :: Get(r, k) == if k in RecordSystemFields then None else Get(record, k)
  {
    Without(record, RecordSystemFields)
  }

  /** Cleaning a cleaned record changes nothing. */
  lemma CleanIdempotent(record: Record)
    ensures CleanRecordForInsert(CleanRecordForInsert(record)) == CleanRecordForInsert(record)
  {
    WithoutIdempotent(record, RecordSystemFields);
  }

  /** `batch.map(cleanRecordForInsert)`: one cleaned record per record, in
      order, each without a system field and with every other field and
      value of its source. */
  function CleanAll(records: seq<Record>): (r: seq<Record>)
    ensures |r| == |records|
    ensures forall i, k :: 0 <= i < |r| ==> Get(r[i], k) == if k in RecordSystemFields then None else Get(records[i], k)
    ensures forall i :: 0 <= i < |r| ==> Keys(r[i]) == Filter(Keys(records[i]), k => k !in RecordSystemFields)
    ensures forall i :: 0 <= i < |r| ==> r[i] == CleanRecordForInsert(records[i])
  {
    seq(|records|, i requires 0 <= i < |records| => CleanRecordForInsert(records[i]))
  }

  // ---------------------------------------------------------------- batching

  /** The consecutive slices of at most a batch each that cover `s`. */
  function Chunks<T>(s: seq<T>): seq<seq<T>>
    decreases |s|
  {
    if |s| == 0 then []
    else if |s| <= BatchSize then [s]
    else [s[..BatchSize]] + Chunks(s[BatchSize..])
  }

  /** The concatenation of a sequence of sequences. */
  function Flatten<T>(parts: seq<seq<T>>): seq<T>
    decreases |parts|
  {
    if |parts| == 0 then [] else parts[0] + Flatten(parts[1..])
  }

  /** The slices of `Chunks` put back together give the input, every slice is
      non-empty and at most a batch long, and there are ⌈n/100⌉ of them. */
  lemma {:induction false} ChunksCover<T>(s: seq<T>)
    ensures Flatten(Chunks(s)) == s
    ensures forall k :: 0 <= k < |Chunks(s)| ==> 0 < |Chunks(s)[k]| <= BatchSize
    ensures |Chunks(s)| == (|s| + 99) / 100
    decreases |s|
  {
    if |s| > BatchSize {
      ChunksCover(s[BatchSize..]);
      var c := Chunks(s);
      assert c[1..] == Chunks(s[BatchSize..]);
      assert s == s[..BatchSize] + s[BatchSize..];
    } else if |s| > 0 {
      assert Flatten(Chunks(s)) == s + Flatten([]);
      assert s + [] == s;
    }
  }

  /** The slices from position `i` on: the next slice, ending at `n`, then
      the rest. */
  lemma ChunkAt<T>(s: seq<T>, i: nat, n: nat)
    requires i < |s| && n == if |s| - i <= BatchSize then |s| else i + BatchSize
    ensures Chunks(s[i..]) == [s[i..n]] + Chunks(s[n..])
  {
    if |s| - i > BatchSize {
      assert s[i..][..BatchSize] == s[i..i + BatchSize];
      assert s[i..][BatchSize..] == s[i + BatchSize..];
    } else {
      assert s[i..|s|] == s[i..];
      assert s[|s|..] == [];
    }
  }

  /** Moving one element from the rest to the done prefix. */
  lemma PrefixStep<T>(c: seq<T>, d: nat, x: T, rest: seq<T>)
    requires d < |c| && c == c[..d] + ([x] + rest)
    ensures c[d] == x && c == c[..d + 1] + rest
  {
    assert c[..d + 1] == c[..d] + [x];
  }

  /** One turn of the batching loop: with `k` slices sent and the rest of
      the slices those of `s[i..]`, the next slice is `s[i..end]`, and after
      it either the rest is that of `s[i + 100..]` or nothing is left. */
  lemma ChunkStep<T>(s: seq<T>, i: nat, end: nat, k: nat)
    requires i < |s| && end == if |s| - i <= BatchSize then |s| else i + BatchSize
    requires k <= |Chunks(s)| && Chunks(s) == Chunks(s)[..k] + Chunks(s[i..])
    ensures k < |Chunks(s)| && Chunks(s)[k] == s[i..end]
    ensures i + BatchSize <= |s| ==> Chunks(s) == Chunks(s)[..k + 1] + Chunks(s[i + BatchSize..])
    ensures i + BatchSize > |s| ==> |Chunks(s)| == k + 1 && end == |s|
  {
    ChunkAt(s, i, end);
    PrefixStep(Chunks(s), k, s[i..end], Chunks(s[end..]));
    if end == |s| {
      assert Chunks(s[end..]) == [];
    }
  }

  /** The first `|sent|` slices were sent, each cleaned. */
  predicate SentClean(sent: seq<seq<Record>>, slices: seq<seq<Record>>)
  {
    |sent| <= |slices| && forall k :: 0 <= k < |sent| ==> sent[k] == CleanAll(slices[k])
  }

  /** None of the first `n` requests was refused. */
  predicate NoneRejected(n: nat, rejected: nat -> bool)
  {
    forall k :: 0 <= k < n ==> !rejected(k)
  }

  /** Sending the next slice keeps the sent prefix clean. */
  lemma SentCleanStep(sent: seq<seq<Record>>, slices: seq<seq<Record>>, batch: seq<Record>)
    requires SentClean(sent, slices) && |sent| < |slices| && slices[|sent|] == batch
    ensures SentClean(sent + [CleanAll(batch)], slices)
  {
  }

  /** `addRecords`: consecutive slices of at most 100 records are cleaned and
      sent in order (`rejected(k)` says the server refuses the `k`-th
      request, which ends the run with an error). It sends the cleaned slices
      of `Chunks` up to the first refusal; without one it sends all of them
      and returns the number of records. */
  method AddRecords(records: seq<Record>, rejected: nat -> bool) returns (sent: seq<seq<Record>>, added: Option<nat>)
    ensures |sent| <= |Chunks(records)|
    ensures forall k :: 0 <= k < |sent| ==> sent[k] == CleanAll(Chunks(records)[k])
    ensures forall k :: 0 <= k < |sent| - 1 ==> !rejected(k)
    ensures added.Some? <==> |sent| == |Chunks(records)| && forall k :: 0 <= k < |sent| ==> !rejected(k)
    ensures added.Some? ==> added.value == |records|
    ensures added.None? ==> |sent| > 0 && rejected(|sent| - 1)
  {
    ghost var slices := Chunks(records);
    var addedCount := 0;
    var i := 0;
    sent := [];
    while i < |records|
      invariant SentClean(sent, slices) && NoneRejected(|sent|, rejected)
      invariant i <= |records| ==> slices == slices[..|sent|] + Chunks(records[i..])
      invariant i > |records| ==> |sent| == |slices|
      invariant addedCount == if i <= |records| then i else |records|
      decreases |records| - i
    {
      var end := if |records| - i <= BatchSize then |records| else i + BatchSize;
      var batch := records[i..end];
      ChunkStep(records, i, end, |sent|);
      SentCleanStep(sent, slices, batch);
      sent := sent + [CleanAll(batch)];
      if rejected(|sent| - 1) {
        return sent, None;
      }
      addedCount := addedCount + |batch|;
      i := i + BatchSize;
    }
    added := Some(addedCount);
  }

  // ---------------------------------------------------------------- choosing a backup

  /** A backup file name: `backup-*.json`. */
  predicate IsBackupName(f: string)
  {
    StartsWith(f, "backup-") && EndsWith(f, ".json")
  }

  /** `listBackups`: the backup files of the app's directory (None when it does
      not exist), newest name first. */
  function ListBackups(dir: Option<seq<string>>): (r: seq<string>)
    ensures dir.None? ==> r == []
    ensures dir.Some? ==> multiset(r) == multiset(Filter(dir.value, IsBackupName))
    ensures forall f :: f in r <==> dir.Some? && f in dir.value && IsBackupName(f)
    ensures SortedDesc(r)
  {
    if dir.None? then []
    else
      var names := Filter(dir.value, IsBackupName);
      var r := SortDesc(names);
      assert forall f :: f in r <==> f in multiset(names);
      r
  }

  /** The default choice, the first listed backup, is the greatest backup name
      in the directory. */
  lemma FirstBackupIsNewest(dir: Option<seq<string>>)
    requires |ListBackups(dir)| > 0
    ensures var b := ListBackups(dir)[0];
      dir.Some? && b in dir.value && IsBackupName(b)
      && forall f :: f in dir.value && IsBackupName(f) ==> StrLe(f, b)
  {
    var r := ListBackups(dir);
    assert r[0] in r;
    forall f | f in dir.value && IsBackupName(f) ensures StrLe(f, r[0]) {
      assert f in r;
      var j :| 0 <= j < |r| && r[j] == f;
      if j == 0 {
        StrLeTotal(f, f);
      }
    }
  }

  // ---------------------------------------------------------------- command line

  datatype RestoreArgs = RestoreArgs(targetApp: Option<string>, backupFile: Option<string>, environment: string, force: bool)

  /** `args[i]` is an option that takes `args[i + 1]` as its value. */
  predicate TakesValue(args: seq<string>, i: nat)
    requires i < |args|
  {
    || (args[i] == "--env" && i + 1 < |args| && args[i + 1] != "" && !StartsWith(args[i + 1], "-"))
    || (args[i] == "--file" && i + 1 < |args| && args[i + 1] != "")
  }

  function Next(args: seq<string>, i: nat): nat
    requires i < |args|
  {
    if TakesValue(args, i) then i + 2 else i + 1
  }

  /** What the argument at `i` does to the parsed values. */
  function Step(args: seq<string>, i: nat, acc: RestoreArgs): RestoreArgs
    requires i < |args|
  {
    if TakesValue(args, i) then
      if args[i] == "--env" then acc.(environment := args[i + 1]) else acc.(backupFile := Some(args[i + 1]))
    else if args[i] == "--force" || args[i] == "-f" then acc.(force := true)
    else if !StartsWith(args[i], "-") then acc.(targetApp := Some(args[i]))
    else acc
  }

  /** The scan of `parseArgs` from position `i`. */
  function ParseFrom(args: seq<string>, i: nat, acc: RestoreArgs): (r: RestoreArgs)
    requires i <= |args|
    ensures i == |args| ==> r == acc
    decreases |args| - i
  {
    if i == |args| then acc else ParseFrom(args, Next(args, i), Step(args, i, acc))
  }

  /** The scan from `i` looks at the argument at position `k` as an argument
      (it is not consumed as the value of an option). */
  predicate Visits(args: seq<string>, i: nat, k: nat)
    decreases |args| - i
  {
    i == k || (i < k && i < |args| && Visits(args, Next(args, i), k))
  }

  /** Force is set exactly when `--force` or `-f` is seen as an argument. */
  lemma {:induction false} ForceIffFlagSeen(args: seq<string>, i: nat, acc: RestoreArgs)
    requires i <= |args|
    ensures ParseFrom(args, i, acc).force <==>
      acc.force || exists j :: i <= j < |args| && Visits(args, i, j) && (args[j] == "--force" || args[j] == "-f")
    decreases |args| - i
  {
    if i < |args| {
      var n := Next(args, i);
      ForceIffFlagSeen(args, n, Step(args, i, acc));
      if (exists j :: n <= j < |args| && Visits(args, n, j) && (args[j] == "--force" || args[j] == "-f")) {
        var j :| n <= j < |args| && Visits(args, n, j) && (args[j] == "--force" || args[j] == "-f");
        assert Visits(args, i, j);
      }
      if (exists j :: i <= j < |args| && Visits(args, i, j) && (args[j] == "--force" || args[j] == "-f")) {
        var j :| i <= j < |args| && Visits(args, i, j) && (args[j] == "--force" || args[j] == "-f");
        if j != i {
          assert Visits(args, n, j);
        }
      }
    }
  }

  /** The argument at `j` is read as a bare argument: it sets the target. */
  predicate SetsTarget(args: seq<string>, j: nat)
  {
    j < |args| && !StartsWith(args[j], "-")
  }

  /** A scan that reads no bare argument leaves the target alone. */
  lemma {:induction false} TargetUnchanged(args: seq<string>, i: nat, acc: RestoreArgs)
    requires i <= |args|
    requires forall j :: i <= j < |args| && Visits(args, i, j) ==> !SetsTarget(args, j)
    ensures ParseFrom(args, i, acc).targetApp == acc.targetApp
    decreases |args| - i
  {
    if i < |args| {
      var n := Next(args, i);
      assert Visits(args, i, i);
      forall j | n <= j < |args| && Visits(args, n, j) ensures Visits(args, i, j) { }
      TargetUnchanged(args, n, Step(args, i, acc));
    }
  }

  /** The last bare argument the scan reads decides the target: the last
      one wins, whatever options follow it. */
  lemma {:induction false} LastTargetWins(args: seq<string>, i: nat, k: nat, acc: RestoreArgs)
    requires i <= k && Visits(args, i, k) && SetsTarget(args, k)
    requires forall j :: k < j < |args| && Visits(args, k, j) ==> !SetsTarget(args, j)
    ensures ParseFrom(args, i, acc).targetApp == Some(args[k])
    decreases k - i
  {
    if i == k {
      var n := Next(args, k);
      assert !TakesValue(args, k) && n == k + 1;
      forall j | n <= j < |args| && Visits(args, n, j) ensures k < j && Visits(args, k, j) { }
      TargetUnchanged(args, n, Step(args, k, acc));
    } else {
      LastTargetWins(args, Next(args, i), k, Step(args, i, acc));
    }
  }

  /** On the whole command line: the last bare argument read decides the
      target. */
  lemma ParsedTargetIsLast(args: seq<string>, kintoneEnv: Option<string>, k: nat)
    requires Visits(args, 0, k) && SetsTarget(args, k)
    requires forall j :: k < j < |args| && Visits(args, k, j) ==> !SetsTarget(args, j)
    ensures ParseArgs(args, kintoneEnv).targetApp == Some(args[k])
  {
    LastTargetWins(args, 0, k, RestoreArgs(None, None, if kintoneEnv.Some? && kintoneEnv.value != "" then kintoneEnv.value else "dev", false));
  }

  /** `app1 --env prod` targets `app1`: an option after the target does
      not replace it. */
  lemma TargetBeforeOption(kintoneEnv: Option<string>)
    ensures ParseArgs(["app1", "--env", "prod"], kintoneEnv).targetApp == Some("app1")
  {
    var args := ["app1", "--env", "prod"];
    assert args[0][..1] != "-" by { assert args[0][..1][0] == 'a'; }
    assert args[2][..1] != "-" by { assert args[2][..1][0] == 'p'; }
    assert args[1][..1] == "-";
    assert TakesValue(args, 1) && Next(args, 1) == 3;
    assert !TakesValue(args, 0) && Next(args, 0) == 1;
    assert !Visits(args, 3, 2);
    assert !Visits(args, 0, 2);
    ParsedTargetIsLast(args, kintoneEnv, 0);
  }

  /** On the whole command line: without a bare argument there is no target. */
  lemma ParsedNoTarget(args: seq<string>, kintoneEnv: Option<string>)
    requires forall j :: 0 <= j < |args| && Visits(args, 0, j) ==> !SetsTarget(args, j)
    ensures ParseArgs(args, kintoneEnv).targetApp.None?
  {
    TargetUnchanged(args, 0, RestoreArgs(None, None, if kintoneEnv.Some? && kintoneEnv.value != "" then kintoneEnv.value else "dev", false));
  }

  /** The environment and the backup file are the starting values or the
      argument following `--env` (not an option) or `--file`. */
  lemma {:induction false} OptionValuesFromArgs(args: seq<string>, i: nat, acc: RestoreArgs)
    requires i <= |args|
    ensures var r := ParseFrom(args, i, acc);
      && (r.environment == acc.environment
          || exists j :: i < j < |args| && args[j - 1] == "--env" && r.environment == args[j]
                         && !StartsWith(args[j], "-"))
      && (r.backupFile == acc.backupFile
          || exists j :: i < j < |args| && args[j - 1] == "--file" && r.backupFile == Some(args[j]))
    decreases |args| - i
  {
    if i < |args| {
      OptionValuesFromArgs(args, Next(args, i), Step(args, i, acc));
    }
  }

  /** `parseArgs`: no target, no file and no force to begin with; the
      environment defaults to `KINTONE_ENV` when set and non-empty, else `dev`. */
  function ParseArgs(args: seq<string>, kintoneEnv: Option<string>): (r: RestoreArgs)
    ensures r.force <==> exists j :: 0 <= j < |args| && Visits(args, 0, j) && (args[j] == "--force" || args[j] == "-f")
    ensures ("--env" !in args) ==> r.environment == (if kintoneEnv.Some? && kintoneEnv.value != "" then kintoneEnv.value else "dev")
    ensures ("--file" !in args) ==> r.backupFile.None?
    ensures (forall a | a in args :: StartsWith(a, "-")) ==> r.targetApp.None?
  {
    var init := RestoreArgs(None, None, if kintoneEnv.Some? && kintoneEnv.value != "" then kintoneEnv.value else "dev", false);
    ForceIffFlagSeen(args, 0, init);
    TargetFromArgs(args, 0, init);
    OptionValuesFromArgs(args, 0, init);
    ParseFrom(args, 0, init)
  }

  /** A target app, if any, is an argument that is not an option. */
  lemma {:induction false} TargetFromArgs(args: seq<string>, i: nat, acc: RestoreArgs)
    requires i <= |args|
    ensures var r := ParseFrom(args, i, acc);
      r.targetApp == acc.targetApp || (r.targetApp.Some? && r.targetApp.value in args[i..] && !StartsWith(r.targetApp.value, "-"))
    decreases |args| - i
  {
    if i < |args| {
      var n := Next(args, i);
      TargetFromArgs(args, n, Step(args, i, acc));
      assert forall x :: x in args[n..] ==> x in args[i..];
    }
  }

  /** The value an option with a value sets: the environment for `--env`,
      the backup file for `--file`. */
  function OptionValue(r: RestoreArgs, opt: string): Option<string>
  {
    if opt == "--env" then Some(r.environment) else r.backupFile
  }

  /** The argument at `j` is `opt` taking the next argument as its value. */
  predicate SetsOption(args: seq<string>, j: nat, opt: string)
  {
    j < |args| && TakesValue(args, j) && args[j] == opt
  }

  /** A scan that sees no `opt` with a value leaves its value alone. */
  lemma {:induction false} OptionUnchanged(args: seq<string>, i: nat, acc: RestoreArgs, opt: string)
    requires opt == "--env" || opt == "--file"
    requires i <= |args|
    requires forall j :: i <= j < |args| && Visits(args, i, j) ==> !SetsOption(args, j, opt)
    ensures OptionValue(ParseFrom(args, i, acc), opt) == OptionValue(acc, opt)
    decreases |args| - i
  {
    if i < |args| {
      var n := Next(args, i);
      assert Visits(args, i, i);
      forall j | n <= j < |args| && Visits(args, n, j) ensures Visits(args, i, j) { }
      OptionUnchanged(args, n, Step(args, i, acc), opt);
    }
  }

  /** The last `opt` the scan sees with a value decides the option: its
      value is the argument after it. */
  lemma {:induction false} LastOptionWins(args: seq<string>, i: nat, k: nat, acc: RestoreArgs, opt: string)
    requires opt == "--env" || opt == "--file"
    requires i <= k && Visits(args, i, k) && SetsOption(args, k, opt)
    requires forall j :: k < j < |args| && Visits(args, k, j) ==> !SetsOption(args, j, opt)
    ensures OptionValue(ParseFrom(args, i, acc), opt) == Some(args[k + 1])
    decreases k - i
  {
    if i == k {
      var n := Next(args, k);
      forall j | n <= j < |args| && Visits(args, n, j) ensures k < j && Visits(args, k, j) { }
      OptionUnchanged(args, n, Step(args, k, acc), opt);
    } else {
      LastOptionWins(args, Next(args, i), k, Step(args, i, acc), opt);
    }
  }

  /** On the whole command line: the last `--env` or `--file` seen with a
      value sets the parsed option to that value. */
  lemma ParsedOptionIsLast(args: seq<string>, kintoneEnv: Option<string>, k: nat, opt: string)
    requires opt == "--env" || opt == "--file"
    requires Visits(args, 0, k) && SetsOption(args, k, opt)
    requires forall j :: k < j < |args| && Visits(args, k, j) ==> !SetsOption(args, j, opt)
    ensures OptionValue(ParseArgs(args, kintoneEnv), opt) == Some(args[k + 1])
  {
    LastOptionWins(args, 0, k, RestoreArgs(None, None, if kintoneEnv.Some? && kintoneEnv.value != "" then kintoneEnv.value else "dev", false), opt);
  }

  // ---------------------------------------------------------------- the run

  /** How a restore run ends before or at the point of adding records. */
  datatype RestoreStep =
    | Usage
    | UnknownApp(app: string)
    | NoBackups(app: string)
    | BackupMissing(file: string)
    | NoBaseUrl
    | NoAppId
    | Cancelled
    | Restore(file: string, appId: string, records: seq<Record>)

  /** The backup file a restore reads: the `--file` argument when given, the
      newest backup otherwise. */
  function ChosenFile(args: RestoreArgs, backups: seq<string>): string
    requires |backups| > 0
  {
    if args.backupFile.Some? && args.backupFile.value != "" then args.backupFile.value else backups[0]
  }

  /** The checks `main` passes before it reaches the credentials: a target
      app that is known, at least one backup, and a chosen file that loads. */
  predicate Loadable(args: RestoreArgs, apps: seq<string>, dir: Option<seq<string>>, load: string -> Option<seq<Record>>)
  {
    && args.targetApp.Some? && args.targetApp.value != "" && args.targetApp.value in apps
    && |ListBackups(dir)| > 0
    && load(ChosenFile(args, ListBackups(dir))).Some?
  }

  /** The decisions of `main` up to the call of `addRecords`. `dir` is the
      app's backup directory listing, `load` reads a backup's records, and
      `answer` is the reply to the confirmation prompt (asked only without
      force). Note that an app without any backup file is refused even when
      `--file` names one. */
  function PlanRestore(args: RestoreArgs, apps: seq<string>, dir: Option<seq<string>>,
                       load: string -> Option<seq<Record>>, baseUrl: string, appId: Option<string>,
                       answer: string): (r: RestoreStep)
    ensures r == Usage <==> args.targetApp.None? || args.targetApp.value == ""
    ensures r.UnknownApp? <==> args.targetApp.Some? && args.targetApp.value != "" && args.targetApp.value !in apps
    ensures r.UnknownApp? ==> r.app == args.targetApp.value
    ensures r.NoBackups? <==>
      args.targetApp.Some? && args.targetApp.value != "" && args.targetApp.value in apps && |ListBackups(dir)| == 0
    ensures r.NoBackups? ==> r.app == args.targetApp.value
    ensures r.BackupMissing? <==>
      && args.targetApp.Some? && args.targetApp.value != "" && args.targetApp.value in apps
      && |ListBackups(dir)| > 0 && load(ChosenFile(args, ListBackups(dir))).None?
    ensures r.BackupMissing? ==> r.file == ChosenFile(args, ListBackups(dir))
    ensures r == NoBaseUrl <==> Loadable(args, apps, dir, load) && baseUrl == ""
    ensures r == NoAppId <==> Loadable(args, apps, dir, load) && baseUrl != "" && (appId.None? || appId.value == "")
    ensures r == Cancelled <==>
      && Loadable(args, apps, dir, load) && baseUrl != "" && appId.Some? && appId.value != ""
      && !args.force && ToLower(answer) != "y"
    ensures r.Restore? <==>
      && Loadable(args, apps, dir, load) && baseUrl != "" && appId.Some? && appId.value != ""
      && (args.force || ToLower(answer) == "y")
    ensures r.Restore? ==>
      && args.targetApp.Some? && args.targetApp.value in apps
      && |ListBackups(dir)| > 0
      && r.file == ChosenFile(args, ListBackups(dir))
      && load(r.file) == Some(r.records)
      && appId == Some(r.appId)
  {
    if args.targetApp.None? || args.targetApp.value == "" then Usage
    else
      var app := args.targetApp.value;
      if app !in apps then UnknownApp(app)
      else
        var backups := ListBackups(dir);
        if |backups| == 0 then NoBackups(app)
        else
          var file := ChosenFile(args, backups);
          match load(file)
          case None => BackupMissing(file)
          case Some(records) =>
            if baseUrl == "" then NoBaseUrl
            else if appId.None? || appId.value == "" then NoAppId
            else if !args.force && ToLower(answer) != "y" then Cancelled
            else Restore(file, appId.value, records)
  }

  /** Without `--file`, a restore uses the newest backup of the app. */
  lemma DefaultRestoreUsesNewest(args: RestoreArgs, apps: seq<string>, dir: Option<seq<string>>,
                                 load: string -> Option<seq<Record>>, baseUrl: string, appId: Option<string>,
                                 answer: string)
    requires args.backupFile.None?
    requires PlanRestore(args, apps, dir, load, baseUrl, appId, answer).Restore?
    ensures var f := PlanRestore(args, apps, dir, load, baseUrl, appId, answer).file;
      dir.Some? && f in dir.value && IsBackupName(f)
      && forall g :: g in dir.value && IsBackupName(g) ==> StrLe(g, f)
  {
    FirstBackupIsNewest(dir);
  }
}
