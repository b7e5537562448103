/** The record backup script: keyset pagination over an app's records, the
    backup file's metadata, and the command line. The server is a stub that
    holds the records matching the query, in ascending `$id` order. */
module BackupRecords {
  import opened Wrappers
  import opened Seqs
  import opened Strings
  import opened Json

  /** Page size of one `getRecords` request. */
  const RecordsPerRequest: nat := 500

  /** The fixed tail of every page query (the limit is `RecordsPerRequest`). */
  const PageTail: string := " order by $id asc limit 500"

  /** A stored record: its `$id` and its other field values. */
  datatype StoredRecord = StoredRecord(id: nat, fields: seq<(string, Json)>)

  /** The server's records: `$id` starts at 1 and strictly increases. */
  predicate ValidStore(store: seq<StoredRecord>)
  {
    && (forall i :: 0 <= i < |store| ==> store[i].id > 0)
    && (forall i, j :: 0 <= i < j < |store| ==> store[i].id < store[j].id)
  }

  /** The query of one page request: the user's filter, if any, in
      parentheses and conjoined with the cursor condition. */
  function PageQuery(query: Option<string>, lastId: nat): (r: string)
    ensures EndsWith(r, PageTail)
    ensures Truthy(query) ==> StartsWith(r, "(" + query.value + ") and $id > ")
    ensures !Truthy(query) ==> StartsWith(r, "$id > ")
  {
    var idCondition := "$id > " + NatToString(lastId);
    if Truthy(query) then
      var r := "(" + query.value + ") and " + idCondition + PageTail;
      assert r[..|"(" + query.value + ") and $id > "|] == "(" + query.value + ") and $id > ";
      r
    else
      var r := idCondition + PageTail;
      assert r[..|"$id > "|] == "$id > ";
      r
  }

  /** The cursor is the only part of the query that moves: two requests with
      the same filter ask for the same page only when their cursors agree. */
  lemma PageQueryInjective(query: Option<string>, a: nat, b: nat)
    requires PageQuery(query, a) == PageQuery(query, b)
    ensures a == b
  {
    PageQueryParts(query, a);
    PageQueryParts(query, b);
    SameFrame(QueryHead(query), NatToString(a), NatToString(b), PageTail);
    ParseRendered(a);
    ParseRendered(b);
  }

  /** The part of a page query before the cursor. */
  function QueryHead(query: Option<string>): string
  {
    if Truthy(query) then "(" + query.value + ") and $id > " else "$id > "
  }

  lemma PageQueryParts(query: Option<string>, lastId: nat)
    ensures PageQuery(query, lastId) == QueryHead(query) + NatToString(lastId) + PageTail
  {
    var n := NatToString(lastId);
    if Truthy(query) {
      var q := "(" + query.value;
      assert ") and " + "$id > " == ") and $id > ";
      calc {
        PageQuery(query, lastId);
        q + ") and " + ("$id > " + n) + PageTail;
        (q + (") and " + "$id > ")) + n + PageTail;
        QueryHead(query) + n + PageTail;
      }
    }
  }

  /** Equal strings with the same head and tail have the same middle. */
  lemma SameFrame(head: string, x: string, y: string, tail: string)
    requires head + x + tail == head + y + tail
    ensures x == y
  {
    assert |x| == |y|;
    assert x == (head + x + tail)[|head|..|head| + |x|];
    assert y == (head + y + tail)[|head|..|head| + |y|];
  }

  /** The records the server holds above the cursor, in `$id` order. */
  function Above(store: seq<StoredRecord>, lastId: nat): (r: seq<StoredRecord>)
    ensures |r| <= |store|
  {
    if |store| == 0 then []
    else if store[0].id > lastId then [store[0]] + Above(store[1..], lastId)
    else Above(store[1..], lastId)
  }

  /** The stub's answer to one page request: the first records above the
      cursor, at most a page of them. */
  function Page(store: seq<StoredRecord>, lastId: nat): (r: seq<StoredRecord>)
    ensures |r| <= RecordsPerRequest
  {
    var rest := Above(store, lastId);
    if |rest| <= RecordsPerRequest then rest else rest[..RecordsPerRequest]
  }

  /** Above a cursor that lies below every id from position `k` on and at or
      above every id before it, the server holds exactly `store[k..]`. */
  lemma {:induction false} AboveSplit(store: seq<StoredRecord>, lastId: nat, k: nat)
    requires k <= |store|
    requires forall i :: 0 <= i < k ==> store[i].id <= lastId
    requires forall i :: k <= i < |store| ==> store[i].id > lastId
    ensures Above(store, lastId) == store[k..]
  {
    if |store| > 0 {
      AboveSplit(store[1..], lastId, if k == 0 then 0 else k - 1);
      if k == 0 {
        assert store == [store[0]] + store[1..];
      }
    }
  }

  /** After the records `store[..k]` have been read, the cursor is the last of
      their ids (0 before the first page), and the records above it are
      exactly the unread ones. */
  lemma AboveCursor(store: seq<StoredRecord>, k: nat)
    requires ValidStore(store) && k <= |store|
    ensures Above(store, Cursor(store, k)) == store[k..]
  {
    if k == 0 {
      assert forall i :: 0 <= i < |store| ==> store[i].id > 0;
      AboveSplit(store, 0, 0);
    } else {
      var c := store[k - 1].id;
      assert forall i :: 0 <= i < k ==> store[i].id <= c by {
        forall i | 0 <= i < k - 1 ensures store[i].id <= c {
          assert store[i].id < store[k - 1].id;
        }
      }
      assert forall i :: k <= i < |store| ==> store[i].id > c by {
        forall i | k <= i < |store| ensures store[i].id > c {
          assert store[k - 1].id < store[i].id;
        }
      }
      AboveSplit(store, c, k);
    }
  }

  /** `fetchAllRecords` against the stub: the cursor starts at 0 and moves to
      the id of the last record of each non-empty page; the loop stops on an
      empty page or a short one. Every stored record is returned exactly once
      and in order, and there is one request per full page plus one (a store
      holding an exact multiple of 500 records costs a final empty page). */
  method FetchAllRecords(store: seq<StoredRecord>, query: Option<string>)
    returns (all: seq<StoredRecord>, queries: seq<string>)
    requires ValidStore(store)
    ensures all == store
    ensures |queries| == |store| / 500 + 1
    ensures Requested(store, query, queries, |store|)
  {
    all := [];
    queries := [];
    var lastId: nat := 0;
    while true
      invariant |all| <= |store| && all == store[..|all|]
      invariant |all| == |queries| * 500
      invariant lastId == Cursor(store, |all|)
      invariant Requested(store, query, queries, |all|)
      decreases |store| - |all|
    {
      RequestedAppend(store, query, queries, |all|);
      queries := queries + [PageQuery(query, lastId)];
      var records := Page(store, lastId);
      NextPage(store, |all|);
      if |records| == 0 {
        PageCount(|queries| - 1, 0);
        break;
      }
      assert store[..|all| + |records|] == all + records;
      RequestedGrows(store, query, queries, |all|, |all| + |records|);
      all := all + records;
      lastId := records[|records| - 1].id;
      if |records| < RecordsPerRequest {
        PageCount(|queries| - 1, |records|);
        break;
      }
    }
  }

  /** Request `i` went out after `i` full pages had been read, with the cursor
      those pages left behind; all of them within the first `n` records. */
  predicate Requested(store: seq<StoredRecord>, query: Option<string>, queries: seq<string>, n: nat)
    requires n <= |store|
  {
    forall i :: 0 <= i < |queries| ==>
      i * 500 <= n && queries[i] == PageQuery(query, Cursor(store, i * 500))
  }

  lemma RequestedAppend(store: seq<StoredRecord>, query: Option<string>, queries: seq<string>, n: nat)
    requires n <= |store| && n == |queries| * 500
    requires Requested(store, query, queries, n)
    ensures Requested(store, query, queries + [PageQuery(query, Cursor(store, n))], n)
  {
    var next := queries + [PageQuery(query, Cursor(store, n))];
    forall i | 0 <= i < |next| ensures i * 500 <= n && next[i] == PageQuery(query, Cursor(store, i * 500)) {
      if i < |queries| {
        assert next[i] == queries[i];
      } else {
        assert i == |queries|;
      }
    }
  }

  lemma RequestedGrows(store: seq<StoredRecord>, query: Option<string>, queries: seq<string>, n: nat, m: nat)
    requires n <= m <= |store|
    requires Requested(store, query, queries, n)
    ensures Requested(store, query, queries, m)
  {
  }

  /** The page after the first `k` records is the next slice of the store. */
  lemma NextPage(store: seq<StoredRecord>, k: nat)
    requires ValidStore(store) && k <= |store|
    ensures var n := if |store| - k <= RecordsPerRequest then |store| - k else RecordsPerRequest;
      Page(store, Cursor(store, k)) == store[k..k + n]
  {
    AboveCursor(store, k);
  }

  /** The cursor after the first `n` records have been read: 0 before any. */
  function Cursor(store: seq<StoredRecord>, n: nat): nat
    requires n <= |store|
  {
    if n == 0 then 0 else store[n - 1].id
  }

  lemma PageCount(full: nat, rest: nat)
    requires rest < RecordsPerRequest
    ensures (full * 500 + rest) / 500 == full
  {
  }

  /** The metadata stored with a backup (the timestamp is left out). */
  datatype BackupMetadata = BackupMetadata(
    appId: string,
    appName: string,
    environment: string,
    baseUrl: string,
    totalRecords: nat,
    query: Option<string>)

  datatype BackupData = BackupData(metadata: BackupMetadata, records: seq<StoredRecord>)

  /** `backupApp` once the records are fetched: no records, no backup (the
      script returns `''`); otherwise the backup holds the records, their
      count and the query. */
  function BackupApp(records: seq<StoredRecord>, appName: string, appId: string, environment: string,
                     baseUrl: string, query: Option<string>): (r: Option<BackupData>)
    ensures r.None? <==> |records| == 0
    ensures r.Some? ==> r.value.records == records && r.value.metadata.totalRecords == |r.value.records|
    ensures r.Some? ==> r.value.metadata == BackupMetadata(appId, appName, environment, baseUrl, |records|, query)
  {
    if |records| == 0 then None
    else Some(BackupData(BackupMetadata(appId, appName, environment, baseUrl, |records|, query), records))
  }

  /** Backing up one app against the stub: a backup exists exactly when the
      server holds a matching record, and it holds every one of them. */
  method BackupFromServer(store: seq<StoredRecord>, appName: string, appId: string, environment: string,
                          baseUrl: string, query: Option<string>)
    returns (r: Option<BackupData>)
    requires ValidStore(store)
    ensures r.None? <==> |store| == 0
    ensures r.Some? ==> r.value.records == store && r.value.metadata.totalRecords == |store|
  {
    var records, _ := FetchAllRecords(store, query);
    r := BackupApp(records, appName, appId, environment, baseUrl, query);
  }

  /** Which apps of the configuration get a backup file, in configuration
      order: selected by the command line, with an app id in the environment,
      fetched without error (`fetched` is None for an API error, which the
      script reports and skips) and with at least one record. */
  function BackedUpApps(appNames: seq<string>, targetApps: Option<seq<string>>,
                        appIds: string -> Option<string>,
                        fetched: string -> Option<seq<StoredRecord>>): (r: seq<string>)
    ensures forall a :: a in r <==>
      && a in appNames
      && (targetApps.None? || a in targetApps.value)
      && appIds(a).Some? && appIds(a).value != ""
      && fetched(a).Some? && |fetched(a).value| > 0
    ensures IsSubsequence(r, appNames)
  {
    Filter(appNames, a =>
      && (targetApps.None? || a in targetApps.value)
      && appIds(a).Some? && appIds(a).value != ""
      && fetched(a).Some? && |fetched(a).value| > 0)
  }

  // ---------------------------------------------------------------- command line

  datatype BackupArgs = BackupArgs(targetApps: Option<seq<string>>, environment: string, query: Option<string>)

  /** `args[i]` is an option that takes `args[i + 1]` as its value. */
  predicate TakesValue(args: seq<string>, i: nat)
    requires i < |args|
  {
    || (args[i] == "--env" && i + 1 < |args| && args[i + 1] != "" && !StartsWith(args[i + 1], "-"))
    || (args[i] == "--query" && i + 1 < |args| && args[i + 1] != "")
  }

  /** The scan of `parseArgs` from position `i`, starting from `acc`. */
  function ParseFrom(args: seq<string>, i: nat, acc: BackupArgs): (r: BackupArgs)
    requires i <= |args|
    ensures i == |args| ==> r == acc
    decreases |args| - i
  {
    if i == |args| then acc
    else ParseFrom(args, Next(args, i), Step(args, i, acc))
  }

  /** What the argument at `i` does to the parsed values. */
  function Step(args: seq<string>, i: nat, acc: BackupArgs): BackupArgs
    requires i < |args|
  {
    if TakesValue(args, i) then
      if args[i] == "--env" then acc.(environment := args[i + 1]) else acc.(query := Some(args[i + 1]))
    else if !StartsWith(args[i], "-") then acc.(targetApps := Some(SplitTrim(args[i])))
    else acc
  }

  /** Every value the scan produces is either the one it started with or taken
      from the arguments: an environment following `--env` that is not itself
      an option, a query following `--query`, a target list split from an
      argument that is not an option. */
  lemma {:induction false} ValuesComeFromArgs(args: seq<string>, i: nat, acc: BackupArgs)
    requires i <= |args|
    ensures var r := ParseFrom(args, i, acc);
      && (r.environment == acc.environment
          || exists j :: i < j < |args| && args[j - 1] == "--env" && r.environment == args[j]
                         && !StartsWith(args[j], "-"))
      && (r.query == acc.query
          || exists j :: i < j < |args| && args[j - 1] == "--query" && r.query == Some(args[j]))
      && (r.targetApps == acc.targetApps
          || exists j :: i <= j < |args| && !StartsWith(args[j], "-") && r.targetApps == Some(SplitTrim(args[j])))
    decreases |args| - i
  {
    if i < |args| {
      ValuesComeFromArgs(args, Next(args, i), Step(args, i, acc));
    }
  }

  /** `parseArgs`: the environment defaults to `KINTONE_ENV` when that is set
      and non-empty, else to `dev`; an option that never occurs leaves its
      default in place. */
  function ParseArgs(args: seq<string>, kintoneEnv: Option<string>): (r: BackupArgs)
    ensures ("--env" !in args) ==> r.environment == (if Truthy(kintoneEnv) then kintoneEnv.value else "dev")
    ensures ("--query" !in args) ==> r.query.None?
    ensures (forall a | a in args :: StartsWith(a, "-")) ==> r.targetApps.None?
  {
    var init := BackupArgs(None, if Truthy(kintoneEnv) then kintoneEnv.value else "dev", None);
    ValuesComeFromArgs(args, 0, init);
    ParseFrom(args, 0, init)
  }

  /** The position after the argument at `i` and its value, if it takes one. */
  function Next(args: seq<string>, i: nat): nat
    requires i < |args|
  {
    if TakesValue(args, i) then i + 2 else i + 1
  }

  /** The scan from `i` looks at the argument at position `k` (it is not
      consumed as the value of an option). */
  predicate Visits(args: seq<string>, i: nat, k: nat)
    decreases |args| - i
  {
    i == k || (i < k && i < |args| && Visits(args, Next(args, i), k))
  }

  /** The argument at `j` is read as a bare argument: it sets the target. */
  predicate SetsTarget(args: seq<string>, j: nat)
  {
    j < |args| && !StartsWith(args[j], "-")
  }

  /** A scan that reads no bare argument leaves the target alone. */
  lemma {:induction false} TargetUnchanged(args: seq<string>, i: nat, acc: BackupArgs)
    requires i <= |args|
    requires forall j :: i <= j < |args| && Visits(args, i, j) ==> !SetsTarget(args, j)
    ensures ParseFrom(args, i, acc).targetApps == acc.targetApps
    decreases |args| - i
  {
    if i < |args| {
      var n := Next(args, i);
      assert Visits(args, i, i);
      forall j | n <= j < |args| && Visits(args, n, j) ensures Visits(args, i, j) { }
      TargetUnchanged(args, n, Step(args, i, acc));
    }
  }

  /** The last bare argument the scan reads decides the target: the last
      one wins, whatever options follow it. */
  lemma {:induction false} LastTargetWins(args: seq<string>, i: nat, k: nat, acc: BackupArgs)
    requires i <= k && Visits(args, i, k) && SetsTarget(args, k)
    requires forall j :: k < j < |args| && Visits(args, k, j) ==> !SetsTarget(args, j)
    ensures ParseFrom(args, i, acc).targetApps == Some(SplitTrim(args[k]))
    decreases k - i
  {
    if i == k {
      var n := Next(args, k);
      assert !TakesValue(args, k) && n == k + 1;
      forall j | n <= j < |args| && Visits(args, n, j) ensures k < j && Visits(args, k, j) { }
      TargetUnchanged(args, n, Step(args, k, acc));
    } else {
      LastTargetWins(args, Next(args, i), k, Step(args, i, acc));
    }
  }

  /** On the whole command line: the last bare argument read decides the
      target. */
  lemma ParsedTargetIsLast(args: seq<string>, kintoneEnv: Option<string>, k: nat)
    requires Visits(args, 0, k) && SetsTarget(args, k)
    requires forall j :: k < j < |args| && Visits(args, k, j) ==> !SetsTarget(args, j)
    ensures ParseArgs(args, kintoneEnv).targetApps == Some(SplitTrim(args[k]))
  {
    LastTargetWins(args, 0, k, BackupArgs(None, if Truthy(kintoneEnv) then kintoneEnv.value else "dev", None));
  }

  /** `app1 --env prod` targets `app1`: an option after the target does
      not replace it. */
  lemma TargetBeforeOption(kintoneEnv: Option<string>)
    ensures ParseArgs(["app1", "--env", "prod"], kintoneEnv).targetApps == Some(SplitTrim("app1"))
  {
    var args := ["app1", "--env", "prod"];
    assert args[0][..1] != "-" by { assert args[0][..1][0] == 'a'; }
    assert args[2][..1] != "-" by { assert args[2][..1][0] == 'p'; }
    assert args[1][..1] == "-";
    assert TakesValue(args, 1) && Next(args, 1) == 3;
    assert !TakesValue(args, 0) && Next(args, 0) == 1;
    assert !Visits(args, 3, 2);
    assert !Visits(args, 0, 2);
    ParsedTargetIsLast(args, kintoneEnv, 0);
  }

  /** On the whole command line: without a bare argument there is no target. */
  lemma ParsedNoTarget(args: seq<string>, kintoneEnv: Option<string>)
    requires forall j :: 0 <= j < |args| && Visits(args, 0, j) ==> !SetsTarget(args, j)
    ensures ParseArgs(args, kintoneEnv).targetApps.None?
  {
    TargetUnchanged(args, 0, BackupArgs(None, if Truthy(kintoneEnv) then kintoneEnv.value else "dev", None));
  }

  /** A bare argument appended after a complete command line sets the target
      list, whatever came before. */
  lemma AppendedTargetWins(args: seq<string>, a: string, kintoneEnv: Option<string>)
    requires !StartsWith(a, "-")
    requires Visits(args + [a], 0, |args|)
    ensures ParseArgs(args + [a], kintoneEnv).targetApps == Some(SplitTrim(a))
  {
    LastTargetWins(args + [a], 0, |args|, BackupArgs(None, if Truthy(kintoneEnv) then kintoneEnv.value else "dev", None));
  }

  /** The value an option with a value sets: the environment for `--env`,
      the query for `--query`. */
  function OptionValue(r: BackupArgs, opt: string): Option<string>
  {
    if opt == "--env" then Some(r.environment) else r.query
  }

  /** The argument at `j` is `opt` taking the next argument as its value. */
  predicate SetsOption(args: seq<string>, j: nat, opt: string)
  {
    j < |args| && TakesValue(args, j) && args[j] == opt
  }

  /** A scan that sees no `opt` with a value leaves its value alone. */
  lemma {:induction false} OptionUnchanged(args: seq<string>, i: nat, acc: BackupArgs, opt: string)
    requires opt == "--env" || opt == "--query"
    requires i <= |args|
    requires forall j :: i <= j < |args| && Visits(args, i, j) ==> !SetsOption(args, j, opt)
    ensures OptionValue(ParseFrom(args, i, acc), opt) == OptionValue(acc, opt)
    decreases |args| - i
  {
    if i < |args| {
      var n := Next(args, i);
      assert Visits(args, i, i);
      forall j | n <= j < |args| && Visits(args, n, j) ensures Visits(args, i, j) { }
      OptionUnchanged(args, n, Step(args, i, acc), opt);
    }
  }

  /** The last `opt` the scan sees with a value decides the option: its
      value is the argument after it. */
  lemma {:induction false} LastOptionWins(args: seq<string>, i: nat, k: nat, acc: BackupArgs, opt: string)
    requires opt == "--env" || opt == "--query"
    requires i <= k && Visits(args, i, k) && SetsOption(args, k, opt)
    requires forall j :: k < j < |args| && Visits(args, k, j) ==> !SetsOption(args, j, opt)
    ensures OptionValue(ParseFrom(args, i, acc), opt) == Some(args[k + 1])
    decreases k - i
  {
    if i == k {
      var n := Next(args, k);
      forall j | n <= j < |args| && Visits(args, n, j) ensures k < j && Visits(args, k, j) { }
      OptionUnchanged(args, n, Step(args, k, acc), opt);
    } else {
      LastOptionWins(args, Next(args, i), k, Step(args, i, acc), opt);
    }
  }

  /** On the whole command line: the last `--env` or `--query` seen with a
      value sets the parsed option to that value. */
  lemma ParsedOptionIsLast(args: seq<string>, kintoneEnv: Option<string>, k: nat, opt: string)
    requires opt == "--env" || opt == "--query"
    requires Visits(args, 0, k) && SetsOption(args, k, opt)
    requires forall j :: k < j < |args| && Visits(args, k, j) ==> !SetsOption(args, j, opt)
    ensures OptionValue(ParseArgs(args, kintoneEnv), opt) == Some(args[k + 1])
  {
    LastOptionWins(args, 0, k, BackupArgs(None, if Truthy(kintoneEnv) then kintoneEnv.value else "dev", None), opt);
  }
}
