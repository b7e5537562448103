/** `remove-app`: the prompts that guard a removal and the filter that deletes
    an app's variable (and the comment above it) from `.env`. */
module RemoveApp {
  import opened Wrappers
  import opened Seqs
  import opened Strings
  import Utils
  import CreateApp

  // ---------------------------------------------------------------- prompts

  /** What the prompts decide. */
  datatype Removal =
    | MissingName            // the name answer is empty
    | UnknownApp             // `src/apps/<name>` does not exist
    | Kept                   // the confirmation is not `yes`
    | Remove(envVarName: string)

  /** The confirmation `confirm.toLowerCase() === 'yes'`. */
  predicate Confirmed(answer: string)
  {
    ToLower(answer) == "yes"
  }

  /** Exactly the eight spellings of `yes` in mixed case confirm. */
  lemma ConfirmedSpellings(answer: string)
    ensures Confirmed(answer) <==>
      (|answer| == 3
       && (answer[0] == 'y' || answer[0] == 'Y')
       && (answer[1] == 'e' || answer[1] == 'E')
       && (answer[2] == 's' || answer[2] == 'S'))
  {
    if |answer| == 3 && (answer[0] == 'y' || answer[0] == 'Y') && (answer[1] == 'e' || answer[1] == 'E') && (answer[2] == 's' || answer[2] == 'S') {
      assert ToLower(answer) == "yes";
    }
    if Confirmed(answer) {
      assert LowerChar(answer[0]) == 'y' && LowerChar(answer[1]) == 'e' && LowerChar(answer[2]) == 's';
    }
  }

  /** The checks before anything is deleted: a non-empty name (not trimmed),
      an existing app directory (`hasDir`), then the confirmation. */
  function PlanRemoval(appName: string, hasDir: string -> bool, confirm: string): (r: Removal)
    ensures r == MissingName <==> appName == ""
    ensures r == UnknownApp <==> appName != "" && !hasDir(appName)
    ensures r == Kept <==> appName != "" && hasDir(appName) && !Confirmed(confirm)
    ensures r.Remove? ==> Confirmed(confirm) && |confirm| == 3
    ensures r.Remove? ==> r.envVarName == Utils.ToEnvVarName(appName)
    ensures r.Remove? ==> '-' !in r.envVarName && |r.envVarName| == |appName| + 3
  {
    if appName == "" then MissingName
    else if !hasDir(appName) then UnknownApp
    else if !Confirmed(confirm) then Kept
    else
      ConfirmedSpellings(confirm);
      Remove(Utils.ToEnvVarName(appName))
  }

  // ---------------------------------------------------------------- picking lines

  /** The elements of `xs` whose flag in `mask` is set, in order. */
  function Pick(xs: seq<string>, mask: seq<bool>): (r: seq<string>)
    requires |mask| == |xs|
    ensures IsSubsequence(r, xs)
    ensures |r| <= |xs|
    decreases |xs|
  {
    if |xs| == 0 then []
    else if mask[0] then [xs[0]] + Pick(xs[1..], mask[1..])
    else Pick(xs[1..], mask[1..])
  }

  /** Every picked element is an element whose flag is set. */
  lemma {:induction false} PickedFlagged(xs: seq<string>, mask: seq<bool>, x: string)
    requires |mask| == |xs| && x in Pick(xs, mask)
    ensures exists i :: 0 <= i < |xs| && mask[i] && xs[i] == x
    decreases |xs|
  {
    if !(mask[0] && x == xs[0]) {
      PickedFlagged(xs[1..], mask[1..], x);
      var i :| 0 <= i < |xs[1..]| && mask[1..][i] && xs[1..][i] == x;
      assert mask[i + 1] && xs[i + 1] == x;
    }
  }

  /** Picking from a sequence extended at the end. */
  lemma {:induction false} PickSnoc(xs: seq<string>, mask: seq<bool>, x: string, b: bool)
    requires |mask| == |xs|
    ensures Pick(xs + [x], mask + [b]) == Pick(xs, mask) + (if b then [x] else [])
    decreases |xs|
  {
    if |xs| > 0 {
      assert (xs + [x])[1..] == xs[1..] + [x];
      assert (mask + [b])[1..] == mask[1..] + [b];
      PickSnoc(xs[1..], mask[1..], x, b);
    } else {
      assert (xs + [x])[1..] == [];
    }
  }

  /** A mask that keeps more picks a longer sequence containing the shorter. */
  lemma {:induction false} PickMonotone(xs: seq<string>, m1: seq<bool>, m2: seq<bool>)
    requires |m1| == |xs| && |m2| == |xs|
    requires forall i :: 0 <= i < |xs| && m1[i] ==> m2[i]
    ensures IsSubsequence(Pick(xs, m1), Pick(xs, m2))
    decreases |xs|
  {
    if |xs| > 0 {
      PickMonotone(xs[1..], m1[1..], m2[1..]);
      var r1, r2 := Pick(xs[1..], m1[1..]), Pick(xs[1..], m2[1..]);
      if m2[0] && !m1[0] {
        SubsequenceCons(r1, r2, xs[0]);
      } else if m1[0] {
        assert ([xs[0]] + r1)[1..] == r1 && ([xs[0]] + r2)[1..] == r2;
      }
    }
  }

  /** A subsequence stays one when the longer sequence grows at the front. */
  lemma SubsequenceCons(r: seq<string>, s: seq<string>, x: string)
    requires IsSubsequence(r, s)
    ensures IsSubsequence(r, [x] + s)
  {
    assert ([x] + s)[1..] == s;
  }

  /** Equal masks pick the same lines. */
  lemma {:induction false} PickSameMask(xs: seq<string>, m1: seq<bool>, m2: seq<bool>)
    requires |m1| == |xs| && |m2| == |xs|
    requires forall i :: 0 <= i < |xs| ==> m1[i] == m2[i]
    ensures Pick(xs, m1) == Pick(xs, m2)
  {
    assert m1 == m2;
  }

  // ---------------------------------------------------------------- the filter as written

  /** Line `i` is a `#` comment directly above a line starting with `v`. */
  predicate CommentAbove(lines: seq<string>, v: string, i: int)
  {
    0 <= i < |lines| - 1 && StartsWith(lines[i + 1], v) && StartsWith(lines[i], "#")
  }

  /** The loop's `skipNext` is set on reaching line `i`: some earlier comment
      above a `v` line was skipped, and every line since starts with `v`. */
  predicate AfterRemovedPair(lines: seq<string>, v: string, i: int)
  {
    0 <= i <= |lines|
    && exists j :: 0 <= j < i && CommentAbove(lines, v, j)
                   && forall k :: j < k < i ==> StartsWith(lines[k], v)
  }

  /** Which lines the loop keeps: not a comment above a `v` line, not a `v`
      line, and not reached while `skipNext` is set. */
  function AsWrittenMask(lines: seq<string>, v: string): (m: seq<bool>)
    ensures |m| == |lines|
  {
    seq(|lines|, i requires 0 <= i < |lines| =>
      !CommentAbove(lines, v, i) && !StartsWith(lines[i], v) && !AfterRemovedPair(lines, v, i))
  }

  /** How `skipNext` evolves over line `i`. */
  lemma AfterRemovedPairStep(lines: seq<string>, v: string, i: int)
    requires 0 <= i < |lines|
    ensures AfterRemovedPair(lines, v, i + 1) <==>
      CommentAbove(lines, v, i) || (StartsWith(lines[i], v) && AfterRemovedPair(lines, v, i))
  {
    if AfterRemovedPair(lines, v, i + 1) && !CommentAbove(lines, v, i) {
      var j :| 0 <= j < i + 1 && CommentAbove(lines, v, j)
               && forall k :: j < k < i + 1 ==> StartsWith(lines[k], v);
      assert j < i;
      assert AfterRemovedPair(lines, v, i);
    }
    if CommentAbove(lines, v, i) {
      assert AfterRemovedPair(lines, v, i + 1);
    }
    if StartsWith(lines[i], v) && AfterRemovedPair(lines, v, i) {
      var j :| 0 <= j < i && CommentAbove(lines, v, j)
               && forall k :: j < k < i ==> StartsWith(lines[k], v);
      assert forall k :: j < k < i + 1 ==> StartsWith(lines[k], v);
    }
  }

  /** The `.env` filter loop of `removeApp` over the file's lines: a `#` line
      directly above a line starting with `envVarName` is skipped and sets
      `skipNext`; a line starting with `envVarName` is skipped and leaves
      `skipNext` as it is; any other line is kept unless `skipNext` is set,
      and clears it. */
  method FilterEnvLinesAsWritten(lines: seq<string>, envVarName: string) returns (filtered: seq<string>)
    ensures filtered == Pick(lines, AsWrittenMask(lines, envVarName))
  {
    ghost var mask := AsWrittenMask(lines, envVarName);
    filtered := [];
    var skipNext := false;
    for i := 0 to |lines|
      invariant filtered == Pick(lines[..i], mask[..i])
      invariant skipNext == AfterRemovedPair(lines, envVarName, i)
    {
      var line := lines[i];
      assert lines[..i + 1] == lines[..i] + [line] && mask[..i + 1] == mask[..i] + [mask[i]];
      PickSnoc(lines[..i], mask[..i], line, mask[i]);
      AfterRemovedPairStep(lines, envVarName, i);
      if i < |lines| - 1 && StartsWith(lines[i + 1], envVarName) {
        if StartsWith(line, "#") {
          skipNext := true;
          continue;
        }
      }
      if StartsWith(line, envVarName) {
        continue;
      }
      if !skipNext {
        filtered := filtered + [line];
      }
      skipNext := false;
    }
    assert lines[..|lines|] == lines && mask[..|lines|] == mask;
  }

  /** The new `.env` content: the lines the filter loop keeps (exactly those
      `AsWrittenMask` marks) joined with `\n`. No line of it starts with the
      variable, its lines are lines of the old content in their order, and
      content without a line starting with the variable is left as it is. */
  function RemoveEnvAsWritten(content: string, envVarName: string): (r: string)
    ensures envVarName != "" && '\n' !in envVarName ==> !CreateApp.AtLineStart(r, envVarName)
    ensures r != "" ==> IsSubsequence(Split(r, '\n'), Split(content, '\n'))
    ensures (forall k :: 0 <= k < |Split(content, '\n')| ==> !StartsWith(Split(content, '\n')[k], envVarName)) ==>
      r == content
    ensures r == Join(Pick(Split(content, '\n'), AsWrittenMask(Split(content, '\n'), envVarName)), "\n")
  {
    var lines := Split(content, '\n');
    AsWrittenFacts(lines, envVarName);
    JoinedLinesAreLines(lines, Pick(lines, AsWrittenMask(lines, envVarName)));
    Join(Pick(lines, AsWrittenMask(lines, envVarName)), "\n")
  }

  /** The lines the loop as written keeps: none starts with the variable, no
      line of their join does, and all lines are kept when none starts with it. */
  lemma AsWrittenFacts(lines: seq<string>, v: string)
    requires forall k :: 0 <= k < |lines| ==> '\n' !in lines[k]
    ensures forall x | x in Pick(lines, AsWrittenMask(lines, v)) :: !StartsWith(x, v)
    ensures v != "" && '\n' !in v ==> !CreateApp.AtLineStart(Join(Pick(lines, AsWrittenMask(lines, v)), "\n"), v)
    ensures (forall k :: 0 <= k < |lines| ==> !StartsWith(lines[k], v)) ==> Pick(lines, AsWrittenMask(lines, v)) == lines
  {
    var m := AsWrittenMask(lines, v);
    var kept := Pick(lines, m);
    forall x | x in kept ensures !StartsWith(x, v) {
      PickedFlagged(lines, m, x);
    }
    if v != "" && '\n' !in v {
      NoLineStart(lines, kept, v);
    }
    if forall k :: 0 <= k < |lines| ==> !StartsWith(lines[k], v) {
      forall i | 0 <= i < |lines| ensures m[i] {
        assert !AfterRemovedPair(lines, v, i);
      }
      PickAll(lines, m);
    }
  }

  /** Picking with every flag set keeps everything. */
  lemma {:induction false} PickAll(xs: seq<string>, mask: seq<bool>)
    requires |mask| == |xs| && forall i :: 0 <= i < |xs| ==> mask[i]
    ensures Pick(xs, mask) == xs
    decreases |xs|
  {
    if |xs| > 0 {
      PickAll(xs[1..], mask[1..]);
    }
  }

  /** Joining a non-empty selection of `\n`-free lines and splitting again
      gives the selection back. */
  lemma JoinedLinesAreLines(lines: seq<string>, kept: seq<string>)
    requires forall k :: 0 <= k < |lines| ==> '\n' !in lines[k]
    requires IsSubsequence(kept, lines)
    ensures Join(kept, "\n") != "" ==> Split(Join(kept, "\n"), '\n') == kept
  {
    if Join(kept, "\n") != "" {
      assert |kept| >= 1;
      forall k | 0 <= k < |kept| ensures '\n' !in kept[k] {
        SubsequenceElement(kept, lines, k);
      }
      SplitJoin(kept, '\n');
    }
  }

  // ---------------------------------------------------------------- the corrected filter

  /** `line` starts with one of `targets`. */
  predicate Matches(line: string, targets: seq<string>)
  {
    exists t | t in targets :: StartsWith(line, t)
  }

  /** Line `i` is a `#` comment directly above a matching line. */
  predicate CommentAboveMatch(lines: seq<string>, targets: seq<string>, i: int)
  {
    0 <= i < |lines| - 1 && Matches(lines[i + 1], targets) && StartsWith(lines[i], "#")
  }

  /** The lines to keep: neither matching nor a comment above a match. */
  function KeepMask(lines: seq<string>, targets: seq<string>): (m: seq<bool>)
    ensures |m| == |lines|
  {
    seq(|lines|, i requires 0 <= i < |lines| =>
      !Matches(lines[i], targets) && !CommentAboveMatch(lines, targets, i))
  }

  /** The filter as its comment describes it: the matching lines and the
      comment above each are removed, every other line stays, in order. */
  function FilterEnvLines(lines: seq<string>, targets: seq<string>): (r: seq<string>)
    ensures r == Pick(lines, KeepMask(lines, targets))
    ensures IsSubsequence(r, lines)
    ensures forall x :: x in r ==> !Matches(x, targets)
    ensures forall i :: 0 <= i < |lines| && KeepMask(lines, targets)[i] ==> lines[i] in r
  {
    var m := KeepMask(lines, targets);
    var r := Pick(lines, m);
    assert forall x :: x in r ==> !Matches(x, targets) by {
      forall x | x in r ensures !Matches(x, targets) {
        PickedFlagged(lines, m, x);
      }
    }
    assert forall i :: 0 <= i < |lines| && m[i] ==> lines[i] in r by {
      forall i | 0 <= i < |lines| && m[i] ensures lines[i] in r {
        PickKeeps(lines, m, i);
      }
    }
    r
  }

  /** A line whose flag is set is picked. */
  lemma {:induction false} PickKeeps(xs: seq<string>, mask: seq<bool>, i: int)
    requires |mask| == |xs| && 0 <= i < |xs| && mask[i]
    ensures xs[i] in Pick(xs, mask)
    decreases |xs|
  {
    if i > 0 {
      PickKeeps(xs[1..], mask[1..], i - 1);
    }
  }

  /** Matching the single target `v` is starting with `v`. */
  lemma MatchesOne(line: string, v: string)
    ensures Matches(line, [v]) <==> StartsWith(line, v)
  {
    if StartsWith(line, v) {
      assert v in [v];
    }
  }

  /** The loop as written keeps a subsequence of what the corrected filter
      keeps for the same variable. */
  lemma AsWrittenWithinCorrected(lines: seq<string>, v: string)
    ensures IsSubsequence(Pick(lines, AsWrittenMask(lines, v)), FilterEnvLines(lines, [v]))
  {
    var m1, m2 := AsWrittenMask(lines, v), KeepMask(lines, [v]);
    forall i | 0 <= i < |lines| && m1[i] ensures m2[i] {
      MatchesOne(lines[i], v);
      if i < |lines| - 1 {
        MatchesOne(lines[i + 1], v);
      }
    }
    PickMonotone(lines, m1, m2);
  }

  /** The two agree unless `skipNext` reaches an ordinary line. */
  lemma AsWrittenAgrees(lines: seq<string>, v: string)
    requires forall i :: 0 <= i < |lines| && AfterRemovedPair(lines, v, i) ==>
      StartsWith(lines[i], v) || CommentAbove(lines, v, i)
    ensures Pick(lines, AsWrittenMask(lines, v)) == FilterEnvLines(lines, [v])
  {
    var m1, m2 := AsWrittenMask(lines, v), KeepMask(lines, [v]);
    forall i | 0 <= i < |lines| ensures m1[i] == m2[i] {
      MatchesOne(lines[i], v);
      if i < |lines| - 1 {
        MatchesOne(lines[i + 1], v);
      }
    }
    PickSameMask(lines, m1, m2);
  }

  /** A comment, its variable and an unrelated line: the loop as written
      drops all three, the corrected filter keeps the unrelated line. */
  lemma DropsLineAfterPair()
    ensures var lines := ["# app", "APP_ID=1", "OTHER=2"];
      Pick(lines, AsWrittenMask(lines, "APP_ID")) == []
      && FilterEnvLines(lines, ["APP_ID"]) == ["OTHER=2"]
  {
    var lines := ["# app", "APP_ID=1", "OTHER=2"];
    assert StartsWith(lines[0], "#") && StartsWith(lines[1], "APP_ID");
    assert CommentAbove(lines, "APP_ID", 0);
    assert AfterRemovedPair(lines, "APP_ID", 2);
    assert !StartsWith(lines[2], "APP_ID") by {
      assert lines[2][0] != "APP_ID"[0];
    }
    var m := AsWrittenMask(lines, "APP_ID");
    assert m == [false, false, false];
    var k := KeepMask(lines, ["APP_ID"]);
    MatchesOne(lines[0], "APP_ID");
    MatchesOne(lines[1], "APP_ID");
    MatchesOne(lines[2], "APP_ID");
    assert k == [false, false, true];
    assert lines[1..][1..] == ["OTHER=2"];
  }

  // ---------------------------------------------------------------- line starts of joined lines

  /** After joining lines free of `\n` with `\n`, text without `\n` starts a
      line of the result only if it starts one of the lines. */
  lemma {:induction false} JoinedLineStart(ls: seq<string>, t: string)
    requires forall k :: 0 <= k < |ls| ==> '\n' !in ls[k]
    requires t != "" && '\n' !in t
    requires CreateApp.AtLineStart(Join(ls, "\n"), t)
    ensures exists k :: 0 <= k < |ls| && StartsWith(ls[k], t)
    decreases |ls|
  {
    var c := Join(ls, "\n");
    var i :| 0 <= i <= |c| && CreateApp.LineStart(c, i) && OccursAt(c, t, i);
    if |ls| == 1 {
      assert StartsWith(ls[0], t);
    } else {
      var rest := Join(ls[1..], "\n");
      assert c == ls[0] + "\n" + rest;
      LineStartsOfJoin(ls[0], rest, i);
      if i == 0 {
        FirstLineStart(ls[0], rest, t);
      } else {
        LaterLineStart(ls[0], rest, t, i);
        JoinedLineStart(ls[1..], t);
        var k :| 0 <= k < |ls[1..]| && StartsWith(ls[1..][k], t);
        assert StartsWith(ls[k + 1], t);
      }
    }
  }

  /** The line starts of `a + "\n" + rest` with `a` a single line. */
  lemma LineStartsOfJoin(a: string, rest: string, i: int)
    requires '\n' !in a && CreateApp.LineStart(a + "\n" + rest, i)
    ensures i == 0 || i > |a|
  {
    var c := a + "\n" + rest;
    assert forall j :: 0 <= j < |a| ==> c[j] == a[j];
  }

  /** Text without `\n` at the start of `a + "\n" + rest` is a prefix of `a`. */
  lemma FirstLineStart(a: string, rest: string, t: string)
    requires '\n' !in a && '\n' !in t && OccursAt(a + "\n" + rest, t, 0)
    ensures StartsWith(a, t)
  {
    var c := a + "\n" + rest;
    assert c[|a|] == '\n';
    assert forall j :: 0 <= j < |t| ==> t[j] == c[j];
    assert |t| <= |a|;
    assert c[..|t|] == a[..|t|];
  }

  /** A line start after the first line is a line start of the rest. */
  lemma LaterLineStart(a: string, rest: string, t: string, i: int)
    requires i > |a| && CreateApp.LineStart(a + "\n" + rest, i) && OccursAt(a + "\n" + rest, t, i)
    ensures CreateApp.AtLineStart(rest, t)
  {
    var c := a + "\n" + rest;
    var n := |a|;
    assert rest[i - n - 1..i - n - 1 + |t|] == c[i..i + |t|];
    assert CreateApp.LineStart(rest, i - n - 1);
  }

  /** The corrected removal on file content: the content split into lines,
      filtered, and joined again. No line of the result starts with a target. */
  function RemoveEnvEntries(content: string, targets: seq<string>): (r: string)
    ensures forall t :: t in targets && t != "" && '\n' !in t ==> !CreateApp.AtLineStart(r, t)
    ensures r != "" ==> Split(r, '\n') == FilterEnvLines(Split(content, '\n'), targets)
    ensures r == "" ==> FilterEnvLines(Split(content, '\n'), targets) in {[], [""]}
  {
    var lines := Split(content, '\n');
    var kept := FilterEnvLines(lines, targets);
    JoinedLinesAreLines(lines, kept);
    JoinEmpty(kept);
    assert forall t :: t in targets && t != "" && '\n' !in t ==> !CreateApp.AtLineStart(Join(kept, "\n"), t) by {
      forall t | t in targets && t != "" && '\n' !in t
        ensures !CreateApp.AtLineStart(Join(kept, "\n"), t)
      {
        NoLineStart(lines, kept, t);
      }
    }
    Join(kept, "\n")
  }

  /** Only no lines or one empty line join to the empty text. */
  lemma JoinEmpty(parts: seq<string>)
    ensures Join(parts, "\n") == "" ==> parts == [] || parts == [""]
  {
    if |parts| > 1 {
      assert |Join(parts, "\n")| >= 1;
    }
  }

  lemma NoLineStart(lines: seq<string>, kept: seq<string>, t: string)
    requires forall k :: 0 <= k < |lines| ==> '\n' !in lines[k]
    requires IsSubsequence(kept, lines)
    requires forall x :: x in kept ==> !StartsWith(x, t)
    requires t != "" && '\n' !in t
    ensures !CreateApp.AtLineStart(Join(kept, "\n"), t)
  {
    assert forall k :: 0 <= k < |kept| ==> '\n' !in kept[k] by {
      forall k | 0 <= k < |kept| ensures '\n' !in kept[k] {
        SubsequenceElement(kept, lines, k);
      }
    }
    if CreateApp.AtLineStart(Join(kept, "\n"), t) {
      JoinedLineStart(kept, t);
    }
  }

  /** An element of a subsequence is an element of the whole. */
  lemma {:induction false} SubsequenceElement(r: seq<string>, s: seq<string>, k: int)
    requires IsSubsequence(r, s) && 0 <= k < |r|
    ensures r[k] in s
    decreases |s|
  {
    if r[0] == s[0] && IsSubsequence(r[1..], s[1..]) {
      if k > 0 {
        SubsequenceElement(r[1..], s[1..], k - 1);
      }
    } else {
      SubsequenceElement(r, s[1..], k);
    }
  }

  // ---------------------------------------------------------------- the app's variables

  /** The assignments the creation wizard writes for an app: its development
      and production variables, each followed by `=`. */
  function CreatedVars(appName: string): (r: seq<string>)
    ensures |r| == 2
    ensures forall t :: t in r ==> t != "" && ('\n' !in appName ==> '\n' !in t)
  {
    var p := CreateApp.ToEnvVarPrefix(appName);
    assert forall i :: 0 <= i < |p| && p[i] == '\n' ==> appName[i] == '\n';
    [p + "_DEV_ID=", p + "_PROD_ID="]
  }

  /** The variable name removed as written, `<PREFIX>_ID`, is not a prefix
      of any line that assigns `<PREFIX>_DEV_ID` or `<PREFIX>_PROD_ID`. */
  lemma AsWrittenMissesCreatedLines(appName: string, devAppId: string, prodAppId: Option<string>, line: string)
    requires var s := CreateApp.NewSetup(appName, devAppId, prodAppId);
      StartsWith(line, CreateApp.DevEnvVar(s)) || StartsWith(line, CreateApp.ProdEnvVar(s))
    ensures !StartsWith(line, Utils.ToEnvVarName(appName))
  {
    var p := CreateApp.ToEnvVarPrefix(appName);
    CreateApp.EnvVarNameExtendsPrefix(appName);
    var n := |p|;
    assert line[n + 1] == 'D' || line[n + 1] == 'P';
    assert Utils.ToEnvVarName(appName)[n + 1] == 'I';
  }

  /** The two lines the wizard writes for an app `shop` both stay under the
      removal as written. */
  lemma CreatedLinesSurvive()
    ensures var lines := ["# shop", "SHOP_DEV_ID=1"];
      Pick(lines, AsWrittenMask(lines, Utils.ToEnvVarName("shop"))) == lines
  {
    var lines := ["# shop", "SHOP_DEV_ID=1"];
    var v := Utils.ToEnvVarName("shop");
    assert v == "SHOP_ID";
    assert !StartsWith(lines[1], v) by {
      assert lines[1][5] != v[5];
    }
    assert !StartsWith(lines[0], v) by {
      assert lines[0][0] != v[0];
    }
    assert AsWrittenMask(lines, v) == [true, true];
    assert lines[1..] == ["SHOP_DEV_ID=1"];
  }

  /** Creating an app and then removing its created variables: before the
      removal both variables are assigned on a line (the production one when
      a production ID was given), after it neither is. */
  lemma CreateThenRemove(existing: Option<string>, appName: string, devAppId: string, prodAppId: Option<string>)
    requires '\n' !in appName
    ensures var s := CreateApp.NewSetup(appName, devAppId, prodAppId);
      var c := CreateApp.UpdateEnvFile(existing, s);
      var r := RemoveEnvEntries(c, CreatedVars(appName));
      && CreateApp.DefinesVar(c, CreateApp.DevEnvVar(s))
      && (Truthy(prodAppId) ==> CreateApp.DefinesVar(c, CreateApp.ProdEnvVar(s)))
      && !CreateApp.DefinesVar(r, CreateApp.DevEnvVar(s))
      && !CreateApp.DefinesVar(r, CreateApp.ProdEnvVar(s))
  {
    var s := CreateApp.NewSetup(appName, devAppId, prodAppId);
    var vars := CreatedVars(appName);
    var c := CreateApp.UpdateEnvFile(existing, s);
    assert CreateApp.DevEnvVar(s) + "=" == vars[0] && CreateApp.ProdEnvVar(s) + "=" == vars[1];
    RemovedUndefined(c, vars, CreateApp.DevEnvVar(s));
    RemovedUndefined(c, vars, CreateApp.ProdEnvVar(s));
  }

  /** A variable whose assignment prefix is a target is not assigned on any
      line once the targets are removed. */
  lemma RemovedUndefined(content: string, targets: seq<string>, v: string)
    requires v + "=" in targets && '\n' !in v
    ensures !CreateApp.DefinesVar(RemoveEnvEntries(content, targets), v)
  {
  }

  /** The corrected targets of two valid app names never catch each other's
      lines: each target ends at the first `=`. */
  lemma CreatedVarsExact(a: string, b: string, id: string)
    requires CreateApp.ValidAppName(a) && CreateApp.ValidAppName(b)
    requires StartsWith(CreatedVars(b)[0] + id, CreatedVars(a)[0])
      || StartsWith(CreatedVars(b)[1] + id, CreatedVars(a)[1])
    ensures a == b
  {
    var pa, pb := CreateApp.ToEnvVarPrefix(a), CreateApp.ToEnvVarPrefix(b);
    assert '=' !in pa && '=' !in pb by {
      assert forall i :: 0 <= i < |a| ==> pa[i] != '=';
      assert forall i :: 0 <= i < |b| ==> pb[i] != '=';
    }
    var ta, tb := CreatedVars(a), CreatedVars(b);
    if StartsWith(tb[0] + id, ta[0]) {
      EqualsAtSameOffset(pa, pb, "_DEV_ID=", id);
    } else {
      EqualsAtSameOffset(pa, pb, "_PROD_ID=", id);
    }
    CreateApp.PrefixInjective(a, b);
  }

  /** Two `=`-free stems followed by the same `=`-terminated suffix line up. */
  lemma EqualsAtSameOffset(pa: string, pb: string, suffix: string, id: string)
    requires '=' !in pa && '=' !in pb
    requires |suffix| > 0 && suffix[|suffix| - 1] == '=' && '=' !in suffix[..|suffix| - 1]
    requires StartsWith(pb + suffix + id, pa + suffix)
    ensures pa == pb
  {
    var la, lb := pb + suffix + id, pa + suffix;
    var m := |suffix| - 1;
    assert forall j :: 0 <= j < m ==> suffix[j] != '=' by {
      forall j | 0 <= j < m ensures suffix[j] != '=' {
        assert suffix[j] == suffix[..m][j];
      }
    }
    assert forall j :: 0 <= j < |pa| + m ==> lb[j] != '=';
    assert forall j :: 0 <= j < |pb| + m ==> la[j] != '=';
    assert lb[|pa| + m] == '=' && la[|pb| + m] == '=';
    assert forall j :: 0 <= j < |lb| ==> la[j] == lb[j];
    var q := if |pa| < |pb| then |pa| + m else |pb| + m;
    assert la[q] == lb[q];
    if |pa| != |pb| {
      assert false;
    }
    assert pa == la[..|pa|] == pb;
  }
}
