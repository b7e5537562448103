/** The shared helpers of the scripts: the target-app argument, the build
    entry points, and the two app-name conversions. */
module Utils {
  import opened Wrappers
  import opened Seqs
  import opened Strings
  import opened Json

  /** `argv.indexOf(x)`, None for -1. */
  function IndexOf(argv: seq<string>, x: string): (r: Option<nat>)
    ensures r.Some? ==> r.value < |argv| && argv[r.value] == x
    ensures r.Some? ==> forall j :: 0 <= j < r.value ==> argv[j] != x
    ensures r.None? <==> x !in argv
  {
    if |argv| == 0 then None
    else if argv[0] == x then Some(0)
    else
      var rest := IndexOf(argv[1..], x);
      if rest.Some? then Some(rest.value + 1) else None
  }

  /** `process.argv.slice(2)`: the arguments after the runtime and the script. */
  function UserArgs(argv: seq<string>): seq<string>
  {
    if |argv| >= 2 then argv[2..] else []
  }

  /** `k` is the position of the first `--`. */
  predicate FirstDashDash(argv: seq<string>, k: int)
  {
    0 <= k < |argv| && argv[k] == "--" && forall j :: 0 <= j < k ==> argv[j] != "--"
  }

  /** The token naming the target apps: the one after the first `--` when it
      is present and non-empty, else the first user argument. */
  function TargetArg(argv: seq<string>): (r: Option<string>)
    ensures forall k | FirstDashDash(argv, k) && k + 1 < |argv| && argv[k + 1] != "" :: r == Some(argv[k + 1])
    ensures (forall k | FirstDashDash(argv, k) :: k + 1 == |argv| || argv[k + 1] == "") ==>
      r == if |UserArgs(argv)| > 0 then Some(UserArgs(argv)[0]) else None
  {
    var i := IndexOf(argv, "--");
    assert i.Some? ==> FirstDashDash(argv, i.value);
    if i.Some? && i.value + 1 < |argv| && argv[i.value + 1] != "" then Some(argv[i.value + 1])
    else if |UserArgs(argv)| > 0 then Some(UserArgs(argv)[0]) else None
  }

  /** `getTargetApps`: the comma-separated, trimmed app names of the target
      token, or None (every app) when there is no non-empty token. */
  function GetTargetApps(argv: seq<string>): (r: Option<seq<string>>)
    ensures r.None? <==> !Truthy(TargetArg(argv))
    ensures r.Some? ==> |r.value| == |Split(TargetArg(argv).value, ',')| >= 1
    ensures r.Some? ==> forall i :: 0 <= i < |r.value| ==> r.value[i] == Trim(Split(TargetArg(argv).value, ',')[i])
  {
    var t := TargetArg(argv);
    if Truthy(t) then Some(SplitTrim(t.value)) else None
  }

  /** A list of app names that survives the round trip through a single
      comma-separated argument. */
  predicate PlainNames(names: seq<string>)
  {
    && |names| >= 1
    && (forall i :: 0 <= i < |names| ==> names[i] != "" && ',' !in names[i])
    && (forall i :: 0 <= i < |names| ==> !IsSpace(names[i][0]) && !IsSpace(names[i][|names[i]| - 1]))
  }

  /** The joined list is a non-empty token that splits back into the names. */
  lemma JoinedNames(names: seq<string>)
    requires PlainNames(names)
    ensures Join(names, [',']) != ""
    ensures Split(Join(names, [',']), ',') == names
  {
    SplitJoin(names, ',');
    assert |Join(names, [','])| >= |names[0]|;
  }

  /** Passing `a,b,c` as the only argument selects exactly those apps, in
      order (the runtime path is not `--`). */
  lemma TargetAppsRoundTrip(runtime: string, script: string, names: seq<string>)
    requires runtime != "--" && PlainNames(names)
    ensures GetTargetApps([runtime, script, Join(names, [','])]) == Some(names)
  {
    var joined := Join(names, [',']);
    var argv := [runtime, script, joined];
    JoinedNames(names);
    assert UserArgs(argv) == [joined];
    if script == "--" {
      assert FirstDashDash(argv, 1);
    } else {
      assert argv[0] != "--" && argv[1] != "--";
    }
    assert TargetArg(argv) == Some(joined);
    var r := SplitTrim(joined);
    assert GetTargetApps(argv) == Some(r);
    forall i | 0 <= i < |names| ensures r[i] == names[i] {
      TrimOfTrimmed(names[i]);
    }
    assert r == names;
  }

  /** The build entry file of an app directory. */
  datatype EntryFile = IndexTs | IndexJs

  /** `getFilteredEntries`: the selected app directories that hold an
      `index.ts` (preferred) or an `index.js`, in directory order. `dirs` is
      None when `src/apps` is missing or unreadable. */
  function GetFilteredEntries(
    dirs: Option<seq<string>>, targetApps: Option<seq<string>>,
    hasTs: string -> bool, hasJs: string -> bool): (r: seq<(string, EntryFile)>)
    ensures dirs.None? ==> r == []
    ensures forall a :: a in Keys(r) <==>
      dirs.Some? && a in dirs.value && (targetApps.None? || a in targetApps.value) && (hasTs(a) || hasJs(a))
    ensures forall i :: 0 <= i < |r| ==> r[i].1 == if hasTs(r[i].0) then IndexTs else IndexJs
    ensures dirs.Some? ==> IsSubsequence(Keys(r), dirs.value)
    ensures dirs.Some? && Distinct(dirs.value) ==> WellFormed(r)
  {
    if dirs.None? then []
    else
      var apps := Filter(dirs.value, a => (targetApps.None? || a in targetApps.value) && (hasTs(a) || hasJs(a)));
      var r := seq(|apps|, i requires 0 <= i < |apps| => (apps[i], if hasTs(apps[i]) then IndexTs else IndexJs));
      assert Keys(r) == apps;
      r
  }

  // ---------------------------------------------------------------- app names

  /** `toEnvVarName`: upper-cased, `-` replaced by `_`, with `_ID` appended,
      e.g. `order-entry` becomes `ORDER_ENTRY_ID`. */
  function ToEnvVarName(appName: string): (r: string)
    ensures '-' !in r
    ensures |r| == |appName| + 3 && EndsWith(r, "_ID")
    ensures forall i :: 0 <= i < |appName| && IsLowerAscii(appName[i]) ==> IsUpperAscii(r[i])
  {
    ReplaceChar(ToUpper(appName), '-', '_') + "_ID"
  }

  /** The characters of the app names the creation wizard accepts after the
      first letter: lower-case letters, digits and `-`. */
  predicate IsNameChar(c: char)
  {
    IsLowerAscii(c) || IsDigit(c) || c == '-'
  }

  /** Reading an app name back from its variable name. */
  function FromEnvVarName(v: string): (r: string)
    requires EndsWith(v, "_ID")
    ensures |r| == |v| - 3
  {
    var stem := v[..|v| - 3];
    seq(|stem|, i requires 0 <= i < |stem| => if stem[i] == '_' then '-' else LowerChar(stem[i]))
  }

  /** For names made of lower-case letters, digits and `-`, the variable name
      determines the app name. */
  lemma EnvVarNameRoundTrip(appName: string)
    requires forall i :: 0 <= i < |appName| ==> IsNameChar(appName[i])
    ensures FromEnvVarName(ToEnvVarName(appName)) == appName
  {
    var r := FromEnvVarName(ToEnvVarName(appName));
    forall i | 0 <= i < |appName| ensures r[i] == appName[i] {
      assert IsNameChar(appName[i]);
    }
  }

  /** Two such names never share a variable. */
  lemma EnvVarNameInjective(a: string, b: string)
    requires forall i :: 0 <= i < |a| ==> IsNameChar(a[i])
    requires forall i :: 0 <= i < |b| ==> IsNameChar(b[i])
    requires ToEnvVarName(a) == ToEnvVarName(b)
    ensures a == b
  {
    EnvVarNameRoundTrip(a);
    EnvVarNameRoundTrip(b);
  }

  /** `-x` with `x` a lower-case letter starts at `i`. */
  predicate HyphenLowerAt(s: string, i: int)
  {
    0 <= i && i + 1 < |s| && s[i] == '-' && IsLowerAscii(s[i + 1])
  }

  /** No `-` is followed by a lower-case letter. */
  predicate IsCamel(s: string)
  {
    forall i :: 0 <= i < |s| ==> !HyphenLowerAt(s, i)
  }

  /** `toCamelCase`: every `-x`, `x` a lower-case letter, becomes `X`, scanning
      left to right; every other character stays. */
  function ToCamelCase(s: string): (r: string)
    ensures |r| <= |s|
    ensures |r| == 0 <==> |s| == 0
    ensures |s| > 0 ==> r[0] == if HyphenLowerAt(s, 0) then UpperChar(s[1]) else s[0]
    ensures IsCamel(r)
  {
    if |s| == 0 then ""
    else if HyphenLowerAt(s, 0) then
      var rest := ToCamelCase(s[2..]);
      var r := [UpperChar(s[1])] + rest;
      assert forall i :: 1 <= i < |r| ==> r[i] == rest[i - 1];
      assert !HyphenLowerAt(r, 0);
      assert forall i :: 1 <= i < |r| ==> !HyphenLowerAt(r, i) by {
        forall i | 1 <= i < |r| ensures !HyphenLowerAt(r, i) {
          assert !HyphenLowerAt(rest, i - 1);
        }
      }
      r
    else
      var rest := ToCamelCase(s[1..]);
      var r := [s[0]] + rest;
      assert forall i :: 1 <= i < |r| ==> r[i] == rest[i - 1];
      assert !HyphenLowerAt(r, 0) by {
        if |rest| > 0 && s[0] == '-' {
          if HyphenLowerAt(s[1..], 0) {
            assert IsUpperAscii(rest[0]);
          } else {
            assert rest[0] == s[1];
          }
        }
      }
      assert forall i :: 1 <= i < |r| ==> !HyphenLowerAt(r, i) by {
        forall i | 1 <= i < |r| ensures !HyphenLowerAt(r, i) {
          assert !HyphenLowerAt(rest, i - 1);
        }
      }
      r
  }

  /** A camel-case name is left as it is. */
  lemma {:induction false} CamelCaseFixesCamel(s: string)
    requires IsCamel(s)
    ensures ToCamelCase(s) == s
    decreases |s|
  {
    if |s| > 0 {
      assert !HyphenLowerAt(s, 0);
      assert IsCamel(s[1..]) by {
        forall i | 0 <= i < |s[1..]| ensures !HyphenLowerAt(s[1..], i) {
          assert !HyphenLowerAt(s, i + 1);
        }
      }
      CamelCaseFixesCamel(s[1..]);
      assert [s[0]] + s[1..] == s;
    }
  }

  /** Converting twice is converting once. */
  lemma CamelCaseIdempotent(s: string)
    ensures ToCamelCase(ToCamelCase(s)) == ToCamelCase(s)
  {
    CamelCaseFixesCamel(ToCamelCase(s));
  }

  /** Converting a concatenation converts each part, unless the first part
      ends with `-` and the second starts with a lower-case letter (the one
      match that spans the boundary). */
  lemma {:induction false} CamelCaseConcat(a: string, b: string)
    requires !(|a| > 0 && a[|a| - 1] == '-' && |b| > 0 && IsLowerAscii(b[0]))
    ensures ToCamelCase(a + b) == ToCamelCase(a) + ToCamelCase(b)
    decreases |a|
  {
    if |a| == 0 {
      assert a + b == b;
    } else if HyphenLowerAt(a, 0) {
      assert |a[2..]| > 0 ==> a[2..][|a[2..]| - 1] == a[|a| - 1];
      CamelCaseConcat(a[2..], b);
      ConcatLowerStep(a, b);
    } else {
      assert |a[1..]| > 0 ==> a[1..][|a[1..]| - 1] == a[|a| - 1];
      CamelCaseConcat(a[1..], b);
      ConcatOtherStep(a, b);
    }
  }

  /** The concatenation step when `a` starts with a `-` and a lower-case
      letter. */
  lemma ConcatLowerStep(a: string, b: string)
    requires HyphenLowerAt(a, 0)
    requires ToCamelCase(a[2..] + b) == ToCamelCase(a[2..]) + ToCamelCase(b)
    ensures ToCamelCase(a + b) == ToCamelCase(a) + ToCamelCase(b)
  {
    var u, x, y := [UpperChar(a[1])], ToCamelCase(a[2..]), ToCamelCase(b);
    assert ToCamelCase(a + b) == u + ToCamelCase(a[2..] + b) by {
      var s := a + b;
      assert HyphenLowerAt(s, 0) && s[1] == a[1];
      DropFromConcat(a, b, 2);
      CamelStepLower(s);
    }
    assert ToCamelCase(a) == u + x by {
      CamelStepLower(a);
    }
    ConcatAssoc(u, x, y);
  }

  /** The concatenation step when `a` starts otherwise. */
  lemma ConcatOtherStep(a: string, b: string)
    requires |a| > 0 && !HyphenLowerAt(a, 0)
    requires !(a[|a| - 1] == '-' && |b| > 0 && IsLowerAscii(b[0]))
    requires ToCamelCase(a[1..] + b) == ToCamelCase(a[1..]) + ToCamelCase(b)
    ensures ToCamelCase(a + b) == ToCamelCase(a) + ToCamelCase(b)
  {
    var u, x, y := [a[0]], ToCamelCase(a[1..]), ToCamelCase(b);
    OtherStepHead(a, b);
    assert ToCamelCase(a) == u + x by {
      CamelStepOther(a);
    }
    ConcatAssoc(u, x, y);
  }

  /** Converting `a + b` when `a` does not start a match: its first
      character is kept and the scan goes on with the rest. */
  lemma OtherStepHead(a: string, b: string)
    requires |a| > 0 && !HyphenLowerAt(a, 0)
    requires !(a[|a| - 1] == '-' && |b| > 0 && IsLowerAscii(b[0]))
    ensures ToCamelCase(a + b) == [a[0]] + ToCamelCase(a[1..] + b)
  {
    var s := a + b;
    assert !HyphenLowerAt(s, 0) by {
      if |a| == 1 {
        assert s[0] == a[0] && (|b| > 0 ==> s[1] == b[0]);
      } else {
        assert s[0] == a[0] && s[1] == a[1];
      }
    }
    assert s[0] == a[0];
    DropFromConcat(a, b, 1);
    CamelStepOther(s);
  }

  /** Dropping a prefix of the first part of a concatenation. */
  lemma DropFromConcat(a: string, b: string, k: nat)
    requires k <= |a|
    ensures (a + b)[k..] == a[k..] + b
  {
  }

  /** Concatenation is associative; stated apart so that the steps above
      need not unfold the conversion while proving it. */
  lemma ConcatAssoc(u: string, x: string, y: string)
    ensures u + (x + y) == (u + x) + y
  {
  }

  /** One step of the scan over a `-` and a lower-case letter. */
  lemma CamelStepLower(s: string)
    requires HyphenLowerAt(s, 0)
    ensures ToCamelCase(s) == [UpperChar(s[1])] + ToCamelCase(s[2..])
  {
  }

  /** One step of the scan over any other character. */
  lemma CamelStepOther(s: string)
    requires |s| > 0 && !HyphenLowerAt(s, 0)
    ensures ToCamelCase(s) == [s[0]] + ToCamelCase(s[1..])
  {
  }

  /** A `-` before a lower-case letter becomes that letter in upper case,
      and the text on either side is converted on its own. */
  lemma CamelCaseHyphenLower(a: string, c: char, b: string)
    requires IsLowerAscii(c)
    ensures ToCamelCase(a + ['-', c] + b) == ToCamelCase(a) + [UpperChar(c)] + ToCamelCase(b)
  {
    assert a + ['-', c] + b == a + (['-', c] + b);
    CamelCaseConcat(a, ['-', c] + b);
    var t := ['-', c] + b;
    assert HyphenLowerAt(t, 0) && t[2..] == b;
  }

  /** Any other `-` stays where it is. */
  lemma CamelCaseOtherHyphen(a: string, b: string)
    requires !(|b| > 0 && IsLowerAscii(b[0]))
    ensures ToCamelCase(a + "-" + b) == ToCamelCase(a) + "-" + ToCamelCase(b)
  {
    CamelCaseConcat(a, "-");
    CamelCaseConcat(a + "-", b);
    assert ToCamelCase("-") == "-";
  }

  /** `order-entry` becomes `orderEntry`. */
  lemma OrderEntryCamelCase()
    ensures ToCamelCase("order-entry") == "orderEntry"
  {
    CamelCaseHyphenLower("order", 'e', "ntry");
    OrderEntryPieces();
  }

  /** The pieces of `order-entry` around its hyphen are kept as they are. */
  lemma OrderEntryPieces()
    ensures "order" + ['-', 'e'] + "ntry" == "order-entry" && "order" + [UpperChar('e')] + "ntry" == "orderEntry"
    ensures ToCamelCase("order") == "order" && ToCamelCase("ntry") == "ntry"
  {
    HyphenFreeKept("order");
    HyphenFreeKept("ntry");
  }

  /** Text without `-` is left as it is. */
  lemma HyphenFreeKept(s: string)
    requires '-' !in s
    ensures ToCamelCase(s) == s
  {
    NoHyphenIsCamel(s);
    CamelCaseFixesCamel(s);
  }

  /** Text without `-` is already in camel case. */
  lemma NoHyphenIsCamel(s: string)
    requires '-' !in s
    ensures IsCamel(s)
  {
    forall i | 0 <= i < |s| ensures !HyphenLowerAt(s, i) {
      assert s[i] in s;
    }
  }
}
