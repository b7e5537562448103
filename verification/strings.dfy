/** String operations of JavaScript's `String.prototype` used by the scripts,
    restricted to what the scripts rely on: ASCII case mapping, an ASCII
    whitespace class, single-character separators and code-point order. */
module Strings {
  import opened Wrappers

  /** JavaScript truthiness of an optional string: present and non-empty. */
  predicate Truthy(s: Option<string>)
  {
    s.Some? && s.value != ""
  }

  predicate StartsWith(s: string, prefix: string)
  {
    |prefix| <= |s| && s[..|prefix|] == prefix
  }

  predicate EndsWith(s: string, suffix: string)
  {
    |suffix| <= |s| && s[|s| - |suffix|..] == suffix
  }

  /** A concatenation starts with its first part and ends with its last. */
  lemma ConcatEnds(a: string, b: string)
    ensures StartsWith(a + b, a) && EndsWith(a + b, b)
  {
    assert (a + b)[..|a|] == a;
    assert (a + b)[|a + b| - |b|..] == b;
  }

  /** `sub` occurs in `s` starting at index `i`. */
  predicate OccursAt(s: string, sub: string, i: int)
  {
    0 <= i && i + |sub| <= |s| && s[i..i + |sub|] == sub
  }

  /** `s.includes(sub)`. */
  predicate Contains(s: string, sub: string)
  {
    exists i :: 0 <= i <= |s| - |sub| && OccursAt(s, sub, i)
  }

  /** An occurrence inside a part is an occurrence inside the whole. */
  lemma ContainsInConcat(a: string, b: string, c: string, sub: string)
    requires Contains(b, sub)
    ensures Contains(a + b + c, sub)
  {
    var i :| 0 <= i <= |b| - |sub| && OccursAt(b, sub, i);
    assert (a + b + c)[|a| + i..|a| + i + |sub|] == sub;
    assert OccursAt(a + b + c, sub, |a| + i);
  }

  /** `s.indexOf(sub, k)`: the first occurrence at or after `k`, None for
      JavaScript's -1. */
  function IndexFrom(s: string, sub: string, k: nat): (r: Option<nat>)
    ensures r.Some? ==> k <= r.value && OccursAt(s, sub, r.value)
    ensures r.Some? ==> forall j :: k <= j < r.value ==> !OccursAt(s, sub, j)
    ensures r.None? ==> forall j :: k <= j ==> !OccursAt(s, sub, j)
    decreases |s| - k
  {
    if k + |sub| > |s| then None
    else if s[k..k + |sub|] == sub then Some(k)
    else IndexFrom(s, sub, k + 1)
  }

  /** The first occurrence at or after `k` is what `IndexFrom` finds. */
  lemma IndexFromFirst(s: string, sub: string, k: nat, i: nat)
    requires k <= i && OccursAt(s, sub, i)
    requires forall j :: k <= j < i ==> !OccursAt(s, sub, j)
    ensures IndexFrom(s, sub, k) == Some(i)
  {
  }

  /** `s.lastIndexOf(sub)`, None for JavaScript's -1. */
  function LastIndexOf(s: string, sub: string): (r: Option<nat>)
    ensures r.Some? ==> OccursAt(s, sub, r.value)
    ensures r.Some? ==> forall j :: r.value < j ==> !OccursAt(s, sub, j)
    ensures r.None? <==> !Contains(s, sub)
  {
    LastIndexFrom(s, sub, |s| - |sub|)
  }

  function LastIndexFrom(s: string, sub: string, k: int): (r: Option<nat>)
    requires k <= |s| - |sub|
    ensures r.Some? ==> r.value <= k && OccursAt(s, sub, r.value)
    ensures r.Some? ==> forall j :: r.value < j <= k ==> !OccursAt(s, sub, j)
    ensures r.None? ==> forall j :: j <= k ==> !OccursAt(s, sub, j)
    decreases k + 1
  {
    if k < 0 then None
    else if s[k..k + |sub|] == sub then Some(k)
    else LastIndexFrom(s, sub, k - 1)
  }

  // ---------------------------------------------------------------- split / join

  /** `parts.join(sep)`. */
  function Join(parts: seq<string>, sep: string): string
  {
    if |parts| == 0 then ""
    else if |parts| == 1 then parts[0]
    else parts[0] + sep + Join(parts[1..], sep)
  }

  /** `s.split(c)` for a one-character separator: never empty, no part holds
      the separator, and joining the parts back gives `s`. */
  function Split(s: string, c: char): (r: seq<string>)
    ensures |r| >= 1
    ensures forall i :: 0 <= i < |r| ==> c !in r[i]
    ensures Join(r, [c]) == s
    decreases |s|
  {
    if |s| == 0 then [""]
    else
      var rest := Split(s[1..], c);
      if s[0] == c then
        assert Join([""] + rest, [c]) == [c] + Join(rest, [c]) by {
          assert ([""] + rest)[1..] == rest;
        }
        [""] + rest
      else
        var r := [[s[0]] + rest[0]] + rest[1..];
        assert Join(r, [c]) == s by {
          if |rest| > 1 {
            assert r[1..] == rest[1..];
          }
        }
        r
  }

  /** A string without the separator splits into itself. */
  lemma {:induction false} SplitWithoutSeparator(s: string, c: char)
    requires c !in s
    ensures Split(s, c) == [s]
  {
    if |s| > 0 {
      assert c !in s[1..];
      SplitWithoutSeparator(s[1..], c);
    }
  }

  /** Splitting after a separator-free head yields the head, then the parts of the rest. */
  lemma {:induction false} SplitConcat(a: string, c: char, b: string)
    requires c !in a
    ensures Split(a + [c] + b, c) == [a] + Split(b, c)
    decreases |a|
  {
    var s := a + [c] + b;
    if |a| == 0 {
      assert s[1..] == b;
    } else {
      assert s[1..] == a[1..] + [c] + b;
      SplitConcat(a[1..], c, b);
      assert [a[0]] + a[1..] == a;
    }
  }

  /** Joining separator-free parts and splitting again gives the parts back. */
  lemma {:induction false} SplitJoin(parts: seq<string>, c: char)
    requires |parts| >= 1
    requires forall i :: 0 <= i < |parts| ==> c !in parts[i]
    ensures Split(Join(parts, [c]), c) == parts
    decreases |parts|
  {
    if |parts| == 1 {
      SplitWithoutSeparator(parts[0], c);
    } else {
      SplitJoin(parts[1..], c);
      SplitConcat(parts[0], c, Join(parts[1..], [c]));
      assert [parts[0]] + parts[1..] == parts;
    }
  }

  /** `s.split(',').map(a => a.trim())`: the comma-separated parts, trimmed. */
  function SplitTrim(s: string): (r: seq<string>)
    ensures |r| == |Split(s, ',')| >= 1
    ensures forall i :: 0 <= i < |r| ==> r[i] == Trim(Split(s, ',')[i])
  {
    var parts := Split(s, ',');
    seq(|parts|, i requires 0 <= i < |parts| => Trim(parts[i]))
  }

  // ---------------------------------------------------------------- whitespace

  /** The whitespace class of `\s` and `String.prototype.trim`, restricted to ASCII. */
  predicate IsSpace(c: char)
  {
    c == ' ' || c == '\t' || c == '\n' || c == '\r' || c == '\U{B}' || c == '\U{C}'
  }

  predicate AllSpace(s: string)
  {
    forall i :: 0 <= i < |s| ==> IsSpace(s[i])
  }

  /** Leading whitespace removed. */
  function TrimStart(s: string): (r: string)
    ensures |r| <= |s| && r == s[|s| - |r|..]
    ensures AllSpace(s[..|s| - |r|])
    ensures |r| > 0 ==> !IsSpace(r[0])
  {
    if |s| > 0 && IsSpace(s[0]) then
      var r := TrimStart(s[1..]);
      assert s[..|s| - |r|] == [s[0]] + s[1..][..|s[1..]| - |r|];
      r
    else s
  }

  /** Trailing whitespace removed. */
  function TrimEnd(s: string): (r: string)
    ensures |r| <= |s| && r == s[..|r|]
    ensures AllSpace(s[|r|..])
    ensures |r| > 0 ==> !IsSpace(r[|r| - 1])
  {
    if |s| > 0 && IsSpace(s[|s| - 1]) then
      var r := TrimEnd(s[..|s| - 1]);
      assert s[|r|..] == s[..|s| - 1][|r|..] + [s[|s| - 1]];
      r
    else s
  }

  /** `s.trim()`: the middle slice of `s` between whitespace runs. */
  function Trim(s: string): (r: string)
    ensures |r| <= |s|
    ensures |r| > 0 ==> !IsSpace(r[0]) && !IsSpace(r[|r| - 1])
  {
    TrimStart(TrimEnd(s))
  }

  /** The trimmed text is the slice of `s` between a leading and a trailing
      run of whitespace. */
  lemma TrimIsMiddle(s: string)
    ensures exists i, j :: 0 <= i <= j <= |s| && Trim(s) == s[i..j] && AllSpace(s[..i]) && AllSpace(s[j..])
  {
    var e := TrimEnd(s);
    var r := TrimStart(e);
    var i, j := |e| - |r|, |e|;
    assert r == s[i..j] by {
      assert e == s[..j];
    }
    assert AllSpace(s[..i]) by {
      assert s[..i] == e[..i];
    }
    assert AllSpace(s[j..]);
  }

  /** Trimming an already trimmed string changes nothing. */
  lemma TrimIdempotent(s: string)
    ensures Trim(Trim(s)) == Trim(s)
  {
    var t := Trim(s);
    if |t| > 0 {
      assert TrimEnd(t) == t;
      assert TrimStart(t) == t;
    }
  }

  /** Whitespace and a non-space final character appended to `s`: trimming the
      end keeps everything up to that character. */
  lemma TrimEndAfterMark(s: string, c: char, tail: string)
    requires !IsSpace(c) && AllSpace(tail)
    ensures TrimEnd(s + [c] + tail) == s + [c]
    decreases |tail|
  {
    if |tail| > 0 {
      assert (s + [c] + tail)[..|s + [c] + tail| - 1] == s + [c] + tail[..|tail| - 1];
      TrimEndAfterMark(s, c, tail[..|tail| - 1]);
    } else {
      assert s + [c] + tail == s + [c];
    }
  }

  /** Appending whitespace does not change the end-trimmed text. */
  lemma TrimEndIgnoresTrailingSpace(s: string, tail: string)
    requires AllSpace(tail)
    ensures TrimEnd(s + tail) == TrimEnd(s)
    decreases |tail|
  {
    if |tail| > 0 {
      assert (s + tail)[..|s + tail| - 1] == s + tail[..|tail| - 1];
      TrimEndIgnoresTrailingSpace(s, tail[..|tail| - 1]);
    } else {
      assert s + tail == s;
    }
  }

  /** A string without leading or trailing whitespace is its own trim. */
  lemma TrimOfTrimmed(s: string)
    requires |s| == 0 || (!IsSpace(s[0]) && !IsSpace(s[|s| - 1]))
    ensures Trim(s) == s
  {
  }

  /** The last character of a non-empty trimmed string is the last character
      of the end-trimmed string. */
  lemma TrimLastChar(s: string)
    requires |Trim(s)| > 0
    ensures |TrimEnd(s)| > 0 && Trim(s)[|Trim(s)| - 1] == TrimEnd(s)[|TrimEnd(s)| - 1]
  {
    var e := TrimEnd(s);
    var r := TrimStart(e);
    assert r == e[|e| - |r|..];
  }

  // ---------------------------------------------------------------- case and characters

  predicate IsLowerAscii(c: char) { 'a' <= c <= 'z' }

  predicate IsUpperAscii(c: char) { 'A' <= c <= 'Z' }

  predicate IsDigit(c: char) { '0' <= c <= '9' }

  /** `toUpperCase` on one character, ASCII letters only. */
  function UpperChar(c: char): (r: char)
    ensures IsLowerAscii(c) ==> IsUpperAscii(r) && r as int == c as int - 32
    ensures !IsLowerAscii(c) ==> r == c
  {
    if IsLowerAscii(c) then (c as int - 32) as char else c
  }

  /** `toLowerCase` on one character, ASCII letters only. */
  function LowerChar(c: char): (r: char)
    ensures IsUpperAscii(c) ==> IsLowerAscii(r) && r as int == c as int + 32
    ensures !IsUpperAscii(c) ==> r == c
  {
    if IsUpperAscii(c) then (c as int + 32) as char else c
  }

  function ToUpper(s: string): (r: string)
    ensures |r| == |s| && forall i :: 0 <= i < |s| ==> r[i] == UpperChar(s[i])
  {
    seq(|s|, i requires 0 <= i < |s| => UpperChar(s[i]))
  }

  function ToLower(s: string): (r: string)
    ensures |r| == |s| && forall i :: 0 <= i < |s| ==> r[i] == LowerChar(s[i])
  {
    seq(|s|, i requires 0 <= i < |s| => LowerChar(s[i]))
  }

  /** `s.toLowerCase() === 'x'` for a lower-case letter `x` exactly when `s`
      is that letter in either case. */
  lemma LowerIsLetter(s: string, x: char)
    requires IsLowerAscii(x)
    ensures ToLower(s) == [x] <==> s == [x] || s == [UpperChar(x)]
  {
    if ToLower(s) == [x] {
      assert LowerChar(s[0]) == x;
    }
  }

  /** `s.replace(/a/g, b)` for single characters. */
  function ReplaceChar(s: string, a: char, b: char): (r: string)
    ensures |r| == |s| && forall i :: 0 <= i < |s| ==> r[i] == (if s[i] == a then b else s[i])
  {
    seq(|s|, i requires 0 <= i < |s| => if s[i] == a then b else s[i])
  }

  // ---------------------------------------------------------------- numbers

  function DigitChar(d: nat): (c: char)
    requires d < 10
    ensures IsDigit(c) && c as int - '0' as int == d
  {
    ('0' as int + d) as char
  }

  /** Decimal rendering of a natural number, as in a template literal. */
  function NatToString(n: nat): (r: string)
    ensures |r| > 0 && forall i :: 0 <= i < |r| ==> IsDigit(r[i])
  {
    if n < 10 then [DigitChar(n)] else NatToString(n / 10) + [DigitChar(n % 10)]
  }

  /** Value of a string of decimal digits (`parseInt(s, 10)` on digit strings). */
  function ParseNat(s: string): nat
    requires forall i :: 0 <= i < |s| ==> IsDigit(s[i])
  {
    if |s| == 0 then 0
    else
      assert IsDigit(s[|s| - 1]);
      ParseNat(s[..|s| - 1]) * 10 + (s[|s| - 1] as int - '0' as int)
  }

  /** Parsing the rendered number gives the number back. */
  lemma {:induction false} ParseRendered(n: nat)
    ensures ParseNat(NatToString(n)) == n
  {
    if n >= 10 {
      var s := NatToString(n);
      assert s[..|s| - 1] == NatToString(n / 10);
      ParseRendered(n / 10);
    }
  }

  // ---------------------------------------------------------------- ordering

  /** Lexicographic order by character code, as used by `Array.prototype.sort`. */
  predicate StrLe(a: string, b: string)
    decreases |a|
  {
    |a| == 0 || (|b| > 0 && (a[0] < b[0] || (a[0] == b[0] && StrLe(a[1..], b[1..]))))
  }

  lemma {:induction false} StrLeTotal(a: string, b: string)
    ensures StrLe(a, b) || StrLe(b, a)
    decreases |a|
  {
    if |a| > 0 && |b| > 0 && a[0] == b[0] {
      StrLeTotal(a[1..], b[1..]);
    }
  }

  lemma {:induction false} StrLeTransitive(a: string, b: string, c: string)
    requires StrLe(a, b) && StrLe(b, c)
    ensures StrLe(a, c)
    decreases |a|
  {
    if |a| > 0 && a[0] == b[0] && b[0] == c[0] {
      StrLeTransitive(a[1..], b[1..], c[1..]);
    }
  }

  lemma {:induction false} StrLeAntisymmetric(a: string, b: string)
    requires StrLe(a, b) && StrLe(b, a)
    ensures a == b
    decreases |a|
  {
    if |a| > 0 {
      StrLeAntisymmetric(a[1..], b[1..]);
      assert a == [a[0]] + a[1..];
      assert b == [b[0]] + b[1..];
    }
  }
}
