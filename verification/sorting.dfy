/** `names.sort().reverse()`: file names in descending lexicographic order. */
module Sorting {
  import opened Strings

  /** Every earlier name is at least every later one. */
  predicate SortedDesc(s: seq<string>)
  {
    forall i, j :: 0 <= i < j < |s| ==> StrLe(s[j], s[i])
  }

  /** Places `x` before the first element not greater than it. */
  function Insert(x: string, s: seq<string>): (r: seq<string>)
    requires SortedDesc(s)
    ensures multiset(r) == multiset(s) + multiset{x}
    ensures SortedDesc(r)
  {
    if |s| == 0 then [x]
    else if StrLe(s[0], x) then
      InsertFirst(x, s);
      [x] + s
    else
      var rest := Insert(x, s[1..]);
      InsertLater(x, s, rest);
      [s[0]] + rest
  }

  lemma InsertFirst(x: string, s: seq<string>)
    requires SortedDesc(s) && |s| > 0 && StrLe(s[0], x)
    ensures SortedDesc([x] + s)
  {
    forall j | 0 <= j < |s| ensures StrLe(s[j], x) {
      if j > 0 { StrLeTransitive(s[j], s[0], x); }
    }
  }

  lemma InsertLater(x: string, s: seq<string>, rest: seq<string>)
    requires SortedDesc(s) && |s| > 0 && !StrLe(s[0], x)
    requires multiset(rest) == multiset(s[1..]) + multiset{x} && SortedDesc(rest)
    ensures multiset([s[0]] + rest) == multiset(s) + multiset{x}
    ensures SortedDesc([s[0]] + rest)
  {
    StrLeTotal(s[0], x);
    assert s == [s[0]] + s[1..];
    forall j | 0 <= j < |rest| ensures StrLe(rest[j], s[0]) {
      var y := rest[j];
      assert y in multiset(rest);
      if y != x {
        assert y in multiset(s[1..]);
        var k :| 0 <= k < |s[1..]| && s[1..][k] == y;
        assert s[k + 1] == y;
      }
    }
  }

  /** The names of `s` in descending order. */
  function SortDesc(s: seq<string>): (r: seq<string>)
    ensures multiset(r) == multiset(s)
    ensures SortedDesc(r)
  {
    if |s| == 0 then []
    else
      assert s == [s[0]] + s[1..];
      Insert(s[0], SortDesc(s[1..]))
  }

  /** The first name after sorting is the greatest name of the input. */
  lemma SortDescHeadIsMax(s: seq<string>)
    requires |s| > 0
    ensures |SortDesc(s)| > 0 && SortDesc(s)[0] in s
    ensures forall x :: x in s ==> StrLe(x, SortDesc(s)[0])
  {
    var r := SortDesc(s);
    assert |r| == |multiset(r)| == |multiset(s)| == |s|;
    assert r[0] in multiset(r);
    forall x | x in s ensures StrLe(x, r[0]) {
      assert x in multiset(r);
      var j :| 0 <= j < |r| && r[j] == x;
      if j == 0 {
        StrLeTotal(x, x);
      }
    }
  }
}
