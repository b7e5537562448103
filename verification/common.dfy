/** The two form helpers shared by the sample apps (`autoNum` and
    `charLimit`); both sample apps define them identically. */
module Common {
  import opened Strings

  /** `autoNum`: the record number `<prefix>-<date>-<uniqueid>`. */
  function AutoNum(prefix: string, date: string, uniqueid: string): (r: string)
    ensures |r| == |prefix| + |date| + |uniqueid| + 2
    ensures StartsWith(r, prefix + "-") && EndsWith(r, "-" + uniqueid)
  {
    prefix + "-" + date + "-" + uniqueid
  }

  /** When no part holds a `-`, splitting the number on `-` gives the three
      parts back, so distinct parts give distinct numbers. */
  lemma AutoNumSplits(prefix: string, date: string, uniqueid: string)
    requires '-' !in prefix && '-' !in date && '-' !in uniqueid
    ensures Split(AutoNum(prefix, date, uniqueid), '-') == [prefix, date, uniqueid]
  {
    SplitJoin([prefix, date, uniqueid], '-');
    assert [prefix, date, uniqueid][1..] == [date, uniqueid];
    assert [date, uniqueid][1..] == [uniqueid];
    assert Join([uniqueid], "-") == uniqueid;
    assert Join([date, uniqueid], "-") == date + "-" + uniqueid;
    assert Join([prefix, date, uniqueid], "-") == AutoNum(prefix, date, uniqueid);
  }

  /** `text.replace(/\s+/g, '')`: the text without its whitespace. */
  function NoSpace(text: string): (r: string)
    ensures forall i :: 0 <= i < |r| ==> !IsSpace(r[i])
    ensures |r| <= |text|
    ensures (forall i :: 0 <= i < |text| ==> !IsSpace(text[i])) ==> r == text
  {
    if |text| == 0 then ""
    else if IsSpace(text[0]) then NoSpace(text[1..])
    else
      var rest := NoSpace(text[1..]);
      assert text == [text[0]] + text[1..];
      [text[0]] + rest
  }

  /** Removing whitespace distributes over concatenation. */
  lemma {:induction false} NoSpaceConcat(a: string, b: string)
    ensures NoSpace(a + b) == NoSpace(a) + NoSpace(b)
    decreases |a|
  {
    if |a| > 0 {
      assert (a + b)[1..] == a[1..] + b;
      NoSpaceConcat(a[1..], b);
    } else {
      assert a + b == b;
    }
  }

  /** Whitespace alone counts for nothing. */
  lemma {:induction false} NoSpaceOfSpace(ws: string)
    ensures AllSpace(ws) ==> NoSpace(ws) == ""
    decreases |ws|
  {
    if |ws| > 0 && AllSpace(ws) {
      assert IsSpace(ws[0]);
      NoSpaceOfSpace(ws[1..]);
    }
  }

  /** `charLimit`: the number of non-whitespace characters lies in
      `[min, max]`. */
  function CharLimit(text: string, min: int, max: int): (r: bool)
    ensures min > max ==> !r
    ensures (forall i :: 0 <= i < |text| ==> !IsSpace(text[i])) ==> (r <==> min <= |text| <= max)
    ensures AllSpace(text) ==> (r <==> min <= 0 <= max)
  {
    var count := |NoSpace(text)|;
    NoSpaceOfSpace(text);
    count >= min && count <= max
  }

  /** Inserting whitespace anywhere, or removing it, never changes the result. */
  lemma CharLimitIgnoresSpace(a: string, ws: string, b: string, min: int, max: int)
    requires AllSpace(ws)
    ensures CharLimit(a + ws + b, min, max) == CharLimit(a + b, min, max)
  {
    NoSpaceConcat(a + ws, b);
    NoSpaceConcat(a, ws);
    NoSpaceConcat(a, b);
    NoSpaceOfSpace(ws);
  }
}
