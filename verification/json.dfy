/** JSON values as the scripts read and write them. Objects keep the order of
    their members, because `JSON.stringify` (used by the scripts to compare
    definitions) is sensitive to that order. */
module Json {
  import opened Wrappers
  import opened Seqs

  datatype Json =
    | JNull
    | JBool(b: bool)
    | JNum(n: int)
    | JStr(s: string)
    | JArr(items: seq<Json>)
    | JObj(members: seq<(string, Json)>)

  /** JavaScript truthiness of a JSON value: `null`, `false`, `0` and `""`
      are falsy, arrays and objects are truthy. */
  predicate JsTruthy(j: Json)
  {
    match j
    case JNull => false
    case JBool(b) => b
    case JNum(n) => n != 0
    case JStr(s) => s != ""
    case _ => true
  }

  /** The member keys of an ordered object, in order (`Object.keys`). */
  function Keys<V>(m: seq<(string, V)>): (r: seq<string>)
    ensures |r| == |m| && forall i :: 0 <= i < |m| ==> r[i] == m[i].0
  {
    if |m| == 0 then [] else [m[0].0] + Keys(m[1..])
  }

  /** The keys of two member lists placed one after the other. */
  lemma {:induction false} KeysAppend<V>(a: seq<(string, V)>, b: seq<(string, V)>)
    ensures Keys(a + b) == Keys(a) + Keys(b)
  {
    if |a| > 0 {
      assert (a + b)[1..] == a[1..] + b;
      KeysAppend(a[1..], b);
    } else {
      assert a + b == b;
    }
  }

  /** A JavaScript object never holds a key twice. */
  predicate WellFormed<V>(m: seq<(string, V)>)
  {
    Distinct(Keys(m))
  }

  /** `obj[k]`, None for `undefined`. */
  function Get<V>(m: seq<(string, V)>, k: string): (r: Option<V>)
    ensures r.Some? <==> k in Keys(m)
    ensures r.Some? ==> (k, r.value) in m
  {
    if |m| == 0 then None
    else if m[0].0 == k then Some(m[0].1)
    else
      assert Keys(m) == [m[0].0] + Keys(m[1..]);
      Get(m[1..], k)
  }

  /** In a well-formed object the value found for a key is the value of its member. */
  lemma GetMember<V>(m: seq<(string, V)>, i: int)
    requires WellFormed(m) && 0 <= i < |m|
    ensures Get(m, m[i].0) == Some(m[i].1)
  {
    if i > 0 {
      assert Keys(m)[0] != Keys(m)[i];
      assert Keys(m[1..]) == Keys(m)[1..];
      GetMember(m[1..], i - 1);
    }
  }

  /** Looking up in an object with a given first member. */
  lemma GetCons<V>(p: (string, V), t: seq<(string, V)>, k: string)
    ensures Get([p] + t, k) == if p.0 == k then Some(p.1) else Get(t, k)
  {
    assert ([p] + t)[1..] == t;
  }

  /** `obj[k] = v`: an existing key keeps its position, a new key goes last. */
  function Put<V>(m: seq<(string, V)>, k: string, v: V): (r: seq<(string, V)>)
    ensures Get(r, k) == Some(v)
    ensures forall k' :: k' != k ==> Get(r, k') == Get(m, k')
    ensures k in Keys(m) ==> Keys(r) == Keys(m)
    ensures k !in Keys(m) ==> Keys(r) == Keys(m) + [k]
    decreases |m|, 1
  {
    if |m| == 0 then [(k, v)]
    else
      if m[0].0 == k then
        PutHere(m, k, v);
        [(k, v)] + m[1..]
      else
        PutLater(m, k, v);
        [m[0]] + Put(m[1..], k, v)
  }

  lemma PutHere<V>(m: seq<(string, V)>, k: string, v: V)
    requires |m| > 0 && m[0].0 == k
    ensures Get([(k, v)] + m[1..], k) == Some(v)
    ensures forall k' :: k' != k ==> Get([(k, v)] + m[1..], k') == Get(m, k')
    ensures Keys([(k, v)] + m[1..]) == Keys(m)
  {
    var r := [(k, v)] + m[1..];
    assert r[1..] == m[1..];
    forall k' | k' != k ensures Get(r, k') == Get(m, k') {
    }
  }

  lemma PutLater<V>(m: seq<(string, V)>, k: string, v: V)
    requires |m| > 0 && m[0].0 != k
    ensures Get([m[0]] + Put(m[1..], k, v), k) == Some(v)
    ensures forall k' :: k' != k ==> Get([m[0]] + Put(m[1..], k, v), k') == Get(m, k')
    ensures k in Keys(m) ==> Keys([m[0]] + Put(m[1..], k, v)) == Keys(m)
    ensures k !in Keys(m) ==> Keys([m[0]] + Put(m[1..], k, v)) == Keys(m) + [k]
    decreases |m|, 0
  {
    var rest := Put(m[1..], k, v);
    PutLaterGet(m, rest, k, v);
    PutLaterKeys(m, rest, k);
  }

  lemma PutLaterGet<V>(m: seq<(string, V)>, rest: seq<(string, V)>, k: string, v: V)
    requires |m| > 0 && m[0].0 != k
    requires Get(rest, k) == Some(v)
    requires forall k' :: k' != k ==> Get(rest, k') == Get(m[1..], k')
    ensures Get([m[0]] + rest, k) == Some(v)
    ensures forall k' :: k' != k ==> Get([m[0]] + rest, k') == Get(m, k')
  {
    GetCons(m[0], rest, k);
    forall k' | k' != k ensures Get([m[0]] + rest, k') == Get(m, k') {
      GetCons(m[0], rest, k');
      GetCons(m[0], m[1..], k');
      assert [m[0]] + m[1..] == m;
    }
  }

  lemma PutLaterKeys<V>(m: seq<(string, V)>, rest: seq<(string, V)>, k: string)
    requires |m| > 0 && m[0].0 != k
    requires k in Keys(m[1..]) ==> Keys(rest) == Keys(m[1..])
    requires k !in Keys(m[1..]) ==> Keys(rest) == Keys(m[1..]) + [k]
    ensures k in Keys(m) ==> Keys([m[0]] + rest) == Keys(m)
    ensures k !in Keys(m) ==> Keys([m[0]] + rest) == Keys(m) + [k]
  {
    var r := [m[0]] + rest;
    assert r[1..] == rest;
    assert Keys(r) == [m[0].0] + Keys(rest);
    assert Keys(m) == [m[0].0] + Keys(m[1..]);
    assert k in Keys(m) <==> k in Keys(m[1..]);
    if k in Keys(m[1..]) {
      assert Keys(r) == Keys(m);
    } else {
      assert Keys(r) == [m[0].0] + (Keys(m[1..]) + [k]);
      assert [m[0].0] + (Keys(m[1..]) + [k]) == ([m[0].0] + Keys(m[1..])) + [k];
    }
  }

  /** The object without the members whose keys are in `drop`, other members
      unchanged and in their order (`const {a, b, ...rest} = obj`). */
  function Without<V>(m: seq<(string, V)>, drop: set<string>): (r: seq<(string, V)>)
    ensures Keys(r) == Filter(Keys(m), k => k !in drop)
    ensures forall k :: Get(r, k) == if k in drop then None else Get(m, k)
    ensures WellFormed(m) ==> WellFormed(r)
  {
    if |m| == 0 then []
    else
      var rest := Without(m[1..], drop);
      assert Keys(m)[1..] == Keys(m[1..]);
      if m[0].0 in drop then rest
      else
        assert Keys([m[0]] + rest) == [m[0].0] + Keys(rest);
        [m[0]] + rest
  }

  /** The keys of `a` that `b` lacks, in the order of `a`
      (`[...keysA].filter(k => !keysB.has(k))`). */
  function KeysOnlyIn<V, W>(a: seq<(string, V)>, b: seq<(string, W)>): (r: seq<string>)
    ensures forall k :: k in r <==> k in Keys(a) && k !in Keys(b)
    ensures IsSubsequence(r, Keys(a))
    ensures WellFormed(a) ==> Distinct(r)
  {
    var kb := Keys(b);
    Filter(Keys(a), k => k !in kb)
  }

  /** The keys of `a` that `b` also has, in the order of `a`. */
  function CommonKeys<V, W>(a: seq<(string, V)>, b: seq<(string, W)>): (r: seq<string>)
    ensures forall k :: k in r <==> k in Keys(a) && k in Keys(b)
    ensures IsSubsequence(r, Keys(a))
    ensures WellFormed(a) ==> Distinct(r)
  {
    var kb := Keys(b);
    Filter(Keys(a), k => k in kb)
  }

  /** Dropping the same keys a second time changes nothing. */
  lemma {:induction false} WithoutIdempotent<V>(m: seq<(string, V)>, drop: set<string>)
    ensures Without(Without(m, drop), drop) == Without(m, drop)
  {
    if |m| > 0 {
      WithoutIdempotent(m[1..], drop);
      var rest := Without(m[1..], drop);
      if m[0].0 !in drop {
        assert ([m[0]] + rest)[1..] == rest;
      }
    }
  }
}
