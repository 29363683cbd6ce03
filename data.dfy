/**
 * Records, index sets and the numeric conventions of the classifier.
 *
 * A record is a vector of attribute values (Java `double`, here `real`) and a
 * class label. The working sets of record indices and column indices are Java
 * `TreeSet<Integer>`s; they are modelled as strictly ascending sequences, so
 * that iterating over them visits the elements in the `TreeSet`'s order.
 */
module Data {

  datatype Option<T> = None | Some(value: T)

  type Label = string

  datatype Record = Record(attrs: seq<real>, classLabel: Label)

  /** Java's `Integer.MIN_VALUE` and `Integer.MAX_VALUE`. */
  const IntMin: int := -0x8000_0000
  const IntMax: int := 0x7fff_ffff

  /** Java's `(int)` cast of a `double`: truncation toward zero, saturating at the `int` range. */
  function TruncToInt(x: real): (r: int)
    ensures IntMin <= r <= IntMax
    ensures r == 0 <==> -1.0 < x < 1.0
    ensures r == 1 <==> 1.0 <= x < 2.0
  {
    var t := if x >= 0.0 then x.Floor else -((-x).Floor);
    if t < IntMin then IntMin else if t > IntMax then IntMax else t
  }

  /** Java's `Double.MAX_VALUE`, (2^53 - 1) * 2^971, written out as an exact real. */
  const DoubleMax: real := 179769313486231570814527423731704356798070567525844996598917476803157260780028538760589558632766878171540458953514382464234321326889464182768467546703537516986049910576551282076245490090389328944075868508455133942304583236903222948165808559332123348274797826204144723168738177180919299881250404026184124858368.0

  /** Java's `Double.MIN_VALUE`, the smallest positive double 2^-1074, written out as an exact real. */
  const DoubleMinValue: real := 1.0 / 202402253307310618352495346718917307049556649764142118356901358027430339567995346891960383701437124495187077864316811911389808737385793476867013399940738509921517424276566361364466907742093216341239767678472745068562007483424692698618103355649159556340810056512358769552333414615230502532186327508646006263307707741093494784.0

  /** A `TreeSet<Integer>` as the sequence of its elements in iteration order. */
  ghost predicate Ascending(s: seq<nat>)
  {
    forall i, j :: 0 <= i < j < |s| ==> s[i] < s[j]
  }

  /** The set {0, ..., n-1}, as `buildTree` fills it one index at a time. */
  function Range(n: nat): (r: seq<nat>)
    ensures |r| == n && Ascending(r)
    ensures forall i :: 0 <= i < n ==> r[i] == i
    ensures forall x: int :: x in r <==> 0 <= x < n
  {
    if n == 0 then [] else Range(n - 1) + [n - 1]
  }

  /** `TreeSet.remove(x)` on an ascending sequence. */
  function RemoveValue(s: seq<nat>, x: nat): (r: seq<nat>)
    requires Ascending(s)
    ensures Ascending(r)
    ensures forall y :: y in r <==> y in s && y != x
    ensures x in s ==> |r| == |s| - 1
    ensures x !in s ==> r == s
  {
    if s == [] then []
    else
      SuffixMembers(s);
      var r := RemoveValue(s[1..], x);
      if s[0] == x then r
      else
        assert forall j :: 0 <= j < |r| ==> s[0] < r[j] by {
          forall j | 0 <= j < |r| ensures s[0] < r[j] {
            assert r[j] in r;
          }
        }
        [s[0]] + r
  }

  /** Every element of `s` is smaller than `x`. */
  ghost predicate Below(s: seq<nat>, x: nat)
  {
    forall y :: y in s ==> y < x
  }

  lemma AppendAscending(s: seq<nat>, x: nat)
    requires Ascending(s) && Below(s, x)
    ensures Ascending(s + [x])
  {
    forall i | 0 <= i < |s| ensures s[i] < x {
      assert s[i] in s;
    }
  }

  /** The first `i` elements of `s` are elements of `s`. */
  lemma SliceMembers<T>(s: seq<T>, i: nat)
    requires i <= |s|
    ensures forall y :: y in s[..i] ==> y in s
  {
    assert s == s[..i] + s[i..];
  }

  /** Dropping the last element of the first `i + 1` elements leaves the first `i`. */
  lemma PrefixStep<T>(s: seq<T>, i: nat)
    requires i < |s|
    ensures |s[..i + 1]| == i + 1
    ensures s[..i + 1][..i] == s[..i] && s[..i + 1][i] == s[i]
  {
  }

  lemma PrefixMembers(s: seq<nat>)
    requires s != []
    ensures s[|s| - 1] in s
    ensures forall y :: y in s[..|s| - 1] ==> y in s
    ensures Ascending(s) ==> Ascending(s[..|s| - 1]) && Below(s[..|s| - 1], s[|s| - 1])
  {
    var p := s[..|s| - 1];
    assert s == p + [s[|s| - 1]];
    forall y | y in p ensures y in s && (Ascending(s) ==> y < s[|s| - 1]) {
      var k :| 0 <= k < |p| && p[k] == y;
      assert s[k] == y;
    }
  }

  lemma SuffixMembers(s: seq<nat>)
    requires s != []
    ensures s[0] in s
    ensures forall y :: y in s[1..] ==> y in s
    ensures Ascending(s) ==> Ascending(s[1..]) && forall y :: y in s[1..] ==> s[0] < y
  {
    var q := s[1..];
    assert s == [s[0]] + q;
    forall y | y in q ensures y in s && (Ascending(s) ==> s[0] < y) {
      var k :| 0 <= k < |q| && q[k] == y;
      assert s[k + 1] == y;
    }
  }

  /** Every index in `idx` is a valid position of `recs`. */
  ghost predicate IndicesIn(recs: seq<Record>, idx: seq<nat>)
  {
    forall i :: i in idx ==> i < |recs|
  }

  /** Every record in `idx` has a value at every column in `cols`. */
  ghost predicate Readable(recs: seq<Record>, idx: seq<nat>, cols: seq<nat>)
  {
    IndicesIn(recs, idx) &&
    forall i, c :: i in idx && c in cols ==> c < |recs[i].attrs|
  }

  lemma ReadableSubset(recs: seq<Record>, idx: seq<nat>, cols: seq<nat>, idx': seq<nat>, cols': seq<nat>)
    requires Readable(recs, idx, cols)
    requires forall i :: i in idx' ==> i in idx
    requires forall c :: c in cols' ==> c in cols
    ensures Readable(recs, idx', cols')
  {
  }

  /** Every record has at least `n` attribute values. */
  ghost predicate WideEnough(recs: seq<Record>, n: nat)
  {
    forall r :: r in recs ==> n <= |r.attrs|
  }

  /** With `n` columns read from records at least `n` wide, every record and every column can be read. */
  lemma ReadableAll(recs: seq<Record>, n: nat)
    requires WideEnough(recs, n)
    ensures Readable(recs, Range(|recs|), Range(n))
  {
    forall i, c | i in Range(|recs|) && c in Range(n) ensures c < |recs[i].attrs| {
      assert recs[i] in recs;
    }
  }

  /** `ArrayList.remove(i)`. */
  function RemoveAt<T>(s: seq<T>, i: nat): (r: seq<T>)
    requires i < |s|
    ensures |r| == |s| - 1
    ensures forall j :: 0 <= j < i ==> r[j] == s[j]
    ensures forall j :: i <= j < |r| ==> r[j] == s[j + 1]
    ensures multiset(r) + multiset{s[i]} == multiset(s)
    ensures forall x :: x in r ==> x in s
  {
    assert s == s[..i] + [s[i]] + s[i + 1..];
    s[..i] + s[i + 1..]
  }

  /** `ArrayList.add(i, x)`. */
  function InsertAt<T>(s: seq<T>, i: nat, x: T): (r: seq<T>)
    requires i <= |s|
    ensures |r| == |s| + 1 && r[i] == x
    ensures forall j :: 0 <= j < i ==> r[j] == s[j]
    ensures forall j :: i < j < |r| ==> r[j] == s[j - 1]
  {
    s[..i] + [x] + s[i..]
  }

  /** Removing the element at `i` and adding it back at `i` restores the list. */
  lemma InsertAtRemoveAt<T>(s: seq<T>, i: nat)
    requires i < |s|
    ensures InsertAt(RemoveAt(s, i), i, s[i]) == s
  {
  }
}
