/**
 * Label counting over a set of record indices: `frequenciesOfLabels`,
 * `majorityLabel` and `areRecordsSameClass`.
 *
 * The source keeps label counts in a `HashMap<String, Integer>`. Here the map
 * is an association list with distinct labels, kept in the order in which the
 * labels are first met while walking the index set. Sums and maxima over it do
 * not depend on that order; the majority label's tie-break does (see
 * `MajorityLabel`).
 */
module Counting {
  import opened Data

  datatype LabelCount = LabelCount(labelName: Label, count: nat)

  type FreqTable = seq<LabelCount>

  /** The key set of the table. */
  function Keys(t: FreqTable): set<Label>
  {
    if t == [] then {} else {t[0].labelName} + Keys(t[1..])
  }

  /** No label is keyed twice. */
  ghost predicate DistinctLabels(t: FreqTable)
  {
    t == [] || (t[0].labelName !in Keys(t[1..]) && DistinctLabels(t[1..]))
  }

  /** Only observed labels are keyed. */
  ghost predicate PositiveCounts(t: FreqTable)
  {
    forall j :: 0 <= j < |t| ==> t[j].count >= 1
  }

  /** The total of all counts. */
  function CountSum(t: FreqTable): nat
  {
    if t == [] then 0 else t[0].count + CountSum(t[1..])
  }

  /** `HashMap.get`, with 0 for a label that is not a key: a count is never more than the total. */
  function Lookup(t: FreqTable, l: Label): (r: nat)
    ensures l !in Keys(t) ==> r == 0
    ensures r <= CountSum(t)
  {
    if t == [] then 0
    else if t[0].labelName == l then t[0].count
    else Lookup(t[1..], l)
  }

  /** One step of the counting loop: `put(l, get(l) + 1)` when `l` is a key, `put(l, 1)` otherwise. */
  function Increment(t: FreqTable, l: Label): (r: FreqTable)
    ensures r != [] && Keys(r) == Keys(t) + {l}
    ensures |r| == if l in Keys(t) then |t| else |t| + 1
    ensures CountSum(r) == CountSum(t) + 1
    ensures forall m :: Lookup(r, m) == Lookup(t, m) + (if m == l then 1 else 0)
    ensures DistinctLabels(t) ==> DistinctLabels(r)
    ensures PositiveCounts(t) ==> PositiveCounts(r)
  {
    if t == [] then [LabelCount(l, 1)]
    else if t[0].labelName == l then [LabelCount(l, t[0].count + 1)] + t[1..]
    else [t[0]] + Increment(t[1..], l)
  }

  /** The number of records in `idx` labelled `l`. */
  function Occurrences(recs: seq<Record>, idx: seq<nat>, l: Label): nat
    requires IndicesIn(recs, idx)
  {
    if idx == [] then 0
    else
      var last := idx[|idx| - 1];
      assert last in idx;
      assert IndicesIn(recs, idx[..|idx| - 1]) by { PrefixIndicesIn(recs, idx); }
      Occurrences(recs, idx[..|idx| - 1], l) + (if recs[last].classLabel == l then 1 else 0)
  }

  /** The labels of the records in `idx`. */
  ghost function LabelsIn(recs: seq<Record>, idx: seq<nat>): set<Label>
    requires IndicesIn(recs, idx)
  {
    set i | i in idx :: recs[i].classLabel
  }

  lemma LabelsInSubset(recs: seq<Record>, sub: seq<nat>, idx: seq<nat>)
    requires IndicesIn(recs, idx)
    requires forall i :: i in sub ==> i in idx
    ensures IndicesIn(recs, sub)
    ensures LabelsIn(recs, sub) <= LabelsIn(recs, idx)
  {
  }

  lemma PrefixIndicesIn(recs: seq<Record>, idx: seq<nat>)
    requires IndicesIn(recs, idx) && idx != []
    ensures idx[|idx| - 1] < |recs|
    ensures IndicesIn(recs, idx[..|idx| - 1])
    ensures LabelsIn(recs, idx) == LabelsIn(recs, idx[..|idx| - 1]) + {recs[idx[|idx| - 1]].classLabel}
  {
    var p := idx[..|idx| - 1];
    assert idx[|idx| - 1] in idx;
    assert idx == p + [idx[|idx| - 1]];
    forall x | x in p ensures x in idx { }
  }

  /**
   * `frequenciesOfLabels`: the label-count table of the records in `idx`. Its
   * keys are exactly the labels that occur, each with its number of
   * occurrences (at least one), and the counts add up to the size of `idx`.
   */
  function Frequencies(recs: seq<Record>, idx: seq<nat>): (t: FreqTable)
    requires IndicesIn(recs, idx)
    ensures DistinctLabels(t) && PositiveCounts(t)
    ensures CountSum(t) == |idx|
    ensures (t == []) == (idx == [])
  {
    if idx == [] then []
    else
      assert idx[|idx| - 1] < |recs| && IndicesIn(recs, idx[..|idx| - 1]) by { PrefixIndicesIn(recs, idx); }
      Increment(Frequencies(recs, idx[..|idx| - 1]), recs[idx[|idx| - 1]].classLabel)
  }

  /** The keys of the table are the labels that occur, each with its number of occurrences. */
  lemma {:induction false} FrequenciesCounts(recs: seq<Record>, idx: seq<nat>)
    requires IndicesIn(recs, idx)
    ensures Keys(Frequencies(recs, idx)) == LabelsIn(recs, idx)
    ensures forall l :: Lookup(Frequencies(recs, idx), l) == Occurrences(recs, idx, l)
  {
    if idx != [] {
      PrefixIndicesIn(recs, idx);
      FrequenciesCounts(recs, idx[..|idx| - 1]);
    }
  }

  /** Counting one more index of the walk adds that record's label to the table. */
  lemma FrequenciesStep(recs: seq<Record>, idx: seq<nat>, i: nat)
    requires IndicesIn(recs, idx) && i < |idx|
    ensures idx[i] < |recs| && IndicesIn(recs, idx[..i]) && IndicesIn(recs, idx[..i + 1])
    ensures Frequencies(recs, idx[..i + 1]) == Increment(Frequencies(recs, idx[..i]), recs[idx[i]].classLabel)
  {
    assert idx[i] in idx;
    SliceMembers(idx, i);
    SliceMembers(idx, i + 1);
    PrefixStep(idx, i);
  }

  lemma SuffixIndicesIn(recs: seq<Record>, idx: seq<nat>)
    requires IndicesIn(recs, idx) && idx != []
    ensures idx[0] < |recs|
    ensures IndicesIn(recs, idx[1..])
    ensures LabelsIn(recs, idx) == {recs[idx[0]].classLabel} + LabelsIn(recs, idx[1..])
  {
    var q := idx[1..];
    assert idx[0] in idx;
    assert idx == [idx[0]] + q;
    forall x | x in q ensures x in idx { }
  }

  lemma {:induction false} KeyIndex(t: FreqTable, l: Label) returns (j: nat)
    requires l in Keys(t)
    ensures j < |t| && t[j].labelName == l
  {
    if t[0].labelName == l {
      j := 0;
    } else {
      j := KeyIndex(t[1..], l);
      j := j + 1;
    }
  }

  lemma {:induction false} KeyAt(t: FreqTable, j: nat)
    requires j < |t|
    ensures t[j].labelName in Keys(t)
  {
    if j > 0 {
      KeyAt(t[1..], j - 1);
    }
  }

  /** In a table without repeated keys, looking up an entry's label finds that entry's count. */
  lemma {:induction false} LookupEntry(t: FreqTable, j: nat)
    requires DistinctLabels(t) && j < |t|
    ensures Lookup(t, t[j].labelName) == t[j].count
  {
    if j > 0 {
      KeyAt(t[1..], j - 1);
      LookupEntry(t[1..], j - 1);
    }
  }

  /** A table without repeated keys has as many entries as keys. */
  lemma {:induction false} KeysCardinality(t: FreqTable)
    requires DistinctLabels(t)
    ensures |Keys(t)| == |t|
  {
    if t != [] {
      KeysCardinality(t[1..]);
    }
  }

  /**
   * The second loop of `majorityLabel`: walks the keys and keeps a label whose
   * count strictly exceeds the best count so far.
   */
  function MostFrequent(t: FreqTable, maxLabel: Option<Label>, maxFrequency: int): (r: (Option<Label>, int))
    ensures r.1 >= maxFrequency
    ensures forall j :: 0 <= j < |t| ==> t[j].count <= r.1
    ensures r == (maxLabel, maxFrequency) || (r.0.Some? && r.1 > maxFrequency && r.1 >= 0 && LabelCount(r.0.value, r.1) in t)
  {
    if t == [] then (maxLabel, maxFrequency)
    else if t[0].count > maxFrequency then MostFrequent(t[1..], Some(t[0].labelName), t[0].count)
    else MostFrequent(t[1..], maxLabel, maxFrequency)
  }

  /** Over a non-empty table of observed labels, the scan yields a key whose count is maximal. */
  lemma MostFrequentIsMaximal(t: FreqTable)
    requires t != [] && DistinctLabels(t) && PositiveCounts(t)
    ensures var r := MostFrequent(t, None, IntMin);
      r.0.Some? && r.0.value in Keys(t) && forall l :: Lookup(t, l) <= Lookup(t, r.0.value)
  {
    var r := MostFrequent(t, None, IntMin);
    assert t[0].count <= r.1;
    assert r.0.Some? && LabelCount(r.0.value, r.1) in t;
    var k :| 0 <= k < |t| && t[k] == LabelCount(r.0.value, r.1);
    KeyAt(t, k);
    LookupEntry(t, k);
    forall l ensures Lookup(t, l) <= r.1 {
      if l in Keys(t) {
        var j := KeyIndex(t, l);
        LookupEntry(t, j);
      }
    }
  }

  /**
   * `majorityLabel`: `None` (Java `null`) exactly for an empty index set;
   * otherwise a label that occurs in the set at least as often as any other.
   * On a tie the label first met in index order wins.
   */
  function MajorityLabel(recs: seq<Record>, idx: seq<nat>): (r: Option<Label>)
    requires IndicesIn(recs, idx)
    ensures r.None? <==> idx == []
    ensures r.Some? ==> r.value in LabelsIn(recs, idx)
    ensures r.Some? ==> forall l :: Occurrences(recs, idx, l) <= Occurrences(recs, idx, r.value)
  {
    var t := Frequencies(recs, idx);
    assert t != [] ==> var r := MostFrequent(t, None, IntMin);
        r.0.Some? && r.0.value in Keys(t) && forall l :: Lookup(t, l) <= Lookup(t, r.0.value)
      by { if t != [] { MostFrequentIsMaximal(t); } }
    assert Keys(t) == LabelsIn(recs, idx) && forall l :: Lookup(t, l) == Occurrences(recs, idx, l)
      by { FrequenciesCounts(recs, idx); }
    MostFrequent(t, None, IntMin).0
  }

  /** The loop of `areRecordsSameClass`: every record in `idx` carries label `l`. */
  function AllLabelled(recs: seq<Record>, idx: seq<nat>, l: Label): (r: bool)
    requires IndicesIn(recs, idx)
    ensures r <==> LabelsIn(recs, idx) <= {l}
  {
    if idx == [] then true
    else
      assert idx[0] < |recs| && IndicesIn(recs, idx[1..]) by { SuffixIndicesIn(recs, idx); }
      assert LabelsIn(recs, idx) == {recs[idx[0]].classLabel} + LabelsIn(recs, idx[1..])
        by { SuffixIndicesIn(recs, idx); }
      recs[idx[0]].classLabel == l && AllLabelled(recs, idx[1..], l)
  }

  lemma Singleton<T>(s: set<T>, x: T)
    requires x in s
    ensures |s| == 1 <==> s == {x}
  {
    if |s| == 1 {
      var rest := s - {x};
      assert |rest| == 0;
      assert rest == {};
    }
  }

  /**
   * `areRecordsSameClass`: false on an empty set, and otherwise true exactly
   * when the records in `idx` carry a single label.
   */
  function AreRecordsSameClass(recs: seq<Record>, idx: seq<nat>): (r: bool)
    requires IndicesIn(recs, idx)
    ensures r <==> |LabelsIn(recs, idx)| == 1
    ensures r ==> idx != []
  {
    if idx == [] then false
    else
      assert idx[|idx| - 1] < |recs| by { PrefixIndicesIn(recs, idx); }
      var l := recs[idx[|idx| - 1]].classLabel;
      assert l in LabelsIn(recs, idx) by { assert idx[|idx| - 1] in idx; }
      assert |LabelsIn(recs, idx)| == 1 <==> LabelsIn(recs, idx) == {l} by { Singleton(LabelsIn(recs, idx), l); }
      AllLabelled(recs, idx, l)
  }

  /** A group is pure exactly when its label-count table has a single key. */
  lemma SameClassIffSingleKey(recs: seq<Record>, idx: seq<nat>)
    requires IndicesIn(recs, idx)
    ensures AreRecordsSameClass(recs, idx) <==> |Frequencies(recs, idx)| == 1
  {
    KeysCardinality(Frequencies(recs, idx));
    FrequenciesCounts(recs, idx);
  }
}
