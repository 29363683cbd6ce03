/**
 * The classifier object: its list of training records, its number of
 * attributes and the root of its tree. The operations that loop over the
 * records or update the object are methods, each proved against the function
 * that specifies it; the validation procedures take records out of the list,
 * learn a tree from the rest, classify the records taken out and put them back.
 */
module Classifier {
  import opened Data
  import opened Counting
  import opened Impurity
  import opened Split
  import opened Tree

  /** The number of rounds of random sampling. */
  const Iterations: nat := 300

  /** The tree `buildTree` learns from `recs`: from every record, over every column below `n`. */
  function TrainTree(recs: seq<Record>, n: nat): (t: TreeNode)
    requires WideEnough(recs, n)
    ensures t == Leaf(None) <==> recs == []
  {
    assert Readable(recs, Range(|recs|), Range(n)) by { ReadableAll(recs, n); }
    BuildLeafLabels(recs, Range(|recs|), Range(n));
    Build(recs, Range(|recs|), Range(n))
  }

  /**
   * A tree learnt from records at least `n` wide tests only columns below `n`;
   * learnt from at least one record, none of its leaves lacks a label (Java
   * `null`).
   */
  lemma TrainTreeShape(recs: seq<Record>, n: nat)
    requires WideEnough(recs, n)
    ensures forall c :: c in Columns(TrainTree(recs, n)) ==> c < n
    ensures recs != [] ==> None !in LeafLabels(TrainTree(recs, n))
  {
    ReadableAll(recs, n);
    BuildColumns(recs, Range(|recs|), Range(n));
    BuildLeafLabels(recs, Range(|recs|), Range(n));
  }

  /**
   * Any record at least `n` wide can be classified by a tree learnt over `n`
   * columns, and receives a label unless the tree was learnt from no record.
   */
  lemma TrainTreeClassifies(recs: seq<Record>, n: nat, attrs: seq<real>)
    requires WideEnough(recs, n) && n <= |attrs|
    ensures Fits(TrainTree(recs, n), attrs)
    ensures ClassifyTree(TrainTree(recs, n), attrs).None? <==> recs == []
  {
    TrainTreeShape(recs, n);
  }

  /** Records drawn from a list of records at least `n` wide are at least `n` wide. */
  lemma WideEnoughSubset(recs: seq<Record>, sub: seq<Record>, n: nat)
    requires WideEnough(recs, n)
    requires multiset(sub) <= multiset(recs)
    ensures WideEnough(sub, n)
  {
    forall r | r in sub ensures n <= |r.attrs| {
      assert r in multiset(sub);
    }
  }

  /**
   * The number of records of `rs` to which the tree does not give their own
   * label, a `null` label counting as a mismatch.
   */
  function Misclassified(t: TreeNode, rs: seq<Record>): (m: nat)
    requires forall r :: r in rs ==> Fits(t, r.attrs)
    ensures m <= |rs|
  {
    if rs == [] then 0
    else
      var last := rs[|rs| - 1];
      assert last in rs && forall r :: r in rs[..|rs| - 1] ==> r in rs by {
        assert rs == rs[..|rs| - 1] + [last];
      }
      Misclassified(t, rs[..|rs| - 1]) + (if ClassifyTree(t, last.attrs) != Some(last.classLabel) then 1 else 0)
  }

  /** A tree that gives every record of `rs` its own label misclassifies none of them. */
  lemma {:induction false} MisclassifiedNone(t: TreeNode, rs: seq<Record>)
    requires forall r :: r in rs ==> Fits(t, r.attrs)
    requires forall r :: r in rs ==> ClassifyTree(t, r.attrs) == Some(r.classLabel)
    ensures Misclassified(t, rs) == 0
  {
    if rs != [] {
      assert rs == rs[..|rs| - 1] + [rs[|rs| - 1]];
      MisclassifiedNone(t, rs[..|rs| - 1]);
    }
  }

  /** When all records carry one label, the tree learnt from them has no training error. */
  lemma PureTrainingError(recs: seq<Record>, n: nat, l: Label)
    requires WideEnough(recs, n) && recs != []
    requires forall r :: r in recs ==> r.classLabel == l
    ensures forall r :: r in recs ==> Fits(TrainTree(recs, n), r.attrs)
    ensures Misclassified(TrainTree(recs, n), recs) == 0
  {
    var idx := Range(|recs|);
    ReadableAll(recs, n);
    assert LabelsIn(recs, idx) == {l} by {
      assert 0 in idx && recs[0] in recs;
      forall x | x in LabelsIn(recs, idx) ensures x == l {
        var i :| i in idx && recs[i].classLabel == x;
        assert recs[i] in recs;
      }
    }
    BuildRules(recs, idx, Range(n));
    assert TrainTree(recs, n) == Leaf(Some(l));
    MisclassifiedNone(TrainTree(recs, n), recs);
  }

  /**
   * When the records hold only 0 or 1 in the first `n` columns and every leaf
   * of the tree learnt from them comes from a group of a single label, the
   * tree has no training error.
   */
  lemma PureLeavesTrainingError(recs: seq<Record>, n: nat)
    requires WideEnough(recs, n)
    requires forall r, c :: r in recs && 0 <= c < n ==> r.attrs[c] == 0.0 || r.attrs[c] == 1.0
    requires Readable(recs, Range(|recs|), Range(n)) && PureLeaves(recs, Range(|recs|), Range(n))
    ensures forall r :: r in recs ==> Fits(TrainTree(recs, n), r.attrs)
    ensures Misclassified(TrainTree(recs, n), recs) == 0
  {
    var idx, cols := Range(|recs|), Range(n);
    ReadableAll(recs, n);
    forall r | r in recs
      ensures Fits(TrainTree(recs, n), r.attrs) && ClassifyTree(TrainTree(recs, n), r.attrs) == Some(r.classLabel)
    {
      var i :| 0 <= i < |recs| && recs[i] == r;
      assert i in idx;
      ClassifyTrainingRecord(recs, idx, cols, i);
    }
    MisclassifiedNone(TrainTree(recs, n), recs);
  }

  /** `records.size() * 0.15`, cast to `int`: 15% of the records, rounded down. */
  function TestRecordCount(size: nat): (k: nat)
    ensures 100 * k <= 15 * size < 100 * (k + 1)
    ensures size > 0 ==> k < size
  {
    size * 15 / 100
  }

  /**
   * The ratio the error procedures return: mismatches over the records tried;
   * a proportion when there are no more mismatches than records.
   */
  function ErrorRate(misclassified: nat, total: nat): (r: real)
    requires total > 0
    ensures 0.0 <= r
    ensures r == 0.0 <==> misclassified == 0
    ensures misclassified <= total ==> r <= 1.0
  {
    var m, n := misclassified as real, total as real;
    assert m == (m / n) * n;
    assert 0 < misclassified <= total ==> m / n <= 1.0 by {
      if 0 < misclassified <= total {
        DivBounds(m, n);
      }
    }
    m / n
  }

  /** How a leave-one-out run ends: with its number of mismatches, or on a `null` label at a position. */
  datatype Outcome = Misses(count: nat) | NullLabelAt(index: nat)

  /**
   * Round `i` of `oneOutValidationError`, after `count` mismatches: learns a
   * tree from every record but the `i`-th and classifies that record. A `null`
   * label ends the run (in the source, a `NullPointerException` from
   * `label.equals`); otherwise a mismatch adds one to the count.
   */
  function OneOutRound(recs: seq<Record>, n: nat, i: nat, count: nat): (r: (Outcome, Option<TreeNode>))
    requires WideEnough(recs, n) && i < |recs|
    ensures r.0.Misses? ==> count <= r.0.count <= count + 1
    ensures r.0.NullLabelAt? <==> |recs| == 1
    ensures r.0.NullLabelAt? ==> r.0.index == i
    ensures r.1 == Some(TrainTree(RemoveAt(recs, i), n))
  {
    var training := RemoveAt(recs, i);
    assert WideEnough(training, n);
    assert recs[i] in recs;
    var t := TrainTree(training, n);
    assert Fits(t, recs[i].attrs) && (ClassifyTree(t, recs[i].attrs).None? <==> |recs| == 1) by {
      TrainTreeClassifies(training, n, recs[i].attrs);
      assert training == [] <==> |recs| == 1;
    }
    var predicted := ClassifyTree(t, recs[i].attrs);
    if predicted.None? then (NullLabelAt(i), Some(t))
    else (Misses(count + if predicted.value != recs[i].classLabel then 1 else 0), Some(t))
  }

  /**
   * The first `k` rounds of `oneOutValidationError`, with the tree learnt last.
   * The run stops at the first round that meets a `null` label.
   */
  function LeaveOneOut(recs: seq<Record>, n: nat, k: nat, root: Option<TreeNode>): (r: (Outcome, Option<TreeNode>))
    requires WideEnough(recs, n) && k <= |recs|
    ensures r.0.Misses? ==> r.0.count <= k
    ensures r.0.NullLabelAt? ==> r.0.index < k
    ensures k > 0 ==> r.1.Some?
    decreases k, 1
  {
    if k == 0 then (Misses(0), root) else LeaveOneOutLast(recs, n, k, root)
  }

  /** The first `k` rounds, `k` at least one: round `k - 1` after the rounds before it, unless those stopped. */
  function LeaveOneOutLast(recs: seq<Record>, n: nat, k: nat, root: Option<TreeNode>): (r: (Outcome, Option<TreeNode>))
    requires WideEnough(recs, n) && 0 < k <= |recs|
    ensures r.0.Misses? ==> r.0.count <= k
    ensures r.0.NullLabelAt? ==> r.0.index < k
    ensures r.1.Some?
    decreases k, 0
  {
    var (outcome, last) := LeaveOneOut(recs, n, k - 1, root);
    if outcome.NullLabelAt? then (outcome, last)
    else OneOutRound(recs, n, k - 1, outcome.count)
  }

  /** A run that has met no `null` label in its first `k` rounds goes on with round `k`. */
  lemma LeaveOneOutNext(recs: seq<Record>, n: nat, k: nat, root: Option<TreeNode>)
    requires WideEnough(recs, n) && k < |recs|
    requires LeaveOneOut(recs, n, k, root).0.Misses?
    ensures LeaveOneOut(recs, n, k + 1, root) == OneOutRound(recs, n, k, LeaveOneOut(recs, n, k, root).0.count)
  {
    assert LeaveOneOut(recs, n, k + 1, root) == LeaveOneOutLast(recs, n, k + 1, root);
  }

  /** Once a leave-one-out run has stopped on a `null` label, later rounds change nothing. */
  lemma {:induction false} LeaveOneOutStops(recs: seq<Record>, n: nat, k: nat, k': nat, root: Option<TreeNode>)
    requires WideEnough(recs, n) && k <= k' <= |recs|
    requires LeaveOneOut(recs, n, k, root).0.NullLabelAt?
    ensures LeaveOneOut(recs, n, k', root) == LeaveOneOut(recs, n, k, root)
    decreases k' - k
  {
    if k < k' {
      LeaveOneOutStops(recs, n, k, k' - 1, root);
      assert LeaveOneOut(recs, n, k', root) == LeaveOneOutLast(recs, n, k', root);
    }
  }

  /**
   * A leave-one-out run over at least two records meets no `null` label; over a
   * single record it stops at once, since the tree learnt from no record has a
   * `null` leaf.
   */
  lemma {:induction false} LeaveOneOutLabels(recs: seq<Record>, n: nat, k: nat, root: Option<TreeNode>)
    requires WideEnough(recs, n) && k <= |recs|
    ensures |recs| >= 2 ==> LeaveOneOut(recs, n, k, root).0.Misses?
    ensures |recs| == 1 && k == 1 ==> LeaveOneOut(recs, n, k, root).0 == NullLabelAt(0)
  {
    if k > 0 {
      LeaveOneOutLabels(recs, n, k - 1, root);
      assert LeaveOneOut(recs, n, k, root) == LeaveOneOutLast(recs, n, k, root);
    }
  }

  /** The position `nextInt(size)` stands for when it draws `draw`. */
  function Position(draw: nat, size: nat): (i: nat)
    requires size > 0
    ensures i < size
  {
    draw % size
  }

  /**
   * Takes out, one after another, the records at the drawn positions (each draw
   * reduced modulo the current length, as `nextInt(records.size())` bounds it),
   * and gives the records left and the records taken out, in order.
   */
  function HoldOut(recs: seq<Record>, draws: seq<nat>): (r: (seq<Record>, seq<Record>))
    requires |draws| <= |recs|
    ensures |r.0| == |recs| - |draws| && |r.1| == |draws|
    ensures multiset(r.0) + multiset(r.1) == multiset(recs)
  {
    if draws == [] then (recs, [])
    else
      var (rest, taken) := HoldOut(recs, draws[..|draws| - 1]);
      var i := Position(draws[|draws| - 1], |rest|);
      (RemoveAt(rest, i), taken + [rest[i]])
  }

  /** Drawing one more position takes the record there out of what the earlier draws left. */
  lemma HoldOutStep(recs: seq<Record>, draws: seq<nat>, i: nat)
    requires |draws| <= |recs| && i < |draws|
    ensures var (rest, taken) := HoldOut(recs, draws[..i]);
      && |rest| == |recs| - i
      && HoldOut(recs, draws[..i + 1]) == (RemoveAt(rest, Position(draws[i], |rest|)), taken + [rest[Position(draws[i], |rest|)]])
  {
    PrefixStep(draws, i);
  }

  /** The state after some rounds of random sampling: the records, the mismatches so far and the tree learnt last. */
  datatype Sampling = Sampling(records: seq<Record>, misclassified: nat, root: Option<TreeNode>)

  /**
   * One round of `randomSamplingClassificationError`: holds out the records at
   * the draws, learns a tree from the others, counts the held-out records it
   * misclassifies, and appends the held-out records back at the end of the
   * list. The records are the same records afterwards, possibly reordered.
   */
  function SamplingRound(recs: seq<Record>, n: nat, draws: seq<nat>): (s: Sampling)
    requires WideEnough(recs, n) && |draws| <= |recs|
    ensures multiset(s.records) == multiset(recs)
    ensures s.misclassified <= |draws|
  {
    var (training, test) := HoldOut(recs, draws);
    WideEnoughSubset(recs, training, n);
    WideEnoughSubset(recs, test, n);
    var t := TrainTree(training, n);
    assert forall r :: r in test ==> Fits(t, r.attrs) by {
      forall r | r in test ensures Fits(t, r.attrs) {
        TrainTreeClassifies(training, n, r.attrs);
      }
    }
    Sampling(training + test, Misclassified(t, test), Some(t))
  }

  /** The state after one more round with `draws`: the round's records and tree, and the mismatches added up. */
  function NextRound(before: Sampling, n: nat, draws: seq<nat>): (s: Sampling)
    requires WideEnough(before.records, n) && |draws| <= |before.records|
    ensures multiset(s.records) == multiset(before.records)
    ensures before.misclassified <= s.misclassified <= before.misclassified + |draws|
  {
    var round := SamplingRound(before.records, n, draws);
    Sampling(round.records, before.misclassified + round.misclassified, round.root)
  }

  /**
   * The rounds of `randomSamplingClassificationError`, one per sequence of
   * draws, each holding out `k` records. The mismatches add up over the rounds,
   * at most `k` per round, and the records stay the same records.
   */
  function SamplingRounds(recs: seq<Record>, n: nat, k: nat, draws: seq<seq<nat>>, root: Option<TreeNode>): (s: Sampling)
    requires WideEnough(recs, n) && k <= |recs|
    requires forall j :: 0 <= j < |draws| ==> |draws[j]| == k
    ensures multiset(s.records) == multiset(recs)
    ensures s.misclassified <= |draws| * k
    decreases |draws|, 1
  {
    if draws == [] then Sampling(recs, 0, root) else LastRound(recs, n, k, draws, root)
  }

  /** The rounds over a non-empty sequence of draws: one more round after the rounds over all but the last. */
  function LastRound(recs: seq<Record>, n: nat, k: nat, draws: seq<seq<nat>>, root: Option<TreeNode>): (s: Sampling)
    requires WideEnough(recs, n) && k <= |recs|
    requires forall j :: 0 <= j < |draws| ==> |draws[j]| == k
    requires draws != []
    ensures multiset(s.records) == multiset(recs)
    ensures s.misclassified <= |draws| * k
    decreases |draws|, 0
  {
    var before := SamplingRounds(recs, n, k, draws[..|draws| - 1], root);
    assert |before.records| == |recs| by { assert |multiset(before.records)| == |multiset(recs)|; }
    WideEnoughSubset(recs, before.records, n);
    assert (|draws| - 1) * k + k == |draws| * k;
    NextRound(before, n, draws[|draws| - 1])
  }

  /** The records after any number of rounds are as many, and as wide, as at the start. */
  lemma SamplingRoundsRecords(recs: seq<Record>, n: nat, k: nat, draws: seq<seq<nat>>, root: Option<TreeNode>)
    requires WideEnough(recs, n) && k <= |recs|
    requires forall j :: 0 <= j < |draws| ==> |draws[j]| == k
    ensures var after := SamplingRounds(recs, n, k, draws, root);
      |after.records| == |recs| && WideEnough(after.records, n)
  {
    var after := SamplingRounds(recs, n, k, draws, root);
    assert |after.records| == |recs| by { assert |multiset(after.records)| == |multiset(recs)|; }
    WideEnoughSubset(recs, after.records, n);
  }

  /** The rounds over the first `j + 1` draws are one more round after the rounds over the first `j`. */
  lemma SamplingRoundsStep(recs: seq<Record>, n: nat, k: nat, draws: seq<seq<nat>>, root: Option<TreeNode>, j: nat)
    requires WideEnough(recs, n) && k <= |recs|
    requires forall j :: 0 <= j < |draws| ==> |draws[j]| == k
    requires j < |draws|
    ensures var before := SamplingRounds(recs, n, k, draws[..j], root);
      && |before.records| == |recs| && WideEnough(before.records, n)
      && SamplingRounds(recs, n, k, draws[..j + 1], root) == NextRound(before, n, draws[j])
  {
    SamplingRoundsRecords(recs, n, k, draws[..j], root);
    PrefixStep(draws, j);
    assert SamplingRounds(recs, n, k, draws[..j + 1], root) == LastRound(recs, n, k, draws[..j + 1], root);
  }

  /** The state after one more round is the round's records and tree, with its mismatches added. */
  lemma NextRoundOf(before: Sampling, n: nat, draws: seq<nat>, round: Sampling)
    requires WideEnough(before.records, n) && |draws| <= |before.records|
    requires round == SamplingRound(before.records, n, draws)
    ensures NextRound(before, n, draws) == Sampling(round.records, before.misclassified + round.misclassified, round.root)
  {
  }

  /**
   * A round of random sampling over at least one record never meets a `null`
   * label, since fewer records are held out than there are.
   */
  lemma SamplingLabels(recs: seq<Record>, n: nat, draws: seq<nat>, r: Record)
    requires WideEnough(recs, n) && |draws| == TestRecordCount(|recs|)
    requires n <= |r.attrs|
    ensures WideEnough(HoldOut(recs, draws).0, n)
    ensures Fits(TrainTree(HoldOut(recs, draws).0, n), r.attrs)
    ensures recs != [] ==> ClassifyTree(TrainTree(HoldOut(recs, draws).0, n), r.attrs).Some?
  {
    var training := HoldOut(recs, draws).0;
    WideEnoughSubset(recs, training, n);
    TrainTreeClassifies(training, n, r.attrs);
  }

  class DecisionTreeClassifier {
    var records: seq<Record>
    var numberOfAttributes: nat
    /** `None` until `buildTree` has run. */
    var root: Option<TreeNode>

    /** Every record has a value for every attribute. */
    ghost predicate Valid()
      reads this
    {
      WideEnough(records, numberOfAttributes)
    }

    /** A classifier over already loaded records, with no tree yet. */
    constructor (records: seq<Record>, numberOfAttributes: nat)
      requires WideEnough(records, numberOfAttributes)
      ensures Valid()
      ensures this.records == records && this.numberOfAttributes == numberOfAttributes && root == None
    {
      this.records := records;
      this.numberOfAttributes := numberOfAttributes;
      root := None;
    }

    /** `buildTree`: learns the tree from every record over every attribute and stores it as the root. */
    method BuildTree()
      requires Valid()
      modifies this`root
      ensures root == Some(TrainTree(records, numberOfAttributes))
    {
      var indicesOfRecords: seq<nat> := [];
      var i := 0;
      while i < |records|
        invariant 0 <= i <= |records| && indicesOfRecords == Range(i)
      {
        indicesOfRecords := indicesOfRecords + [i];
        i := i + 1;
      }
      var remainingColIndices: seq<nat> := [];
      i := 0;
      while i < numberOfAttributes
        invariant 0 <= i <= numberOfAttributes && remainingColIndices == Range(i)
      {
        remainingColIndices := remainingColIndices + [i];
        i := i + 1;
      }
      ReadableAll(records, numberOfAttributes);
      root := Some(Build(records, indicesOfRecords, remainingColIndices));
    }

    /**
     * `indicesOfRecordsWithValueAtColumn`: walks `indicesOfRecords` in order and
     * keeps each index whose record's value at `colIndex`, cast to `int`, is `value`.
     */
    method IndicesOfRecordsWithValueAtColumn(indicesOfRecords: seq<nat>, value: int, colIndex: nat) returns (result: seq<nat>)
      requires ReadableAt(records, indicesOfRecords, colIndex)
      ensures result == IndicesWithValueAtColumn(records, indicesOfRecords, value, colIndex)
    {
      var recs := records;
      result := [];
      var i := 0;
      while i < |indicesOfRecords|
        invariant 0 <= i <= |indicesOfRecords|
        invariant ReadableAt(recs, indicesOfRecords[..i], colIndex)
        invariant result == IndicesWithValueAtColumn(recs, indicesOfRecords[..i], value, colIndex)
      {
        var index := indicesOfRecords[i];
        IndicesWithValueStep(recs, indicesOfRecords, value, colIndex, i);
        if TruncToInt(recs[index].attrs[colIndex]) == value {
          result := result + [index];
        }
        i := i + 1;
      }
      assert indicesOfRecords[..i] == indicesOfRecords;
    }

    /**
     * `frequenciesOfLabels`: walks `indicesOfRecords` in order, adding one to
     * the count of each record's label, or entering the label with count 1.
     */
    method FrequenciesOfLabels(indicesOfRecords: seq<nat>) returns (frequencyOfLabels: FreqTable)
      requires IndicesIn(records, indicesOfRecords)
      ensures frequencyOfLabels == Frequencies(records, indicesOfRecords)
    {
      frequencyOfLabels := [];
      var i := 0;
      while i < |indicesOfRecords|
        invariant 0 <= i <= |indicesOfRecords|
        invariant IndicesIn(records, indicesOfRecords[..i])
        invariant frequencyOfLabels == Frequencies(records, indicesOfRecords[..i])
      {
        FrequenciesStep(records, indicesOfRecords, i);
        var rowIndex := indicesOfRecords[i];
        frequencyOfLabels := Increment(frequencyOfLabels, records[rowIndex].classLabel);
        i := i + 1;
      }
      assert indicesOfRecords[..i] == indicesOfRecords;
    }

    /**
     * `classify`: descends from the root, to the right child when the record's
     * value at the node's column is 0 and to the left child otherwise, and
     * returns the label of the leaf reached.
     */
    method Classify(recordToClassify: Record) returns (predicted: Option<Label>)
      requires root.Some? && Fits(root.value, recordToClassify.attrs)
      ensures predicted == ClassifyTree(root.value, recordToClassify.attrs)
      ensures predicted in LeafLabels(root.value)
    {
      var currentNode := root.value;
      while currentNode.Internal?
        invariant Fits(currentNode, recordToClassify.attrs)
        invariant ClassifyTree(currentNode, recordToClassify.attrs) == ClassifyTree(root.value, recordToClassify.attrs)
        decreases currentNode
      {
        var colIndexForSplitting := currentNode.attribute;
        assert colIndexForSplitting in Columns(currentNode);
        if recordToClassify.attrs[colIndexForSplitting] == RightRecordsBinaryValue as real {
          currentNode := currentNode.right;
        } else {
          currentNode := currentNode.left;
        }
      }
      predicted := currentNode.labelName;
    }

    /**
     * `computeTrainingError`, as the number of mismatches: the records whose
     * label differs from the one the tree gives them.
     */
    method ComputeTrainingError() returns (numberOfMisclassifiedRecords: nat)
      requires root.Some? && forall r :: r in records ==> Fits(root.value, r.attrs)
      ensures numberOfMisclassifiedRecords == Misclassified(root.value, records)
      ensures numberOfMisclassifiedRecords <= |records|
    {
      numberOfMisclassifiedRecords := 0;
      var i := 0;
      while i < |records|
        invariant 0 <= i <= |records|
        invariant numberOfMisclassifiedRecords == Misclassified(root.value, records[..i])
      {
        var currentRecord := records[i];
        assert currentRecord in records;
        PrefixStep(records, i);
        var labelOfClassifiedRecord := Classify(currentRecord);
        if labelOfClassifiedRecord != Some(currentRecord.classLabel) {
          numberOfMisclassifiedRecords := numberOfMisclassifiedRecords + 1;
        }
        i := i + 1;
      }
      assert records[..i] == records;
    }

    /**
     * `oneOutValidationError`, as the outcome of `LeaveOneOut` over all the
     * records. When it completes, the records are as before; when it stops on a
     * `null` label, the record at that position is missing, as in the source.
     */
    method OneOutValidationError() returns (result: Outcome)
      requires Valid()
      modifies this`records, this`root
      ensures Valid()
      ensures (result, root) == LeaveOneOut(old(records), numberOfAttributes, |old(records)|, old(root))
      ensures result.Misses? ==> records == old(records)
      ensures result.NullLabelAt? ==> result.index < |old(records)| && records == RemoveAt(old(records), result.index)
    {
      result := Misses(0);
      var i := 0;
      while i < |records|
        invariant Valid() && records == old(records) && 0 <= i <= |records|
        invariant result.Misses?
        invariant (result, root) == LeaveOneOut(old(records), numberOfAttributes, i, old(root))
      {
        LeaveOneOutNext(old(records), numberOfAttributes, i, old(root));
        result := OneOutRoundStep(i, result.count);
        if result.NullLabelAt? {
          LeaveOneOutStops(old(records), numberOfAttributes, i + 1, |old(records)|, old(root));
          return;
        }
        i := i + 1;
      }
    }

    /**
     * One round of `oneOutValidationError`: takes out the record at `i`,
     * rebuilds the tree, classifies the record and, unless its label is `null`,
     * adds it back at `i`.
     */
    method OneOutRoundStep(i: nat, count: nat) returns (outcome: Outcome)
      requires Valid() && i < |records|
      modifies this`records, this`root
      ensures Valid()
      ensures (outcome, root) == OneOutRound(old(records), numberOfAttributes, i, count)
      ensures outcome.Misses? ==> records == old(records)
      ensures outcome.NullLabelAt? ==> records == RemoveAt(old(records), i)
    {
      var recordToClassify := records[i];
      assert recordToClassify in records;
      InsertAtRemoveAt(records, i);
      records := RemoveAt(records, i);
      BuildTree();
      TrainTreeClassifies(records, numberOfAttributes, recordToClassify.attrs);
      var predicted := Classify(recordToClassify);
      if predicted.None? {
        outcome := NullLabelAt(i);
        return;
      }
      outcome := Misses(count + if predicted.value != recordToClassify.classLabel then 1 else 0);
      records := InsertAt(records, i, recordToClassify);
    }

    /**
     * The first loop of a round of `randomSamplingClassificationError`: takes
     * out of the list, one after another, the records at the drawn positions.
     */
    method TakeTestRecords(round: seq<nat>) returns (testRecords: seq<Record>)
      requires |round| <= |records|
      modifies this`records
      ensures (records, testRecords) == HoldOut(old(records), round)
    {
      testRecords := [];
      var i := 0;
      while i < |round|
        invariant 0 <= i <= |round|
        invariant (records, testRecords) == HoldOut(old(records), round[..i])
      {
        HoldOutStep(old(records), round, i);
        var randomIndex := Position(round[i], |records|);
        testRecords := testRecords + [records[randomIndex]];
        records := RemoveAt(records, randomIndex);
        i := i + 1;
      }
      assert round[..i] == round;
    }

    /**
     * The second loop of a round of `randomSamplingClassificationError`: the
     * number of held-out records the tree misclassifies. The source calls
     * `equals` on the label the tree gives, so it demands that no such label be
     * `null`.
     */
    method CountTestMisses(testRecords: seq<Record>) returns (misses: nat)
      requires root.Some?
      requires forall r :: r in testRecords ==> Fits(root.value, r.attrs)
      requires forall r :: r in testRecords ==> ClassifyTree(root.value, r.attrs).Some?
      ensures misses == Misclassified(root.value, testRecords)
    {
      misses := 0;
      var j := 0;
      while j < |testRecords|
        invariant 0 <= j <= |testRecords|
        invariant misses == Misclassified(root.value, testRecords[..j])
      {
        var testRecord := testRecords[j];
        assert testRecord in testRecords;
        PrefixStep(testRecords, j);
        var predicted := Classify(testRecord);
        if predicted.value != testRecord.classLabel {
          misses := misses + 1;
        }
        j := j + 1;
      }
      assert testRecords[..j] == testRecords;
    }

    /**
     * One round of `randomSamplingClassificationError`: holds out the records at
     * the draws, rebuilds the tree from the others, counts the held-out records
     * it misclassifies and appends them back to the list.
     */
    method SamplingRoundStep(round: seq<nat>) returns (misses: nat)
      requires Valid()
      requires |round| == TestRecordCount(|records|)
      modifies this`records, this`root
      ensures Valid()
      ensures Sampling(records, misses, root) == SamplingRound(old(records), numberOfAttributes, round)
    {
      var start := records;
      var testRecords := TakeTestRecords(round);
      WideEnoughSubset(start, records, numberOfAttributes);
      WideEnoughSubset(start, testRecords, numberOfAttributes);
      BuildTree();
      forall r | r in testRecords
        ensures Fits(root.value, r.attrs) && ClassifyTree(root.value, r.attrs).Some?
      {
        SamplingLabels(start, numberOfAttributes, round, r);
      }
      misses := CountTestMisses(testRecords);
      records := records + testRecords;
    }

    /**
     * `randomSamplingClassificationError`, with the random positions supplied
     * as `draws`, one sequence per round. Returns the number of mismatches and
     * the number of records held out per round. The records afterwards are the
     * same records, possibly reordered.
     */
    method RandomSamplingClassificationError(draws: seq<seq<nat>>) returns (numberOfMisclassifiedRecords: nat, numberOfTestRecords: nat)
      requires Valid()
      requires |draws| == Iterations
      requires forall j :: 0 <= j < |draws| ==> |draws[j]| == TestRecordCount(|records|)
      modifies this`records, this`root
      ensures Valid()
      ensures numberOfTestRecords == TestRecordCount(|old(records)|)
      ensures Sampling(records, numberOfMisclassifiedRecords, root)
        == SamplingRounds(old(records), numberOfAttributes, numberOfTestRecords, draws, old(root))
      ensures multiset(records) == multiset(old(records))
      ensures numberOfMisclassifiedRecords <= Iterations * numberOfTestRecords
    {
      numberOfTestRecords := TestRecordCount(|records|);
      numberOfMisclassifiedRecords := 0;
      var iteration := 0;
      while iteration < Iterations
        invariant 0 <= iteration <= Iterations
        invariant Sampling(records, numberOfMisclassifiedRecords, root)
          == SamplingRounds(old(records), numberOfAttributes, numberOfTestRecords, draws[..iteration], old(root))
        invariant multiset(records) == multiset(old(records))
        invariant Valid()
      {
        ghost var before := Sampling(records, numberOfMisclassifiedRecords, root);
        SamplingRoundsStep(old(records), numberOfAttributes, numberOfTestRecords, draws, old(root), iteration);
        var misses := SamplingRoundStep(draws[iteration]);
        NextRoundOf(before, numberOfAttributes, draws[iteration], Sampling(records, misses, root));
        numberOfMisclassifiedRecords := numberOfMisclassifiedRecords + misses;
        iteration := iteration + 1;
      }
      assert draws[..iteration] == draws;
      SamplingRoundsRecords(old(records), numberOfAttributes, numberOfTestRecords, draws, old(root));
    }
  }
}
