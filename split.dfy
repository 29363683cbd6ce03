/**
 * Splitting a group of records on one column, and choosing the column to
 * split on: `indicesOfRecordsWithValueAtColumn`, `averageWeightedEntropy` and
 * `bestColIndexToSplitRecords`.
 */
module Split {
  import opened Data
  import opened Counting
  import opened Impurity

  /** A record whose value at the split column is 1 goes to the left child, one whose value is 0 to the right. */
  const LeftRecordsBinaryValue: int := 1
  const RightRecordsBinaryValue: int := 0

  /**
   * Every record in `idx` has a value at column `col`: the one-column case of
   * `Readable` (see `ReadableAtIsReadable`), written with a single bound
   * variable because the split's proofs use it at every step and the verifier
   * handles one quantified variable far more cheaply than two.
   */
  ghost predicate ReadableAt(recs: seq<Record>, idx: seq<nat>, col: nat)
  {
    IndicesIn(recs, idx) && forall i :: i in idx ==> col < |recs[i].attrs|
  }

  /** Every record in `idx` holds exactly 0 or 1 at column `col`: the encoding the split relies on. */
  ghost predicate BinaryAt(recs: seq<Record>, idx: seq<nat>, col: nat)
    requires ReadableAt(recs, idx, col)
  {
    forall i :: i in idx ==> recs[i].attrs[col] == 0.0 || recs[i].attrs[col] == 1.0
  }

  /**
   * `indicesOfRecordsWithValueAtColumn`: the indices of `idx`, in order, whose
   * value at `col`, cast to `int`, equals `value`.
   */
  function IndicesWithValueAtColumn(recs: seq<Record>, idx: seq<nat>, value: int, col: nat): (r: seq<nat>)
    requires ReadableAt(recs, idx, col)
    ensures forall i :: i in r <==> i in idx && TruncToInt(recs[i].attrs[col]) == value
    ensures Ascending(idx) ==> Ascending(r)
    ensures |r| <= |idx|
  {
    if idx == [] then []
    else
      var p, x := idx[..|idx| - 1], idx[|idx| - 1];
      assert x in idx && (forall y :: y in p ==> y in idx) &&
        (Ascending(idx) ==> Ascending(p) && Below(p, x)) by { PrefixMembers(idx); }
      var r := IndicesWithValueAtColumn(recs, p, value, col);
      if TruncToInt(recs[x].attrs[col]) == value then
        assert Ascending(idx) ==> Ascending(r + [x]) by {
          if Ascending(idx) {
            assert Below(r, x) by { forall y | y in r ensures y < x { assert y in p; } }
            AppendAscending(r, x);
          }
        }
        r + [x]
      else r
  }

  /** Over the first `i + 1` indices, the indices with the value are those over the first `i`, then the `i`-th if it has it. */
  lemma IndicesWithValueStep(recs: seq<Record>, idx: seq<nat>, value: int, col: nat, i: nat)
    requires ReadableAt(recs, idx, col) && i < |idx|
    ensures ReadableAt(recs, idx[..i], col) && ReadableAt(recs, idx[..i + 1], col) && idx[i] < |recs|
    ensures IndicesWithValueAtColumn(recs, idx[..i + 1], value, col)
      == IndicesWithValueAtColumn(recs, idx[..i], value, col)
         + if TruncToInt(recs[idx[i]].attrs[col]) == value then [idx[i]] else []
  {
    assert idx[i] in idx;
    SliceMembers(idx, i);
    SliceMembers(idx, i + 1);
    PrefixStep(idx, i);
  }

  /**
   * The left side (value 1) and the right side (value 0) of a split never share
   * an index and together hold at most the group; when every value at the column
   * is 0 or 1 they hold exactly the group.
   */
  lemma {:induction false} SplitPartition(recs: seq<Record>, idx: seq<nat>, col: nat)
    requires ReadableAt(recs, idx, col)
    ensures var left := IndicesWithValueAtColumn(recs, idx, LeftRecordsBinaryValue, col);
      var right := IndicesWithValueAtColumn(recs, idx, RightRecordsBinaryValue, col);
      && (forall i :: !(i in left && i in right))
      && |left| + |right| <= |idx|
      && (BinaryAt(recs, idx, col) ==> (forall i :: i in idx <==> i in left || i in right) && |left| + |right| == |idx|)
  {
    if idx != [] {
      var p := idx[..|idx| - 1];
      PrefixMembers(idx);
      forall y | y in p ensures y in idx { }
      assert ReadableAt(recs, p, col);
      assert BinaryAt(recs, idx, col) ==> BinaryAt(recs, p, col);
      SplitPartition(recs, p, col);
    }
  }

  /**
   * `averageWeightedEntropy`, which scores with `gini` despite its name: the
   * Gini impurity of each side of the split on `col`, weighted by the side's
   * share of the group.
   */
  function AverageWeightedGini(recs: seq<Record>, idx: seq<nat>, col: nat): (r: real)
    requires ReadableAt(recs, idx, col) && idx != []
    ensures 0.0 <= r < 1.0
  {
    var left := IndicesWithValueAtColumn(recs, idx, LeftRecordsBinaryValue, col);
    var right := IndicesWithValueAtColumn(recs, idx, RightRecordsBinaryValue, col);
    var n := |idx| as real;
    var l, r := |left| as real, |right| as real;
    assert l / n + r / n <= 1.0 by {
      SplitPartition(recs, idx, col);
      AddFractions(l, r, n);
      if l + r > 0.0 {
        DivBounds(l + r, n);
      }
    }
    SideScore(recs, left, n) + SideScore(recs, right, n)
  }

  lemma MulNonneg(a: real, b: real)
    requires 0.0 <= a && 0.0 <= b
    ensures 0.0 <= a * b
  {
  }

  lemma MulPos(a: real, b: real)
    requires 0.0 < a && 0.0 < b
    ensures 0.0 < a * b
  {
  }

  lemma DivMonotone(a: real, b: real, n: real)
    requires a <= b && 0.0 < n
    ensures a / n <= b / n
    ensures a < b ==> a / n < b / n
  {
    assert b / n - a / n == (b - a) / n;
  }

  lemma WeightedTerm(g: real, k: real, n: real)
    requires 0.0 <= g < 1.0 && 0.0 <= k && 0.0 < n
    ensures 0.0 <= g * k / n <= k / n
    ensures 0.0 < k ==> g * k / n < k / n
  {
    assert k - g * k == (1.0 - g) * k;
    MulNonneg(g, k);
    MulNonneg(1.0 - g, k);
    if 0.0 < k {
      MulPos(1.0 - g, k);
    }
    DivMonotone(0.0, g * k, n);
    DivMonotone(g * k, k, n);
  }

  /** A table's Gini impurity weighted by a share `size / n` of a group. */
  lemma WeightedGiniTerm(t: FreqTable, size: nat, n: real)
    requires (t == [] && size == 0) || IsDistribution(t, size)
    requires 0.0 < n
    ensures 0.0 <= Gini(t, size) * size as real / n <= size as real / n
    ensures size > 0 ==> Gini(t, size) * size as real / n < size as real / n
  {
    var g := Gini(t, size);
    if t == [] {
      assert g * size as real == 0.0;
    } else {
      WeightedTerm(g, size as real, n);
    }
  }

  /**
   * One side's term of the score: its Gini impurity weighted by its share of a
   * group of `n` records. It is at most that share, and below it when the side
   * is not empty.
   */
  function SideScore(recs: seq<Record>, side: seq<nat>, n: real): (w: real)
    requires IndicesIn(recs, side) && 0.0 < n
    ensures 0.0 <= w <= |side| as real / n
    ensures side != [] ==> w < |side| as real / n
  {
    var t := Frequencies(recs, side);
    var k := |side|;
    assert 0.0 <= Gini(t, k) * k as real / n <= k as real / n && (k > 0 ==> Gini(t, k) * k as real / n < k as real / n) by {
      assert (t == [] && k == 0) || IsDistribution(t, k);
      WeightedGiniTerm(t, k, n);
    }
    Weighted(Gini(t, k), k, n)
  }

  /** A score `g` weighted by the share `k / n`. */
  function Weighted(g: real, k: nat, n: real): real
    requires 0.0 < n
  {
    g * k as real / n
  }

  /** When every record in `idx` has `value` at `col`, the filter keeps the whole group, in order. */
  lemma {:induction false} FilterKeepsAll(recs: seq<Record>, idx: seq<nat>, value: int, col: nat)
    requires ReadableAt(recs, idx, col)
    requires forall i :: i in idx ==> TruncToInt(recs[i].attrs[col]) == value
    ensures IndicesWithValueAtColumn(recs, idx, value, col) == idx
  {
    if idx != [] {
      var p, x := idx[..|idx| - 1], idx[|idx| - 1];
      assert ReadableAt(recs, p, col) && (forall i :: i in p ==> TruncToInt(recs[i].attrs[col]) == value)
        && TruncToInt(recs[x].attrs[col]) == value by {
        PrefixMembers(idx);
        forall y | y in p ensures y in idx { }
        assert x in idx;
      }
      FilterKeepsAll(recs, p, value, col);
      assert idx == p + [x];
    }
  }

  lemma WeightedWhole(g: real, k: nat)
    requires k > 0
    ensures Weighted(g, k, k as real) == g
  {
  }

  /** An empty side adds nothing to the score. */
  lemma SideScoreEmpty(recs: seq<Record>, n: real)
    requires 0.0 < n
    ensures SideScore(recs, [], n) == 0.0
  {
    var g := Gini(Frequencies(recs, []), 0);
    assert g * 0.0 == 0.0;
  }

  /** A side holding the whole group weighs 1: its term is its own Gini impurity. */
  lemma SideScoreWhole(recs: seq<Record>, idx: seq<nat>)
    requires IndicesIn(recs, idx) && idx != []
    ensures SideScore(recs, idx, |idx| as real) == Gini(Frequencies(recs, idx), |idx|)
  {
    WeightedWhole(Gini(Frequencies(recs, idx), |idx|), |idx|);
  }

  /**
   * A split that sends the whole group to one side scores the group's own
   * Gini impurity: the empty side adds nothing and the other side weighs 1.
   */
  lemma OneSidedSplitScore(recs: seq<Record>, idx: seq<nat>, col: nat)
    requires ReadableAt(recs, idx, col) && idx != [] && BinaryAt(recs, idx, col)
    ensures IndicesWithValueAtColumn(recs, idx, LeftRecordsBinaryValue, col) == []
        || IndicesWithValueAtColumn(recs, idx, RightRecordsBinaryValue, col) == []
      ==> AverageWeightedGini(recs, idx, col) == Gini(Frequencies(recs, idx), |idx|)
  {
    var left := IndicesWithValueAtColumn(recs, idx, LeftRecordsBinaryValue, col);
    var right := IndicesWithValueAtColumn(recs, idx, RightRecordsBinaryValue, col);
    var n := |idx| as real;
    SideScoreWhole(recs, idx);
    SideScoreEmpty(recs, n);
    if left == [] {
      forall i | i in idx ensures TruncToInt(recs[i].attrs[col]) == RightRecordsBinaryValue {
        assert i !in left;
      }
      FilterKeepsAll(recs, idx, RightRecordsBinaryValue, col);
    } else if right == [] {
      forall i | i in idx ensures TruncToInt(recs[i].attrs[col]) == LeftRecordsBinaryValue {
        assert i !in right;
      }
      FilterKeepsAll(recs, idx, LeftRecordsBinaryValue, col);
    }
  }

  /** `ReadableAt` is `Readable` for the single column `col`. */
  lemma ReadableAtIsReadable(recs: seq<Record>, idx: seq<nat>, col: nat)
    ensures ReadableAt(recs, idx, col) <==> Readable(recs, idx, [col])
  {
    if Readable(recs, idx, [col]) {
      forall i | i in idx ensures col < |recs[i].attrs| {
        assert col in [col];
      }
    }
  }

  /** Every column in a readable list of columns can be read on its own. */
  lemma ReadableColumns(recs: seq<Record>, idx: seq<nat>, cols: seq<nat>)
    requires Readable(recs, idx, cols)
    ensures forall j :: 0 <= j < |cols| ==> ReadableAt(recs, idx, cols[j])
  {
    forall j | 0 <= j < |cols| ensures ReadableAt(recs, idx, cols[j]) {
      assert cols[j] in cols;
    }
  }

  /**
   * The loop of `bestColIndexToSplitRecords`, from position `i` of the columns
   * `cols`, each scored by `score`, with a running minimum `minValue` reached
   * at position `best`: a column replaces the best so far only when its score
   * is strictly smaller. Either no column from `i` on beats `minValue` and
   * `best` is kept, or the result is a position from `i` on whose column beats
   * `minValue`, scores no more than any column from `i` on, and strictly less
   * than every column before it.
   */
  function BestColumnFrom(cols: seq<nat>, i: nat, score: nat --> real, minValue: real, best: Option<nat>): (r: Option<nat>)
    requires i <= |cols|
    requires forall j :: i <= j < |cols| ==> score.requires(cols[j])
    ensures || (r == best && forall j :: i <= j < |cols| ==> minValue <= score(cols[j]))
            || (&& r.Some? && i <= r.value < |cols|
                && score(cols[r.value]) < minValue
                && (forall j :: i <= j < |cols| ==> score(cols[r.value]) <= score(cols[j]))
                && (forall j :: i <= j < r.value ==> score(cols[r.value]) < score(cols[j])))
    decreases |cols| - i
  {
    if i == |cols| then best
    else
      var value := score(cols[i]);
      if value < minValue then BestColumnFrom(cols, i + 1, score, value, Some(i))
      else BestColumnFrom(cols, i + 1, score, minValue, best)
  }

  /**
   * `bestColIndexToSplitRecords`: no column (Java `null`) exactly when there
   * is no column or no record; otherwise the first column, in ascending order,
   * with the smallest score. Every score is below `Double.MAX_VALUE`, the
   * starting minimum, so some column is always chosen.
   */
  function BestColIndexToSplitRecords(recs: seq<Record>, idx: seq<nat>, cols: seq<nat>): (r: Option<nat>)
    requires Readable(recs, idx, cols) && Ascending(cols)
    ensures r.None? <==> cols == [] || idx == []
    ensures r.Some? ==> r.value in cols
    ensures r.Some? ==> forall c :: c in cols ==> AverageWeightedGini(recs, idx, r.value) <= AverageWeightedGini(recs, idx, c)
    ensures r.Some? ==> forall c :: c in cols && c < r.value ==> AverageWeightedGini(recs, idx, r.value) < AverageWeightedGini(recs, idx, c)
  {
    if cols == [] || idx == [] then None
    else
      var score := (c: nat) requires ReadableAt(recs, idx, c) && idx != [] => AverageWeightedGini(recs, idx, c);
      ReadableColumns(recs, idx, cols);
      var k := BestColumnFrom(cols, 0, score, DoubleMax, None);
      assert k.Some? && k.value < |cols|;
      var best := cols[k.value];
      assert forall c :: c in cols ==> score(best) <= score(c) && (c < best ==> score(best) < score(c)) by {
        forall c | c in cols ensures score(best) <= score(c) && (c < best ==> score(best) < score(c)) {
          var j :| 0 <= j < |cols| && cols[j] == c;
          if c < best {
            assert j < k.value;
          }
        }
      }
      Some(best)
  }
}
