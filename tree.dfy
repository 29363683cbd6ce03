/** Counting the line breaks of a rendered text. */
module Lines {
  /** The number of line breaks in `s`. */
  function NewlineCount(s: string): nat
  {
    if s == [] then 0 else (if s[0] == '\n' then 1 else 0) + NewlineCount(s[1..])
  }

  lemma {:induction false} NewlineCountAppend(a: string, b: string)
    ensures NewlineCount(a + b) == NewlineCount(a) + NewlineCount(b)
  {
    if a == [] {
      assert a + b == b;
    } else {
      assert (a + b)[1..] == a[1..] + b;
      NewlineCountAppend(a[1..], b);
    }
  }

  lemma {:induction false} NoNewline(s: string)
    requires forall k :: 0 <= k < |s| ==> s[k] != '\n'
    ensures NewlineCount(s) == 0
  {
    if s != [] {
      NoNewline(s[1..]);
    }
  }

  /** A line, its line break and two further texts: the line break adds one. */
  lemma NewlineCountLine(line: string, l: string, r: string)
    ensures NewlineCount(line + "\n" + l + r) == NewlineCount(line) + 1 + NewlineCount(l) + NewlineCount(r)
  {
    NewlineCountAppend(line, "\n");
    NewlineCountAppend(line + "\n", l);
    NewlineCountAppend(line + "\n" + l, r);
  }

  /** The fixed texts of `TreeNode.toString` hold no line break. */
  lemma LeafTextSingleLine()
    ensures NewlineCount("Type: leaf, label: ") == 0
  {
    NoNewline("Type: leaf, label: ");
  }

  lemma InternalTextSingleLine()
    ensures NewlineCount("Type: internal, attribute: ") == 0
  {
    NoNewline("Type: internal, attribute: ");
  }

  lemma NullTextSingleLine()
    ensures NewlineCount("null") == 0
  {
    NoNewline("null");
  }

  /** The text of a leaf has the line breaks of its label. */
  lemma LeafLine(name: string)
    ensures NewlineCount("Type: leaf, label: " + name) == NewlineCount(name)
  {
    LeafTextSingleLine();
    NewlineCountAppend("Type: leaf, label: ", name);
  }

  /** The text of an internal node has the line breaks of its column's digits. */
  lemma InternalLine(digits: string)
    ensures NewlineCount("Type: internal, attribute: " + digits) == NewlineCount(digits)
  {
    InternalTextSingleLine();
    NewlineCountAppend("Type: internal, attribute: ", digits);
  }
}

/**
 * The decision tree: `TreeNode`, the recursive learner `build`, the descent
 * of `classify` and the sideways rendering of `treeString`.
 */
module Tree {
  import opened Data
  import opened Counting
  import opened Split
  import opened Lines

  /**
   * `TreeNode`. A leaf carries a label, `None` standing for Java `null`; an
   * internal node carries the column it tests and its two children.
   */
  datatype TreeNode = Leaf(labelName: Option<Label>) | Internal(attribute: nat, left: TreeNode, right: TreeNode)

  /** A group with fewer records than this is not split. */
  const MinGroupSize: nat := 6

  /**
   * `build`: the tree learnt from the records in `idx` using the columns in
   * `cols`. The rules apply in this order: a group of a single label becomes a
   * leaf with that label; a group with no column left or with fewer than
   * `MinGroupSize` records becomes a leaf with its majority label; a split on
   * the best column that leaves one side empty becomes a majority leaf too;
   * otherwise the node tests the best column and both sides are built without it.
   */
  function Build(recs: seq<Record>, idx: seq<nat>, cols: seq<nat>): (t: TreeNode)
    requires Readable(recs, idx, cols) && Ascending(idx) && Ascending(cols)
    ensures |idx| < MinGroupSize || cols == [] ==> t.Leaf?
    ensures t.Internal? ==> t.attribute in cols
    decreases |cols|
  {
    if AreRecordsSameClass(recs, idx) then
      assert idx[0] in idx;
      Leaf(Some(recs[idx[0]].classLabel))
    else if |cols| == 0 || |idx| < MinGroupSize then
      Leaf(MajorityLabel(recs, idx))
    else
      var best := BestColIndexToSplitRecords(recs, idx, cols).value;
      assert ReadableAt(recs, idx, best);
      var left := IndicesWithValueAtColumn(recs, idx, LeftRecordsBinaryValue, best);
      var right := IndicesWithValueAtColumn(recs, idx, RightRecordsBinaryValue, best);
      if |left| == 0 || |right| == 0 then
        Leaf(MajorityLabel(recs, idx))
      else
        var remaining := RemoveValue(cols, best);
        assert Readable(recs, left, remaining) && Readable(recs, right, remaining) by {
          ReadableSubset(recs, idx, cols, left, remaining);
          ReadableSubset(recs, idx, cols, right, remaining);
        }
        Internal(best, Build(recs, left, remaining), Build(recs, right, remaining))
  }

  /** The columns tested anywhere in the tree. */
  function Columns(t: TreeNode): set<nat>
  {
    match t
    case Leaf(_) => {}
    case Internal(c, left, right) => {c} + Columns(left) + Columns(right)
  }

  /** The labels of the leaves of the tree. */
  function LeafLabels(t: TreeNode): set<Option<Label>>
  {
    match t
    case Leaf(l) => {l}
    case Internal(_, left, right) => LeafLabels(left) + LeafLabels(right)
  }

  /** No column is tested twice on a path from the root to a leaf. */
  ghost predicate NoRepeatedColumn(t: TreeNode)
  {
    match t
    case Leaf(_) => true
    case Internal(c, left, right) =>
      c !in Columns(left) && c !in Columns(right) && NoRepeatedColumn(left) && NoRepeatedColumn(right)
  }

  /** The largest number of internal nodes on a path from the root to a leaf. */
  function Depth(t: TreeNode): nat
  {
    match t
    case Leaf(_) => 0
    case Internal(_, left, right) => 1 + if Depth(left) < Depth(right) then Depth(right) else Depth(left)
  }

  /** The number of nodes of the tree. */
  function Size(t: TreeNode): nat
  {
    match t
    case Leaf(_) => 1
    case Internal(_, left, right) => 1 + Size(left) + Size(right)
  }

  /**
   * The rules of `build`, each as a statement about its result: a pure group
   * gives a leaf with its one label; an impure group that ends in a leaf ends in
   * its majority label; an impure group of at least `MinGroupSize` records with a
   * column left and a split with two non-empty sides gives an internal node. An
   * internal node tests the best column of `cols`, and its children are built from
   * the two sides of the split, each a non-empty proper part of the group, with
   * that column removed.
   */
  lemma BuildRules(recs: seq<Record>, idx: seq<nat>, cols: seq<nat>)
    requires Readable(recs, idx, cols) && Ascending(idx) && Ascending(cols)
    ensures var t := Build(recs, idx, cols);
      && (forall l :: LabelsIn(recs, idx) == {l} ==> t == Leaf(Some(l)))
      && (t.Leaf? && |LabelsIn(recs, idx)| != 1 ==> t == Leaf(MajorityLabel(recs, idx)))
      && (t.Internal? <==>
           && |LabelsIn(recs, idx)| != 1 && cols != [] && |idx| >= MinGroupSize
           && var c := BestColIndexToSplitRecords(recs, idx, cols).value;
              && IndicesWithValueAtColumn(recs, idx, LeftRecordsBinaryValue, c) != []
              && IndicesWithValueAtColumn(recs, idx, RightRecordsBinaryValue, c) != [])
      && (t.Internal? ==>
           && BestColIndexToSplitRecords(recs, idx, cols) == Some(t.attribute)
           && var left := IndicesWithValueAtColumn(recs, idx, LeftRecordsBinaryValue, t.attribute);
              var right := IndicesWithValueAtColumn(recs, idx, RightRecordsBinaryValue, t.attribute);
              var remaining := RemoveValue(cols, t.attribute);
              && left != [] && |left| < |idx| && (forall i :: i in left ==> i in idx)
              && right != [] && |right| < |idx| && (forall i :: i in right ==> i in idx)
              && t.left == Build(recs, left, remaining)
              && t.right == Build(recs, right, remaining))
  {
    var t := Build(recs, idx, cols);
    if AreRecordsSameClass(recs, idx) {
      assert idx[0] in idx;
    } else if t.Internal? {
      var c := t.attribute;
      assert c in cols;
      SplitPartition(recs, idx, c);
    }
  }

  /**
   * Every leaf label of the tree is the label of a record of the group; a leaf
   * without a label (Java `null`) arises only, and always, from an empty group.
   */
  lemma {:induction false} BuildLeafLabels(recs: seq<Record>, idx: seq<nat>, cols: seq<nat>)
    requires Readable(recs, idx, cols) && Ascending(idx) && Ascending(cols)
    ensures var t := Build(recs, idx, cols);
      && (t == Leaf(None) <==> idx == [])
      && (idx != [] ==> None !in LeafLabels(t))
      && (forall l :: Some(l) in LeafLabels(t) ==> l in LabelsIn(recs, idx))
    decreases |cols|
  {
    var t := Build(recs, idx, cols);
    BuildRules(recs, idx, cols);
    if AreRecordsSameClass(recs, idx) {
      assert idx[0] in idx;
    } else if t.Internal? {
      var c := t.attribute;
      assert c in cols;
      var left := IndicesWithValueAtColumn(recs, idx, LeftRecordsBinaryValue, c);
      var right := IndicesWithValueAtColumn(recs, idx, RightRecordsBinaryValue, c);
      var remaining := RemoveValue(cols, c);
      ReadableSubset(recs, idx, cols, left, remaining);
      ReadableSubset(recs, idx, cols, right, remaining);
      BuildLeafLabels(recs, left, remaining);
      BuildLeafLabels(recs, right, remaining);
      LabelsInSubset(recs, left, idx);
      LabelsInSubset(recs, right, idx);
    }
  }

  /** An internal node whose children test columns of `remaining`, which is `cols` without the node's column. */
  lemma InternalColumns(t: TreeNode, cols: seq<nat>, remaining: seq<nat>)
    requires t.Internal? && t.attribute in cols
    requires forall y :: y in remaining <==> y in cols && y != t.attribute
    requires |remaining| == |cols| - 1
    requires forall c :: c in Columns(t.left) ==> c in remaining
    requires forall c :: c in Columns(t.right) ==> c in remaining
    requires NoRepeatedColumn(t.left) && NoRepeatedColumn(t.right)
    requires Depth(t.left) <= |remaining| && Depth(t.right) <= |remaining|
    ensures forall c :: c in Columns(t) ==> c in cols
    ensures NoRepeatedColumn(t)
    ensures Depth(t) <= |cols|
  {
  }

  /**
   * The tree tests only columns of `cols`, never the same column twice on a
   * path, so no path has more internal nodes than there are columns.
   */
  lemma {:induction false} BuildColumns(recs: seq<Record>, idx: seq<nat>, cols: seq<nat>)
    requires Readable(recs, idx, cols) && Ascending(idx) && Ascending(cols)
    ensures var t := Build(recs, idx, cols);
      && (forall c :: c in Columns(t) ==> c in cols)
      && NoRepeatedColumn(t)
      && Depth(t) <= |cols|
    decreases |cols|
  {
    var t := Build(recs, idx, cols);
    BuildRules(recs, idx, cols);
    if t.Internal? {
      var c := t.attribute;
      assert c in cols;
      var left := IndicesWithValueAtColumn(recs, idx, LeftRecordsBinaryValue, c);
      var right := IndicesWithValueAtColumn(recs, idx, RightRecordsBinaryValue, c);
      var remaining := RemoveValue(cols, c);
      ReadableSubset(recs, idx, cols, left, remaining);
      ReadableSubset(recs, idx, cols, right, remaining);
      BuildColumns(recs, left, remaining);
      BuildColumns(recs, right, remaining);
      InternalColumns(t, cols, remaining);
    }
  }

  /** Every column the tree tests is a position of `attrs`. */
  ghost predicate Fits(t: TreeNode, attrs: seq<real>)
  {
    forall c :: c in Columns(t) ==> c < |attrs|
  }

  /**
   * The descent of `classify`: at an internal node a value of 0 at the node's
   * column leads to the right child, any other value to the left child; the
   * result is the label of the leaf reached.
   */
  function ClassifyTree(t: TreeNode, attrs: seq<real>): (r: Option<Label>)
    requires Fits(t, attrs)
    ensures r in LeafLabels(t)
  {
    match t
    case Leaf(l) => l
    case Internal(c, left, right) =>
      assert c in Columns(t) && Fits(left, attrs) && Fits(right, attrs);
      if attrs[c] == RightRecordsBinaryValue as real then ClassifyTree(right, attrs) else ClassifyTree(left, attrs)
  }

  /** Every record of a group can be classified by the tree learnt from the group. */
  lemma BuildFits(recs: seq<Record>, idx: seq<nat>, cols: seq<nat>, i: nat)
    requires Readable(recs, idx, cols) && Ascending(idx) && Ascending(cols) && i in idx
    ensures Fits(Build(recs, idx, cols), recs[i].attrs)
  {
    BuildColumns(recs, idx, cols);
  }

  /**
   * Every leaf of the tree learnt from `idx` with `cols` comes from a group of
   * a single label: the learning reaches no majority leaf. It follows `build`'s
   * rules and its splits.
   */
  ghost predicate PureLeaves(recs: seq<Record>, idx: seq<nat>, cols: seq<nat>)
    requires Readable(recs, idx, cols) && Ascending(idx) && Ascending(cols)
    decreases |cols|
  {
    if AreRecordsSameClass(recs, idx) then true
    else if |cols| == 0 || |idx| < MinGroupSize then false
    else
      var best := BestColIndexToSplitRecords(recs, idx, cols).value;
      assert ReadableAt(recs, idx, best);
      var left := IndicesWithValueAtColumn(recs, idx, LeftRecordsBinaryValue, best);
      var right := IndicesWithValueAtColumn(recs, idx, RightRecordsBinaryValue, best);
      if |left| == 0 || |right| == 0 then false
      else
        var remaining := RemoveValue(cols, best);
        assert Readable(recs, left, remaining) && Readable(recs, right, remaining) by {
          ReadableSubset(recs, idx, cols, left, remaining);
          ReadableSubset(recs, idx, cols, right, remaining);
        }
        PureLeaves(recs, left, remaining) && PureLeaves(recs, right, remaining)
  }

  /** A set of one element that holds `x` is `{x}`. */
  lemma SingletonOf<T>(s: set<T>, x: T)
    requires |s| == 1 && x in s
    ensures s == {x}
  {
    assert |s - {x}| == 0;
  }

  /**
   * A record of the group whose values at the columns are all 0 or 1 follows,
   * when classified, the same path as during learning, and so receives the
   * label of a record of the group. When every leaf comes from a group of a
   * single label, it is the record's own label.
   */
  lemma {:induction false} ClassifyTrainingRecord(recs: seq<Record>, idx: seq<nat>, cols: seq<nat>, i: nat)
    requires Readable(recs, idx, cols) && Ascending(idx) && Ascending(cols) && i in idx
    requires forall c :: c in cols ==> recs[i].attrs[c] == 0.0 || recs[i].attrs[c] == 1.0
    ensures Fits(Build(recs, idx, cols), recs[i].attrs)
    ensures var r := ClassifyTree(Build(recs, idx, cols), recs[i].attrs);
      r.Some? && r.value in LabelsIn(recs, idx)
    ensures PureLeaves(recs, idx, cols) ==> ClassifyTree(Build(recs, idx, cols), recs[i].attrs) == Some(recs[i].classLabel)
    decreases |cols|
  {
    var t := Build(recs, idx, cols);
    BuildFits(recs, idx, cols, i);
    BuildLeafLabels(recs, idx, cols);
    BuildRules(recs, idx, cols);
    if t.Leaf? && AreRecordsSameClass(recs, idx) {
      SingletonOf(LabelsIn(recs, idx), recs[i].classLabel);
    }
    if t.Internal? {
      var c := t.attribute;
      assert c in cols;
      var left := IndicesWithValueAtColumn(recs, idx, LeftRecordsBinaryValue, c);
      var right := IndicesWithValueAtColumn(recs, idx, RightRecordsBinaryValue, c);
      var remaining := RemoveValue(cols, c);
      ReadableSubset(recs, idx, cols, left, remaining);
      ReadableSubset(recs, idx, cols, right, remaining);
      LabelsInSubset(recs, left, idx);
      LabelsInSubset(recs, right, idx);
      if recs[i].attrs[c] == 0.0 {
        assert i in right;
        ClassifyTrainingRecord(recs, right, remaining, i);
      } else {
        assert i in left;
        ClassifyTrainingRecord(recs, left, remaining, i);
      }
    }
  }

  /** Every character of `s` is a decimal digit. */
  ghost predicate AllDigits(s: string)
  {
    forall k :: 0 <= k < |s| ==> '0' <= s[k] <= '9'
  }

  function DigitChar(d: nat): (ch: char)
    requires d < 10
    ensures '0' <= ch <= '9' && (ch == '0' <==> d == 0)
  {
    (48 + d) as char
  }

  /**
   * The decimal form Java prints for a non-negative `int`: digits only, and a
   * leading zero only for zero itself.
   */
  function NatToString(n: nat): (s: string)
    ensures s != [] && AllDigits(s)
    ensures s[0] == '0' <==> n == 0
    decreases n
  {
    if n < 10 then [DigitChar(n)] else NatToString(n / 10) + [DigitChar(n % 10)]
  }

  /** The value of a string of decimal digits. */
  function DigitsValue(s: string): nat
    requires AllDigits(s)
  {
    if s == [] then 0 else DigitsValue(s[..|s| - 1]) * 10 + (s[|s| - 1] as int - 48)
  }

  /** Reading back the printed form of a column index gives the index. */
  lemma {:induction false} NatToStringValue(n: nat)
    ensures DigitsValue(NatToString(n)) == n
    decreases n
  {
    var s := NatToString(n);
    if n >= 10 {
      NatToStringValue(n / 10);
      assert s[..|s| - 1] == NatToString(n / 10);
    }
  }

  /** `hierarchy` tab characters. */
  function Tabs(hierarchy: nat): (s: string)
    ensures |s| == hierarchy && forall k :: 0 <= k < |s| ==> s[k] == '\t'
  {
    if hierarchy == 0 then "" else Tabs(hierarchy - 1) + "\t"
  }

  /** `TreeNode.toString`: the node type, then the column of an internal node or the label of a leaf. */
  function NodeString(t: TreeNode): string
  {
    match t
    case Leaf(l) => "Type: leaf, label: " + (if l.Some? then l.value else "null")
    case Internal(c, _, _) => "Type: internal, attribute: " + NatToString(c)
  }

  /**
   * The text of an internal node ends, after its 27-character prefix, with the
   * decimal digits of its column, and reading them back gives the column.
   */
  lemma NodeStringAttribute(t: TreeNode)
    requires t.Internal?
    ensures var s := NodeString(t);
      |s| > 27 && AllDigits(s[27..]) && DigitsValue(s[27..]) == t.attribute
  {
    var digits := NatToString(t.attribute);
    NatToStringValue(t.attribute);
    assert NodeString(t)[27..] == digits;
  }

  /** The left child of a node, `None` (Java `null`) for a leaf. */
  function LeftChild(t: TreeNode): (r: Option<TreeNode>)
    ensures r.Some? ==> Size(r.value) < Size(t)
  {
    if t.Internal? then Some(t.left) else None
  }

  /** The right child of a node, `None` (Java `null`) for a leaf. */
  function RightChild(t: TreeNode): (r: Option<TreeNode>)
    ensures r.Some? ==> Size(r.value) < Size(t)
  {
    if t.Internal? then Some(t.right) else None
  }

  /**
   * `treeString`: the empty string for a missing node; otherwise the tree drawn
   * sideways, one line per node in pre-order, each indented by one tab per
   * level below the starting `hierarchy`.
   */
  function TreeString(node: Option<TreeNode>, hierarchy: nat): (s: string)
    ensures s == "" <==> node.None?
    decreases if node.Some? then Size(node.value) else 0
  {
    match node
    case None => ""
    case Some(t) =>
      Tabs(hierarchy) + NodeString(t) + "\n" +
      TreeString(LeftChild(t), hierarchy + 1) + TreeString(RightChild(t), hierarchy + 1)
  }

  /** No leaf label of the tree contains a line break. */
  ghost predicate SingleLineLabels(t: TreeNode)
  {
    forall l :: Some(l) in LeafLabels(t) ==> '\n' !in l
  }

  /** The text of a node holds no line break. */
  lemma NodeStringSingleLine(t: TreeNode)
    requires SingleLineLabels(t)
    ensures NewlineCount(NodeString(t)) == 0
  {
    match t {
      case Leaf(l) =>
        if l.Some? {
          assert Some(l.value) in LeafLabels(t);
          forall k | 0 <= k < |l.value| ensures l.value[k] != '\n' {
            assert l.value[k] in l.value;
          }
          NoNewline(l.value);
          LeafLine(l.value);
        } else {
          NullTextSingleLine();
          LeafLine("null");
        }
      case Internal(c, _, _) =>
        NoNewline(NatToString(c));
        InternalLine(NatToString(c));
    }
  }

  /** The line of a node, before its line break, holds no line break. */
  lemma HeadSingleLine(t: TreeNode, hierarchy: nat)
    requires SingleLineLabels(t)
    ensures NewlineCount(Tabs(hierarchy) + NodeString(t)) == 0
  {
    NodeStringSingleLine(t);
    NoNewline(Tabs(hierarchy));
    NewlineCountAppend(Tabs(hierarchy), NodeString(t));
  }

  /** With single-line labels, the drawing has exactly one line per node. */
  lemma {:induction false} TreeStringLines(t: TreeNode, hierarchy: nat)
    requires SingleLineLabels(t)
    ensures NewlineCount(TreeString(Some(t), hierarchy)) == Size(t)
    decreases Size(t)
  {
    var line := Tabs(hierarchy) + NodeString(t);
    HeadSingleLine(t, hierarchy);
    var l, r := TreeString(LeftChild(t), hierarchy + 1), TreeString(RightChild(t), hierarchy + 1);
    assert TreeString(Some(t), hierarchy) == line + "\n" + l + r;
    NewlineCountLine(line, l, r);
    if t.Internal? {
      TreeStringLines(t.left, hierarchy + 1);
      TreeStringLines(t.right, hierarchy + 1);
    } else {
      assert l == "" && r == "";
    }
  }
}
