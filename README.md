# Decision-tree classifier, modelled in Dafny

This project models the core of `DecisionTreeClassifier`. The classifier is a
greedy learner of binary decision trees over records whose attributes are
coded as small integers, usually 0 and 1. It has four parts:

- **Grouping.** It counts the labels of a group of records.
- **Split choice.** It scores each remaining column by the Gini impurity of the
  split it induces. A record with value 1 at the column goes left, one with
  value 0 goes right. It picks the first column with the smallest score.
- **Learning.** `build` applies its four rules in order:
  1. a group with a single label becomes a leaf;
  2. a group with no column left, or with fewer than 6 records, becomes a
     majority leaf;
  3. a split with an empty side becomes a majority leaf;
  4. otherwise the node tests the chosen column and both children are built
     without it.
- **Classification and validation.** It classifies a record by descent: value 0
  goes right, any other value goes left. It validates the tree three ways:
  training error, leave-one-out, and 300 rounds of random sampling with 15% of
  the records held out.

## Modules

- `Data` (`data.dfy`) holds records, Java's `(int)` cast and its `double`
  constants, and the list operations `remove(i)` and `add(i, x)`.
- `Data` also models the index sets: a `TreeSet<Integer>` is a strictly
  ascending sequence, so walking it visits elements in the `TreeSet`'s order.
- `Counting` (`counting.dfy`) holds the label-count table, `majorityLabel` and
  `areRecordsSameClass`.
- `Impurity` (`impurity.dfy`) holds `gini` and `classError` over exact reals.
  The bound `1 - 1/k` on the Gini impurity of `k` labels is proved through
  integer sums of squares, which keeps the argument out of real products.
- `Split` (`split.dfy`) holds the column filter, the weighted Gini score (the
  source calls it `averageWeightedEntropy`) and the choice of the best column.
- `Tree` (`tree.dfy`) holds `TreeNode`, `build`, the descent of `classify` and
  `treeString`. The inner class `TreeNode` (src/DecisionTreeClassifier.java:43-66)
  is the datatype `Tree.TreeNode`: a leaf with its label, or an internal node
  with its column and two children. The node type string is the constructor.
- `Lines` (also in `tree.dfy`) counts the line breaks of the rendered tree.
- `Classifier` (`classifier.dfy`) holds the class `DecisionTreeClassifier`. Its
  fields are `records`, `numberOfAttributes` and `root`.

The methods of `DecisionTreeClassifier` keep the source's loops and its updates
of `records` and `root`. Each method is proved equal to a function (a tree, a
count, or the records and tree after a run), and the properties are proved
about those functions.

Java `null` is `None`. It appears in three places:

- a leaf label, which `majorityLabel` gives for an empty group;
- the best column when there is none;
- the root before `buildTree` has run.

`java.util.Random` is a parameter instead. The caller supplies the drawn
numbers, and a draw `d` stands for the position `d % size`. That covers every
outcome of `nextInt(size)`.

### Attribute values outside 0 and 1

The code does not reject attribute values outside {0, 1}, and the model follows
the code. A record whose value at the split column, cast to `int`, is neither
0 nor 1 falls on neither side of the split, so `build` drops it from both
children. `Split.SplitPartition` states this: the two sides never overlap, and
they cover the group when every value at the column is 0 or 1. `classify`
sends any value other than 0 left.

### The 15% held out

`(int)(records.size() * 0.15)` is modelled as `size * 15 / 100`. The two agree:

- When `15 * size` is a multiple of 100, the rounding error of the double
  product is below half a unit in the last place, so the product is the exact
  integer.
- Otherwise the exact quotient is at least 0.05 away from an integer.

## Model

| member | source | states |
|---|---|---|
| `Data.TruncToInt` | src/DecisionTreeClassifier.java:410 | The `(int)` cast lands in the `int` range; it is 0 exactly for values in (-1, 1) and 1 exactly for values in [1, 2). |
| `Data.Range` | src/DecisionTreeClassifier.java:163-170 | The index set filled by `buildTree`'s loops is ascending, has `n` elements, and holds exactly 0..n-1. |
| `Data.RemoveValue` | src/DecisionTreeClassifier.java:206-210 | `TreeSet.remove` keeps the set ascending and removes exactly the given column, shrinking the set by one when the column was in it. |
| `Data.RemoveAt` | src/DecisionTreeClassifier.java:517 | `ArrayList.remove(i)` shifts the later elements down by one, loses exactly the element at `i` (as multisets), and adds nothing. |
| `Data.InsertAt` | src/DecisionTreeClassifier.java:525 | `ArrayList.add(i, x)` places `x` at `i` and shifts the later elements up by one. |
| `Data.InsertAtRemoveAt` | src/DecisionTreeClassifier.java:517-525 | Removing the element at `i` and adding it back at `i` restores the list. |
| `Counting.Lookup` | src/DecisionTreeClassifier.java:428 | `HashMap.get` on the label table: a label that is not a key has count 0, and no count exceeds the table's total. |
| `Counting.Increment` | src/DecisionTreeClassifier.java:427-431 | One counting step adds 1 to the label's count (or enters it with count 1), leaves every other count alone, and keeps keys distinct and counts positive. |
| `Counting.Frequencies` | src/DecisionTreeClassifier.java:422-434 | The label table has distinct keys and positive counts, its counts sum to the group size, and it is empty exactly for an empty group. |
| `Counting.FrequenciesCounts` | src/DecisionTreeClassifier.java:422-434 | The table's keys are exactly the labels in the group, and each count is that label's number of occurrences. |
| `Counting.FrequenciesStep` | src/DecisionTreeClassifier.java:424-432 | Counting one more index of the walk adds that record's label to the table built so far. |
| `Counting.MostFrequent` | src/DecisionTreeClassifier.java:239-247 | The scan ends with a count at least every entry's count; it either keeps its start or ends on an entry of the table. |
| `Counting.MostFrequentIsMaximal` | src/DecisionTreeClassifier.java:239-247 | On a non-empty table of observed labels the scan returns a key whose count is at least any label's count. |
| `Counting.MajorityLabel` | src/DecisionTreeClassifier.java:229-249 | `null` exactly for an empty group; otherwise a label of the group that occurs at least as often as any other. |
| `Counting.AllLabelled` | src/DecisionTreeClassifier.java:259-264 | The loop finds no differing label exactly when the group's labels are all the given label. |
| `Counting.AreRecordsSameClass` | src/DecisionTreeClassifier.java:254-266 | True exactly when the group's records carry exactly one label; false for an empty group. |
| `Counting.SameClassIffSingleKey` | src/DecisionTreeClassifier.java:254-266 | A group is pure exactly when its label table has a single key. |
| `Impurity.MaxRatio` | src/DecisionTreeClassifier.java:454-460 | The running maximum is at least its start and at least every ratio, and it is either the start or one of the ratios. |
| `Impurity.SquaredRatioSumBounds` | src/DecisionTreeClassifier.java:446-449 | For positive counts summing to the size, the sum of squared ratios lies in (0, 1] and is 1 exactly when there is a single label. |
| `Impurity.Gini` | src/DecisionTreeClassifier.java:445-451 | For positive counts summing to the size, Gini impurity lies in [0, 1) and is 0 exactly when there is a single label. |
| `Impurity.DeviationZero` | src/DecisionTreeClassifier.java:446-449 | A proof step of `Impurity.GiniAtMost`, over the auxiliary integer sum `Deviation`; it models no line of `gini` itself. The sum of the squared distances `(k * count - s)^2` is never negative, and is 0 exactly when every `k * count` equals `s`. |
| `Impurity.DeviationExpand` | src/DecisionTreeClassifier.java:446-449 | A proof step of `Impurity.GiniAtMost`, over the auxiliary integer sum `Deviation`; it models no line of `gini` itself. That sum of squared distances equals `k^2` times the sum of squared counts, less `2ks` times the total, plus the number of counts times `s^2`. |
| `Impurity.Balance` | src/DecisionTreeClassifier.java:446-449 | The integer form of `Impurity.GiniAtMost`, over the squared counts that `gini` sums; it models no line of `gini` itself. For `k` counts with total `s`, `k` times the sum of the squared counts is at least `s^2`, with equality exactly when every count is `s / k`. |
| `Impurity.GiniAtMost` | src/DecisionTreeClassifier.java:445-451 | For `k` observed labels, Gini impurity is at most `1 - 1/k`, and equals it exactly when every label has `size / k` records. |
| `Impurity.MaxRatioAtMost` | src/DecisionTreeClassifier.java:454-460 | When the start and every ratio are at most a bound, so is the running maximum; when they are all below it, so is the maximum. |
| `Impurity.MaxRatioBounds` | src/DecisionTreeClassifier.java:453-462 | From any start strictly between 0 and 1, as `Double.MIN_VALUE` is, the largest ratio of positive counts summing to the size lies in (0, 1] and is 1 exactly when there is a single label. |
| `Impurity.ClassError` | src/DecisionTreeClassifier.java:453-462 | For positive counts summing to the size, the class error lies in [0, 1) and is 0 exactly when there is a single label. |
| `Impurity.ReferenceValues` | src/DecisionTreeClassifier.java:531-538 | For counts 16 and 6 over a size of 20, Gini is exactly 0.27 and the class error exactly 0.2. |
| `Split.IndicesWithValueAtColumn` | src/DecisionTreeClassifier.java:405-415 | The result holds exactly the input indices whose value at the column, cast to `int`, equals the value; it is ascending when the input is, and no larger. |
| `Split.IndicesWithValueStep` | src/DecisionTreeClassifier.java:408-413 | Filtering the first `i + 1` indices is filtering the first `i`, then keeping the `i`-th index exactly when its value, cast to `int`, equals the value. |
| `Split.SplitPartition` | src/DecisionTreeClassifier.java:195-200 | The left (1) and right (0) sides are disjoint and at most the group; when every value is 0 or 1 their union is exactly the group. |
| `Split.SideScore` | src/DecisionTreeClassifier.java:389-393 | One side's weighted Gini term lies between 0 and the side's share of the group, strictly below the share for a non-empty side. |
| `Split.AverageWeightedGini` | src/DecisionTreeClassifier.java:380-396 | Every split score lies in [0, 1). |
| `Split.FilterKeepsAll` | src/DecisionTreeClassifier.java:405-415 | When every index in the group has the value at the column, the filter returns the whole group, in its order. |
| `Split.SideScoreEmpty` | src/DecisionTreeClassifier.java:389-393 | An empty side contributes 0 to the split score. |
| `Split.SideScoreWhole` | src/DecisionTreeClassifier.java:389-393 | A side holding the whole group contributes exactly that group's Gini impurity. |
| `Split.OneSidedSplitScore` | src/DecisionTreeClassifier.java:380-396 | When every value at the column is 0 or 1 and one side is empty, the split score is the Gini impurity of the whole group. |
| `Split.BestColumnFrom` | src/DecisionTreeClassifier.java:364-373 | Either no column from position `i` on beats the running minimum and the best so far is kept, or the result is a position from `i` on whose column beats it, scores no more than any column from `i` on, and strictly less than every column before it. |
| `Split.BestColIndexToSplitRecords` | src/DecisionTreeClassifier.java:360-374 | `null` exactly when there is no column or no record; otherwise a remaining column with the least score, strictly below every smaller column's score. |
| `Tree.Build` | src/DecisionTreeClassifier.java:181-223 | A group of fewer than 6 records, or with no column left, gives a leaf; an internal node tests one of the given columns. The rules in full are `Tree.BuildRules`. |
| `Tree.BuildRules` | src/DecisionTreeClassifier.java:181-223 | The four rules in order: a pure group gives its label's leaf; an impure leaf is the majority leaf; a node is internal exactly when the group is impure, has a column left, has at least 6 records and the best split has two non-empty sides; an internal node tests the best column, and its children are built from non-empty proper parts of the group without that column. |
| `Tree.BuildLeafLabels` | src/DecisionTreeClassifier.java:185-204 | Every leaf label is the label of a record of the group; a `null` leaf arises exactly from an empty group. |
| `Tree.BuildColumns` | src/DecisionTreeClassifier.java:206-217 | The tree tests only the given columns, never one twice on a path, so its depth is at most the number of columns. |
| `Tree.ClassifyTree` | src/DecisionTreeClassifier.java:464-475 | The descent (0 right, anything else left) ends at a leaf and returns one of the tree's leaf labels. |
| `Tree.BuildFits` | src/DecisionTreeClassifier.java:467-468 | Every record of the group has a value at every column the learnt tree tests. |
| `Tree.ClassifyTrainingRecord` | src/DecisionTreeClassifier.java:464-475 | A training record with values 0 or 1 at the columns receives a label, and it is the label of a record of its group. When every leaf of the learnt tree comes from a group of a single label (`Tree.PureLeaves`, which follows `build`'s rules and splits), it is the record's own label. |
| `Tree.NatToString` | src/DecisionTreeClassifier.java:63 | The printed column index is a non-empty string of digits with a leading zero only for zero. |
| `Tree.NatToStringValue` | src/DecisionTreeClassifier.java:63 | Reading the printed column index back gives the index. |
| `Tree.NodeStringAttribute` | src/DecisionTreeClassifier.java:61-65 | The text of an internal node is `Type: internal, attribute: ` followed by decimal digits that read back as its column. |
| `Tree.Tabs` | src/DecisionTreeClassifier.java:554-556 | The indentation is exactly `hierarchy` tab characters. |
| `Tree.TreeString` | src/DecisionTreeClassifier.java:549-562 | The drawing is empty exactly for a missing (`null`) node. |
| `Tree.TreeStringLines` | src/DecisionTreeClassifier.java:549-562 | With single-line labels, the sideways drawing has exactly one line per node. |
| `Classifier.TrainTree` | src/DecisionTreeClassifier.java:162-173 | The tree `buildTree` learns is the `null` leaf exactly when there is no record. |
| `Classifier.TrainTreeShape` | src/DecisionTreeClassifier.java:162-173 | The tree `buildTree` learns tests only columns below the attribute count, and from some record it has no `null` leaf. |
| `Classifier.TrainTreeClassifies` | src/DecisionTreeClassifier.java:162-173 | Any record wide enough can be classified by the learnt tree, and receives `null` exactly when the tree was learnt from no record. |
| `Classifier.Misclassified` | src/DecisionTreeClassifier.java:477-486 | The number of mismatches, a `null` label counting as one, is at most the number of records. |
| `Classifier.MisclassifiedNone` | src/DecisionTreeClassifier.java:477-486 | A tree that gives every record its own label has no mismatch. |
| `Classifier.PureTrainingError` | src/DecisionTreeClassifier.java:477-486 | Records that all carry one label have no training error. |
| `Classifier.PureLeavesTrainingError` | src/DecisionTreeClassifier.java:477-486 | When the records hold only 0 or 1 in the columns and every leaf of the learnt tree comes from a group of a single label, the training error is 0. |
| `Classifier.TestRecordCount` | src/DecisionTreeClassifier.java:491 | The held-out count is 15% of the records rounded down, and fewer than the records when there is one. |
| `Classifier.ErrorRate` | src/DecisionTreeClassifier.java:485 | The ratio is non-negative, 0 exactly with no mismatch, and at most 1 when mismatches do not outnumber records. |
| `Classifier.OneOutRound` | src/DecisionTreeClassifier.java:517-525 | A round adds at most one mismatch, stops on a `null` label exactly when the list holds a single record, and leaves as root the tree learnt without the `i`-th record. |
| `Classifier.LeaveOneOut` | src/DecisionTreeClassifier.java:514-528 | After `k` rounds the mismatch count is at most `k`, a stop on `null` is at a round below `k`, and a tree has been learnt once a round ran. |
| `Classifier.LeaveOneOutLast` | src/DecisionTreeClassifier.java:516-526 | Leave-one-out over `k` rounds, at least one: the mismatch count is at most `k`, a stop on `null` is at a round below `k`, and a tree has been learnt. |
| `Classifier.LeaveOneOutNext` | src/DecisionTreeClassifier.java:516-526 | The definition's recursive step, stated for the loop invariant: a run that met no `null` label in its first `k` rounds continues with round `k`. |
| `Classifier.LeaveOneOutStops` | src/DecisionTreeClassifier.java:516-526 | Once a run has stopped on a `null` label, further rounds change neither its outcome nor its tree. |
| `Classifier.LeaveOneOutLabels` | src/DecisionTreeClassifier.java:516-522 | Over at least two records no `null` label is met; over one record the run stops at once on a `null` label. |
| `Classifier.Position` | src/DecisionTreeClassifier.java:497 | A draw stands for a valid position of the current list. |
| `Classifier.HoldOut` | src/DecisionTreeClassifier.java:495-499 | Drawing `k` records leaves `size - k` in the list and `k` held out, and together they are the original records. |
| `Classifier.HoldOutStep` | src/DecisionTreeClassifier.java:496-499 | One more draw removes the record at its position from what the earlier draws left and appends it to the held-out records. |
| `Classifier.SamplingRound` | src/DecisionTreeClassifier.java:494-510 | A round keeps the same records (as a multiset) and counts at most as many mismatches as records held out. |
| `Classifier.NextRound` | src/DecisionTreeClassifier.java:494-510 | One more round keeps the records and adds at most the number held out to the mismatch count. |
| `Classifier.SamplingRounds` | src/DecisionTreeClassifier.java:488-512 | Over all rounds the records stay the same records and the mismatches are at most rounds times held-out count. |
| `Classifier.LastRound` | src/DecisionTreeClassifier.java:494-510 | The rounds over a non-empty list of draws keep the same records (as a multiset) and count at most rounds times held-out count mismatches. |
| `Classifier.SamplingRoundsRecords` | src/DecisionTreeClassifier.java:509 | After any number of rounds the list is as long, and its records as wide, as at the start. |
| `Classifier.SamplingRoundsStep` | src/DecisionTreeClassifier.java:494-510 | The rounds over the first `j + 1` draws are one more round after the rounds over the first `j`. |
| `Classifier.SamplingLabels` | src/DecisionTreeClassifier.java:501-506 | In a round over at least one record, every held-out record can be classified and receives a non-`null` label. |
| `Classifier.DecisionTreeClassifier.constructor` | src/DecisionTreeClassifier.java:149-160 | A classifier holds its records and attribute count, with no tree yet. |
| `Classifier.DecisionTreeClassifier.BuildTree` | src/DecisionTreeClassifier.java:162-173 | `buildTree` sets the root to the tree learnt from all records over all attributes. |
| `Classifier.DecisionTreeClassifier.IndicesOfRecordsWithValueAtColumn` | src/DecisionTreeClassifier.java:405-415 | The loop computes exactly the filtered index set. |
| `Classifier.DecisionTreeClassifier.FrequenciesOfLabels` | src/DecisionTreeClassifier.java:422-434 | The loop computes exactly the label table of the group. |
| `Classifier.DecisionTreeClassifier.Classify` | src/DecisionTreeClassifier.java:464-475 | The `while` descent returns the label of the leaf the record reaches, which is one of the tree's leaf labels. |
| `Classifier.DecisionTreeClassifier.ComputeTrainingError` | src/DecisionTreeClassifier.java:477-486 | The loop counts exactly the records the tree mislabels, at most the number of records. |
| `Classifier.DecisionTreeClassifier.OneOutValidationError` | src/DecisionTreeClassifier.java:514-528 | The result and the last tree are those of leave-one-out over all records; on completion the records are exactly as before, and on a `null` label the record at that position is missing. |
| `Classifier.DecisionTreeClassifier.OneOutRoundStep` | src/DecisionTreeClassifier.java:517-525 | One round leaves the outcome and the tree as `OneOutRound` gives them; the record is put back at its position unless its label is `null`. |
| `Classifier.DecisionTreeClassifier.TakeTestRecords` | src/DecisionTreeClassifier.java:495-499 | The loop removes the records at the drawn positions, in order, and returns them. |
| `Classifier.DecisionTreeClassifier.CountTestMisses` | src/DecisionTreeClassifier.java:502-507 | The loop counts exactly the held-out records the tree mislabels. |
| `Classifier.DecisionTreeClassifier.SamplingRoundStep` | src/DecisionTreeClassifier.java:494-510 | One round leaves the records, the tree and the mismatch count as `SamplingRound` gives them. |
| `Classifier.DecisionTreeClassifier.RandomSamplingClassificationError` | src/DecisionTreeClassifier.java:488-512 | The result is that of 300 rounds over the draws; the records stay the same records, and the mismatches are at most 300 times the held-out count. |

## Left out

- Loading training and test data, writing classified labels to a file, and the
  symbol-to-code dictionary `binaryNameToIntSymbol` are file I/O and parsing.
  The model starts from records that are already coded.
- `entropy` is not modelled, because it uses `Math.log`. Its only use is the
  printout of `zTestClassErrors`, which is console output. The Gini and
  class-error values that routine prints are stated in `Impurity.ReferenceValues`.
- `main`, `Driver1.java` and `Driver2Hiring.java` are not part of this model.
  They only sequence I/O and printing.
- All console tracing is left out, as are `Record.toString` (its `%.2f`
  formatting) and the classifier's `toString` with the informational fields
  `numberOfRecords` and `numberOfClasses`.
- `java.util.Random` is replaced by caller-supplied draws (see above). The model
  does not capture the distribution of the draws.
- Scores are exact reals, so double rounding is not reproduced. Ties that
  rounding would decide differently may be broken differently.
- `Classifier.DecisionTreeClassifier.ComputeTrainingError`,
  `Classifier.DecisionTreeClassifier.OneOutValidationError` and
  `Classifier.DecisionTreeClassifier.RandomSamplingClassificationError` return
  the mismatch count, not the ratio.
  - The ratio is `Classifier.ErrorRate`, which requires a positive total.
  - The source divides by zero when there are no records or no held-out records.
- `Counting.MajorityLabel`: on a tie it returns the tied label first met in
  index order. The source returns the one its `HashMap` iterates first, which
  depends on string hash codes. The contract states only what both share: a
  label of maximal count.
- `Classifier.DecisionTreeClassifier.OneOutValidationError`: the source throws
  a `NullPointerException` when it classifies to a `null` label. That happens
  only with a single record. The model ends the run with a `NullLabelAt`
  outcome instead, and leaves the list without that record, as the source does.
- `classify` on a classifier without a tree throws in the source. On a record
  it reads only the columns on the path that record takes, and throws only when
  one of those is missing. The methods require a tree, and a record wide enough
  for every column the tree tests (`Tree.Fits`). That excludes some narrow
  records the source classifies.
- `Classifier.DecisionTreeClassifier.constructor`,
  `Classifier.DecisionTreeClassifier.Valid` and `Tree.Build` require every
  record to have at least `numberOfAttributes` values. Malformed (narrow)
  records are excluded, not modelled.
  - In the source each record takes its own line's width (:301-306), apart
    from the header's attribute count (:281).
  - A narrow record makes the source throw `ArrayIndexOutOfBoundsException`
    only when a group holding it reaches a split (:194, :367, :410). In a pure
    group, or one with fewer than 6 records, it goes unnoticed.
- `Classifier.DecisionTreeClassifier.RandomSamplingClassificationError`: the
  counters are unbounded `nat`s. The source's `int` counters and
  `numberOfTestRecords * ITERATIONS` (:492, :505, :511) wrap once
  `records.size() * 0.15 * 300` passes 2^31 - 1, at about 47.7 million records.
  The model does not wrap.
