/** The split part of `CoraDataLoader`: a random permutation of the node
    indices is cut into train, validation and test slices, and each slice
    becomes a boolean mask over the nodes. The permutation and the two sizes
    are inputs. */
module DataLoader {
  import opened Wrappers
  import opened Errors
  import opened Sequences

  /** The loaded graph data as far as the split sees it: its node count and
      the three masks, each absent until set. */
  datatype Data = Data(numNodes: nat, trainMask: Option<seq<bool>>, valMask: Option<seq<bool>>, testMask: Option<seq<bool>>)

  /** The `(train_mask, val_mask, test_mask)` triple. */
  datatype Masks = Masks(train: seq<bool>, val: seq<bool>, test: seq<bool>)

  /** What `np.random.permutation(n)` guarantees: every index below `n` exactly once. */
  ghost predicate IsPermutation(indices: seq<nat>, n: nat) {
    && |indices| == n
    && Distinct(indices)
    && forall i: nat :: i in indices <==> i < n
  }

  /** `torch.zeros(n, dtype=torch.bool)` with `mask[idx] = True`. */
  function MaskOf(n: nat, idx: seq<nat>): (r: seq<bool>)
    ensures |r| == n
    ensures forall i :: 0 <= i < n ==> (r[i] <==> i in idx)
  {
    seq(n, i requires 0 <= i < n => i in idx)
  }

  /** The nodes a mask selects. */
  function TrueSet(mask: seq<bool>): set<nat> {
    set i | 0 <= i < |mask| && mask[i]
  }

  /** `train_size = num_nodes - test_size - val_size`; negative when the
      two other sizes together exceed the node count. */
  function TrainSize(n: nat, valSize: nat, testSize: nat): int {
    n - testSize - valSize
  }

  function TrainIndices(indices: seq<nat>, valSize: nat, testSize: nat): seq<nat> {
    Slice(indices, 0, TrainSize(|indices|, valSize, testSize))
  }

  function ValIndices(indices: seq<nat>, valSize: nat, testSize: nat): seq<nat> {
    var t := TrainSize(|indices|, valSize, testSize);
    Slice(indices, t, t + valSize)
  }

  function TestIndices(indices: seq<nat>, valSize: nat, testSize: nat): seq<nat> {
    var t := TrainSize(|indices|, valSize, testSize);
    Slice(indices, t + valSize, |indices|)
  }

  /** `get_split_masks()`: fails when no data is loaded; otherwise three
      masks over the nodes, each selecting exactly the indices of its slice. */
  function GetSplitMasks(data: Option<Data>, indices: seq<nat>, valSize: nat, testSize: nat): (r: Result<Masks, Error>)
    requires data.Some? ==> IsPermutation(indices, data.value.numNodes)
    ensures data.None? ==> r == Failure(DataNotLoaded)
    ensures data.Some? ==> r.Success?
    ensures r.Success? ==>
      (&& |r.value.train| == |r.value.val| == |r.value.test| == data.value.numNodes
       && TrueSet(r.value.train) == Elements(TrainIndices(indices, valSize, testSize))
       && TrueSet(r.value.val) == Elements(ValIndices(indices, valSize, testSize))
       && TrueSet(r.value.test) == Elements(TestIndices(indices, valSize, testSize)))
  {
    if data.None? then Failure(DataNotLoaded)
    else
      var n := data.value.numNodes;
      var train := TrainIndices(indices, valSize, testSize);
      var val := ValIndices(indices, valSize, testSize);
      var test := TestIndices(indices, valSize, testSize);
      SliceBelow(indices, n, 0, TrainSize(n, valSize, testSize));
      SliceBelow(indices, n, TrainSize(n, valSize, testSize), TrainSize(n, valSize, testSize) + valSize);
      SliceBelow(indices, n, TrainSize(n, valSize, testSize) + valSize, n);
      MaskOfTrueSet(n, train);
      MaskOfTrueSet(n, val);
      MaskOfTrueSet(n, test);
      Success(Masks(MaskOf(n, train), MaskOf(n, val), MaskOf(n, test)))
  }

  /** Every slice of a permutation of `0..n-1` holds indices below `n`. */
  lemma SliceBelow(indices: seq<nat>, n: nat, lo: int, hi: int)
    requires IsPermutation(indices, n)
    ensures forall i :: i in Slice(indices, lo, hi) ==> i < n
  {
  }

  /** A mask built from indices below `n` selects exactly those indices. */
  lemma MaskOfTrueSet(n: nat, idx: seq<nat>)
    requires forall i :: i in idx ==> i < n
    ensures TrueSet(MaskOf(n, idx)) == Elements(idx)
  {
    var m := MaskOf(n, idx);
    forall i | i in Elements(idx) ensures i in TrueSet(m) {
      assert i < n && m[i];
    }
  }

  /** An index of a duplicate-free sequence is in the slice `s[lo:hi]` exactly
      when its position lies in the slice's normalised bounds. */
  lemma InSliceIffPosition(s: seq<nat>, lo: int, hi: int, x: nat)
    requires Distinct(s) && x in s
    ensures x in Slice(s, lo, hi) <==> Clamp(lo, |s|) <= IndexOf(s, x) < Clamp(hi, |s|)
  {
    var a, b := Clamp(lo, |s|), Clamp(hi, |s|);
    if a < b {
      assert Slice(s, lo, hi) == s[a..b];
      InRangeIffPosition(s, a, b, IndexOf(s, x));
    } else {
      assert Slice(s, lo, hi) == [];
    }
  }

  /** The element at position `p` of a duplicate-free sequence lies in
      `s[a..b]` exactly when `p` does. */
  lemma InRangeIffPosition<T>(s: seq<T>, a: nat, b: nat, p: nat)
    requires Distinct(s) && a <= b <= |s| && p < |s|
    ensures s[p] in s[a..b] <==> a <= p < b
  {
    if s[p] in s[a..b] {
      var k :| 0 <= k < b - a && s[a..b][k] == s[p];
      assert s[a + k] == s[p];
    }
    if a <= p < b {
      assert s[a..b][p - a] == s[p];
    }
  }

  /** The sizes leave room for a training slice. */
  predicate SizesFit(n: nat, valSize: nat, testSize: nat) {
    valSize + testSize <= n
  }

  /** When the sizes fit, node `i` goes to training when its position in the
      permutation is below `train_size`, to validation when it is among the
      next `val_size` positions, and to test otherwise. */
  lemma MaskPositions(data: Data, indices: seq<nat>, valSize: nat, testSize: nat, i: nat)
    requires IsPermutation(indices, data.numNodes)
    requires SizesFit(data.numNodes, valSize, testSize) && i < data.numNodes
    ensures i in indices
    ensures var r := GetSplitMasks(Some(data), indices, valSize, testSize).value;
      var p := IndexOf(indices, i);
      var t := TrainSize(data.numNodes, valSize, testSize);
      && (i in TrueSet(r.train) <==> p < t)
      && (i in TrueSet(r.val) <==> t <= p < t + valSize)
      && (i in TrueSet(r.test) <==> t + valSize <= p)
  {
    var n := data.numNodes;
    var t := TrainSize(n, valSize, testSize);
    InSliceIffPosition(indices, 0, t, i);
    InSliceIffPosition(indices, t, t + valSize, i);
    InSliceIffPosition(indices, t + valSize, n, i);
  }

  /** When the sizes fit, every node is in exactly one of the three masks. */
  lemma MasksPartition(data: Data, indices: seq<nat>, valSize: nat, testSize: nat)
    requires IsPermutation(indices, data.numNodes)
    requires SizesFit(data.numNodes, valSize, testSize)
    ensures var r := GetSplitMasks(Some(data), indices, valSize, testSize).value;
      && TrueSet(r.train) !! TrueSet(r.val)
      && TrueSet(r.train) !! TrueSet(r.test)
      && TrueSet(r.val) !! TrueSet(r.test)
      && forall i: nat :: i < data.numNodes <==> i in TrueSet(r.train) + TrueSet(r.val) + TrueSet(r.test)
  {
    var r := GetSplitMasks(Some(data), indices, valSize, testSize).value;
    forall i: nat | i < data.numNodes
      ensures (i in TrueSet(r.train) ==> i !in TrueSet(r.val) && i !in TrueSet(r.test))
      ensures i in TrueSet(r.val) ==> i !in TrueSet(r.test)
      ensures i in TrueSet(r.train) + TrueSet(r.val) + TrueSet(r.test)
    {
      MaskPositions(data, indices, valSize, testSize, i);
    }
  }

  /** Each mask selects as many nodes as its slice holds: `train_size`,
      `val_size` and `test_size` when the sizes fit. */
  lemma MaskCounts(data: Data, indices: seq<nat>, valSize: nat, testSize: nat)
    requires IsPermutation(indices, data.numNodes)
    requires SizesFit(data.numNodes, valSize, testSize)
    ensures var r := GetSplitMasks(Some(data), indices, valSize, testSize).value;
      && |TrueSet(r.train)| == TrainSize(data.numNodes, valSize, testSize)
      && |TrueSet(r.val)| == valSize
      && |TrueSet(r.test)| == data.numNodes - TrainSize(data.numNodes, valSize, testSize) - valSize
  {
    var n := data.numNodes;
    var t := TrainSize(n, valSize, testSize);
    SliceDistinct(indices, 0, t);
    SliceDistinct(indices, t, t + valSize);
    SliceDistinct(indices, t + valSize, n);
    DistinctCardinality(TrainIndices(indices, valSize, testSize));
    DistinctCardinality(ValIndices(indices, valSize, testSize));
    DistinctCardinality(TestIndices(indices, valSize, testSize));
  }

  /** A slice of a duplicate-free sequence is duplicate-free. */
  lemma SliceDistinct<T>(s: seq<T>, lo: int, hi: int)
    requires Distinct(s)
    ensures Distinct(Slice(s, lo, hi))
  {
    var a, b := Clamp(lo, |s|), Clamp(hi, |s|);
    if a < b {
      var t := s[a..b];
      forall x, y | 0 <= x < y < |t| ensures t[x] != t[y] {
        assert t[x] == s[a + x] && t[y] == s[a + y];
      }
    }
  }

  /** With more validation and test nodes than nodes, `train_size` is negative
      and Python's slice rules make the training and test slices overlap:
      on four nodes with sizes 3 and 3, node 1 is in both masks. */
  lemma OversizedSplitsOverlap()
    ensures var r := GetSplitMasks(Some(Data(4, None, None, None)), [0, 1, 2, 3], 3, 3);
      && r == Success(Masks([true, true, false, false], [false, false, false, false], [false, true, true, true]))
      && 1 in TrueSet(r.value.train) * TrueSet(r.value.test)
  {
    var s: seq<nat> := [0, 1, 2, 3];
    assert TrainIndices(s, 3, 3) == [0, 1];
    assert ValIndices(s, 3, 3) == [];
    assert TestIndices(s, 3, 3) == [1, 2, 3];
    var r := GetSplitMasks(Some(Data(4, None, None, None)), s, 3, 3);
    assert r.value.train == [true, true, false, false];
    assert r.value.val == [false, false, false, false];
    assert r.value.test == [false, true, true, true];
  }

  /** Oversized splits need not overlap: on four nodes with sizes 4 and 1,
      `train_size` is -1, the masks stay disjoint and cover every node, but
      training gets three nodes and validation none instead of four. */
  lemma OversizedSplitsShrink()
    ensures var r := GetSplitMasks(Some(Data(4, None, None, None)), [0, 1, 2, 3], 4, 1);
      && r == Success(Masks([true, true, true, false], [false, false, false, false], [false, false, false, true]))
      && |TrueSet(r.value.val)| == 0
  {
    var s: seq<nat> := [0, 1, 2, 3];
    assert TrainIndices(s, 4, 1) == [0, 1, 2];
    assert ValIndices(s, 4, 1) == [];
    assert TestIndices(s, 4, 1) == [3];
    var r := GetSplitMasks(Some(Data(4, None, None, None)), s, 4, 1);
    assert r.value.train == [true, true, true, false];
    assert r.value.val == [false, false, false, false];
    assert r.value.test == [false, false, false, true];
    assert TrueSet(r.value.val) == {};
  }

  /** `process()`: fails when no data is loaded; leaves data that already has a
      training mask as it is; otherwise sets all three masks from
      `get_split_masks()`. The node count never changes. */
  function Process(data: Option<Data>, indices: seq<nat>, valSize: nat, testSize: nat): (r: Result<Data, Error>)
    requires data.Some? ==> IsPermutation(indices, data.value.numNodes)
    ensures data.None? ==> r == Failure(DataNotLoaded)
    ensures data.Some? ==> r.Success? && r.value.numNodes == data.value.numNodes && r.value.trainMask.Some?
    ensures data.Some? && data.value.trainMask.Some? ==> r.value == data.value
    ensures data.Some? && data.value.trainMask.None? ==>
      var m := GetSplitMasks(data, indices, valSize, testSize).value;
      r.value.trainMask == Some(m.train) && r.value.valMask == Some(m.val) && r.value.testMask == Some(m.test)
  {
    if data.None? then Failure(DataNotLoaded)
    else if data.value.trainMask.Some? then Success(data.value)
    else
      var m := GetSplitMasks(data, indices, valSize, testSize).value;
      Success(data.value.(trainMask := Some(m.train), valMask := Some(m.val), testMask := Some(m.test)))
  }

  /** Processing twice is processing once, whatever permutation and sizes the
      second call draws: the first call leaves a training mask behind. */
  lemma ProcessIdempotent(data: Option<Data>, indices: seq<nat>, indices2: seq<nat>, valSize: nat, testSize: nat, valSize2: nat, testSize2: nat)
    requires data.Some? ==> IsPermutation(indices, data.value.numNodes)
    requires data.Some? ==> IsPermutation(indices2, data.value.numNodes)
    ensures data.Some? ==>
      Process(Some(Process(data, indices, valSize, testSize).value), indices2, valSize2, testSize2)
        == Process(data, indices, valSize, testSize)
  {
  }
}
