/**
  ChooseLeaf (choose_leaf.c): descend from a node to the leaf whose path needs
  the least area increase to take a new entry. The sequential variant scans
  each node for the first minimum; the parallel variant splits the scan among
  workers (run here one after another) and reduces their per-worker minima.
 */
module ChooseLeaf {
  import opened Geometry
  import opened Nodes
  import opened Tree
  import opened Workers

  /** The area increase each rectangle of `mbrs` would need to take `probe`. */
  function Increases(mbrs: seq<Mbr>, probe: Mbr): (r: seq<Increase>)
    ensures |r| == |mbrs|
    ensures forall i :: 0 <= i < |mbrs| ==> r[i] == AreaIncrease(mbrs[i], probe)
  {
    seq(|mbrs|, i requires 0 <= i < |mbrs| => AreaIncrease(mbrs[i], probe))
  }

  /** Position k holds a smallest increase. */
  ghost predicate IsMin(s: seq<Increase>, k: int) {
    0 <= k < |s| && forall i :: 0 <= i < |s| ==> !Less(s[i], s[k])
  }

  /** Position k holds the first smallest increase. */
  ghost predicate IsFirstMin(s: seq<Increase>, k: int) {
    IsMin(s, k) && forall i :: 0 <= i < k ==> Less(s[k], s[i])
  }

  /** "Not below" is transitive. */
  lemma NotLessTransitive(a: Increase, b: Increase, c: Increase)
    requires !Less(a, b) && !Less(b, c)
    ensures !Less(a, c)
  {
  }

  /** There is only one first minimum. */
  lemma FirstMinUnique(s: seq<Increase>, k1: int, k2: int)
    requires IsFirstMin(s, k1) && IsFirstMin(s, k2)
    ensures k1 == k2
  {
    assert !Less(s[k2], s[k1]) && !Less(s[k1], s[k2]);
  }

  /** The first smallest increase, as the scan of sequential_get_insertion_index finds it. */
  function FirstMin(s: seq<Increase>): (k: nat)
    requires |s| >= 1
    ensures IsFirstMin(s, k)
  {
    if |s| == 1 then 0
    else
      var k := FirstMin(s[..|s| - 1]);
      if Less(s[|s| - 1], s[k]) then
        assert forall i :: 0 <= i < |s| - 1 ==> Less(s[|s| - 1], s[i]) by {
          forall i | 0 <= i < |s| - 1
            ensures Less(s[|s| - 1], s[i])
          {
            assert s[..|s| - 1][i] == s[i];
            LessIsStrictTotalOrder(s[|s| - 1], s[k], s[i]);
          }
        }
        |s| - 1
      else
        assert forall i :: 0 <= i < |s| - 1 ==> s[..|s| - 1][i] == s[i];
        k
  }

  /**
    sequential_get_insertion_index: the first member of rt whose rectangle needs
    the least area increase to take the new entry's rectangle.
   */
  method SequentialGetInsertionIndex(t: RTree, rt: nat, insertionMbr: Mbr) returns (currIndex: nat)
    requires t.Valid() && rt < |t.nodes| && t.nodes[rt].numMembers >= 1
    ensures IsFirstMin(Increases(t.MemberMbrs(rt), insertionMbr), currIndex)
    ensures currIndex == FirstMin(Increases(t.MemberMbrs(rt), insertionMbr))
  {
    var ms := t.MemberMbrs(rt);
    currIndex := FirstLeastIncrease(ms, insertionMbr);
  }

  /** The loop of sequential_get_insertion_index over the member rectangles `ms`, in slot order. */
  method FirstLeastIncrease(ms: seq<Mbr>, insertionMbr: Mbr) returns (currIndex: nat)
    requires |ms| >= 1
    ensures IsFirstMin(Increases(ms, insertionMbr), currIndex)
    ensures currIndex == FirstMin(Increases(ms, insertionMbr))
  {
    ghost var s := Increases(ms, insertionMbr);
    var minEnlargement := AreaIncrease(ms[0], insertionMbr);
    currIndex := 0;
    for i := 0 to |ms|
      invariant currIndex < |ms| && (currIndex == 0 || currIndex < i)
      invariant minEnlargement == s[currIndex]
      invariant forall j :: 0 <= j < i ==> !Less(s[j], minEnlargement)
      invariant forall j :: 0 <= j < currIndex ==> Less(minEnlargement, s[j])
    {
      var enlargement := AreaIncrease(ms[i], insertionMbr);
      assert enlargement == s[i];
      if Less(enlargement, minEnlargement) {
        forall j | 0 <= j < i
          ensures Less(enlargement, s[j]) && !Less(s[j], enlargement)
        {
          LessIsStrictTotalOrder(enlargement, minEnlargement, s[j]);
        }
        LessIsStrictTotalOrder(enlargement, enlargement, enlargement);
        minEnlargement := enlargement;
        currIndex := i;
      }
    }
    FirstMinUnique(s, currIndex, FirstMin(s));
  }

  /**
    `leaf` is reached from `node` by entering, at every internal node, the child
    of a member with the smallest area increase (the first such member when
    `firstOnTies` holds).
   */
  ghost predicate DescendsTo(t: RTree, node: nat, leaf: nat, probe: Mbr, firstOnTies: bool)
    reads t, t.Repr
    requires t.Valid() && t.AllNonEmpty() && node < |t.nodes|
    decreases t.height[node]
  {
    if t.IsLeaf(node) then
      leaf == node
    else
      var s := Increases(t.MemberMbrs(node), probe);
      exists i :: (if firstOnTies then IsFirstMin(s, i) else IsMin(s, i))
                  && DescendsTo(t, t.ChildAt(node, i), leaf, probe, firstOnTies)
  }

  /**
    choose_leaf_sequential: a leaf, found by entering at each level the child
    that sequential_get_insertion_index picks; a leaf is its own answer.
   */
  function ChooseLeafSequential(t: RTree, node: nat, newRecord: Mbr): (leaf: nat)
    reads t, t.Repr
    requires t.Valid() && t.AllNonEmpty() && node < |t.nodes|
    ensures leaf < |t.nodes| && t.IsLeaf(leaf)
    ensures t.IsLeaf(node) ==> leaf == node
    ensures DescendsTo(t, node, leaf, newRecord, true)
    decreases t.height[node]
  {
    if t.IsLeaf(node) then
      node
    else
      var optimalIrIndex := FirstMin(Increases(t.MemberMbrs(node), newRecord));
      ChooseLeafSequential(t, t.ChildAt(node, optimalIrIndex), newRecord)
  }

  /** The sequential descent is one of the descents the parallel variant may take. */
  lemma {:induction false} SequentialDescentIsMinimal(t: RTree, node: nat, leaf: nat, probe: Mbr)
    requires t.Valid() && t.AllNonEmpty() && node < |t.nodes|
    requires DescendsTo(t, node, leaf, probe, true)
    ensures DescendsTo(t, node, leaf, probe, false)
    decreases t.height[node]
  {
    if !t.IsLeaf(node) {
      var s := Increases(t.MemberMbrs(node), probe);
      var i :| IsFirstMin(s, i) && DescendsTo(t, t.ChildAt(node, i), leaf, probe, true);
      SequentialDescentIsMinimal(t, t.ChildAt(node, i), leaf, probe);
    }
  }

  /** No two members of one node need the same area increase for `probe`. */
  ghost predicate TieFree(t: RTree, probe: Mbr)
    reads t, t.Repr
    requires t.Valid()
  {
    forall k, i, j :: 0 <= k < |t.nodes| && 0 <= i < j < |t.MemberMbrs(k)| ==>
      AreaIncrease(t.MemberMbrs(k)[i], probe) != AreaIncrease(t.MemberMbrs(k)[j], probe)
  }

  /** Without ties, every minimal descent ends where the sequential one does. */
  lemma {:induction false} TieFreeDescentIsSequential(t: RTree, node: nat, leaf: nat, probe: Mbr)
    requires t.Valid() && t.AllNonEmpty() && node < |t.nodes| && TieFree(t, probe)
    requires DescendsTo(t, node, leaf, probe, false)
    ensures leaf == ChooseLeafSequential(t, node, probe)
    decreases t.height[node]
  {
    if !t.IsLeaf(node) {
      var s := Increases(t.MemberMbrs(node), probe);
      var i :| IsMin(s, i) && DescendsTo(t, t.ChildAt(node, i), leaf, probe, false);
      forall j | 0 <= j < i
        ensures Less(s[i], s[j])
      {
        assert s[j] != s[i];
        LessIsStrictTotalOrder(s[i], s[j], s[j]);
      }
      FirstMinUnique(s, i, FirstMin(s));
      TieFreeDescentIsSequential(t, t.ChildAt(node, i), leaf, probe);
    }
  }

  /** param0: the range a worker scans and the result slot it writes. */
  datatype Param0 = Param0(startIndex: nat, endIndex: nat, resultIndex: nat)

  /**
    What parallel_get_insertion_index writes for the range [start, end): its
    running minimum starts from member 0's increase (wherever the range lies)
    with index `start`, and moves only to a strictly smaller increase inside
    [start, end) and below the member count.
   */
  ghost predicate IsWorkerResult(s: seq<Increase>, start: nat, end: nat, v: Increase, k: int)
    requires |s| >= 1
  {
    var top := if end < |s| then end else |s|;
    && !Less(s[0], v)
    && (forall i :: start <= i < top ==> !Less(s[i], v))
    && ((k == start && v == s[0])
        || (start <= k < top && v == s[k] && Less(v, s[0]) && forall i :: start <= i < k ==> Less(v, s[i])))
  }

  /**
    initialize_threads: worker i gets [i * per, (i + 1) * per) with
    per = ceil(numMembers / numThreads) and result slot i; every slot of the
    shared result arrays is reset first.
   */
  method InitializeThreads(numMembers: nat, numThreads: nat, minEnlargements: array<Increase>, minEnlargementIndices: array<int>)
    returns (params: seq<Param0>)
    requires numThreads >= 1
    requires minEnlargements.Length == NUM_CORES && minEnlargementIndices.Length == NUM_CORES
    modifies minEnlargements, minEnlargementIndices
    ensures |params| == numThreads
    ensures forall i :: 0 <= i < numThreads ==>
      params[i] == Param0(WorkerRange(numMembers, numThreads, i).0, WorkerRange(numMembers, numThreads, i).1, i)
    ensures forall s :: 0 <= s < NUM_CORES ==> minEnlargements[s] == Finite(0) && minEnlargementIndices[s] == 0
  {
    var indexRecordsPerThread := PerWorker(numMembers, numThreads);
    for i := 0 to NUM_CORES
      invariant forall s :: 0 <= s < i ==> minEnlargements[s] == Finite(0) && minEnlargementIndices[s] == 0
    {
      minEnlargements[i] := Finite(0);
      minEnlargementIndices[i] := 0;
    }
    params := [];
    for i := 0 to numThreads
      invariant |params| == i
      invariant forall j :: 0 <= j < i ==>
        params[j] == Param0(WorkerRange(numMembers, numThreads, j).0, WorkerRange(numMembers, numThreads, j).1, j)
    {
      params := params + [Param0(i * indexRecordsPerThread, (i + 1) * indexRecordsPerThread, i)];
    }
  }

  /** The scan one worker makes of [start, end), bounded by the member count. */
  method ScanRange(t: RTree, rt: nat, insertionMbr: Mbr, start: nat, end: nat) returns (minEnlargement: Increase, currIndex: int)
    requires t.Valid() && rt < |t.nodes| && t.nodes[rt].numMembers >= 1
    ensures IsWorkerResult(Increases(t.MemberMbrs(rt), insertionMbr), start, end, minEnlargement, currIndex)
  {
    var ms := t.MemberMbrs(rt);
    minEnlargement, currIndex := ScanMemberRange(ms, insertionMbr, start, end);
  }

  /** The loop of one worker over the member rectangles `ms`, in slot order. */
  method ScanMemberRange(ms: seq<Mbr>, insertionMbr: Mbr, start: nat, end: nat) returns (minEnlargement: Increase, currIndex: int)
    requires |ms| >= 1
    ensures IsWorkerResult(Increases(ms, insertionMbr), start, end, minEnlargement, currIndex)
  {
    ghost var s := Increases(ms, insertionMbr);
    ghost var top := if end < |s| then end else |s|;
    minEnlargement := AreaIncrease(ms[0], insertionMbr);
    currIndex := start;
    var i := start;
    while i < end && i < |ms|
      invariant start <= i && (i == start || i <= top)
      invariant !Less(s[0], minEnlargement)
      invariant forall j :: start <= j < i ==> !Less(s[j], minEnlargement)
      invariant (currIndex == start && minEnlargement == s[0])
                || (start <= currIndex < i && minEnlargement == s[currIndex] && Less(minEnlargement, s[0])
                    && forall j :: start <= j < currIndex ==> Less(minEnlargement, s[j]))
    {
      var enlargement := AreaIncrease(ms[i], insertionMbr);
      assert enlargement == s[i];
      if Less(enlargement, minEnlargement) {
        forall j | start <= j < i
          ensures Less(enlargement, s[j]) && !Less(s[j], enlargement)
        {
          LessIsStrictTotalOrder(enlargement, minEnlargement, s[j]);
        }
        LessIsStrictTotalOrder(enlargement, enlargement, enlargement);
        LessIsStrictTotalOrder(enlargement, minEnlargement, s[0]);
        minEnlargement := enlargement;
        currIndex := i;
      }
      i := i + 1;
    }
  }

  /**
    parallel_get_insertion_index: one worker's scan of its range of rt's
    members; it writes its minimum and chosen index into its own slot only.
   */
  method ParallelGetInsertionIndex(t: RTree, rt: nat, insertionMbr: Mbr, p: Param0,
                                   minEnlargements: array<Increase>, minEnlargementIndices: array<int>)
    requires t.Valid() && rt < |t.nodes| && t.nodes[rt].numMembers >= 1
    requires p.resultIndex < minEnlargements.Length && p.resultIndex < minEnlargementIndices.Length
    requires minEnlargements !in t.Repr && minEnlargementIndices !in t.Repr
    modifies minEnlargements, minEnlargementIndices
    ensures IsWorkerResult(Increases(t.MemberMbrs(rt), insertionMbr), p.startIndex, p.endIndex,
                           minEnlargements[p.resultIndex], minEnlargementIndices[p.resultIndex])
    ensures forall s :: 0 <= s < minEnlargements.Length && s != p.resultIndex ==> minEnlargements[s] == old(minEnlargements[s])
    ensures forall s :: 0 <= s < minEnlargementIndices.Length && s != p.resultIndex ==>
      minEnlargementIndices[s] == old(minEnlargementIndices[s])
  {
    var minEnlargement, currIndex := ScanRange(t, rt, insertionMbr, p.startIndex, p.endIndex);
    minEnlargements[p.resultIndex] := minEnlargement;
    minEnlargementIndices[p.resultIndex] := currIndex;
  }

  /**
    The reduction of choose_leaf_parallel: the index reported by the first slot
    among [0, numThreads) whose minimum is strictly the smallest.
   */
  method ChooseLeafReduce(minEnlargements: array<Increase>, minEnlargementIndices: array<int>, numThreads: nat)
    returns (ghost slot: nat, currIndex: int)
    requires 1 <= numThreads <= minEnlargements.Length && numThreads <= minEnlargementIndices.Length
    ensures slot < numThreads && currIndex == minEnlargementIndices[slot]
    ensures forall i :: 0 <= i < numThreads ==> !Less(minEnlargements[i], minEnlargements[slot])
    ensures forall i :: 0 <= i < slot ==> Less(minEnlargements[slot], minEnlargements[i])
  {
    var minEnlargement := minEnlargements[0];
    currIndex := minEnlargementIndices[0];
    slot := 0;
    for i := 0 to numThreads
      invariant slot < numThreads && (slot == 0 || slot < i)
      invariant minEnlargement == minEnlargements[slot] && currIndex == minEnlargementIndices[slot]
      invariant forall j :: 0 <= j < i ==> !Less(minEnlargements[j], minEnlargement)
      invariant forall j :: 0 <= j < slot ==> Less(minEnlargement, minEnlargements[j])
    {
      if Less(minEnlargements[i], minEnlargement) {
        forall j | 0 <= j < i
          ensures Less(minEnlargements[i], minEnlargements[j])
        {
          LessIsStrictTotalOrder(minEnlargements[i], minEnlargement, minEnlargements[j]);
        }
        minEnlargement := minEnlargements[i];
        currIndex := minEnlargementIndices[i];
        slot := i;
      }
    }
  }

  /** Whatever range a worker scans, the value it reports is no smaller than the least increase. */
  lemma WorkerValueNotBelowMin(s: seq<Increase>, start: nat, end: nat, v: Increase, k: int)
    requires |s| >= 1 && IsWorkerResult(s, start, end, v, k)
    ensures !Less(v, s[FirstMin(s)])
  {
  }

  /** The worker whose range holds the first minimum g reports exactly (s[g], g). */
  lemma CoveringWorkerReportsFirstMin(s: seq<Increase>, start: nat, end: nat, v: Increase, k: int)
    requires |s| >= 1 && IsWorkerResult(s, start, end, v, k)
    requires start <= FirstMin(s) < end
    ensures v == s[FirstMin(s)] && k == FirstMin(s)
  {
    var g := FirstMin(s);
    LessIsStrictTotalOrder(v, s[g], s[g]);
  }

  /** A worker whose range ends at or before a first minimum g > 0 reports a value above s[g]. */
  lemma EarlierWorkerReportsMore(s: seq<Increase>, start: nat, end: nat, v: Increase, k: int)
    requires |s| >= 1 && IsWorkerResult(s, start, end, v, k)
    ensures 0 < FirstMin(s) && end <= FirstMin(s) ==> Less(s[FirstMin(s)], v)
  {
  }

  /**
    Despite every worker seeding its minimum with member 0's increase, the
    index the reduction picks is the first minimum over all members: the
    worker covering it reports it exactly, and every earlier worker reports
    a strictly larger value.
   */
  lemma ReductionFindsGlobalMin(s: seq<Increase>, numThreads: nat, ws: seq<Increase>, ids: seq<int>, slot: nat)
    requires |s| >= 1 && numThreads >= 1 && |ws| >= numThreads && |ids| >= numThreads
    requires forall i :: 0 <= i < numThreads ==>
      IsWorkerResult(s, WorkerRange(|s|, numThreads, i).0, WorkerRange(|s|, numThreads, i).1, ws[i], ids[i])
    requires slot < numThreads
    requires forall i :: 0 <= i < numThreads ==> !Less(ws[i], ws[slot])
    requires forall i :: 0 <= i < slot ==> Less(ws[slot], ws[i])
    ensures ids[slot] == FirstMin(s)
    ensures IsMin(s, ids[slot])
  {
    var g := FirstMin(s);
    var w := WorkerOf(|s|, numThreads, g);
    var rw := WorkerRange(|s|, numThreads, w);
    var rs := WorkerRange(|s|, numThreads, slot);
    assert IsWorkerResult(s, rw.0, rw.1, ws[w], ids[w]);
    assert IsWorkerResult(s, rs.0, rs.1, ws[slot], ids[slot]);
    CoveringWorkerReportsFirstMin(s, rw.0, rw.1, ws[w], ids[w]);
    // the winning value is the minimum, which the covering worker reports, so no later worker wins
    WorkerValueNotBelowMin(s, rs.0, rs.1, ws[slot], ids[slot]);
    assert !Less(ws[w], ws[slot]);
    LessIsStrictTotalOrder(ws[slot], s[g], s[g]);
    assert ws[slot] == s[g];
    // no earlier worker can win: its range ends before the first minimum, so it reports more
    WorkerRangesOrdered(|s|, numThreads, slot, w);
    EarlierWorkerReportsMore(s, rs.0, rs.1, ws[slot], ids[slot]);
    assert slot < w ==> 0 < g && rs.1 <= g;
    assert slot == w;
  }

  /**
    One level of choose_leaf_parallel: numThreads workers scan
    ceil(n / numThreads)-sized ranges of node's members and the reduction
    picks the first member with the smallest area increase, as the
    sequential scan does.
   */
  method ParallelInsertionIndex(t: RTree, node: nat, newRecord: Mbr, numThreads: nat,
                                minEnlargements: array<Increase>, minEnlargementIndices: array<int>)
    returns (optimalIrIndex: nat)
    requires t.Valid() && node < |t.nodes| && t.nodes[node].numMembers >= 1
    requires 1 <= numThreads <= NUM_CORES
    requires minEnlargements.Length == NUM_CORES && minEnlargementIndices.Length == NUM_CORES
    requires minEnlargements !in t.Repr && minEnlargementIndices !in t.Repr
    modifies minEnlargements, minEnlargementIndices
    ensures IsMin(Increases(t.MemberMbrs(node), newRecord), optimalIrIndex)
    ensures optimalIrIndex == FirstMin(Increases(t.MemberMbrs(node), newRecord))
  {
    ghost var s := Increases(t.MemberMbrs(node), newRecord);
    var paramObjects := InitializeThreads(t.nodes[node].numMembers, numThreads, minEnlargements, minEnlargementIndices);
    for i := 0 to numThreads
      invariant forall j :: 0 <= j < i ==>
        IsWorkerResult(s, paramObjects[j].startIndex, paramObjects[j].endIndex, minEnlargements[j], minEnlargementIndices[j])
    {
      ParallelGetInsertionIndex(t, node, newRecord, paramObjects[i], minEnlargements, minEnlargementIndices);
    }
    ghost var slot;
    var currIndex;
    slot, currIndex := ChooseLeafReduce(minEnlargements, minEnlargementIndices, numThreads);
    ReductionFindsGlobalMin(s, numThreads, minEnlargements[..], minEnlargementIndices[..], slot);
    optimalIrIndex := currIndex;
  }

  /**
    choose_leaf_parallel: at each internal node the parallel selection picks
    the first member with the smallest area increase, and the descent
    continues into its child; it therefore ends at the sequential descent's leaf.
   */
  method ChooseLeafParallel(t: RTree, node: nat, newRecord: Mbr, numThreads: nat,
                            minEnlargements: array<Increase>, minEnlargementIndices: array<int>)
    returns (leaf: nat)
    requires t.Valid() && t.AllNonEmpty() && node < |t.nodes|
    requires 1 <= numThreads <= NUM_CORES
    requires minEnlargements.Length == NUM_CORES && minEnlargementIndices.Length == NUM_CORES
    requires minEnlargements !in t.Repr && minEnlargementIndices !in t.Repr
    modifies minEnlargements, minEnlargementIndices
    ensures leaf < |t.nodes| && t.IsLeaf(leaf)
    ensures t.IsLeaf(node) ==> leaf == node
    ensures DescendsTo(t, node, leaf, newRecord, true)
    ensures leaf == ChooseLeafSequential(t, node, newRecord)
    decreases t.height[node]
  {
    if t.IsLeaf(node) {
      return node;
    }
    var optimalIrIndex := ParallelInsertionIndex(t, node, newRecord, numThreads, minEnlargements, minEnlargementIndices);
    leaf := ChooseLeafParallel(t, t.ChildAt(node, optimalIrIndex), newRecord, numThreads,
                               minEnlargements, minEnlargementIndices);
  }

  /**
    A three-entry node: (0,0,10,10) encloses the probe (5,5,6,6) with zero
    increase, so index 0 is the first and the only minimum.
   */
  lemma ThreeEntryExample()
    ensures FirstMin(Increases([Mbr(0, 0, 10, 10), Mbr(0, 0, 1, 1), Mbr(20, 20, 30, 30)], Mbr(5, 5, 6, 6))) == 0
    ensures forall k :: IsMin(Increases([Mbr(0, 0, 10, 10), Mbr(0, 0, 1, 1), Mbr(20, 20, 30, 30)], Mbr(5, 5, 6, 6)), k) ==> k == 0
  {
    var s := Increases([Mbr(0, 0, 10, 10), Mbr(0, 0, 1, 1), Mbr(20, 20, 30, 30)], Mbr(5, 5, 6, 6));
    assert s == [Finite(0), Finite(35), Finite(525)];
  }
}
