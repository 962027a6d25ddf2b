/**
  PickSeeds (pick_seeds.c): choose the two entries of an overflowing node that
  would waste the most area if put together; they seed the two halves of a
  split. The parallel variant splits the rows of the pair scan among workers
  (run here one after another) that write into process-wide result slots.
 */
module PickSeeds {
  import opened Wrappers
  import opened Geometry
  import opened Workers

  /** The area a common box of a and b covers beyond a and b themselves. */
  function Waste(a: Mbr, b: Mbr): (r: int)
    ensures WellFormed(a) && WellFormed(b) ==> r >= -Area(a) && r >= -Area(b)
  {
    MergedArea(a, b) - Area(a) - Area(b)
  }

  /** Pairing a rectangle with itself wastes minus its area. */
  lemma SelfWaste(a: Mbr)
    ensures Waste(a, a) == -Area(a)
  {
    ExpandedUnchangedIffContained(a, a);
  }

  /** Waste does not depend on the order of the pair. */
  lemma WasteSymmetric(a: Mbr, b: Mbr)
    ensures Waste(a, b) == Waste(b, a)
  {
    assert Expanded(a, b) == Expanded(b, a);
  }

  /** The waste of every ordered pair of entries, row r and column c for the pair (r, c). */
  function WasteTable(ms: seq<Mbr>): (w: seq<seq<int>>)
    ensures |w| == |ms| && forall r :: 0 <= r < |ms| ==> |w[r]| == |ms|
    ensures forall r, c {:trigger Waste(ms[r], ms[c])} :: 0 <= r < |ms| && 0 <= c < |ms| ==> w[r][c] == Waste(ms[r], ms[c])
  {
    seq(|ms|, r requires 0 <= r < |ms| => seq(|ms|, c requires 0 <= c < |ms| => Waste(ms[r], ms[c])))
  }

  /** Cell (rr, cc) comes before cell (r, c) in row-major order. */
  predicate Before(rr: int, cc: int, r: int, c: int) {
    rr < r || (rr == r && cc < c)
  }

  /**
    The state of the pair scan over rows from `lo` once it has reached cell
    (r, c) of the waste table w: the pair (i, j) held is the seed (0, 1) unless
    a scanned pair wastes strictly more, and then it is the first scanned pair
    of greatest waste.
   */
  ghost predicate ScanState(w: seq<seq<int>>, lo: nat, r: int, c: int, i: int, j: int)
    requires |w| >= 2 && forall k :: 0 <= k < |w| ==> |w[k]| == |w|
  {
    var n := |w|;
    && 0 <= i < n && 0 <= j < n
    && w[i][j] >= w[0][1]
    && (forall rr, cc :: lo <= rr < n && 0 <= cc < n && Before(rr, cc, r, c) ==> w[rr][cc] <= w[i][j])
    && ((i == 0 && j == 1)
        || (lo <= i && Before(i, j, r, c) && w[i][j] > w[0][1]
            && forall rr, cc :: lo <= rr < n && 0 <= cc < n && Before(rr, cc, i, j) ==> w[rr][cc] < w[i][j]))
  }

  /** The pair a full scan of rows [lo, min(hi, n)) against every column ends with. */
  ghost predicate IsScanChoice(ms: seq<Mbr>, lo: nat, hi: int, i: int, j: int)
    requires |ms| >= 2
  {
    ScanState(WasteTable(ms), lo, Min(hi, |ms|), 0, i, j)
  }

  /** (p.0, p.1) wastes at least as much as every pair of entries. */
  ghost predicate IsMaxWastePair(ms: seq<Mbr>, p: (nat, nat)) {
    var w := WasteTable(ms);
    p.0 < |ms| && p.1 < |ms|
    && forall r, c :: 0 <= r < |ms| && 0 <= c < |ms| ==> w[r][c] <= w[p.0][p.1]
  }

  /**
    The nested loop shared by pick_seeds_sequential and pick_seeds_subset:
    rows from lo while below hi and the entry count, every column, seeded
    with the pair (0, 1) and moving only to a strictly greater waste.
   */
  method ScanRows(ms: seq<Mbr>, lo: nat, hi: int, ghost w: seq<seq<int>>) returns (i: nat, j: nat)
    requires |ms| >= 2 && |w| == |ms| && (forall k :: 0 <= k < |w| ==> |w[k]| == |w|)
    requires forall r, c {:trigger Waste(ms[r], ms[c])} :: 0 <= r < |ms| && 0 <= c < |ms| ==> w[r][c] == Waste(ms[r], ms[c])
    ensures ScanState(w, lo, Min(hi, |ms|), 0, i, j)
  {
    var n := |ms|;
    i, j := 0, 1;
    var currBiggestWaste := Waste(ms[0], ms[1]);
    var r := lo;
    while r < hi && r < n
      invariant lo <= r && (r == lo || r <= Min(hi, n))
      invariant ScanState(w, lo, r, 0, i, j) && currBiggestWaste == w[i][j]
    {
      var c := 0;
      while c < n
        invariant 0 <= c <= n
        invariant ScanState(w, lo, r, c, i, j) && currBiggestWaste == w[i][j]
      {
        var currWaste := Waste(ms[r], ms[c]);
        ScanStep(w, lo, r, c, i, j);
        if currWaste > currBiggestWaste {
          currBiggestWaste := currWaste;
          i, j := r, c;
        }
        c := c + 1;
      }
      ScanRowEnd(w, lo, r, i, j);
      r := r + 1;
    }
    ScanEnd(w, lo, r, Min(hi, n), i, j);
  }

  /** One cell of the scan: the held pair moves to (r, c) exactly when (r, c) wastes strictly more. */
  lemma ScanStep(w: seq<seq<int>>, lo: nat, r: nat, c: nat, i: int, j: int)
    requires |w| >= 2 && (forall k :: 0 <= k < |w| ==> |w[k]| == |w|)
    requires lo <= r < |w| && c < |w| && ScanState(w, lo, r, c, i, j)
    ensures w[r][c] > w[i][j] ==> ScanState(w, lo, r, c + 1, r, c)
    ensures w[r][c] <= w[i][j] ==> ScanState(w, lo, r, c + 1, i, j)
  {
    forall rr: int, cc: int
      ensures Before(rr, cc, r, c + 1) <==> (Before(rr, cc, r, c) || (rr == r && cc == c))
    {
    }
  }

  /** The end of row r is the start of row r + 1. */
  lemma ScanRowEnd(w: seq<seq<int>>, lo: nat, r: nat, i: int, j: int)
    requires |w| >= 2 && (forall k :: 0 <= k < |w| ==> |w[k]| == |w|)
    requires ScanState(w, lo, r, |w|, i, j)
    ensures ScanState(w, lo, r + 1, 0, i, j)
  {
    assert forall rr, cc :: 0 <= cc < |w| ==> (Before(rr, cc, r + 1, 0) <==> Before(rr, cc, r, |w|));
  }

  /** Stopping at row r, at or past the last row scanned, is the same as stopping at row top. */
  lemma ScanEnd(w: seq<seq<int>>, lo: nat, r: nat, top: int, i: int, j: int)
    requires |w| >= 2 && (forall k :: 0 <= k < |w| ==> |w[k]| == |w|)
    requires ScanState(w, lo, r, 0, i, j)
    requires top <= |w| && lo <= r && (r == lo || r == top) && (r == lo ==> top <= lo)
    ensures ScanState(w, lo, top, 0, i, j)
  {
  }

  /** The scan's pair wastes at least as much as every pair in the rows it covers. */
  lemma ScanChoiceBound(ms: seq<Mbr>, lo: nat, hi: int, i: int, j: int, rr: int, cc: int)
    requires |ms| >= 2 && IsScanChoice(ms, lo, hi, i, j)
    requires lo <= rr < Min(hi, |ms|) && 0 <= cc < |ms|
    ensures WasteTable(ms)[rr][cc] <= WasteTable(ms)[i][j]
  {
    assert Before(rr, cc, Min(hi, |ms|), 0);
  }

  /**
    For well-formed rectangles the scan never pairs an entry with itself:
    (i, 0), met earlier in row i, or the seed (0, 1) wastes at least as much.
   */
  lemma ScanChoiceDistinct(ms: seq<Mbr>, lo: nat, hi: int, i: int, j: int)
    requires |ms| >= 2 && IsScanChoice(ms, lo, hi, i, j)
    requires forall k :: 0 <= k < |ms| ==> WellFormed(ms[k])
    ensures i != j
  {
    SelfWaste(ms[i]);
    assert Waste(ms[0], ms[1]) >= -Area(ms[0]);
    assert Waste(ms[i], ms[0]) >= -Area(ms[i]);
  }

  /**
    pick_seeds_sequential: the first pair, in row-major order, of greatest
    waste -- the seed (0, 1) unless some pair wastes strictly more; for
    well-formed rectangles, two different entries.
   */
  method PickSeedsSequential(irs: seq<Mbr>) returns (seedIndices: (nat, nat))
    requires |irs| >= 2
    ensures IsScanChoice(irs, 0, |irs|, seedIndices.0, seedIndices.1)
    ensures IsMaxWastePair(irs, seedIndices)
    ensures (forall k :: 0 <= k < |irs| ==> WellFormed(irs[k])) ==> seedIndices.0 != seedIndices.1
  {
    var i, j := ScanRows(irs, 0, |irs|, WasteTable(irs));
    seedIndices := (i, j);
    forall r, c | 0 <= r < |irs| && 0 <= c < |irs|
      ensures WasteTable(irs)[r][c] <= WasteTable(irs)[i][j]
    {
      ScanChoiceBound(irs, 0, |irs|, i, j, r, c);
    }
    if forall k :: 0 <= k < |irs| ==> WellFormed(irs[k]) {
      ScanChoiceDistinct(irs, 0, |irs|, i, j);
    }
  }

  /** param1: the rows one worker scans. */
  datatype Param1 = Param1(startIndex: nat, endIndex: nat)

  /** What stops a worker: a zero divisor or a slot outside the NUM_CORES result arrays. */
  datatype Fault = DivisionByZero | SlotOutOfBounds

  /** pick_seeds_parallel caps the worker count at NUM_CORES. */
  function CappedThreads(numThreads: nat): (t: nat)
    ensures t <= NUM_CORES && t <= numThreads
    ensures numThreads <= NUM_CORES ==> t == numThreads
  {
    if numThreads > NUM_CORES then NUM_CORES else numThreads
  }

  /**
    The rows of worker i: [i * per, min(n, (i + 1) * per)) with
    per = ceil((n + 1) / T), one more row than the count is shared out.
   */
  function PickSeedsChunk(n: nat, T: nat, i: nat): (p: Param1)
    requires T >= 1
    ensures p.startIndex == WorkerRange(n + 1, T, i).0
    ensures p.endIndex == Min(n, WorkerRange(n + 1, T, i).1)
  {
    var per := PerWorker(n + 1, T);
    Param1(i * per, if (i + 1) * per < n then (i + 1) * per else n)
  }

  function Abs(x: int): nat { if x < 0 then -x else x }

  /** C's `/` on int, which truncates toward zero. */
  function CDiv(a: int, b: int): int
    requires b != 0
  {
    var q := Abs(a) / Abs(b);
    if (a < 0) == (b < 0) then q else -q
  }

  /**
    The slot pick_seeds_subset writes: start / (end - start), a division by
    zero for an empty range, and out of bounds unless the quotient is a slot
    of the NUM_CORES result arrays.
   */
  function SubsetSlot(p: Param1): (r: Result<nat, Fault>)
    ensures r == Fault(DivisionByZero) <==> p.endIndex == p.startIndex
    ensures r.Ok? ==> r.value < NUM_CORES && r.value == CDiv(p.startIndex, p.endIndex - p.startIndex)
  {
    if p.endIndex == p.startIndex then Fault(DivisionByZero)
    else
      var q := CDiv(p.startIndex, p.endIndex - p.startIndex);
      if 0 <= q < NUM_CORES then Ok(q) else Fault(SlotOutOfBounds)
  }

  /** A result slot holds a worker's answer for the rows of p: its pair and that pair's waste. */
  ghost predicate SlotHolds(ms: seq<Mbr>, p: Param1, w: int, seeds: Option<(nat, nat)>)
    requires |ms| >= 2
  {
    seeds.Some? && IsScanChoice(ms, p.startIndex, p.endIndex, seeds.value.0, seeds.value.1)
    && w == Waste(ms[seeds.value.0], ms[seeds.value.1])
  }

  /**
    pick_seeds_subset as written: the slot is computed first (and is where it
    fails), then the rows are scanned and the pair and its waste go into that
    slot; no other slot changes.
   */
  method PickSeedsSubset(ms: seq<Mbr>, p: Param1, greatestWastes: array<int>, seedIndicesList: array<Option<(nat, nat)>>)
    returns (r: Result<nat, Fault>)
    requires |ms| >= 2
    requires greatestWastes.Length == NUM_CORES && seedIndicesList.Length == NUM_CORES
    modifies greatestWastes, seedIndicesList
    ensures r == SubsetSlot(p)
    ensures r.Ok? ==> SlotHolds(ms, p, greatestWastes[r.value], seedIndicesList[r.value])
    ensures forall k :: 0 <= k < NUM_CORES && (r.Fault? || k != r.value) ==>
      greatestWastes[k] == old(greatestWastes[k]) && seedIndicesList[k] == old(seedIndicesList[k])
  {
    r := SubsetSlot(p);
    if r.Fault? {
      return;
    }
    var i, j := ScanRows(ms, p.startIndex, p.endIndex, WasteTable(ms));
    seedIndicesList[r.value] := Some((i, j));
    greatestWastes[r.value] := Waste(ms[i], ms[j]);
  }

  /** The evidently intended pick_seeds_subset: worker threadIndex writes slot threadIndex. */
  method PickSeedsSubsetFixed(ms: seq<Mbr>, p: Param1, threadIndex: nat,
                              greatestWastes: array<int>, seedIndicesList: array<Option<(nat, nat)>>)
    requires |ms| >= 2 && threadIndex < NUM_CORES
    requires greatestWastes.Length == NUM_CORES && seedIndicesList.Length == NUM_CORES
    modifies greatestWastes, seedIndicesList
    ensures SlotHolds(ms, p, greatestWastes[threadIndex], seedIndicesList[threadIndex])
    ensures forall k :: 0 <= k < NUM_CORES && k != threadIndex ==>
      greatestWastes[k] == old(greatestWastes[k]) && seedIndicesList[k] == old(seedIndicesList[k])
  {
    var i, j := ScanRows(ms, p.startIndex, p.endIndex, WasteTable(ms));
    seedIndicesList[threadIndex] := Some((i, j));
    greatestWastes[threadIndex] := Waste(ms[i], ms[j]);
  }

  /** slot is the first of [0, T) holding the strictly greatest waste. */
  ghost predicate IsFirstMaxSlot(ws: seq<int>, T: nat, slot: int) {
    0 <= slot < T <= |ws|
    && (forall i :: 0 <= i < T ==> ws[i] <= ws[slot])
    && (forall i :: 0 <= i < slot ==> ws[i] < ws[slot])
  }

  /** The reduction of pick_seeds_parallel over the first T slots. */
  method ReduceWastes(greatestWastes: array<int>, seedIndicesList: array<Option<(nat, nat)>>, T: nat)
    returns (ghost slot: nat, seedIndices: Option<(nat, nat)>)
    requires 1 <= T <= greatestWastes.Length && T <= seedIndicesList.Length
    ensures IsFirstMaxSlot(greatestWastes[..], T, slot) && seedIndices == seedIndicesList[slot]
  {
    var greatestWaste := greatestWastes[0];
    seedIndices := seedIndicesList[0];
    slot := 0;
    for i := 0 to T
      invariant slot < T && (slot == 0 || slot < i)
      invariant greatestWaste == greatestWastes[slot] && seedIndices == seedIndicesList[slot]
      invariant forall k :: 0 <= k < i ==> greatestWastes[k] <= greatestWaste
      invariant forall k :: 0 <= k < slot ==> greatestWastes[k] < greatestWaste
    {
      if greatestWastes[i] > greatestWaste {
        greatestWaste := greatestWastes[i];
        seedIndices := seedIndicesList[i];
        slot := i;
      }
    }
  }

  /** Every row below n lies in the chunk of worker x / per, one of the T workers. */
  lemma ChunksCover(n: nat, T: nat, x: nat)
    requires T >= 1 && x < n
    ensures x / PerWorker(n + 1, T) < T
    ensures PickSeedsChunk(n, T, x / PerWorker(n + 1, T)).startIndex <= x
    ensures x < PickSeedsChunk(n, T, x / PerWorker(n + 1, T)).endIndex
  {
    WorkerRangesCover(n + 1, T, x);
  }

  /** When each of the first T slots holds its worker's answer, the reduction's pair wastes the most. */
  lemma MaxWasteFromSlots(ms: seq<Mbr>, T: nat, ws: seq<int>, ps: seq<Option<(nat, nat)>>, slot: nat)
    requires |ms| >= 2 && T >= 1 && |ws| >= T && |ps| >= T
    requires forall k :: 0 <= k < T ==> SlotHolds(ms, PickSeedsChunk(|ms|, T, k), ws[k], ps[k])
    requires IsFirstMaxSlot(ws, T, slot)
    ensures ps[slot].Some? && IsMaxWastePair(ms, ps[slot].value)
  {
    assert SlotHolds(ms, PickSeedsChunk(|ms|, T, slot), ws[slot], ps[slot]);
    forall r, c | 0 <= r < |ms| && 0 <= c < |ms|
      ensures WasteTable(ms)[r][c] <= ws[slot]
    {
      ChunksCover(|ms|, T, r);
      var w := r / PerWorker(|ms| + 1, T);
      var p := PickSeedsChunk(|ms|, T, w);
      assert SlotHolds(ms, p, ws[w], ps[w]);
      ScanChoiceBound(ms, p.startIndex, p.endIndex, ps[w].value.0, ps[w].value.1, r, c);
    }
  }

  /** Every one of the T workers computes its own index as its slot. */
  ghost predicate SlotsCorrect(n: nat, T: nat)
    requires T >= 1
  {
    forall i :: 0 <= i < T ==> SubsetSlot(PickSeedsChunk(n, T, i)) == Ok(i)
  }

  /**
    The result slots ws/ps after the first `upto` workers ran from slots
    gw0/sil0: a slot none of them is assigned keeps its old contents, an
    assigned slot holds the answer of a worker assigned to it.
   */
  ghost predicate SlotsAfterWorkers(ms: seq<Mbr>, T: nat, upto: nat, gw0: seq<int>, sil0: seq<Option<(nat, nat)>>,
                                    ws: seq<int>, ps: seq<Option<(nat, nat)>>)
    requires |ms| >= 2 && T >= 1 && |gw0| == NUM_CORES && |sil0| == NUM_CORES
  {
    && |ws| == NUM_CORES && |ps| == NUM_CORES
    && forall k :: 0 <= k < NUM_CORES ==> SlotAfterWorkers(ms, T, upto, gw0[k], sil0[k], k, ws[k], ps[k])
  }

  /** Slot k, which held w0/p0, holds w/p after the first `upto` workers ran. */
  ghost predicate SlotAfterWorkers(ms: seq<Mbr>, T: nat, upto: nat, w0: int, p0: Option<(nat, nat)>,
                                   k: nat, w: int, p: Option<(nat, nat)>)
    requires |ms| >= 2 && T >= 1
  {
    if forall i :: 0 <= i < upto ==> SubsetSlot(PickSeedsChunk(|ms|, T, i)) != Ok(k) then
      w == w0 && p == p0
    else
      exists i :: 0 <= i < upto && SubsetSlot(PickSeedsChunk(|ms|, T, i)) == Ok(k)
                  && SlotHolds(ms, PickSeedsChunk(|ms|, T, i), w, p)
  }

  /** Worker `upto` writing its own slot extends the description to one more worker. */
  lemma WorkerStep(ms: seq<Mbr>, T: nat, upto: nat, gw0: seq<int>, sil0: seq<Option<(nat, nat)>>,
                   ws: seq<int>, ps: seq<Option<(nat, nat)>>, ws': seq<int>, ps': seq<Option<(nat, nat)>>, slot: nat)
    requires |ms| >= 2 && T >= 1 && |gw0| == NUM_CORES && |sil0| == NUM_CORES
    requires SlotsAfterWorkers(ms, T, upto, gw0, sil0, ws, ps)
    requires SubsetSlot(PickSeedsChunk(|ms|, T, upto)) == Ok(slot)
    requires |ws'| == NUM_CORES && |ps'| == NUM_CORES
    requires SlotHolds(ms, PickSeedsChunk(|ms|, T, upto), ws'[slot], ps'[slot])
    requires forall k :: 0 <= k < NUM_CORES && k != slot ==> ws'[k] == ws[k] && ps'[k] == ps[k]
    ensures SlotsAfterWorkers(ms, T, upto + 1, gw0, sil0, ws', ps')
  {
    forall k | 0 <= k < NUM_CORES
      ensures SlotAfterWorkers(ms, T, upto + 1, gw0[k], sil0[k], k, ws'[k], ps'[k])
    {
      if k == slot {
        assert SubsetSlot(PickSeedsChunk(|ms|, T, upto)) == Ok(k);
      } else {
        assert SlotAfterWorkers(ms, T, upto, gw0[k], sil0[k], k, ws[k], ps[k]);
        assert (forall i :: 0 <= i < upto + 1 ==> SubsetSlot(PickSeedsChunk(|ms|, T, i)) != Ok(k))
               == (forall i :: 0 <= i < upto ==> SubsetSlot(PickSeedsChunk(|ms|, T, i)) != Ok(k));
      }
    }
  }

  /**
    What pick_seeds_parallel as written produces from result slots gw0/sil0,
    with ws/ps the slots after the workers: a fault exactly when some worker
    faults; otherwise the slots as the workers leave them, and the pair in the
    first slot of strictly greatest waste.
   */
  ghost predicate ParallelOutcome(ms: seq<Mbr>, T: nat, gw0: seq<int>, sil0: seq<Option<(nat, nat)>>,
                                  r: Result<Option<(nat, nat)>, Fault>, ws: seq<int>, ps: seq<Option<(nat, nat)>>)
    requires |ms| >= 2 && 1 <= T <= NUM_CORES && |gw0| == NUM_CORES && |sil0| == NUM_CORES
  {
    && (r.Fault? <==> exists i :: 0 <= i < T && SubsetSlot(PickSeedsChunk(|ms|, T, i)).Fault?)
    && (r.Ok? ==>
          && SlotsAfterWorkers(ms, T, T, gw0, sil0, ws, ps)
          && exists slot :: IsFirstMaxSlot(ws, T, slot) && r.value == ps[slot])
  }

  /** Under correct slot arithmetic each of the first T slots holds its own worker's answer. */
  lemma CorrectSlotsHold(ms: seq<Mbr>, T: nat, gw0: seq<int>, sil0: seq<Option<(nat, nat)>>,
                         ws: seq<int>, ps: seq<Option<(nat, nat)>>)
    requires |ms| >= 2 && 1 <= T <= NUM_CORES && |gw0| == NUM_CORES && |sil0| == NUM_CORES
    requires SlotsCorrect(|ms|, T) && SlotsAfterWorkers(ms, T, T, gw0, sil0, ws, ps)
    ensures forall k :: 0 <= k < T ==> SlotHolds(ms, PickSeedsChunk(|ms|, T, k), ws[k], ps[k])
  {
    forall k | 0 <= k < T
      ensures SlotHolds(ms, PickSeedsChunk(|ms|, T, k), ws[k], ps[k])
    {
      assert SubsetSlot(PickSeedsChunk(|ms|, T, k)) == Ok(k);
      var i :| 0 <= i < T && SubsetSlot(PickSeedsChunk(|ms|, T, i)) == Ok(k)
               && SlotHolds(ms, PickSeedsChunk(|ms|, T, i), ws[k], ps[k]);
      assert SubsetSlot(PickSeedsChunk(|ms|, T, i)) == Ok(i);
    }
  }

  /** Workers 0 .. upto-1 have run without a fault and left the slots ws/ps. */
  ghost predicate WorkersRan(ms: seq<Mbr>, T: nat, upto: nat, gw0: seq<int>, sil0: seq<Option<(nat, nat)>>,
                             ws: seq<int>, ps: seq<Option<(nat, nat)>>)
    requires |ms| >= 2 && T >= 1 && |gw0| == NUM_CORES && |sil0| == NUM_CORES
  {
    && (forall i :: 0 <= i < upto ==> SubsetSlot(PickSeedsChunk(|ms|, T, i)).Ok?)
    && SlotsAfterWorkers(ms, T, upto, gw0, sil0, ws, ps)
  }

  /** Worker i of T runs pick_seeds_subset on its chunk; unless it faults, one more worker has run. */
  method RunWorker(ms: seq<Mbr>, T: nat, i: nat, ghost gw0: seq<int>, ghost sil0: seq<Option<(nat, nat)>>,
                   greatestWastes: array<int>, seedIndicesList: array<Option<(nat, nat)>>)
    returns (res: Result<nat, Fault>)
    requires |ms| >= 2 && 1 <= T <= NUM_CORES && |gw0| == NUM_CORES && |sil0| == NUM_CORES
    requires greatestWastes.Length == NUM_CORES && seedIndicesList.Length == NUM_CORES
    requires WorkersRan(ms, T, i, gw0, sil0, greatestWastes[..], seedIndicesList[..])
    modifies greatestWastes, seedIndicesList
    ensures res == SubsetSlot(PickSeedsChunk(|ms|, T, i))
    ensures res.Ok? ==> WorkersRan(ms, T, i + 1, gw0, sil0, greatestWastes[..], seedIndicesList[..])
  {
    ghost var ws0, ps0 := greatestWastes[..], seedIndicesList[..];
    res := PickSeedsSubset(ms, PickSeedsChunk(|ms|, T, i), greatestWastes, seedIndicesList);
    if res.Ok? {
      WorkerStep(ms, T, i, gw0, sil0, ws0, ps0, greatestWastes[..], seedIndicesList[..], res.value);
    }
  }

  /** The worker phase of pick_seeds_parallel: workers 0 .. T-1 in turn, stopping at the first fault. */
  method RunSubsets(ms: seq<Mbr>, T: nat, greatestWastes: array<int>, seedIndicesList: array<Option<(nat, nat)>>)
    returns (fault: Option<Fault>)
    requires |ms| >= 2 && 1 <= T <= NUM_CORES
    requires greatestWastes.Length == NUM_CORES && seedIndicesList.Length == NUM_CORES
    modifies greatestWastes, seedIndicesList
    ensures fault.Some? <==> exists i :: 0 <= i < T && SubsetSlot(PickSeedsChunk(|ms|, T, i)).Fault?
    ensures fault.None? ==>
      SlotsAfterWorkers(ms, T, T, old(greatestWastes[..]), old(seedIndicesList[..]), greatestWastes[..], seedIndicesList[..])
  {
    ghost var gw0, sil0 := greatestWastes[..], seedIndicesList[..];
    for i := 0 to T
      invariant WorkersRan(ms, T, i, gw0, sil0, greatestWastes[..], seedIndicesList[..])
    {
      var res := RunWorker(ms, T, i, gw0, sil0, greatestWastes, seedIndicesList);
      if res.Fault? {
        return Some(res.error);
      }
    }
    return None;
  }

  /** The last loop of pick_seeds_parallel: the first T wastes go back to 0. */
  method ResetWastes(greatestWastes: array<int>, T: nat)
    requires T <= greatestWastes.Length
    modifies greatestWastes
    ensures forall k :: 0 <= k < greatestWastes.Length ==>
      greatestWastes[k] == if k < T then 0 else old(greatestWastes[k])
  {
    for i := 0 to T
      invariant forall k :: 0 <= k < greatestWastes.Length ==>
        greatestWastes[k] == if k < i then 0 else old(greatestWastes[k])
    {
      greatestWastes[i] := 0;
    }
  }

  /**
    pick_seeds_parallel as written: cap the worker count, run the workers over
    their chunks, reduce the first numThreads slots and reset their wastes to 0.
    Only when every worker's slot is its own index is the pair sure to be one
    of greatest waste.
   */
  method PickSeedsParallel(ms: seq<Mbr>, numThreads: nat,
                           greatestWastes: array<int>, seedIndicesList: array<Option<(nat, nat)>>)
    returns (r: Result<Option<(nat, nat)>, Fault>, ghost ws: seq<int>, ghost ps: seq<Option<(nat, nat)>>)
    requires |ms| >= 2 && numThreads >= 1
    requires greatestWastes.Length == NUM_CORES && seedIndicesList.Length == NUM_CORES
    modifies greatestWastes, seedIndicesList
    ensures ParallelOutcome(ms, CappedThreads(numThreads), old(greatestWastes[..]), old(seedIndicesList[..]), r, ws, ps)
    ensures SlotsCorrect(|ms|, CappedThreads(numThreads)) ==> r.Ok? && r.value.Some? && IsMaxWastePair(ms, r.value.value)
    ensures r.Ok? ==> seedIndicesList[..] == ps
    ensures r.Ok? ==> forall k :: 0 <= k < NUM_CORES ==>
      greatestWastes[k] == if k < CappedThreads(numThreads) then 0 else ws[k]
  {
    var T := CappedThreads(numThreads);
    ghost var gw0, sil0 := greatestWastes[..], seedIndicesList[..];
    var fault := RunSubsets(ms, T, greatestWastes, seedIndicesList);
    if fault.Some? {
      return Fault(fault.value), [], [];
    }
    ws, ps := greatestWastes[..], seedIndicesList[..];
    ghost var slot;
    var seedIndices;
    slot, seedIndices := ReduceWastes(greatestWastes, seedIndicesList, T);
    if SlotsCorrect(|ms|, T) {
      CorrectSlotsHold(ms, T, gw0, sil0, ws, ps);
      MaxWasteFromSlots(ms, T, ws, ps, slot);
    }
    ResetWastes(greatestWastes, T);
    r := Ok(seedIndices);
  }

  /**
    The evidently intended pick_seeds_parallel: as written, but worker i
    writes slot i. The pair always wastes the most, and for well-formed
    rectangles it is two different entries.
   */
  method PickSeedsParallelFixed(ms: seq<Mbr>, numThreads: nat,
                                greatestWastes: array<int>, seedIndicesList: array<Option<(nat, nat)>>)
    returns (seedIndices: (nat, nat))
    requires |ms| >= 2 && numThreads >= 1
    requires greatestWastes.Length == NUM_CORES && seedIndicesList.Length == NUM_CORES
    modifies greatestWastes, seedIndicesList
    ensures IsMaxWastePair(ms, seedIndices)
    ensures (forall k :: 0 <= k < |ms| ==> WellFormed(ms[k])) ==> seedIndices.0 != seedIndices.1
    ensures forall k :: 0 <= k < CappedThreads(numThreads) ==> greatestWastes[k] == 0
  {
    var T := CappedThreads(numThreads);
    var n := |ms|;
    for i := 0 to T
      invariant forall k :: 0 <= k < i ==> SlotHolds(ms, PickSeedsChunk(n, T, k), greatestWastes[k], seedIndicesList[k])
    {
      PickSeedsSubsetFixed(ms, PickSeedsChunk(n, T, i), i, greatestWastes, seedIndicesList);
    }
    ghost var slot;
    var seeds;
    slot, seeds := ReduceWastes(greatestWastes, seedIndicesList, T);
    MaxWasteFromSlots(ms, T, greatestWastes[..], seedIndicesList[..], slot);
    assert SlotHolds(ms, PickSeedsChunk(n, T, slot), greatestWastes[slot], seedIndicesList[slot]);
    seedIndices := seeds.value;
    if forall k :: 0 <= k < |ms| ==> WellFormed(ms[k]) {
      var p := PickSeedsChunk(n, T, slot);
      ScanChoiceDistinct(ms, p.startIndex, p.endIndex, seedIndices.0, seedIndices.1);
    }
    ResetWastes(greatestWastes, T);
  }

  /** With one worker the slot arithmetic is right for every node that can be split. */
  lemma SingleWorkerSlotsCorrect(n: nat)
    requires n >= 2
    ensures SlotsCorrect(n, 1)
  {
    assert PerWorker(n + 1, 1) == n + 1;
    assert PickSeedsChunk(n, 1, 0) == Param1(0, n);
    assert CDiv(0, n) == 0;
  }

  /**
    A worker whose chunk is not clamped, [i * per, (i + 1) * per), computes
    (i * per) / per = i, its own slot.
   */
  lemma FullChunkSlot(n: nat, T: nat, i: nat)
    requires 1 <= T && i < T && i < NUM_CORES && (i + 1) * PerWorker(n + 1, T) <= n
    ensures SubsetSlot(PickSeedsChunk(n, T, i)) == Ok(i)
  {
    var per := PerWorker(n + 1, T);
    assert per >= 1;
    assert (i + 1) * per == i * per + per;
    assert PickSeedsChunk(n, T, i) == Param1(i * per, (i + 1) * per);
    DivExact(i * per, per, i);
  }

  /** Dividing a multiple of b by b gives back the factor. */
  lemma DivExact(a: nat, b: nat, q: nat)
    requires b >= 1 && a == q * b
    ensures a / b == q
  {
    var d: nat := a / b;
    assert a == d * b + a % b && 0 <= a % b < b;
    if d < q {
      assert (d + 1) * b == d * b + b;
      MulLeft(d + 1, q, b);
    }
  }

  /**
    When only the last chunk can be clamped, the slot arithmetic is right for
    all T workers exactly when it is right for the last one.
   */
  lemma SlotsCorrectByLastChunk(n: nat, T: nat)
    requires 1 <= T <= NUM_CORES && (T - 1) * PerWorker(n + 1, T) <= n
    ensures SlotsCorrect(n, T) <==> SubsetSlot(PickSeedsChunk(n, T, T - 1)) == Ok(T - 1)
  {
    var per := PerWorker(n + 1, T);
    forall i | 0 <= i < T - 1
      ensures SubsetSlot(PickSeedsChunk(n, T, i)) == Ok(i)
    {
      MulLeft(i + 1, T - 1, per);
      FullChunkSlot(n, T, i);
    }
  }

  /**
    Ten entries and two workers: per = ceil(11 / 2) = 6, the chunks are
    [0, 6) and [6, 10), and 6 / 4 = 1, so both workers write their own slot
    and the as-written parallel pick finds a pair of greatest waste.
   */
  lemma TenEntriesTwoWorkers()
    ensures SlotsCorrect(10, 2)
  {
    assert PerWorker(11, 2) == 6;
    assert PickSeedsChunk(10, 2, 1) == Param1(6, 10);
    assert CDiv(6, 4) == 1;
    SlotsCorrectByLastChunk(10, 2);
  }

  /**
    Four entries and three workers: per = ceil(5 / 3) = 2, the third worker
    gets [4, 4) and divides by zero; likewise the seventh of seven workers for
    twelve entries. The run then faults, whatever the rectangles.
   */
  lemma DivisionByZeroExample()
    ensures PickSeedsChunk(4, 3, 2) == Param1(4, 4) && SubsetSlot(Param1(4, 4)) == Fault(DivisionByZero)
    ensures PickSeedsChunk(12, 7, 6) == Param1(12, 12)
  {
    assert PerWorker(5, 3) == 2;
    assert PerWorker(13, 7) == 2;
  }

  /**
    111 entries and 12 workers: per = 10 and the last worker, on [110, 111),
    computes slot 110, outside the 12-slot result arrays.
   */
  lemma SlotOutOfBoundsExample()
    ensures PickSeedsChunk(111, 12, 11) == Param1(110, 111)
    ensures SubsetSlot(Param1(110, 111)) == Fault(SlotOutOfBounds)
  {
    assert PerWorker(112, 12) == 10;
  }

  /** Six copies of the unit square. */
  function UnitSquares(): (ms: seq<Mbr>)
    ensures |ms| == 6
  {
    seq(6, _ => Mbr(0, 0, 1, 1))
  }

  /** The chunks and slots of two workers over six entries: [0, 4) to slot 0, [4, 6) to slot 2. */
  lemma SixEntriesTwoWorkers()
    ensures forall i :: 0 <= i < 2 ==> SubsetSlot(PickSeedsChunk(6, 2, i)) == if i == 0 then Ok(0) else Ok(2)
  {
    assert PerWorker(7, 2) == 4;
    forall i | 0 <= i < 2
      ensures SubsetSlot(PickSeedsChunk(6, 2, i)) == if i == 0 then Ok(0) else Ok(2)
    {
      if i == 0 {
        assert PickSeedsChunk(6, 2, 0) == Param1(0, 4);
      } else {
        assert PickSeedsChunk(6, 2, 1) == Param1(4, 6);
      }
    }
  }

  /**
    Six entries and two workers: per = 4, the second worker on [4, 6) writes
    slot 4 / 2 = 2, so slot 1 keeps its initial contents. From zeroed result
    slots the reduction prefers slot 1's waste 0 to the real waste -1 and
    returns its never-written (NULL) seed pointer.
   */
  lemma UnwrittenSlotExample(r: Result<Option<(nat, nat)>, Fault>, ws: seq<int>, ps: seq<Option<(nat, nat)>>)
    requires ParallelOutcome(UnitSquares(), 2, seq(NUM_CORES, _ => 0), seq(NUM_CORES, _ => None), r, ws, ps)
    ensures r == Ok(None)
  {
    var ms := UnitSquares();
    SixEntriesTwoWorkers();
    assert r.Ok?;
    assert SlotAfterWorkers(ms, 2, 2, 0, None, 1, ws[1], ps[1]);
    assert ws[1] == 0 && ps[1] == None;
    assert SlotAfterWorkers(ms, 2, 2, 0, None, 0, ws[0], ps[0]);
    assert SubsetSlot(PickSeedsChunk(6, 2, 0)) == Ok(0);
    var i :| 0 <= i < 2 && SubsetSlot(PickSeedsChunk(6, 2, i)) == Ok(0) && SlotHolds(ms, PickSeedsChunk(6, 2, i), ws[0], ps[0]);
    assert ms[ps[0].value.0] == Mbr(0, 0, 1, 1) && ms[ps[0].value.1] == Mbr(0, 0, 1, 1);
    SelfWaste(Mbr(0, 0, 1, 1));
    assert ws[0] == -1;
    var slot :| IsFirstMaxSlot(ws, 2, slot) && r.value == ps[slot];
    assert slot == 1;
  }
}
