/**
  LinearSplit (linear_split.c): share the members of an overflowing node rt
  between the two new nodes r1 and r2 under the seed entries ir1 and ir2. A
  member goes to r1 exactly when ir1's rectangle needs strictly less area
  increase to take it, otherwise (ties included) to r2. Members are offered
  to the new nodes with add_member, which drops them silently once a node is
  full, and the seed rectangles are not enlarged along the way.
 */
module LinearSplit {
  import opened Geometry
  import opened Nodes
  import opened Workers

  /** The test linear_split applies to a member rectangle m. */
  predicate GoesToFirst(seed1: Mbr, seed2: Mbr, m: Mbr) {
    Less(AreaIncrease(seed1, m), AreaIncrease(seed2, m))
  }

  /** For each entry of es, whether it goes to the first new node. */
  function Decisions(mbrs: seq<Mbr>, es: seq<EntryId>, seed1: Mbr, seed2: Mbr): (d: seq<bool>)
    requires forall k :: 0 <= k < |es| ==> es[k] < |mbrs|
    ensures |d| == |es|
    ensures forall k :: 0 <= k < |es| ==> d[k] == GoesToFirst(seed1, seed2, mbrs[es[k]])
  {
    seq(|es|, k requires 0 <= k < |es| => GoesToFirst(seed1, seed2, mbrs[es[k]]))
  }

  /** The entries of es, in order, whose decision is `first`. */
  function Route(es: seq<EntryId>, toFirst: seq<bool>, first: bool): seq<EntryId>
    requires |toFirst| == |es|
  {
    if |es| == 0 then []
    else (if toFirst[0] == first then [es[0]] else []) + Route(es[1..], toFirst[1..], first)
  }

  /** Routing one more entry appends it to the side it is decided for. */
  lemma {:induction false} RouteSnoc(es: seq<EntryId>, toFirst: seq<bool>, i: nat, first: bool)
    requires |toFirst| == |es| && i < |es|
    ensures Route(es[..i + 1], toFirst[..i + 1], first)
            == Route(es[..i], toFirst[..i], first) + (if toFirst[i] == first then [es[i]] else [])
    decreases i
  {
    if i > 0 {
      RouteSnoc(es[1..], toFirst[1..], i - 1, first);
      assert es[..i + 1][1..] == es[1..][..i];
      assert toFirst[..i + 1][1..] == toFirst[1..][..i];
      assert es[..i][1..] == es[1..][..i - 1];
      assert toFirst[..i][1..] == toFirst[1..][..i - 1];
    } else {
      assert es[..1] == [es[0]];
    }
  }

  /** The two sides together hold every entry exactly as often as es does. */
  lemma {:induction false} RoutePartition(es: seq<EntryId>, toFirst: seq<bool>)
    requires |toFirst| == |es|
    ensures |Route(es, toFirst, true)| + |Route(es, toFirst, false)| == |es|
    ensures multiset(Route(es, toFirst, true)) + multiset(Route(es, toFirst, false)) == multiset(es)
  {
    if |es| > 0 {
      RoutePartition(es[1..], toFirst[1..]);
      assert es == [es[0]] + es[1..];
    }
  }

  /** An entry is on side `first` exactly when some occurrence of it is decided for that side. */
  lemma {:induction false} RouteMembers(es: seq<EntryId>, toFirst: seq<bool>, first: bool, x: EntryId)
    requires |toFirst| == |es|
    ensures x in Route(es, toFirst, first) <==> exists k :: 0 <= k < |es| && es[k] == x && toFirst[k] == first
  {
    if |es| > 0 {
      RouteMembers(es[1..], toFirst[1..], first, x);
      if x in Route(es[1..], toFirst[1..], first) {
        var k :| 0 <= k < |es| - 1 && es[1..][k] == x && toFirst[1..][k] == first;
        assert es[k + 1] == x && toFirst[k + 1] == first;
      }
      if exists k :: 0 <= k < |es| && es[k] == x && toFirst[k] == first {
        var k :| 0 <= k < |es| && es[k] == x && toFirst[k] == first;
        if k > 0 {
          assert es[1..][k - 1] == x && toFirst[1..][k - 1] == first;
        }
      }
    }
  }

  /**
    The members of a node after offering it xs one by one with add_member:
    each is appended while there is room, the rest are dropped.
   */
  function Fill(contents: seq<EntryId>, xs: seq<EntryId>, cap: nat): (r: seq<EntryId>)
    requires |contents| <= cap
    ensures |r| <= cap && |contents| <= |r| <= |contents| + |xs|
    ensures r == (contents + xs)[..|r|]
    ensures |contents| + |xs| <= cap ==> r == contents + xs
    ensures |contents| + |xs| > cap ==> |r| == cap
  {
    var total := contents + xs;
    total[..if cap < |total| then cap else |total|]
  }

  /** Offering one more entry appends it exactly when the node still has room. */
  lemma FillStep(contents: seq<EntryId>, xs: seq<EntryId>, x: EntryId, cap: nat)
    requires |contents| <= cap
    ensures Fill(contents, xs + [x], cap)
            == if |Fill(contents, xs, cap)| < cap then Fill(contents, xs, cap) + [x] else Fill(contents, xs, cap)
  {
    assert contents + (xs + [x]) == (contents + xs) + [x];
  }

  /** add_member on a node holding Fill(contents, xs): it then holds Fill(contents, xs + [e]). */
  method Offer(r: Node, ghost contents: seq<EntryId>, ghost xs: seq<EntryId>, e: EntryId)
    requires r.Valid() && |contents| <= r.maxMembers && r.Members() == Fill(contents, xs, r.maxMembers)
    modifies r`numMembers, r.records
    ensures r.Valid() && r.Members() == Fill(contents, xs + [e], r.maxMembers)
  {
    FillStep(contents, xs, e, r.maxMembers);
    var _ := r.AddMember(e);
  }

  /**
    When neither new node overflows, the split loses and duplicates nothing:
    between them the two nodes gain exactly the members of rt.
   */
  lemma SplitConservesMembers(c1: seq<EntryId>, c2: seq<EntryId>, es: seq<EntryId>, d: seq<bool>, cap1: nat, cap2: nat)
    requires |d| == |es| && |c1| + |es| <= cap1 && |c2| + |es| <= cap2
    ensures multiset(Fill(c1, Route(es, d, true), cap1)) + multiset(Fill(c2, Route(es, d, false), cap2))
            == multiset(c1) + multiset(c2) + multiset(es)
  {
    RoutePartition(es, d);
  }

  /**
    One step of a distribution loop: entry i of es goes to r1 or r2 as decided
    by toFirst[i], and both nodes move on to the routes of es[..i + 1].
   */
  method DistributeStep(r1: Node, r2: Node, ghost c1: seq<EntryId>, ghost c2: seq<EntryId>,
                        ghost es: seq<EntryId>, ghost d: seq<bool>, i: nat, e: EntryId, toFirst: bool)
    requires r1.Valid() && r2.Valid() && r1 != r2 && r1.records != r2.records
    requires |c1| <= r1.maxMembers && |c2| <= r2.maxMembers
    requires |d| == |es| && i < |es| && es[i] == e && d[i] == toFirst
    requires r1.Members() == Fill(c1, Route(es[..i], d[..i], true), r1.maxMembers)
    requires r2.Members() == Fill(c2, Route(es[..i], d[..i], false), r2.maxMembers)
    modifies r1`numMembers, r1.records, r2`numMembers, r2.records
    ensures r1.Valid() && r2.Valid()
    ensures r1.Members() == Fill(c1, Route(es[..i + 1], d[..i + 1], true), r1.maxMembers)
    ensures r2.Members() == Fill(c2, Route(es[..i + 1], d[..i + 1], false), r2.maxMembers)
  {
    RouteSnoc(es, d, i, true);
    RouteSnoc(es, d, i, false);
    if toFirst {
      Offer(r1, c1, Route(es[..i], d[..i], true), e);
    } else {
      Offer(r2, c2, Route(es[..i], d[..i], false), e);
    }
  }

  /**
    linear_split_sequential: every member of rt, in slot order, is offered to
    r1 when ir1's rectangle needs strictly less area increase for it, and to r2
    otherwise; rt itself is left as it was.
   */
  method LinearSplitSequential(rt: Node, mbrs: seq<Mbr>, ir1Mbr: Mbr, r1: Node, ir2Mbr: Mbr, r2: Node)
    requires rt.Valid() && r1.Valid() && r2.Valid()
    requires forall k :: 0 <= k < rt.numMembers ==> rt.records[k] < |mbrs|
    requires r1 != r2 && r1.records != r2.records
    requires rt != r1 && rt != r2 && rt.records != r1.records && rt.records != r2.records
    modifies r1`numMembers, r1.records, r2`numMembers, r2.records
    ensures r1.Valid() && r2.Valid() && rt.Members() == old(rt.Members())
    ensures r1.Members() == Fill(old(r1.Members()), Route(old(rt.Members()), Decisions(mbrs, old(rt.Members()), ir1Mbr, ir2Mbr), true), r1.maxMembers)
    ensures r2.Members() == Fill(old(r2.Members()), Route(old(rt.Members()), Decisions(mbrs, old(rt.Members()), ir1Mbr, ir2Mbr), false), r2.maxMembers)
  {
    ghost var es := rt.Members();
    ghost var d := Decisions(mbrs, es, ir1Mbr, ir2Mbr);
    ghost var c1, c2 := r1.Members(), r2.Members();
    assert es[..0] == [] && d[..0] == [];
    for i := 0 to rt.numMembers
      invariant r1.Valid() && r2.Valid() && rt.Members() == es
      invariant r1.Members() == Fill(c1, Route(es[..i], d[..i], true), r1.maxMembers)
      invariant r2.Members() == Fill(c2, Route(es[..i], d[..i], false), r2.maxMembers)
    {
      var e := rt.records[i];
      var enlargement1 := AreaIncrease(ir1Mbr, mbrs[e]);
      var enlargement2 := AreaIncrease(ir2Mbr, mbrs[e]);
      DistributeStep(r1, r2, c1, c2, es, d, i, e, Less(enlargement1, enlargement2));
    }
    assert es[..|es|] == es && d[..|d|] == d;
  }

  /** param2: the member range one worker decides. */
  datatype Param2 = Param2(startIndex: nat, endIndex: nat)

  /** The split_nodes code for one member: 0 for r1, 1 for r2. */
  function SplitCode(seed1: Mbr, seed2: Mbr, m: Mbr): (code: int)
    ensures code == 0 <==> GoesToFirst(seed1, seed2, m)
    ensures code == 0 || code == 1
  {
    if Less(AreaIncrease(seed1, m), AreaIncrease(seed2, m)) then 0 else 1
  }

  /** The split_nodes codes of the members es. */
  function CodesFor(mbrs: seq<Mbr>, es: seq<EntryId>, seed1: Mbr, seed2: Mbr): (codes: seq<int>)
    requires forall k :: 0 <= k < |es| ==> es[k] < |mbrs|
    ensures |codes| == |es|
    ensures forall k {:trigger codes[k]} :: 0 <= k < |es| ==> codes[k] == SplitCode(seed1, seed2, mbrs[es[k]])
  {
    seq(|es|, k requires 0 <= k < |es| => SplitCode(seed1, seed2, mbrs[es[k]]))
  }

  /**
    The loop of linear_split_subset over [start, end), stopping at rt's member
    count, writing each member's code into split_nodes.
   */
  method DecideRange(rt: Node, mbrs: seq<Mbr>, ir1Mbr: Mbr, ir2Mbr: Mbr, start: nat, end: nat, splitNodes: array<int>)
    requires rt.Valid() && forall k :: 0 <= k < rt.numMembers ==> rt.records[k] < |mbrs|
    requires splitNodes.Length == rt.numMembers
    modifies splitNodes
    ensures forall k :: 0 <= k < splitNodes.Length ==>
      splitNodes[k] == if start <= k < end then CodesFor(mbrs, rt.Members(), ir1Mbr, ir2Mbr)[k] else old(splitNodes[k])
  {
    ghost var codes := CodesFor(mbrs, rt.Members(), ir1Mbr, ir2Mbr);
    var i := start;
    while i < end && i < rt.numMembers
      invariant start <= i && (i == start || i <= end)
      invariant forall k :: 0 <= k < splitNodes.Length ==>
        splitNodes[k] == if start <= k < i then codes[k] else old(splitNodes[k])
    {
      assert codes[i] == SplitCode(ir1Mbr, ir2Mbr, mbrs[rt.records[i]]);
      splitNodes[i] := SplitCode(ir1Mbr, ir2Mbr, mbrs[rt.records[i]]);
      i := i + 1;
    }
  }

  /** linear_split_subset as written: its end index is a copy of its start index, so it decides nothing. */
  method LinearSplitSubset(rt: Node, mbrs: seq<Mbr>, ir1Mbr: Mbr, ir2Mbr: Mbr, p: Param2, splitNodes: array<int>)
    requires rt.Valid() && forall k :: 0 <= k < rt.numMembers ==> rt.records[k] < |mbrs|
    requires splitNodes.Length == rt.numMembers
    modifies splitNodes
    ensures splitNodes[..] == old(splitNodes[..])
  {
    var startIndex := p.startIndex;
    var endIndex := p.startIndex;
    DecideRange(rt, mbrs, ir1Mbr, ir2Mbr, startIndex, endIndex, splitNodes);
  }

  /**
    The evidently intended linear_split_subset: it decides the members of
    [start, end) below the member count and leaves every other code alone.
   */
  method LinearSplitSubsetFixed(rt: Node, mbrs: seq<Mbr>, ir1Mbr: Mbr, ir2Mbr: Mbr, p: Param2, splitNodes: array<int>)
    requires rt.Valid() && forall k :: 0 <= k < rt.numMembers ==> rt.records[k] < |mbrs|
    requires splitNodes.Length == rt.numMembers
    modifies splitNodes
    ensures forall k :: 0 <= k < splitNodes.Length ==>
      splitNodes[k] == if p.startIndex <= k < p.endIndex then CodesFor(mbrs, rt.Members(), ir1Mbr, ir2Mbr)[k] else old(splitNodes[k])
  {
    DecideRange(rt, mbrs, ir1Mbr, ir2Mbr, p.startIndex, p.endIndex, splitNodes);
  }

  /**
    Rows the loop of linear_split_subset visits when its only bound check is
    `i == num_members` (with the intended end index). From a start at or below
    the member count it visits what the `i < num_members` bound would; from a
    start past it, the guard never fires and the whole range is walked. So the
    worker stays within the members exactly when its range does not start past
    them.
   */
  function VisitedAsWritten(start: nat, end: nat, n: nat): (rows: seq<nat>)
    ensures forall k :: 0 <= k < |rows| ==> rows[k] == start + k
    ensures start <= n ==> forall x :: x in rows <==> start <= x < end && x < n
    ensures n < start ==> |rows| == if start <= end then end - start else 0
    ensures (forall x :: x in rows ==> x < n) <==> (start <= n || end <= start)
  {
    var stop := if start <= n && n < end then n else end;
    var rows := seq(if start <= stop then stop - start else 0, k => start + k);
    RangeMembers(rows, start);
    assert n < start < end ==> start in rows;
    rows
  }

  /** A run of consecutive numbers from `start` holds exactly [start, start + its length). */
  lemma RangeMembers(rows: seq<nat>, start: nat)
    requires forall k :: 0 <= k < |rows| ==> rows[k] == start + k
    ensures forall x :: x in rows <==> start <= x < start + |rows|
  {
    forall x | start <= x < start + |rows|
      ensures x in rows
    {
      assert rows[x - start] == x;
    }
  }

  /** The loop of linear_split_subset as written, over [start, end) with its `i == num_members` break. */
  method VisitRangeAsWritten(start: nat, end: nat, n: nat) returns (rows: seq<nat>)
    ensures rows == VisitedAsWritten(start, end, n)
  {
    rows := [];
    var i := start;
    while i < end
      invariant start <= i && (i == start || i <= end)
      invariant start <= n ==> i <= n
      invariant rows == seq(i - start, k => start + k)
    {
      if i == n {
        break;
      }
      rows := rows + [i];
      i := i + 1;
    }
  }

  /**
    Five members and four workers: per = ceil(5 / 4) = 2 and the last worker's
    range [6, 8) starts past the count, so the `i == num_members` guard never
    fires and rows 6 and 7 would be read and written.
   */
  lemma GuardMissesRangePastEnd()
    ensures WorkerRange(5, 4, 3) == (6, 8)
    ensures exists x :: x in VisitedAsWritten(6, 8, 5) && x >= 5
    ensures |VisitedAsWritten(6, 8, 5)| == 2
  {
    assert PerWorker(5, 4) == 2;
    var rows := VisitedAsWritten(6, 8, 5);
    assert !(forall x :: x in rows ==> x < 5);
  }

  /**
    The distribution loop of linear_split_parallel: member i goes to r1 when
    its split_nodes code is 0 and to r2 otherwise.
   */
  method DistributeBySplitNodes(rt: Node, r1: Node, r2: Node, splitNodes: array<int>)
    requires rt.Valid() && r1.Valid() && r2.Valid() && splitNodes.Length == rt.numMembers
    requires r1 != r2 && r1.records != r2.records
    requires rt != r1 && rt != r2 && rt.records != r1.records && rt.records != r2.records
    modifies r1`numMembers, r1.records, r2`numMembers, r2.records
    ensures r1.Valid() && r2.Valid() && rt.Members() == old(rt.Members())
    ensures r1.Members() == Fill(old(r1.Members()), Route(old(rt.Members()), Codes(splitNodes[..]), true), r1.maxMembers)
    ensures r2.Members() == Fill(old(r2.Members()), Route(old(rt.Members()), Codes(splitNodes[..]), false), r2.maxMembers)
  {
    ghost var es := rt.Members();
    ghost var d := Codes(splitNodes[..]);
    ghost var c1, c2 := r1.Members(), r2.Members();
    assert es[..0] == [] && d[..0] == [];
    for i := 0 to rt.numMembers
      invariant r1.Valid() && r2.Valid() && rt.Members() == es && d == Codes(splitNodes[..])
      invariant r1.Members() == Fill(c1, Route(es[..i], d[..i], true), r1.maxMembers)
      invariant r2.Members() == Fill(c2, Route(es[..i], d[..i], false), r2.maxMembers)
    {
      DistributeStep(r1, r2, c1, c2, es, d, i, rt.records[i], splitNodes[i] == 0);
    }
    assert es[..|es|] == es && d[..|d|] == d;
  }

  /** Reading split_nodes: code 0 means the first new node. */
  function Codes(splitNodes: seq<int>): (d: seq<bool>)
    ensures |d| == |splitNodes|
    ensures forall k :: 0 <= k < |splitNodes| ==> (d[k] <==> splitNodes[k] == 0)
  {
    seq(|splitNodes|, k requires 0 <= k < |splitNodes| => splitNodes[k] == 0)
  }

  /**
    linear_split_parallel as written: the worker ranges are computed but no
    worker is started, and the members are distributed by the contents of the
    freshly allocated split_nodes, which nothing has written (`uninitialised`).
   */
  method LinearSplitParallel(rt: Node, mbrs: seq<Mbr>, ir1Mbr: Mbr, r1: Node, ir2Mbr: Mbr, r2: Node,
                             numThreads: nat, uninitialised: seq<int>)
    returns (paramObjects: seq<Param2>)
    requires rt.Valid() && r1.Valid() && r2.Valid()
    requires forall k :: 0 <= k < rt.numMembers ==> rt.records[k] < |mbrs|
    requires r1 != r2 && r1.records != r2.records
    requires rt != r1 && rt != r2 && rt.records != r1.records && rt.records != r2.records
    requires numThreads >= 1 && |uninitialised| == rt.numMembers
    modifies r1`numMembers, r1.records, r2`numMembers, r2.records
    ensures |paramObjects| == numThreads
    ensures forall i :: 0 <= i < numThreads ==>
      paramObjects[i] == Param2(WorkerRange(rt.numMembers, numThreads, i).0, WorkerRange(rt.numMembers, numThreads, i).1)
    ensures r1.Valid() && r2.Valid() && rt.Members() == old(rt.Members())
    ensures r1.Members() == Fill(old(r1.Members()), Route(old(rt.Members()), Codes(uninitialised), true), r1.maxMembers)
    ensures r2.Members() == Fill(old(r2.Members()), Route(old(rt.Members()), Codes(uninitialised), false), r2.maxMembers)
  {
    var indexRecordsPerThread := PerWorker(rt.numMembers, numThreads);
    var n := rt.numMembers;
    var splitNodes := new int[n](k requires 0 <= k < n => uninitialised[k]);
    assert splitNodes[..] == uninitialised;
    paramObjects := [];
    for i := 0 to numThreads
      invariant |paramObjects| == i
      invariant forall j :: 0 <= j < i ==>
        paramObjects[j] == Param2(WorkerRange(rt.numMembers, numThreads, j).0, WorkerRange(rt.numMembers, numThreads, j).1)
    {
      paramObjects := paramObjects + [Param2(i * indexRecordsPerThread, (i + 1) * indexRecordsPerThread)];
    }
    DistributeBySplitNodes(rt, r1, r2, splitNodes);
  }

  /**
    A one-member node whose member lies inside ir1's rectangle: the sequential
    split sends it to r1, but the parallel split as written sends it to r2
    whenever the unwritten split_nodes slot is not 0.
   */
  lemma UnwrittenCodeExample(garbage: int)
    requires garbage != 0
    ensures Route([0], Decisions([Mbr(0, 0, 2, 2)], [0], Mbr(0, 0, 4, 4), Mbr(10, 10, 11, 11)), true) == [0]
    ensures Route([0], Codes([garbage]), true) == []
  {
    assert AreaIncrease(Mbr(0, 0, 4, 4), Mbr(0, 0, 2, 2)) == Finite(0);
    assert AreaIncrease(Mbr(10, 10, 11, 11), Mbr(0, 0, 2, 2)) == Finite(120);
    assert [0][..0] == [];
  }

  /**
    The evidently intended linear_split_parallel: numThreads workers decide
    the disjoint ranges [i * per, (i + 1) * per) into a fresh split_nodes, then
    the members are distributed by it. The outcome is the sequential split's.
   */
  method LinearSplitParallelFixed(rt: Node, mbrs: seq<Mbr>, ir1Mbr: Mbr, r1: Node, ir2Mbr: Mbr, r2: Node, numThreads: nat)
    requires rt.Valid() && r1.Valid() && r2.Valid()
    requires forall k :: 0 <= k < rt.numMembers ==> rt.records[k] < |mbrs|
    requires r1 != r2 && r1.records != r2.records
    requires rt != r1 && rt != r2 && rt.records != r1.records && rt.records != r2.records
    requires numThreads >= 1
    modifies r1`numMembers, r1.records, r2`numMembers, r2.records
    ensures r1.Valid() && r2.Valid() && rt.Members() == old(rt.Members())
    ensures r1.Members() == Fill(old(r1.Members()), Route(old(rt.Members()), Decisions(mbrs, old(rt.Members()), ir1Mbr, ir2Mbr), true), r1.maxMembers)
    ensures r2.Members() == Fill(old(r2.Members()), Route(old(rt.Members()), Decisions(mbrs, old(rt.Members()), ir1Mbr, ir2Mbr), false), r2.maxMembers)
  {
    var n := rt.numMembers;
    var indexRecordsPerThread := PerWorker(n, numThreads);
    var splitNodes := new int[n];
    for i := 0 to numThreads
      modifies splitNodes
      invariant forall k :: 0 <= k < n && k < i * indexRecordsPerThread ==>
        splitNodes[k] == CodesFor(mbrs, rt.Members(), ir1Mbr, ir2Mbr)[k]
    {
      assert (i + 1) * indexRecordsPerThread == i * indexRecordsPerThread + indexRecordsPerThread;
      LinearSplitSubsetFixed(rt, mbrs, ir1Mbr, ir2Mbr, Param2(i * indexRecordsPerThread, (i + 1) * indexRecordsPerThread), splitNodes);
    }
    assert Codes(splitNodes[..]) == Decisions(mbrs, rt.Members(), ir1Mbr, ir2Mbr);
    DistributeBySplitNodes(rt, r1, r2, splitNodes);
  }
}
