/**
  adjust_tree (adjust_tree.c): after an entry has been put into node rt, walk
  up the hosting-entry chain and enlarge each ancestor entry's rectangle. The
  first ancestor entry is enlarged by the inserted entry's rectangle, every
  later one by the rectangle of the entry just below it, as it stands after
  its own enlargement.
 */
module AdjustTree {
  import opened Wrappers
  import opened Geometry
  import opened Nodes
  import opened Tree

  /** The entry rectangles after expanding the entries of `chain` in turn, starting from the rectangle m. */
  function Adjusted(mbrs: seq<Mbr>, chain: seq<EntryId>, m: Mbr): (r: seq<Mbr>)
    requires forall i :: 0 <= i < |chain| ==> chain[i] < |mbrs|
    ensures |r| == |mbrs|
    ensures forall x :: 0 <= x < |mbrs| && x !in chain ==> r[x] == mbrs[x]
    decreases |chain|
  {
    if |chain| == 0 then mbrs
    else
      var e := Expanded(mbrs[chain[0]], m);
      Adjusted(mbrs[chain[0] := e], chain[1..], e)
  }

  /** No entry occurs twice in the chain. */
  predicate Distinct(chain: seq<EntryId>) {
    forall i, j :: 0 <= i < j < |chain| ==> chain[i] != chain[j]
  }

  /** The last entry expanded keeps the rectangle it was given; in particular it contains m. */
  lemma {:induction false} AdjustedHead(mbrs: seq<Mbr>, chain: seq<EntryId>, m: Mbr)
    requires forall i :: 0 <= i < |chain| ==> chain[i] < |mbrs|
    requires Distinct(chain) && |chain| > 0
    ensures Adjusted(mbrs, chain, m)[chain[0]] == Expanded(mbrs[chain[0]], m)
  {
    assert chain[0] !in chain[1..];
  }

  /**
    Every entry on a chain without repeats ends up containing the starting
    rectangle m, and containing what it held before.
   */
  lemma {:induction false} AdjustedContains(mbrs: seq<Mbr>, chain: seq<EntryId>, m: Mbr)
    requires forall i :: 0 <= i < |chain| ==> chain[i] < |mbrs|
    requires Distinct(chain)
    ensures forall i :: 0 <= i < |chain| ==> Contains(Adjusted(mbrs, chain, m)[chain[i]], m)
    ensures forall i :: 0 <= i < |chain| ==> Contains(Adjusted(mbrs, chain, m)[chain[i]], mbrs[chain[i]])
    decreases |chain|
  {
    if |chain| > 0 {
      var p := chain[0];
      var e := Expanded(mbrs[p], m);
      var rest := chain[1..];
      AdjustedContains(mbrs[p := e], rest, e);
      AdjustedHead(mbrs, chain, m);
      var r := Adjusted(mbrs, chain, m);
      forall i | 0 <= i < |chain|
        ensures Contains(r[chain[i]], m) && Contains(r[chain[i]], mbrs[chain[i]])
      {
        if i > 0 {
          assert chain[i] == rest[i - 1] && chain[i] != p;
          ContainsTransitive(r[chain[i]], e, m);
        }
      }
    }
  }

  /** Expanding the same chain from the same rectangle a second time changes nothing. */
  lemma {:induction false} AdjustedIdempotent(mbrs: seq<Mbr>, chain: seq<EntryId>, m: Mbr)
    requires forall i :: 0 <= i < |chain| ==> chain[i] < |mbrs|
    requires Distinct(chain)
    ensures Adjusted(Adjusted(mbrs, chain, m), chain, m) == Adjusted(mbrs, chain, m)
    decreases |chain|
  {
    if |chain| > 0 {
      var p := chain[0];
      var e := Expanded(mbrs[p], m);
      var rest := chain[1..];
      var a := Adjusted(mbrs[p := e], rest, e);
      AdjustedHead(mbrs, chain, m);
      ExpandedIdempotent(mbrs[p], m);
      assert a[p := Expanded(a[p], m)] == a;
      AdjustedIdempotent(mbrs[p := e], rest, e);
    }
  }

  /**
    adjust_tree(rt, ir): nothing happens when rt has no parent entry (it is the
    root); otherwise rt's parent entry is expanded by ir's rectangle and the
    walk goes on from that entry's host with that entry. Only entry
    rectangles change.
   */
  method AdjustTree(t: RTree, rt: nat, ir: EntryId)
    requires t.Valid() && rt < |t.nodes| && ir < |t.mbrs|
    modifies t`mbrs
    ensures t.Valid()
    ensures t.mbrs == Adjusted(old(t.mbrs), old(t.Chain(rt)), old(t.mbrs[ir]))
    ensures t.nodes[rt].parent.None? ==> t.mbrs == old(t.mbrs)
  {
    ghost var chain := t.Chain(rt);
    ghost var done := 0;
    var node: nat := rt;
    var m := t.mbrs[ir];
    while t.nodes[node].parent.Some?
      invariant t.Valid() && node < |t.nodes| && |t.mbrs| == |old(t.mbrs)|
      invariant t.nodes == old(t.nodes) && t.hosts == old(t.hosts) && t.Repr == old(t.Repr)
      invariant done <= |chain| && old(t.Chain(node)) == chain[done..]
      invariant Adjusted(t.mbrs, chain[done..], m) == Adjusted(old(t.mbrs), chain, old(t.mbrs[ir]))
      decreases |chain| - done
    {
      assert t.NodeLinked(node);
      var p := t.nodes[node].parent.value;
      assert chain[done..] == [p] + old(t.Chain(t.hosts[p].value));
      var e := Expanded(t.mbrs[p], m);
      t.SetMbr(p, e);
      m := e;
      node := t.hosts[p].value;
      assert chain[done..][1..] == chain[done + 1..];
      done := done + 1;
    }
    assert old(t.Chain(node)) == [];
  }

  /**
    What adjust_tree achieves on a valid tree: every entry on the chain above
    rt contains the inserted entry's rectangle and what it held before, every
    other entry is untouched, and when the inserted entry is not itself on the
    chain (in particular when it is a member of rt, or not yet hosted), a
    second call with the same arguments changes nothing.
   */
  lemma AdjustTreeOutcome(t: RTree, rt: nat, ir: EntryId)
    requires t.Valid() && rt < |t.nodes| && ir < |t.mbrs|
    ensures var a := Adjusted(t.mbrs, t.Chain(rt), t.mbrs[ir]);
      && (forall i :: 0 <= i < |t.Chain(rt)| ==> Contains(a[t.Chain(rt)[i]], t.mbrs[ir]))
      && (forall i :: 0 <= i < |t.Chain(rt)| ==> Contains(a[t.Chain(rt)[i]], t.mbrs[t.Chain(rt)[i]]))
      && (forall x :: 0 <= x < |t.mbrs| && x !in t.Chain(rt) ==> a[x] == t.mbrs[x])
    ensures t.nodes[rt].parent.None? ==> Adjusted(t.mbrs, t.Chain(rt), t.mbrs[ir]) == t.mbrs
    ensures ir !in t.Chain(rt) ==>
      var a := Adjusted(t.mbrs, t.Chain(rt), t.mbrs[ir]);
      Adjusted(a, t.Chain(rt), a[ir]) == a
    ensures t.hosts[ir] == Some(rt) || t.hosts[ir].None? ==> ir !in t.Chain(rt)
  {
    var chain := t.Chain(rt);
    t.ChainDistinct(rt);
    AdjustedContains(t.mbrs, chain, t.mbrs[ir]);
    AdjustedIdempotent(t.mbrs, chain, t.mbrs[ir]);
    if t.hosts[ir] == Some(rt) || t.hosts[ir].None? {
      assert ir !in chain;
    }
  }
}
