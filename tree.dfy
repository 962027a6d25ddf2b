/**
  The R-tree as an arena. Entries (index_records) and nodes (r_tree_nodes) are
  addressed by ids; an entry's child link and a node's parent link are ids.

  The C structure index_record has a `host` field that adjust_tree follows, but
  no code assigns it (initialize_ir sets only mbr and child, add_member does not
  touch it). The arena therefore takes the host relation as part of its state:
  the host of an entry is the node whose member list holds it.
 */
module Tree {
  import opened Wrappers
  import opened Geometry
  import opened Nodes

  /** The rectangles of the entries `ids`, looked up in the entry arena. */
  function Lookup(mbrs: seq<Mbr>, ids: seq<EntryId>): (r: seq<Mbr>)
    requires forall i :: 0 <= i < |ids| ==> ids[i] < |mbrs|
    ensures |r| == |ids|
    ensures forall i :: 0 <= i < |ids| ==> r[i] == mbrs[ids[i]]
  {
    seq(|ids|, i requires 0 <= i < |ids| => mbrs[ids[i]])
  }

  class RTree {
    /** Entry arena, indexed by entry id: rectangle, child node, hosting node. */
    var mbrs: seq<Mbr>
    var children: seq<Option<nat>>
    var hosts: seq<Option<nat>>
    /** Node arena, indexed by node id. */
    var nodes: seq<Node>
    /** Distance of each node from the leaf level; it gives descents and upward walks a measure. */
    ghost var height: seq<nat>
    ghost var Repr: set<object>

    /**
      A tree of one leaf root holding the single entry 0 with rectangle m; the
      root node is numbered by the counter, as initialize_rt does.
     */
    constructor (m: Mbr, maxMembers: nat, counter: NodeCounter)
      requires maxMembers >= 1
      modifies counter
      ensures Valid() && AllNonEmpty()
      ensures mbrs == [m] && children == [None] && hosts == [Some(0)]
      ensures |nodes| == 1 && nodes[0].Members() == [0] && nodes[0].parent == None && IsLeaf(0)
      ensures counter.next == old(counter.next) + 1
    {
      var root := new Node(maxMembers, counter);
      var _ := root.AddMember(0);
      mbrs, children, hosts := [m], [None], [Some(0)];
      nodes, height := [root], [0];
      Repr := {root, root.records};
      new;
      assert root.Members() == [0];
      assert NodeLinked(0);
    }

    /** The links around node k agree with each other. */
    ghost predicate NodeLinked(k: nat)
      reads this, nodes, nodes[k].records
      requires k < |nodes| && |children| == |mbrs| && |hosts| == |mbrs| && |height| == |nodes|
    {
      var nd := nodes[k];
      && nd.Valid()
      && height[k] < |nodes|
      // every member is an entry hosted by k
      && (forall i :: 0 <= i < nd.numMembers ==> nd.records[i] < |mbrs| && hosts[nd.records[i]] == Some(k))
      // every entry hosted by k is a member of k
      && (forall e :: 0 <= e < |hosts| && hosts[e] == Some(k) ==> e in nd.records[..nd.numMembers])
      // a node is a leaf or internal, never mixed
      && (forall i :: 0 <= i < nd.numMembers ==> children[nd.records[i]].None? == children[nd.records[0]].None?)
      // a member's child is one level down and has that member as its parent entry
      && (forall i :: 0 <= i < nd.numMembers && children[nd.records[i]].Some? ==>
            var c := children[nd.records[i]].value;
            c < |nodes| && height[c] + 1 == height[k] && nodes[c].parent == Some(nd.records[i]))
      // the parent entry's child is k, and its host is one level up
      && (nd.parent.Some? ==>
            var p := nd.parent.value;
            && p < |mbrs| && children[p] == Some(k)
            && hosts[p].Some? && hosts[p].value < |nodes| && height[hosts[p].value] == height[k] + 1)
    }

    /** The arena invariant. */
    ghost predicate Valid()
      reads this, Repr
    {
      && |children| == |mbrs| && |hosts| == |mbrs| && |height| == |nodes|
      && (forall k :: 0 <= k < |nodes| ==> nodes[k] in Repr && nodes[k].records in Repr && nodes[k].Valid())
      && (forall e :: 0 <= e < |hosts| && hosts[e].Some? ==> hosts[e].value < |nodes|)
      && (forall k, i :: 0 <= k < |nodes| && 0 <= i < nodes[k].numMembers ==> nodes[k].records[i] < |mbrs|)
      && (forall k {:trigger NodeLinked(k)} :: 0 <= k < |nodes| ==> NodeLinked(k))
    }

    /** The host of an entry is exactly the node whose member list holds it. */
    lemma HostHoldsEntry(e: EntryId, k: nat)
      requires Valid() && e < |mbrs| && k < |nodes|
      ensures hosts[e] == Some(k) <==> e in nodes[k].Members()
    {
      assert NodeLinked(k);
      if e in nodes[k].Members() {
        var i :| 0 <= i < nodes[k].numMembers && nodes[k].records[i] == e;
      }
    }

    /** Every node holds at least one entry, as is_leaf needs of every node it is asked about. */
    ghost predicate AllNonEmpty()
      reads this, Repr
      requires Valid()
    {
      forall k :: 0 <= k < |nodes| ==> nodes[k].numMembers >= 1
    }

    /** The rectangles of node n's members, in slot order. */
    function MemberMbrs(n: nat): (r: seq<Mbr>)
      reads this, Repr
      requires Valid() && n < |nodes|
      ensures |r| == nodes[n].numMembers
      ensures forall i :: 0 <= i < |r| ==> r[i] == mbrs[nodes[n].records[i]]
    {
      assert NodeLinked(n);
      Lookup(mbrs, nodes[n].Members())
    }

    /**
      is_leaf: reads only slot 0, so it needs a member; in a valid arena that one
      slot decides for all members.
     */
    predicate IsLeaf(n: nat)
      reads this, Repr
      requires Valid() && n < |nodes| && nodes[n].numMembers >= 1
      ensures IsLeaf(n) <==> forall i :: 0 <= i < nodes[n].numMembers ==> children[nodes[n].records[i]].None?
      ensures !IsLeaf(n) <==> forall i :: 0 <= i < nodes[n].numMembers ==> children[nodes[n].records[i]].Some?
    {
      assert NodeLinked(n);
      children[nodes[n].records[0]].None?
    }

    /** The child node of member i of the internal node n. */
    function ChildAt(n: nat, i: nat): (c: nat)
      reads this, Repr
      requires Valid() && n < |nodes| && i < nodes[n].numMembers
      requires children[nodes[n].records[i]].Some?
      ensures c < |nodes| && height[c] < height[n]
    {
      assert NodeLinked(n);
      children[nodes[n].records[i]].value
    }

    /** Replacing one entry's rectangle keeps the arena valid and changes nothing else. */
    method SetMbr(p: EntryId, r: Mbr)
      requires Valid() && p < |mbrs|
      modifies this`mbrs
      ensures Valid() && mbrs == old(mbrs)[p := r]
    {
      mbrs := mbrs[p := r];
      forall k | 0 <= k < |nodes|
        ensures NodeLinked(k)
      {
        assert old(NodeLinked(k));
      }
    }

    /**
      The hosting entries met walking up from node n to the root: n's parent
      entry, then the parent entry of that entry's host, and so on.
     */
    ghost function Chain(n: nat): (chain: seq<EntryId>)
      reads this, Repr
      requires Valid() && n < |nodes|
      ensures forall i :: 0 <= i < |chain| ==> chain[i] < |mbrs|
      decreases |nodes| - height[n]
    {
      assert NodeLinked(n);
      match nodes[n].parent
      case None => []
      case Some(p) =>
        var m := hosts[p].value;
        assert NodeLinked(m);
        [p] + Chain(m)
    }

    /** The entries of the chain from n sit in nodes strictly above n, so none repeats. */
    lemma {:induction false} ChainDistinct(n: nat)
      requires Valid() && n < |nodes|
      ensures forall i, j :: 0 <= i < j < |Chain(n)| ==> Chain(n)[i] != Chain(n)[j]
      ensures forall i :: 0 <= i < |Chain(n)| ==>
        hosts[Chain(n)[i]].Some? && hosts[Chain(n)[i]].value < |nodes| && height[hosts[Chain(n)[i]].value] > height[n]
      decreases |nodes| - height[n]
    {
      assert NodeLinked(n);
      match nodes[n].parent
      case None =>
      case Some(p) =>
        var m := hosts[p].value;
        assert NodeLinked(m);
        ChainDistinct(m);
        var chain := Chain(n);
        assert chain == [p] + Chain(m);
        forall j | 1 <= j < |chain|
          ensures chain[j] != p
        {
          assert chain[j] == Chain(m)[j - 1];
          assert height[hosts[chain[j]].value] > height[m];
        }
    }
  }
}
