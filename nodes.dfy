/**
  The fixed-capacity R-tree node of r_tree.c (initialize_rt, add_member,
  remove_index_record, move_index_record). A node holds the ids of its member
  entries (index_records) in an array of capacity maxMembers, the first
  numMembers slots of which are occupied.
 */
module Nodes {
  import opened Wrappers

  /** An entry (index_record) is addressed by its id in the tree's entry arena. */
  type EntryId = nat

  /** next_node_index: the counter initialize_rt draws node identities from. */
  class NodeCounter {
    var next: int

    constructor ()
      ensures next == 0
    {
      next := 0;
    }
  }

  /** The sequence `s` without its element at position `i`. */
  function RemovedAt<T>(s: seq<T>, i: nat): (r: seq<T>)
    requires i < |s|
    ensures |r| == |s| - 1
    ensures forall k :: 0 <= k < |r| ==> r[k] == if k < i then s[k] else s[k + 1]
  {
    s[..i] + s[i + 1..]
  }

  /** r_tree_node. */
  class Node {
    const maxMembers: nat
    const index: int
    const records: array<EntryId>
    var numMembers: nat
    var parent: Option<EntryId>

    ghost predicate Valid()
      reads this
    {
      records.Length == maxMembers && numMembers <= maxMembers
    }

    /** The occupied slots, in order. */
    function Members(): (s: seq<EntryId>)
      reads this, records
      requires Valid()
      ensures |s| == numMembers
    {
      records[..numMembers]
    }

    /**
      initialize_rt: an empty node of the given capacity, with no parent entry,
      numbered by the counter, which moves on by one.
     */
    constructor (maxMembers: nat, counter: NodeCounter)
      modifies counter
      ensures Valid() && fresh(records)
      ensures this.maxMembers == maxMembers && Members() == [] && parent == None
      ensures index == old(counter.next) && counter.next == old(counter.next) + 1
    {
      this.maxMembers := maxMembers;
      numMembers := 0;
      records := new EntryId[maxMembers];
      index := counter.next;
      parent := None;
      new;
      counter.next := counter.next + 1;
    }

    /**
      add_member: false, with nothing changed, when the node is full; otherwise
      the entry goes into the first free slot.
     */
    method AddMember(newMember: EntryId) returns (ok: bool)
      requires Valid()
      modifies this`numMembers, records
      ensures Valid()
      ensures ok <==> old(numMembers) < maxMembers
      ensures numMembers == if ok then old(numMembers) + 1 else old(numMembers)
      ensures records[..] == if ok then old(records[..])[old(numMembers) := newMember] else old(records[..])
      ensures Members() == if ok then old(Members()) + [newMember] else old(Members())
    {
      if numMembers == maxMembers {
        return false;
      }
      records[numMembers] := newMember;
      numMembers := numMembers + 1;
      return true;
    }

    /**
      remove_index_record: None, with nothing changed, when the node is empty or
      the position is past the last member; otherwise the member at `position`,
      the later members shifted one slot to the left. The C code does not reject
      a negative position, so it is a precondition here.
     */
    method RemoveIndexRecord(position: int) returns (r: Option<EntryId>)
      requires Valid() && position >= 0
      modifies this`numMembers, records
      ensures Valid()
      ensures r.None? <==> old(numMembers) == 0 || position >= old(numMembers)
      ensures r.None? ==> numMembers == old(numMembers) && records[..] == old(records[..])
      ensures r.Some? ==> r.value == old(Members())[position]
      ensures r.Some? ==> numMembers == old(numMembers) - 1
      ensures r.Some? ==> forall k :: 0 <= k < records.Length ==>
        records[k] == if position <= k < old(numMembers) - 1 then old(records[k + 1]) else old(records[k])
      ensures r.Some? ==> Members() == RemovedAt(old(Members()), position)
    {
      if numMembers == 0 || position >= numMembers {
        return None;
      }
      var ir := records[position];
      var i := position + 1;
      while i < numMembers
        invariant numMembers == old(numMembers) && Valid()
        invariant position + 1 <= i <= numMembers
        invariant forall k :: 0 <= k < records.Length ==>
          records[k] == if position <= k < i - 1 then old(records[k + 1]) else old(records[k])
      {
        records[i - 1] := records[i];
        i := i + 1;
      }
      numMembers := numMembers - 1;
      ghost var removed := RemovedAt(old(Members()), position);
      assert forall k :: 0 <= k < numMembers ==> records[k] == removed[k];
      return Some(ir);
    }

    /**
      move_index_record: false, with nothing changed, for an invalid position;
      otherwise the record leaves r1 and is offered to r2, and the result is
      add_member's, so a full r2 yields false with the record already gone.
     */
    static method MoveIndexRecord(r1: Node, r2: Node, position: int) returns (ok: bool)
      requires r1.Valid() && r2.Valid() && position >= 0
      requires r1 == r2 || r1.records != r2.records
      modifies r1`numMembers, r1.records, r2`numMembers, r2.records
      ensures r1.Valid() && r2.Valid()
      ensures old(r1.numMembers) == 0 || position >= old(r1.numMembers) ==>
        !ok && r1.Members() == old(r1.Members()) && r2.Members() == old(r2.Members())
      ensures 0 <= position < old(r1.numMembers) && r1 != r2 ==>
        && r1.Members() == RemovedAt(old(r1.Members()), position)
        && (ok <==> old(r2.numMembers) < r2.maxMembers)
        && r2.Members() == if ok then old(r2.Members()) + [old(r1.Members())[position]] else old(r2.Members())
      ensures 0 <= position < old(r1.numMembers) && r1 == r2 ==>
        ok && r1.Members() == RemovedAt(old(r1.Members()), position) + [old(r1.Members())[position]]
    {
      var ir := r1.RemoveIndexRecord(position);
      if ir == None {
        return false;
      }
      ok := r2.AddMember(ir.value);
    }
  }
}
