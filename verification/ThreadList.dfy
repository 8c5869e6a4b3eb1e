/** Lists of threads: doubly linked, with a sentinel at each end and an element count. */
module ThreadList {

  /** A list node.  `owner` is the thread it is part of, or -1 for a sentinel. */
  class Node {
    var prev: Node?
    var next: Node?
    const owner: int

    constructor (thread: int)
      ensures prev == next == null && owner == thread
    {
      prev, next, owner := null, null, thread;
    }
  }

  /** `all` is the chain of nodes, both sentinels included: each one's neighbours are those in the sequence. */
  ghost predicate Chain(all: seq<Node>)
    reads all
  {
    && (forall i, j :: 0 <= i < j < |all| ==> all[i] != all[j])
    && (forall i {:trigger all[i].next} :: 0 <= i < |all| ==> all[i].next == if i + 1 < |all| then all[i + 1] else null)
    && (forall i {:trigger all[i].prev} :: 0 <= i < |all| ==> all[i].prev == if i > 0 then all[i - 1] else null)
  }

  /** `threadlist_insertafternode`: `addee` goes behind the node at `k`. */
  method InsertAfterNode(onlist: Node, addee: Node, ghost all: seq<Node>, ghost k: nat)
    requires Chain(all) && k + 1 < |all| && all[k] == onlist && addee !in all
    requires addee.prev == addee.next == null
    modifies all, addee
    ensures Chain(all[..k + 1] + [addee] + all[k + 1..])
  {
    assert onlist.next == all[k + 1];
    addee.prev := onlist;
    addee.next := onlist.next;
    addee.prev.next := addee;
    addee.next.prev := addee;
    Inserted(all, addee, k);
  }

  /** `threadlist_insertbeforenode`: `addee` goes in front of the node at `k + 1`. */
  method InsertBeforeNode(addee: Node, onlist: Node, ghost all: seq<Node>, ghost k: nat)
    requires Chain(all) && k + 1 < |all| && all[k + 1] == onlist && addee !in all
    requires addee.prev == addee.next == null
    modifies all, addee
    ensures Chain(all[..k + 1] + [addee] + all[k + 1..])
  {
    assert onlist.prev == all[k];
    addee.prev := onlist.prev;
    addee.next := onlist;
    addee.prev.next := addee;
    addee.next.prev := addee;
    Inserted(all, addee, k);
  }

  lemma {:induction false} Inserted(all: seq<Node>, addee: Node, k: nat)
    requires k + 1 < |all| && addee !in all
    requires forall i, j :: 0 <= i < j < |all| ==> all[i] != all[j]
    requires addee.prev == all[k] && addee.next == all[k + 1] && all[k].next == addee && all[k + 1].prev == addee
    requires forall i {:trigger all[i].next} :: 0 <= i < |all| && i != k ==> all[i].next == if i + 1 < |all| then all[i + 1] else null
    requires forall i {:trigger all[i].prev} :: 0 <= i < |all| && i != k + 1 ==> all[i].prev == if i > 0 then all[i - 1] else null
    ensures Chain(all[..k + 1] + [addee] + all[k + 1..])
  {
    var all' := all[..k + 1] + [addee] + all[k + 1..];
    forall i | 0 <= i < |all'|
      ensures all'[i].next == if i + 1 < |all'| then all'[i + 1] else null
      ensures all'[i].prev == if i > 0 then all'[i - 1] else null
    {
      assert all'[i] == if i <= k then all[i] else if i == k + 1 then addee else all[i - 1];
    }
  }

  /** `threadlist_removenode`. */
  method RemoveNode(node: Node, ghost all: seq<Node>, ghost k: nat)
    requires Chain(all) && 0 < k < |all| - 1 && all[k] == node
    modifies all
    ensures Chain(all[..k] + all[k + 1..]) && node.prev == node.next == null
  {
    assert node.prev == all[k - 1] && node.next == all[k + 1];
    node.prev.next := node.next;
    node.next.prev := node.prev;
    node.prev := null;
    node.next := null;
    Removed(all, k);
  }

  lemma {:induction false} Removed(all: seq<Node>, k: nat)
    requires 0 < k < |all| - 1
    requires forall i, j :: 0 <= i < j < |all| ==> all[i] != all[j]
    requires all[k - 1].next == all[k + 1] && all[k + 1].prev == all[k - 1]
    requires forall i {:trigger all[i].next} :: 0 <= i < |all| && i != k && i != k - 1 ==> all[i].next == if i + 1 < |all| then all[i + 1] else null
    requires forall i {:trigger all[i].prev} :: 0 <= i < |all| && i != k && i != k + 1 ==> all[i].prev == if i > 0 then all[i - 1] else null
    ensures Chain(all[..k] + all[k + 1..])
  {
    var all' := all[..k] + all[k + 1..];
    forall i | 0 <= i < |all'|
      ensures all'[i].next == if i + 1 < |all'| then all'[i + 1] else null
      ensures all'[i].prev == if i > 0 then all'[i - 1] else null
    {
      assert all'[i] == if i < k then all[i] else all[i + 1];
    }
  }

  class List {
    const head: Node
    const tail: Node
    var count: int
    /** The nodes on the list, without the sentinels. */
    ghost var nodes: seq<Node>

    ghost function All(): seq<Node>
      reads this
    {
      [head] + nodes + [tail]
    }

    ghost predicate Valid()
      reads this, All()
    {
      && Chain(All())
      && count == |nodes|
      && head.owner == tail.owner == -1
      && forall i :: 0 <= i < |nodes| ==> nodes[i].owner >= 0
    }

    /** `threadlist_init`. */
    constructor ()
      ensures Valid() && nodes == [] && fresh(head) && fresh(tail)
    {
      head := new Node(-1);
      tail := new Node(-1);
      count := 0;
      nodes := [];
      new;
      head.next := tail;
      tail.prev := head;
    }

    /** `threadlist_isempty`. */
    method IsEmpty() returns (r: bool)
      requires Valid()
      ensures r <==> nodes == []
    {
      r := count == 0;
    }

    method AddHead(t: Node)
      requires Valid() && t.owner >= 0 && t !in All() && t.prev == t.next == null
      modifies this, All(), t
      ensures Valid() && nodes == [t] + old(nodes)
    {
      hide Chain;
      ghost var all := All();
      InsertAfterNode(head, t, all, 0);
      count := count + 1;
      nodes := [t] + nodes;
      assert All() == all[..1] + [t] + all[1..];
    }

    method AddTail(t: Node)
      requires Valid() && t.owner >= 0 && t !in All() && t.prev == t.next == null
      modifies this, All(), t
      ensures Valid() && nodes == old(nodes) + [t]
    {
      hide Chain;
      ghost var all := All();
      InsertBeforeNode(t, tail, all, |nodes|);
      count := count + 1;
      nodes := nodes + [t];
      assert All() == all[..|nodes|] + [t] + all[|nodes|..];
    }

    /** The first node, off the list, or null when the list is empty. */
    method RemHead() returns (t: Node?)
      requires Valid()
      modifies this, All()
      ensures Valid()
      ensures old(nodes) == [] ==> t == null && nodes == []
      ensures old(nodes) != [] ==> t == old(nodes)[0] && nodes == old(nodes)[1..] && t.prev == t.next == null
    {
      ghost var all := All();
      assert all[0].next == all[1] && all[1].next == if 2 < |all| then all[2] else null;
      t := head.next;
      hide Chain;
      if t.next == null {
        return null;
      }
      RemoveNode(t, all, 1);
      count := count - 1;
      nodes := nodes[1..];
      assert All() == all[..1] + all[2..];
    }

    /** The last node, off the list, or null when the list is empty. */
    method RemTail() returns (t: Node?)
      requires Valid()
      modifies this, All()
      ensures Valid()
      ensures old(nodes) == [] ==> t == null && nodes == []
      ensures old(nodes) != [] ==> t == old(nodes)[|old(nodes)| - 1] && nodes == old(nodes)[..|old(nodes)| - 1] && t.prev == t.next == null
    {
      ghost var all := All();
      ghost var k := |all| - 2;
      assert all[k + 1].prev == all[k] && all[k].prev == if k > 0 then all[k - 1] else null;
      t := tail.prev;
      hide Chain;
      if t.prev == null {
        return null;
      }
      RemoveNode(t, all, k);
      count := count - 1;
      nodes := nodes[..|nodes| - 1];
      assert All() == all[..k] + all[k + 1..];
    }

    /** `threadlist_insertafter`. */
    method InsertAfter(onlist: Node, addee: Node, ghost k: nat)
      requires Valid() && k < |nodes| && nodes[k] == onlist && addee.owner >= 0 && addee !in All() && addee.prev == addee.next == null
      modifies this, All(), addee
      ensures Valid() && nodes == old(nodes)[..k + 1] + [addee] + old(nodes)[k + 1..]
    {
      hide Chain;
      ghost var all := All();
      assert all[k + 1] == onlist;
      InsertAfterNode(onlist, addee, all, k + 1);
      count := count + 1;
      nodes := nodes[..k + 1] + [addee] + nodes[k + 1..];
      assert All() == all[..k + 2] + [addee] + all[k + 2..];
    }

    /** `threadlist_insertbefore`. */
    method InsertBefore(addee: Node, onlist: Node, ghost k: nat)
      requires Valid() && k < |nodes| && nodes[k] == onlist && addee.owner >= 0 && addee !in All() && addee.prev == addee.next == null
      modifies this, All(), addee
      ensures Valid() && nodes == old(nodes)[..k] + [addee] + old(nodes)[k..]
    {
      hide Chain;
      ghost var all := All();
      assert all[k + 1] == onlist;
      InsertBeforeNode(addee, onlist, all, k);
      count := count + 1;
      nodes := nodes[..k] + [addee] + nodes[k..];
      assert All() == all[..k + 1] + [addee] + all[k + 1..];
    }

    /** `threadlist_remove`. */
    method Remove(t: Node, ghost k: nat)
      requires Valid() && k < |nodes| && nodes[k] == t
      modifies this, All()
      ensures Valid() && nodes == old(nodes)[..k] + old(nodes)[k + 1..] && t.prev == t.next == null
    {
      hide Chain;
      ghost var all := All();
      assert all[k + 1] == t;
      RemoveNode(t, all, k + 1);
      count := count - 1;
      nodes := nodes[..k] + nodes[k + 1..];
      assert All() == all[..k + 1] + all[k + 2..];
    }
  }
}
