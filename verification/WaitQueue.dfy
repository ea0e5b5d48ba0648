/** The mutex's wait queue: a singly linked list with a tail pointer that refines a sequence. */
module WaitQueue {
  import opened Common

  // s without its first t
  function RemoveFirst(s: seq<nat>, t: nat): (r: seq<nat>)
    ensures t !in s ==> r == s
  {
    if s == [] then []
    else if s[0] == t then s[1..]
    else [s[0]] + RemoveFirst(s[1..], t)
  }

  // where the removed element was
  lemma {:induction false} RemoveFirstAt(s: seq<nat>, t: nat, i: nat)
    requires i < |s| && s[i] == t && t !in s[..i]
    ensures RemoveFirst(s, t) == s[..i] + s[i + 1..]
  {
    if i > 0 {
      assert s[0] in s[..i];
      assert s[1..][..i - 1] == s[..i][1..];
      RemoveFirstAt(s[1..], t, i - 1);
    }
  }

  // without duplicates nothing of t is left, and nothing else goes
  lemma {:induction false} RemoveFirstAll(s: seq<nat>, t: nat)
    requires NoDup(s)
    ensures forall x {:trigger x in RemoveFirst(s, t)} {:trigger x in s} :: x in RemoveFirst(s, t) <==> x in s && x != t
    ensures NoDup(RemoveFirst(s, t))
  {
    if s != [] {
      var r := s[1..];
      assert s == [s[0]] + r;
      assert NoDup(r) && s[0] !in r by {
        assert forall i {:trigger r[i]} :: 0 <= i < |r| ==> r[i] == s[i + 1];
      }
      RemoveFirstAll(r, t);
      if s[0] != t { ConsNoDup(s[0], RemoveFirst(r, t)); }
    }
  }

  lemma ConsNoDup(x: nat, s: seq<nat>)
    requires NoDup(s) && x !in s
    ensures NoDup([x] + s)
  {
    var r := [x] + s;
    forall i, j | 0 <= i < j < |r| ensures r[i] != r[j] {
      assert r[j] == s[j - 1] && (i > 0 ==> r[i] == s[i - 1]);
    }
  }

  class Node {
    const thread: nat
    var next: Node?

    constructor (thread: nat)
      ensures this.thread == thread && next == null
    {
      this.thread := thread;
      next := null;
    }
  }

  function Threads(nodes: seq<Node>): (r: seq<nat>)
    ensures |r| == |nodes| && forall i {:trigger r[i]} :: 0 <= i < |r| ==> r[i] == nodes[i].thread
  {
    seq(|nodes|, i requires 0 <= i < |nodes| => nodes[i].thread)
  }

  lemma ThreadsCut(nodes: seq<Node>, i: nat)
    requires i < |nodes|
    ensures Threads(nodes[..i] + nodes[i + 1..]) == Threads(nodes)[..i] + Threads(nodes)[i + 1..]
  {
  }

  class Queue {
    var head: Node?
    var tail: Node?
    ghost var nodes: seq<Node>

    ghost predicate Valid()
      reads this, nodes
    {
      && (nodes == [] ==> head == null && tail == null)
      && (nodes != [] ==> head == nodes[0] && tail == nodes[|nodes| - 1] && nodes[|nodes| - 1].next == null)
      && (forall i {:trigger nodes[i].next} :: 0 <= i < |nodes| - 1 ==> nodes[i].next == nodes[i + 1])
      && (forall i, j {:trigger nodes[i], nodes[j]} :: 0 <= i < j < |nodes| ==> nodes[i] != nodes[j])
    }

    ghost function Contents(): seq<nat>
      reads this
    {
      Threads(nodes)
    }

    constructor ()
      ensures Valid() && Contents() == []
    {
      head, tail, nodes := null, null, [];
    }

    method AddWaiter(t: nat)
      requires Valid()
      modifies this, nodes
      ensures Valid() && Contents() == old(Contents()) + [t] && fresh(nodes[|old(nodes)|..])
    {
      var node := new Node(t);
      if head == null {
        head, tail := node, node;
      } else {
        tail.next := node;
        tail := node;
      }
      nodes := nodes + [node];
    }

    method WakeupNext() returns (woken: bool, t: nat)
      requires Valid()
      modifies this
      ensures Valid() && (woken <==> old(Contents()) != [])
      ensures if woken then old(Contents()) == [t] + Contents() else Contents() == []
    {
      woken, t := false, 0;
      if head != null {
        woken, t := true, head.thread;
        head := head.next;
        if head == null {
          tail := null;
        }
        nodes := nodes[1..];
      }
    }

    // unlink the node at i, whose predecessor is prev
    method Unlink(curr: Node, prev: Node?, ghost i: nat)
      requires Valid() && i < |nodes| && curr == nodes[i] && prev == if i == 0 then null else nodes[i - 1]
      modifies this, nodes
      ensures Valid() && nodes == old(nodes)[..i] + old(nodes)[i + 1..]
    {
      if prev != null {
        prev.next := curr.next;
      } else {
        head := curr.next;
      }
      if curr == tail {
        tail := prev;
      }
      nodes := nodes[..i] + nodes[i + 1..];
    }

    method RemoveWaiter(t: nat)
      requires Valid()
      modifies this, nodes
      ensures Valid() && Contents() == RemoveFirst(old(Contents()), t)
    {
      ghost var before := Contents();
      var curr, prev, i := Find(t);
      if curr != null {
        assert before[i] == nodes[i].thread;
        RemoveFirstAt(before, t, i);
        ThreadsCut(nodes, i);
        Unlink(curr, prev, i);
      }
    }

    // the first node of t and its predecessor
    method Find(t: nat) returns (curr: Node?, prev: Node?, ghost i: nat)
      requires Valid()
      ensures i <= |nodes| && curr == (if i < |nodes| then nodes[i] else null) && prev == (if i == 0 then null else nodes[i - 1])
      ensures t !in Contents()[..i] && (if i < |nodes| then nodes[i].thread == t else t !in Contents())
    {
      curr, prev, i := head, null, 0;
      ghost var before := Contents();
      while curr != null
        invariant i <= |nodes| && curr == (if i < |nodes| then nodes[i] else null) && prev == (if i == 0 then null else nodes[i - 1])
        invariant t !in before[..i]
        decreases |nodes| - i
      {
        assert curr == nodes[i] && before[i] == curr.thread;
        if curr.thread == t {
          return;
        }
        assert before[..i + 1] == before[..i] + [curr.thread];
        prev := curr;
        curr := curr.next;
        i := i + 1;
      }
      assert before[..i] == before;
    }
  }
}
