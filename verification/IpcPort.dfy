/**
 A message port: a ring buffer of 32 slots.  Each call is one critical section of the port's lock;
 a caller that has to block is put on a list and comes back with a new call.
 */
module IpcPort {
  import T = PortTable

  const CAPACITY := 32
  const MAX_DATA := 256

  datatype Message = Message(pid: nat, data: seq<bv8>)

  datatype SendResult = TooLong | SendBlocked | Sent
  datatype ReceiveResult = ReceiveBlocked | Woken | Received(bytes: seq<bv8>)

  function Slot(head: nat, i: nat): (k: nat)
    ensures k < CAPACITY
  {
    (head + i) % CAPACITY
  }

  lemma SlotNext(head: nat, i: nat)
    ensures Slot(Slot(head, 1), i) == Slot(head, i + 1)
  {
  }

  lemma SlotAfter(head: nat, i: nat)
    ensures (Slot(head, i) + 1) % CAPACITY == Slot(head, i + 1)
  {
  }

  lemma SlotDistinct(head: nat, i: nat, j: nat)
    requires i < j < CAPACITY
    ensures Slot(head, i) != Slot(head, j)
  {
  }

  // count messages from slot head on, around the end of the buffer
  function Cells(buffer: seq<Message>, head: nat, count: nat): (r: seq<Message>)
    requires |buffer| == CAPACITY
    ensures |r| == count && forall i {:trigger r[i]} :: 0 <= i < count ==> r[i] == buffer[Slot(head, i)]
  {
    seq(count, i requires 0 <= i < count => buffer[Slot(head, i)])
  }

  lemma CellsAppend(buffer: seq<Message>, head: nat, count: nat, m: Message)
    requires |buffer| == CAPACITY && count < CAPACITY
    ensures Cells(buffer[Slot(head, count) := m], head, count + 1) == Cells(buffer, head, count) + [m]
  {
    var l, r := Cells(buffer[Slot(head, count) := m], head, count + 1), Cells(buffer, head, count) + [m];
    forall i | 0 <= i < count + 1 ensures l[i] == r[i] {
      if i < count { SlotDistinct(head, i, count); }
    }
  }

  lemma CellsDrop(buffer: seq<Message>, head: nat, count: nat)
    requires |buffer| == CAPACITY && 0 < count
    ensures Cells(buffer, Slot(head, 1), count - 1) == Cells(buffer, head, count)[1..]
  {
    var l, r := Cells(buffer, Slot(head, 1), count - 1), Cells(buffer, head, count)[1..];
    forall i | 0 <= i < count - 1 ensures l[i] == r[i] {
      SlotNext(head, i);
    }
  }

  // the port manager finds a port behind the bare index of slot i, which is the handle of generation 0
  predicate FoundValid(ports: T.Ports, i: nat)
  {
    T.Resolve(ports, i).Some?
  }

  class Port {
    // the index of the port's slot
    const id: nat
    const messages: array<Message>
    var head: nat
    var tail: nat
    var count: nat
    // blocked threads, longest waiting first
    var receivers: seq<nat>
    var senders: seq<nat>
    // accepted and received since the last close
    ghost var accepted: seq<Message>
    ghost var received: seq<Message>

    ghost predicate Ring()
      reads this
    {
      messages.Length == CAPACITY && head < CAPACITY && count <= CAPACITY && tail == Slot(head, count)
    }

    // the messages that wait, oldest first
    ghost function Queue(): seq<Message>
      requires Ring()
      reads this, messages
    {
      Cells(messages[..], head, count)
    }

    ghost predicate Valid()
      reads this, messages
    {
      Ring() && accepted == received + Queue()
    }

    constructor (index: nat)
      ensures fresh(messages) && id == index && Valid() && Queue() == [] && receivers == [] && senders == [] && accepted == []
    {
      id := index;
      messages := new Message[CAPACITY](_ => Message(0, []));
      head, tail, count, receivers, senders, accepted, received := 0, 0, 0, [], [], [], [];
    }

    method Send(sender: nat, pid: nat, data: seq<bv8>) returns (r: SendResult)
      requires Valid()
      modifies this, messages
      ensures Valid() && received == old(received)
      ensures r == if |data| > MAX_DATA then TooLong else if |old(Queue())| == CAPACITY then SendBlocked else Sent
      ensures Queue() == if r == Sent then old(Queue()) + [Message(pid, data)] else old(Queue())
      ensures senders == if r == SendBlocked then old(senders) + [sender] else old(senders)
      ensures receivers == if r == Sent && old(receivers) != [] then old(receivers)[1..] else old(receivers)
    {
      if |data| > MAX_DATA {
        return TooLong;
      }
      if count >= CAPACITY {
        senders := senders + [sender];
        return SendBlocked;
      }
      CellsAppend(messages[..], head, count, Message(pid, data));
      SlotAfter(head, count);
      messages[tail] := Message(pid, data);
      tail := (tail + 1) % CAPACITY;
      count := count + 1;
      accepted := accepted + [Message(pid, data)];
      if receivers != [] {
        receivers := receivers[1..];
      }
      return Sent;
    }

    method TakeFirst() returns (msg: Message)
      requires Valid() && 0 < count
      modifies this`head, this`count, this`received
      ensures Valid() && msg == old(Queue())[0] && Queue() == old(Queue())[1..] && received == old(received) + [msg]
    {
      CellsDrop(messages[..], head, count);
      SlotNext(head, count - 1);
      assert Slot(head, 0) == head;
      msg := messages[head];
      received := received + [msg];
      head := (head + 1) % CAPACITY;
      count := count - 1;
    }

    // a first call, or one that comes back after a wake-up whose validity test answered false
    method Receive(receiver: nat, maxLen: nat) returns (r: ReceiveResult)
      requires Valid()
      modifies this
      ensures Valid() && accepted == old(accepted)
      ensures if old(Queue()) == [] then r == ReceiveBlocked && Queue() == [] && receivers == old(receivers) + [receiver] && senders == old(senders)
        else
          && Queue() == old(Queue())[1..] && received == old(received) + [old(Queue())[0]]
          && r == Received(Prefix(old(Queue())[0].data, maxLen))
          && receivers == old(receivers) && senders == if old(senders) == [] then [] else old(senders)[1..]
    {
      if count == 0 {
        receivers := receivers + [receiver];
        return ReceiveBlocked;
      }
      var msg := TakeFirst();
      if senders != [] {
        senders := senders[1..];
      }
      return Received(Prefix(msg.data, maxLen));
    }

    // a receiver that wakes up: while the port lives, it leaves with nothing iff the slot's generation is 0
    method ResumeReceive(receiver: nat, maxLen: nat, ports: T.Ports) returns (r: ReceiveResult)
      requires Valid()
      modifies this
      ensures Valid() && accepted == old(accepted)
      ensures id < T.WORD32 && id < |ports.table| && ports.table[id].port.Some? ==> (r == Woken <==> ports.table[id].generation == 0)
      ensures r == Woken <==> FoundValid(ports, id)
      ensures r == Woken ==> Queue() == old(Queue()) && received == old(received) && receivers == old(receivers) && senders == old(senders)
      ensures r != Woken && old(Queue()) == [] ==>
        r == ReceiveBlocked && Queue() == [] && receivers == old(receivers) + [receiver] && senders == old(senders)
      ensures r != Woken && old(Queue()) != [] ==>
        && r == Received(Prefix(old(Queue())[0].data, maxLen))
        && Queue() == old(Queue())[1..] && received == old(received) + [old(Queue())[0]]
        && receivers == old(receivers) && senders == if old(senders) == [] then [] else old(senders)[1..]
    {
      if T.Resolve(ports, id).Some? {
        return Woken;
      }
      r := Receive(receiver, maxLen);
    }

    method WakeReceivers() returns (woken: seq<nat>)
      modifies this`receivers
      ensures woken == old(receivers) && receivers == []
    {
      woken := [];
      while receivers != []
        invariant woken + receivers == old(receivers)
        decreases |receivers|
      {
        woken := woken + [receivers[0]];
        receivers := receivers[1..];
      }
    }

    method WakeSenders() returns (woken: seq<nat>)
      modifies this`senders
      ensures woken == old(senders) && senders == []
    {
      woken := [];
      while senders != []
        invariant woken + senders == old(senders)
        decreases |senders|
      {
        woken := woken + [senders[0]];
        senders := senders[1..];
      }
    }

    method Close() returns (woken: seq<nat>)
      requires Valid()
      modifies this
      ensures Valid() && Queue() == [] && accepted == [] && received == []
      ensures woken == old(receivers) + old(senders) && receivers == [] && senders == []
    {
      var first := WakeReceivers();
      var rest := WakeSenders();
      woken := first + rest;
      head, tail, count := 0, 0, 0;
      accepted, received := [], [];
    }
  }

  function Prefix(s: seq<bv8>, n: nat): (r: seq<bv8>)
    ensures r <= s && |r| == if |s| < n then |s| else n
  {
    if |s| < n then s else s[..n]
  }

  // ---------- what a wake-up finds, in every run of the port manager ----------

  // a receiver that a message wakes leaves without it iff the handle of its port is a bare index
  lemma WokenByMessage(states: seq<T.State>, calls: seq<T.Call>, i: nat, h: nat)
    requires T.IsRun(states, calls) && i < |states| && h in states[i].issued && T.Current(states[i].ports, h)
    ensures FoundValid(states[i].ports, T.IndexOf(h)) <==> h == T.IndexOf(h)
  {
    T.RunInv(states, calls, i);
    assert T.IssuedOk(states[i], h);
    T.PartsHandle(h);
    T.HandleParts(0, T.IndexOf(h));
  }

  // a receiver that the end of its port wakes never finds the slot valid: it goes back to the port that is gone
  lemma {:induction false} WokenByClose(states: seq<T.State>, calls: seq<T.Call>, i: nat, j: nat)
    requires T.IsRun(states, calls) && i < j < |states| && calls[i].Destroy? && T.Current(states[i].ports, calls[i].handle)
    ensures var k := T.IndexOf(calls[i].handle); k < |states[j].ports.table| && states[j].ports.table[k].generation > 0
    ensures !FoundValid(states[j].ports, T.IndexOf(calls[i].handle))
    decreases j
  {
    var k := T.IndexOf(calls[i].handle);
    T.RunInv(states, calls, j - 1);
    T.HandleParts(0, k);
    if j > i + 1 {
      WokenByClose(states, calls, i, j - 1);
      GenerationGrows(states[j - 1], calls[j - 1], k);
    }
  }

  lemma GenerationGrows(s: T.State, c: T.Call, k: nat)
    requires T.Inv(s) && T.Enabled(s, c) && k < |s.ports.table|
    ensures k < |T.Next(s, c).ports.table| && s.ports.table[k].generation <= T.Next(s, c).ports.table[k].generation
  {
  }

  // a message comes while the receiver waits: on the first port it leaves without it, on the next port of that slot with it
  method WakeTwice() returns (first: ReceiveResult, p: Port, reused: ReceiveResult, q: Port)
    ensures first == Woken && p.Valid() && p.Queue() == [Message(1, [7])]
    ensures reused == Received([7]) && q.Valid() && q.Queue() == []
  {
    first, p := WakeIn(T.Created(T.Ports([], [], 0)), [7]);
    reused, q := WakeIn(T.Created(T.OneGone), [7]);
  }

  // a port of slot 0 on which receiver 5 was blocked when a message came
  method Waited(data: seq<bv8>) returns (port: Port)
    requires |data| <= MAX_DATA
    ensures fresh(port) && fresh(port.messages) && port.Valid() && port.id == 0 && port.Queue() == [Message(1, data)]
  {
    port := new Port(0);
    var r := port.Receive(5, |data|);
    var sent := port.Send(6, 1, data);
  }

  method WakeIn(ports: T.Ports, data: seq<bv8>) returns (r: ReceiveResult, port: Port)
    requires |ports.table| == 1 && ports.table[0].port.Some? && |data| <= MAX_DATA
    ensures fresh(port) && fresh(port.messages) && port.Valid() && port.id == 0
    ensures if ports.table[0].generation == 0 then r == Woken && port.Queue() == [Message(1, data)]
      else r == Received(data) && port.Queue() == []
  {
    port := Waited(data);
    r := port.ResumeReceive(5, |data|, ports);
  }
}
