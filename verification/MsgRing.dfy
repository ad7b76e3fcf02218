// The inter-task message queue (task_backend_custom.cpp): a 16-slot ring with
// filtered removal, as a value first and then in place.
module MsgRing {
  import opened Arith
  import opened Errors

  const SIZE := 16
  const BROADCAST := 0xFF

  datatype Message = Message(src: Byte, dst: Byte, kind: Byte, flags: Byte, data: Cell)

  datatype Ring = Ring(slots: seq<Message>, read: nat, write: nat, count: nat)

  predicate WellFormed(r: Ring)
  {
    |r.slots| == SIZE && r.read < SIZE && r.write < SIZE && r.count <= SIZE
  }

  const NO_MESSAGE := Message(0, 0, 0, 0, 0)

  /** The queue after task init: all zero. */
  function Empty(): (r: Ring)
    ensures WellFormed(r) && r.read == r.write == r.count == 0
  {
    Ring(seq(SIZE, _ => NO_MESSAGE), 0, 0, 0)
  }

  /** The slot i places after base in the ring. */
  function Slot(base: nat, i: nat): (p: nat)
    requires base < SIZE && i <= SIZE
    ensures p == if base + i < SIZE then base + i else base + i - SIZE
  {
    (base + i) % SIZE
  }

  /** How many places slot p is after base. */
  function Offset(base: nat, p: nat): (i: nat)
    requires base < SIZE && p < SIZE
    ensures i == if base <= p then p - base else p + SIZE - base
  {
    (p - base) % SIZE
  }

  /** The pending messages, oldest first. */
  function View(r: Ring): (v: seq<Message>)
    requires WellFormed(r)
    ensures |v| == r.count
  {
    seq(r.count, i requires 0 <= i < r.count => r.slots[Slot(r.read, i)])
  }

  /** Whether `task`, asking for `kind` (0 for any), may take the message. */
  predicate Matches(m: Message, task: Byte, kind: Byte)
  {
    (m.dst == task || m.dst == BROADCAST) && (kind == 0 || m.kind == kind)
  }

  function FirstMatch(q: seq<Message>, task: Byte, kind: Byte): (k: Option<nat>)
    ensures k.Some? ==> k.value < |q| && Matches(q[k.value], task, kind)
    ensures k.Some? ==> forall i :: 0 <= i < k.value ==> !Matches(q[i], task, kind)
    ensures k.None? ==> forall i :: 0 <= i < |q| ==> !Matches(q[i], task, kind)
  {
    if q == [] then None
    else if Matches(q[0], task, kind) then Some(0)
    else
      assert forall i :: 1 <= i < |q| ==> q[i] == q[1..][i - 1];
      match FirstMatch(q[1..], task, kind)
      case None => None
      case Some(k) => Some(k + 1)
  }

  lemma FirstMatchIs(q: seq<Message>, task: Byte, kind: Byte, k: nat)
    requires k < |q| && Matches(q[k], task, kind) && forall i :: 0 <= i < k ==> !Matches(q[i], task, kind)
    ensures FirstMatch(q, task, kind) == Some(k)
  {
    hide Matches;
  }

  lemma NoMatch(q: seq<Message>, task: Byte, kind: Byte)
    requires forall i :: 0 <= i < |q| ==> !Matches(q[i], task, kind)
    ensures FirstMatch(q, task, kind) == None
  {
    hide Matches;
  }

  function ValidTarget(dst: Byte): bool { dst < MAX_TASKS || dst == BROADCAST }

  /** A send that writes to the given slot. */
  function SendTo(r: Ring, slot: nat, m: Message): (int, Ring)
    requires WellFormed(r) && slot < SIZE
  {
    if !ValidTarget(m.dst) then (INVALID_ARG, r)
    else if r.count >= SIZE then (MSG_QUEUE_FULL, r)
    else (OK, Ring(r.slots[slot := m], r.read, Slot(r.write, 1), r.count + 1))
  }

  /** v4_backend_task_send. */
  function Send(r: Ring, m: Message): (int, Ring)
    requires WellFormed(r)
  {
    SendTo(r, r.write, m)
  }

  /** The repaired send: NOT the code. It writes just after the last pending
      message instead of at write_idx. */
  function SendRepaired(r: Ring, m: Message): (int, Ring)
    requires WellFormed(r)
  {
    SendTo(r, Slot(r.read, r.count), m)
  }

  /** Pending message k is taken out by moving the later ones one slot down;
      neither index moves. */
  function Remove(r: Ring, k: nat): (r': Ring)
    requires WellFormed(r) && k < r.count
    ensures r' == Ring(r'.slots, r.read, r.write, r.count - 1)
  {
    var slots := seq(SIZE, p requires 0 <= p < SIZE =>
      if k <= Offset(r.read, p) < r.count - 1 then r.slots[Slot(p, 1)] else r.slots[p]);
    r.(slots := slots, count := r.count - 1)
  }

  /** v4_backend_task_receive. */
  function Receive(r: Ring, task: Byte, kind: Byte): (Option<Message>, Ring)
    requires WellFormed(r)
  {
    match FirstMatch(View(r), task, kind)
    case None => (None, r)
    case Some(k) => (Some(View(r)[k]), Remove(r, k))
  }

  function RemoveAt(q: seq<Message>, k: nat): seq<Message>
    requires k < |q|
  {
    q[..k] + q[k + 1..]
  }

  /** Receive takes out exactly the first matching message and keeps the order
      of the rest. */
  lemma RemoveView(r: Ring, k: nat)
    requires WellFormed(r) && k < r.count
    ensures WellFormed(Remove(r, k))
    ensures View(Remove(r, k)) == RemoveAt(View(r), k)
  {
    var r' := Remove(r, k);
    forall i | 0 <= i < r.count - 1
      ensures View(r')[i] == RemoveAt(View(r), k)[i]
    {
      var p := Slot(r.read, i);
      assert Offset(r.read, p) == i && Slot(p, 1) == Slot(r.read, i + 1);
    }
  }

  // ------------------------------------------------------------ send

  predicate InStep(r: Ring)
    requires WellFormed(r)
  {
    r.write == Slot(r.read, r.count)
  }

  /** A send at the slot after the last pending message appends. */
  lemma AppendView(r: Ring, slot: nat, m: Message)
    requires WellFormed(r) && r.count < SIZE && ValidTarget(m.dst) && slot == Slot(r.read, r.count)
    ensures WellFormed(SendTo(r, slot, m).1)
    ensures View(SendTo(r, slot, m).1) == View(r) + [m]
  {
    var v := View(SendTo(r, slot, m).1);
    forall i | 0 <= i <= r.count
      ensures v[i] == (View(r) + [m])[i]
    {
      assert Slot(r.read, i) == slot <==> i == r.count;
    }
  }

  /** What a send does when write_idx is not the slot after the pending
      messages but e slots after read_idx: that next slot joins the queue with
      whatever it held, and the new message stays outside the queue, or replaces
      pending message e. */
  lemma SendOutOfStep(r: Ring, m: Message)
    requires WellFormed(r) && r.count < SIZE && ValidTarget(m.dst) && !InStep(r)
    ensures var v, stale, e := View(r), r.slots[Slot(r.read, r.count)], Offset(r.read, r.write);
      View(Send(r, m).1) == if e > r.count then v + [stale] else v[e := m] + [stale]
  {
    var e := Offset(r.read, r.write);
    var v := View(Send(r, m).1);
    var expected := (if e > r.count then View(r) else View(r)[e := m]) + [r.slots[Slot(r.read, r.count)]];
    forall i | 0 <= i <= r.count
      ensures v[i] == expected[i]
    {
      assert Slot(r.read, i) == r.write <==> i == e;
    }
  }

  /** Send appends every message exactly when write_idx is the slot after the
      last pending one. */
  lemma SendAppendsIff(r: Ring)
    requires WellFormed(r) && r.count < SIZE
    ensures (forall m: Message :: ValidTarget(m.dst) ==> View(Send(r, m).1) == View(r) + [m]) <==> InStep(r)
  {
    if InStep(r) {
      forall m: Message | ValidTarget(m.dst)
        ensures View(Send(r, m).1) == View(r) + [m]
      {
        AppendView(r, r.write, m);
      }
    } else {
      var stale := r.slots[Slot(r.read, r.count)];
      var m := Message(0, 0, 0, 0, if stale.data == 0 then 1 else 0);
      SendOutOfStep(r, m);
      assert View(Send(r, m).1)[r.count] == stale;
      assert (View(r) + [m])[r.count] == m;
    }
  }

  // ------------------------------------------------------------ histories

  datatype Event =
    | Sent(src: Byte, to: Byte, what: Byte, payload: Cell)
    | Asked(task: Byte, kind: Byte)

  datatype Answer = Status(err: int) | Got(m: Option<Message>)

  function Outgoing(e: Event): Message
    requires e.Sent?
  {
    Message(e.src, e.to, e.what, 0, e.payload)
  }

  function RingStep(repaired: bool, r: Ring, e: Event): (Answer, Ring)
    requires WellFormed(r)
  {
    match e
    case Sent(_, _, _, _) =>
      var (err, r') := if repaired then SendRepaired(r, Outgoing(e)) else Send(r, Outgoing(e));
      (Status(err), r')
    case Asked(task, kind) =>
      var (m, r') := Receive(r, task, kind);
      (Got(m), r')
  }

  /** The answers and the ring after a history, with the given send. */
  ghost function Play(repaired: bool, h: seq<Event>): (o: (seq<Answer>, Ring))
    ensures WellFormed(o.1) && |o.0| == |h|
  {
    if h == [] then ([], Empty())
    else
      var (answers, r) := Play(repaired, h[..|h| - 1]);
      var (a, r') := RingStep(repaired, r, h[|h| - 1]);
      (answers + [a], r')
  }

  /** The bounded filtered FIFO the queue is meant to be. */
  function FifoStep(q: seq<Message>, e: Event): (Answer, seq<Message>)
  {
    match e
    case Sent(_, to, _, _) =>
      if !ValidTarget(to) then (Status(INVALID_ARG), q)
      else if |q| >= SIZE then (Status(MSG_QUEUE_FULL), q)
      else (Status(OK), q + [Outgoing(e)])
    case Asked(task, kind) =>
      match FirstMatch(q, task, kind)
      case None => (Got(None), q)
      case Some(k) => (Got(Some(q[k])), RemoveAt(q, k))
  }

  ghost function Fifo(h: seq<Event>): (o: (seq<Answer>, seq<Message>))
    ensures |o.0| == |h|
  {
    if h == [] then ([], [])
    else
      var (answers, q) := Fifo(h[..|h| - 1]);
      var (a, q') := FifoStep(q, h[|h| - 1]);
      (answers + [a], q')
  }

  /** Receives that found a message. */
  ghost function Received(answers: seq<Answer>): nat
  {
    if answers == [] then 0
    else
      var a := answers[|answers| - 1];
      Received(answers[..|answers| - 1]) + if a.Got? && a.m.Some? then 1 else 0
  }

  /** Over every history of the code read_idx stays 0, and write_idx runs ahead of the end of the
      pending messages by the number of successful receives. */
  lemma {:induction false} WriteIndexHistory(h: seq<Event>)
    ensures var (answers, r) := Play(false, h);
      r.read == 0 && r.write == (r.count + Received(answers)) % SIZE
    decreases |h|
  {
    hide RingStep;
    if h != [] {
      WriteIndexHistory(h[..|h| - 1]);
      var (before, r) := Play(false, h[..|h| - 1]);
      var (after, _) := Play(false, h);
      assert after[..|after| - 1] == before;
      StepIndices(false, r, h[|h| - 1]);
      ModNext(r.count + Received(before));
    }
  }

  lemma ModNext(x: nat)
    ensures (x % SIZE + 1) % SIZE == (x + 1) % SIZE
  {}

  /** An accepted send advances write_idx and count together; a successful
      receive lowers count alone. */
  lemma StepIndices(repaired: bool, r: Ring, e: Event)
    requires WellFormed(r)
    ensures var (a, r') := RingStep(repaired, r, e);
      && r'.read == r.read
      && (a == Status(OK) ==> r'.write == (r.write + 1) % SIZE && r'.count == r.count + 1)
      && (a.Got? && a.m.Some? ==> r'.write == r.write && r'.count == r.count - 1)
      && (a != Status(OK) && !(a.Got? && a.m.Some?) ==> r' == r)
  {
    hide View;
  }

  /** Every send of the history that is accepted comes after a number of
      successful receives divisible by 16. */
  ghost predicate SendsInStep(h: seq<Event>)
  {
    h != [] ==>
      var (answers, r) := Play(false, h[..|h| - 1]);
      && SendsInStep(h[..|h| - 1])
      && (h[|h| - 1].Sent? && Send(r, Outgoing(h[|h| - 1])).0 == OK ==> Received(answers) % SIZE == 0)
  }

  /** A ring and a FIFO with the same pending messages answer alike, and still
      have the same pending messages afterwards. */
  lemma StepRefines(repaired: bool, r: Ring, e: Event)
    requires WellFormed(r)
    requires repaired || (e.Sent? && Send(r, Outgoing(e)).0 == OK ==> InStep(r))
    ensures var ((a, r'), (b, q)) := (RingStep(repaired, r, e), FifoStep(View(r), e));
      a == b && WellFormed(r') && View(r') == q
  {
    hide View, Remove;
    match e
    case Sent(_, to, _, _) =>
      if ValidTarget(to) && r.count < SIZE { AppendView(r, Slot(r.read, r.count), Outgoing(e)); }
    case Asked(task, kind) =>
      var k := FirstMatch(View(r), task, kind);
      if k.Some? { RemoveView(r, k.value); }
  }

  /** With the repaired send every history behaves as the bounded FIFO; with the
      code's send every history does whose sends are in step. */
  lemma {:induction false} RingRefinesFifo(repaired: bool, h: seq<Event>)
    requires repaired || SendsInStep(h)
    ensures Play(repaired, h).0 == Fifo(h).0
    ensures View(Play(repaired, h).1) == Fifo(h).1
    decreases |h|
  {
    hide View, RingStep, FifoStep;
    if h == [] {
      assert View(Empty()) == [];
    } else {
      RingRefinesFifo(repaired, h[..|h| - 1]);
      var (answers, r) := Play(repaired, h[..|h| - 1]);
      if !repaired { WriteIndexHistory(h[..|h| - 1]); }
      StepRefines(repaired, r, h[|h| - 1]);
    }
  }

  lemma PlaySnoc(repaired: bool, h: seq<Event>, e: Event)
    ensures var (a, r) := RingStep(repaired, Play(repaired, h).1, e);
      Play(repaired, h + [e]) == (Play(repaired, h).0 + [a], r)
  {
    assert (h + [e])[..|h|] == h;
  }

  lemma FifoSnoc(h: seq<Event>, e: Event)
    ensures var (a, q) := FifoStep(Fifo(h).1, e);
      Fifo(h + [e]) == (Fifo(h).0 + [a], q)
  {
    assert (h + [e])[..|h|] == h;
  }

  /** The code is not a FIFO: after send a, receive, send b, the next receive
      returns a again. */
  lemma StaleMessageWitness(a: Cell, b: Cell)
    requires a != b
    ensures var h := [Sent(0, 1, 7, a), Asked(1, 7), Sent(0, 1, 7, b), Asked(1, 7)];
      && Play(false, h).0[3] == Got(Some(Message(0, 1, 7, 0, a)))
      && Fifo(h).0[3] == Got(Some(Message(0, 1, 7, 0, b)))
  {
    var ma, mb := Message(0, 1, 7, 0, a), Message(0, 1, 7, 0, b);
    var e1, e2, e3 := Sent(0, 1, 7, a), Asked(1, 7), Sent(0, 1, 7, b);
    var r1 := RingStep(false, Empty(), e1).1;
    assert View(r1) == [ma];
    var r2 := RingStep(false, r1, e2).1;
    assert r2.slots[0] == ma && r2.count == 0 && r2.write == 1;
    var r3 := RingStep(false, r2, e3).1;
    assert View(r3) == [ma];
    PlaySnoc(false, [], e1);
    PlaySnoc(false, [e1], e2);
    PlaySnoc(false, [e1, e2], e3);
    PlaySnoc(false, [e1, e2, e3], e2);
    FifoSnoc([], e1);
    FifoSnoc([e1], e2);
    FifoSnoc([e1, e2], e3);
    FifoSnoc([e1, e2, e3], e2);
    assert [] + [e1] == [e1] && [e1] + [e2] == [e1, e2] && [e1, e2] + [e3] == [e1, e2, e3];
    assert [e1, e2, e3] + [e2] == [e1, e2, e3, e2];
    assert RemoveAt([ma], 0) == [];
  }

  // ------------------------------------------------------------ in place

  class MsgQueue {
    const queue: array<Message>
    var readIdx: nat
    var writeIdx: nat
    var count: nat

    ghost predicate Valid()
      reads this
    {
      queue.Length == SIZE && readIdx < SIZE && writeIdx < SIZE && count <= SIZE
    }

    ghost function Contents(): (r: Ring)
      requires Valid()
      reads this, queue
      ensures WellFormed(r)
    {
      Ring(queue[..], readIdx, writeIdx, count)
    }

    constructor ()
      ensures Valid() && fresh(queue) && Contents() == Empty()
    {
      queue := new Message[SIZE](_ => NO_MESSAGE);
      readIdx, writeIdx, count := 0, 0, 0;
    }

    /** What task init and cleanup do to the queue. */
    method Clear()
      requires Valid()
      modifies this, queue
      ensures Valid() && Contents() == Empty()
    {
      forall i | 0 <= i < SIZE {
        queue[i] := NO_MESSAGE;
      }
      readIdx, writeIdx, count := 0, 0, 0;
    }

    method SendMessage(current: Byte, dst: Byte, kind: Byte, data: Cell) returns (e: int)
      requires Valid()
      modifies `writeIdx, `count, queue
      ensures Valid()
      ensures (e, Contents()) == Send(old(Contents()), Message(current, dst, kind, 0, data))
    {
      if dst >= MAX_TASKS && dst != BROADCAST { return INVALID_ARG; }
      if count >= SIZE { return MSG_QUEUE_FULL; }
      queue[writeIdx] := Message(current, dst, kind, 0, data);
      writeIdx := Slot(writeIdx, 1);
      count := count + 1;
      e := OK;
    }

    method ReceiveMessage(current: Byte, kind: Byte) returns (found: Option<Message>)
      requires Valid()
      modifies `count, queue
      ensures Valid()
      ensures (found, Contents()) == Receive(old(Contents()), current, kind)
    {
      hide FirstMatch, Remove, Matches;
      ghost var r0 := Contents();
      var i := 0;
      while i < count
        invariant 0 <= i <= count && Contents() == r0 && Valid()
        invariant forall k :: 0 <= k < i ==> !Matches(View(r0)[k], current, kind)
      {
        var m := queue[Slot(readIdx, i)];
        assert m == View(r0)[i];
        if Matches(m, current, kind) {
          found := Some(m);
          FirstMatchIs(View(r0), current, kind, i);
          CloseGap(i);
          count := count - 1;
          return;
        }
        i := i + 1;
      }
      NoMatch(View(r0), current, kind);
      found := None;
    }

    /** Shifts the messages after pending message k one slot down. */
    method CloseGap(k: nat)
      requires Valid() && k < count
      modifies queue
      ensures queue[..] == Remove(old(Contents()), k).slots
    {
      ghost var r0 := Contents();
      var j := k;
      while j < count - 1
        invariant k <= j <= count - 1
        invariant forall p :: 0 <= p < SIZE ==>
          queue[p] == if k <= Offset(readIdx, p) < j then r0.slots[Slot(p, 1)] else r0.slots[p]
      {
        var from, to := Slot(readIdx, j + 1), Slot(readIdx, j);
        assert Offset(readIdx, to) == j && from == Slot(to, 1);
        queue[to] := queue[from];
        j := j + 1;
      }
    }
  }
}
