// Who gets which message: the filter of receive and the checks of send, and what
// they mean over whole histories of the queue.
module MsgHistory {
  import opened Arith
  import opened Errors
  import opened MsgRing

  /** When a send is refused and with which error, that a refused one changes
      nothing, and what an accepted one writes. */
  lemma SendOutcome(r: Ring, m: Message)
    requires WellFormed(r)
    ensures var (e, r') := Send(r, m);
      && (e == -16 <==> 8 <= m.dst && m.dst != 0xFF)
      && (e == -21 <==> (m.dst < 8 || m.dst == 0xFF) && r.count == 16)
      && (e == 0 <==> (m.dst < 8 || m.dst == 0xFF) && r.count < 16)
      && (e != 0 ==> r' == r)
      && (e == 0 ==> r' == Ring(r.slots[r.write := m], r.read, (r.write + 1) % 16, r.count + 1))
  {}

  /** Receive answers none exactly when no pending message is addressed to the task
      or to all and has the kind asked for, 0 standing for any; otherwise it takes
      out the first such message and answers it. */
  lemma ReceiveTakesFirst(r: Ring, task: Byte, kind: Byte)
    requires WellFormed(r)
    ensures var (m, v) := (Receive(r, task, kind).0, View(r));
      var r' := Receive(r, task, kind).1;
      && (m.None? <==> forall i :: 0 <= i < |v| ==>
           !((v[i].dst == task || v[i].dst == 0xFF) && (kind == 0 || v[i].kind == kind)))
      && (m.None? ==> r' == r)
      && (m.Some? ==> WellFormed(r') && exists k ::
           && 0 <= k < |v| && m.value == v[k] && View(r') == v[..k] + v[k + 1..]
           && (v[k].dst == task || v[k].dst == 0xFF) && (kind == 0 || v[k].kind == kind)
           && forall i :: 0 <= i < k ==>
             !((v[i].dst == task || v[i].dst == 0xFF) && (kind == 0 || v[i].kind == kind)))
  {
    hide View, Remove;
    var k := FirstMatch(View(r), task, kind);
    if k.Some? { RemoveView(r, k.value); }
  }

  // ------------------------------------------------------------ histories

  /** The answers do not depend on what comes later. */
  lemma {:induction false} PlayPrefix(repaired: bool, h: seq<Event>, n: nat)
    requires n <= |h|
    ensures Play(repaired, h).0[..n] == Play(repaired, h[..n]).0
    decreases |h|
  {
    hide RingStep;
    if n < |h| {
      var rest := h[..|h| - 1];
      PlayPrefix(repaired, rest, n);
      assert rest[..n] == h[..n];
      assert Play(repaired, h).0[..n] == Play(repaired, rest).0[..n];
    } else {
      assert h[..n] == h;
      assert Play(repaired, h).0[..n] == Play(repaired, h).0;
    }
  }

  lemma AnswerAt(h: seq<Event>, j: nat)
    requires j < |h|
    ensures Play(false, h).0[j] == RingStep(false, Play(false, h[..j]).1, h[j]).0
  {
    hide RingStep, Play;
    PlayPrefix(false, h, j + 1);
    assert Play(false, h).0[j] == Play(false, h).0[..j + 1][j];
    assert h[..j + 1] == h[..j] + [h[j]];
    PlaySnoc(false, h[..j], h[j]);
  }

  /** Event i of the history is an accepted send of m. */
  ghost predicate AcceptedAt(h: seq<Event>, i: nat, m: Message)
  {
    && i < |h| && h[i].Sent?
    && m == Message(h[i].src, h[i].to, h[i].what, 0, h[i].payload)
    && Play(false, h).0[i] == Status(0)
  }

  ghost predicate WasSent(h: seq<Event>, m: Message)
  {
    exists i: nat :: AcceptedAt(h, i, m)
  }

  lemma WasSentLater(h: seq<Event>, e: Event, m: Message)
    requires WasSent(h, m)
    ensures WasSent(h + [e], m)
  {
    var i: nat :| AcceptedAt(h, i, m);
    PlaySnoc(false, h, e);
    assert AcceptedAt(h + [e], i, m);
  }

  /** Of the slots, those written so far hold messages that were sent. */
  ghost predicate SlotsWereSent(h: seq<Event>)
  {
    var (answers, r) := Play(false, h);
    forall p :: 0 <= p < SIZE && p < r.count + Received(answers) ==> WasSent(h, r.slots[p])
  }

  lemma {:induction false} OnlySentMessages(h: seq<Event>)
    ensures SlotsWereSent(h)
    decreases |h|
  {
    hide RingStep;
    if h != [] {
      var h', e := h[..|h| - 1], h[|h| - 1];
      OnlySentMessages(h');
      WriteIndexHistory(h');
      assert h == h' + [e];
      SlotsAfter(h', e);
    }
  }

  lemma SlotsAfter(h: seq<Event>, e: Event)
    requires SlotsWereSent(h)
    requires var (answers, r) := Play(false, h); r.read == 0 && r.write == (r.count + Received(answers)) % SIZE
    ensures SlotsWereSent(h + [e])
  {
    hide RingStep, WasSent, Play;
    var (answers, r) := Play(false, h);
    var (a, r') := RingStep(false, r, e);
    PlaySnoc(false, h, e);
    assert (answers + [a])[..|answers|] == answers;
    StepIndices(false, r, e);
    forall p | 0 <= p < SIZE && p < r'.count + Received(answers + [a])
      ensures WasSent(h + [e], r'.slots[p])
    {
      SlotSource(r, e, p);
      if a == Status(OK) && p == r.write {
        JustSent(h, e);
      } else if r'.slots[p] == r.slots[p] {
        WasSentLater(h, e, r.slots[p]);
      } else {
        WasSentLater(h, e, r.slots[p + 1]);
      }
    }
  }

  lemma JustSent(h: seq<Event>, e: Event)
    requires RingStep(false, Play(false, h).1, e).0 == Status(OK)
    ensures var r := Play(false, h).1;
      WasSent(h + [e], RingStep(false, r, e).1.slots[r.write])
  {
    hide View, FirstMatch;
    PlaySnoc(false, h, e);
    assert AcceptedAt(h + [e], |h|, Outgoing(e));
  }

  /** A step leaves every slot its message, but for the one it writes and those a
      receive moves down. */
  lemma SlotSource(r: Ring, e: Event, p: nat)
    requires WellFormed(r) && r.read == 0 && p < SIZE
    ensures var (a, r') := RingStep(false, r, e);
      && WellFormed(r')
      && (r'.slots[p] == r.slots[p]
        || (a == Status(OK) && p == r.write)
        || (a.Got? && a.m.Some? && p < r.count - 1 && r'.slots[p] == r.slots[p + 1]))
  {
    hide View, FirstMatch;
  }

  /** Every message a task is given, in any history of the code and however far
      its sends are out of step, was accepted from some sender before, is addressed
      to that task or to all, and has the kind asked for. */
  lemma DeliveredWasSent(h: seq<Event>, j: nat)
    requires j < |h|
    requires var a := Play(false, h).0[j]; a.Got? && a.m.Some?
    ensures var m := Play(false, h).0[j].m.value;
      && h[j].Asked? && (m.dst == h[j].task || m.dst == 0xFF) && (h[j].kind == 0 || m.kind == h[j].kind)
      && exists i: nat :: i < j && AcceptedAt(h, i, m)
  {
    hide Play, Received;
    var (answers, r) := Play(false, h[..j]);
    AnswerAt(h, j);
    WriteIndexHistory(h[..j]);
    OnlySentMessages(h[..j]);
    var m := Play(false, h).0[j].m.value;
    var k := Taken(r, h[j], m);
    assert WasSent(h[..j], r.slots[k]);
    var i: nat :| AcceptedAt(h[..j], i, m);
    PlayPrefix(false, h, j);
    assert Play(false, h).0[i] == Play(false, h).0[..j][i];
    assert AcceptedAt(h, i, m);
  }

  lemma Taken(r: Ring, e: Event, m: Message) returns (k: nat)
    requires WellFormed(r) && r.read == 0 && RingStep(false, r, e).0 == Got(Some(m))
    ensures k < r.count && m == r.slots[k]
    ensures e.Asked? && (m.dst == e.task || m.dst == 0xFF) && (e.kind == 0 || m.kind == e.kind)
  {
    hide Remove;
    ReceiveTakesFirst(r, e.task, e.kind);
    k :| 0 <= k < r.count && m == View(r)[k];
  }

  /** A message sent in step to an empty queue, then asked for: it is received by
      the task it is addressed to, by every task if it is addressed to all, and
      by no other; and only if its kind, or any kind, is asked for. */
  lemma FirstReader(h: seq<Event>, src: Byte, dst: Byte, kind: Byte, data: Cell, task: Byte, asked: Byte)
    requires var (answers, r) := Play(false, h); r.count == 0 && Received(answers) % 16 == 0
    requires dst < 8 || dst == 0xFF
    ensures var answers := Play(false, h + [Sent(src, dst, kind, data), Asked(task, asked)]).0;
      && answers[|h|] == Status(0)
      && answers[|h| + 1] ==
        if (dst == task || dst == 0xFF) && (asked == 0 || asked == kind)
        then Got(Some(Message(src, dst, kind, 0, data))) else Got(None)
  {
    hide RingStep, Play, Received, WellFormed;
    var r := Play(false, h).1;
    StartsAtZero(h);
    ReadBack(r, src, dst, kind, data, task, asked);
    PlayTwo(h, Sent(src, dst, kind, data), Asked(task, asked));
  }

  lemma StartsAtZero(h: seq<Event>)
    requires var (answers, r) := Play(false, h); r.count == 0 && Received(answers) % 16 == 0
    ensures Play(false, h).1.read == Play(false, h).1.write == 0
  {
    hide Play, Received;
    WriteIndexHistory(h);
  }

  lemma PlayTwo(h: seq<Event>, e: Event, f: Event)
    ensures var (a, r) := RingStep(false, Play(false, h).1, e);
      var answers := Play(false, h + [e, f]).0;
      answers[|h|] == a && answers[|h| + 1] == RingStep(false, r, f).0
  {
    hide RingStep, Play;
    PlaySnoc(false, h, e);
    PlaySnoc(false, h + [e], f);
    assert h + [e] + [f] == h + [e, f];
  }

  lemma ReadBack(r: Ring, src: Byte, dst: Byte, kind: Byte, data: Cell, task: Byte, asked: Byte)
    requires WellFormed(r) && r.count == 0 && r.read == r.write == 0 && (dst < 8 || dst == 0xFF)
    ensures var (a, r') := RingStep(false, r, Sent(src, dst, kind, data));
      && a == Status(0) && WellFormed(r')
      && RingStep(false, r', Asked(task, asked)).0 ==
        if (dst == task || dst == 0xFF) && (asked == 0 || asked == kind)
        then Got(Some(Message(src, dst, kind, 0, data))) else Got(None)
  {
    var m := Message(src, dst, kind, 0, data);
    AppendView(r, r.write, m);
    hide Remove, FirstMatch;
    var r' := RingStep(false, r, Sent(src, dst, kind, data)).1;
    assert View(r) == [] && View(r') == [m];
    ReceiveTakesFirst(r', task, asked);
    assert View(r')[0] == m;
  }
}
