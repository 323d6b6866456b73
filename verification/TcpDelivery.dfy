/** What every run of the senders and the receiver guarantees, and when the packets arrive
    unharmed. */
module TcpDelivery {
  import opened Options
  import opened OscBytes
  import opened Framing
  import opened TcpHandlers
  import opened TcpStreams

  // ----- whatever the receives

  /** At most one sender is in the critical section. */
  lemma MutualExclusion(memory: Memory, s0: System, es: seq<Event>, s: System, i: nat, j: nat)
    requires Initial(s0) && Runs(memory, s0, es, s)
    requires i < |s.senders| && j < |s.senders| && !s.senders[i].phase.Idle? && !s.senders[j].phase.Idle?
    ensures i == j
  {
    RunKeepsInvariant(memory, s0, es, s);
    assert SenderOk(s, i) && SenderOk(s, j);
  }

  /** Receives of any size never lose the framing: as many packets are delivered as have been
      read, each of them has the length of its payload in the order of locking, and that order
      contains each sender's payloads in the order in which it sends them. */
  lemma DeliveredInStep(memory: Memory, s0: System, es: seq<Event>, s: System)
    requires Initial(s0) && Runs(memory, s0, es, s)
    ensures |s.delivered| == |s.packets| && s.packets <= Payloads(s.order)
    ensures forall i | 0 <= i < |s.delivered| :: |s.delivered[i]| == |Payloads(s.order)[i]|
    ensures |s.senders| == |s0.senders|
    ensures forall i: nat | i < |s0.senders| :: SentBy(s.order, i) <= s0.senders[i].todo
  {
    RunKeepsInvariant(memory, s0, es, s);
    forall i | 0 <= i < |s.delivered| ensures |s.delivered[i]| == |Payloads(s.order)[i]| {
      assert DeliveredAs(memory, i, s.delivered[i], s.packets[i], s.receives[i]);
    }
  }

  /** What is delivered: the pieces of the payload stored one over the other at the beginning
      of a buffer that had been left unset. */
  lemma DeliveredIsOverwritten(memory: Memory, s0: System, es: seq<Event>, s: System, i: nat)
    requires Initial(s0) && Runs(memory, s0, es, s) && i < |s.delivered|
    ensures |s.receives| == |s.delivered| <= |Payloads(s.order)|
    ensures var p, chunks := Payloads(s.order)[i], s.receives[i];
            && chunks != [] && NoneEmpty(chunks) && Joined(chunks) == p
            && s.delivered[i] == Fill(Unset(memory, i, |p|), chunks)
  {
    RunKeepsInvariant(memory, s0, es, s);
    assert DeliveredAs(memory, i, s.delivered[i], s.packets[i], s.receives[i]);
  }

  /** When nobody holds the mutex and every byte has been read, every packet is delivered. */
  lemma AllReadAllCounted(memory: Memory, s0: System, es: seq<Event>, s: System)
    requires Initial(s0) && Runs(memory, s0, es, s) && s.holder == None && s.wire == []
    ensures |s.delivered| == |s.order| && s.packets == Payloads(s.order)
    ensures s.rx.isRxPacketLen && s.rx.nReceived == 0 && s.chunks == []
  {
    RunKeepsInvariant(memory, s0, es, s);
    hide Framed, IntBytes, IntOf, IsPayload, Fill, Joined, Unset;
    var ps, tail := Payloads(s.order), ReadBytes(s.reading);
    assert Framed(s.packets) + tail + [] + [] == Framed(s.packets) + tail;
    if tail != [] {
      NextPacket(ps, s.packets, tail);
      if !s.reading.isLength {
        assert tail[..4] == IntBytes(s.reading.packetLen);
        IntRoundTrip(s.reading.packetLen);
      }
      assert false;
    }
    assert Framed(s.packets) + [] == Framed(s.packets);
    SameFramed(ps, s.packets);
  }

  lemma SameFramed(ps: seq<seq<byte>>, packets: seq<seq<byte>>)
    requires packets <= ps && Framed(packets) == Framed(ps)
    ensures packets == ps
  {
    var d := |packets|;
    assert ps[..d] == packets;
    BodyAt(ps, Framed(ps), d);
    assert Framed(ps[d..]) == [];
  }

  ghost predicate Finished(s: System) {
    s.holder == None && s.wire == [] && forall d | d in s.senders :: d.todo == []
  }

  /** Until everything is sent and read, some participant can go on. */
  lemma Progress(memory: Memory, s0: System, es: seq<Event>, s: System)
    requires Initial(s0) && Runs(memory, s0, es, s) && !Finished(s)
    ensures exists e :: Enabled(s, e)
  {
    RunKeepsInvariant(memory, s0, es, s);
    if s.wire != [] {
      assert Enabled(s, Receive(1));
    } else if s.holder.Some? {
      var i := s.holder.value;
      assert SenderOk(s, i);
      match s.senders[i].phase
      case SendingLength(n) => assert Enabled(s, SendLength(i, 1));
      case SendingData(n) =>
        if n == |s.senders[i].todo[0]| {
          assert Enabled(s, Unlock(i));
        } else {
          assert Enabled(s, SendData(i, 1));
        }
    } else {
      var d :| d in s.senders && d.todo != [];
      var i :| 0 <= i < |s.senders| && s.senders[i] == d;
      assert SenderOk(s, i);
      assert Enabled(s, Lock(i));
    }
  }

  /** No run is longer than the measure of its beginning. */
  lemma RunsEnd(memory: Memory, s0: System, es: seq<Event>, s: System)
    requires Initial(s0) && Runs(memory, s0, es, s)
    ensures |es| <= Measure(s0)
  {
    hide Invariant, Initial, Measure, Runs;
    InvariantInitially(memory, s0);
    RunFrom(memory, s0, s0, es, s);
    MeasurePositive(memory, s0, s);
  }

  /** When no step is left, a packet has been delivered for every payload of every sender, in
      the order of locking. */
  lemma FinishedMeansCounted(memory: Memory, s0: System, es: seq<Event>, s: System)
    requires Initial(s0) && Runs(memory, s0, es, s) && forall e :: !Enabled(s, e)
    ensures |s.delivered| == |s.order| && s.wire == [] && s.chunks == [] && |s.senders| == |s0.senders|
    ensures forall i: nat | i < |s0.senders| :: SentBy(s.order, i) == s0.senders[i].todo
  {
    if !Finished(s) {
      Progress(memory, s0, es, s);
      assert false;
    }
    AllReadAllCounted(memory, s0, es, s);
    RunKeepsInvariant(memory, s0, es, s);
    forall i: nat | i < |s0.senders| ensures SentBy(s.order, i) == s0.senders[i].todo {
      assert s.senders[i] in s.senders;
    }
  }

  // ----- the same run with other buffers

  /** The states differ in what the data buffers contain. */
  ghost predicate Twins(s: System, t: System) {
    && t == s.(rx := t.rx, delivered := t.delivered)
    && t.rx == s.rx.(packetData := t.rx.packetData) && |t.rx.packetData| == |s.rx.packetData|
    && |t.delivered| == |s.delivered|
  }

  lemma StepsTwin(memory: Memory, other: Memory, s: System, t: System, e: Event)
    requires Twins(s, t) && Enabled(s, e)
    ensures Enabled(t, e) && Twins(Apply(memory, s, e), Apply(other, t, e))
  {
    hide IntOf, IntBytes;
  }

  lemma {:induction false} RunsTwin(memory: Memory, other: Memory, s: System, es: seq<Event>, s': System, t: System)
    returns (t': System)
    requires Twins(s, t) && Runs(memory, s, es, s')
    ensures Runs(other, t, es, t') && Twins(s', t')
    decreases |es|
  {
    hide Twins, Enabled, Apply;
    if es == [] {
      t' := t;
    } else {
      StepsTwin(memory, other, s, t, es[0]);
      t' := RunsTwin(memory, other, Apply(memory, s, es[0]), es[1..], s', Apply(other, t, es[0]));
    }
  }

  // ----- exactly when packets arrive unharmed

  /** For these events the i-th packet is delivered intact, whatever the buffers contained. */
  ghost predicate AlwaysIntact(s0: System, es: seq<Event>, i: nat) {
    forall memory, s | Runs(memory, s0, es, s) ::
      i < |s.delivered| && |s.delivered| <= |s.order| && s.delivered[i] == Payloads(s.order)[i]
  }

  /** A delivered packet is its payload for every content of the buffers if and only if its
      data came in one receive. */
  lemma IntactIffReceivedAtOnce(memory: Memory, s0: System, es: seq<Event>, s: System, i: nat)
    requires Initial(s0) && Runs(memory, s0, es, s) && i < |s.delivered|
    ensures |s.receives| == |s.delivered|
    ensures AlwaysIntact(s0, es, i) <==> |s.receives[i]| == 1
  {
    hide Runs, Initial, Fill, Joined, Payloads;
    DeliveredIsOverwritten(memory, s0, es, s, i);
    TwinOfItself(s0);
    if |s.receives[i]| == 1 {
      forall other, t | Runs(other, s0, es, t)
        ensures i < |t.delivered| <= |t.order| && t.delivered[i] == Payloads(t.order)[i]
      {
        var t' := RunsTwin(other, memory, s0, es, t, s0);
        SameEnd(memory, s0, es, s, t');
        DeliveredIsOverwritten(other, s0, es, t, i);
        OneReceiveFills(Unset(other, i, |Payloads(t.order)[i]|), t.receives[i]);
      }
    } else {
      var p := Payloads(s.order)[i];
      JoinedAtLeast(s.receives[i]);
      var last := Other(p[|p| - 1]);
      var other: Memory := (n, j) => last;
      var t := RunsTwin(memory, other, s0, es, s, s0);
      DeliveredIsOverwritten(other, s0, es, t, i);
      SeveralReceivesLose(Unset(other, i, |p|), t.receives[i]);
      assert t.delivered[i][|p| - 1] != p[|p| - 1];
    }
  }

  lemma TwinOfItself(s: System)
    ensures Twins(s, s)
  {
  }

  lemma {:induction false} SameEnd(memory: Memory, s0: System, es: seq<Event>, s: System, t: System)
    requires Runs(memory, s0, es, s) && Runs(memory, s0, es, t)
    ensures s == t
    decreases |es|
  {
    hide Enabled, Apply;
    if es == [] {
    } else {
      SameEnd(memory, Apply(memory, s0, es[0]), es[1..], s, t);
    }
  }

  /** Every receive of data takes all that is still missing. */
  ghost predicate AtOnce(memory: Memory, s0: System, es: seq<Event>)
    decreases |es|
  {
    es == [] || (Enabled(s0, es[0])
                 && (es[0].Receive? && !s0.rx.isRxPacketLen ==> es[0].k == RxCount(s0.rx))
                 && AtOnce(memory, Apply(memory, s0, es[0]), es[1..]))
  }

  ghost predicate AllSingle(s: System) {
    s.chunks == [] && forall i | 0 <= i < |s.receives| :: |s.receives[i]| == 1
  }

  /** Runs of such receives, and only those, have every packet in a single piece. */
  lemma {:induction false} AtOnceIffSingle(memory: Memory, s0: System, m: System, es: seq<Event>, s: System)
    requires Invariant(memory, s0, m) && Runs(memory, m, es, s) && AllSingle(m)
    ensures AllSingle(s) <==> AtOnce(memory, m, es)
    decreases |es|
  {
    hide Invariant, Enabled, Apply, AllSingle;
    if es == [] {
    } else {
      var n := Apply(memory, m, es[0]);
      StepKeepsInvariant(memory, s0, m, es[0]);
      SingleStep(memory, s0, m, es[0]);
      if AllSingle(n) {
        AtOnceIffSingle(memory, s0, n, es[1..], s);
      } else {
        StaysSevered(memory, s0, n, es[1..], s);
      }
    }
  }

  lemma SingleStep(memory: Memory, s0: System, m: System, e: Event)
    requires Invariant(memory, s0, m) && Enabled(m, e) && AllSingle(m)
    ensures AllSingle(Apply(memory, m, e)) <==> (e.Receive? && !m.rx.isRxPacketLen ==> e.k == RxCount(m.rx))
    ensures !AllSingle(Apply(memory, m, e)) ==> Severed(Apply(memory, m, e))
  {
    hide StreamOk, Fifo, SenderOk, HolderOk, IntOf, Unset, Fill, Joined, IntBytes;
  }

  /** Some packet has come, or is coming, in several pieces. */
  ghost predicate Severed(s: System) {
    s.chunks != [] || exists i | 0 <= i < |s.receives| :: |s.receives[i]| != 1
  }

  lemma {:induction false} StaysSevered(memory: Memory, s0: System, m: System, es: seq<Event>, s: System)
    requires Invariant(memory, s0, m) && Runs(memory, m, es, s) && Severed(m)
    ensures Severed(s) && !AllSingle(s)
    decreases |es|
  {
    hide Invariant, Enabled, Apply;
    if es == [] {
    } else {
      StepKeepsInvariant(memory, s0, m, es[0]);
      SeveredStep(memory, s0, m, es[0]);
      StaysSevered(memory, s0, Apply(memory, m, es[0]), es[1..], s);
    }
  }

  lemma SeveredStep(memory: Memory, s0: System, m: System, e: Event)
    requires Invariant(memory, s0, m) && Enabled(m, e) && Severed(m)
    ensures Severed(Apply(memory, m, e))
  {
    hide StreamOk, Fifo, SenderOk, HolderOk, IntOf, Unset, Fill, Joined, IntBytes;
    var n := Apply(memory, m, e);
    if i :| 0 <= i < |m.receives| && |m.receives[i]| != 1 {
      assert n.receives[i] == m.receives[i];
    } else if |n.receives| > |m.receives| {
      assert |n.receives[|m.receives|]| != 1;
    }
  }

  /** For every content of the buffers the delivered packets are a prefix of the payloads in
      the order of locking. */
  ghost predicate AlwaysAPrefix(s0: System, es: seq<Event>) {
    forall memory, s | Runs(memory, s0, es, s) :: s.delivered <= Payloads(s.order)
  }

  /** A run that has no packet half read delivers a prefix of the payloads in lock order,
      whatever the buffers contained, if and only if every receive of data takes all that is
      still missing. */
  lemma PrefixIffAtOnce(memory: Memory, s0: System, es: seq<Event>, s: System)
    requires Initial(s0) && Runs(memory, s0, es, s) && s.chunks == []
    ensures AlwaysAPrefix(s0, es) <==> AtOnce(memory, s0, es)
  {
    DeliveredInStep(memory, s0, es, s);
    SingleIffAtOnce(memory, s0, es, s);
    hide Runs, Initial, Payloads, AtOnce, AlwaysIntact, SentBy;
    RunKeepsHistory(memory, s0, es, s);
    if AllSingle(s) {
      forall other, t | Runs(other, s0, es, t) ensures t.delivered <= Payloads(t.order) {
        PrefixOfSingles(memory, other, s0, es, s, t);
      }
    } else {
      var i :| 0 <= i < |s.receives| && |s.receives[i]| != 1;
      IntactIffReceivedAtOnce(memory, s0, es, s, i);
      var other, t := Damaged(s0, es, i);
      TwinOfItself(s0);
      var t' := RunsTwin(other, memory, s0, es, t, s0);
      SameEnd(memory, s0, es, s, t');
      assert !(t.delivered <= Payloads(t.order));
    }
  }

  lemma RunKeepsHistory(memory: Memory, s0: System, es: seq<Event>, s: System)
    requires Initial(s0) && Runs(memory, s0, es, s)
    ensures |s.receives| == |s.delivered| <= |s.order|
  {
    RunKeepsInvariant(memory, s0, es, s);
  }

  lemma SingleIffAtOnce(memory: Memory, s0: System, es: seq<Event>, s: System)
    requires Initial(s0) && Runs(memory, s0, es, s)
    ensures AllSingle(s) <==> AtOnce(memory, s0, es)
  {
    InvariantInitially(memory, s0);
    assert AllSingle(s0);
    hide Initial, Invariant, Runs, AtOnce;
    AtOnceIffSingle(memory, s0, s0, es, s);
  }

  lemma Damaged(s0: System, es: seq<Event>, i: nat) returns (memory: Memory, s: System)
    requires !AlwaysIntact(s0, es, i)
    ensures Runs(memory, s0, es, s)
    ensures !(i < |s.delivered| && |s.delivered| <= |s.order| && s.delivered[i] == Payloads(s.order)[i])
  {
    memory, s :| Runs(memory, s0, es, s)
                 && !(i < |s.delivered| && |s.delivered| <= |s.order| && s.delivered[i] == Payloads(s.order)[i]);
  }

  lemma PrefixOfSingles(memory: Memory, other: Memory, s0: System, es: seq<Event>, s: System, t: System)
    requires Initial(s0) && Runs(memory, s0, es, s) && Runs(other, s0, es, t) && AllSingle(s)
    ensures t.delivered <= Payloads(t.order)
  {
    hide Runs, Initial, Payloads, Fill, Joined;
    TwinOfItself(s0);
    var t' := RunsTwin(other, memory, s0, es, t, s0);
    SameEnd(memory, s0, es, s, t');
    RunKeepsHistory(other, s0, es, t);
    forall i: nat | i < |t.delivered| ensures t.delivered[i] == Payloads(t.order)[i] {
      DeliveredIsOverwritten(other, s0, es, t, i);
      OneReceiveFills(Unset(other, i, |Payloads(t.order)[i]|), t.receives[i]);
    }
  }

  /** A finished run of such receives has delivered exactly the payloads of all senders,
      merged in the order of locking. */
  lemma FinishedMeansDelivered(memory: Memory, s0: System, es: seq<Event>, s: System)
    requires Initial(s0) && Runs(memory, s0, es, s) && (forall e :: !Enabled(s, e)) && AtOnce(memory, s0, es)
    ensures s.delivered == Payloads(s.order)
    ensures |s.senders| == |s0.senders| && forall i: nat | i < |s0.senders| :: SentBy(s.order, i) == s0.senders[i].todo
  {
    FinishedMeansCounted(memory, s0, es, s);
    PrefixIffAtOnce(memory, s0, es, s);
  }

  // ----- a run that loses data

  const PAYLOAD: seq<byte> := [1, 2, 3, 4]
  const PACKET: seq<byte> := [0, 0, 0, 4, 1, 2, 3, 4]

  /** One sender with the payload 1 2 3 4. */
  ghost function Lonely(): System {
    System([Sender([PAYLOAD], Idle)], None, [], Rx(true, 0, [], 0, []), [], [], [], Reading(true, [], 0), [], [])
  }

  /** The packet has been sent. */
  ghost function AllSent(): System {
    Lonely().(senders := [Sender([], Idle)], wire := PACKET, order := [Packet(0, PAYLOAD)])
  }

  ghost function LengthRead(memory: Memory): System {
    AllSent().(wire := PAYLOAD, rx := Rx(false, 0, [], 4, Unset(memory, 0, 4)), reading := Reading(false, [], 4))
  }

  ghost function HalfRead(memory: Memory): System {
    LengthRead(memory).(wire := [3, 4], rx := Rx(false, 2, [], 4, [1, 2, memory(0, 2), memory(0, 3)]),
                        reading := Reading(false, [1, 2], 4), chunks := [[1, 2]])
  }

  ghost function AllRead(memory: Memory): System {
    AllSent().(wire := [], delivered := [[3, 4, memory(0, 2), memory(0, 3)]], packets := [PAYLOAD],
               receives := [[[1, 2], [3, 4]]])
  }

  lemma RunStep(memory: Memory, s: System, e: Event, m: System, es: seq<Event>, t: System)
    requires Enabled(s, e) && Apply(memory, s, e) == m && Runs(memory, m, es, t)
    ensures Runs(memory, s, [e] + es, t)
  {
    assert ([e] + es)[1..] == es;
  }

  lemma SendsAll(memory: Memory, es: seq<Event>, t: System)
    requires Runs(memory, AllSent(), es, t)
    ensures Runs(memory, Lonely(), [Lock(0), SendLength(0, 4), SendData(0, 4), Unlock(0)] + es, t)
  {
    hide Runs;
    var s1 := Lonely().(senders := [Sender([PAYLOAD], SendingLength(0))], holder := Some(0),
      order := [Packet(0, PAYLOAD)]);
    var s2 := s1.(senders := [Sender([PAYLOAD], SendingData(0))], wire := [0, 0, 0, 4]);
    var s3 := s2.(senders := [Sender([PAYLOAD], SendingData(4))], wire := PACKET);
    assert IntBytes(4)[0..0 + 4] == [0, 0, 0, 4] && PAYLOAD[0..0 + 4] == PAYLOAD && [0, 0, 0, 4] + PAYLOAD == PACKET;
    assert [PAYLOAD][1..] == [];
    RunStep(memory, s3, Unlock(0), AllSent(), es, t);
    RunStep(memory, s2, SendData(0, 4), s3, [Unlock(0)] + es, t);
    RunStep(memory, s1, SendLength(0, 4), s2, [SendData(0, 4)] + ([Unlock(0)] + es), t);
    RunStep(memory, Lonely(), Lock(0), s1, [SendLength(0, 4)] + ([SendData(0, 4)] + ([Unlock(0)] + es)), t);
    InFront(Lock(0), SendLength(0, 4), SendData(0, 4), Unlock(0), es);
  }

  lemma InFront(a: Event, b: Event, c: Event, d: Event, es: seq<Event>)
    ensures [a] + ([b] + ([c] + ([d] + es))) == [a, b, c, d] + es
  {
  }

  lemma ReadsLength(memory: Memory)
    ensures Enabled(AllSent(), Receive(4)) && Apply(memory, AllSent(), Receive(4)) == LengthRead(memory)
  {
    var got := PACKET[..4];
    assert got == [0, 0, 0, 4] && PACKET[4..] == PAYLOAD && [] + got == got;
    assert IntOf(got) == 4;
  }

  lemma ReadsHalf(memory: Memory)
    ensures Enabled(LengthRead(memory), Receive(2)) && Apply(memory, LengthRead(memory), Receive(2)) == HalfRead(memory)
  {
    hide IntOf;
    var got: seq<byte> := PAYLOAD[..2];
    assert got == [1, 2] && PAYLOAD[2..] == [3, 4] && [] + got == got && [] + [got] == [[1, 2]];
    assert Stored(Unset(memory, 0, 4), got) == [1, 2, memory(0, 2), memory(0, 3)];
  }

  lemma ReadsRest(memory: Memory)
    ensures Enabled(HalfRead(memory), Receive(2)) && Apply(memory, HalfRead(memory), Receive(2)) == AllRead(memory)
  {
    hide IntOf;
    var half: seq<byte> := [3, 4];
    var got := half[..2];
    assert got == half && half[2..] == [] && [1, 2] + got == PAYLOAD;
    assert Stored([1, 2, memory(0, 2), memory(0, 3)], got) == [3, 4, memory(0, 2), memory(0, 3)];
    assert HalfRead(memory).chunks + [got] == [[1, 2], [3, 4]];
  }

  /** The sender locks, sends and unlocks; the length is read at once, the data two by two.
      What is delivered begins with 3 4 and ends with what the new buffer had there. */
  lemma HalvesAreLost(memory: Memory)
    ensures Initial(Lonely())
    ensures Runs(memory, Lonely(), [Lock(0), SendLength(0, 4), SendData(0, 4), Unlock(0)]
                                   + [Receive(4), Receive(2), Receive(2)], AllRead(memory))
    ensures !(AllRead(memory).delivered <= Payloads(AllRead(memory).order))
  {
    hide Enabled, Apply, Lonely, AllSent, LengthRead, HalfRead, AllRead;
    var t := AllRead(memory);
    ReadsLength(memory);
    ReadsHalf(memory);
    ReadsRest(memory);
    RunStep(memory, HalfRead(memory), Receive(2), t, [], t);
    RunStep(memory, LengthRead(memory), Receive(2), HalfRead(memory), [Receive(2)] + [], t);
    RunStep(memory, AllSent(), Receive(4), LengthRead(memory), [Receive(2)] + ([Receive(2)] + []), t);
    assert [Receive(4)] + ([Receive(2)] + ([Receive(2)] + [])) == [Receive(4), Receive(2), Receive(2)];
    SendsAll(memory, [Receive(4), Receive(2), Receive(2)], t);
    LonelyFacts(memory);
  }

  lemma LonelyFacts(memory: Memory)
    ensures Initial(Lonely())
    ensures !(AllRead(memory).delivered <= Payloads(AllRead(memory).order))
  {
    var ps := Payloads(AllRead(memory).order);
    assert ps[0] == PAYLOAD;
    assert AllRead(memory).delivered[0][0] != PAYLOAD[0];
  }
}
