/** Several senders and one receiver of a connection as a state machine: each step is a
    locking or unlocking of the mutex, one send or one recv. */
module TcpStreams {
  import opened Options
  import opened OscBytes
  import opened Framing
  import opened TcpHandlers

  datatype Phase = Idle | SendingLength(n: nat) | SendingData(n: nat)

  /** A thread with the packets it still has to send, the current one included. */
  datatype Sender = Sender(todo: seq<seq<byte>>, phase: Phase)

  datatype Packet = Packet(sender: nat, payload: seq<byte>)

  /** The senders, the holder of the mutex, the bytes on the way, the receiver and what it has
      delivered.  The rest is history: the packets in the order in which the mutex was taken
      for them, the packets whose bytes have been read and what has been read of the next
      one, the pieces in which the data of the current packet have come in, and the pieces of
      every packet that was delivered. */
  datatype System = System(senders: seq<Sender>, holder: Option<nat>, wire: seq<byte>, rx: Rx,
                           delivered: seq<seq<byte>>, order: seq<Packet>,
                           packets: seq<seq<byte>>, reading: Reading,
                           chunks: seq<seq<byte>>, receives: seq<seq<seq<byte>>>)

  /** What the data buffer that is allocated for the n-th packet contains at a position. */
  type Memory = (nat, nat) -> byte

  ghost function Unset(memory: Memory, n: nat, length: int): (b: seq<byte>)
    ensures length >= 0 ==> |b| == length
  {
    seq(if length < 0 then 0 else length, j requires j >= 0 => memory(n, j))
  }

  datatype Event =
    | Lock(i: nat)
    | SendLength(i: nat, k: nat)
    | SendData(i: nat, k: nat)
    | Unlock(i: nat)
    | Receive(k: nat)

  ghost predicate Enabled(s: System, e: Event) {
    match e
    case Lock(i) => i < |s.senders| && s.senders[i].phase.Idle? && s.senders[i].todo != [] && s.holder == None
    case SendLength(i, k) =>
      i < |s.senders| && s.senders[i].phase.SendingLength? && s.senders[i].todo != []
      && 1 <= k && s.senders[i].phase.n + k <= LENGTH_SIZE
    case SendData(i, k) =>
      i < |s.senders| && s.senders[i].phase.SendingData? && s.senders[i].todo != []
      && 1 <= k && s.senders[i].phase.n + k <= |s.senders[i].todo[0]|
    case Unlock(i) =>
      i < |s.senders| && s.senders[i].todo != [] && s.senders[i].phase == SendingData(|s.senders[i].todo[0]|)
    case Receive(k) =>
      1 <= k <= |s.wire| && k <= RxCount(s.rx)
  }

  ghost function Apply(memory: Memory, s: System, e: Event): System
    requires Enabled(s, e)
  {
    match e
    case Lock(i) =>
      var d := s.senders[i];
      s.(senders := s.senders[i := d.(phase := SendingLength(0))], holder := Some(i),
         order := s.order + [Packet(i, d.todo[0])])
    case SendLength(i, k) =>
      var d := s.senders[i];
      var n := d.phase.n;
      s.(senders := s.senders[i := d.(phase := if n + k == LENGTH_SIZE then SendingData(0) else SendingLength(n + k))],
         wire := s.wire + IntBytes(|d.todo[0]|)[n..n + k])
    case SendData(i, k) =>
      var d := s.senders[i];
      var n := d.phase.n;
      s.(senders := s.senders[i := d.(phase := SendingData(n + k))], wire := s.wire + d.todo[0][n..n + k])
    case Unlock(i) =>
      s.(senders := s.senders[i := Sender(s.senders[i].todo[1..], Idle)], holder := None)
    case Receive(k) =>
      var got := s.wire[..k];
      var (rx, packet) := RxStep(s.rx, got, Unset(memory, |s.delivered|, BufferLength(s.rx, got)));
      var (reading, whole) := ReadStep(s.reading, got);
      var chunks := if s.rx.isRxPacketLen then [] else s.chunks + [got];
      s.(wire := s.wire[k..], rx := rx, delivered := Extended(s.delivered, packet),
         packets := Extended(s.packets, whole), reading := reading,
         chunks := if packet.Some? then [] else chunks,
         receives := if packet.Some? then s.receives + [chunks] else s.receives)
  }

  ghost predicate IsPayload(p: seq<byte>) {
    1 <= |p| <= MAX_INT
  }

  ghost predicate Initial(s: System) {
    && (forall d | d in s.senders :: d.phase.Idle? && forall p | p in d.todo :: IsPayload(p))
    && s.holder == None && s.wire == [] && s.rx == Rx(true, 0, [], 0, []) && s.delivered == [] && s.order == []
    && s.packets == [] && s.reading == Reading(true, [], 0) && s.chunks == [] && s.receives == []
  }

  /** The events lead from s0 to s. */
  ghost predicate Runs(memory: Memory, s0: System, es: seq<Event>, s: System)
    decreases |es|
  {
    if es == [] then s == s0 else Enabled(s0, es[0]) && Runs(memory, Apply(memory, s0, es[0]), es[1..], s)
  }

  // ----- the invariant

  ghost function Payloads(order: seq<Packet>): (ps: seq<seq<byte>>)
    ensures |ps| == |order|
  {
    seq(|order|, i requires 0 <= i < |order| => order[i].payload)
  }

  /** The payloads that sender i has taken the mutex for. */
  ghost function SentBy(order: seq<Packet>, i: nat): seq<seq<byte>> {
    if order == [] then []
    else
      var last := order[|order| - 1];
      SentBy(order[..|order| - 1], i) + if last.sender == i then [last.payload] else []
  }

  /** What the holder of the mutex has not yet sent of its packet. */
  ghost function Unsent(d: Sender): seq<byte>
    requires d.todo != []
  {
    var packet := IntBytes(|d.todo[0]|) + d.todo[0];
    match d.phase
    case Idle => []
    case SendingLength(n) => if n <= LENGTH_SIZE then packet[n..] else []
    case SendingData(n) => if n <= |d.todo[0]| then packet[LENGTH_SIZE + n..] else []
  }

  /** What sender i has still to take the mutex for. */
  ghost function Waiting(d: Sender): seq<seq<byte>> {
    if d.phase.Idle? || d.todo == [] then d.todo else d.todo[1..]
  }

  ghost predicate SenderOk(s: System, i: nat)
    requires i < |s.senders|
  {
    var d := s.senders[i];
    && (forall p | p in d.todo :: IsPayload(p))
    && (!d.phase.Idle? ==>
          && s.holder == Some(i) && d.todo != []
          && s.order != [] && s.order[|s.order| - 1] == Packet(i, d.todo[0])
          && (d.phase.SendingLength? ==> d.phase.n < LENGTH_SIZE)
          && (d.phase.SendingData? ==> d.phase.n <= |d.todo[0]|))
  }

  ghost predicate HolderOk(s: System) {
    s.holder.Some? ==>
      s.holder.value < |s.senders| && !s.senders[s.holder.value].phase.Idle? && s.senders[s.holder.value].todo != []
  }

  ghost function Rest(s: System): seq<byte>
    requires HolderOk(s)
  {
    if s.holder.Some? then Unsent(s.senders[s.holder.value]) else []
  }

  /** The bytes read, those on the way and those not yet sent are the framed payloads in the
      order of locking. */
  ghost predicate StreamOk(s: System)
    requires HolderOk(s)
  {
    && ReadingOk(s.reading)
    && Framed(s.packets) + ReadBytes(s.reading) + s.wire + Rest(s) == Framed(Payloads(s.order))
    && s.packets <= Payloads(s.order)
    && forall p | p in Payloads(s.order) :: IsPayload(p)
  }

  /** The receiver is in step with what has been read.  Its data buffers hold what is left of
      the pieces after each of them was stored at the beginning. */
  ghost predicate ReceiverOk(memory: Memory, s: System) {
    && RxOk(s.rx) && InStep(s.rx, s.reading) && NoneEmpty(s.chunks)
    && (if s.rx.isRxPacketLen then s.chunks == []
        else Joined(s.chunks) == s.reading.received
             && s.rx.packetData == Fill(Unset(memory, |s.delivered|, s.rx.packetLen), s.chunks))
    && |s.delivered| == |s.packets| == |s.receives|
    && forall i | 0 <= i < |s.delivered| :: DeliveredAs(memory, i, s.delivered[i], s.packets[i], s.receives[i])
  }

  /** The i-th packet came in the given pieces, and what was left of them was delivered. */
  ghost predicate DeliveredAs(memory: Memory, i: nat, delivered: seq<byte>, packet: seq<byte>, chunks: seq<seq<byte>>) {
    && chunks != [] && NoneEmpty(chunks) && Joined(chunks) == packet
    && delivered == Fill(Unset(memory, i, |packet|), chunks) && |delivered| == |packet|
  }

  /** Every sender's packets are sent in its own order. */
  ghost predicate Fifo(s0: System, s: System) {
    |s.senders| == |s0.senders|
    && forall i: nat | i < |s.senders| :: SentBy(s.order, i) + Waiting(s.senders[i]) == s0.senders[i].todo
  }

  ghost predicate Invariant(memory: Memory, s0: System, s: System) {
    && HolderOk(s)
    && (forall i: nat | i < |s.senders| :: SenderOk(s, i))
    && StreamOk(s)
    && Fifo(s0, s)
    && ReceiverOk(memory, s)
  }

  lemma InvariantInitially(memory: Memory, s: System)
    requires Initial(s)
    ensures Invariant(memory, s, s)
  {
    forall i: nat | i < |s.senders|
      ensures SenderOk(s, i) && SentBy(s.order, i) + Waiting(s.senders[i]) == s.senders[i].todo
    {
      assert s.senders[i] in s.senders;
    }
  }

  // ----- every step keeps it

  lemma PayloadsSnoc(order: seq<Packet>, p: Packet)
    ensures Payloads(order + [p]) == Payloads(order) + [p.payload]
    ensures forall i :: SentBy(order + [p], i) == SentBy(order, i) + if p.sender == i then [p.payload] else []
  {
    assert (order + [p])[..|order|] == order;
  }

  lemma SameReceiver(memory: Memory, s: System, s': System)
    requires ReceiverOk(memory, s)
    requires s'.rx == s.rx && s'.delivered == s.delivered && s'.packets == s.packets && s'.reading == s.reading
    requires s'.chunks == s.chunks && s'.receives == s.receives
    ensures ReceiverOk(memory, s')
  {
  }

  lemma KeptByLock(memory: Memory, s0: System, s: System, i: nat)
    requires Invariant(memory, s0, s) && Enabled(s, Lock(i))
    ensures Invariant(memory, s0, Apply(memory, s, Lock(i)))
  {
    hide Framed, ReadBytes, ReadingOk, ReceiverOk, IntBytes, SentBy, IsPayload;
    var s', p := Apply(memory, s, Lock(i)), s.senders[i].todo[0];
    SameReceiver(memory, s, s');
    assert p in s.senders[i].todo;
    PayloadsSnoc(s.order, Packet(i, p));
    FramedSnoc(Payloads(s.order), p);
    var packet := IntBytes(|p|) + p;
    assert Rest(s') == packet[0..] == packet;
    assert SenderOk(s, i);
    forall j: nat | j < |s.senders| ensures SenderOk(s', j) {
      assert SenderOk(s, j);
    }
    assert Waiting(s.senders[i]) == [p] + Waiting(s'.senders[i]);
    assert SentBy(s.order, i) + ([p] + Waiting(s'.senders[i])) == SentBy(s'.order, i) + Waiting(s'.senders[i]);
    var x := Framed(s.packets) + ReadBytes(s.reading) + s.wire;
    assert x + [] == x;
  }

  /** Sending moves bytes to the wire. */
  lemma KeptBySend(memory: Memory, s0: System, s: System, e: Event)
    requires Invariant(memory, s0, s) && Enabled(s, e) && (e.SendLength? || e.SendData?)
    ensures Invariant(memory, s0, Apply(memory, s, e))
  {
    hide Framed, ReadBytes, ReadingOk, ReceiverOk, SentBy, IsPayload, StreamOk, HolderOk, Unsent, IntBytes;
    var s', d := Apply(memory, s, e), s.senders[e.i];
    assert SenderOk(s, e.i);
    SendSlices(memory, s, e);
    SameReceiver(memory, s, s');
    forall j: nat | j < |s.senders| ensures SenderOk(s', j) {
      assert SenderOk(s, j);
    }
    assert Waiting(s'.senders[e.i]) == Waiting(d);
  }

  lemma SendSlices(memory: Memory, s: System, e: Event)
    requires HolderOk(s) && Enabled(s, e) && (e.SendLength? || e.SendData?) && s.holder == Some(e.i)
    requires StreamOk(s)
    ensures HolderOk(Apply(memory, s, e)) && StreamOk(Apply(memory, s, e))
  {
    hide Framed, ReadBytes, ReadingOk, ReceiverOk, IsPayload, IntBytes, Payloads;
    var s' := Apply(memory, s, e);
    var sent := SentNow(memory, s, e);
    assert Framed(s.packets) + ReadBytes(s.reading) + s'.wire + Rest(s')
        == Framed(s.packets) + ReadBytes(s.reading) + s.wire + Rest(s)
    by {
      Regroup3(Framed(s.packets) + ReadBytes(s.reading), s.wire, sent, Rest(s'));
    }
  }

  /** A send moves the next bytes of the packet to the wire. */
  lemma SentNow(memory: Memory, s: System, e: Event) returns (sent: seq<byte>)
    requires HolderOk(s) && Enabled(s, e) && (e.SendLength? || e.SendData?) && s.holder == Some(e.i)
    ensures var s' := Apply(memory, s, e);
            && HolderOk(s') && s'.wire == s.wire + sent && Rest(s) == sent + Rest(s')
            && s' == s.(senders := s'.senders, wire := s'.wire)
  {
    hide IntBytes, Unsent;
    var d := s.senders[e.i];
    if e.SendLength? {
      LengthUnsent(d, e.k);
      sent := IntBytes(|d.todo[0]|)[d.phase.n..d.phase.n + e.k];
    } else {
      DataUnsent(d, e.k);
      sent := d.todo[0][d.phase.n..d.phase.n + e.k];
    }
  }

  lemma LengthUnsent(d: Sender, k: nat)
    requires d.todo != [] && d.phase.SendingLength? && d.phase.n + k <= LENGTH_SIZE
    ensures var n := d.phase.n;
            Unsent(d) == IntBytes(|d.todo[0]|)[n..n + k]
                         + Unsent(d.(phase := if n + k == LENGTH_SIZE then SendingData(0) else SendingLength(n + k)))
  {
    hide IntBytes;
    Slices(IntBytes(|d.todo[0]|), d.todo[0], d.phase.n, k);
  }

  lemma DataUnsent(d: Sender, k: nat)
    requires d.todo != [] && d.phase.SendingData? && d.phase.n + k <= |d.todo[0]|
    ensures var n := d.phase.n;
            Unsent(d) == d.todo[0][n..n + k] + Unsent(d.(phase := SendingData(n + k)))
  {
    hide IntBytes;
    DataSlices(IntBytes(|d.todo[0]|), d.todo[0], d.phase.n, k);
  }

  lemma Slices(length: seq<byte>, data: seq<byte>, n: nat, k: nat)
    requires n + k <= |length|
    ensures var packet := length + data;
            packet[n..n + k] == length[n..n + k] && packet[n..] == packet[n..n + k] + packet[n + k..]
  {
  }

  lemma DataSlices(length: seq<byte>, data: seq<byte>, n: nat, k: nat)
    requires n + k <= |data|
    ensures var packet, m := length + data, |length| + n;
            packet[m..m + k] == data[n..n + k] && packet[m..] == packet[m..m + k] + packet[m + k..]
  {
  }

  lemma Regroup3(x: seq<byte>, w: seq<byte>, a: seq<byte>, b: seq<byte>)
    ensures x + w + (a + b) == x + (w + a) + b
  {
  }

  lemma KeptByUnlock(memory: Memory, s0: System, s: System, i: nat)
    requires Invariant(memory, s0, s) && Enabled(s, Unlock(i))
    ensures Invariant(memory, s0, Apply(memory, s, Unlock(i)))
  {
    hide Framed, ReadBytes, ReadingOk, ReceiverOk, SentBy, IsPayload;
    var s', d := Apply(memory, s, Unlock(i)), s.senders[i];
    assert SenderOk(s, i);
    SameReceiver(memory, s, s');
    assert Rest(s) == [] == Rest(s');
    forall j: nat | j < |s.senders| ensures SenderOk(s', j) {
      assert SenderOk(s, j);
      assert forall p | p in d.todo[1..] :: p in d.todo;
    }
    assert Waiting(s'.senders[i]) == Waiting(d);
  }

  /** What lies behind the delivered packets in the stream. */
  lemma NextPacket(ps: seq<seq<byte>>, delivered: seq<seq<byte>>, tail: seq<byte>)
    requires delivered <= ps && Framed(delivered) + tail == Framed(ps) && tail != []
    requires forall p | p in ps :: IsPayload(p)
    ensures var d := |delivered|;
            && d < |ps| && 4 + |ps[d]| <= |tail| && tail[..4] == IntBytes(|ps[d]|) && IntOf(tail[..4]) == |ps[d]| >= 1
            && tail[4..4 + |ps[d]|] == ps[d] && delivered + [ps[d]] <= ps
  {
    hide Framed, IntBytes, IntOf;
    var d, body := |delivered|, Framed(ps);
    assert ps[..d] == delivered;
    BodyAt(ps, body, d);
    assert body[|Framed(delivered)|..] == tail;
    assert Framed([]) == [] by { FramedEmpty(); }
    assert ps[|ps|..] == [] && Framed(ps[d..]) == tail;
    assert d < |ps|;
    assert ps[d..][0] == ps[d] && ps[d] in ps;
    FramedHead(ps[d..], tail);
    assert tail[0..4] == tail[..4];
    assert delivered + [ps[d]] == ps[..d + 1];
  }

  lemma FramedEmpty()
    ensures Framed([]) == []
  {
  }

  /** Reading follows the stream: announced lengths are those of the payloads, and what is
      read is the next payload.  The receiver stays in step. */
  lemma KeptByReceive(memory: Memory, s0: System, s: System, k: nat)
    requires Invariant(memory, s0, s) && Enabled(s, Receive(k))
    ensures Invariant(memory, s0, Apply(memory, s, Receive(k)))
  {
    hide Framed, SentBy, IsPayload, IntBytes, IntOf, RxOk, RxStep, ReadStep, BufferLength, Unset, InStep;
    var s', got := Apply(memory, s, Receive(k)), s.wire[..k];
    forall j: nat | j < |s.senders| ensures SenderOk(s', j) {
      assert SenderOk(s, j);
    }
    assert Fifo(s0, s');
    hide SenderOk, Fifo, Unsent, Enabled;
    CountsAgree(s.rx, s.reading);
    ReceiveKeepsStream(s.packets, s.reading, got, s.wire[k..] + Rest(s), Payloads(s.order)) by {
      assert s.wire == got + s.wire[k..];
      Regroup(Framed(s.packets) + ReadBytes(s.reading), got, s.wire[k..], Rest(s));
    }
    Regroup2(Framed(s'.packets) + ReadBytes(s'.reading), s'.wire, Rest(s));
    assert Rest(s') == Rest(s);
    ReceiverKept(memory, s, k);
  }

  lemma CountsAgree(rx: Rx, r: Reading)
    requires RxOk(rx) && InStep(rx, r)
    ensures Lacking(r) == RxCount(rx)
  {
  }

  lemma Regroup(x: seq<byte>, a: seq<byte>, b: seq<byte>, c: seq<byte>)
    ensures x + (a + b) + c == x + a + (b + c)
  {
  }

  lemma Regroup2(x: seq<byte>, b: seq<byte>, c: seq<byte>)
    ensures x + b + c == x + (b + c)
  {
  }

  lemma ReceiveKeepsStream(packets: seq<seq<byte>>, r: Reading, got: seq<byte>, rest: seq<byte>, ps: seq<seq<byte>>)
    requires ReadingOk(r) && 1 <= |got| <= Lacking(r) && packets <= ps && forall p | p in ps :: IsPayload(p)
    requires Framed(packets) + ReadBytes(r) + got + rest == Framed(ps)
    ensures var (r', packet) := ReadStep(r, got);
            && ReadingOk(r') && Extended(packets, packet) <= ps
            && Framed(Extended(packets, packet)) + ReadBytes(r') + rest == Framed(ps)
  {
    hide *;
    var tail := ReadBytes(r) + got + rest;
    assert Framed(packets) + tail == Framed(packets) + ReadBytes(r) + got + rest;
    assert tail[|ReadBytes(r)|] == got[0];
    NextPacket(ps, packets, tail);
    var p := ps[|packets|];
    CompletedIs(r, got, rest, p);
    ReadStepKeepsStream(packets, r, got);
    ReadStepCompletes(r, got, p);
    ExtendedIs(packets, ReadStep(r, got).1, p);
  }

  lemma ExtendedIs(packets: seq<seq<byte>>, packet: Option<seq<byte>>, p: seq<byte>)
    requires packet.Some? ==> packet.value == p
    ensures Extended(packets, packet) == if packet.Some? then packets + [p] else packets
  {
  }

  /** A completed length is that of the next payload, and a completed packet is that payload. */
  lemma ReadStepCompletes(r: Reading, got: seq<byte>, p: seq<byte>)
    requires ReadingOk(r) && 1 <= |got| <= Lacking(r) && |p| >= 1
    requires r.isLength && |r.received + got| == LENGTH_SIZE ==> IntOf(r.received + got) == |p|
    requires !r.isLength ==> r.packetLen == |p| && (|r.received + got| == r.packetLen ==> r.received + got == p)
    ensures var (r', packet) := ReadStep(r, got);
            (r.isLength && !r'.isLength ==> r'.packetLen > 0) && (packet.Some? ==> packet.value == p)
  {
    hide IntOf;
  }

  /** What is complete is the length of the next payload, or the payload. */
  lemma CompletedIs(r: Reading, got: seq<byte>, rest: seq<byte>, p: seq<byte>)
    requires ReadingOk(r) && 1 <= |got| <= Lacking(r)
    requires var tail := ReadBytes(r) + got + rest;
             && 4 + |p| <= |tail| && tail[..4] == IntBytes(|p|) && IntOf(tail[..4]) == |p| >= 1 && tail[4..4 + |p|] == p
    ensures r.isLength && |r.received + got| == LENGTH_SIZE ==> IntOf(r.received + got) == |p|
    ensures !r.isLength ==>
              r.packetLen == |p| && (|r.received + got| == r.packetLen ==> r.received + got == p)
  {
    hide IntBytes, IntOf;
    var tail := ReadBytes(r) + got + rest;
    if r.isLength {
      if |r.received + got| == LENGTH_SIZE {
        assert tail[..4] == r.received + got;
      }
    } else {
      assert tail[..4] == IntBytes(r.packetLen);
      IntRoundTrip(r.packetLen);
      var all := r.received + got;
      assert tail[4..] == all + rest;
      if |all| == |p| { assert tail[4..4 + |p|] == all; }
    }
  }

  /** The receiver and the pieces after one more receive. */
  lemma ReceiverKept(memory: Memory, s: System, k: nat)
    requires ReceiverOk(memory, s) && Enabled(s, Receive(k))
    requires ReadingOk(ReadStep(s.reading, s.wire[..k]).0)
    ensures ReceiverOk(memory, Apply(memory, s, Receive(k)))
  {
    hide IntOf, Unset, Stored;
    var s', got := Apply(memory, s, Receive(k)), s.wire[..k];
    var unset := Unset(memory, |s.delivered|, BufferLength(s.rx, got));
    StaysInStep(s.rx, s.reading, got, unset);
    if s.rx.isRxPacketLen {
      assert Joined([]) == [] && Fill(unset, []) == unset;
    } else {
      ChunkAdded(Unset(memory, |s.delivered|, s.rx.packetLen), s.chunks, got);
    }
    var all := s.chunks + [got];
    if |s'.delivered| > |s.delivered| {
      var n := |s.delivered|;
      assert DeliveredAs(memory, n, s'.delivered[n], s'.packets[n], all);
    }
    forall i | 0 <= i < |s.delivered| ensures DeliveredAs(memory, i, s'.delivered[i], s'.packets[i], s'.receives[i]) {
      assert DeliveredAs(memory, i, s.delivered[i], s.packets[i], s.receives[i]);
    }
  }

  /** Every step of every participant keeps the invariant. */
  lemma StepKeepsInvariant(memory: Memory, s0: System, s: System, e: Event)
    requires Invariant(memory, s0, s) && Enabled(s, e)
    ensures Invariant(memory, s0, Apply(memory, s, e))
  {
    hide *;
    match e
    case Lock(i) => KeptByLock(memory, s0, s, i);
    case SendLength(_, _) => KeptBySend(memory, s0, s, e);
    case SendData(_, _) => KeptBySend(memory, s0, s, e);
    case Unlock(i) => KeptByUnlock(memory, s0, s, i);
    case Receive(k) => KeptByReceive(memory, s0, s, k);
  }

  // ----- every step comes nearer to the end

  ghost function PacketWork(p: seq<byte>): nat {
    2 * |p| + 2 * LENGTH_SIZE + 2
  }

  ghost function TodoWork(todo: seq<seq<byte>>): nat {
    if todo == [] then 0 else PacketWork(todo[0]) + TodoWork(todo[1..])
  }

  ghost function SenderWork(d: Sender): int {
    TodoWork(d.todo) - match d.phase
                       case Idle => 0
                       case SendingLength(n) => 1 + 2 * n
                       case SendingData(n) => 1 + 2 * LENGTH_SIZE + 2 * n
  }

  ghost function Work(ds: seq<Sender>): int {
    if ds == [] then 0 else SenderWork(ds[0]) + Work(ds[1..])
  }

  /** Two for every byte to be sent, one for every byte on the way, two for every packet. */
  ghost function Measure(s: System): int {
    Work(s.senders) + |s.wire|
  }

  lemma {:induction false} WorkUpdated(ds: seq<Sender>, i: nat, d: Sender)
    requires i < |ds|
    ensures Work(ds[i := d]) == Work(ds) - SenderWork(ds[i]) + SenderWork(d)
  {
    if i > 0 {
      assert ds[i := d][1..] == ds[1..][i - 1 := d];
      WorkUpdated(ds[1..], i - 1, d);
    } else {
      assert ds[0 := d][1..] == ds[1..];
    }
  }

  lemma {:induction false} WorkPositive(ds: seq<Sender>)
    requires forall i | 0 <= i < |ds| :: SenderWork(ds[i]) >= 0
    ensures Work(ds) >= 0
  {
    if ds == [] {
    } else {
      assert forall i | 0 <= i < |ds[1..]| :: ds[1..][i] == ds[i + 1];
      WorkPositive(ds[1..]);
    }
  }

  lemma MeasurePositive(memory: Memory, s0: System, s: System)
    requires Invariant(memory, s0, s)
    ensures Measure(s) >= 0
  {
    forall i | 0 <= i < |s.senders| ensures SenderWork(s.senders[i]) >= 0 {
      assert SenderOk(s, i);
    }
    WorkPositive(s.senders);
  }

  lemma StepDecreases(memory: Memory, s: System, e: Event)
    requires Enabled(s, e)
    ensures Measure(Apply(memory, s, e)) < Measure(s)
  {
    hide RxStep, ReadStep, Unset, RxCount;
    match e
    case Receive(k) =>
    case Lock(i) => WorkUpdated(s.senders, i, Apply(memory, s, e).senders[i]);
    case SendLength(i, k) => WorkUpdated(s.senders, i, Apply(memory, s, e).senders[i]);
    case SendData(i, k) => WorkUpdated(s.senders, i, Apply(memory, s, e).senders[i]);
    case Unlock(i) => WorkUpdated(s.senders, i, Apply(memory, s, e).senders[i]);
  }

  lemma {:induction false} RunFrom(memory: Memory, s0: System, m: System, es: seq<Event>, s: System)
    requires Invariant(memory, s0, m) && Runs(memory, m, es, s)
    ensures Invariant(memory, s0, s) && |es| + Measure(s) <= Measure(m)
    decreases |es|
  {
    hide Invariant, Enabled, Apply, Measure;
    if es == [] {
    } else {
      StepKeepsInvariant(memory, s0, m, es[0]);
      StepDecreases(memory, m, es[0]);
      RunFrom(memory, s0, Apply(memory, m, es[0]), es[1..], s);
    }
  }

  lemma RunKeepsInvariant(memory: Memory, s0: System, es: seq<Event>, s: System)
    requires Initial(s0) && Runs(memory, s0, es, s)
    ensures Invariant(memory, s0, s)
  {
    hide Invariant, Initial, Runs;
    InvariantInitially(memory, s0);
    RunFrom(memory, s0, s0, es, s);
  }
}
