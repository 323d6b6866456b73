/** The framing of WOscTcpHandler.cpp: sending a packet behind its length, and reassembling
    packets from whatever pieces the socket delivers. */
module TcpHandlers {
  import opened Options
  import opened OscBytes
  import opened Framing

  datatype Error = NoError | ConnectionLost | ConnectionClosed | ConnectionFailure

  const LENGTH_SIZE: nat := 4

  // ----- the reassembly that the framing asks for

  /** The bytes of the current packet that have been read: bytes of its length, or of its data. */
  datatype Reading = Reading(isLength: bool, received: seq<byte>, packetLen: int)

  ghost predicate ReadingOk(r: Reading) {
    if r.isLength then |r.received| < LENGTH_SIZE
    else 0 < r.packetLen <= MAX_INT && |r.received| < r.packetLen
  }

  /** How many bytes the current length or data still lacks. */
  ghost function Lacking(r: Reading): int {
    if r.isLength then LENGTH_SIZE - |r.received| else r.packetLen - |r.received|
  }

  /** What more bytes make of a reading, and the packet that they complete, if any. */
  ghost function ReadStep(r: Reading, got: seq<byte>): (Reading, Option<seq<byte>>) {
    var all := r.received + got;
    if r.isLength then
      if |all| == LENGTH_SIZE then (Reading(false, [], IntOf(all)), None) else (Reading(true, all, 0), None)
    else if |all| == r.packetLen then (Reading(true, [], 0), Some(all))
    else (Reading(false, all, r.packetLen), None)
  }

  /** The bytes of the stream that belong to the current packet. */
  ghost function ReadBytes(r: Reading): seq<byte> {
    if r.isLength then r.received else IntBytes(r.packetLen) + r.received
  }

  ghost function Extended(packets: seq<seq<byte>>, packet: Option<seq<byte>>): seq<seq<byte>> {
    if packet.Some? then packets + [packet.value] else packets
  }

  /** The packets and the reading together are the stream. */
  lemma ReadStepKeepsStream(packets: seq<seq<byte>>, r: Reading, got: seq<byte>)
    requires ReadingOk(r) && 1 <= |got| <= Lacking(r)
    ensures var (r', packet) := ReadStep(r, got);
            Framed(Extended(packets, packet)) + ReadBytes(r') == Framed(packets) + ReadBytes(r) + got
    ensures var (r', packet) := ReadStep(r, got);
            (r.isLength && !r'.isLength ==> r'.packetLen > 0) ==> ReadingOk(r')
  {
    hide Framed, IntOf, IntBytes;
    var all := r.received + got;
    if r.isLength {
      if |all| == LENGTH_SIZE { BytesRoundTrip(all); }
      assert Framed(packets) + all == Framed(packets) + r.received + got;
    } else {
      assert IntBytes(r.packetLen) + all == IntBytes(r.packetLen) + r.received + got;
      if |all| == r.packetLen {
        FramedSnoc(packets, all);
      }
      assert Framed(packets) + (IntBytes(r.packetLen) + all)
          == Framed(packets) + (IntBytes(r.packetLen) + r.received) + got;
    }
  }

  // ----- the receive state machine as it is coded, as a value

  /** The state, with the bytes of the length that have come in and the data buffer. */
  datatype Rx = Rx(isRxPacketLen: bool, nReceived: nat, lengthBytes: seq<byte>, packetLen: int, packetData: seq<byte>)

  /** Between two calls neither the length nor the data is complete. */
  ghost predicate RxOk(rx: Rx) {
    if rx.isRxPacketLen then
      rx.nReceived == |rx.lengthBytes| < LENGTH_SIZE && rx.packetLen == 0 && rx.packetData == []
    else
      rx.nReceived < rx.packetLen <= MAX_INT && |rx.packetData| == rx.packetLen && rx.lengthBytes == []
  }

  /** How many bytes are asked for. */
  function RxCount(rx: Rx): int {
    if rx.isRxPacketLen then LENGTH_SIZE - rx.nReceived else rx.packetLen - rx.nReceived
  }

  /** What the recv of some data leaves in the buffer: it always stores at the beginning. */
  function Stored(buffer: seq<byte>, got: seq<byte>): (b: seq<byte>)
    ensures |got| <= |buffer| ==> |b| == |buffer|
    ensures |got| == |buffer| ==> b == got
  {
    if |got| <= |buffer| then got + buffer[|got|..] else got
  }

  /** One recv and what follows it.  A new data buffer contains unset. */
  ghost function RxStep(rx: Rx, got: seq<byte>, unset: seq<byte>): (Rx, Option<seq<byte>>) {
    if rx.isRxPacketLen then
      var all := rx.lengthBytes + got;
      if |all| == LENGTH_SIZE then (Rx(false, 0, [], IntOf(all), unset), None)
      else (Rx(true, |all|, all, 0, []), None)
    else
      var n, buffer := rx.nReceived + |got|, Stored(rx.packetData, got);
      if n == rx.packetLen then (Rx(true, 0, [], 0, []), Some(buffer))
      else (rx.(nReceived := n, packetData := buffer), None)
  }

  /** The length of the data buffer that is allocated by this recv, if one is. */
  ghost function BufferLength(rx: Rx, got: seq<byte>): int {
    if rx.isRxPacketLen && |rx.lengthBytes + got| == LENGTH_SIZE then IntOf(rx.lengthBytes + got) else 0
  }

  /** The coded machine counts what has been read, and has the length; of the data it only
      knows how many bytes there were. */
  ghost predicate InStep(rx: Rx, r: Reading) {
    && rx.isRxPacketLen == r.isLength && rx.nReceived == |r.received|
    && if r.isLength then rx.lengthBytes == r.received else rx.packetLen == r.packetLen
  }

  /** For receives of any size the coded machine stays in step with the reassembly: packets
      are completed at the same moments and have the right lengths. */
  lemma StaysInStep(rx: Rx, r: Reading, got: seq<byte>, unset: seq<byte>)
    requires RxOk(rx) && InStep(rx, r) && 1 <= |got| <= RxCount(rx)
    requires BufferLength(rx, got) >= 0 && |unset| == BufferLength(rx, got)
    ensures ReadingOk(r) && Lacking(r) == RxCount(rx)
    ensures var (rx', packet) := RxStep(rx, got, unset);
            var (r', whole) := ReadStep(r, got);
            && InStep(rx', r') && (packet.Some? <==> whole.Some?)
            && (packet.Some? ==> |packet.value| == |whole.value|)
            && (rx.isRxPacketLen && !rx'.isRxPacketLen ==> packet == None && rx'.packetData == unset)
            && (BufferLength(rx, got) > 0 || !rx.isRxPacketLen || rx'.isRxPacketLen ==> RxOk(rx'))
  {
    hide IntOf;
  }

  // ----- what the data buffer ends up with

  /** The buffer after several receives. */
  ghost function Fill(buffer: seq<byte>, chunks: seq<seq<byte>>): seq<byte> {
    if chunks == [] then buffer
    else Stored(Fill(buffer, chunks[..|chunks| - 1]), chunks[|chunks| - 1])
  }

  /** The bytes that were received, in order. */
  ghost function Joined(chunks: seq<seq<byte>>): seq<byte> {
    if chunks == [] then [] else Joined(chunks[..|chunks| - 1]) + chunks[|chunks| - 1]
  }

  ghost predicate NoneEmpty(chunks: seq<seq<byte>>) {
    forall i | 0 <= i < |chunks| :: chunks[i] != []
  }

  lemma ChunkAdded(buffer: seq<byte>, chunks: seq<seq<byte>>, got: seq<byte>)
    ensures Fill(buffer, chunks + [got]) == Stored(Fill(buffer, chunks), got)
    ensures Joined(chunks + [got]) == Joined(chunks) + got
    ensures NoneEmpty(chunks + [got]) <==> NoneEmpty(chunks) && got != []
  {
    var all := chunks + [got];
    assert all[..|chunks|] == chunks && all[|chunks|] == got;
    if NoneEmpty(all) {
      assert forall i | 0 <= i < |chunks| :: chunks[i] == all[i];
    }
  }

  lemma {:induction false} JoinedLength(chunks: seq<seq<byte>>, i: nat)
    requires i < |chunks| && NoneEmpty(chunks)
    ensures |chunks[i]| + |chunks| - 1 <= |Joined(chunks)|
  {
    var init := chunks[..|chunks| - 1];
    if i == |init| {
      JoinedAtLeast(init);
    } else {
      JoinedLength(init, i);
    }
  }

  lemma {:induction false} JoinedAtLeast(chunks: seq<seq<byte>>)
    requires NoneEmpty(chunks)
    ensures |chunks| <= |Joined(chunks)|
  {
    if chunks == [] {
    } else {
      JoinedAtLeast(chunks[..|chunks| - 1]);
    }
  }

  lemma {:induction false} EndUntouched(buffer: seq<byte>, chunks: seq<seq<byte>>)
    requires buffer != [] && forall i | 0 <= i < |chunks| :: |chunks[i]| < |buffer|
    ensures |Fill(buffer, chunks)| == |buffer| && Fill(buffer, chunks)[|buffer| - 1] == buffer[|buffer| - 1]
  {
    if chunks == [] {
    } else {
      EndUntouched(buffer, chunks[..|chunks| - 1]);
    }
  }

  /** With a single receive the buffer holds the data, whatever was in it. */
  lemma OneReceiveFills(buffer: seq<byte>, chunks: seq<seq<byte>>)
    requires |chunks| == 1 && |buffer| == |Joined(chunks)|
    ensures Fill(buffer, chunks) == Joined(chunks)
  {
    assert chunks[..0] == [] && [] + chunks[0] == chunks[0];
  }

  /** With several receives the last byte is never written. */
  lemma SeveralReceivesLose(buffer: seq<byte>, chunks: seq<seq<byte>>)
    requires |chunks| >= 2 && NoneEmpty(chunks) && |buffer| == |Joined(chunks)|
    ensures buffer != [] && |Fill(buffer, chunks)| == |buffer|
    ensures Fill(buffer, chunks)[|buffer| - 1] == buffer[|buffer| - 1]
  {
    forall i | 0 <= i < |chunks| ensures |chunks[i]| < |buffer| {
      JoinedLength(chunks, i);
    }
    JoinedLength(chunks, 0);
    EndUntouched(buffer, chunks);
  }

  /** Data survive the buffer, whatever was in it before, exactly if they came in one receive. */
  lemma IntactIffOneReceive(chunks: seq<seq<byte>>)
    requires NoneEmpty(chunks) && chunks != []
    ensures (forall buffer | |buffer| == |Joined(chunks)| :: Fill(buffer, chunks) == Joined(chunks)) <==> |chunks| == 1
  {
    var data := Joined(chunks);
    JoinedLength(chunks, 0);
    if |chunks| == 1 {
      forall buffer | |buffer| == |data| ensures Fill(buffer, chunks) == data {
        OneReceiveFills(buffer, chunks);
      }
    } else {
      var last := |data| - 1;
      var buffer := data[last := Other(data[last])];
      SeveralReceivesLose(buffer, chunks);
      assert Fill(buffer, chunks)[last] != data[last];
    }
  }

  function Other(b: byte): (c: byte)
    ensures c != b
  {
    if b == 0 then 1 else 0
  }

  /** Four bytes read two by two: the second two stand in front, and behind them stands what
      the new buffer had there. */
  lemma TwoByTwo(unset: seq<byte>)
    requires |unset| == 4
    ensures var first := RxStep(Rx(false, 0, [], 4, unset), [1, 2], []).0;
            RxStep(first, [3, 4], []).1 == Some([3, 4] + unset[2..])
    ensures [3, 4] + unset[2..] != [1, 2, 3, 4]
  {
    var first := RxStep(Rx(false, 0, [], 4, unset), [1, 2], []).0;
    assert first.packetData == [1, 2] + unset[2..];
    assert first.packetData[2..] == unset[2..];
    assert ([3, 4] + unset[2..])[0] != [1, 2, 3, 4][0];
  }

  // ----- the receive state machine, as an object

  class SelectRxState {
    var isRxPacketLen: bool
    var nReceived: nat
    /** The bytes of packetLen while they come in. */
    var lengthBytes: array<byte>
    var packetLen: int
    var packetData: array<byte>

    ghost predicate Valid()
      reads this, lengthBytes, packetData
    {
      && lengthBytes.Length == LENGTH_SIZE && lengthBytes != packetData
      && if isRxPacketLen then nReceived < LENGTH_SIZE
         else 0 < packetLen <= MAX_INT && nReceived < packetLen == packetData.Length
    }

    ghost function State(): (rx: Rx)
      reads this, lengthBytes, packetData
      requires Valid()
      ensures RxOk(rx)
    {
      if isRxPacketLen then Rx(true, nReceived, lengthBytes[..nReceived], 0, [])
      else Rx(false, nReceived, [], packetLen, packetData[..])
    }

    constructor ()
      ensures Valid() && fresh(lengthBytes) && fresh(packetData) && State() == Rx(true, 0, [], 0, [])
    {
      isRxPacketLen, nReceived, packetLen := true, 0, 0;
      lengthBytes := new byte[LENGTH_SIZE];
      packetData := new byte[0];
    }

    /** Back to the beginning of a packet. */
    method Init()
      requires Valid()
      modifies this
      ensures Valid() && lengthBytes == old(lengthBytes) && fresh(packetData) && State() == Rx(true, 0, [], 0, [])
    {
      packetData := new byte[0];
      isRxPacketLen := true;
      nReceived := 0;
    }

    /** recv stores the bytes: those of the length behind each other, those of the data always at
        the beginning of the buffer. */
    method Store(got: seq<byte>)
      requires Valid() && |got| <= RxCount(State())
      modifies this`nReceived, lengthBytes, packetData
      ensures nReceived == old(nReceived) + |got|
      ensures isRxPacketLen ==>
                nReceived <= LENGTH_SIZE && lengthBytes[..nReceived] == old(State()).lengthBytes + got
      ensures !isRxPacketLen ==> packetData[..] == Stored(old(packetData[..]), got)
    {
      ghost var rx := State();
      if isRxPacketLen {
        PutBytes(lengthBytes, nReceived, got);
        assert lengthBytes[..nReceived + |got|] == rx.lengthBytes + got;
      } else {
        PutBytes(packetData, 0, got);
        assert packetData[..] == packetData[..0 + |got|] + packetData[0 + |got|..] == Stored(rx.packetData, got);
      }
      nReceived := nReceived + |got|;
    }

    /** One call of recv and what follows it.  The result of recv and the bytes it stored are
        parameters; nobody chooses what a new data buffer contains. */
    method NetworkReceiveInternal(nRecv: int, got: seq<byte>)
      returns (error: Error, packet: Option<seq<byte>>, ghost contents: seq<byte>)
      requires Valid() && (nRecv > 0 ==> |got| == nRecv <= RxCount(State()))
      requires nRecv > 0 && nReceived + nRecv == LENGTH_SIZE && isRxPacketLen ==> BufferLength(State(), got) > 0
      modifies this, lengthBytes, packetData
      ensures Valid() && lengthBytes == old(lengthBytes) && (packetData == old(packetData) || fresh(packetData))
      ensures error == if nRecv == 0 then ConnectionClosed else if nRecv < 0 then ConnectionFailure else NoError
      ensures nRecv <= 0 ==> State() == old(State()) && packet == None
      ensures nRecv > 0 ==> |contents| == old(BufferLength(State(), got))
      ensures nRecv > 0 ==> (State(), packet) == RxStep(old(State()), got, contents)
    {
      hide IntOf;
      packet, contents := None, [];
      if nRecv == 0 {
        return ConnectionClosed, None, [];
      } else if nRecv < 0 {
        return ConnectionFailure, None, [];
      }
      ghost var rx := State();
      Store(got);
      if isRxPacketLen && nReceived == LENGTH_SIZE {
        assert lengthBytes[..] == rx.lengthBytes + got;
        packetLen := BufferToInt(lengthBytes[..], 0);
        assert lengthBytes[..][0..4] == lengthBytes[..];
        isRxPacketLen := false;
        packetData := new byte[packetLen];
        contents := packetData[..];
        nReceived := 0;
      } else if !isRxPacketLen && nReceived == packetLen {
        isRxPacketLen := true;
        packet := Some(packetData[..]);
        nReceived := 0;
      }
      error := NoError;
    }
  }

  // ----- sending

  /** A stream socket that takes as many bytes as it likes, or fails. */
  class Socket {
    var sent: seq<byte>

    method Send(bytes: seq<byte>) returns (n: int)
      modifies this
      ensures -1 <= n <= |bytes|
      ensures sent == if n > 0 then old(sent) + bytes[..n] else old(sent)
    {
      n :| -1 <= n <= |bytes|;
      if n > 0 {
        sent := sent + bytes[..n];
      }
    }
  }

  /** Sends until everything is sent or the socket fails. */
  method SendOverSocket(socket: Socket, buffer: seq<byte>) returns (result: int)
    modifies socket
    ensures result == |buffer| ==> socket.sent == old(socket.sent) + buffer
    ensures result != |buffer| ==>
              result == -1 && exists k: nat | k < |buffer| :: socket.sent == old(socket.sent) + buffer[..k]
  {
    var nSent := 0;
    while |buffer| - nSent > 0
      invariant 0 <= nSent <= |buffer| && socket.sent == old(socket.sent) + buffer[..nSent]
      decreases |buffer| - nSent
    {
      var n := socket.Send(buffer[nSent..]);
      if n <= 0 {
        return -1;
      }
      assert buffer[..nSent + n] == buffer[..nSent] + buffer[nSent..][..n];
      nSent := nSent + n;
    }
    assert buffer[..nSent] == buffer;
    result := nSent;
  }

  /** The part of NetworkSend that runs under the mutex: the length, then the data.  Empty data
      are reported as a lost connection, after their length has been sent. */
  method NetworkSend(socket: Socket, data: seq<byte>) returns (error: Error)
    requires |data| <= MAX_INT
    modifies socket
    ensures error == NoError ==> data != [] && socket.sent == old(socket.sent) + Framed([data])
    ensures error != NoError ==>
              error == ConnectionLost
              && exists k: nat | k <= |Framed([data])| ::
                   (k < |Framed([data])| || data == []) && socket.sent == old(socket.sent) + Framed([data])[..k]
    ensures data == [] ==> error == ConnectionLost
  {
    hide IntBytes;
    ghost var packet, before := Framed([data]), socket.sent;
    FramedCons([data]);
    assert [data][1..] == [] && packet == IntBytes(|data|) + data;
    var len := SendOverSocket(socket, IntBytes(|data|));
    if len <= 0 {
      ghost var k: nat :| k < 4 && socket.sent == before + IntBytes(|data|)[..k];
      assert packet[..k] == IntBytes(|data|)[..k];
      return ConnectionLost;
    }
    len := SendOverSocket(socket, data);
    if len <= 0 {
      ghost var k: nat :| k <= |data| && (k < |data| || data == [])
        && socket.sent == before + IntBytes(|data|) + data[..k];
      assert packet[..4 + k] == IntBytes(|data|) + data[..k];
      return ConnectionLost;
    }
    error := NoError;
  }
}
