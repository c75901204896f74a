/** The receive half of the RNDIS data path: 64-byte USB packets are reassembled into messages,
    each message is checked, and the Ethernet frame inside it is handed to the network stack. */
module RndisReceive {
  import opened Bytes
  import opened RndisFormat

  const DATA_OUT_EP := 0x03

  /** What the network stack is given. `Wild` is a pointer and a length that do not lie inside the
      message: the 32-bit check can pass because its sum wraps. */
  datatype Delivery =
    | Frame(bytes: seq<byte>)
    | Wild(start: word32, length: word32)

  /** The receiver seen from outside. `pending` holds the packets of the unfinished message;
      left-over bytes of the static buffer and of the static length are not part of it. */
  datatype Rx = Rx(pending: seq<byte>, listening: bool, rxok: word32, rxbad: word32, delivered: seq<Delivery>)

  predicate Between(rx: Rx) {
    |rx.pending| % PACKET_SIZE == 0 && |rx.pending| <= 1536
  }

  /** The verdict on a complete message. */
  function Handle(rx: Rx, msg: seq<byte>): (r: Rx)
    requires |msg| <= RX_BUFFER_SIZE
  {
    if |msg| < HEADER_SIZE || Le32(msg, 0) != PACKET_MSG || Le32(msg, 4) != |msg| then
      rx
    else
      var start := Add32(Le32(msg, 8), 8);
      var length := Le32(msg, 12);
      if Add32(start, length) != |msg| then
        rx.(rxbad := Add32(rx.rxbad, 1))
      else
        rx.(rxok := Add32(rx.rxok, 1),
            delivered := if rx.listening then rx.delivered + [Slice(msg, start, length)] else rx.delivered)
  }

  function Slice(msg: seq<byte>, start: word32, length: word32): (d: Delivery) {
    if start + length <= |msg| then Frame(msg[start..start + length]) else Wild(start, length)
  }

  /** The effect of one USB packet. */
  function Receive(rx: Rx, packet: seq<byte>): (r: Rx)
    requires Between(rx) && |packet| <= PACKET_SIZE
    ensures Between(r)
    ensures |packet| < PACKET_SIZE ==> r.pending == []
    ensures r.listening == rx.listening
  {
    var msg := rx.pending + packet;
    if |msg| > RX_BUFFER_SIZE then
      rx.(pending := [], rxbad := Add32(rx.rxbad, 1))
    else if |packet| != PACKET_SIZE || Le32(msg, 4) == |msg| then
      Handle(rx.(pending := []), msg)
    else
      rx.(pending := msg)
  }

  class Receiver {
    const buffer: array<byte>
    var received: int
    var messageLength: int
    var listening: bool
    var rxok: word32
    var rxbad: word32
    ghost var delivered: seq<Delivery>
    ghost var rearmed: nat

    /** Between calls the fill level is a multiple of the packet size and leaves room for a header check. */
    ghost predicate Valid()
      reads this, buffer
    {
      && buffer.Length == RX_BUFFER_SIZE
      && 0 <= received <= 1536 && received % PACKET_SIZE == 0
      && (received > 0 ==> messageLength == ToInt32(Le32(buffer[..], 4)))
    }

    ghost function State(): (rx: Rx)
      requires Valid()
      reads this, buffer
    {
      Rx(buffer[..received], listening, rxok, rxbad, delivered)
    }

    constructor (listening: bool)
      ensures Valid() && fresh(buffer)
      ensures State() == Rx([], listening, 0, 0, [])
    {
      buffer := new byte[RX_BUFFER_SIZE](_ => 0);
      received, messageLength := 0, 0;
      rxok, rxbad := 0, 0;
      this.listening := listening;
      delivered, rearmed := [], 0;
    }

    method HandlePacket(size: nat)
      requires size <= buffer.Length == RX_BUFFER_SIZE
      modifies this`rxok, this`rxbad, this`delivered
      ensures Rx([], listening, rxok, rxbad, delivered)
           == Handle(Rx([], listening, old(rxok), old(rxbad), old(delivered)), buffer[..size])
    {
      if size < HEADER_SIZE { return; }
      ghost var msg := buffer[..size];
      var messageType, length := Field(0), Field(4);
      Le32Same(buffer[..], 0, msg, 0);
      Le32Same(buffer[..], 4, msg, 4);
      if messageType != PACKET_MSG || length != size { return; }
      var dataOffset, dataLength := Field(8), Field(12);
      Le32Same(buffer[..], 8, msg, 8);
      Le32Same(buffer[..], 12, msg, 12);
      if Add32(Add32(dataOffset, 8), dataLength) != size {
        rxbad := Add32(rxbad, 1);
        return;
      }
      rxok := Add32(rxok, 1);
      if listening {
        delivered := delivered + [Slice(msg, Add32(dataOffset, 8), dataLength)];
      }
    }

    function Field(i: nat): (w: word32)
      requires i + 4 <= buffer.Length
      reads buffer
      ensures w == Le32(buffer[..], i)
    {
      Word(buffer[i], buffer[i + 1], buffer[i + 2], buffer[i + 3])
    }

    /** memcpy of a packet behind the bytes already received. */
    method Append(packet: seq<byte>)
      requires Valid() && received + |packet| <= RX_BUFFER_SIZE
      modifies buffer
      ensures Valid()
      ensures buffer[..received + |packet|] == old(buffer[..received]) + packet
      ensures received + |packet| >= 8 ==> Le32(buffer[..], 4) == Le32(old(buffer[..received]) + packet, 4)
    {
      forall k | 0 <= k < |packet| {
        buffer[received + k] := packet[k];
      }
      if received > 0 {
        assert buffer[4..8] == old(buffer[4..8]);
        Le32Same(buffer[..], 4, old(buffer[..]), 4);
      }
      ghost var msg := old(buffer[..received]) + packet;
      assert buffer[..received + |packet|] == msg;
      if |msg| >= 8 {
        assert buffer[4..8] == msg[4..8];
        Le32Same(buffer[..], 4, msg, 4);
      }
    }

    method Store(packet: seq<byte>)
      requires Valid() && |packet| <= PACKET_SIZE
      modifies this, buffer
      ensures Valid()
      ensures State() == Receive(old(State()), packet) && rearmed == old(rearmed)
    {
      if received + |packet| > RX_BUFFER_SIZE {
        rxbad := Add32(rxbad, 1);
        received := 0;
      } else {
        if received + |packet| <= RX_BUFFER_SIZE {
          ghost var msg := buffer[..received] + packet;
          Append(packet);
          if received == 0 {
            messageLength := ToInt32(Field(4));
          }
          received := received + |packet|;
          assert buffer[..received] == msg;
          if |packet| != PACKET_SIZE || received == messageLength {
            HandlePacket(received);
            received := 0;
          }
        } else {
          assert false;  // the inner overflow branch repeats the outer test
        }
      }
    }

    /** The out-endpoint callback. The stale bytes behind the fill level, and a length field left from an
        earlier message, never reach the result: it is a function of `State()`. */
    method DataOut(epnum: byte, packet: seq<byte>)
      requires Valid() && |packet| <= PACKET_SIZE
      modifies this, buffer
      ensures Valid()
      ensures epnum == DATA_OUT_EP ==> State() == Receive(old(State()), packet) && rearmed == old(rearmed) + 1
      ensures epnum != DATA_OUT_EP ==> State() == old(State()) && rearmed == old(rearmed)
    {
      if epnum == DATA_OUT_EP {
        Store(packet);
        rearmed := rearmed + 1;
      }
    }
  }

  // ---------- Runs ----------

  function Run(rx: Rx, packets: seq<seq<byte>>): (r: Rx)
    requires Between(rx) && forall p | p in packets :: |p| <= PACKET_SIZE
    ensures Between(r) && r.listening == rx.listening
    decreases packets
  {
    if packets == [] then rx else Run(Receive(rx, packets[0]), packets[1..])
  }

  lemma {:induction false} RunAppend(rx: Rx, a: seq<seq<byte>>, b: seq<seq<byte>>)
    requires Between(rx) && (forall p | p in a :: |p| <= PACKET_SIZE) && (forall p | p in b :: |p| <= PACKET_SIZE)
    ensures forall p | p in a + b :: |p| <= PACKET_SIZE
    ensures Run(rx, a + b) == Run(Run(rx, a), b)
    decreases a
  {
    if a == [] {
      assert a + b == b;
    } else {
      assert (a + b)[1..] == a[1..] + b;
      RunAppend(Receive(rx, a[0]), a[1..], b);
    }
  }

  // ---------- Framing ----------

  /** A sender may end an exact multiple of the packet size with an empty packet. */
  function Packets(m: seq<byte>, zlp: bool): (ps: seq<seq<byte>>)
    ensures forall p | p in ps :: |p| <= PACKET_SIZE
  {
    Chunks(m) + if zlp && |m| % PACKET_SIZE == 0 then [[]] else []
  }

  /** A message that states its own length. */
  predicate Framed(m: seq<byte>) {
    8 <= |m| <= RX_BUFFER_SIZE && Le32(m, 4) == |m|
  }

  /** While the message is incomplete its prefix waits; the stated length cannot match early. */
  lemma PrefixWaits(rx: Rx, m: seq<byte>, k: nat)
    requires Framed(m) && k + PACKET_SIZE < |m| && k % PACKET_SIZE == 0 && rx.pending == m[..k]
    ensures Between(rx) && Receive(rx, m[k..k + PACKET_SIZE]) == rx.(pending := m[..k + PACKET_SIZE])
  {
    assert rx.pending + m[k..k + PACKET_SIZE] == m[..k + PACKET_SIZE];
    Le32Same(m, 4, m[..k + PACKET_SIZE], 4);
  }

  lemma LastPacketCompletes(rx: Rx, m: seq<byte>, k: nat)
    requires Framed(m) && k < |m| <= k + PACKET_SIZE && k % PACKET_SIZE == 0 && rx.pending == m[..k]
    ensures Between(rx) && Receive(rx, m[k..]) == Handle(rx.(pending := []), m)
  {
    assert rx.pending + m[k..] == m;
  }

  lemma {:induction false} FramingFrom(rx: Rx, m: seq<byte>, k: nat)
    requires Framed(m) && k < |m| && k % PACKET_SIZE == 0 && rx.pending == m[..k]
    ensures Between(rx) && Run(rx, Chunks(m[k..])) == Handle(rx.(pending := []), m)
    decreases |m| - k
  {
    var rest := m[k..];
    if |rest| <= PACKET_SIZE {
      LastPacketCompletes(rx, m, k);
      assert Run(rx, [rest]) == Run(Receive(rx, rest), []);
    } else {
      PrefixWaits(rx, m, k);
      var p := rest[..PACKET_SIZE];
      assert p == m[k..k + PACKET_SIZE] && rest[PACKET_SIZE..] == m[k + PACKET_SIZE..];
      var next := rx.(pending := m[..k + PACKET_SIZE]);
      FramingFrom(next, m, k + PACKET_SIZE);
      assert Chunks(rest)[0] == p && Chunks(rest)[1..] == Chunks(rest[PACKET_SIZE..]);
      assert Run(rx, Chunks(rest)) == Run(next, Chunks(rest)[1..]);
    }
  }

  /** Reassembly is exact: the packets of one framed message have the effect of handling that message
      once, whether or not an empty packet follows. */
  lemma Framing(rx: Rx, m: seq<byte>, zlp: bool)
    requires rx.pending == [] && Framed(m)
    ensures Run(rx, Packets(m, zlp)) == Handle(rx, m)
  {
    assert m[0..] == m && m[..0] == [];
    FramingFrom(rx, m, 0);
    RunAppend(rx, Chunks(m), if zlp && |m| % PACKET_SIZE == 0 then [[]] else []);
    var r := Handle(rx, m);
    assert r.pending + [] == [];
    assert Receive(r, []) == r;
    assert Run(r, [[]]) == Run(Receive(r, []), []);
  }

  // ---------- Streams of well-formed messages ----------

  datatype Sent = Sent(msg: seq<byte>, zlp: bool)

  /** Section 2.2.14 of [MS-RNDIS], with nothing after the data. */
  predicate WellFormed(m: seq<byte>) {
    && HEADER_SIZE <= |m| <= RX_BUFFER_SIZE
    && Le32(m, 0) == PACKET_MSG
    && Le32(m, 4) == |m|
    && Le32(m, 8) + 8 + Le32(m, 12) == |m|
  }

  function Payload(m: seq<byte>): (f: seq<byte>)
    requires WellFormed(m)
    ensures |f| == Le32(m, 12)
  {
    m[Le32(m, 8) + 8..]
  }

  function PacketsOfAll(sent: seq<Sent>): (ps: seq<seq<byte>>)
    ensures forall p | p in ps :: |p| <= PACKET_SIZE
  {
    if sent == [] then [] else Packets(sent[0].msg, sent[0].zlp) + PacketsOfAll(sent[1..])
  }

  function Frames(sent: seq<Sent>): (ds: seq<Delivery>)
    requires forall s | s in sent :: WellFormed(s.msg)
  {
    if sent == [] then [] else [Frame(Payload(sent[0].msg))] + Frames(sent[1..])
  }

  /** `rx` after it has received `sent`. */
  function Got(rx: Rx, sent: seq<Sent>): (r: Rx)
    requires forall s | s in sent :: WellFormed(s.msg)
  {
    rx.(rxok := Add32(rx.rxok, Low32(|sent|)), delivered := rx.delivered + Frames(sent))
  }

  lemma GotMore(rx: Rx, first: Sent, rest: seq<Sent>)
    requires WellFormed(first.msg) && forall s | s in rest :: WellFormed(s.msg)
    ensures Got(Got(rx, [first]), rest) == Got(rx, [first] + rest)
  {
    Low32Next(|rest|);
    Add32Assoc(rx.rxok, 1, Low32(|rest|));
    assert Frames([first]) == [Frame(Payload(first.msg))];
    assert ([first] + rest)[1..] == rest;
    assert rx.delivered + Frames([first]) + Frames(rest) == rx.delivered + (Frames([first]) + Frames(rest));
  }

  lemma WellFormedIsDelivered(rx: Rx, m: seq<byte>)
    requires rx.listening && WellFormed(m)
    ensures Handle(rx, m) == rx.(rxok := Add32(rx.rxok, 1), delivered := rx.delivered + [Frame(Payload(m))])
  {
    var start, length := Add32(Le32(m, 8), 8), Le32(m, 12);
    assert start == Le32(m, 8) + 8 && Add32(start, length) == |m|;
    assert m[start..start + length] == Payload(m);
    assert Slice(m, start, length) == Frame(Payload(m));
  }

  lemma HandledIsGot(rx: Rx, sent: Sent)
    requires rx.listening && WellFormed(sent.msg)
    ensures Handle(rx, sent.msg) == Got(rx, [sent])
  {
    WellFormedIsDelivered(rx, sent.msg);
    assert Low32(|[sent]|) == 1;
    assert Frames([sent]) == [Frame(Payload(sent.msg))];
  }

  /** Any stream of well-formed messages is delivered: every payload, in order, once. */
  lemma {:induction false} StreamDelivered(rx: Rx, sent: seq<Sent>)
    requires rx.pending == [] && rx.listening && forall s | s in sent :: WellFormed(s.msg)
    ensures Run(rx, PacketsOfAll(sent)) == Got(rx, sent)
    decreases sent
  {
    if sent == [] {
      assert Got(rx, sent).delivered == rx.delivered;
    } else {
      var first := sent[0];
      Framing(rx, first.msg, first.zlp);
      HandledIsGot(rx, first);
      RunAppend(rx, Packets(first.msg, first.zlp), PacketsOfAll(sent[1..]));
      StreamDelivered(Got(rx, [first]), sent[1..]);
      GotMore(rx, first, sent[1..]);
      assert [first] + sent[1..] == sent;
    }
  }

  /** A framed packet message is delivered exactly when its data ends where the message does, and the slice
      handed over lies inside the message exactly when that sum does not wrap past 32 bits. */
  lemma DeliveredExactly(rx: Rx, m: seq<byte>)
    requires rx.listening && Framed(m) && HEADER_SIZE <= |m| && Le32(m, 0) == PACKET_MSG
    ensures var start: int, length: int := Add32(Le32(m, 8), 8), Le32(m, 12);
            var r := Handle(rx, m);
            && (r.delivered == rx.delivered <==> (start + length) % 0x1_0000_0000 != |m|)
            && (r.delivered == rx.delivered <==> r == rx.(rxbad := Add32(rx.rxbad, 1)))
            && (start + length == |m| ==> r.delivered == rx.delivered + [Frame(m[start..])])
            && (start + length == |m| <== exists f :: r.delivered == rx.delivered + [Frame(f)])
  {
    var start: int, length: int := Add32(Le32(m, 8), 8), Le32(m, 12);
    Add32IsModular(start, length);
    var r := Handle(rx, m);
    if Add32(start, length) == |m| {
      assert |r.delivered| == |rx.delivered| + 1 && r.delivered[|rx.delivered|] == Slice(m, start, length);
      if start + length == |m| {
        assert m[start..] == m[start..start + length];
      }
      forall f | r.delivered == rx.delivered + [Frame(f)] ensures start + length == |m| {
        assert r.delivered[|rx.delivered|] == Frame(f);
      }
    } else {
      assert r.rxbad == Add32(rx.rxbad, 1);
      forall f ensures r.delivered != rx.delivered + [Frame(f)] {
        assert |r.delivered| != |rx.delivered + [Frame(f)]|;
      }
    }
  }

  /** The wrapped sum is reachable: a header alone that points 8 bytes below 2^32, with 52 bytes there, is handed
      over. */
  lemma WrapIsReachable(rx: Rx, m: seq<byte>)
    requires rx.listening && |m| == HEADER_SIZE
    requires m[..16] == [1, 0, 0, 0, 44, 0, 0, 0, 0xF0, 0xFF, 0xFF, 0xFF, 52, 0, 0, 0]
    ensures Framed(m) && Handle(rx, m).delivered == rx.delivered + [Wild(0xFFFF_FFF8, 52)]
  {
    var h := m[..16];
    assert forall i | 0 <= i < 16 :: m[i] == h[i];
  }

  // ---------- What is ignored, counted good and counted bad ----------

  /** The verdict on any message: it changes the receiver exactly when it has at least 44 bytes, begins with the
      word 1 and states its own length in the second word. It is then counted, good exactly when DataOffset, 8 and
      DataLength add up to that length modulo 2^32; and a good one is handed over, once, if somebody listens. */
  lemma VerdictExactly(rx: Rx, m: seq<byte>)
    requires |m| <= 1558
    ensures Handle(rx, m) != rx <==> |m| >= 44 && Le32(m, 0) == 1 && Le32(m, 4) == |m|
    ensures |m| >= 44 && Le32(m, 0) == 1 && Le32(m, 4) == |m| ==>
              var r, good := Handle(rx, m), (Le32(m, 8) as int + 8 + Le32(m, 12)) % 0x1_0000_0000 == |m|;
              && r.pending == rx.pending && r.listening == rx.listening
              && r.rxok == (if good then (rx.rxok as int + 1) % 0x1_0000_0000 else rx.rxok)
              && r.rxbad == (if good then rx.rxbad else (rx.rxbad as int + 1) % 0x1_0000_0000)
              && |r.delivered| == |rx.delivered| + (if good && rx.listening then 1 else 0)
              && rx.delivered <= r.delivered
  {
    if |m| >= 44 {
      Add32IsModular(Le32(m, 8), 8);
      Add32IsModular(Add32(Le32(m, 8), 8), Le32(m, 12));
      ModularSum(Le32(m, 8), Le32(m, 12));
    }
    Add32IsModular(rx.rxok, 1);
    Add32IsModular(rx.rxbad, 1);
  }

  lemma ModularSum(a: word32, b: word32)
    ensures Add32(Add32(a, 8), b) == (a as int + 8 + b) % 0x1_0000_0000
  {
  }

  /** A packet that would run over the 1558-byte buffer, which only one of at least 23 bytes behind 1536 can, is dropped
      together with what was waiting, and counted bad. */
  lemma OverflowExactly(rx: Rx, packet: seq<byte>)
    requires Between(rx) && |packet| <= 64
    ensures |rx.pending| + |packet| > 1558 <==> |rx.pending| == 1536 && |packet| >= 23
    ensures |rx.pending| + |packet| > 1558 ==>
              Receive(rx, packet) == rx.(pending := [], rxbad := (rx.rxbad as int + 1) % 0x1_0000_0000)
  {
    Add32IsModular(rx.rxbad, 1);
    if |rx.pending| > 1472 {
      assert |rx.pending| == 64 * (|rx.pending| / 64);
    }
  }

  /** The length that the message states is that of some of its leading packets. */
  predicate CutEarly(m: seq<byte>) {
    |m| > 64 && Le32(m, 4) % 64 == 0 && 64 <= Le32(m, 4) < |m|
  }

  /** While the stated length is not reached, the prefix waits. */
  lemma AnyPrefixWaits(rx: Rx, m: seq<byte>, k: nat)
    requires |m| <= 1558 && k + 64 <= |m| && k % 64 == 0 && rx.pending == m[..k] && Le32(m, 4) != k + 64
    ensures Between(rx) && Receive(rx, m[k..k + 64]) == rx.(pending := m[..k + 64]) && k + 64 <= 1536
  {
    assert rx.pending + m[k..k + 64] == m[..k + 64];
    Le32Same(m, 4, m[..k + 64], 4);
  }

  lemma AnyLastPacket(rx: Rx, m: seq<byte>, k: nat)
    requires |m| <= 1558 && k <= |m| < k + 64 && k % 64 == 0 && rx.pending == m[..k]
    ensures Between(rx) && Receive(rx, m[k..]) == Handle(rx.(pending := []), m)
  {
    assert rx.pending + m[k..] == m;
  }

  /** Full packets and then one shorter than 64 bytes, empty if need be. */
  function ShortPackets(m: seq<byte>): (ps: seq<seq<byte>>)
    ensures forall p | p in ps :: |p| <= PACKET_SIZE
  {
    if |m| < 64 then [m] else [m[..64]] + ShortPackets(m[64..])
  }

  lemma {:induction false} ShortIsPackets(m: seq<byte>)
    ensures ShortPackets(m) == Packets(m, true)
  {
    if |m| < 64 {
      assert [] + [m] == [m];
    } else {
      ShortIsPackets(m[64..]);
      PacketsStep(m[..64], m[64..]);
      assert m == m[..64] + m[64..];
    }
  }

  lemma PacketsStep(first: seq<byte>, rest: seq<byte>)
    requires |first| == 64
    ensures Packets(first + rest, true) == [first] + Packets(rest, true)
  {
    FirstChunk(first, rest);
    SameRemainder(|rest|);
    var more: seq<seq<byte>> := if |rest| % 64 == 0 then [[]] else [];
    assert [first] + (Chunks(rest) + more) == [first] + Chunks(rest) + more;
  }

  lemma SameRemainder(n: nat)
    ensures (64 + n) % 64 == n % 64
  {
  }

  lemma {:induction false} ShortAppend(a: seq<byte>, b: seq<byte>, full: nat)
    requires |a| == 64 * full
    ensures ShortPackets(a + b) == Chunks(a) + ShortPackets(b)
    decreases full
  {
    if full == 0 {
      assert a + b == b;
    } else {
      var first, rest := a[..64], a[64..];
      assert a == first + rest && a + b == first + (rest + b);
      FirstChunk(first, rest);
      ShortFirst(first, rest + b);
      ShortAppend(rest, b, full - 1);
    }
  }

  lemma ShortFirst(first: seq<byte>, rest: seq<byte>)
    requires |first| == 64
    ensures ShortPackets(first + rest) == [first] + ShortPackets(rest)
  {
    var m := first + rest;
    assert m[..64] == first && m[64..] == rest;
  }

  lemma {:induction false} AnyFramingFrom(rx: Rx, m: seq<byte>, k: nat)
    requires |m| <= 1558 && k <= |m| && k % 64 == 0 && rx.pending == m[..k]
    requires |m| >= 64 ==> !(Le32(m, 4) % 64 == 0 && k < Le32(m, 4) <= |m|)
    ensures Between(rx) && Run(rx, ShortPackets(m[k..])) == Handle(rx.(pending := []), m)
    decreases |m| - k
  {
    var rest := m[k..];
    if |rest| < 64 {
      AnyLastPacket(rx, m, k);
      assert Run(rx, [rest]) == Run(Receive(rx, rest), []);
    } else {
      assert (k + 64) % 64 == 0;
      AnyPrefixWaits(rx, m, k);
      var p := rest[..64];
      assert p == m[k..k + 64] && rest[64..] == m[k + 64..];
      var next := rx.(pending := m[..k + 64]);
      AnyFramingFrom(next, m, k + 64);
      assert ShortPackets(rest)[0] == p && ShortPackets(rest)[1..] == ShortPackets(rest[64..]);
      assert Run(rx, ShortPackets(rest)) == Run(next, ShortPackets(rest)[1..]);
    }
  }

  /** Reassembly of any bytes at all that end in a short packet: they are handled as one message, unless the length they
      state is that of some of their leading packets; then those are handled as a message, and the rest as what comes
      after it. */
  lemma AnyMessage(rx: Rx, m: seq<byte>)
    requires rx.pending == [] && |m| <= 1558
    ensures if |m| > 64 && Le32(m, 4) % 64 == 0 && 64 <= Le32(m, 4) < |m| then
              var cut := Le32(m, 4);
              Run(rx, Packets(m, true)) == Run(Handle(rx, m[..cut]), Packets(m[cut..], true))
            else
              Run(rx, Packets(m, true)) == Handle(rx, m)
  {
    if CutEarly(m) {
      CutInTwo(rx, m, Le32(m, 4));
    } else if |m| >= 64 && Le32(m, 4) == |m| {
      Framing(rx, m, true);
    } else {
      assert m[0..] == m && m[..0] == [];
      ShortIsPackets(m);
      AnyFramingFrom(rx, m, 0);
    }
  }

  lemma CutInTwo(rx: Rx, m: seq<byte>, cut: nat)
    requires rx.pending == [] && |m| <= 1558 && CutEarly(m) && cut == Le32(m, 4)
    ensures Run(rx, Packets(m, true)) == Run(Handle(rx, m[..cut]), Packets(m[cut..], true))
  {
    var a, b := m[..cut], m[cut..];
    assert m == a + b;
    Le32Same(m, 4, a, 4);
    Framing(rx, a, false);
    assert Packets(a, false) == Chunks(a);
    ShortIsPackets(m);
    ShortIsPackets(b);
    ShortAppend(a, b, cut / 64);
    RunAppend(rx, Chunks(a), ShortPackets(b));
  }

  /** A message that ends in a short packet, does not state that it is a packet message of its length, and is not cut
      early leaves everything as it was. */
  lemma IgnoredExactly(rx: Rx, m: seq<byte>)
    requires rx.pending == [] && |m| <= 1558 && !CutEarly(m)
    ensures Run(rx, Packets(m, true)) == rx <==> !(|m| >= 44 && Le32(m, 0) == 1 && Le32(m, 4) == |m|)
  {
    AnyMessage(rx, m);
    VerdictExactly(rx, m);
  }

  // ---------- Garbage and resynchronisation ----------

  /** `b` counted on from `rx`. */
  function Since(rx: Rx, b: Rx): (r: Rx) {
    Rx(b.pending, b.listening, Add32(rx.rxok, b.rxok), Add32(rx.rxbad, b.rxbad), rx.delivered + b.delivered)
  }

  lemma HandleIsRelative(rx: Rx, b: Rx, m: seq<byte>)
    requires |m| <= RX_BUFFER_SIZE
    ensures Handle(Since(rx, b), m) == Since(rx, Handle(b, m))
  {
    Add32Assoc(rx.rxok, b.rxok, 1);
    Add32Assoc(rx.rxbad, b.rxbad, 1);
    if HEADER_SIZE <= |m| {
      var d := Slice(m, Add32(Le32(m, 8), 8), Le32(m, 12));
      assert rx.delivered + (b.delivered + [d]) == (rx.delivered + b.delivered) + [d];
    }
  }

  /** What a run adds to the counters and to the deliveries does not depend on what they were. */
  lemma {:induction false} RunIsRelative(rx: Rx, b: Rx, packets: seq<seq<byte>>)
    requires Between(b) && forall p | p in packets :: |p| <= PACKET_SIZE
    ensures Run(Since(rx, b), packets) == Since(rx, Run(b, packets))
    decreases packets
  {
    if packets != [] {
      var p := packets[0];
      assert b.pending + p == Since(rx, b).pending + p;
      if |b.pending + p| <= RX_BUFFER_SIZE {
        HandleIsRelative(rx, b.(pending := []), b.pending + p);
      }
      Add32Assoc(rx.rxbad, b.rxbad, 1);
      assert Receive(Since(rx, b), p) == Since(rx, Receive(b, p));
      RunIsRelative(rx, Receive(b, p), packets[1..]);
    }
  }

  /** Resynchronisation: whatever came before a packet shorter than 64 bytes, everything after it is received
      as by a freshly started device. */
  lemma Resynchronises(rx: Rx, garbage: seq<seq<byte>>, later: seq<seq<byte>>)
    requires Between(rx)
    requires (forall p | p in garbage :: |p| <= PACKET_SIZE) && (forall p | p in later :: |p| <= PACKET_SIZE)
    requires garbage != [] && |garbage[|garbage| - 1]| < PACKET_SIZE
    ensures forall p | p in garbage + later :: |p| <= PACKET_SIZE
    ensures var before, anew := Run(rx, garbage), Run(Rx([], rx.listening, 0, 0, []), later);
            Run(rx, garbage + later) == Since(before, anew)
  {
    var n := |garbage| - 1;
    assert garbage == garbage[..n] + [garbage[n]];
    RunAppend(rx, garbage[..n], [garbage[n]]);
    var r := Run(rx, garbage[..n]);
    assert Run(r, [garbage[n]]) == Run(Receive(r, garbage[n]), []);
    RunAppend(rx, garbage, later);
    var before, idle := Run(rx, garbage), Rx([], rx.listening, 0, 0, []);
    assert before.delivered + [] == before.delivered;
    assert Since(before, idle) == before;
    RunIsRelative(before, idle, later);
  }

  lemma OneMorePacket(rx: Rx, packets: seq<seq<byte>>, p: seq<byte>)
    requires Between(rx) && (forall q | q in packets :: |q| <= PACKET_SIZE) && |p| <= PACKET_SIZE
    ensures forall q | q in packets + [p] :: |q| <= PACKET_SIZE
    ensures Run(rx, packets + [p]) == Receive(Run(rx, packets), p)
  {
    RunAppend(rx, packets, [p]);
    var r := Run(rx, packets);
    assert Run(r, [p]) == Run(Receive(r, p), []);
  }

  lemma PendingStep(rx: Rx, recent: seq<seq<byte>>, p: seq<byte>)
    requires Between(rx) && |p| <= PACKET_SIZE && rx.pending == Concat(recent)
    ensures var r := Receive(rx, p); r.pending == [] || (r.pending == Concat(recent + [p]) && |p| == PACKET_SIZE)
  {
    ConcatAppend(recent, [p]);
    assert Concat([p]) == p + Concat([]) == p;
  }

  /** The unfinished message is always the concatenation of the last few packets, all of them full. */
  lemma {:induction false} PendingIsRecentPackets(rx: Rx, packets: seq<seq<byte>>) returns (k: nat)
    requires rx.pending == [] && forall p | p in packets :: |p| <= PACKET_SIZE
    ensures k <= |packets| && Run(rx, packets).pending == Concat(packets[k..])
    ensures forall i | k <= i < |packets| :: |packets[i]| == PACKET_SIZE
  {
    if packets == [] {
      k := 0;
    } else {
      var last := |packets| - 1;
      var front, p := packets[..last], packets[last];
      k := PendingIsRecentPackets(rx, front);
      assert packets == front + [p];
      OneMorePacket(rx, front, p);
      PendingStep(Run(rx, front), front[k..], p);
      if Run(rx, packets).pending == [] {
        k := |packets|;
      } else {
        assert packets[k..] == front[k..] + [p];
      }
    }
  }
}
