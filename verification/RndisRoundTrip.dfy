/** The bytes a frame becomes on the wire, and what the device's own receiver makes of them. */
module RndisRoundTrip {
  import opened Bytes
  import opened RndisFormat
  import opened RndisTransmit
  import RndisReceive
  import Runs = RndisTransmitRuns

  function Message(f: SendableFrame): (m: seq<byte>)
  {
    Header(|f|) + f + if Padded(|f|) then [0] else []
  }

  function PacketsOf(ts: seq<seq<byte>>): (ps: seq<seq<byte>>)
    ensures forall p | p in ps :: 0 < |p| <= PACKET_SIZE
  {
    if ts == [] then [] else Chunks(ts[0]) + PacketsOf(ts[1..])
  }

  lemma {:induction false} PacketsOfAppend(a: seq<seq<byte>>, b: seq<seq<byte>>)
    ensures PacketsOf(a + b) == PacketsOf(a) + PacketsOf(b)
  {
    if a == [] {
      assert a + b == b;
    } else {
      assert (a + b)[1..] == a[1..] + b;
      PacketsOfAppend(a[1..], b);
    }
  }

  lemma HeaderFields(size: nat, rest: seq<byte>)
    requires size <= MAX_FRAME
    ensures var m := Header(size) + rest;
            && Le32(m, 0) == PACKET_MSG
            && Le32(m, 4) == HEADER_SIZE + size + (if Padded(size) then 1 else 0)
            && Le32(m, 8) == HEADER_SIZE - 8 && Le32(m, 12) == size
            && m[16..HEADER_SIZE] == Zeros(28)
  {
    FieldsOf(PACKET_MSG, HEADER_SIZE + size + if Padded(size) then 1 else 0, HEADER_SIZE - 8, size, Zeros(28), rest);
  }

  lemma FieldsOf(a: word32, b: word32, c: word32, d: word32, z: seq<byte>, rest: seq<byte>)
    requires |z| == 28
    ensures var m := Put32(a) + Put32(b) + Put32(c) + Put32(d) + z + rest;
            Le32(m, 0) == a && Le32(m, 4) == b && Le32(m, 8) == c && Le32(m, 12) == d && m[16..HEADER_SIZE] == z
  {
    LoadStored(a);
    LoadStored(b);
    LoadStored(c);
    LoadStored(d);
    FieldsAt(Put32(a), Put32(b), Put32(c), Put32(d), z, rest);
  }

  lemma FieldsAt(a: seq<byte>, b: seq<byte>, c: seq<byte>, d: seq<byte>, z: seq<byte>, rest: seq<byte>)
    requires |a| == |b| == |c| == |d| == 4 && |z| == 28
    ensures var m := a + b + c + d + z + rest;
            && Le32(m, 0) == Le32(a, 0) && Le32(m, 4) == Le32(b, 0) && Le32(m, 8) == Le32(c, 0)
            && Le32(m, 12) == Le32(d, 0) && m[16..HEADER_SIZE] == z
  {
    var m := a + b + c + d + z + rest;
    assert m[0..4] == a[0..4] && m[4..8] == b[0..4] && m[8..12] == c[0..4] && m[12..16] == d[0..4];
    Le32Same(m, 0, a, 0);
    Le32Same(m, 4, b, 0);
    Le32Same(m, 8, c, 0);
    Le32Same(m, 12, d, 0);
  }

  /** The padding byte keeps every message off a packet boundary, and a padded message still fits. */
  lemma MessageSize(f: SendableFrame)
    ensures |Message(f)| % PACKET_SIZE != 0 && |Message(f)| <= RX_BUFFER_SIZE
    ensures |Message(f)| == HEADER_SIZE + |f| + if Padded(|f|) then 1 else 0
  {
    if Padded(|f|) {
      var q := (HEADER_SIZE + |f|) / PACKET_SIZE;
      assert HEADER_SIZE + |f| == PACKET_SIZE * q && q <= 24;
    }
  }

  /** The transfers of a frame are one message whose stated length is its true length; cut into packets they
      are the packets of that message, and the last one is never full, so no empty packet is needed. */
  lemma WireFormat(f: SendableFrame)
    ensures Concat(Transfers(f)) == Message(f)
    ensures |Message(f)| == Le32(Message(f), 4)
    ensures PacketsOf(Transfers(f)) == Chunks(Message(f))
    ensures var ps := PacketsOf(Transfers(f)); ps != [] && 0 < |ps[|ps| - 1]| < PACKET_SIZE
  {
    var n := if |f| < HEADER_ROOM then |f| else HEADER_ROOM;
    var pad: seq<byte> := if Padded(|f|) then [0] else [];
    var head := Header(|f|);
    assert f[..n] + f[n..] == f;
    Assoc(head, f[..n], f[n..]);
    Assoc(head + f[..n], f[n..], pad);
    TransfersOf(f, head + f[..n], f[n..]);
    Assoc(head, f, pad);
    HeaderFields(|f|, f + pad);
    MessageSize(f);
    LastChunk(Message(f), |Message(f)| / PACKET_SIZE, |Message(f)| % PACKET_SIZE);
    assert PacketsOf(Transfers(f)) == Chunks(Message(f));
  }

  /** Cutting loses nothing: the packets of any transfers, put together, are what the transfers carry. */
  lemma {:induction false} PacketsRejoin(ts: seq<seq<byte>>)
    ensures Concat(PacketsOf(ts)) == Concat(ts)
  {
    if ts != [] {
      ChunksRejoin(ts[0]);
      PacketsRejoin(ts[1..]);
      ConcatAppend(Chunks(ts[0]), PacketsOf(ts[1..]));
    }
  }

  /** What follows the header transfer. */
  function Tail(data: seq<byte>, pad: seq<byte>): (ts: seq<seq<byte>>) {
    (if data != [] then [data] else []) + (if pad != [] then [pad] else [])
  }

  lemma TailOf(data: seq<byte>, pad: seq<byte>)
    requires pad == [] || |data| % PACKET_SIZE == 0
    ensures Concat(Tail(data, pad)) == data + pad && PacketsOf(Tail(data, pad)) == Chunks(data + pad)
  {
    One(data);
    One(pad);
    ConcatAppend(if data != [] then [data] else [], if pad != [] then [pad] else []);
    PacketsOfAppend(if data != [] then [data] else [], if pad != [] then [pad] else []);
    if pad != [] {
      ChunksAppend(data, pad, |data| / PACKET_SIZE);
    } else {
      assert data + pad == data;
    }
  }

  lemma One(t: seq<byte>)
    ensures Concat([t]) == t && PacketsOf([t]) == Chunks(t)
  {
    assert t + Concat([]) == t && Chunks(t) + PacketsOf([]) == Chunks(t);
  }

  lemma HeadAndTail(head: seq<byte>, data: seq<byte>, pad: seq<byte>)
    requires pad == [] || |data| % PACKET_SIZE == 0
    requires data + pad == [] || |head| % PACKET_SIZE == 0
    ensures Concat([head] + Tail(data, pad)) == head + (data + pad)
    ensures PacketsOf([head] + Tail(data, pad)) == Chunks(head + (data + pad))
  {
    One(head);
    TailOf(data, pad);
    ConcatAppend([head], Tail(data, pad));
    PacketsOfAppend([head], Tail(data, pad));
    if data + pad != [] {
      ChunksAppend(head, data + pad, |head| / PACKET_SIZE);
    } else {
      assert head + (data + pad) == head;
    }
  }

  lemma TransfersOf(f: SendableFrame, head: seq<byte>, data: seq<byte>)
    requires var n := if |f| < HEADER_ROOM then |f| else HEADER_ROOM; head == Header(|f|) + f[..n] && data == f[n..]
    ensures var pad: seq<byte> := if Padded(|f|) then [0] else [];
            && Concat(Transfers(f)) == head + (data + pad)
            && PacketsOf(Transfers(f)) == Chunks(head + (data + pad))
  {
    var pad: seq<byte> := if Padded(|f|) then [0] else [];
    HeadAndTail(head, data, pad);
    assert Transfers(f) == [head] + Tail(data, pad);
  }

  // ---------- Round trip ----------

  /** The receiver after the device's own messages `fs` have been fed back to it. */
  function Echoed(rx: RndisReceive.Rx, f: seq<byte>): (r: RndisReceive.Rx) {
    if Padded(|f|) then rx.(rxbad := Add32(rx.rxbad, 1))
    else rx.(rxok := Add32(rx.rxok, 1), delivered := rx.delivered + [RndisReceive.Frame(f)])
  }

  lemma HandleOwn(rx: RndisReceive.Rx, f: SendableFrame)
    requires rx.listening
    ensures |Message(f)| <= RX_BUFFER_SIZE && RndisReceive.Framed(Message(f))
    ensures RndisReceive.Handle(rx, Message(f)) == Echoed(rx, f)
  {
    var m := Message(f);
    var pad: seq<byte> := if Padded(|f|) then [0] else [];
    Assoc(Header(|f|), f, pad);
    HeaderFields(|f|, f + pad);
    MessageSize(f);
    assert Add32(HEADER_SIZE - 8, 8) == HEADER_SIZE;
    if !Padded(|f|) {
      assert m[HEADER_SIZE..HEADER_SIZE + |f|] == f;
    }
  }

  /** A frame survives the trip exactly when its message needs no padding byte; otherwise it is counted bad,
      because the padding is part of MessageLength but not of DataLength. */
  lemma RoundTrip(rx: RndisReceive.Rx, f: SendableFrame)
    requires rx.pending == [] && rx.listening
    ensures RndisReceive.Run(rx, PacketsOf(Transfers(f))) == Echoed(rx, f)
  {
    WireFormat(f);
    HandleOwn(rx, f);
    RndisReceive.Framing(rx, Message(f), false);
    assert Chunks(Message(f)) + [] == Chunks(Message(f));
  }

  function AllEchoed(rx: RndisReceive.Rx, fs: seq<seq<byte>>): (r: RndisReceive.Rx) {
    if fs == [] then rx else Echoed(AllEchoed(rx, fs[..|fs| - 1]), fs[|fs| - 1])
  }

  lemma {:induction false} AllRoundTrip(rx: RndisReceive.Rx, fs: seq<SendableFrame>)
    requires rx.pending == [] && rx.listening
    ensures RndisReceive.Run(rx, PacketsOf(AllTransfers(fs))) == AllEchoed(rx, fs)
    ensures AllEchoed(rx, fs).pending == [] && AllEchoed(rx, fs).listening
  {
    if fs != [] {
      var n := |fs| - 1;
      AllRoundTrip(rx, fs[..n]);
      PacketsOfAppend(AllTransfers(fs[..n]), Transfers(fs[n]));
      RndisReceive.RunAppend(rx, PacketsOf(AllTransfers(fs[..n])), PacketsOf(Transfers(fs[n])));
      RoundTrip(AllEchoed(rx, fs[..n]), fs[n]);
    }
  }

  function Unpadded(fs: seq<seq<byte>>): (ds: seq<RndisReceive.Delivery>)
    ensures |ds| <= |fs|
  {
    if fs == [] then []
    else if Padded(|fs[|fs| - 1]|) then Unpadded(fs[..|fs| - 1])
    else Unpadded(fs[..|fs| - 1]) + [RndisReceive.Frame(fs[|fs| - 1])]
  }

  /** `rx` after delivering the unpadded frames of `fs` and counting the others bad. */
  function Total(rx: RndisReceive.Rx, fs: seq<seq<byte>>): (r: RndisReceive.Rx) {
    var good := Unpadded(fs);
    rx.(rxok := Add32(rx.rxok, Low32(|good|)), rxbad := Add32(rx.rxbad, Low32(|fs| - |good|)),
        delivered := rx.delivered + good)
  }

  lemma {:induction false} AllEchoedDelivers(rx: RndisReceive.Rx, fs: seq<seq<byte>>)
    ensures AllEchoed(rx, fs) == Total(rx, fs)
  {
    if fs != [] {
      var n := |fs| - 1;
      AllEchoedDelivers(rx, fs[..n]);
      var k := |Unpadded(fs[..n])|;
      Low32Next(k);
      Low32Next(n - k);
      Add32Assoc(rx.rxok, Low32(k), 1);
      Add32Assoc(rx.rxbad, Low32(n - k), 1);
    }
  }

  /** End to end: take any interleaving of sends and completions that comes to rest, and feed every packet it
      put on the wire to a receiver. Exactly the accepted frames that needed no padding come out, in order. */
  lemma WholeRunRoundTrip(es: seq<Runs.Event>, t: Runs.Sys, rx: RndisReceive.Rx)
    requires Runs.IsRun(Runs.INIT, es, t) && t.tx.state == Ready
    requires rx.pending == [] && rx.listening
    ensures RndisReceive.Run(rx, PacketsOf(t.tx.issued)) == Total(rx, t.accepted)
  {
    Runs.ReachableStates(es, t);
    AllRoundTrip(rx, t.accepted);
    AllEchoedDelivers(rx, t.accepted);
  }
}
