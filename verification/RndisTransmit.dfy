/** The transmit half of the RNDIS data path: one frame at a time leaves as a header transfer, a data
    transfer and, when the message would fill its last packet, a one-byte padding transfer. */
module RndisTransmit {
  import opened Bytes
  import opened RndisFormat

  const DATA_IN_EP: byte := 0x82
  const HEADER_ROOM := PACKET_SIZE - HEADER_SIZE

  datatype TxState = Ready | NeedSending | SendingHdr | SendingData | SendingPadding

  /** `rest` is the memory the transmitter still points to and `header` its static first packet. `issued` lists the
      transfers started on the data-in endpoint. The driver reads the memory packet by packet until a transfer is
      complete: `carried` lists the data transfers with the bytes they have then. */
  datatype Tx = Tx(
    rest: seq<byte>, state: TxState, needPadding: bool, header: FullPacket, issued: seq<seq<byte>>,
    carried: seq<seq<byte>>)

  predicate Padded(size: nat) {
    (HEADER_SIZE + size) % PACKET_SIZE == 0
  }

  /** The REMOTE_NDIS_PACKET_MSG header: the length counts the padding byte, DataLength does not. */
  function Header(size: nat): (h: seq<byte>)
    requires size <= MAX_FRAME
    ensures |h| == HEADER_SIZE
  {
    Put32(PACKET_MSG) + Put32(HEADER_SIZE + size + if Padded(size) then 1 else 0)
      + Put32(HEADER_SIZE - 8) + Put32(size) + Zeros(28)
  }

  predicate Sendable(size: int) {
    0 < size <= MAX_FRAME
  }

  type SendableFrame = f: seq<byte> | Sendable(|f|) witness [0]

  /** First transfer of a frame that has just been accepted. */
  function Begin(tx: Tx): (r: Tx)
    requires Sendable(|tx.rest|)
  {
    var n := if |tx.rest| < HEADER_ROOM then |tx.rest| else HEADER_ROOM;
    var packet := Header(|tx.rest|) + tx.rest[..n];
    Tx(tx.rest[n..], SendingHdr, Padded(|tx.rest|), packet + tx.header[|packet|..], tx.issued + [packet],
       tx.carried)
  }

  lemma BeginParts(tx: Tx, header: seq<byte>, padding: bool)
    requires Sendable(|tx.rest|) && header == Header(|tx.rest|) && padding == Padded(|tx.rest|)
    ensures var n := if |tx.rest| < HEADER_ROOM then |tx.rest| else HEADER_ROOM;
            var packet := header + tx.rest[..n];
            Begin(tx) == Tx(tx.rest[n..], SendingHdr, padding, packet + tx.header[|packet|..], tx.issued + [packet],
                            tx.carried)
  {
  }

  function Pad(tx: Tx): (r: Tx) {
    if tx.needPadding then tx.(state := SendingPadding, issued := tx.issued + [[0]]) else tx.(state := Ready)
  }

  /** A completed transfer makes room for the next one. */
  function Complete(tx: Tx): (r: Tx) {
    match tx.state
    case SendingHdr =>
      if tx.rest != [] then tx.(state := SendingData, issued := tx.issued + [tx.rest]) else Pad(tx)
    case SendingData => Pad(tx.(carried := tx.carried + [tx.rest]))
    case SendingPadding => tx.(state := Ready)
    case _ => tx
  }

  /** The memory still to be sent, cut after `n` bytes. */
  lemma CutRest(source: seq<byte>, ptr: nat, size: nat, n: nat)
    requires n <= size && ptr + size <= |source|
    ensures source[ptr..ptr + size][..n] == source[ptr..ptr + n]
    ensures source[ptr..ptr + size][n..] == source[ptr + n..ptr + n + (size - n)]
  {
    SliceOfSlice(source, ptr, ptr + size, 0, n);
    SliceOfSlice(source, ptr, ptr + size, n, size);
    var rest := source[ptr..ptr + size];
    assert rest[..n] == rest[0..n] && rest[n..] == rest[n..size];
  }

  /** What a header store leaves of the static packet. */
  lemma Behind(header: seq<byte>, packet: FullPacket, n: nat)
    requires |header| == HEADER_SIZE && n <= HEADER_ROOM
    ensures var first := header + packet[HEADER_SIZE..];
            first[..HEADER_SIZE] == header && first[HEADER_SIZE + n..] == packet[HEADER_SIZE + n..]
  {
    DropOfDrop(packet, HEADER_SIZE, n);
  }

  lemma FirstOf(packet: seq<byte>, back: seq<byte>)
    ensures (packet + back)[..|packet|] == packet
  {
  }

  class Transmitter {
    var source: array<byte>
    var ptr: nat
    var size: int
    var state: TxState
    var needPadding: bool
    const first: array<byte>
    ghost var issued: seq<seq<byte>>
    ghost var carried: seq<seq<byte>>

    ghost predicate Valid()
      reads this, first
    {
      && first.Length == PACKET_SIZE && source != first
      && 0 <= size && ptr + size <= source.Length
      && (state == NeedSending ==> Sendable(size))
    }

    ghost function State(): (tx: Tx)
      requires Valid()
      reads this, first, source
    {
      Tx(source[ptr..ptr + size], state, needPadding, first[..], issued, carried)
    }

    constructor ()
      ensures Valid() && fresh(first) && fresh(source)
      ensures State() == Tx([], Ready, false, Zeros(PACKET_SIZE), [], [])
    {
      source := new byte[0];
      first := new byte[PACKET_SIZE](_ => 0);
      ptr, size, state, needPadding, issued, carried := 0, 0, Ready, false, [], [];
      new;
      assert first[..] == Zeros(PACKET_SIZE);
    }

    predicate CanSend()
      reads this
    {
      state == Ready
    }

    /** A store of four bytes behind `front`. */
    method PutField(i: nat, field: seq<byte>, ghost front: seq<byte>, ghost was: seq<byte>, ghost back: seq<byte>)
      requires |front| == i && |field| == |was| == 4 && first[..] == front + was + back
      modifies first
      ensures first[..] == front + field + back
    {
      CopyTo(first, i, field);
      assert (front + was + back)[..i] == front && (front + was + back)[i + 4..] == back;
    }

    /** memset of the header, then stores to its first four words. */
    method FillHeader(messageType: seq<byte>, messageLength: seq<byte>, dataOffset: seq<byte>, dataLength: seq<byte>)
      requires |messageType| == |messageLength| == |dataOffset| == |dataLength| == 4 && first.Length == PACKET_SIZE
      modifies first
      ensures first[..] == messageType + messageLength + dataOffset + dataLength + Zeros(28) + old(first[HEADER_SIZE..])
    {
      ghost var tail, z := first[HEADER_SIZE..], Zeros(4);
      CopyTo(first, 0, Zeros(HEADER_SIZE));
      assert Zeros(HEADER_SIZE) == z + (z + (z + (z + Zeros(28))));
      ghost var front: seq<byte> := [];
      assert first[..] == front + z + (z + (z + (z + Zeros(28) + tail)));
      PutField(0, messageType, front, z, z + (z + (z + Zeros(28) + tail)));
      front := messageType;
      assert first[..] == front + z + (z + (z + Zeros(28) + tail));
      PutField(4, messageLength, front, z, z + (z + Zeros(28) + tail));
      front := front + messageLength;
      assert first[..] == front + z + (z + Zeros(28) + tail);
      PutField(8, dataOffset, front, z, z + Zeros(28) + tail);
      front := front + dataOffset;
      assert first[..] == front + z + (Zeros(28) + tail);
      PutField(12, dataLength, front, z, Zeros(28) + tail);
      assert front + dataLength + (Zeros(28) + tail) == front + dataLength + Zeros(28) + tail;
    }

    method SendFirst()
      requires Valid() && state == NeedSending
      modifies this`ptr, this`size, this`state, this`needPadding, this`issued, first
      ensures Valid() && State() == Begin(old(State())) && ptr + size == old(ptr + size)
    {
      ghost var before := State();
      var length := HEADER_SIZE + size;
      needPadding := length % PACKET_SIZE == 0;
      FillHeader(Put32(PACKET_MSG), Put32(length + if needPadding then 1 else 0), Put32(HEADER_SIZE - 8), Put32(size));
      ghost var header := Header(size);
      assert first[..] == header + before.header[HEADER_SIZE..];
      BeginParts(before, header, needPadding);
      SendRest(before, header);
    }

    method SendRest(ghost before: Tx, ghost header: seq<byte>)
      requires Valid() && state == NeedSending && |header| == HEADER_SIZE
      requires before == State().(header := before.header, needPadding := before.needPadding)
      requires first[..] == header + before.header[HEADER_SIZE..]
      modifies this`ptr, this`size, this`state, this`issued, first
      ensures Valid() && ptr + size == old(ptr + size)
      ensures var n := if |before.rest| < HEADER_ROOM then |before.rest| else HEADER_ROOM;
              var packet := header + before.rest[..n];
              State() == Tx(before.rest[n..], SendingHdr, needPadding, packet + before.header[|packet|..],
                            before.issued + [packet], before.carried)
    {
      var n := HEADER_ROOM;
      if n > size { n := size; }
      ghost var left := before.rest[n..];
      ghost var packet := LoadFront(n, before, header);
      issued := issued + [first[..HEADER_SIZE + n]];
      ptr := ptr + n;
      size := size - n;
      assert source[ptr..ptr + size] == left;
      state := SendingHdr;
    }

    method LoadFront(n: nat, ghost before: Tx, ghost header: seq<byte>) returns (ghost packet: FullPacket)
      requires Valid() && n <= HEADER_ROOM && n <= size && |header| == HEADER_SIZE
      requires before.rest == source[ptr..ptr + size] && first[..] == header + before.header[HEADER_SIZE..]
      modifies first
      ensures packet == first[..]
      ensures packet[..HEADER_SIZE + n] == header + before.rest[..n]
      ensures packet == header + before.rest[..n] + before.header[HEADER_SIZE + n..]
      ensures source[ptr + n..ptr + n + (size - n)] == before.rest[n..]
    {
      CutRest(source[..], ptr, size, n);
      Behind(header, before.header, n);
      CopyTo(first, HEADER_SIZE, source[ptr..ptr + n]);
      packet := first[..];
      FirstOf(header + before.rest[..n], before.header[HEADER_SIZE + n..]);
    }

    /** The in-endpoint callback; it reacts to the data endpoint alone. */
    method DataIn(epnum: byte)
      requires Valid()
      modifies this`ptr, this`size, this`state, this`needPadding, this`issued, this`carried, first
      ensures Valid()
      ensures State() == if epnum % 16 != DATA_IN_EP % 16 then old(State())
                         else if old(state) == NeedSending then Begin(old(State()))
                         else Complete(old(State()))
      ensures ptr + size == old(ptr + size) && (old(state) != NeedSending ==> ptr == old(ptr))
    {
      if epnum % 16 == DATA_IN_EP % 16 {
        if state == NeedSending {
          SendFirst();
          return;
        }
        if state == SendingHdr {
          if size > 0 {
            issued := issued + [source[ptr..ptr + size]];
            state := SendingData;
            return;
          }
          if needPadding {
            issued := issued + [[0]];
            state := SendingPadding;
            return;
          }
          state := Ready;
          return;
        }
        if state == SendingData {
          carried := carried + [source[ptr..ptr + size]];
          if needPadding {
            issued := issued + [[0]];
            state := SendingPadding;
            return;
          }
          state := Ready;
          return;
        }
        if state == SendingPadding {
          state := Ready;
          return;
        }
      }
    }

    /** Accepts a frame of 1 to 1514 bytes when idle and starts its first transfer; otherwise changes nothing. */
    method Send(data: array<byte>, length: int) returns (ok: bool)
      requires Valid() && data != first && length <= data.Length
      modifies this, first
      ensures Valid()
      ensures ok <==> Sendable(length) && old(state) == Ready
      ensures ok ==> ptr + size == length
      ensures ok ==> source == data && State() == Begin(old(State()).(rest := data[..length]))
      ensures !ok ==> source == old(source) && State() == old(State())
    {
      if length <= 0 || length > MAX_FRAME || state != Ready { return false; }
      source, ptr, size := data, 0, length;
      state := NeedSending;
      assert source[ptr..ptr + size] == data[..length];
      DataIn(DATA_IN_EP);
      return true;
    }
  }

  // ---------- What one frame costs ----------

  /** The transfers a frame leaves in. */
  function Transfers(f: SendableFrame): (ts: seq<seq<byte>>)
    ensures |ts| == 1 + (if |f| > HEADER_ROOM then 1 else 0) + (if Padded(|f|) then 1 else 0)
  {
    var n := if |f| < HEADER_ROOM then |f| else HEADER_ROOM;
    [Header(|f|) + f[..n]] + (if |f| > HEADER_ROOM then [f[HEADER_ROOM..]] else [])
      + if Padded(|f|) then [[0]] else []
  }

  function AllTransfers(frames: seq<SendableFrame>): (ts: seq<seq<byte>>) {
    if frames == [] then [] else AllTransfers(frames[..|frames| - 1]) + Transfers(frames[|frames| - 1])
  }
}
