/** Sizes of the RNDIS data path and the cutting of transfers into USB packets. */
module RndisFormat {
  import opened Bytes

  const HEADER_SIZE := 44
  const PACKET_SIZE := 64
  const MAX_FRAME := 1514
  const RX_BUFFER_SIZE := MAX_FRAME + HEADER_SIZE
  const PACKET_MSG: word32 := 1

  type FullPacket = p: seq<byte> | |p| == PACKET_SIZE witness Zeros(PACKET_SIZE)

  /** How a bulk endpoint cuts a transfer: full packets, then the remainder. */
  function Chunks(m: seq<byte>): (ps: seq<seq<byte>>)
    ensures forall p | p in ps :: 0 < |p| <= PACKET_SIZE
  {
    if m == [] then [] else if |m| <= PACKET_SIZE then [m] else [m[..PACKET_SIZE]] + Chunks(m[PACKET_SIZE..])
  }

  lemma {:induction false} ChunksRejoin(m: seq<byte>)
    ensures Concat(Chunks(m)) == m
  {
    if |m| > PACKET_SIZE {
      ChunksRejoin(m[PACKET_SIZE..]);
      var ps := [m[..PACKET_SIZE]] + Chunks(m[PACKET_SIZE..]);
      assert ps[1..] == Chunks(m[PACKET_SIZE..]);
    } else if m != [] {
      assert Concat([m]) == m + Concat([]);
    }
  }

  lemma FirstChunk(first: seq<byte>, rest: seq<byte>)
    requires |first| == PACKET_SIZE
    ensures Chunks(first + rest) == [first] + Chunks(rest)
  {
    var m := first + rest;
    assert m[..PACKET_SIZE] == first && m[PACKET_SIZE..] == rest;
    if rest == [] {
      assert m == first;
    }
  }

  /** Cutting commutes with concatenation after full packets. */
  lemma {:induction false} ChunksAppend(a: seq<byte>, b: seq<byte>, full: nat)
    requires |a| == PACKET_SIZE * full
    ensures Chunks(a + b) == Chunks(a) + Chunks(b)
    decreases full
  {
    if full == 0 {
      assert a + b == b;
    } else {
      var first, rest := a[..PACKET_SIZE], a[PACKET_SIZE..];
      assert a == first + rest && a + b == first + (rest + b);
      FirstChunk(first, rest);
      FirstChunk(first, rest + b);
      ChunksAppend(rest, b, full - 1);
    }
  }

  /** The last packet of a transfer holds what is left over by full packets. */
  lemma {:induction false} LastChunk(m: seq<byte>, full: nat, left: nat)
    requires |m| == PACKET_SIZE * full + left && 0 < left <= PACKET_SIZE
    ensures var ps := Chunks(m); ps != [] && |ps[|ps| - 1]| == left
    decreases full
  {
    if full > 0 {
      var rest := Chunks(m[PACKET_SIZE..]);
      LastChunk(m[PACKET_SIZE..], full - 1, left);
      assert Chunks(m) == [m[..PACKET_SIZE]] + rest;
      assert Chunks(m)[|rest|] == rest[|rest| - 1];
    } else {
      assert Chunks(m) == [m];
    }
  }
}
