/** From USB packets to the network stack: the receive path hands its frames to the mailbox. */
module ReceivePath {
  import opened Bytes
  import opened RndisFormat
  import R = RndisReceive
  import opened Mailbox

  /** A delivered frame fits the mailbox exactly when at most 1514 bytes follow its data offset; an offset that leaves
      the 44-byte header alone is always far enough. */
  lemma FitsExactly(m: seq<byte>)
    requires R.WellFormed(m)
    ensures |R.Payload(m)| <= MAX_FRAME <==> |m| <= Le32(m, 8) + 8 + MAX_FRAME
    ensures Le32(m, 8) + 8 >= HEADER_SIZE ==> |R.Payload(m)| <= MAX_FRAME
  {
  }

  /** A message of 1558 bytes that counts its own header as data, from byte 8 on, is well formed, and its payload of
      1550 bytes does not fit. */
  lemma PayloadTooLong(m: seq<byte>)
    requires |m| == RX_BUFFER_SIZE && m[..16] == [1, 0, 0, 0, 0x16, 6, 0, 0, 0, 0, 0, 0, 0x0E, 6, 0, 0]
    ensures R.WellFormed(m) && |R.Payload(m)| == 1550 > MAX_FRAME
  {
    var h := m[..16];
    assert forall i | 0 <= i < 16 :: m[i] == h[i];
  }

  /** The frames that arrive in a run. */
  function Arriving(es: seq<Event>): (fs: seq<seq<byte>>) {
    if es == [] then [] else (if es[0].Packet? then [es[0].frame] else []) + Arriving(es[1..])
  }

  lemma {:induction false} ArrivalsAre(s: Sys, es: seq<Event>, t: Sys)
    requires IsRun(s, es, t)
    ensures t.arrivals == s.arrivals + Arriving(es)
    decreases es
  {
    if es != [] {
      ArrivalsAre(Next(s, es[0]), es[1..], t);
    }
  }

  function Payloads(sent: seq<R.Sent>): (fs: seq<seq<byte>>)
    requires forall s | s in sent :: R.WellFormed(s.msg)
    ensures |fs| == |sent|
  {
    if sent == [] then [] else [R.Payload(sent[0].msg)] + Payloads(sent[1..])
  }

  function Handed(fs: seq<seq<byte>>): (ds: seq<R.Delivery>)
    ensures |ds| == |fs|
  {
    if fs == [] then [] else [R.Frame(fs[0])] + Handed(fs[1..])
  }

  lemma {:induction false} FramesAre(sent: seq<R.Sent>)
    requires forall s | s in sent :: R.WellFormed(s.msg)
    ensures R.Frames(sent) == Handed(Payloads(sent))
  {
    if sent != [] {
      FramesAre(sent[1..]);
      assert Payloads(sent)[1..] == Payloads(sent[1..]);
    }
  }

  lemma {:induction false} SameHanded(a: seq<seq<byte>>, b: seq<seq<byte>>)
    requires Handed(a) == Handed(b)
    ensures a == b
  {
    if a != [] {
      assert Handed(a)[0] == Handed(b)[0] && Handed(a)[1..] == Handed(b)[1..];
      SameHanded(a[1..], b[1..]);
      assert a == [a[0]] + a[1..] && b == [b[0]] + b[1..];
    }
  }

  /** Any stream of well-formed messages, received packet by packet and handed to the mailbox in any interleaving with
      polls: the stack gets only their payloads, intact and in order, and if a successful poll separates every
      two arrivals all that are not empty have been passed on, are in hand or in the box. */
  lemma StreamToStack(sent: seq<R.Sent>, es: seq<Event>, t: Sys)
    requires forall s | s in sent :: R.WellFormed(s.msg)
    requires IsRun(START, es, t)
    requires R.Run(R.Rx([], true, 0, 0, []), R.PacketsOfAll(sent)).delivered == Handed(Arriving(es))
    ensures |t.inputs| <= |t.taken|
    ensures forall k | 0 <= k < |t.inputs| :: t.taken[k] < |sent| && t.inputs[k] == R.Payload(sent[t.taken[k]].msg)
    ensures forall j, k | 0 <= j < k < |t.inputs| :: t.taken[j] < t.taken[k]
    ensures Unhurried(START, es) ==> NonEmpty(Payloads(sent)) == Taken(t) + if t.box != [] then [t.box] else []
  {
    StreamArrives(sent, es, t);
    InputsAreArrivals(es, t);
    forall k | 0 <= k < |t.inputs| ensures t.taken[k] < |sent| && t.inputs[k] == R.Payload(sent[t.taken[k]].msg) {
      PayloadAt(sent, t.taken[k]);
    }
    if Unhurried(START, es) {
      NothingLost(START, es, t);
    }
  }

  lemma StreamArrives(sent: seq<R.Sent>, es: seq<Event>, t: Sys)
    requires forall s | s in sent :: R.WellFormed(s.msg)
    requires IsRun(START, es, t)
    requires R.Run(R.Rx([], true, 0, 0, []), R.PacketsOfAll(sent)).delivered == Handed(Arriving(es))
    ensures t.arrivals == Payloads(sent)
  {
    var rx := R.Rx([], true, 0, 0, []);
    R.StreamDelivered(rx, sent);
    assert R.Got(rx, sent).delivered == R.Frames(sent);
    FramesAre(sent);
    SameHanded(Payloads(sent), Arriving(es));
    ArrivalsAre(START, es, t);
  }

  lemma {:induction false} PayloadAt(sent: seq<R.Sent>, k: nat)
    requires (forall s | s in sent :: R.WellFormed(s.msg)) && k < |sent|
    ensures Payloads(sent)[k] == R.Payload(sent[k].msg)
  {
    if k > 0 {
      PayloadAt(sent[1..], k - 1);
    }
  }

  lemma Prepend(s: Sys, e: Event, rest: seq<Event>, t: Sys)
    requires Enabled(s, e) && (e.Packet? ==> s.box == []) && IsRun(Next(s, e), rest, t) && Unhurried(Next(s, e), rest)
    ensures IsRun(s, [e] + rest, t) && Unhurried(s, [e] + rest)
    ensures Arriving([e] + rest) == (if e.Packet? then [e.frame] else []) + Arriving(rest)
  {
    assert ([e] + rest)[1..] == rest;
  }

  /** Such an interleaving exists if every frame fits the mailbox, and only then. */
  lemma {:induction false} CanArrive(s: Sys, frames: seq<seq<byte>>) returns (es: seq<Event>, t: Sys)
    requires s.held == None && s.box == [] && forall f | f in frames :: |f| <= MAX_FRAME
    ensures IsRun(s, es, t) && Unhurried(s, es) && Arriving(es) == frames && t.held == None && t.box == []
    decreases frames
  {
    if frames == [] {
      return [], s;
    }
    var f := frames[0];
    assert frames == [f] + frames[1..];
    var arrived := Next(s, Packet(f));
    if f == [] {
      es, t := CanArrive(arrived, frames[1..]);
    } else {
      var polled := Next(arrived, Poll(true));
      es, t := CanArrive(Next(polled, Input), frames[1..]);
      Prepend(polled, Input, es, t);
      es := [Input] + es;
      Prepend(arrived, Poll(true), es, t);
      es := [Poll(true)] + es;
    }
    Prepend(s, Packet(f), es, t);
    es := [Packet(f)] + es;
  }

  lemma {:induction false} OnlyFittingArrive(s: Sys, es: seq<Event>, t: Sys)
    requires IsRun(s, es, t)
    ensures forall f | f in Arriving(es) :: |f| <= MAX_FRAME
    decreases es
  {
    if es != [] {
      OnlyFittingArrive(Next(s, es[0]), es[1..], t);
    }
  }
}
