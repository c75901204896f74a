/** The one-slot mailbox between the packet interrupt and the main loop. */
module Mailbox {
  import opened Bytes
  import opened RndisFormat

  class Box {
    const received: array<byte>
    var recvSize: nat

    ghost predicate Valid()
      reads this
    {
      received.Length == MAX_FRAME && recvSize <= MAX_FRAME
    }

    ghost function Pending(): (f: seq<byte>)
      requires Valid()
      reads this, received
    {
      received[..recvSize]
    }

    constructor ()
      ensures Valid() && fresh(received) && Pending() == []
    {
      received := new byte[MAX_FRAME](_ => 0);
      recvSize := 0;
    }

    /** The receive interrupt: the newest frame replaces whatever was waiting. */
    method OnPacket(data: seq<byte>)
      requires Valid() && |data| <= MAX_FRAME
      modifies this, received
      ensures Valid() && Pending() == data
    {
      CopyTo(received, 0, data);
      recvSize := |data|;
    }

    /** The part of usb_polling that runs with interrupts off; `alloc` says whether a buffer was available. */
    method Take(alloc: bool) returns (frame: Option<seq<byte>>)
      requires Valid()
      modifies this`recvSize
      ensures Valid()
      ensures frame == if old(Pending()) != [] && alloc then Some(old(Pending())) else None
      ensures Pending() == if frame.Some? then [] else old(Pending())
    {
      if recvSize == 0 { return None; }
      if !alloc { return None; }
      frame := Some(received[..recvSize]);
      recvSize := 0;
    }
  }

  // ---------- Every interleaving of interrupts and polls ----------

  /** `held` is the frame the main loop has taken but not yet passed on; `taken` lists the arrivals taken so far
      by their number. */
  datatype Sys = Sys(
    box: seq<byte>, held: Option<seq<byte>>, arrivals: seq<seq<byte>>, inputs: seq<seq<byte>>, taken: seq<nat>)

  datatype Event = Packet(frame: seq<byte>) | Poll(alloc: bool) | Input

  predicate Enabled(s: Sys, e: Event) {
    match e
    case Packet(f) => |f| <= MAX_FRAME
    case Poll(_) => s.held.None?
    case Input => s.held.Some?
  }

  function Next(s: Sys, e: Event): (r: Sys)
    requires Enabled(s, e)
  {
    match e
    case Packet(f) => s.(box := f, arrivals := s.arrivals + [f])
    case Poll(alloc) =>
      if s.box != [] && alloc then s.(box := [], held := Some(s.box), taken := s.taken + [Newest(s)]) else s
    case Input => s.(held := None, inputs := s.inputs + [s.held.value])
  }

  /** The number of the last arrival. */
  function Newest(s: Sys): (n: nat) {
    if s.arrivals == [] then 0 else |s.arrivals| - 1
  }

  const START := Sys([], None, [], [], [])

  function Taken(s: Sys): (fs: seq<seq<byte>>) {
    s.inputs + if s.held.Some? then [s.held.value] else []
  }

  /** The last arrival has not been taken. */
  predicate Waiting(s: Sys) {
    s.arrivals != [] && (s.taken == [] || s.taken[|s.taken| - 1] < |s.arrivals| - 1)
  }

  predicate Inv(s: Sys) {
    && |s.taken| == |Taken(s)|
    && (forall k | 0 <= k < |s.taken| :: s.taken[k] < |s.arrivals| && s.arrivals[s.taken[k]] == Taken(s)[k] != [])
    && (forall j, k | 0 <= j < k < |s.taken| :: s.taken[j] < s.taken[k])
    && s.box == if Waiting(s) then s.arrivals[|s.arrivals| - 1] else []
  }

  predicate IsRun(s: Sys, es: seq<Event>, t: Sys)
    decreases es
  {
    if es == [] then t == s else Enabled(s, es[0]) && IsRun(Next(s, es[0]), es[1..], t)
  }

  lemma NextKeepsInv(s: Sys, e: Event)
    requires Inv(s) && Enabled(s, e)
    ensures Inv(Next(s, e))
  {
    var r := Next(s, e);
    match e
    case Packet(f) =>
      assert Taken(r) == Taken(s);
    case Poll(alloc) =>
      if s.box != [] && alloc {
        assert Taken(r) == Taken(s) + [s.box];
      }
    case Input =>
      assert Taken(r) == Taken(s);
  }

  lemma {:induction false} RunKeepsInv(s: Sys, es: seq<Event>, t: Sys)
    requires Inv(s) && IsRun(s, es, t)
    ensures Inv(t)
    decreases es
  {
    if es != [] {
      NextKeepsInv(s, es[0]);
      RunKeepsInv(Next(s, es[0]), es[1..], t);
    }
  }

  /** In every interleaving the frames passed to the network stack are a subsequence of the frames that
      arrived: intact, in order, each at most once. */
  lemma InputsAreArrivals(es: seq<Event>, t: Sys)
    requires IsRun(START, es, t)
    ensures |t.inputs| <= |t.taken|
    ensures forall k | 0 <= k < |t.inputs| :: t.taken[k] < |t.arrivals| && t.inputs[k] == t.arrivals[t.taken[k]]
    ensures forall j, k | 0 <= j < k < |t.inputs| :: t.taken[j] < t.taken[k]
  {
    RunKeepsInv(START, es, t);
    forall k | 0 <= k < |t.inputs| ensures t.taken[k] < |t.arrivals| && t.inputs[k] == t.arrivals[t.taken[k]] {
      assert Taken(t)[k] == t.inputs[k];
    }
  }

  /** A poll that gets a buffer takes the newest arrival; one that does not leaves it waiting. */
  lemma PollTakesNewest(es: seq<Event>, s: Sys, alloc: bool)
    requires IsRun(START, es, s) && Enabled(s, Poll(alloc))
    ensures var r := Next(s, Poll(alloc));
            && (alloc && s.box != [] ==>
                  s.arrivals != [] && r.held == Some(s.arrivals[|s.arrivals| - 1]) && r.box == [])
            && (!alloc || s.box == [] ==> r == s)
  {
    RunKeepsInv(START, es, s);
  }

  /** An arrival that finds the box full overwrites a frame that is then never delivered. */
  lemma {:induction false} OverwrittenIsLost(s: Sys, es: seq<Event>, t: Sys, lost: nat)
    requires Inv(s) && lost < |s.arrivals| - 1 && lost !in s.taken && IsRun(s, es, t)
    ensures lost !in t.taken && lost < |t.arrivals| - 1
    decreases es
  {
    if es != [] {
      NextKeepsInv(s, es[0]);
      OverwrittenIsLost(Next(s, es[0]), es[1..], t, lost);
    }
  }

  /** Every arrival finds the box empty: the one before was empty or has been taken. */
  predicate Unhurried(s: Sys, es: seq<Event>)
    decreases es
  {
    es == [] || (Enabled(s, es[0]) && (es[0].Packet? ==> s.box == []) && Unhurried(Next(s, es[0]), es[1..]))
  }

  function NonEmpty(fs: seq<seq<byte>>): (r: seq<seq<byte>>) {
    if fs == [] then []
    else if fs[|fs| - 1] == [] then NonEmpty(fs[..|fs| - 1])
    else NonEmpty(fs[..|fs| - 1]) + [fs[|fs| - 1]]
  }

  /** Every non-empty arrival is delivered, in hand or in the box. */
  predicate Conserved(s: Sys) {
    NonEmpty(s.arrivals) == Taken(s) + if s.box != [] then [s.box] else []
  }

  lemma ConservedStep(s: Sys, e: Event)
    requires Enabled(s, e) && Conserved(s) && (e.Packet? ==> s.box == [])
    ensures Conserved(Next(s, e))
  {
    var r := Next(s, e);
    match e
    case Packet(f) =>
      assert r.arrivals[..|s.arrivals|] == s.arrivals;
      assert Taken(r) == Taken(s);
    case Poll(alloc) =>
      if s.box != [] && alloc {
        assert Taken(r) == Taken(s) + [s.box];
      }
    case Input =>
      assert Taken(r) == Taken(s);
  }

  /** If a successful poll separates every two arrivals, no non-empty frame is lost. */
  lemma {:induction false} NothingLost(s: Sys, es: seq<Event>, t: Sys)
    requires Conserved(s) && Unhurried(s, es) && IsRun(s, es, t)
    ensures Conserved(t)
    decreases es
  {
    if es != [] {
      ConservedStep(s, es[0]);
      NothingLost(Next(s, es[0]), es[1..], t);
    }
  }
}
