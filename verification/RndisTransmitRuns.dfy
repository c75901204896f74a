/** Every interleaving of the main loop, which sends frames, with the completion interrupts.
    rndis_send tests the state before it disables interrupts, so the test and the critical section are
    two steps of the main loop. */
module RndisTransmitRuns {
  import opened Bytes
  import opened RndisFormat
  import opened RndisTransmit

  datatype MainLoop = Idle | Tested(frame: SendableFrame)

  datatype Sys = Sys(tx: Tx, main: MainLoop, completed: nat, accepted: seq<SendableFrame>)

  datatype Event =
    | Test(frame: seq<byte>)       // rndis_send up to its guard
    | Commit                       // the critical section of rndis_send
    | DataInDone                   // interrupt: the oldest data-in transfer is complete
    | OtherInDone(epnum: byte)     // interrupt: completion on another in endpoint

  function Outstanding(s: Sys): (n: int) {
    |s.tx.issued| - s.completed
  }

  predicate Enabled(s: Sys, e: Event) {
    match e
    case Test(_) => s.main.Idle?
    case Commit => s.main.Tested?
    case DataInDone => Outstanding(s) > 0
    case OtherInDone(ep) => ep % 16 != DATA_IN_EP % 16
  }

  function Next(s: Sys, e: Event): (r: Sys)
    requires Enabled(s, e)
  {
    match e
    case Test(frame) => if Sendable(|frame|) && s.tx.state == Ready then s.(main := Tested(frame)) else s
    case Commit =>
      s.(tx := Begin(s.tx.(rest := s.main.frame)), main := Idle, accepted := s.accepted + [s.main.frame])
    case DataInDone => s.(tx := Complete(s.tx), completed := s.completed + 1)
    case OtherInDone(_) => s
  }

  const INIT := Sys(Tx([], Ready, false, Zeros(PACKET_SIZE), [], []), Idle, 0, [])

  // ---------- The invariant ----------

  /** How many of its transfers the frame in progress has issued, read off the state alone. */
  function Stage(state: TxState, f: SendableFrame): (j: nat) {
    match state
    case SendingHdr => 1
    case SendingData => 2
    case _ => |Transfers(f)|
  }

  predicate InProgress(tx: Tx, f: SendableFrame) {
    && tx.needPadding == Padded(|f|)
    && match tx.state
       case SendingHdr =>
         && tx.rest == f[if |f| < HEADER_ROOM then |f| else HEADER_ROOM..]
         && Transfers(f)[0] <= tx.header
       case SendingData => |f| > HEADER_ROOM && tx.rest == f[HEADER_ROOM..]
       case SendingPadding => Padded(|f|)
       case _ => false
  }

  ghost predicate Inv(s: Sys) {
    && (s.main.Tested? ==> s.tx.state == Ready)
    && if s.tx.state == Ready then
         s.completed == |s.tx.issued| && s.tx.issued == AllTransfers(s.accepted)
       else
         var n := |s.accepted| - 1;
         && n >= 0 && InProgress(s.tx, s.accepted[n])
         && s.completed == |s.tx.issued| - 1
         && Stage(s.tx.state, s.accepted[n]) <= |Transfers(s.accepted[n])|
         && s.tx.issued == AllTransfers(s.accepted[..n]) + Transfers(s.accepted[n])[..Stage(s.tx.state, s.accepted[n])]
  }

  lemma CommitKeepsInv(s: Sys)
    requires Inv(s) && Enabled(s, Commit)
    ensures Inv(Next(s, Commit))
  {
    var f := s.main.frame;
    var r := Next(s, Commit);
    assert r.accepted[..|s.accepted|] == s.accepted;
    var head := Header(|f|) + f[..if |f| < HEADER_ROOM then |f| else HEADER_ROOM];
    assert Transfers(f)[..1] == [head];
    assert head <= r.tx.header;
  }

  /** One completion moves the frame in progress to its next transfer, or to its end. */
  lemma CompletionAdvances(s: Sys)
    requires Inv(s) && s.tx.state != Ready
    ensures var f := s.accepted[|s.accepted| - 1];
            var r := Complete(s.tx);
            if Stage(s.tx.state, f) == |Transfers(f)| then
              r == s.tx.(state := Ready, carried := r.carried)
            else
              && r.state != Ready && InProgress(r, f) && Stage(r.state, f) == Stage(s.tx.state, f) + 1
              && r.issued == s.tx.issued + [Transfers(f)[Stage(s.tx.state, f)]] && r.header == s.tx.header
  {
  }

  lemma CompletionKeepsInv(s: Sys)
    requires Inv(s) && Enabled(s, DataInDone)
    ensures Inv(Next(s, DataInDone))
  {
    CompletionAdvances(s);
    var n := |s.accepted| - 1;
    var ts, j := Transfers(s.accepted[n]), Stage(s.tx.state, s.accepted[n]);
    OneTransferMore(AllTransfers(s.accepted[..n]), ts, j);
  }

  lemma OneTransferMore(before: seq<seq<byte>>, ts: seq<seq<byte>>, j: nat)
    requires j <= |ts|
    ensures j == |ts| ==> before + ts[..j] == before + ts
    ensures j < |ts| ==> before + ts[..j] + [ts[j]] == before + ts[..j + 1]
  {
    if j == |ts| {
      assert ts[..j] == ts;
    } else {
      assert ts[..j] + [ts[j]] == ts[..j + 1];
    }
  }

  lemma InitInv()
    ensures Inv(INIT)
  {
  }

  lemma NextKeepsInv(s: Sys, e: Event)
    requires Inv(s) && Enabled(s, e)
    ensures Inv(Next(s, e))
  {
    match e
    case Commit => CommitKeepsInv(s);
    case DataInDone => CompletionKeepsInv(s);
    case _ =>
  }

  /** The events `es`, each enabled in its turn, lead from `s` to `t`. */
  predicate IsRun(s: Sys, es: seq<Event>, t: Sys)
    decreases es
  {
    if es == [] then t == s else Enabled(s, es[0]) && IsRun(Next(s, es[0]), es[1..], t)
  }

  lemma {:induction false} RunKeepsInv(s: Sys, es: seq<Event>, t: Sys)
    requires Inv(s) && IsRun(s, es, t)
    ensures Inv(t)
    decreases es
  {
    if es != [] {
      NextKeepsInv(s, es[0]);
      RunKeepsInv(Next(s, es[0]), es[1..], t);
    }
  }

  lemma IssuedIsPrefix(t: Sys)
    requires Inv(t) && t.tx.state != Ready
    ensures t.tx.issued <= AllTransfers(t.accepted)
  {
    var n := |t.accepted| - 1;
    var before, ts, j := AllTransfers(t.accepted[..n]), Transfers(t.accepted[n]), Stage(t.tx.state, t.accepted[n]);
    assert AllTransfers(t.accepted) == before + ts;
    assert ts == ts[..j] + ts[j..];
    assert before + ts == before + ts[..j] + ts[j..];
  }

  /** What every reachable state satisfies, in every interleaving: NEED_SENDING is never seen outside
      rndis_send, at most one transfer is outstanding and none when ready, and everything issued so far is the
      transfers of the accepted frames, in order, the last frame possibly cut short. */
  lemma ReachableStates(es: seq<Event>, t: Sys)
    requires IsRun(INIT, es, t)
    ensures t.tx.state != NeedSending
    ensures Outstanding(t) == if t.tx.state == Ready then 0 else 1
    ensures t.tx.state == Ready ==> t.tx.issued == AllTransfers(t.accepted)
    ensures t.tx.issued <= AllTransfers(t.accepted)
  {
    InitInv();
    RunKeepsInv(INIT, es, t);
    if t.tx.state != Ready {
      IssuedIsPrefix(t);
    }
  }

  /** The static first packet is never rewritten while a transfer that may still read it is outstanding. */
  lemma HeaderUntouchedInFlight(es: seq<Event>, s: Sys, e: Event)
    requires IsRun(INIT, es, s) && Enabled(s, e)
    requires Outstanding(s) > 0
    ensures Next(s, e).tx.header == s.tx.header
  {
    InitInv();
    RunKeepsInv(INIT, es, s);
    if e.DataInDone? {
      CompletionAdvances(s);
    }
  }

  /** Once rndis_can_send is true it stays true until the next accepted send. */
  lemma {:induction false} CanSendIsStable(s: Sys, es: seq<Event>, t: Sys)
    requires Inv(s) && s.tx.state == Ready && IsRun(s, es, t)
    requires Commit !in es
    ensures t.tx.state == Ready && t.tx == s.tx
    decreases es
  {
    if es != [] {
      NextKeepsInv(s, es[0]);
      CanSendIsStable(Next(s, es[0]), es[1..], t);
    }
  }

  function Completions(es: seq<Event>): (n: nat) {
    if es == [] then 0 else (if es[0] == DataInDone then 1 else 0) + Completions(es[1..])
  }

  /** Transfers of the frame in progress that have not completed yet. */
  function Remaining(s: Sys): (n: nat)
    requires Inv(s) && s.accepted != []
  {
    if s.tx.state == Ready then 0
    else var f := s.accepted[|s.accepted| - 1]; |Transfers(f)| - Stage(s.tx.state, f) + 1
  }

  lemma RemainingStep(s: Sys, e: Event)
    requires Inv(s) && s.accepted != [] && Enabled(s, e) && e != Commit && Inv(Next(s, e))
    ensures Next(s, e).accepted == s.accepted
    ensures Remaining(Next(s, e)) == Remaining(s) - if e == DataInDone then 1 else 0
  {
    if e.DataInDone? {
      CompletionAdvances(s);
    }
  }

  lemma {:induction false} CompletionsCount(s: Sys, es: seq<Event>, t: Sys)
    requires Inv(s) && s.accepted != [] && IsRun(s, es, t) && Commit !in es
    ensures Inv(t) && t.accepted == s.accepted && Remaining(t) == Remaining(s) - Completions(es)
    decreases es
  {
    if es != [] {
      NextKeepsInv(s, es[0]);
      RemainingStep(s, es[0]);
      CompletionsCount(Next(s, es[0]), es[1..], t);
    }
  }

  /** A frame just accepted is finished by exactly 1 + [size > 20] + [padded] completions. */
  lemma ReadyAfterExactly(s: Sys, es: seq<Event>, t: Sys)
    requires Inv(s) && Enabled(s, Commit) && IsRun(Next(s, Commit), es, t) && Commit !in es
    ensures var size := |s.main.frame|;
            var needed := 1 + (if size > HEADER_ROOM then 1 else 0) + (if Padded(size) then 1 else 0);
            Completions(es) <= needed && (t.tx.state == Ready <==> Completions(es) == needed)
  {
    NextKeepsInv(s, Commit);
    CompletionsCount(Next(s, Commit), es, t);
  }
}
