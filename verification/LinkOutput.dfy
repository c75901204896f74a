/** Sending a frame that lwIP hands down as a chain of buffers: it is gathered into one static array, which the
    transmitter then reads while the transfers are in flight. */
module LinkOutput {
  import opened Bytes
  import opened RndisFormat
  import opened RndisTransmit
  import opened LinkMemory

  const WAIT_TURNS := 200
  const MOST_DATA := MAX_FRAME - HEADER_ROOM  // of a frame in its data transfer

  class Link {
    const data: array<byte>
    const tx: Transmitter
    var outputs: nat

    ghost predicate Valid()
      reads tx, tx.first
    {
      data.Length == MAX_FRAME + 4 && data != tx.first && tx.Valid()
    }

    ghost function View(): (w: Window)
      requires Valid()
      reads tx, tx.first
    {
      Window(tx.source == data, tx.ptr, tx.size)
    }

    constructor (tx: Transmitter)
      requires tx.Valid()
      ensures Valid() && fresh(data) && this.tx == tx && outputs == 0
    {
      data := new byte[MAX_FRAME + 4](_ => 0);
      this.tx := tx;
      outputs := 0;
    }

    /** The wait loop. During the k-th sleep `interrupts[k]` completion interrupts arrive. The loop ends when the
        transmitter is ready, or after 200 turns. */
    method Wait(interrupts: seq<nat>) returns (ghost n: nat, ghost waited: Tx)
      requires Valid() && tx.state != NeedSending
      modifies tx, tx.first
      ensures Valid() && tx.state != NeedSending && tx.source == old(tx.source) && View() == old(View())
      ensures waited == tx.State() == Completes(old(tx.State()), n)
      ensures n <= Count(interrupts, WAIT_TURNS) && (tx.state == Ready || n == Count(interrupts, WAIT_TURNS))
    {
      ghost var before := tx.State();
      n := 0;
      var i := 0;
      while i < WAIT_TURNS
        invariant 0 <= i <= WAIT_TURNS && Valid() && tx.state != NeedSending
        invariant tx.source == old(tx.source) && View() == old(View())
        invariant tx.State() == Completes(before, n)
        invariant n == Count(interrupts, i)
      {
        CountGrows(interrupts, i, WAIT_TURNS);
        if tx.CanSend() { break; }
        n := Sleep(interrupts, i, before);
        i := i + 1;
      }
      waited := tx.State();
    }

    method Sleep(interrupts: seq<nat>, i: nat, ghost before: Tx) returns (ghost n: nat)
      requires Valid() && tx.state != NeedSending && tx.State() == Completes(before, Count(interrupts, i))
      modifies tx, tx.first
      ensures Valid() && tx.state != NeedSending && tx.source == old(tx.source) && View() == old(View())
      ensures n == Count(interrupts, i + 1) && tx.State() == Completes(before, n)
    {
      n := Count(interrupts, i) + CountAt(interrupts, i);
      CompletesAdd(before, Count(interrupts, i), CountAt(interrupts, i));
      Interrupt(CountAt(interrupts, i), tx.State());
    }

    /** `n` completion interrupts, one after the other. */
    method Interrupt(n: nat, ghost before: Tx)
      requires Valid() && tx.state != NeedSending && tx.State() == before
      modifies tx, tx.first
      ensures Valid() && tx.state != NeedSending && tx.source == old(tx.source) && View() == old(View())
      ensures tx.State() == Completes(before, n)
    {
      var k := 0;
      while k < n
        invariant 0 <= k <= n && Valid() && tx.state != NeedSending
        invariant tx.source == old(tx.source) && View() == old(View())
        invariant tx.State() == Completes(before, k)
      {
        CompletesOneMore(before, k);
        tx.DataIn(DATA_IN_EP);
        k := k + 1;
      }
    }

    /** Gathers the chain; fails at the first buffer that would make the frame too long. Just before the k-th buffer
        is looked at, `during[k]` completion interrupts arrive. */
    method Gather(chain: seq<seq<byte>>, during: seq<nat>) returns (ok: bool, size: nat)
      requires Valid() && tx.state != NeedSending
      modifies data, tx, tx.first
      ensures Valid() && tx.state != NeedSending && tx.source == old(tx.source) && View() == old(View())
      ensures Filled(tx.State(), data[..], size, ok)
           == Fill(old(tx.State()), old(data[..]), View(), 0, chain, during, 0)
    {
      ghost var w := View();
      ghost var all := Fill(tx.State(), data[..], w, 0, chain, during, 0);
      size := 0;
      var k := 0;
      while k < |chain|
        invariant 0 <= k <= |chain| && size <= MAX_FRAME && Valid() && tx.state != NeedSending
        invariant tx.source == old(tx.source) && View() == w
        invariant Fill(tx.State(), data[..], w, size, chain, during, k) == all
      {
        Interrupt(CountAt(during, k), tx.State());
        if size + |chain[k]| > MAX_FRAME { return false, size; }
        Copy(size, chain[k]);
        size := size + |chain[k]|;
        k := k + 1;
      }
      return true, size;
    }

    /** A copy into the array is seen by a transmitter that points there. */
    method Copy(size: nat, payload: seq<byte>)
      requires Valid() && tx.state != NeedSending && size + |payload| <= data.Length
      modifies data
      ensures Valid() && View() == old(View()) && data[..] == Over(old(data[..]), size, payload)
      ensures tx.State() == Seen(old(tx.State()), View(), data[..])
    {
      CopyTo(data, size, payload);
    }

    /** linkoutput_fn. Completions arrive during the sleeps, between the copies, and, `late` of them, before the second
        test. `waited` is the transmitter when the wait ends, after `n` of them. */
    method Output(chain: seq<seq<byte>>, interrupts: seq<nat>, during: seq<nat>, late: nat)
      returns (err: Err, ghost waited: Tx, ghost n: nat)
      requires Valid() && tx.state != NeedSending
      modifies this`outputs, data, tx, tx.first
      ensures Valid() && tx.state != NeedSending && waited == Completes(old(tx.State()), n)
      ensures n <= Count(interrupts, WAIT_TURNS) && (waited.state == Ready || n == Count(interrupts, WAIT_TURNS))
      ensures Outcome(err, tx.State(), data[..]) == Finish(waited, old(data[..]), old(View()), chain, during, late)
      ensures outputs == old(outputs) + if err == Ok then 1 else 0
      ensures tx.source == if err == Ok && Concat(chain) != [] then data else old(tx.source)
      ensures err == Ok && Concat(chain) != [] ==> tx.ptr + tx.size == |Concat(chain)|
    {
      n, waited := Wait(interrupts);
      ghost var mem := data[..];
      LaidNone(mem, chain);
      FillSizes(waited, mem, View(), chain, during, 0);
      var ok, size := Gather(chain, during);
      if !ok { return Arg, waited, n; }
      err := SendFilled(size, late, tx.State());
    }

    /** After the array has been filled. */
    method SendFilled(size: nat, late: nat, ghost filled: Tx) returns (err: Err)
      requires Valid() && tx.state != NeedSending && size <= MAX_FRAME && filled == tx.State()
      modifies this`outputs, tx, tx.first
      ensures Valid() && tx.state != NeedSending
      ensures var s := Completes(filled, late);
              && err == (if s.state == Ready then Ok else Use)
              && tx.State() == if err == Ok && size > 0 then Begin(s.(rest := data[..size])) else s
      ensures tx.source == if err == Ok && size > 0 then data else old(tx.source)
      ensures err == Ok && size > 0 ==> tx.ptr + tx.size == size
      ensures outputs == old(outputs) + if err == Ok then 1 else 0
    {
      Interrupt(late, filled);
      if !tx.CanSend() { return Use; }
      var sent := tx.Send(data, size);
      outputs := outputs + 1;
      return Ok;
    }

    /** What linkoutput_fn returns, from what is in flight and how many completions arrive in its 200 sleeps,
        between its copies and before its second test: ERR_ARG for a chain of more than 1514 bytes; otherwise ERR_OK
        if and only if these completions are as many as the transmitter needs to be ready, and ERR_USE if not. */
    method OutputResult(chain: seq<seq<byte>>, interrupts: seq<nat>, during: seq<nat>, late: nat) returns (err: Err)
      requires Valid() && tx.state != NeedSending
      modifies this`outputs, data, tx, tx.first
      ensures Valid() && tx.state != NeedSending
      ensures err == if |Concat(chain)| > 1514 then Arg
                     else if Count(interrupts, 200) + TotalFrom(chain, during, 0) + late >= Needed(old(tx.State()))
                     then Ok
                     else Use
      ensures outputs == old(outputs) + if err == Ok then 1 else 0
    {
      ghost var before, mem, w := tx.State(), data[..], View();
      ghost var waited, n;
      err, waited, n := Output(chain, interrupts, during, late);
      NeededExactly(before, n);
      CarriedStays(before, n);
      ResultExactly(waited, mem, w, chain, during, late);
    }

    /** For every pattern of interrupts, while the header transfer of frame `f` is in flight: the data of `f` is the
        frame's own when its data transfer completes, or at return if that is still to come, if and only if at least two
        completions arrive during the wait, or the buffers copied before the second completion agree with `f` from byte
        20 on. */
    method OutputOver(f: SendableFrame, chain: seq<seq<byte>>, interrupts: seq<nat>, during: seq<nat>, late: nat)
      returns (err: Err)
      requires Valid() && Carries(tx.State(), data[..], f) && View() == WindowOf(f)
      modifies this`outputs, data, tx, tx.first
      ensures Valid() && tx.state != NeedSending
      ensures var n := Count(interrupts, WAIT_TURNS);
              (DataRead(tx.State(), |old(tx.State()).carried|) == Transfers(f)[1]
               <==> n >= 2 || Agrees(Concat(chain[..Met(chain, during, 0, 2 - n)]), f))
    {
      ghost var before, mem := tx.State(), data[..];
      ghost var waited, n;
      err, waited, n := Output(chain, interrupts, during, late);
      WaitTook(before, n, Count(interrupts, WAIT_TURNS));
      DataExactly(f, before, mem, n, chain, during, late);
    }
  }

  /** Frames that leave corrupted: 1514 zeros are accepted, at most one completion (`n`) arrives in the first sleep
      and none for the rest of the wait, and the next frame is gathered over them and refused. Even when the data
      transfer had been started with the zeros, it is complete only after the array holds ones. */
  method LeavesCorrupted(transmitter: Transmitter, n: nat)
    requires transmitter.Valid() && transmitter.state == Ready && transmitter.carried == [] && n < 2
    modifies transmitter, transmitter.first
    ensures transmitter.Valid() && transmitter.carried == [Ones(MOST_DATA)]
    ensures Transfers(Zeros(MAX_FRAME))[1] == Zeros(MOST_DATA)
    ensures n == 1 ==> |transmitter.issued| > |old(transmitter.issued)| + 1
                       && transmitter.issued[|old(transmitter.issued)| + 1] == Zeros(MOST_DATA)
  {
    var link := new Link(transmitter);
    SendFrame(link, Zeros(MAX_FRAME));
    ghost var begun := transmitter.State();
    OverwriteWithOnes(link, n);
    ghost var waiting := transmitter.State();
    link.Interrupt(2 - n, waiting);
    Corrupted(begun, waiting, n);
  }

  lemma Corrupted(begun: Tx, waiting: Tx, n: nat)
    requires n < 2 && Awaits(begun, 0, 2) && begun.rest == Zeros(MAX_FRAME)[HEADER_ROOM..]
    requires Awaits(waiting, 0, 2 - n) && waiting.rest == Ones(MOST_DATA)
    requires waiting.issued == Completes(begun, n).issued
    ensures var done, i := Completes(waiting, 2 - n), |begun.issued|;
            && done.carried == [Ones(MOST_DATA)] && begun.issued < done.issued
            && (n == 1 ==> done.issued[i] == Zeros(MOST_DATA))
            && Transfers(Zeros(MAX_FRAME))[1] == Zeros(MOST_DATA)
  {
    assert Zeros(MAX_FRAME)[HEADER_ROOM..] == Zeros(MOST_DATA);
    IssuedStays(waiting, 2 - n);
    if n == 0 {
      var second := Complete(waiting);
      assert second.issued == begun.issued + [Ones(MOST_DATA)];
      assert second.rest == Ones(MOST_DATA) && second.carried == [];
      assert Completes(waiting, 2) == Completes(second, 1) == Complete(second);
    } else {
      assert Completes(begun, 1) == Complete(begun) && Completes(waiting, 1) == Complete(waiting);
    }
  }

  /** After a frame has been accepted from one buffer, its header transfer is in flight. */
  method SendFrame(link: Link, f: SendableFrame)
    requires link.Valid() && link.tx.state == Ready && |f| > HEADER_ROOM
    modifies link`outputs, link.data, link.tx, link.tx.first
    ensures link.Valid() && Carries(link.tx.State(), link.data[..], f) && link.View() == WindowOf(f)
    ensures link.tx.issued == old(link.tx.issued) + [Header(|f|) + f[..HEADER_ROOM]]
    ensures link.tx.carried == old(link.tx.carried)
  {
    ghost var before, mem, w := link.tx.State(), link.data[..], link.View();
    OneBuffer(f);
    var err, waited, n := link.Output([f], [], [], 0);
    IdleStays(before, n);
    BeginsFrame(f, before, mem, w);
  }

  lemma BeginsFrame(f: SendableFrame, tx: Tx, mem: seq<byte>, w: Window)
    requires tx.state == Ready && |f| > HEADER_ROOM && |mem| == MAX_FRAME + 4
    ensures var r := Finish(tx, mem, w, [f], [], 0);
            && r.err == Ok && Carries(r.tx, r.mem, f) && r.tx.issued == tx.issued + [Header(|f|) + f[..HEADER_ROOM]]
            && r.tx.carried == tx.carried
  {
    OneBuffer(f);
    ReadySendsExactly(tx, mem, w, [f], [], 0);
    LaidNone(mem, [f]);
    FillSizes(tx, mem, w, [f], [], 0);
  }

  method OverwriteWithOnes(link: Link, n: nat)
    requires link.Valid() && Carries(link.tx.State(), link.data[..], Zeros(MAX_FRAME))
    requires link.View() == WindowOf(Zeros(MAX_FRAME))
    requires n < 2
    modifies link`outputs, link.data, link.tx, link.tx.first
    ensures link.Valid() && link.tx.state != NeedSending
    ensures link.tx.issued == Completes(old(link.tx.State()), n).issued
    ensures Awaits(link.tx.State(), |old(link.tx.carried)|, 2 - n) && link.tx.State().rest == Ones(MOST_DATA)
    ensures link.tx.carried == old(link.tx.carried)
  {
    ghost var before, mem := link.tx.State(), link.data[..];
    CountFirst(n, WAIT_TURNS);
    var err, waited, waits := link.Output([Ones(MAX_FRAME)], [n], [], 0);
    WaitTook(before, waits, n);
    OnesOver(before, mem, n);
  }

  lemma OnesOver(tx: Tx, mem: seq<byte>, n: nat)
    requires Carries(tx, mem, Zeros(MAX_FRAME)) && n < 2
    ensures var r := Finish(Completes(tx, n), mem, WindowOf(Zeros(MAX_FRAME)), [Ones(MAX_FRAME)], [], 0).tx;
            && r.issued == Completes(tx, n).issued && r.carried == tx.carried
            && Awaits(r, |tx.carried|, 2 - n) && r.rest == Ones(MOST_DATA)
  {
    var frame := Ones(MAX_FRAME);
    OneBuffer(frame);
    NoCompletions(Zeros(MAX_FRAME), tx, mem, n, [frame]);
    assert (frame + mem[MAX_FRAME..])[HEADER_ROOM..MAX_FRAME] == Ones(MOST_DATA);
  }

  lemma OneBuffer(frame: seq<byte>)
    requires |frame| <= MAX_FRAME
    ensures Concat([frame]) == frame && Copied([frame], 0) == 1
    ensures forall mem: seq<byte> | |frame| <= |mem| :: Laid(mem, [frame], 1) == frame + mem[|frame|..]
  {
    assert [frame][..0] == [] && [frame][..1] == [frame];
    assert frame + Concat([]) == frame;
  }

  function Ones(n: nat): (s: seq<byte>) {
    seq(n, _ => 1)
  }

  /** How many interrupts arrive in the first `turns` sleeps. */
  function Count(interrupts: seq<nat>, turns: nat): (n: nat)
    decreases turns
  {
    if turns == 0 then 0 else Count(interrupts, turns - 1) + CountAt(interrupts, turns - 1)
  }

  lemma {:induction false} CountGrows(interrupts: seq<nat>, i: nat, turns: nat)
    requires i <= turns
    ensures Count(interrupts, i) <= Count(interrupts, turns)
    decreases turns
  {
    if i < turns {
      CountGrows(interrupts, i, turns - 1);
    }
  }

  lemma {:induction false} CountFirst(n: nat, turns: nat)
    requires turns > 0
    ensures Count([n], turns) == n
    decreases turns
  {
    if turns > 1 {
      CountFirst(n, turns - 1);
    }
  }
}
