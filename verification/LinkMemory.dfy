/** The static array in which a chain of buffers is gathered, while the transmitter may still point into it and
    completion interrupts arrive between the copies: on values. */
module LinkMemory {
  import opened Bytes
  import opened RndisFormat
  import opened RndisTransmit

  datatype Err = Ok | Arg | Use

  /** The transmitter after `n` completion interrupts. */
  function Completes(tx: Tx, n: nat): (r: Tx)
    decreases n
  {
    if n == 0 then tx else Completes(Complete(tx), n - 1)
  }

  lemma {:induction false} CompletesOneMore(tx: Tx, n: nat)
    ensures Completes(tx, n + 1) == Complete(Completes(tx, n))
    decreases n
  {
    if n > 0 {
      CompletesOneMore(Complete(tx), n - 1);
    }
  }

  /** An idle transmitter ignores completions. */
  lemma {:induction false} IdleStays(tx: Tx, n: nat)
    requires tx.state == Ready
    ensures Completes(tx, n) == tx
    decreases n
  {
    if n > 0 {
      IdleStays(tx, n - 1);
    }
  }

  lemma {:induction false} CompletesAdd(tx: Tx, m: nat, n: nat)
    ensures Completes(tx, m + n) == Completes(Completes(tx, m), n)
    decreases m
  {
    if m > 0 {
      CompletesAdd(Complete(tx), m - 1, n);
    }
  }

  lemma {:induction false} ConcatSize(chain: seq<seq<byte>>, k: nat)
    requires k < |chain|
    ensures Concat(chain[..k + 1]) == Concat(chain[..k]) + chain[k]
    ensures |Concat(chain[..k + 1])| <= |Concat(chain)|
  {
    assert chain[..k + 1] == chain[..k] + [chain[k]];
    ConcatAppend(chain[..k], [chain[k]]);
    assert Concat([chain[k]]) == chain[k] + Concat([]) == chain[k];
    ConcatAppend(chain[..k + 1], chain[k + 1..]);
    assert chain == chain[..k + 1] + chain[k + 1..];
  }

  lemma {:induction false} CarriedStays(tx: Tx, n: nat)
    ensures tx.carried <= Completes(tx, n).carried && Completes(tx, n).rest == tx.rest
    decreases n
  {
    if n > 0 {
      CarriedStays(Complete(tx), n - 1);
    }
  }

  /** Where the transmitter points: whether that is in the array, and at which bytes. */
  datatype Window = Window(shared: bool, ptr: nat, size: nat)

  /** The transmitter, given what the array holds now. */
  function Seen(tx: Tx, w: Window, mem: seq<byte>): (r: Tx) {
    if w.shared && w.ptr + w.size <= |mem| then tx.(rest := mem[w.ptr..w.ptr + w.size]) else tx
  }

  function Over(mem: seq<byte>, i: nat, bytes: seq<byte>): (r: seq<byte>)
    ensures |r| == |mem|
  {
    if i + |bytes| <= |mem| then mem[..i] + bytes + mem[i + |bytes|..] else mem
  }

  function CountAt(counts: seq<nat>, k: nat): (n: nat) {
    if k < |counts| then counts[k] else 0
  }

  datatype Filled = Filled(tx: Tx, mem: seq<byte>, size: nat, ok: bool)

  /** The gathering from the k-th buffer on, `size` bytes being in place. Just before that buffer is looked at
      `during[k]` completions arrive. */
  function Fill(tx: Tx, mem: seq<byte>, w: Window, size: nat, chain: seq<seq<byte>>, during: seq<nat>, k: nat)
    : (r: Filled)
    decreases |chain| - k
  {
    if k >= |chain| then Filled(tx, mem, size, true)
    else
      var t := Completes(tx, CountAt(during, k));
      if size + |chain[k]| > MAX_FRAME then Filled(t, mem, size, false)
      else
        var m := Over(mem, size, chain[k]);
        Fill(Seen(t, w, m), m, w, size + |chain[k]|, chain, during, k + 1)
  }

  /** The end of the call: the result, the transmitter and the array. */
  datatype Outcome = Outcome(err: Err, tx: Tx, mem: seq<byte>)

  /** linkoutput_fn from the end of its wait on; `late` completions arrive between the last copy and the second
      test. */
  function Finish(waited: Tx, mem: seq<byte>, w: Window, chain: seq<seq<byte>>, during: seq<nat>, late: nat)
    : (r: Outcome)
    requires |mem| == MAX_FRAME + 4
  {
    FillSizes(waited, mem, w, chain, during, 0);
    var f := Fill(waited, mem, w, 0, chain, during, 0);
    if !f.ok then Outcome(Arg, f.tx, f.mem)
    else
      var tested := Completes(f.tx, late);
      if tested.state != Ready then Outcome(Use, tested, f.mem)
      else if f.size == 0 then Outcome(Ok, tested, f.mem)
      else Outcome(Ok, Begin(tested.(rest := f.mem[..f.size])), f.mem)
  }

  /** The array when `j` buffers have been copied over what it held. */
  function Laid(mem: seq<byte>, chain: seq<seq<byte>>, j: nat): (r: seq<byte>)
    requires j <= |chain|
  {
    var front := Concat(chain[..j]);
    if |front| <= |mem| then front + mem[|front|..] else mem
  }

  lemma LaidMore(mem: seq<byte>, chain: seq<seq<byte>>, k: nat)
    requires k < |chain| && |Concat(chain[..k])| + |chain[k]| <= |mem|
    ensures Laid(mem, chain, k + 1) == Over(Laid(mem, chain, k), |Concat(chain[..k])|, chain[k])
    ensures |Concat(chain[..k + 1])| == |Concat(chain[..k])| + |chain[k]|
  {
    ConcatSize(chain, k);
    var front := Concat(chain[..k]);
    Around(front, mem[|front|..], |chain[k]|);
    DropOfDrop(mem, |front|, |chain[k]|);
  }

  /** How many buffers are copied before the first that no longer fits. */
  function Copied(chain: seq<seq<byte>>, k: nat): (j: nat)
    requires k <= |chain|
    ensures k <= j <= |chain|
    decreases |chain| - k
  {
    if k == |chain| || |Concat(chain[..k])| + |chain[k]| > MAX_FRAME then k else Copied(chain, k + 1)
  }

  /** What the gathering leaves in the array does not depend on the interrupts; it fails exactly when the chain is
      longer than a frame may be. */
  lemma {:induction false} FillSizes(tx: Tx, mem: seq<byte>, w: Window, chain: seq<seq<byte>>, during: seq<nat>, k: nat)
    requires k <= |chain| && |mem| == MAX_FRAME + 4 && |Concat(chain[..k])| <= MAX_FRAME
    ensures var size := |Concat(chain[..k])|;
            var f := Fill(tx, Laid(mem, chain, k), w, size, chain, during, k);
            && f.mem == Laid(mem, chain, Copied(chain, k)) && |f.mem| == |mem|
            && (f.ok <==> |Concat(chain)| <= MAX_FRAME)
            && (f.ok ==> f.size == |Concat(chain)| && f.mem[..f.size] == Concat(chain))
    decreases |chain| - k
  {
    if k == |chain| {
      assert chain[..k] == chain;
    } else {
      ConcatSize(chain, k);
      if |Concat(chain[..k])| + |chain[k]| <= MAX_FRAME {
        LaidMore(mem, chain, k);
        var t := Completes(tx, CountAt(during, k));
        FillSizes(Seen(t, w, Laid(mem, chain, k + 1)), mem, w, chain, during, k + 1);
      }
    }
  }

  // ---------- A wait that ended ready ----------

  lemma {:induction false} FillIdle(tx: Tx, mem: seq<byte>, w: Window, size: nat, chain: seq<seq<byte>>,
                                    during: seq<nat>, k: nat)
    requires tx.state == Ready
    ensures var f := Fill(tx, mem, w, size, chain, during, k); f.tx == tx.(rest := f.tx.rest)
    decreases |chain| - k
  {
    if k < |chain| {
      IdleStays(tx, CountAt(during, k));
      if size + |chain[k]| <= MAX_FRAME {
        var m := Over(mem, size, chain[k]);
        FillIdle(Seen(tx, w, m), m, w, size + |chain[k]|, chain, during, k + 1);
      }
    }
  }

  lemma LaidNone(mem: seq<byte>, chain: seq<seq<byte>>)
    ensures Laid(mem, chain, 0) == mem && Concat(chain[..0]) == []
  {
    assert chain[..0] == [];
    assert [] + mem[0..] == mem;
  }

  /** When the wait ended with a ready transmitter, a chain of 1 to 1514 bytes is begun exactly as it is, from a
      transmitter that has nothing in flight; an empty one sends nothing, and a longer one is refused. */
  lemma ReadySendsExactly(waited: Tx, mem: seq<byte>, w: Window, chain: seq<seq<byte>>, during: seq<nat>, late: nat)
    requires waited.state == Ready && |mem| == MAX_FRAME + 4
    ensures var r, frame := Finish(waited, mem, w, chain, during, late), Concat(chain);
            if |frame| > MAX_FRAME then r.err == Arg && r.tx == waited.(rest := r.tx.rest)
            else if frame == [] then r.err == Ok && r.tx == waited.(rest := r.tx.rest)
            else r.err == Ok && r.tx == Begin(waited.(rest := frame))
  {
    LaidNone(mem, chain);
    FillSizes(waited, mem, w, chain, during, 0);
    FillIdle(waited, mem, w, 0, chain, during, 0);
    var f := Fill(waited, mem, w, 0, chain, during, 0);
    IdleStays(f.tx, late);
  }

  // ---------- The result of a call ----------

  /** How many completions until the transmitter is ready. */
  function Needed(tx: Tx): (n: nat) {
    match tx.state
    case SendingHdr => 1 + (if tx.rest != [] then 1 else 0) + (if tx.needPadding then 1 else 0)
    case SendingData => 1 + (if tx.needPadding then 1 else 0)
    case SendingPadding => 1
    case _ => 0
  }

  lemma {:induction false} NeededExactly(tx: Tx, n: nat)
    requires tx.state != NeedSending
    ensures Completes(tx, n).state == Ready <==> n >= Needed(tx)
    ensures Completes(tx, n).state != NeedSending
    ensures Needed(Completes(tx, n)) == if n >= Needed(tx) then 0 else Needed(tx) - n
    decreases n
  {
    if n > 0 {
      NeededExactly(Complete(tx), n - 1);
    }
  }

  /** Completions in front of the buffers from the k-th on. */
  function TotalFrom(chain: seq<seq<byte>>, during: seq<nat>, k: nat): (n: nat)
    decreases |chain| - k
  {
    if k >= |chain| then 0 else CountAt(during, k) + TotalFrom(chain, during, k + 1)
  }

  /** The window has the size of what is left to send. */
  predicate Sized(tx: Tx, w: Window, mem: seq<byte>) {
    w.shared ==> w.ptr + w.size <= |mem| && |tx.rest| == w.size
  }

  lemma SeenNeeds(tx: Tx, w: Window, mem: seq<byte>)
    requires Sized(tx, w, mem)
    ensures Needed(Seen(tx, w, mem)) == Needed(tx) && Sized(Seen(tx, w, mem), w, mem)
    ensures Seen(tx, w, mem).state == tx.state
  {
  }

  lemma {:induction false} FillNeeds(tx: Tx, mem: seq<byte>, w: Window, size: nat, chain: seq<seq<byte>>,
                                     during: seq<nat>, k: nat)
    requires tx.state != NeedSending && Sized(tx, w, mem)
    ensures var f, n := Fill(tx, mem, w, size, chain, during, k), TotalFrom(chain, during, k);
            f.tx.state != NeedSending
            && (f.ok ==> Needed(f.tx) == if n >= Needed(tx) then 0 else Needed(tx) - n)
    decreases |chain| - k
  {
    if k < |chain| {
      var n := CountAt(during, k);
      NeededExactly(tx, n);
      CarriedStays(tx, n);
      if size + |chain[k]| <= MAX_FRAME {
        var m := Over(mem, size, chain[k]);
        SeenNeeds(Completes(tx, n), w, m);
        FillNeeds(Seen(Completes(tx, n), w, m), m, w, size + |chain[k]|, chain, during, k + 1);
      }
    }
  }

  /** Which result: a chain of more than 1514 bytes is refused with ERR_ARG; otherwise the call succeeds if and only
      if the completions until the second test are as many as the transmitter needed when the wait ended, and gives
      ERR_USE if not. */
  lemma ResultExactly(waited: Tx, mem: seq<byte>, w: Window, chain: seq<seq<byte>>, during: seq<nat>, late: nat)
    requires |mem| == MAX_FRAME + 4 && waited.state != NeedSending && Sized(waited, w, mem)
    ensures Finish(waited, mem, w, chain, during, late).err ==
            if |Concat(chain)| > 1514 then Arg
            else if TotalFrom(chain, during, 0) + late >= Needed(waited) then Ok
            else Use
  {
    LaidNone(mem, chain);
    FillSizes(waited, mem, w, chain, during, 0);
    FillNeeds(waited, mem, w, 0, chain, during, 0);
    var f := Fill(waited, mem, w, 0, chain, during, 0);
    if f.ok {
      NeededExactly(f.tx, late);
    }
  }

  // ---------- Runs in which every wait ended ready ----------

  function DataOf(frame: seq<byte>): (ds: seq<seq<byte>>) {
    if |frame| > HEADER_ROOM then [frame[HEADER_ROOM..]] else []
  }

  /** Three completions finish whatever is in flight. */
  lemma ThreeFinish(tx: Tx)
    requires tx.state != NeedSending
    ensures Completes(tx, 3) == Complete(Complete(Complete(tx))) && Completes(tx, 3).state == Ready
  {
    var one := Complete(tx);
    assert Completes(tx, 3) == Completes(one, 2) == Completes(Complete(one), 1);
  }

  lemma BegunCarries(tx: Tx)
    requires Sendable(|tx.rest|)
    ensures Completes(Begin(tx), 3).carried == tx.carried + DataOf(tx.rest)
  {
    ThreeFinish(Begin(tx));
  }

  lemma ReadyIsFinished(tx: Tx, n: nat)
    requires tx.state != NeedSending && Completes(tx, n).state == Ready
    ensures Completes(tx, n) == Completes(tx, 3)
  {
    ThreeFinish(tx);
    if n <= 3 {
      CompletesAdd(tx, n, 3 - n);
      IdleStays(Completes(tx, n), 3 - n);
    } else {
      CompletesAdd(tx, 3, n - 3);
      IdleStays(Completes(tx, 3), n - 3);
    }
  }

  /** One call: `n` completions since the one before and during its wait, those between its copies, and those before the
      second test. */
  datatype OneCall = OneCall(n: nat, chain: seq<seq<byte>>, during: seq<nat>, late: nat, w: Window)

  /** The transmitter and the array. */
  datatype Net = Net(tx: Tx, mem: seq<byte>)

  function CallOn(net: Net, c: OneCall): (r: Net)
    requires |net.mem| == MAX_FRAME + 4
    ensures |r.mem| == |net.mem|
  {
    LaidNone(net.mem, c.chain);
    FillSizes(Completes(net.tx, c.n), net.mem, c.w, c.chain, c.during, 0);
    var r := Finish(Completes(net.tx, c.n), net.mem, c.w, c.chain, c.during, c.late);
    Net(r.tx, r.mem)
  }

  /** Every wait of the run ends with a ready transmitter. */
  predicate AlwaysReady(net: Net, calls: seq<OneCall>)
    requires |net.mem| == MAX_FRAME + 4
    decreases calls
  {
    calls == []
    || (Completes(net.tx, calls[0].n).state == Ready && AlwaysReady(CallOn(net, calls[0]), calls[1..]))
  }

  function RunCalls(net: Net, calls: seq<OneCall>): (r: Net)
    requires |net.mem| == MAX_FRAME + 4
    decreases calls
  {
    if calls == [] then net else RunCalls(CallOn(net, calls[0]), calls[1..])
  }

  /** The data transfers that the chains call for. */
  function AllData(calls: seq<OneCall>): (ds: seq<seq<byte>>) {
    if calls == [] then []
    else
      var frame := Concat(calls[0].chain);
      (if |frame| <= MAX_FRAME then DataOf(frame) else []) + AllData(calls[1..])
  }

  lemma CallCarries(net: Net, c: OneCall)
    requires |net.mem| == MAX_FRAME + 4 && net.tx.state != NeedSending && Completes(net.tx, c.n).state == Ready
    ensures var r, frame := CallOn(net, c).tx, Concat(c.chain);
            && r.state != NeedSending
            && Completes(r, 3).carried
               == Completes(net.tx, 3).carried + if |frame| <= MAX_FRAME then DataOf(frame) else []
  {
    var waited, frame := Completes(net.tx, c.n), Concat(c.chain);
    ReadyIsFinished(net.tx, c.n);
    ReadySendsExactly(waited, net.mem, c.w, c.chain, c.during, c.late);
    var r := CallOn(net, c).tx;
    if 0 < |frame| <= MAX_FRAME {
      BegunCarries(waited.(rest := frame));
    } else {
      IdleStays(r, 3);
    }
  }

  /** When every wait ends ready, every frame keeps its own data: over any run of calls, the data transfers carried
      in the end are those of the accepted chains, in order, with the bytes of those chains. */
  lemma {:induction false} AllIntact(net: Net, calls: seq<OneCall>)
    requires |net.mem| == MAX_FRAME + 4 && net.tx.state != NeedSending && AlwaysReady(net, calls)
    ensures Completes(RunCalls(net, calls).tx, 3).carried == Completes(net.tx, 3).carried + AllData(calls)
    decreases calls
  {
    if calls != [] {
      CallCarries(net, calls[0]);
      AllIntact(CallOn(net, calls[0]), calls[1..]);
    }
  }

  // ---------- A frame whose data transfer is not complete ----------

  /** The data transfer with number `base`: as it was carried, or as the driver would read it now. */
  function DataRead(tx: Tx, base: nat): (t: seq<byte>) {
    if base < |tx.carried| then tx.carried[base] else tx.rest
  }

  /** The data transfer with number `base` is complete after `m` more completions: that of the header transfer and its
      own, or its own alone. */
  predicate Awaits(tx: Tx, base: nat, m: nat) {
    && |tx.carried| == base && tx.rest != []
    && ((m == 2 && tx.state == SendingHdr) || (m == 1 && tx.state == SendingData))
  }

  /** Completions bring the transfer nearer to its end, at which it is carried as the memory stands. */
  lemma {:induction false} CompletesData(tx: Tx, n: nat, base: nat, m: nat)
    requires Awaits(tx, base, m)
    ensures var r := Completes(tx, n);
            if n < m then Awaits(r, base, m - n) && r.rest == tx.rest
            else base < |r.carried| && r.carried[base] == tx.rest
    decreases n
  {
    if n > 0 {
      if m == 1 {
        CarriedStays(Complete(tx), n - 1);
      } else {
        CompletesData(Complete(tx), n - 1, base, 1);
      }
    }
  }

  lemma {:induction false} IssuedStays(tx: Tx, n: nat)
    ensures tx.issued <= Completes(tx, n).issued
    decreases n
  {
    if n > 0 {
      IssuedStays(Complete(tx), n - 1);
    }
  }

  /** A wait that took `n` of `count` completions took at least two exactly when there were two, and otherwise all. */
  lemma WaitTook(tx: Tx, n: nat, count: nat)
    requires Awaits(tx, |tx.carried|, 2) && n <= count && (Completes(tx, n).state == Ready || n == count)
    ensures (n >= 2 <==> count >= 2) && (n < 2 ==> n == count)
  {
    CompletesData(tx, n, |tx.carried|, 2);
  }

  lemma {:induction false} FillCarries(tx: Tx, mem: seq<byte>, w: Window, size: nat, chain: seq<seq<byte>>,
                                       during: seq<nat>, k: nat)
    ensures tx.carried <= Fill(tx, mem, w, size, chain, during, k).tx.carried
    decreases |chain| - k
  {
    if k < |chain| {
      CarriedStays(tx, CountAt(during, k));
      if size + |chain[k]| <= MAX_FRAME {
        var m := Over(mem, size, chain[k]);
        FillCarries(Seen(Completes(tx, CountAt(during, k)), w, m), m, w, size + |chain[k]|, chain, during, k + 1);
      }
    }
  }

  /** How many buffers have been copied when `m` completions have arrived, or in all if fewer arrive meanwhile. */
  function Met(chain: seq<seq<byte>>, during: seq<nat>, k: nat, m: nat): (j: nat)
    requires k <= |chain|
    ensures k <= j <= |chain|
    decreases |chain| - k
  {
    if !Goes(chain, during, k, m, |Concat(chain[..k])|) then k
    else Met(chain, during, k + 1, m - CountAt(during, k))
  }

  function Part(w: Window, mem: seq<byte>): (r: seq<byte>)
    requires w.ptr + w.size <= |mem|
  {
    mem[w.ptr..w.ptr + w.size]
  }

  /** The transfer has been carried with these bytes, or stands at them. */
  predicate Reads(tx: Tx, base: nat, bytes: seq<byte>) {
    if base < |tx.carried| then tx.carried[base] == bytes
    else tx.rest == bytes && (Awaits(tx, base, 1) || Awaits(tx, base, 2))
  }

  /** What the array holds when `m` completions have arrived, or in the end if fewer arrive meanwhile. */
  function MetMem(now: seq<byte>, size: nat, chain: seq<seq<byte>>, during: seq<nat>, k: nat, m: nat): (r: seq<byte>)
    ensures |r| == |now|
    decreases |chain| - k
  {
    if !Goes(chain, during, k, m, size) then now
    else MetMem(Over(now, size, chain[k]), size + |chain[k]|, chain, during, k + 1, m - CountAt(during, k))
  }

  lemma {:induction false} MetLaid(mem: seq<byte>, chain: seq<seq<byte>>, during: seq<nat>, k: nat, m: nat)
    requires k <= |chain| && |mem| == MAX_FRAME + 4 && |Concat(chain[..k])| <= MAX_FRAME
    ensures MetMem(Laid(mem, chain, k), |Concat(chain[..k])|, chain, during, k, m)
         == Laid(mem, chain, Met(chain, during, k, m))
    decreases |chain| - k
  {
    if Goes(chain, during, k, m, |Concat(chain[..k])|) {
      LaidMore(mem, chain, k);
      MetLaid(mem, chain, during, k + 1, m - CountAt(during, k));
    }
  }

  /** The transfer is carried with what the array holds when its last completion arrives. */
  lemma {:induction false} FillData(tx: Tx, now: seq<byte>, w: Window, size: nat, chain: seq<seq<byte>>,
                                    during: seq<nat>, k: nat, base: nat, m: nat)
    requires w.shared && w.ptr + w.size <= |now| && w.size > 0
    requires Awaits(tx, base, m) && tx.rest == Part(w, now)
    ensures Reads(Fill(tx, now, w, size, chain, during, k).tx, base, Part(w, MetMem(now, size, chain, during, k, m)))
    decreases |chain| - k
  {
    if Goes(chain, during, k, m, size) {
      var n := CountAt(during, k);
      CompletesData(tx, n, base, m);
      var over := Over(now, size, chain[k]);
      SeenAwaits(Completes(tx, n), w, base, m - n, over);
      FillData(Seen(Completes(tx, n), w, over), over, w, size + |chain[k]|, chain, during, k + 1, base, m - n);
    } else {
      FillEnds(tx, now, w, size, chain, during, k, base, m);
    }
  }

  /** The k-th buffer is copied before the transfer is complete. */
  predicate Goes(chain: seq<seq<byte>>, during: seq<nat>, k: nat, m: nat, size: nat) {
    k < |chain| && CountAt(during, k) < m && size + |chain[k]| <= MAX_FRAME
  }

  lemma FillEnds(tx: Tx, now: seq<byte>, w: Window, size: nat, chain: seq<seq<byte>>, during: seq<nat>, k: nat,
                 base: nat, m: nat)
    requires Awaits(tx, base, m) && !Goes(chain, during, k, m, size)
    ensures Reads(Fill(tx, now, w, size, chain, during, k).tx, base, tx.rest)
  {
    if k < |chain| {
      CompletesData(tx, CountAt(during, k), base, m);
      if CountAt(during, k) >= m {
        FillAfter(tx, now, w, size, chain, during, k, base);
      }
    }
  }

  lemma SeenAwaits(tx: Tx, w: Window, base: nat, m: nat, mem: seq<byte>)
    requires w.shared && w.ptr + w.size <= |mem| && w.size > 0 && Awaits(tx, base, m)
    ensures Awaits(Seen(tx, w, mem), base, m) && Seen(tx, w, mem).rest == Part(w, mem)
  {
    assert |Part(w, mem)| == w.size;
  }

  /** Once carried, a transfer is not affected by what is copied later. */
  lemma FillAfter(tx: Tx, now: seq<byte>, w: Window, size: nat, chain: seq<seq<byte>>, during: seq<nat>, k: nat,
                  base: nat)
    requires k < |chain|
    requires var t := Completes(tx, CountAt(during, k)); base < |t.carried| && t.carried[base] == tx.rest
    ensures Reads(Fill(tx, now, w, size, chain, during, k).tx, base, tx.rest)
  {
    var t := Completes(tx, CountAt(during, k));
    if size + |chain[k]| <= MAX_FRAME {
      var m := Over(now, size, chain[k]);
      FillCarries(Seen(t, w, m), m, w, size + |chain[k]|, chain, during, k + 1);
    }
  }

  /** The bytes agree with the frame where its data transfer is taken from. */
  predicate Agrees(bytes: seq<byte>, f: seq<byte>) {
    forall i | HEADER_ROOM <= i < |f| && i < |bytes| :: bytes[i] == f[i]
  }

  lemma LaidAgrees(mem: seq<byte>, f: seq<byte>, front: seq<byte>)
    requires HEADER_ROOM < |f| <= |mem| && mem[..|f|] == f && |front| <= |mem|
    ensures (front + mem[|front|..])[HEADER_ROOM..|f|] == f[HEADER_ROOM..] <==> Agrees(front, f)
  {
    var now := front + mem[|front|..];
    var a, b := now[HEADER_ROOM..|f|], f[HEADER_ROOM..];
    assert forall i | 0 <= i < |f| :: mem[i] == f[i] by {
      assert forall i | 0 <= i < |f| :: mem[..|f|][i] == mem[i];
    }
    if a == b {
      forall i | HEADER_ROOM <= i < |f| && i < |front| ensures front[i] == f[i] {
        assert a[i - HEADER_ROOM] == b[i - HEADER_ROOM];
      }
    }
  }

  /** The frame `f` lies in the array and its header transfer is in flight. */
  predicate Carries(tx: Tx, mem: seq<byte>, f: SendableFrame) {
    && HEADER_ROOM < |f| && |mem| == MAX_FRAME + 4
    && tx.state == SendingHdr && tx.rest == f[HEADER_ROOM..] && mem[..|f|] == f
  }

  function WindowOf(f: SendableFrame): (w: Window)
    requires HEADER_ROOM < |f|
  {
    Window(true, HEADER_ROOM, |f| - HEADER_ROOM)
  }

  /** For every pattern of interrupts: the data of the frame that was in flight is the frame's own when its data
      transfer completes, or when the call returns if it has not completed by then, if and only if that and the
      header transfer completed before the wait ended (`n` counts the completions until then), or the buffers copied
      before the second completion agree with the frame from byte 20 on. */
  lemma DataExactly(f: SendableFrame, tx: Tx, mem: seq<byte>, n: nat, chain: seq<seq<byte>>, during: seq<nat>,
                    late: nat)
    requires Carries(tx, mem, f)
    ensures var r := Finish(Completes(tx, n), mem, WindowOf(f), chain, during, late);
            (DataRead(r.tx, |tx.carried|) == Transfers(f)[1]
             <==> n >= 2 || Agrees(Concat(chain[..Met(chain, during, 0, 2 - n)]), f))
  {
    if n >= 2 {
      DataInWait(f, tx, mem, n, chain, during, late);
    } else {
      DataAfterWait(f, tx, mem, n, chain, during, late);
      MetFits(chain, during, 0, 2 - n);
      LaidAgrees(mem, f, Concat(chain[..Met(chain, during, 0, 2 - n)]));
    }
  }

  lemma DataInWait(f: SendableFrame, tx: Tx, mem: seq<byte>, n: nat, chain: seq<seq<byte>>, during: seq<nat>, late: nat)
    requires Carries(tx, mem, f) && n >= 2
    ensures DataRead(Finish(Completes(tx, n), mem, WindowOf(f), chain, during, late).tx, |tx.carried|)
         == f[HEADER_ROOM..]
  {
    CompletesData(tx, n, |tx.carried|, 2);
    FillCarries(Completes(tx, n), mem, WindowOf(f), 0, chain, during, 0);
    FinishReads(Completes(tx, n), mem, WindowOf(f), chain, during, late, |tx.carried|, f[HEADER_ROOM..]);
  }

  lemma DataAfterWait(f: SendableFrame, tx: Tx, mem: seq<byte>, n: nat, chain: seq<seq<byte>>, during: seq<nat>,
                      late: nat)
    requires Carries(tx, mem, f) && n < 2
    ensures DataRead(Finish(Completes(tx, n), mem, WindowOf(f), chain, during, late).tx, |tx.carried|)
         == Part(WindowOf(f), Laid(mem, chain, Met(chain, during, 0, 2 - n)))
  {
    CompletesData(tx, n, |tx.carried|, 2);
    PartOf(mem, f);
    LaidNone(mem, chain);
    FillData(Completes(tx, n), mem, WindowOf(f), 0, chain, during, 0, |tx.carried|, 2 - n);
    MetLaid(mem, chain, during, 0, 2 - n);
    FinishReads(Completes(tx, n), mem, WindowOf(f), chain, during, late, |tx.carried|,
                MetMem(mem, 0, chain, during, 0, 2 - n)[HEADER_ROOM..|f|]);
  }

  /** What follows the gathering carries the transfer as it stands, and leaves a carried one alone. */
  lemma FinishReads(waited: Tx, mem: seq<byte>, w: Window, chain: seq<seq<byte>>, during: seq<nat>, late: nat,
                    base: nat, bytes: seq<byte>)
    requires |mem| == MAX_FRAME + 4
    requires Reads(Fill(waited, mem, w, 0, chain, during, 0).tx, base, bytes)
    ensures DataRead(Finish(waited, mem, w, chain, during, late).tx, base) == bytes
  {
    LaidNone(mem, chain);
    FillSizes(waited, mem, w, chain, during, 0);
    var f := Fill(waited, mem, w, 0, chain, during, 0).tx;
    CarriedStays(f, late);
    if |f.carried| <= base {
      CompletesData(f, late, base, if Awaits(f, base, 1) then 1 else 2);
    }
  }

  /** Bytes that agree until the second completion agreed at every moment before it, so it does not matter when the
      driver read them. */
  lemma AgreesThroughout(f: SendableFrame, mem: seq<byte>, chain: seq<seq<byte>>, i: nat, j: nat)
    requires HEADER_ROOM < |f| && |mem| == MAX_FRAME + 4 && mem[..|f|] == f
    requires i <= j <= |chain| && |Concat(chain[..j])| <= MAX_FRAME && Agrees(Concat(chain[..j]), f)
    ensures Part(WindowOf(f), Laid(mem, chain, i)) == f[HEADER_ROOM..]
  {
    assert chain[..j] == chain[..i] + chain[i..j];
    ConcatAppend(chain[..i], chain[i..j]);
    assert forall k | 0 <= k < |Concat(chain[..i])| :: Concat(chain[..i])[k] == Concat(chain[..j])[k];
    LaidAgrees(mem, f, Concat(chain[..i]));
  }

  lemma PartOf(mem: seq<byte>, f: SendableFrame)
    requires HEADER_ROOM < |f| <= |mem| && mem[..|f|] == f
    ensures mem[HEADER_ROOM..|f|] == f[HEADER_ROOM..]
  {
    var a, b := mem[HEADER_ROOM..|f|], mem[..|f|][HEADER_ROOM..];
    assert a == b;
  }

  lemma {:induction false} MetFits(chain: seq<seq<byte>>, during: seq<nat>, k: nat, m: nat)
    requires k <= |chain| && |Concat(chain[..k])| <= MAX_FRAME
    ensures |Concat(chain[..Met(chain, during, k, m)])| <= MAX_FRAME
    decreases |chain| - k
  {
    if k < |chain| && CountAt(during, k) < m {
      ConcatSize(chain, k);
      if |Concat(chain[..k])| + |chain[k]| <= MAX_FRAME {
        MetFits(chain, during, k + 1, m - CountAt(during, k));
      }
    }
  }

  /** What the endpoint can read of a data transfer that is still in flight when the call returns: the frame's own bytes
      if and only if all that was copied agrees with them; a chain that was refused counts with the buffers before the
      one that did not fit. */
  lemma MemoryExactly(f: SendableFrame, waited: Tx, mem: seq<byte>, chain: seq<seq<byte>>, during: seq<nat>, late: nat)
    requires HEADER_ROOM < |f| && |mem| == MAX_FRAME + 4 && mem[..|f|] == f
    ensures var r := Finish(waited, mem, WindowOf(f), chain, during, late);
            && |r.mem| == |mem|
            && (Part(WindowOf(f), r.mem) == Transfers(f)[1] <==> Agrees(Concat(chain[..Copied(chain, 0)]), f))
  {
    FinishMem(waited, mem, WindowOf(f), chain, during, late);
    CopiedFits(chain, 0);
    LaidAgrees(mem, f, Concat(chain[..Copied(chain, 0)]));
  }

  lemma FinishMem(waited: Tx, mem: seq<byte>, w: Window, chain: seq<seq<byte>>, during: seq<nat>, late: nat)
    requires |mem| == MAX_FRAME + 4
    ensures Finish(waited, mem, w, chain, during, late).mem == Laid(mem, chain, Copied(chain, 0))
  {
    LaidNone(mem, chain);
    FillSizes(waited, mem, w, chain, during, 0);
  }

  lemma {:induction false} CopiedFits(chain: seq<seq<byte>>, k: nat)
    requires k <= |chain| && |Concat(chain[..k])| <= MAX_FRAME
    ensures |Concat(chain[..Copied(chain, k)])| <= MAX_FRAME
    decreases |chain| - k
  {
    if k < |chain| {
      ConcatSize(chain, k);
      if |Concat(chain[..k])| + |chain[k]| <= MAX_FRAME {
        CopiedFits(chain, k + 1);
      }
    }
  }

  /** Without further completions the transfer stands, in the end, at what the array holds. */
  lemma NoCompletions(f: SendableFrame, tx: Tx, mem: seq<byte>, n: nat, chain: seq<seq<byte>>)
    requires Carries(tx, mem, f) && n < 2
    ensures var r := Finish(Completes(tx, n), mem, WindowOf(f), chain, [], 0);
            && r.err != Ok && r.tx.issued == Completes(tx, n).issued && r.tx.carried == tx.carried && |r.mem| == |mem|
            && r.mem == Laid(mem, chain, Copied(chain, 0))
            && Awaits(r.tx, |tx.carried|, 2 - n) && r.tx.rest == Part(WindowOf(f), r.mem)
  {
    var w, waited := WindowOf(f), Completes(tx, n);
    CompletesData(tx, n, |tx.carried|, 2);
    CarriedStays(tx, n);
    LaidNone(mem, chain);
    FillSizes(waited, mem, w, chain, [], 0);
    FillNone(waited, mem, w, 0, chain, 0);
    PartOf(mem, f);
    FillData(waited, mem, w, 0, chain, [], 0, |tx.carried|, 2 - n);
    MetLaid(mem, chain, [], 0, 2 - n);
    MetNone(chain, 0, 2 - n);
  }

  lemma {:induction false} FillNone(tx: Tx, mem: seq<byte>, w: Window, size: nat, chain: seq<seq<byte>>, k: nat)
    ensures var f := Fill(tx, mem, w, size, chain, [], k); f.tx == tx.(rest := f.tx.rest)
    decreases |chain| - k
  {
    if k < |chain| && size + |chain[k]| <= MAX_FRAME {
      var m := Over(mem, size, chain[k]);
      FillNone(Seen(tx, w, m), m, w, size + |chain[k]|, chain, k + 1);
    }
  }

  lemma {:induction false} MetNone(chain: seq<seq<byte>>, k: nat, m: nat)
    requires k <= |chain| && m > 0
    ensures Met(chain, [], k, m) == Copied(chain, k)
    decreases |chain| - k
  {
    if k < |chain| {
      MetNone(chain, k + 1, m);
    }
  }
}
