/** The lease table as a value: what one message does to it, and what holds over whole runs. */
module DhcpLeases {
  import opened Bytes
  import opened DhcpOptions

  type Mac = m: seq<byte> | |m| == 6 witness [0, 0, 0, 0, 0, 0]

  /** The MAC of an entry nobody holds. */
  const VACANT: Mac := [0, 0, 0, 0, 0, 0]

  datatype Entry = Entry(mac: Mac, addr: Addr, subnet: Addr, lease: word32)

  type Table = seq<Entry>

  // ---------- Lookups ----------

  predicate FoundFirst(t: Table, r: Option<nat>, p: Entry -> bool) {
    match r
    case Some(i) => i < |t| && p(t[i]) && forall k | 0 <= k < i :: !p(t[k])
    case None => forall k | 0 <= k < |t| :: !p(t[k])
  }

  function ByMac(t: Table, mac: Mac): (r: Option<nat>)
    ensures FoundFirst(t, r, (e: Entry) => e.mac == mac)
  {
    FirstMac(t, mac, 0)
  }

  function FirstMac(t: Table, mac: Mac, i: nat): (r: Option<nat>)
    requires i <= |t|
    ensures r.Some? ==> i <= r.value < |t| && t[r.value].mac == mac && forall k | i <= k < r.value :: t[k].mac != mac
    ensures r.None? ==> forall k | i <= k < |t| :: t[k].mac != mac
    decreases |t| - i
  {
    if i == |t| then None else if t[i].mac == mac then Some(i) else FirstMac(t, mac, i + 1)
  }

  function ByIp(t: Table, addr: Addr): (r: Option<nat>)
    ensures FoundFirst(t, r, (e: Entry) => e.addr == addr)
  {
    FirstIp(t, addr, 0)
  }

  function FirstIp(t: Table, addr: Addr, i: nat): (r: Option<nat>)
    requires i <= |t|
    ensures r.Some? ==> i <= r.value < |t| && t[r.value].addr == addr
    ensures r.Some? ==> forall k | i <= k < r.value :: t[k].addr != addr
    ensures r.None? ==> forall k | i <= k < |t| :: t[k].addr != addr
    decreases |t| - i
  {
    if i == |t| then None else if t[i].addr == addr then Some(i) else FirstIp(t, addr, i + 1)
  }

  // ---------- One message ----------

  datatype Message =
    | Discover(mac: Mac)
    | Request(mac: Mac, addr: Option<Addr>)  // the address of option 50, when it is there and four bytes long
    | Other

  /** A REQUEST that names an address. */
  predicate Claim(m: Message) {
    m.Request? && m.addr.Some?
  }

  predicate ClaimOf(m: Message, mac: Mac) {
    Claim(m) && m.mac == mac
  }

  datatype Verdict = Silent | Offer(entry: nat) | Ack(entry: nat)

  /** The table after a REQUEST has given up whatever its sender held. */
  function Released(t: Table, mac: Mac): (r: Table)
    ensures |r| == |t|
    ensures forall i | 0 <= i < |t| :: r[i].addr == t[i].addr && r[i].subnet == t[i].subnet && r[i].lease == t[i].lease
  {
    match ByMac(t, mac)
    case Some(i) => t[i := t[i].(mac := VACANT)]
    case None => t
  }

  /** The entry a message is about: what would be offered, or acknowledged. */
  function Chosen(t: Table, m: Message): (v: Verdict) {
    match m
    case Discover(mac) =>
      var e := if ByMac(t, mac).Some? then ByMac(t, mac) else ByMac(t, VACANT);
      if e.Some? then Offer(e.value) else Silent
    case Request(mac, Some(addr)) =>
      var r := Released(t, mac);
      var e := ByIp(r, addr);
      if e.Some? && r[e.value].mac == VACANT then Ack(e.value) else Silent
    case _ => Silent
  }

  datatype Step = Step(msg: Message, alloc: bool)

  /** The table after one message; `alloc` says whether a reply buffer was available. */
  function Next(t: Table, s: Step): (r: Table)
    ensures |r| == |t|
  {
    match s.msg
    case Request(mac, Some(addr)) =>
      var released := Released(t, mac);
      var v := Chosen(t, s.msg);
      if v.Ack? && s.alloc then released[v.entry := released[v.entry].(mac := mac)] else released
    case _ => t
  }

  /** What is sent. */
  function Sent(t: Table, s: Step): (v: Verdict) {
    if s.alloc then Chosen(t, s.msg) else Silent
  }

  // ---------- Invariants ----------

  predicate DistinctAddrs(t: Table) {
    forall i, j | 0 <= i < j < |t| :: t[i].addr != t[j].addr
  }

  /** No client holds two addresses. */
  predicate DistinctMacs(t: Table) {
    forall i, j | 0 <= i < j < |t| :: t[i].mac == t[j].mac ==> t[i].mac == VACANT
  }

  /** Addresses, subnets and lease times are configuration; messages change MACs only. */
  predicate SamePool(t: Table, u: Table) {
    |t| == |u| && forall i | 0 <= i < |t| :: t[i] == u[i].(mac := t[i].mac)
  }

  lemma NextKeepsPool(t: Table, s: Step)
    ensures SamePool(Next(t, s), t)
    ensures DistinctAddrs(t) ==> DistinctAddrs(Next(t, s))
  {
  }

  lemma NextKeepsDistinctMacs(t: Table, s: Step)
    requires DistinctMacs(t)
    ensures DistinctMacs(Next(t, s))
  {
    if s.msg.Request? && s.msg.addr.Some? {
      var r := Released(t, s.msg.mac);
      assert DistinctMacs(r);
      assert s.msg.mac != VACANT ==> forall k | 0 <= k < |r| :: r[k].mac != s.msg.mac;
    }
  }

  /** Only the sender of a REQUEST that names an address can lose one by it, and only it can gain one. */
  lemma OthersUntouched(t: Table, s: Step, i: nat)
    requires i < |t| && t[i].mac != VACANT && !ClaimOf(s.msg, t[i].mac)
    ensures Next(t, s)[i] == t[i]
  {
  }

  /** Nothing but a REQUEST that names an address changes the table. */
  lemma OnlyClaimsChange(t: Table, s: Step)
    requires !(s.msg.Request? && s.msg.addr.Some?)
    ensures Next(t, s) == t && !Sent(t, s).Ack?
  {
  }

  /** What a message does to each entry: the one acknowledged gets the sender, the one the sender held before is
      vacated, and everything else stays. */
  lemma NextExactly(t: Table, s: Step, i: nat)
    requires i < |t|
    ensures Next(t, s)[i] == t[i].(mac :=
              if !(s.msg.Request? && s.msg.addr.Some?) then t[i].mac
              else if Sent(t, s) == Ack(i) then s.msg.mac
              else if ByMac(t, s.msg.mac) == Some(i) then VACANT
              else t[i].mac)
  {
  }

  /** Without a reply buffer a message can release an address but gives none away. */
  lemma NoBufferNoAssignment(t: Table, s: Step, i: nat)
    requires !s.alloc && i < |t|
    ensures Sent(t, s) == Silent
    ensures Next(t, s)[i] == t[i] || (s.msg.Request? && t[i].mac == s.msg.mac && Next(t, s)[i].mac == VACANT)
  {
  }

  /** An acknowledged client holds the address it asked for. */
  lemma AckBinds(t: Table, s: Step)
    requires Sent(t, s).Ack?
    ensures s.msg.Request? && s.msg.addr.Some?
    ensures var i := Sent(t, s).entry;
            i < |t| && t[i].addr == s.msg.addr.value && Next(t, s)[i] == t[i].(mac := s.msg.mac)
    ensures var i := Sent(t, s).entry; t[i].mac == VACANT || t[i].mac == s.msg.mac
  {
  }

  /** Which REQUESTs are granted: those for an address whose first entry is vacant or is the one that the sender
      itself has just given up. */
  lemma AckExactly(t: Table, mac: Mac, addr: Addr, i: nat)
    ensures Chosen(t, Request(mac, Some(addr))) == Ack(i)
       <==> ByIp(t, addr) == Some(i) && (t[i].mac == VACANT || ByMac(t, mac) == Some(i))
  {
    SamePoolSameIp(Released(t, mac), t, addr);
  }

  /** After a REQUEST that names an address, its sender holds exactly the entry acknowledged to it: an
      unanswered one costs it whatever it held. */
  lemma HoldsWhatWasAcknowledged(t: Table, s: Step, i: nat)
    requires DistinctMacs(t) && i < |t|
    requires s.msg.Request? && s.msg.addr.Some? && s.msg.mac != VACANT
    ensures Next(t, s)[i].mac == s.msg.mac <==> Sent(t, s) == Ack(i)
  {
    var r := Released(t, s.msg.mac);
    assert r[i].mac != s.msg.mac by {
      var held := ByMac(t, s.msg.mac);
      if held.Some? && held.value != i {
        assert t[held.value].mac == s.msg.mac;
      }
    }
  }

  // ---------- Runs ----------

  function Run(t: Table, steps: seq<Step>): (r: Table)
    ensures |r| == |t|
    decreases steps
  {
    if steps == [] then t else Run(Next(t, steps[0]), steps[1..])
  }

  predicate NoClaimFrom(steps: seq<Step>, mac: Mac) {
    forall s | s in steps :: !ClaimOf(s.msg, mac)
  }

  lemma {:induction false} RunKeepsInvariants(t: Table, steps: seq<Step>)
    ensures SamePool(Run(t, steps), t)
    ensures DistinctMacs(t) ==> DistinctMacs(Run(t, steps))
    decreases steps
  {
    if steps != [] {
      NextKeepsPool(t, steps[0]);
      if DistinctMacs(t) {
        NextKeepsDistinctMacs(t, steps[0]);
      }
      RunKeepsInvariants(Next(t, steps[0]), steps[1..]);
    }
  }

  /** A lease survives everything but a REQUEST of its own holder that names an address. */
  lemma {:induction false} LeaseSurvives(t: Table, steps: seq<Step>, i: nat)
    requires i < |t| && t[i].mac != VACANT && NoClaimFrom(steps, t[i].mac)
    ensures Run(t, steps)[i] == t[i]
    decreases steps
  {
    if steps != [] {
      OthersUntouched(t, steps[0], i);
      LeaseSurvives(Next(t, steps[0]), steps[1..], i);
    }
  }

  /** The table before step `k` of a run. */
  function Before(t: Table, steps: seq<Step>, k: nat): (r: Table)
    requires k <= |steps|
    ensures |r| == |t|
  {
    Run(t, steps[..k])
  }

  lemma {:induction false} RunAppend(t: Table, a: seq<Step>, b: seq<Step>)
    ensures Run(t, a + b) == Run(Run(t, a), b)
    decreases a
  {
    if a == [] {
      assert a + b == b;
    } else {
      assert (a + b)[1..] == a[1..] + b;
      RunAppend(Next(t, a[0]), a[1..], b);
    }
  }

  lemma BeforeNext(t: Table, steps: seq<Step>, k: nat)
    requires k < |steps|
    ensures Before(t, steps, k + 1) == Next(Before(t, steps, k), steps[k])
  {
    assert steps[..k + 1] == steps[..k] + [steps[k]];
    RunAppend(t, steps[..k], [steps[k]]);
    var b := Before(t, steps, k);
    assert Run(b, [steps[k]]) == Run(Next(b, steps[k]), []);
  }

  lemma BeforeLater(t: Table, steps: seq<Step>, j: nat, k: nat)
    requires j <= k <= |steps|
    ensures Before(t, steps, k) == Run(Before(t, steps, j), steps[j..k])
  {
    assert steps[..k] == steps[..j] + steps[j..k];
    RunAppend(t, steps[..j], steps[j..k]);
  }

  predicate Acknowledged(t: Table, steps: seq<Step>, k: nat, mac: Mac, addr: Addr)
    requires k < |steps|
  {
    var s := steps[k];
    Sent(Before(t, steps, k), s).Ack? && s.msg.Request? && s.msg.mac == mac && s.msg.addr == Some(addr)
  }

  /** Safety of whole runs: an address acknowledged to one client is acknowledged to another only after the
      first has itself sent a REQUEST that names an address in between. */
  lemma NoDoubleLease(t: Table, steps: seq<Step>, j: nat, k: nat, m: Mac, n: Mac, addr: Addr)
    requires j < k < |steps| && m != VACANT && m != n
    ensures Acknowledged(t, steps, j, m, addr) && Acknowledged(t, steps, k, n, addr) ==>
              exists i | j < i < k :: steps[i].msg.Request? && steps[i].msg.mac == m && steps[i].msg.addr.Some?
  {
    BetweenThem(t, steps, j, k);
    if !Acknowledged(t, steps, j, m, addr) || !Acknowledged(t, steps, k, n, addr) {
      return;
    }
    AckIsARequest(Before(t, steps, j), steps[j]);
    if NoClaimFrom(steps[j + 1..k], m) {
      HeldIsNotGranted(Before(t, steps, j), steps[j], steps[j + 1..k], steps[k]);
    } else {
      RequestIndex(steps, j + 1, k, m);
      var i :| j + 1 <= i < k && ClaimOf(steps[i].msg, m);
      assert steps[i].msg.Request? && steps[i].msg.mac == m && steps[i].msg.addr.Some?;
    }
  }

  lemma BetweenThem(t: Table, steps: seq<Step>, j: nat, k: nat)
    requires j < k < |steps|
    ensures Before(t, steps, k) == Run(Next(Before(t, steps, j), steps[j]), steps[j + 1..k])
  {
    BeforeNext(t, steps, j);
    BeforeLater(t, steps, j + 1, k);
  }

  lemma AckIsARequest(t: Table, s: Step)
    requires Sent(t, s).Ack?
    ensures s.msg.Request? && s.msg.addr.Some?
  {
  }

  lemma RequestIndex(steps: seq<Step>, j: nat, k: nat, m: Mac)
    requires j <= k <= |steps| && !NoClaimFrom(steps[j..k], m)
    ensures exists i | j <= i < k :: ClaimOf(steps[i].msg, m)
  {
    var between := steps[j..k];
    var s :| s in between && ClaimOf(s.msg, m);
    var i :| 0 <= i < |between| && between[i] == s;
    assert steps[j + i] == s;
  }

  /** Between an acknowledgement to one client and the next message of that client, nobody else is granted
      the address. */
  lemma HeldIsNotGranted(u: Table, s: Step, between: seq<Step>, other: Step)
    requires Sent(u, s).Ack? && s.msg.mac != VACANT && NoClaimFrom(between, s.msg.mac)
    requires other.msg.Request? && other.msg.mac != s.msg.mac && other.msg.addr == s.msg.addr
    ensures !Sent(Run(Next(u, s), between), other).Ack?
  {
    AckBinds(u, s);
    var e, v := Sent(u, s).entry, Next(u, s);
    var w := Run(v, between);
    LeaseSurvives(v, between, e);
    RunKeepsInvariants(v, between);
    SamePoolSameIp(Released(u, s.msg.mac), Released(w, other.msg.mac), s.msg.addr.value);
    assert Released(w, other.msg.mac)[e].mac == s.msg.mac;
  }

  lemma SamePoolSameIp(t: Table, u: Table, addr: Addr)
    requires |t| == |u| && forall i | 0 <= i < |t| :: t[i].addr == u[i].addr
    ensures ByIp(t, addr) == ByIp(u, addr)
  {
    var a, b := ByIp(t, addr), ByIp(u, addr);
    if a.Some? {
      assert u[a.value].addr == addr;
    }
    if b.Some? {
      assert t[b.value].addr == addr;
    }
  }

  /** A client with an all-zero MAC is acknowledged but not recorded, so the rule does not protect it. */
  lemma ZeroMacHoldsNothing(e: Entry, n: Mac)
    requires e.mac == VACANT && n != VACANT
    ensures var steps := [Step(Request(VACANT, Some(e.addr)), true), Step(Request(n, Some(e.addr)), true)];
            Acknowledged([e], steps, 0, VACANT, e.addr) && Acknowledged([e], steps, 1, n, e.addr)
  {
    var steps := [Step(Request(VACANT, Some(e.addr)), true), Step(Request(n, Some(e.addr)), true)];
    assert Released([e], VACANT) == [e] && Released([e], n) == [e];
    assert Next([e], steps[0]) == [e];
    assert Before([e], steps, 0) == [e];
    BeforeNext([e], steps, 0);
  }

  // ---------- Offers ----------

  /** Who is offered something: the known clients always, a stranger exactly when an entry is vacant. */
  lemma OfferIffRoom(t: Table, mac: Mac)
    ensures Chosen(t, Discover(mac)) == Silent <==> forall i | 0 <= i < |t| :: t[i].mac != VACANT && t[i].mac != mac
  {
  }

  /** What is offered: the entry a known client holds, and to a stranger the first vacant one. */
  lemma OfferExactly(t: Table, mac: Mac, i: nat)
    ensures Chosen(t, Discover(mac)) == Offer(i)
       <==> i < |t|
            && ((t[i].mac == mac && forall k | 0 <= k < i :: t[k].mac != mac)
                || (t[i].mac == VACANT && (forall k | 0 <= k < i :: t[k].mac != VACANT)
                    && forall k | 0 <= k < |t| :: t[k].mac != mac))
  {
  }

  /** An offer is honoured: the client that requests it, with no other REQUEST for an address in between and a
      buffer to reply with, gets it. */
  lemma OfferIsHonoured(t: Table, mac: Mac, between: seq<Step>)
    requires DistinctAddrs(t) && Chosen(t, Discover(mac)).Offer?
    requires forall s | s in between :: !Claim(s.msg)
    ensures var e := Chosen(t, Discover(mac)).entry;
            && e < |t|
            && Sent(Run(t, between), Step(Request(mac, Some(t[e].addr)), true)) == Ack(e)
  {
    NothingHappens(t, between);
    var e := Chosen(t, Discover(mac)).entry;
    var r := Released(t, mac);
    assert r[e].mac == VACANT;
    assert r[ByIp(r, t[e].addr).value].addr == t[e].addr;
  }

  lemma {:induction false} NothingHappens(t: Table, steps: seq<Step>)
    requires forall s | s in steps :: !Claim(s.msg)
    ensures Run(t, steps) == t
    decreases steps
  {
    if steps != [] {
      NothingHappens(t, steps[1..]);
    }
  }

  /** After an acknowledgement, every DISCOVER of that client before its next REQUEST for an address is offered the
      same one, whatever the other clients do. */
  lemma SameOfferAfterAck(t: Table, s: Step, later: seq<Step>)
    requires DistinctMacs(t) && Sent(t, s).Ack? && s.msg.mac != VACANT
    requires NoClaimFrom(later, s.msg.mac)
    ensures Chosen(Run(Next(t, s), later), Discover(s.msg.mac)) == Offer(Sent(t, s).entry)
    ensures Run(Next(t, s), later)[Sent(t, s).entry].addr == s.msg.addr.value
  {
    AckBinds(t, s);
    var e := Sent(t, s).entry;
    NextKeepsDistinctMacs(t, s);
    NextKeepsPool(t, s);
    LeaseSurvives(Next(t, s), later, e);
    RunKeepsInvariants(Next(t, s), later);
  }
}
