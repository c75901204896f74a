/** Sequences of datagrams through the server's one record: what holds of the replies on the wire. */
module DhcpRuns {
  import opened Bytes
  import opened DhcpOptions
  import L = DhcpLeases
  import opened DhcpServer

  datatype Datagram = Datagram(payload: seq<byte>, alloc: bool)

  /** The record and the lease table between two datagrams. */
  datatype Machine = Machine(data: Record, table: L.Table)

  function StepOf(m: Machine, d: Datagram): (s: L.Step) {
    L.Step(MessageOf(Merged(m.data, d.payload)), d.alloc)
  }

  /** What `Server.UdpRecv` leaves, and what it sends. */
  function Receive(m: Machine, d: Datagram, c: Config): (r: Machine)
    requires Fits(c)
  {
    Machine(Built(Merged(m.data, d.payload), m.table, c), L.Next(m.table, StepOf(m, d)))
  }

  function Reply(m: Machine, d: Datagram, c: Config): (s: Option<Record>)
    requires Fits(c)
  {
    if L.Sent(m.table, StepOf(m, d)) == L.Silent then None else Some(Built(Merged(m.data, d.payload), m.table, c))
  }

  method ServeOne(server: Server, d: Datagram, ghost m: Machine) returns (sent: Option<seq<byte>>)
    requires server.Valid() && m == Machine(server.data[..], server.entries[..])
    modifies server.data, server.entries
    ensures server.data[..] == Receive(m, d, server.config).data
    ensures server.entries[..] == Receive(m, d, server.config).table
    ensures sent == match Reply(m, d, server.config) case None => None case Some(s) => Some(s)
  {
    sent := server.UdpRecv(d.payload, d.alloc);
  }

  function Run(m: Machine, ds: seq<Datagram>, c: Config): (r: Machine)
    requires Fits(c)
    decreases ds
  {
    if ds == [] then m else Run(Receive(m, ds[0], c), ds[1..], c)
  }

  function Steps(m: Machine, ds: seq<Datagram>, c: Config): (ss: seq<L.Step>)
    requires Fits(c)
    ensures |ss| == |ds|
    decreases ds
  {
    if ds == [] then [] else [StepOf(m, ds[0])] + Steps(Receive(m, ds[0], c), ds[1..], c)
  }

  /** The machine when the k-th datagram arrives. */
  function Before(m: Machine, ds: seq<Datagram>, c: Config, k: nat): (r: Machine)
    requires Fits(c) && k <= |ds|
  {
    Run(m, ds[..k], c)
  }

  lemma TailOfFront<T>(s: seq<T>, k: nat)
    requires 0 < k <= |s|
    ensures s[..k][1..] == s[1..][..k - 1] && s[..k][0] == s[0]
  {
  }

  /** The lease table of a run of datagrams is that of the run of their messages. */
  lemma {:induction false} TableFollows(m: Machine, ds: seq<Datagram>, c: Config, k: nat)
    requires Fits(c) && k <= |ds|
    ensures Before(m, ds, c, k).table == L.Before(m.table, Steps(m, ds, c), k)
    ensures k < |ds| ==> Steps(m, ds, c)[k] == StepOf(Before(m, ds, c, k), ds[k])
    decreases k
  {
    if k > 0 {
      var n, ss := Receive(m, ds[0], c), Steps(m, ds, c);
      TableFollows(n, ds[1..], c, k - 1);
      TailOfFront(ds, k);
      TailOfFront(ss, k);
      assert ss[1..] == Steps(n, ds[1..], c);
    }
  }

  /** The reply acknowledges `addr` to `mac`, read off its bytes. */
  predicate Acknowledges(s: Record, mac: L.Mac, addr: Addr) {
    s[OPTIONS + 2] == ACK && MacOf(s) == mac && s[16..20] == addr
  }

  predicate Offers(s: Record, mac: L.Mac, addr: Addr) {
    s[OPTIONS + 2] == OFFER && MacOf(s) == mac && s[16..20] == addr
  }

  /** The record afterwards: the reply, when there is one to be sent, even if there was no buffer for it; otherwise the
      datagram as merged. */
  lemma RecordExactly(m: Machine, d: Datagram, c: Config)
    requires Fits(c)
    ensures var would := Reply(m, d.(alloc := true), c);
            && Receive(m, d, c).data == (if would.Some? then would.value else Merged(m.data, d.payload))
            && Reply(m, d, c) == if d.alloc then would else None
  {
  }

  /** What is sent says what was decided. */
  lemma ReplyTells(m: Machine, d: Datagram, c: Config)
    requires Fits(c) && Reply(m, d, c).Some?
    ensures var s, v := Reply(m, d, c).value, L.Sent(m.table, StepOf(m, d));
            && (v.Ack? || v.Offer?) && v.entry < |m.table|
            && s[OPTIONS + 2] == (if v.Ack? then ACK else OFFER)
            && MacOf(s) == MacOf(Merged(m.data, d.payload)) && s[16..20] == m.table[v.entry].addr
  {
    var r, v := Merged(m.data, d.payload), L.Sent(m.table, StepOf(m, d));
    var msgType := if v.Ack? then ACK else OFFER;
    ReplyHeader(r, c, msgType, m.table[v.entry]);
    ReplyIsReadable(r, c, msgType, m.table[v.entry]);
  }

  /** A reply on the wire, byte by byte and option by option, in terms of the datagram as merged, the configuration
      and the entry decided on: an OFFER (2) or an ACK (5). */
  lemma ReplyOnWire(m: Machine, d: Datagram, c: Config)
    requires Fits(c) && Reply(m, d, c).Some?
    ensures var r, s, v := Merged(m.data, d.payload), Reply(m, d, c).value, L.Sent(m.table, StepOf(m, d));
            && (v.Ack? || v.Offer?) && v.entry < |m.table|
            && (var e, o := m.table[v.entry], s[240..515];
                && s[0] == 2 && s[1..8] == r[1..8] && s[8..12] == [0, 0, 0, 0] && s[12..16] == r[12..16]
                && s[16..20] == e.addr && s[20..236] == r[20..236] && s[236..240] == [0x63, 0x82, 0x53, 0x63]
                && Reads(o, 0, 53) == Some([if v.Ack? then 5 else 2])
                && Reads(o, 0, 54) == Some(c.addr) && Reads(o, 0, 1) == Some(e.subnet)
                && BigEndian(Reads(o, 0, 51)) == Some(e.lease)
                && Reads(o, 0, 15) == c.domain
                && Reads(o, 0, 3) == (if c.addr == [0, 0, 0, 0] then None else Some(c.addr))
                && Reads(o, 0, 6) == (if c.dns == [0, 0, 0, 0] then None else Some(c.dns)))
  {
    var r, v := Merged(m.data, d.payload), L.Sent(m.table, StepOf(m, d));
    var msgType := if v.Ack? then ACK else OFFER;
    var s, e := Reply(m, d, c).value, m.table[v.entry];
    ReplyOptions(r, c, msgType, e);
    ReplyBytes(r, c, msgType, e);
    assert s[0] == s[..8][0] && s[1..8] == s[..8][1..];
  }

  predicate Acked(m: Machine, d: Datagram, c: Config, mac: L.Mac, addr: Addr)
    requires Fits(c)
  {
    Reply(m, d, c).Some? && Acknowledges(Reply(m, d, c).value, mac, addr)
  }

  /** With the record as the datagram leaves it: it is a REQUEST of that client, and its first option 50 has a value of
      four bytes. */
  predicate ClaimFrom(m: Machine, d: Datagram, mac: L.Mac) {
    var r := Merged(m.data, d.payload);
    && r[242] == 3 && r[28..34] == mac
    && var v := Reads(r[240..515], 0, 50); v.Some? && |v.value| == 4
  }

  /** An acknowledgement goes out exactly when the datagram was a REQUEST of that client for that address, and was
      granted. */
  lemma AckedMeans(m: Machine, d: Datagram, c: Config, mac: L.Mac, addr: Addr)
    requires Fits(c)
    ensures Acked(m, d, c, mac, addr)
       <==> L.Sent(m.table, StepOf(m, d)).Ack? && StepOf(m, d).msg == L.Request(mac, Some(addr))
  {
    if Reply(m, d, c).Some? {
      ReplyTells(m, d, c);
      if L.Sent(m.table, StepOf(m, d)).Ack? {
        L.AckBinds(m.table, StepOf(m, d));
      }
    }
  }

  lemma AckedInRun(m: Machine, ds: seq<Datagram>, c: Config, k: nat, mac: L.Mac, addr: Addr)
    requires Fits(c) && k < |ds|
    ensures Acked(Before(m, ds, c, k), ds[k], c, mac, addr)
       <==> L.Acknowledged(m.table, Steps(m, ds, c), k, mac, addr)
  {
    AckedMeans(Before(m, ds, c, k), ds[k], c, mac, addr);
    TableFollows(m, ds, c, k);
  }

  /** Safety on the wire: if a reply acknowledges an address to a client with a non-zero MAC and a later one
      acknowledges it to another, then a datagram in between was a REQUEST of the first that names an address. */
  lemma NoDoubleLeaseOnWire(m: Machine, ds: seq<Datagram>, c: Config, j: nat, k: nat, a: L.Mac, b: L.Mac, addr: Addr)
    requires Fits(c) && j < k < |ds| && a != L.VACANT && a != b
    ensures Acked(Before(m, ds, c, j), ds[j], c, a, addr) && Acked(Before(m, ds, c, k), ds[k], c, b, addr) ==>
              exists i | j < i < k :: ClaimFrom(Before(m, ds, c, i), ds[i], a)
  {
    if Acked(Before(m, ds, c, j), ds[j], c, a, addr) && Acked(Before(m, ds, c, k), ds[k], c, b, addr) {
      var ss := Steps(m, ds, c);
      AckedInRun(m, ds, c, j, a, addr);
      AckedInRun(m, ds, c, k, b, addr);
      L.NoDoubleLease(m.table, ss, j, k, a, b, addr);
      var i :| j < i < k && ss[i].msg.Request? && ss[i].msg.mac == a && ss[i].msg.addr.Some?;
      TableFollows(m, ds, c, i);
      MessageExactly(Merged(Before(m, ds, c, i).data, ds[i].payload), a, ss[i].msg.addr.value);
      assert ClaimFrom(Before(m, ds, c, i), ds[i], a);
    }
  }

  /** An offer on the wire is honoured on the wire: the client that requests the address it was offered, with no
      datagram taken for a REQUEST for an address in between and a buffer to reply with, gets an acknowledgement of
      it. */
  lemma OfferIsHonouredOnWire(m: Machine, d: Datagram, between: seq<Datagram>, q: Datagram, c: Config, mac: L.Mac,
                              addr: Addr)
    requires Fits(c) && L.DistinctAddrs(m.table)
    requires Reply(m, d, c).Some? && Offers(Reply(m, d, c).value, mac, addr)
    requires var n := Receive(m, d, c);
             && (forall s | s in Steps(n, between, c) :: !L.Claim(s.msg))
             && StepOf(Run(n, between, c), q) == L.Step(L.Request(mac, Some(addr)), true)
    ensures Acked(Run(Receive(m, d, c), between, c), q, c, mac, addr)
  {
    var n := Receive(m, d, c);
    ReplyTells(m, d, c);
    TableFollows(n, between, c, |between|);
    assert between[..|between|] == between && Steps(n, between, c)[..|between|] == Steps(n, between, c);
    L.OfferIsHonoured(m.table, mac, Steps(n, between, c));
    AckedMeans(Run(n, between, c), q, c, mac, addr);
  }

  /** An acknowledged client that asks again, with no datagram in between taken for a REQUEST of it for an address
      and a buffer to reply with, is offered the same address on the wire. */
  lemma SameOfferOnWire(m: Machine, d: Datagram, later: seq<Datagram>, q: Datagram, c: Config, mac: L.Mac, addr: Addr)
    requires Fits(c) && L.DistinctMacs(m.table) && mac != L.VACANT
    ensures var n := Receive(m, d, c);
            Acked(m, d, c, mac, addr) && L.NoClaimFrom(Steps(n, later, c), mac)
            && StepOf(Run(n, later, c), q) == L.Step(L.Discover(mac), true) ==>
              var r := Reply(Run(n, later, c), q, c); r.Some? && Offers(r.value, mac, addr)
  {
    var n := Receive(m, d, c);
    var ss, u := Steps(n, later, c), Run(n, later, c);
    AckedMeans(m, d, c, mac, addr);
    TableFollows(n, later, c, |later|);
    assert later[..|later|] == later && ss[..|later|] == ss;
    if Acked(m, d, c, mac, addr) && L.NoClaimFrom(ss, mac) && StepOf(u, q) == L.Step(L.Discover(mac), true) {
      L.SameOfferAfterAck(m.table, StepOf(m, d), ss);
      ReplyTells(u, q, c);
    }
  }

  // ---------- Options left from an earlier datagram ----------

  /** A host name and an address option, in a message of a type that the server ignores. */
  function Named(addr: Addr): (s: seq<byte>) {
    [53, 1, 8, 12, 4, 0x68, 0x6F, 0x73, 0x74, 50, 4] + addr + [END]
  }

  /** A REQUEST that names no address. */
  function Bare(): (s: seq<byte>) {
    [53, 1, 3, END]
  }

  /** The reader goes on behind END into the options of an earlier, longer datagram: a REQUEST that names no address is
      taken to name the one that the other did, and is granted it. */
  lemma StaleAddress(m: Machine, c: Config, front: seq<byte>, other: seq<byte>, addr: Addr, i: nat)
    requires Fits(c) && |front| == |other| == OPTIONS
    requires L.ByIp(m.table, addr) == Some(i) && m.table[i].mac == L.VACANT
    ensures var n := Receive(m, Datagram(front + Named(addr), true), c);
            n.table == m.table && Acked(n, Datagram(other + Bare(), true), c, other[28..34], addr)
  {
    var d, q := Datagram(front + Named(addr), true), Datagram(other + Bare(), true);
    IgnoredKeeps(m, d, c);
    var n := Receive(m, d, c);
    BareReads(m.data, front, other, addr);
    assert StepOf(n, q) == L.Step(L.Request(other[28..34], Some(addr)), true);
    L.AckExactly(m.table, other[28..34], addr, i);
    AckedMeans(n, q, c, other[28..34], addr);
  }

  /** That REQUEST holds a message type and END, and nothing else. */
  lemma BareNamesNothing()
    ensures Stored(Bare(), 0, [Opt(MESSAGE_TYPE, [REQUEST])]) && Bare()[3] == END && |Bare()| == 4
  {
    var opts := [Opt(MESSAGE_TYPE, [REQUEST])];
    assert Bare()[2..3] == [3] && opts[1..] == [];
  }

  /** A datagram of another type is kept in the record. */
  lemma IgnoredKeeps(m: Machine, d: Datagram, c: Config)
    requires Fits(c) && OPTIONS + 2 < |d.payload| <= RECORD_SIZE && d.payload[OPTIONS + 2] == 8
    ensures Receive(m, d, c) == Machine(Merged(m.data, d.payload), m.table)
  {
    assert Merged(m.data, d.payload)[OPTIONS + 2] == d.payload[OPTIONS + 2];
  }

  lemma BareReads(data: Record, front: seq<byte>, other: seq<byte>, addr: Addr)
    requires |front| == |other| == OPTIONS
    ensures var r := Merged(Merged(data, front + Named(addr)), other + Bare());
            MessageOf(r) == L.Request(other[28..34], Some(addr))
  {
    var first := Merged(data, front + Named(addr));
    var r := Merged(first, other + Bare());
    var options := OptionsArea(r);
    assert first[OPTIONS..OPTIONS + 16] == Named(addr);
    assert r[..OPTIONS] == other && r[OPTIONS..OPTIONS + 4] == Bare();
    Behind244(first, other + Bare(), r);
    SliceOfSlice(first, OPTIONS, OPTIONS + 16, 4, 15);
    SliceOfSlice(r, OPTIONS, OPTIONS + OPTIONS_SIZE, 4, 15);
    SliceOfSlice(r, OPTIONS, OPTIONS + OPTIONS_SIZE, 0, 4);
    assert options[..4] == options[0..4];
    BareFinds(options, addr);
    assert r[28..34] == r[..OPTIONS][28..34];
    assert r[OPTIONS + 2] == options[2];
  }

  lemma Behind244(data: Record, payload: seq<byte>, r: Record)
    requires |payload| == OPTIONS + 4 && r == Merged(data, payload)
    ensures r[OPTIONS + 4..OPTIONS + 15] == data[OPTIONS + 4..OPTIONS + 15]
  {
  }

  lemma BareFinds(options: seq<byte>, addr: Addr)
    requires |options| == OPTIONS_SIZE && options[..4] == Bare() && options[4..15] == Named(addr)[4..15]
    ensures FindFrom(options, 0, IP_ADDRESS) == Some(9) && options[10] == 4 && options[11..15] == addr
    ensures options[2] == REQUEST
  {
    var a, b := options[..4], options[4..15];
    assert a == [53, 1, 3, 255] && b == [4, 0x68, 0x6F, 0x73, 0x74, 50, 4] + addr;
    assert options[0] == a[0] && options[1] == a[1] && options[2] == a[2] && options[3] == a[3];
    assert options[4] == b[0] && options[9] == b[5] && options[10] == b[6] && options[11..15] == b[7..11];
    assert FindFrom(options, 0, IP_ADDRESS) == FindFrom(options, 3, IP_ADDRESS) == FindFrom(options, 9, IP_ADDRESS);
  }
}
