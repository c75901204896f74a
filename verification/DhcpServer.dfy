/** The DHCP server: one static message record that requests are merged into and replies are built in, and
    the configured entries whose MACs it updates in place. */
module DhcpServer {
  import opened Bytes
  import opened DhcpOptions
  import opened DhcpLeases

  const RECORD_SIZE := 516  // the structure ends with one byte of alignment
  const OPTIONS := 240
  const MAGIC: seq<byte> := [0x63, 0x82, 0x53, 0x63]

  const DISCOVER: byte := 1
  const OFFER: byte := 2
  const REQUEST: byte := 3
  const ACK: byte := 5

  datatype Config = Config(addr: Addr, dns: Addr, domain: Option<seq<byte>>)

  type Record = r: seq<byte> | |r| == RECORD_SIZE witness Zeros(RECORD_SIZE)

  function FieldsFor(c: Config, msgType: byte, e: Entry): (f: Fields) {
    Fields(msgType, c.domain, c.dns, e.lease, c.addr, c.addr, e.subnet)
  }

  /** Replies fit the options area. */
  predicate Fits(c: Config) {
    && (c.domain.Some? ==> |c.domain.value| < 256)
    && 22 + (if c.addr != NO_ADDR then 6 else 0) + (if c.domain.Some? then 2 + |c.domain.value| else 0)
         + (if c.dns != NO_ADDR then 6 else 0) <= OPTIONS_SIZE
  }

  /** A shorter datagram overwrites the front of the record only. */
  function Merged(data: Record, payload: seq<byte>): (r: Record) {
    if |payload| >= RECORD_SIZE then payload[..RECORD_SIZE] else payload + data[|payload|..]
  }

  function OptionsArea(r: Record): (s: seq<byte>)
    ensures |s| == OPTIONS_SIZE
  {
    r[OPTIONS..OPTIONS + OPTIONS_SIZE]
  }

  function MacOf(r: Record): (m: Mac) {
    r[28..34]
  }

  /** The address a REQUEST names: the first option 50, if it is four bytes long. */
  function RequestedAddr(r: Record): (a: Option<Addr>) {
    match FindFrom(OptionsArea(r), 0, IP_ADDRESS)
    case Some(i) => if OptionsArea(r)[i + 1] == 4 then Some(OptionsArea(r)[i + 2..i + 6]) else None
    case None => None
  }

  /** The message type is taken from the third options byte, wherever option 53 is. */
  function MessageOf(r: Record): (m: Message) {
    if r[OPTIONS + 2] == DISCOVER then Discover(MacOf(r))
    else if r[OPTIONS + 2] == REQUEST then Request(MacOf(r), RequestedAddr(r))
    else Other
  }

  /** The record after a datagram: its bytes, and behind them what was there. */
  lemma MergedExactly(data: Record, payload: seq<byte>, k: nat)
    requires k < 516
    ensures |Merged(data, payload)| == 516
    ensures Merged(data, payload)[k] == if k < |payload| then payload[k] else data[k]
  {
  }

  /** What a record is taken for: the third byte of its options tells the type, bytes 28 to 33 are the client, and a
      REQUEST names the address that is the value of the first option 50, if that has four bytes. */
  lemma MessageExactly(r: Record, mac: Mac, addr: Addr)
    ensures MessageOf(r) == Discover(mac) <==> r[242] == 1 && r[28..34] == mac
    ensures MessageOf(r) == Request(mac, Some(addr))
       <==> r[242] == 3 && r[28..34] == mac && Reads(r[240..515], 0, 50) == Some(addr)
    ensures MessageOf(r) == Request(mac, None)
       <==> r[242] == 3 && r[28..34] == mac && var v := Reads(r[240..515], 0, 50); (v.Some? ==> |v.value| != 4)
    ensures MessageOf(r) == Other <==> r[242] != 1 && r[242] != 3
  {
  }

  /** The reply: the request with these fields replaced. */
  function ReplyTo(r: Record, c: Config, msgType: byte, e: Entry): (s: Record)
    requires Fits(c)
  {
    [2] + r[1..8] + Zeros(4) + r[12..16] + e.addr + r[20..236] + MAGIC + Area(FieldsFor(c, msgType, e)) + r[515..]
  }

  /** The record after a message, whether or not a buffer was found to send it in. */
  function Built(r: Record, t: Table, c: Config): (s: Record)
    requires Fits(c)
  {
    match Chosen(t, MessageOf(r))
    case Silent => r
    case Offer(e) => if e < |t| then ReplyTo(r, c, OFFER, t[e]) else r
    case Ack(e) => if e < |t| then ReplyTo(r, c, ACK, t[e]) else r
  }

  /** What is left of a zeroed options area behind its first `size` bytes. */
  lemma Pieces(zeroed: seq<byte>, front: seq<byte>, back: seq<byte>, size: nat)
    requires |front| == OPTIONS && size <= OPTIONS_SIZE && zeroed == front + Zeros(OPTIONS_SIZE) + back
    ensures zeroed[..OPTIONS] == front && zeroed[OPTIONS + size..] == Zeros(OPTIONS_SIZE - size) + back
  {
  }

  lemma Together(a: seq<byte>, b: seq<byte>, c: seq<byte>, d: seq<byte>)
    ensures a + b + (c + d) == a + (b + c) + d
  {
  }

  class Server {
    const data: array<byte>  // dhcp_data
    const entries: array<Entry>
    const config: Config

    ghost predicate Valid() {
      data.Length == RECORD_SIZE && Fits(config)
    }

    constructor (config: Config, entries: array<Entry>)
      requires Fits(config)
      ensures Valid() && fresh(data) && data[..] == Zeros(RECORD_SIZE)
      ensures this.entries == entries && this.config == config
    {
      this.config, this.entries := config, entries;
      data := new byte[RECORD_SIZE](_ => 0);
      new;
      assert data[..] == Zeros(RECORD_SIZE);
    }

    method EntryByIp(ip: Addr) returns (r: Option<nat>)
      ensures r == ByIp(entries[..], ip)
    {
      var i := 0;
      while i < entries.Length
        invariant 0 <= i <= entries.Length
        invariant ByIp(entries[..], ip) == FirstIp(entries[..], ip, i)
      {
        if entries[i].addr == ip { return Some(i); }
        i := i + 1;
      }
      return None;
    }

    method EntryByMac(mac: Mac) returns (r: Option<nat>)
      ensures r == ByMac(entries[..], mac)
    {
      var i := 0;
      while i < entries.Length
        invariant 0 <= i <= entries.Length
        invariant ByMac(entries[..], mac) == FirstMac(entries[..], mac, i)
      {
        if entries[i].mac == mac { return Some(i); }
        i := i + 1;
      }
      return None;
    }

    predicate IsVacant(i: nat)
      requires i < entries.Length
      reads entries
    {
      VACANT == entries[i].mac
    }

    method VacantAddress() returns (r: Option<nat>)
      ensures r == ByMac(entries[..], VACANT)
    {
      var i := 0;
      while i < entries.Length
        invariant 0 <= i <= entries.Length
        invariant ByMac(entries[..], VACANT) == FirstMac(entries[..], VACANT, i)
      {
        if IsVacant(i) { return Some(i); }
        i := i + 1;
      }
      return None;
    }

    method FreeEntry(i: nat)
      requires i < entries.Length
      modifies entries
      ensures entries[..] == old(entries[..])[i := old(entries[i]).(mac := VACANT)]
    {
      entries[i] := entries[i].(mac := VACANT);
    }

    /** Turns the record into a reply of the given type, about entry `e`. */
    method BuildReply(msgType: byte, e: Entry)
      requires Valid()
      modifies data
      ensures data[..] == ReplyTo(old(data[..]), config, msgType, e)
    {
      ghost var r: Record := data[..];
      ghost var f := FieldsFor(config, msgType, e);
      BuildFront(e.addr, MAGIC);
      ghost var front := [2] + r[1..8] + Zeros(4) + r[12..16] + e.addr + r[20..236] + MAGIC;
      assert data[..OPTIONS] == front && data[515..] == r[515..];
      BuildOptions(FieldsFor(config, msgType, e));
      assert data[..] == front + Area(f) + r[515..];
    }

    method BuildFront(addr: seq<byte>, magic: seq<byte>)
      requires Valid() && |addr| == |magic| == 4
      modifies data
      ensures data[..OPTIONS]
           == [2] + old(data[1..8]) + Zeros(4) + old(data[12..16]) + addr + old(data[20..236]) + magic
      ensures data[OPTIONS..] == old(data[OPTIONS..])
    {
      ghost var r := data[..];
      data[0] := 2;
      ghost var f1: seq<byte> := [2] + r[1..8];
      assert data[..] == f1 + r[8..];
      PatchedAt(f1, Zeros(4), r, 8, 16);
      CopyTo(data, 8, Zeros(4));
      ghost var f2 := f1 + Zeros(4) + r[12..16];
      PatchedAt(f2, addr, r, 16, 236);
      CopyTo(data, 16, addr);
      ghost var f3 := f2 + addr + r[20..236];
      PatchedAt(f3, magic, r, 236, 240);
      CopyTo(data, 236, magic);
      Around(f3 + magic, r[240..], 0);
    }

    /** memset of the options area, then the options. */
    method BuildOptions(f: Fields)
      requires Valid() && DomainFits(f) && FilledSize(f) <= OPTIONS_SIZE
      modifies data
      ensures data[..] == old(data[..OPTIONS]) + Area(f) + old(data[515..])
    {
      ghost var front, back := data[..OPTIONS], data[515..];
      CopyTo(data, OPTIONS, Zeros(OPTIONS_SIZE));
      assert data[..] == front + Zeros(OPTIONS_SIZE) + back;
      Pieces(data[..], front, back, FilledSize(f));
      var size := FillOptions(data, OPTIONS, f);
      Together(front, Encode(OptionsFor(f)) + [END], Zeros(OPTIONS_SIZE - size), back);
      Assoc(front, Encode(OptionsFor(f)), [END]);
    }

    /** One datagram: the table moves as `Next` says, and what is sent is the whole record built in place. */
    method UdpRecv(payload: seq<byte>, alloc: bool) returns (sent: Option<seq<byte>>)
      requires Valid()
      modifies data, entries
      ensures var r, t := Merged(old(data[..]), payload), old(entries[..]);
              && entries[..] == Next(t, Step(MessageOf(r), alloc))
              && data[..] == Built(r, t, config)
              && sent == if Sent(t, Step(MessageOf(r), alloc)) == Silent then None else Some(Built(r, t, config))
    {
      var n := |payload|;
      if n > RECORD_SIZE { n := RECORD_SIZE; }
      CopyTo(data, 0, payload[..n]);
      assert data[..] == Merged(old(data[..]), payload);
      sent := None;
      if data[OPTIONS + 2] == DISCOVER {
        sent := HandleDiscover(alloc);
      } else if data[OPTIONS + 2] == REQUEST {
        sent := HandleRequest(alloc);
      }
    }

    method HandleDiscover(alloc: bool) returns (sent: Option<seq<byte>>)
      requires Valid() && data[OPTIONS + 2] == DISCOVER
      modifies data
      ensures var r, t := old(data[..]), entries[..];
              && data[..] == Built(r, t, config)
              && sent == if Sent(t, Step(MessageOf(r), alloc)) == Silent then None else Some(Built(r, t, config))
    {
      var entry := EntryByMac(data[28..34]);
      if entry == None { entry := VacantAddress(); }
      if entry == None { return None; }
      BuildReply(OFFER, entries[entry.value]);
      if !alloc { return None; }
      return Some(data[..]);
    }

    method HandleRequest(alloc: bool) returns (sent: Option<seq<byte>>)
      requires Valid() && data[OPTIONS + 2] == REQUEST
      modifies data, entries
      ensures var r, t := old(data[..]), old(entries[..]);
              && entries[..] == Next(t, Step(MessageOf(r), alloc))
              && data[..] == Built(r, t, config)
              && sent == if Sent(t, Step(MessageOf(r), alloc)) == Silent then None else Some(Built(r, t, config))
    {
      ghost var r: Record, t := data[..], entries[..];
      var mac: Mac := data[28..34];
      var addr := RequestedAddress();
      assert MessageOf(r) == Request(mac, addr);
      if addr == None { return None; }
      var entry := EntryByMac(mac);
      if entry != None { FreeEntry(entry.value); }
      assert entries[..] == Released(t, mac);
      sent := Grant(mac, addr.value, alloc, t);
    }

    method RequestedAddress() returns (addr: Option<Addr>)
      requires Valid()
      ensures addr == RequestedAddr(data[..])
    {
      var options := data[OPTIONS..OPTIONS + OPTIONS_SIZE];
      assert options == OptionsArea(data[..]);
      var ptr := FindDhcpOption(options, IP_ADDRESS);
      if ptr == None { return None; }
      if options[ptr.value + 1] != 4 { return None; }
      return Some(options[ptr.value + 2..ptr.value + 6]);
    }

    /** The second half of a REQUEST: its sender holds nothing any more. */
    method Grant(mac: Mac, addr: Addr, alloc: bool, ghost t: Table) returns (sent: Option<seq<byte>>)
      requires Valid() && MessageOf(data[..]) == Request(mac, Some(addr)) && entries[..] == Released(t, mac)
      modifies data, entries
      ensures var r := old(data[..]);
              && entries[..] == Next(t, Step(Request(mac, Some(addr)), alloc))
              && data[..] == Built(r, t, config)
              && sent == if Sent(t, Step(MessageOf(r), alloc)) == Silent then None else Some(Built(r, t, config))
    {
      ghost var r: Record := data[..];
      var entry := EntryByIp(addr);
      if entry == None { return None; }
      if !IsVacant(entry.value) { return None; }
      BuildReply(ACK, entries[entry.value]);
      assert data[..] == ReplyTo(r, config, ACK, t[entry.value]);
      if !alloc { return None; }
      entries[entry.value] := entries[entry.value].(mac := mac);
      return Some(data[..]);
    }
  }

  // ---------- What a client reads from a reply ----------

  /** A reply keeps the transaction and the client, and names the entry's address. */
  lemma ReplyHeader(r: Record, c: Config, msgType: byte, e: Entry)
    requires Fits(c)
    ensures var s := ReplyTo(r, c, msgType, e);
            && s[0] == 2 && s[4..8] == r[4..8] && s[8..12] == [0, 0, 0, 0] && s[16..20] == e.addr
            && MacOf(s) == MacOf(r) && s[236..240] == MAGIC
            && OptionsArea(s) == Area(FieldsFor(c, msgType, e))
  {
    HeaderParts([2], r[1..8], Zeros(4), r[12..16], e.addr, r[20..236], MAGIC, Area(FieldsFor(c, msgType, e)), r[515..]);
    var s := ReplyTo(r, c, msgType, e);
    SliceOfSlice(s, 1, 8, 3, 7);
    SliceOfSlice(r, 1, 8, 3, 7);
    SliceOfSlice(s, 20, 236, 8, 14);
    SliceOfSlice(r, 20, 236, 8, 14);
  }

  lemma HeaderParts(a: seq<byte>, b: seq<byte>, c: seq<byte>, d: seq<byte>, e: seq<byte>, f: seq<byte>, g: seq<byte>,
                    h: seq<byte>, i: seq<byte>)
    requires |a| == 1 && |b| == 7 && |c| == |d| == |e| == |g| == 4 && |f| == 216 && |h| == 275 && |i| == 1
    ensures var s := a + b + c + d + e + f + g + h + i;
            && s[0] == a[0] && s[1..8] == b && s[8..12] == c && s[12..16] == d && s[16..20] == e && s[20..236] == f
            && s[236..240] == g && s[240..515] == h && s[515..] == i
  {
  }

  /** Read back with the server's own option reader, a reply carries the message type, the server, the lease
      time and the network configuration, and a client that reads it as the server reads requests sees the
      intended message type. */
  lemma ReplyIsReadable(r: Record, c: Config, msgType: byte, e: Entry)
    requires Fits(c)
    ensures var s := ReplyTo(r, c, msgType, e);
            && s[OPTIONS + 2] == msgType
            && forall code: byte | code != PAD && code != END ::
                 Reads(OptionsArea(s), 0, code) == Field(FieldsFor(c, msgType, e), code)
  {
    var s, f := ReplyTo(r, c, msgType, e), FieldsFor(c, msgType, e);
    ReplyHeader(r, c, msgType, e);
    forall code: byte | code != PAD && code != END ensures Reads(OptionsArea(s), 0, code) == Field(f, code) {
      ReaderRecoversFields(f);
    }
    FirstOptionIsType(f);
    assert s[OPTIONS + 2] == OptionsArea(s)[2];
  }

  /** What a client reads in a reply, in terms of the configuration and the entry: the message type (53), the server
      (54), the lease time (51), the subnet mask (1), the router (3), the domain name (15), the name server (6), and
      no other option. */
  lemma ReplyOptions(r: Record, c: Config, msgType: byte, e: Entry)
    requires Fits(c)
    ensures var o := ReplyTo(r, c, msgType, e)[240..515];
            && Reads(o, 0, 53) == Some([msgType])
            && Reads(o, 0, 54) == Some(c.addr)
            && BigEndian(Reads(o, 0, 51)) == Some(e.lease)
            && Reads(o, 0, 1) == Some(e.subnet)
            && Reads(o, 0, 3) == (if c.addr == [0, 0, 0, 0] then None else Some(c.addr))
            && Reads(o, 0, 15) == c.domain
            && Reads(o, 0, 6) == (if c.dns == [0, 0, 0, 0] then None else Some(c.dns))
    ensures forall code: byte | code !in {0, 255, 53, 54, 51, 1, 3, 15, 6} ::
              Reads(ReplyTo(r, c, msgType, e)[240..515], 0, code) == None
  {
    var o, f := ReplyTo(r, c, msgType, e)[240..515], FieldsFor(c, msgType, e);
    ReplyIsReadable(r, c, msgType, e);
    assert o == OptionsArea(ReplyTo(r, c, msgType, e));
    FieldValues(o, f);
    LeaseIsBigEndian(e.lease);
  }

  /** The value of four bytes, most significant first. */
  function BigEndian(v: Option<seq<byte>>): (n: Option<nat>) {
    if v.Some? && |v.value| == 4 then Some(Word(v.value[3], v.value[2], v.value[1], v.value[0])) else None
  }

  lemma FieldValues(o: seq<byte>, f: Fields)
    requires forall code: byte | code != PAD && code != END :: Reads(o, 0, code) == Field(f, code)
    ensures Reads(o, 0, 53) == Some([f.msgType]) && Reads(o, 0, 54) == Some(f.serverId)
    ensures Reads(o, 0, 51) == Some(LeaseBytes(f.lease)) && Reads(o, 0, 1) == Some(f.subnet)
    ensures Reads(o, 0, 3) == (if f.router == [0, 0, 0, 0] then None else Some(f.router))
    ensures Reads(o, 0, 15) == f.domain
    ensures Reads(o, 0, 6) == (if f.dns == [0, 0, 0, 0] then None else Some(f.dns))
    ensures forall code: byte | code !in {0, 255, 53, 54, 51, 1, 3, 15, 6} :: Reads(o, 0, code) == None
  {
  }

  /** Every byte of a reply in front of its options, and the one behind them. */
  lemma ReplyBytes(r: Record, c: Config, msgType: byte, e: Entry)
    requires Fits(c)
    ensures var s := ReplyTo(r, c, msgType, e);
            && |s| == 516
            && s[..8] == [2] + r[1..8] && s[8..12] == [0, 0, 0, 0] && s[12..16] == r[12..16] && s[16..20] == e.addr
            && s[20..236] == r[20..236] && s[236..240] == [0x63, 0x82, 0x53, 0x63] && s[515] == r[515]
  {
    HeaderParts([2], r[1..8], Zeros(4), r[12..16], e.addr, r[20..236], MAGIC, Area(FieldsFor(c, msgType, e)), r[515..]);
    var s := ReplyTo(r, c, msgType, e);
    assert s[..8] == [s[0]] + s[1..8];
  }

  lemma FirstOptionIsType(f: Fields)
    requires DomainFits(f) && FilledSize(f) <= OPTIONS_SIZE
    ensures Area(f)[2] == f.msgType
  {
    FilledSizeIsTrue(f);
    var opts := OptionsFor(f);
    assert Encode(opts) == EncodeOne(opts[0]) + Encode(opts[1..]);
  }
}
