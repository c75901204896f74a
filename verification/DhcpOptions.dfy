/** DHCP options (section 2 of RFC 2132): the server's option writer and its option reader. */
module DhcpOptions {
  import opened Bytes

  const OPTIONS_SIZE := 275

  const SUBNET_MASK: byte := 1
  const ROUTER: byte := 3
  const DNS_SERVER: byte := 6
  const DNS_DOMAIN: byte := 15
  const IP_ADDRESS: byte := 50
  const LEASE_TIME: byte := 51
  const MESSAGE_TYPE: byte := 53
  const SERVER_ID: byte := 54
  const PAD: byte := 0
  const END: byte := 255

  type Addr = a: seq<byte> | |a| == 4 witness [0, 0, 0, 0]

  const NO_ADDR: Addr := [0, 0, 0, 0]

  // ---------- Reader ----------

  /** The reader hops from one code-length pair to the next, starting at `i`. */
  function FindFrom(attrs: seq<byte>, i: nat, attr: byte): (r: Option<nat>)
    ensures r.Some? ==> i <= r.value && r.value + 1 < |attrs| && attrs[r.value] == attr
    ensures r.Some? ==> r.value + 2 + attrs[r.value + 1] <= |attrs|
    decreases |attrs| - i
  {
    if i + 1 >= |attrs| then None
    else
      var next := i + attrs[i + 1] + 2;
      if next > |attrs| then None else if attrs[i] == attr then Some(i) else FindFrom(attrs, next, attr)
  }

  method FindDhcpOption(attrs: seq<byte>, attr: byte) returns (r: Option<nat>)
    ensures r == FindFrom(attrs, 0, attr)
  {
    var i := 0;
    while i + 1 < |attrs|
      invariant FindFrom(attrs, 0, attr) == FindFrom(attrs, i, attr)
    {
      var next := i + attrs[i + 1] + 2;
      if next > |attrs| { return None; }
      if attrs[i] == attr { return Some(i); }
      i := next;
    }
    return None;
  }

  // ---------- Option lists ----------

  datatype Opt = Opt(code: byte, value: seq<byte>)

  predicate Encodable(opts: seq<Opt>) {
    forall o | o in opts :: o.code != PAD && o.code != END && |o.value| < 256
  }

  function EncodeOne(o: Opt): (s: seq<byte>)
    requires |o.value| < 256
    ensures |s| == 2 + |o.value|
  {
    [o.code, |o.value|] + o.value
  }

  function Encode(opts: seq<Opt>): (s: seq<byte>)
    requires Encodable(opts)
  {
    if opts == [] then [] else EncodeOne(opts[0]) + Encode(opts[1..])
  }

  lemma {:induction false} EncodeAppend(a: seq<Opt>, b: seq<Opt>)
    requires Encodable(a) && Encodable(b)
    ensures Encodable(a + b) && Encode(a + b) == Encode(a) + Encode(b)
  {
    if a == [] {
      assert a + b == b;
    } else {
      assert (a + b)[1..] == a[1..] + b;
      EncodeAppend(a[1..], b);
    }
  }

  function FirstWith(opts: seq<Opt>, code: byte): (r: Option<seq<byte>>) {
    if opts == [] then None else if opts[0].code == code then Some(opts[0].value) else FirstWith(opts[1..], code)
  }

  /** The value the reader's result points to. */
  function ValueAt(attrs: seq<byte>, r: Option<nat>): (v: Option<seq<byte>>)
    requires r.Some? ==> r.value + 1 < |attrs| && r.value + 2 + attrs[r.value + 1] <= |attrs|
  {
    match r
    case None => None
    case Some(i) => Some(attrs[i + 2..i + 2 + attrs[i + 1]])
  }

  /** The value read for `code` when the search starts at `i`. */
  function Reads(attrs: seq<byte>, i: nat, code: byte): (v: Option<seq<byte>>) {
    ValueAt(attrs, FindFrom(attrs, i, code))
  }

  lemma {:induction false} NothingInZeros(attrs: seq<byte>, i: nat, code: byte)
    requires code != PAD && forall k | i <= k < |attrs| :: attrs[k] == 0
    ensures FindFrom(attrs, i, code) == None
    decreases |attrs| - i
  {
    if i + 1 < |attrs| && i + 2 <= |attrs| {
      NothingInZeros(attrs, i + 2, code);
    }
  }

  /** END at `i` and zeros behind it. */
  predicate Closed(attrs: seq<byte>, i: nat) {
    i < |attrs| && attrs[i] == END && forall k | i + 1 <= k < |attrs| :: attrs[k] == 0
  }

  /** The options `opts` start at `i`, and END and zeros follow them to the end of the area. */
  predicate Holds(attrs: seq<byte>, i: nat, opts: seq<Opt>)
    decreases opts
  {
    if opts == [] then
      Closed(attrs, i)
    else
      var o, next := opts[0], i + 2 + |opts[0].value|;
      && next < |attrs| && attrs[i] == o.code && attrs[i + 1] == |o.value| && attrs[i + 2..next] == o.value
      && Holds(attrs, next, opts[1..])
  }

  /** An encoded list with END and zeros behind it has that shape. */
  lemma {:induction false} EncodingHolds(attrs: seq<byte>, i: nat, opts: seq<Opt>, fill: nat)
    requires Encodable(opts) && i <= |attrs| && attrs[i..] == Encode(opts) + ([END] + Zeros(fill))
    ensures Holds(attrs, i, opts)
    decreases opts
  {
    if opts == [] {
      assert attrs[i..] == [END] + Zeros(fill);
      EndStands(attrs, i, fill);
    } else {
      var o, rest := opts[0], Encode(opts[1..]) + ([END] + Zeros(fill));
      Assoc(EncodeOne(o), Encode(opts[1..]), [END] + Zeros(fill));
      FirstStands(attrs, i, o, rest);
      EncodingHolds(attrs, i + 2 + |o.value|, opts[1..], fill);
    }
  }

  lemma EndStands(attrs: seq<byte>, i: nat, fill: nat)
    requires i <= |attrs| && attrs[i..] == [END] + Zeros(fill)
    ensures Closed(attrs, i)
  {
    var tail := attrs[i..];
    assert tail[0] == END;
    forall k | i + 1 <= k < |attrs| ensures attrs[k] == 0 {
      assert attrs[k] == tail[k - i];
    }
  }

  lemma FirstStands(attrs: seq<byte>, i: nat, o: Opt, rest: seq<byte>)
    requires |o.value| < 256 && i <= |attrs| && attrs[i..] == EncodeOne(o) + rest && rest != []
    ensures var next := i + 2 + |o.value|;
            && next < |attrs| && attrs[i] == o.code && attrs[i + 1] == |o.value| && attrs[i + 2..next] == o.value
            && attrs[next..] == rest
  {
    var tail, n := attrs[i..], 2 + |o.value|;
    assert tail[0] == o.code && tail[1] == |o.value| && tail[2..n] == o.value && tail[n..] == rest;
    DropOfDrop(attrs, i, n);
    SliceOfSlice(attrs, i, |attrs|, 2, n);
    assert attrs[i..|attrs|] == tail;
  }

  /** On a list of options closed by END and zero filled, with no PAD between them, the reader returns the
      first option with the sought code, or nothing. */
  lemma {:induction false} FindsFirst(attrs: seq<byte>, i: nat, opts: seq<Opt>, code: byte)
    requires Holds(attrs, i, opts) && code != PAD && code != END
    ensures Reads(attrs, i, code) == FirstWith(opts, code)
    decreases opts
  {
    if opts == [] {
      FindsNothing(attrs, i, code);
    } else {
      FindsHere(attrs, i, opts[0], code);
      if opts[0].code != code {
        FindsFirst(attrs, i + 2 + |opts[0].value|, opts[1..], code);
      }
    }
  }

  lemma FindsNothing(attrs: seq<byte>, i: nat, code: byte)
    requires Holds(attrs, i, []) && code != PAD && code != END
    ensures Reads(attrs, i, code) == None
  {
    if i + 2 <= |attrs| {
      NothingInZeros(attrs, i + 2, code);
    }
  }

  lemma FindsHere(attrs: seq<byte>, i: nat, o: Opt, code: byte)
    requires i + 2 + |o.value| <= |attrs| && attrs[i] == o.code && attrs[i + 1] == |o.value|
    requires attrs[i + 2..i + 2 + |o.value|] == o.value
    ensures Reads(attrs, i, code) == if o.code == code then Some(o.value) else Reads(attrs, i + 2 + |o.value|, code)
  {
  }

  /** The search behind a byte that is not the sought code and stands in front of byte `j`: that byte is taken for a
      length. */
  function FindBehind(attrs: seq<byte>, j: nat, code: byte): (r: Option<nat>)
    ensures r.Some? ==> r.value + 1 < |attrs| && r.value + 2 + attrs[r.value + 1] <= |attrs|
  {
    if j >= |attrs| || j + 1 + attrs[j] > |attrs| then None else FindFrom(attrs, j + 1 + attrs[j], code)
  }

  lemma Hop(attrs: seq<byte>, i: nat, code: byte)
    requires i < |attrs| && attrs[i] != code
    ensures FindFrom(attrs, i, code) == FindBehind(attrs, i + 1, code)
  {
  }

  // ---------- What stands behind END ----------

  /** The options `opts` start at `i`, whatever follows them. */
  predicate Stored(attrs: seq<byte>, i: nat, opts: seq<Opt>)
    decreases opts
  {
    opts == []
    || (var o, next := opts[0], i + 2 + |opts[0].value|;
        && next <= |attrs| && attrs[i] == o.code && attrs[i + 1] == |o.value| && attrs[i + 2..next] == o.value
        && Stored(attrs, next, opts[1..]))
  }

  function EndOf(i: nat, opts: seq<Opt>): (j: nat)
    decreases opts
  {
    if opts == [] then i else EndOf(i + 2 + |opts[0].value|, opts[1..])
  }

  lemma {:induction false} FindsOrGoesOn(attrs: seq<byte>, i: nat, opts: seq<Opt>, code: byte)
    requires Stored(attrs, i, opts)
    ensures Reads(attrs, i, code) ==
            if FirstWith(opts, code).Some? then FirstWith(opts, code) else Reads(attrs, EndOf(i, opts), code)
    decreases opts
  {
    if opts != [] {
      FindsHere(attrs, i, opts[0], code);
      if opts[0].code != code {
        FindsOrGoesOn(attrs, i + 2 + |opts[0].value|, opts[1..], code);
      }
    }
  }

  /** The reader does not stop at END: it takes the byte behind it for a length and goes on that far behind. So it finds
      in an option list what the list holds if and only if the list holds the option, or nothing is found behind END. */
  lemma EndExactly(attrs: seq<byte>, i: nat, opts: seq<Opt>, code: byte)
    requires Stored(attrs, i, opts) && EndOf(i, opts) < |attrs| && attrs[EndOf(i, opts)] == END && code != END
    ensures var behind := FindBehind(attrs, EndOf(i, opts) + 1, code);
            && Reads(attrs, i, code)
               == (if FirstWith(opts, code).Some? then FirstWith(opts, code) else ValueAt(attrs, behind))
            && (Reads(attrs, i, code) == FirstWith(opts, code) <==> FirstWith(opts, code).Some? || behind == None)
  {
    FindsOrGoesOn(attrs, i, opts, code);
    Hop(attrs, EndOf(i, opts), code);
  }

  // ---------- PAD bytes (section 3.1 of RFC 2132) ----------

  predicate Pads(attrs: seq<byte>, i: nat, k: nat) {
    i + k <= |attrs| && forall j | i <= j < i + k :: attrs[j] == PAD
  }

  predicate Even(k: nat) {
    k % 2 == 0
  }

  /** The reader takes PAD bytes for empty options, two at a time. An even number is skipped; the last of an odd number
      swallows the code behind it as a length, and the search goes on that far behind. */
  lemma {:induction false} PadsExactly(attrs: seq<byte>, i: nat, k: nat, code: byte)
    requires Pads(attrs, i, k) && code != PAD
    ensures FindFrom(attrs, i, code) == if Even(k) then FindFrom(attrs, i + k, code) else FindBehind(attrs, i + k, code)
    decreases k
  {
    if k > 0 {
      Hop(attrs, i, code);
      if k > 1 {
        PadsExactly(attrs, i + 2, k - 2, code);
      }
    }
  }

  lemma ReadsBehindPads(attrs: seq<byte>, i: nat, k: nat, code: byte)
    requires Pads(attrs, i, k) && code != PAD && Even(k)
    ensures Reads(attrs, i, code) == Reads(attrs, i + k, code)
  {
    PadsExactly(attrs, i, k, code);
  }

  /** Like `Holds`, with `gaps[n]` PAD bytes in front of the n-th option. */
  predicate HoldsPadded(attrs: seq<byte>, i: nat, gaps: seq<nat>, opts: seq<Opt>)
    decreases opts
  {
    if opts == [] || gaps == [] then
      opts == [] && Closed(attrs, i)
    else
      var o, at := opts[0], i + gaps[0];
      var next := at + 2 + |o.value|;
      && Pads(attrs, i, gaps[0])
      && next < |attrs| && attrs[at] == o.code && attrs[at + 1] == |o.value| && attrs[at + 2..next] == o.value
      && HoldsPadded(attrs, next, gaps[1..], opts[1..])
  }

  /** Options padded to even gaps are read like those without PAD. */
  lemma {:induction false} FindsFirstPadded(attrs: seq<byte>, i: nat, gaps: seq<nat>, opts: seq<Opt>, code: byte)
    requires HoldsPadded(attrs, i, gaps, opts) && code != PAD && code != END
    requires forall g | g in gaps :: Even(g)
    ensures Reads(attrs, i, code) == FirstWith(opts, code)
    decreases opts
  {
    if opts == [] {
      FindsNothing(attrs, i, code);
    } else {
      var at := i + gaps[0];
      assert gaps[0] in gaps && forall g | g in gaps[1..] :: g in gaps;
      ReadsBehindPads(attrs, i, gaps[0], code);
      FindsHere(attrs, at, opts[0], code);
      if opts[0].code != code {
        FindsFirstPadded(attrs, at + 2 + |opts[0].value|, gaps[1..], opts[1..], code);
      }
    }
  }

  /** A requested address behind `k` PAD bytes, with END and zeros after it, is found if and only if `k` is even. */
  lemma AddressBehindPads(attrs: seq<byte>, k: nat, a: Addr)
    requires k + 6 < |attrs| && Pads(attrs, 0, k) && Closed(attrs, k + 6)
    requires attrs[k] == IP_ADDRESS && attrs[k + 1] == 4 && attrs[k + 2..k + 6] == a
    ensures Reads(attrs, 0, IP_ADDRESS) == Some(a) <==> Even(k)
  {
    PadsExactly(attrs, 0, k, IP_ADDRESS);
    FindsHere(attrs, k, Opt(IP_ADDRESS, a), IP_ADDRESS);
    var next := k + 1 + IP_ADDRESS as int;
    if next <= |attrs| {
      NothingInZeros(attrs, next, IP_ADDRESS);
    }
  }

  /** One PAD hides the address option; two do not. */
  lemma PadHidesOptions()
    ensures FindFrom([0, 50, 4, 192, 168, 7, 2, 255], 0, IP_ADDRESS) == None
    ensures ValueAt([50, 4, 192, 168, 7, 2, 255], FindFrom([50, 4, 192, 168, 7, 2, 255], 0, IP_ADDRESS))
         == Some([192, 168, 7, 2])
    ensures FindFrom([0, 0, 50, 4, 192, 168, 7, 2, 255], 0, IP_ADDRESS) == Some(2)
  {
    var s: seq<byte> := [50, 4, 192, 168, 7, 2, 255];
    assert s[2..6] == [192, 168, 7, 2];
  }

  // ---------- Writer ----------

  /** `(t >> shift) & 0xFF` on a 32-bit int: the shift is arithmetic. */
  function ByteOfInt(t: int, power: nat): (b: byte)
    requires power > 0
  {
    t / power % 0x100
  }

  function LeaseBytes(lease: word32): (s: seq<byte>)
    ensures |s| == 4
  {
    var t := ToInt32(lease);
    [ByteOfInt(t, 0x100_0000), ByteOfInt(t, 0x1_0000), ByteOfInt(t, 0x100), ByteOfInt(t, 1)]
  }

  /** The signed shifts still store every unsigned lease time, most significant byte first. */
  lemma LeaseIsBigEndian(lease: word32)
    ensures var s := LeaseBytes(lease); Word(s[3], s[2], s[1], s[0]) == lease
  {
    var t := ToInt32(lease);
    var a, b, c := t / 0x100, t / 0x1_0000, t / 0x100_0000;
    assert t == 0x100 * a + t % 0x100 && a == 0x100 * b + a % 0x100 && b == 0x100 * c + b % 0x100;
    assert a / 0x100 == b && b / 0x100 == c;
    if t < 0 {
      assert -0x80 <= c < 0 && c % 0x100 == c + 0x100;
    } else {
      assert 0 <= c < 0x80 && c % 0x100 == c;
    }
  }

  datatype Fields = Fields(
    msgType: byte, domain: Option<seq<byte>>, dns: Addr, lease: word32, serverId: Addr, router: Addr, subnet: Addr)

  /** The options a reply carries, in order; zero addresses and a null domain are left out. */
  function OptionsFor(f: Fields): (opts: seq<Opt>) {
    Fixed(f)
    + Given(f.router != NO_ADDR, Opt(ROUTER, f.router))
    + Given(f.domain.Some?, Opt(DNS_DOMAIN, DomainOf(f)))
    + Given(f.dns != NO_ADDR, Opt(DNS_SERVER, f.dns))
  }

  function Fixed(f: Fields): (opts: seq<Opt>) {
    [Opt(MESSAGE_TYPE, [f.msgType]), Opt(SERVER_ID, f.serverId), Opt(LEASE_TIME, LeaseBytes(f.lease)),
     Opt(SUBNET_MASK, f.subnet)]
  }

  function Given(present: bool, o: Opt): (opts: seq<Opt>) {
    if present then [o] else []
  }

  function DomainOf(f: Fields): (d: seq<byte>) {
    if f.domain.Some? then f.domain.value else []
  }

  /** The value a client is meant to read for `code`. */
  function Field(f: Fields, code: byte): (v: Option<seq<byte>>) {
    if code == MESSAGE_TYPE then Some([f.msgType])
    else if code == SERVER_ID then Some(f.serverId)
    else if code == LEASE_TIME then Some(LeaseBytes(f.lease))
    else if code == SUBNET_MASK then Some(f.subnet)
    else if code == ROUTER && f.router != NO_ADDR then Some(f.router)
    else if code == DNS_DOMAIN then f.domain
    else if code == DNS_SERVER && f.dns != NO_ADDR then Some(f.dns)
    else None
  }

  function FilledSize(f: Fields): (n: nat) {
    22 + (if f.router != NO_ADDR then 6 else 0) + (if f.domain.Some? then 2 + |f.domain.value| else 0)
       + (if f.dns != NO_ADDR then 6 else 0)
  }

  predicate DomainFits(f: Fields) {
    f.domain.Some? ==> |f.domain.value| < 256
  }

  lemma EncodeOneMore(done: seq<Opt>, o: Opt)
    requires Encodable(done) && o.code != PAD && o.code != END && |o.value| < 256
    ensures Encodable(done + [o]) && Encode(done + [o]) == Encode(done) + EncodeOne(o)
  {
    EncodeAppend(done, [o]);
    assert Encode([o]) == EncodeOne(o) + Encode([]) == EncodeOne(o);
  }

  /** memcpy behind the bytes `front` that start at `base`. */
  method PutBytes(dest: array<byte>, ghost base: nat, i: nat, bytes: seq<byte>, ghost front: seq<byte>)
    returns (next: nat)
    requires base <= i && i + |bytes| <= dest.Length && dest[base..i] == front
    modifies dest
    ensures next == i + |bytes| && dest[base..next] == front + bytes
    ensures dest[..base] == old(dest[..base])
    ensures forall k | next <= k < dest.Length :: dest[k] == old(dest[k])
  {
    next := i + |bytes|;
    CopyTo(dest, i, bytes);
    assert dest[base..i] == front && dest[i..next] == bytes;
    assert dest[base..next] == dest[base..i] + dest[i..next];
  }

  /** Writes one option at `i`; the options so far start at `base`. */
  method PutOption(dest: array<byte>, ghost base: nat, i: nat, o: Opt, ghost done: seq<Opt>) returns (next: nat)
    requires |o.value| < 256 && o.code != PAD && o.code != END && base <= i && i + 2 + |o.value| <= dest.Length
    requires Encodable(done) && dest[base..i] == Encode(done)
    modifies dest
    ensures next == i + 2 + |o.value| && Encodable(done + [o]) && dest[base..next] == Encode(done + [o])
    ensures dest[..base] == old(dest[..base])
    ensures forall k | next <= k < dest.Length :: dest[k] == old(dest[k])
  {
    EncodeOneMore(done, o);
    next := PutBytes(dest, base, i, [o.code, |o.value|], Encode(done));
    next := PutBytes(dest, base, next, o.value, Encode(done) + [o.code, |o.value|]);
    assert Encode(done) + [o.code, |o.value|] + o.value == Encode(done) + EncodeOne(o);
  }

  /** Writes the options and END at `base`, leaves the rest alone, and returns the size. */
  method FillOptions(dest: array<byte>, base: nat, f: Fields) returns (size: nat)
    requires DomainFits(f) && base + FilledSize(f) <= dest.Length
    modifies dest
    ensures Encodable(OptionsFor(f))
    ensures size == FilledSize(f)
    ensures dest[..] == old(dest[..base]) + Encode(OptionsFor(f)) + [END] + old(dest[base + size..])
  {
    var i := PutFixed(dest, base, f);
    ghost var opts;
    i, opts := PutOptional(dest, base, i, f, Fixed(f));
    ghost var front := dest[..base];
    dest[i] := END;
    size := i + 1 - base;
    assert dest[base + size..] == old(dest[base + size..]);
    assert dest[..] == dest[..base] + dest[base..i] + [END] + dest[i + 1..];
  }

  method PutFixed(dest: array<byte>, base: nat, f: Fields) returns (i: nat)
    requires base + 21 <= dest.Length
    modifies dest
    ensures i == base + 21 && Encodable(Fixed(f)) && dest[base..i] == Encode(Fixed(f))
    ensures dest[..base] == old(dest[..base])
    ensures forall k | i <= k < dest.Length :: dest[k] == old(dest[k])
  {
    ghost var opts: seq<Opt> := [];
    i := PutOption(dest, base, base, Opt(MESSAGE_TYPE, [f.msgType]), opts);
    opts := opts + [Opt(MESSAGE_TYPE, [f.msgType])];
    i := PutOption(dest, base, i, Opt(SERVER_ID, f.serverId), opts);
    opts := opts + [Opt(SERVER_ID, f.serverId)];
    i := PutOption(dest, base, i, Opt(LEASE_TIME, LeaseBytes(f.lease)), opts);
    opts := opts + [Opt(LEASE_TIME, LeaseBytes(f.lease))];
    i := PutOption(dest, base, i, Opt(SUBNET_MASK, f.subnet), opts);
    opts := opts + [Opt(SUBNET_MASK, f.subnet)];
    assert opts == Fixed(f);
  }

  method PutOptional(dest: array<byte>, ghost base: nat, start: nat, f: Fields, ghost done: seq<Opt>)
    returns (i: nat, ghost opts: seq<Opt>)
    requires start == base + 21 && DomainFits(f) && base + FilledSize(f) <= dest.Length
    requires done == Fixed(f) && Encodable(done) && dest[base..start] == Encode(done)
    modifies dest
    ensures opts == OptionsFor(f) && Encodable(opts) && i + 1 == base + FilledSize(f)
    ensures dest[base..i] == Encode(opts) && dest[..base] == old(dest[..base])
    ensures forall k | i <= k < dest.Length :: dest[k] == old(dest[k])
  {
    i, opts := start, done;
    if f.router != NO_ADDR {
      i := PutOption(dest, base, i, Opt(ROUTER, f.router), opts);
      opts := opts + [Opt(ROUTER, f.router)];
    }
    if f.domain.Some? {
      i := PutOption(dest, base, i, Opt(DNS_DOMAIN, f.domain.value), opts);
      opts := opts + [Opt(DNS_DOMAIN, f.domain.value)];
    }
    if f.dns != NO_ADDR {
      i := PutOption(dest, base, i, Opt(DNS_SERVER, f.dns), opts);
      opts := opts + [Opt(DNS_SERVER, f.dns)];
    }
  }

  /** What the writer left in a zeroed options area. */
  function Area(f: Fields): (attrs: seq<byte>)
    requires DomainFits(f) && FilledSize(f) <= OPTIONS_SIZE
    ensures |attrs| == OPTIONS_SIZE
  {
    FilledSizeIsTrue(f);
    Encode(OptionsFor(f)) + [END] + Zeros(OPTIONS_SIZE - FilledSize(f))
  }

  function Found(f: Fields, code: byte): (v: Option<seq<byte>>)
    requires DomainFits(f) && FilledSize(f) <= OPTIONS_SIZE
  {
    Reads(Area(f), 0, code)
  }

  /** The reader recovers every field the writer stored, and finds nothing where a field was left out. */
  lemma ReaderRecoversFields(f: Fields)
    requires DomainFits(f) && FilledSize(f) <= OPTIONS_SIZE
    ensures forall code: byte | code != PAD && code != END :: Found(f, code) == Field(f, code)
  {
    forall code: byte | code != PAD && code != END
      ensures Found(f, code) == Field(f, code)
    {
      var opts := OptionsFor(f);
      FilledSizeIsTrue(f);
      assert Area(f)[0..] == Encode(opts) + ([END] + Zeros(OPTIONS_SIZE - FilledSize(f)));
      EncodingHolds(Area(f), 0, opts, OPTIONS_SIZE - FilledSize(f));
      FindsFirst(Area(f), 0, opts, code);
      FirstOfOptions(f, code);
    }
  }

  lemma SizeOfEncode(a: seq<Opt>, present: bool, o: Opt)
    requires Encodable(a) && (present ==> o.code != PAD && o.code != END && |o.value| < 256)
    ensures Encodable(a + Given(present, o))
    ensures |Encode(a + Given(present, o))| == |Encode(a)| + if present then 2 + |o.value| else 0
  {
    if present {
      EncodeOneMore(a, o);
    } else {
      assert a + [] == a;
    }
  }

  lemma FilledSizeIsTrue(f: Fields)
    requires DomainFits(f)
    ensures Encodable(OptionsFor(f)) && |Encode(OptionsFor(f))| + 1 == FilledSize(f)
  {
    var o1, o2, o3, o4 := Opt(MESSAGE_TYPE, [f.msgType]), Opt(SERVER_ID, f.serverId),
                          Opt(LEASE_TIME, LeaseBytes(f.lease)), Opt(SUBNET_MASK, f.subnet);
    SizeOfEncode([], true, o1);
    SizeOfEncode([] + [o1], true, o2);
    SizeOfEncode([] + [o1] + [o2], true, o3);
    SizeOfEncode([] + [o1] + [o2] + [o3], true, o4);
    var opts := [] + [o1] + [o2] + [o3] + [o4];
    assert opts == [o1, o2, o3, o4];
    var r, n := Given(f.router != NO_ADDR, Opt(ROUTER, f.router)), Given(f.domain.Some?, Opt(DNS_DOMAIN, DomainOf(f)));
    SizeOfEncode(opts, f.router != NO_ADDR, Opt(ROUTER, f.router));
    SizeOfEncode(opts + r, f.domain.Some?, Opt(DNS_DOMAIN, DomainOf(f)));
    SizeOfEncode(opts + r + n, f.dns != NO_ADDR, Opt(DNS_SERVER, f.dns));
  }

  lemma {:induction false} FirstInEither(a: seq<Opt>, b: seq<Opt>, code: byte)
    ensures FirstWith(a + b, code) == if FirstWith(a, code).Some? then FirstWith(a, code) else FirstWith(b, code)
  {
    if a == [] {
      assert a + b == b;
    } else {
      assert (a + b)[1..] == a[1..] + b;
      FirstInEither(a[1..], b, code);
    }
  }

  /** The list followed by one more option. */
  lemma FirstAndOne(a: seq<Opt>, present: bool, o: Opt, code: byte)
    ensures FirstWith(a + Given(present, o), code)
         == if FirstWith(a, code).Some? then FirstWith(a, code)
            else if present && o.code == code then Some(o.value) else None
  {
    FirstInEither(a, Given(present, o), code);
    assert [o][1..] == [];
  }

  lemma FirstOfOptions(f: Fields, code: byte)
    ensures FirstWith(OptionsFor(f), code) == Field(f, code)
  {
    var o1, o2, o3, o4 := Opt(MESSAGE_TYPE, [f.msgType]), Opt(SERVER_ID, f.serverId),
                          Opt(LEASE_TIME, LeaseBytes(f.lease)), Opt(SUBNET_MASK, f.subnet);
    FirstAndOne([], true, o1, code);
    FirstAndOne([] + [o1], true, o2, code);
    FirstAndOne([] + [o1] + [o2], true, o3, code);
    FirstAndOne([] + [o1] + [o2] + [o3], true, o4, code);
    var opts := [] + [o1] + [o2] + [o3] + [o4];
    assert opts == [o1, o2, o3, o4];
    var r, n := Given(f.router != NO_ADDR, Opt(ROUTER, f.router)), Given(f.domain.Some?, Opt(DNS_DOMAIN, DomainOf(f)));
    FirstAndOne(opts, f.router != NO_ADDR, Opt(ROUTER, f.router), code);
    FirstAndOne(opts + r, f.domain.Some?, Opt(DNS_DOMAIN, DomainOf(f)), code);
    FirstAndOne(opts + r + n, f.dns != NO_ADDR, Opt(DNS_SERVER, f.dns), code);
  }

  /** The options area of a reply, byte by byte. */
  lemma AreaBytes(f: Fields)
    requires DomainFits(f) && FilledSize(f) <= OPTIONS_SIZE
    ensures var router: seq<byte> := if f.router == [0, 0, 0, 0] then [] else [3, 4] + f.router;
            var domain: seq<byte> := if f.domain.None? then [] else [15, |f.domain.value|] + f.domain.value;
            var dns: seq<byte> := if f.dns == [0, 0, 0, 0] then [] else [6, 4] + f.dns;
            Area(f) == [53, 1, f.msgType] + ([54, 4] + f.serverId) + ([51, 4] + LeaseBytes(f.lease))
                       + ([1, 4] + f.subnet) + router + domain + dns + [255] + Zeros(275 - FilledSize(f))
  {
    FilledSizeIsTrue(f);
    EncodedOptions(f);
  }

  lemma EncodedOptions(f: Fields)
    requires DomainFits(f)
    ensures var router: seq<byte> := if f.router == [0, 0, 0, 0] then [] else [3, 4] + f.router;
            var domain: seq<byte> := if f.domain.None? then [] else [15, |f.domain.value|] + f.domain.value;
            var dns: seq<byte> := if f.dns == [0, 0, 0, 0] then [] else [6, 4] + f.dns;
            && Encodable(OptionsFor(f))
            && Encode(OptionsFor(f))
               == [53, 1, f.msgType] + ([54, 4] + f.serverId) + ([51, 4] + LeaseBytes(f.lease)) + ([1, 4] + f.subnet)
                  + router + domain + dns
  {
    FilledSizeIsTrue(f);
    EncodedFixed(f);
    var opts := Fixed(f);
    var r, n := Given(f.router != NO_ADDR, Opt(ROUTER, f.router)), Given(f.domain.Some?, Opt(DNS_DOMAIN, DomainOf(f)));
    EncodeGiven(opts, f.router != NO_ADDR, Opt(ROUTER, f.router));
    EncodeGiven(opts + r, f.domain.Some?, Opt(DNS_DOMAIN, DomainOf(f)));
    EncodeGiven(opts + r + n, f.dns != NO_ADDR, Opt(DNS_SERVER, f.dns));
  }

  lemma EncodedFixed(f: Fields)
    ensures Encodable(Fixed(f))
    ensures Encode(Fixed(f))
         == [53, 1, f.msgType] + ([54, 4] + f.serverId) + ([51, 4] + LeaseBytes(f.lease)) + ([1, 4] + f.subnet)
  {
    var o1, o2, o3, o4 := Opt(MESSAGE_TYPE, [f.msgType]), Opt(SERVER_ID, f.serverId),
                          Opt(LEASE_TIME, LeaseBytes(f.lease)), Opt(SUBNET_MASK, f.subnet);
    EncodeGiven([], true, o1);
    EncodeGiven([] + [o1], true, o2);
    EncodeGiven([] + [o1] + [o2], true, o3);
    EncodeGiven([] + [o1] + [o2] + [o3], true, o4);
    assert [] + [o1] + [o2] + [o3] + [o4] == Fixed(f);
    assert EncodeOne(o1) == [53, 1, f.msgType];
  }

  lemma EncodeGiven(a: seq<Opt>, present: bool, o: Opt)
    requires Encodable(a) && (present ==> o.code != PAD && o.code != END && |o.value| < 256)
    ensures Encodable(a + Given(present, o))
    ensures Encode(a + Given(present, o)) == Encode(a) + if present then EncodeOne(o) else []
  {
    if present {
      EncodeOneMore(a, o);
    } else {
      assert a + [] == a;
    }
  }
}
