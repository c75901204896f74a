/** The RNDIS control channel. A request arrives in a 120-byte buffer and its completion is built over it, so
    the two layouts overlap: a completion's Status lies where a request's Oid was. */
module RndisControl {
  import opened Bytes

  const BUFFER_SIZE := 120

  // Message types, statuses and object identifiers
  const INITIALIZE_MSG: word32 := 2
  const QUERY_MSG: word32 := 4
  const SET_MSG: word32 := 5
  const RESET_MSG: word32 := 6
  const KEEPALIVE_MSG: word32 := 8
  const COMPLETION_BIT: word32 := 0x8000_0000

  const SUCCESS: word32 := 0
  const FAILURE: word32 := 0xC000_0001
  const NOT_SUPPORTED: word32 := 0xC000_00BB

  const OID_SUPPORTED_LIST: word32 := 0x0001_0101
  const OID_VENDOR_DESCRIPTION: word32 := 0x0001_010D
  const OID_CURRENT_PACKET_FILTER: word32 := 0x0001_010E
  const OID_CURRENT_LOOKAHEAD: word32 := 0x0001_010F
  const OID_PROTOCOL_OPTIONS: word32 := 0x0001_0112
  const OID_CONFIG_PARAMETER: word32 := 0x0001_021B
  const OID_PERMANENT_ADDRESS: word32 := 0x0101_0101
  const OID_CURRENT_ADDRESS: word32 := 0x0101_0102
  const OID_MULTICAST_LIST: word32 := 0x0101_0103

  const SUPPORTED: seq<word32> := [
    0x0001_0101, 0x0001_0102, 0x0001_0103, 0x0001_0104, 0x0001_0106, 0x0001_0107, 0x0001_010A, 0x0001_010B,
    0x0001_010C, 0x0001_010D, 0x0001_0116, 0x0001_010E, 0x0001_0111, 0x0001_0112, 0x0001_0113, 0x0001_0114,
    0x0001_0115, 0x0101_0101, 0x0101_0102, 0x0101_0103, 0x0101_0104, 0x0101_0105]
  const HWADDR: seq<byte> := [0x20, 0x89, 0x84, 0x6A, 0x96, 0xAB]
  const VENDOR: seq<byte> := [0x66, 0x65, 0x74, 0x69, 0x73, 0x6F, 0x76, 0]  // "fetisov" and its NUL

  datatype RndisState = Uninitialized | Initialized | DataInitialized

  datatype Stats = Stats(txok: word32, rxok: word32, txbad: word32, rxbad: word32)

  function Words(ws: seq<word32>): (s: seq<byte>)
    ensures |s| == 4 * |ws|
  {
    if ws == [] then [] else Put32(ws[0]) + Words(ws[1..])
  }

  // ---------- What a request asks for ----------

  datatype Answer = Word(status: word32, word: word32) | Blob(status: word32, bytes: seq<byte>)

  /** The OIDs answered by one word, and the word. */
  function WordAnswer(oid: word32, filter: word32, stats: Stats): (w: Option<word32>) {
    match oid
    case 0x0001_0102 => Some(0)               // hardware status: ready
    case 0x0001_0103 => Some(0)               // media supported: 802.3
    case 0x0001_0104 => Some(0)
    case 0x0001_0106 => Some(1500)            // frame size without the Ethernet header
    case 0x0001_0107 => Some(12000000 / 100)  // link speed
    case 0x0001_010A => Some(1514)
    case 0x0001_010B => Some(1514)
    case 0x0001_010C => Some(0x00FF_FFFF)     // vendor id
    case 0x0001_010E => Some(filter)
    case 0x0001_0111 => Some(1514)
    case 0x0001_0113 => Some(0)
    case 0x0001_0114 => Some(0)               // connected
    case 0x0001_0116 => Some(0x1000)          // driver version
    case 0x0001_0202 => Some(0)
    case 0x0001_021B => Some(0)
    case 0x0002_0101 => Some(stats.txok)
    case 0x0002_0102 => Some(stats.rxok)
    case 0x0002_0103 => Some(stats.txbad)
    case 0x0002_0104 => Some(stats.rxbad)
    case 0x0002_0105 => Some(0)
    case 0x0101_0104 => Some(1)               // multicast list size
    case 0x0102_0101 => Some(0)
    case 0x0102_0102 => Some(0)
    case 0x0102_0103 => Some(0)
    case _ => None
  }

  function AnswerTo(oid: word32, filter: word32, stats: Stats): (a: Answer)
    ensures a.Blob? ==> |a.bytes| <= 88
  {
    match WordAnswer(oid, filter, stats)
    case Some(w) => Word(SUCCESS, w)
    case None =>
      if oid == OID_SUPPORTED_LIST then Blob(SUCCESS, Words(SUPPORTED))
      else if oid == OID_CURRENT_ADDRESS || oid == OID_PERMANENT_ADDRESS then Blob(SUCCESS, HWADDR)
      else if oid == OID_VENDOR_DESCRIPTION then Blob(SUCCESS, VENDOR)
      else if oid == OID_MULTICAST_LIST || oid == 0x0101_0105 then Word(NOT_SUPPORTED, 0)
      else Blob(FAILURE, [])
  }

  predicate Settable(oid: word32) {
    || oid == OID_CONFIG_PARAMETER || oid == OID_CURRENT_PACKET_FILTER || oid == OID_CURRENT_LOOKAHEAD
    || oid == OID_PROTOCOL_OPTIONS || oid == OID_MULTICAST_LIST
  }

  // ---------- Completions as messages of their own ----------

  function AnswerData(a: Answer): (d: seq<byte>) {
    if a.Word? then Put32(a.word) else a.bytes
  }

  type Request = r: seq<byte> | |r| == BUFFER_SIZE witness Zeros(BUFFER_SIZE)

  function Head(kind: word32, length: word32, requestId: seq<byte>, status: word32): (s: seq<byte>) {
    Put32(kind) + Put32(length) + requestId + Put32(status)
  }

  function QueryReply(requestId: seq<byte>, a: Answer): (s: seq<byte>)
    requires |AnswerData(a)| <= 88
  {
    var data := AnswerData(a);
    Head(0x8000_0004, 24 + |data|, requestId, a.status) + Put32(|data|) + Put32(16) + data
  }

  /** The completion of a request; None when the message type is not one the device handles. */
  function Reply(r: Request, filter: word32, stats: Stats): (s: Option<seq<byte>>) {
    var kind, id, oid := Le32(r, 0), r[8..12], Le32(r, 12);
    if kind == INITIALIZE_MSG then
      Some(Head(0x8000_0002, 52, id, SUCCESS) + Words([1, 0, 1, 0, 1, 1558, 0, 0, 0]))
    else if kind == QUERY_MSG then
      Some(QueryReply(id, AnswerTo(oid, filter, stats)))
    else if kind == SET_MSG then
      Some(Head(0x8000_0005, 16, id, if Settable(oid) then SUCCESS else FAILURE))
    else if kind == RESET_MSG then
      Some(Put32(0x8000_0006) + Put32(16) + Put32(SUCCESS) + Put32(1))
    else if kind == KEEPALIVE_MSG then
      Some(Head(0x8000_0008, 16, id, SUCCESS))
    else
      None
  }

  /** Where a set request's value is, as a byte index into the buffer (pointer arithmetic is 32-bit). */
  function ValueAddress(r: Request): (a: word32) {
    Add32(Le32(r, 20), 8)
  }

  /** What the buffer holds when a filter value is fetched: the completion header is already in place. */
  function SetInProgress(r: Request): (s: Request) {
    Head(0x8000_0005, 16, r[8..12], SUCCESS) + r[16..]
  }

  /** The filter a set request installs. `beyond` stands for the memory past the buffer. */
  function NewFilter(r: Request, beyond: word32): (w: word32) {
    var a: int := ValueAddress(r);
    if a + 4 <= BUFFER_SIZE then Le32(SetInProgress(r), a) else beyond
  }

  predicate SetsFilter(r: Request) {
    Le32(r, 0) == SET_MSG && Le32(r, 12) == OID_CURRENT_PACKET_FILTER
  }

  predicate QueriesFilter(r: Request) {
    Le32(r, 0) == QUERY_MSG && Le32(r, 12) == OID_CURRENT_PACKET_FILTER
  }

  datatype Ctl = Ctl(buf: Request, state: RndisState, filter: word32, notified: nat)

  /** One message processed. */
  function Process(c: Ctl, beyond: word32, stats: Stats): (r: Ctl) {
    match Reply(c.buf, c.filter, stats)
    case None => c
    case Some(reply) =>
      var filter := if SetsFilter(c.buf) then NewFilter(c.buf, beyond) else c.filter;
      Ctl(Over(reply, c.buf), NextState(c.buf, c.state, filter), filter, c.notified + 1)
  }

  function Over(reply: seq<byte>, r: Request): (s: Request) {
    if |reply| <= BUFFER_SIZE then reply + r[|reply|..] else r
  }

  function NextState(r: Request, state: RndisState, filter: word32): (s: RndisState) {
    if Le32(r, 0) == INITIALIZE_MSG then Initialized
    else if Le32(r, 0) == RESET_MSG then Uninitialized
    else if SetsFilter(r) then if filter != 0 then DataInitialized else Initialized
    else state
  }

  lemma ProcessInitialize(c: Ctl, beyond: word32, stats: Stats)
    requires Le32(c.buf, 0) == INITIALIZE_MSG
    ensures var reply := Head(0x8000_0002, 52, c.buf[8..12], SUCCESS) + Words([1, 0, 1, 0, 1, 1558, 0, 0, 0]);
            && |reply| == 52
            && Process(c, beyond, stats) == Ctl(reply + c.buf[52..], Initialized, c.filter, c.notified + 1)
  {
  }

  lemma ProcessQuery(c: Ctl, beyond: word32, stats: Stats)
    requires Le32(c.buf, 0) == QUERY_MSG
    ensures var reply := QueryReply(c.buf[8..12], AnswerTo(Le32(c.buf, 12), c.filter, stats));
            && |reply| == 24 + |AnswerData(AnswerTo(Le32(c.buf, 12), c.filter, stats))| <= BUFFER_SIZE
            && Process(c, beyond, stats) == c.(buf := reply + c.buf[|reply|..], notified := c.notified + 1)
  {
  }

  lemma ProcessSet(c: Ctl, beyond: word32, stats: Stats)
    requires Le32(c.buf, 0) == SET_MSG
    ensures var reply := Head(0x8000_0005, 16, c.buf[8..12], if Settable(Le32(c.buf, 12)) then SUCCESS else FAILURE);
            var filter := if SetsFilter(c.buf) then NewFilter(c.buf, beyond) else c.filter;
            && |reply| == 16 && Process(c, beyond, stats)
               == Ctl(reply + c.buf[16..], NextState(c.buf, c.state, filter), filter, c.notified + 1)
  {
  }

  lemma ProcessReset(c: Ctl, beyond: word32, stats: Stats)
    requires Le32(c.buf, 0) == RESET_MSG
    ensures var reply := Put32(0x8000_0006) + Put32(16) + Put32(SUCCESS) + Put32(1);
            && |reply| == 16
            && Process(c, beyond, stats) == Ctl(reply + c.buf[16..], Uninitialized, c.filter, c.notified + 1)
  {
  }

  lemma ProcessKeepalive(c: Ctl, beyond: word32, stats: Stats)
    requires Le32(c.buf, 0) == KEEPALIVE_MSG
    ensures var reply := Head(0x8000_0008, 16, c.buf[8..12], SUCCESS);
            |reply| == 16 && Process(c, beyond, stats) == c.(buf := reply + c.buf[16..], notified := c.notified + 1)
  {
  }

  // ---------- The device ----------

  class ControlChannel {
    const buffer: array<byte>  // encapsulated_buffer
    var state: RndisState
    var filter: word32
    ghost var notified: nat

    ghost predicate Valid()
      reads this
    {
      buffer.Length == BUFFER_SIZE
    }

    ghost function State(): (c: Ctl)
      requires Valid()
      reads this, buffer
    {
      Ctl(buffer[..], state, filter, notified)
    }

    constructor ()
      ensures Valid() && fresh(buffer)
      ensures State() == Ctl(Zeros(BUFFER_SIZE), Uninitialized, 0, 0)
    {
      buffer := new byte[BUFFER_SIZE](_ => 0);
      state, filter, notified := Uninitialized, 0, 0;
      new;
      assert buffer[..] == Zeros(BUFFER_SIZE);
    }

    function Field(i: nat): (w: word32)
      requires i + 4 <= buffer.Length
      reads buffer
      ensures w == Le32(buffer[..], i)
    {
      Bytes.Word(buffer[i], buffer[i + 1], buffer[i + 2], buffer[i + 3])
    }

    method Notify()
      modifies this`notified
      ensures notified == old(notified) + 1
    {
      notified := notified + 1;
    }

    method PutHead(kind: seq<byte>, length: seq<byte>, status: seq<byte>)
      requires Valid() && |kind| == |length| == |status| == 4
      modifies buffer
      ensures buffer[..] == kind + length + old(buffer[8..12]) + status + old(buffer[16..])
    {
      ghost var r := buffer[..];
      CopyTo(buffer, 0, kind);
      assert buffer[..] == kind + r[4..];
      PatchedAt(kind, length, r, 4, 12);
      CopyTo(buffer, 4, length);
      ghost var front := kind + length + r[8..12];
      PatchedAt(front, status, r, 12, 16);
      CopyTo(buffer, 12, status);
      Around(front + status, r[16..], 0);
    }

    method PutInformation(length: seq<byte>, offset: seq<byte>, data: seq<byte>)
      requires Valid() && |length| == |offset| == 4 && |data| <= 88
      modifies buffer
      ensures buffer[..] == old(buffer[..16]) + length + offset + data + old(buffer[24 + |data|..])
    {
      ghost var r := buffer[..];
      CopyTo(buffer, 16, length);
      ghost var front := r[..16] + length;
      PatchedAt(front, offset, r, 20, 24);
      CopyTo(buffer, 20, offset);
      PatchedAt(front + offset, data, r, 24, 24 + |data|);
      CopyTo(buffer, 24, data);
    }

    /** rndis_query_cmplt; rndis_query_cmplt32 is the case of a four-byte `data`. */
    method QueryComplete(status: word32, data: seq<byte>)
      requires Valid() && |data| <= 88
      modifies this`notified, buffer
      ensures Valid() && notified == old(notified) + 1
      ensures buffer[..] == Head(0x8000_0004, 24 + |data|, old(buffer[8..12]), status)
                          + Put32(|data|) + Put32(16) + data + old(buffer[24 + |data|..])
    {
      PutHead(Put32(0x8000_0004), Put32(24 + |data|), Put32(status));
      ghost var head := buffer[..16];
      assert head == Head(0x8000_0004, 24 + |data|, old(buffer[8..12]), status);
      PutInformation(Put32(|data|), Put32(16), data);
      Notify();
    }

    method Query(stats: Stats)
      requires Valid()
      modifies this`notified, buffer
      ensures Valid() && notified == old(notified) + 1
      ensures var id, a := old(buffer[8..12]), AnswerTo(Le32(old(buffer[..]), 12), filter, stats);
              buffer[..] == QueryReply(id, a) + old(buffer[24 + |AnswerData(a)|..])
    {
      var answer := AnswerTo(Field(12), filter, stats);
      match answer {
        case Word(status, w) => QueryComplete(status, Put32(w));
        case Blob(status, bytes) => QueryComplete(status, bytes);
      }
    }

    method HandleSet(beyond: word32)
      requires Valid()
      modifies this`notified, this`state, this`filter, buffer
      ensures Valid() && notified == old(notified) + 1
      ensures var r := old(buffer[..]);
              var oid := Le32(r, 12);
              && buffer[..] == Head(0x8000_0005, 16, r[8..12], if Settable(oid) then SUCCESS else FAILURE) + r[16..]
              && filter == (if oid == OID_CURRENT_PACKET_FILTER then NewFilter(r, beyond) else old(filter))
              && state == (if oid != OID_CURRENT_PACKET_FILTER then old(state)
                           else if filter != 0 then DataInitialized else Initialized)
    {
      ghost var r: Request := buffer[..];
      var oid := Field(12);
      PutHead(Put32(0x8000_0005), Put32(16), Put32(SUCCESS));
      assert buffer[..] == SetInProgress(r);
      if oid == OID_CONFIG_PARAMETER {
        // the parameter block is handed to a handler that ignores it
      } else if oid == OID_CURRENT_PACKET_FILTER {
        InstallFilter(r, beyond);
      } else if oid == OID_CURRENT_LOOKAHEAD || oid == OID_PROTOCOL_OPTIONS || oid == OID_MULTICAST_LIST {
      } else {
        RejectSet(r);
      }
      Notify();
    }

    method RejectSet(ghost r: Request)
      requires Valid() && buffer[..] == SetInProgress(r)
      modifies buffer
      ensures buffer[..] == Head(0x8000_0005, 16, r[8..12], FAILURE) + r[16..]
    {
      ghost var front := Put32(0x8000_0005) + Put32(16) + r[8..12];
      assert buffer[..12] == front;
      assert buffer[16..] == r[16..];
      CopyTo(buffer, 12, Put32(FAILURE));
    }

    method InstallFilter(ghost r: Request, beyond: word32)
      requires Valid() && buffer[..] == SetInProgress(r)
      modifies this`state, this`filter
      ensures filter == NewFilter(r, beyond)
      ensures state == if filter != 0 then DataInitialized else Initialized
    {
      assert buffer[20..24] == r[20..24] by {
        assert SetInProgress(r)[16..] == r[16..];
        assert buffer[20..24] == buffer[..][16..][4..8];
      }
      Le32Same(buffer[..], 20, r, 20);
      var address: int := Add32(Field(20), 8);
      filter := if address + 4 <= BUFFER_SIZE then Field(address) else beyond;
      if filter != 0 {
        state := DataInitialized;
      } else {
        state := Initialized;
      }
    }

    /** Called when a control message has arrived in the buffer. */
    method Ep0Recv(beyond: word32, stats: Stats)
      requires Valid()
      modifies this`notified, this`state, this`filter, buffer
      ensures Valid() && State() == Process(old(State()), beyond, stats)
    {
      ghost var c := State();
      var kind := Field(0);
      if kind == QUERY_MSG {
        ProcessQuery(c, beyond, stats);
        Query(stats);
      } else if kind == SET_MSG {
        ProcessSet(c, beyond, stats);
        HandleSet(beyond);
      } else {
        Answer(kind, beyond, stats);
      }
    }

    /** The messages answered in the same way whatever they contain. */
    method Answer(kind: word32, ghost beyond: word32, ghost stats: Stats)
      requires Valid() && kind == Field(0) && kind != QUERY_MSG && kind != SET_MSG
      modifies this`notified, this`state, buffer
      ensures Valid() && State() == Process(old(State()), beyond, stats)
    {
      ghost var c := State();
      if kind == INITIALIZE_MSG {
        ProcessInitialize(c, beyond, stats);
        Initialize();
      } else if kind == RESET_MSG {
        ProcessReset(c, beyond, stats);
        Reset();
      } else if kind == KEEPALIVE_MSG {
        ProcessKeepalive(c, beyond, stats);
        Keepalive();
      }
    }

    method Keepalive()
      requires Valid()
      modifies this`notified, buffer
      ensures Valid() && notified == old(notified) + 1
      ensures buffer[..] == Head(0x8000_0008, 16, old(buffer[8..12]), SUCCESS) + old(buffer[16..])
    {
      PutHead(Put32(0x8000_0008), Put32(16), Put32(SUCCESS));
      Notify();
    }

    method Initialize()
      requires Valid()
      modifies this`notified, this`state, buffer
      ensures Valid() && notified == old(notified) + 1 && state == Initialized
      ensures buffer[..] == Head(0x8000_0002, 52, old(buffer[8..12]), SUCCESS)
                          + Words([1, 0, 1, 0, 1, 1558, 0, 0, 0]) + old(buffer[52..])
    {
      PutInitialize(Put32(0x8000_0002), Put32(52), Put32(SUCCESS), Words([1, 0, 1, 0, 1, 1558, 0, 0, 0]));
      state := Initialized;
      Notify();
    }

    method Reset()
      requires Valid()
      modifies this`notified, this`state, buffer
      ensures Valid() && notified == old(notified) + 1 && state == Uninitialized
      ensures buffer[..] == Put32(0x8000_0006) + Put32(16) + Put32(SUCCESS) + Put32(1) + old(buffer[16..])
    {
      state := Uninitialized;
      PutReset(Put32(0x8000_0006), Put32(16), Put32(SUCCESS), Put32(1));
      Notify();
    }

    method PutInitialize(kind: seq<byte>, length: seq<byte>, status: seq<byte>, fields: seq<byte>)
      requires Valid() && |kind| == |length| == |status| == 4 && |fields| == 36
      modifies buffer
      ensures buffer[..] == kind + length + old(buffer[8..12]) + status + fields + old(buffer[52..])
    {
      PutHead(kind, length, status);
      assert buffer[..16] == kind + length + old(buffer[8..12]) + status;
      CopyTo(buffer, 16, fields);
    }

    method PutReset(kind: seq<byte>, length: seq<byte>, status: seq<byte>, addressing: seq<byte>)
      requires Valid() && |kind| == |length| == |status| == |addressing| == 4
      modifies buffer
      ensures buffer[..] == kind + length + status + addressing + old(buffer[16..])
    {
      PutHead(kind, length, addressing);
      assert buffer[..16] == kind + length + old(buffer[8..12]) + addressing;
      CopyTo(buffer, 8, status);
    }

    /** A whole SEND_ENCAPSULATED_COMMAND: the data stage overwrites the front of the buffer. */
    method HostSends(bytes: seq<byte>, beyond: word32, stats: Stats)
      requires Valid() && |bytes| <= BUFFER_SIZE
      modifies this`notified, this`state, this`filter, buffer
      ensures Valid() && State() == Transact(old(State()), HostMessage(bytes, beyond, stats))
    {
      ghost var c := State().(buf := Loaded(State().buf, bytes));
      CopyTo(buffer, 0, bytes);
      assert State() == c;
      Ep0Recv(beyond, stats);
    }

    /** GET_ENCAPSULATED_RESPONSE sends as many bytes as the buffer's MessageLength field says. */
    method HostReads() returns (r: Option<seq<byte>>)
      requires Valid()
      ensures r == Response(buffer[..])
    {
      var length := Field(4);
      r := if length <= BUFFER_SIZE then Some(buffer[..length]) else None;
    }
  }

  /** One host transfer: its bytes, and the values the device reads elsewhere while serving it. */
  datatype HostMessage = HostMessage(bytes: seq<byte>, beyond: word32, stats: Stats)

  function Transact(c: Ctl, m: HostMessage): (r: Ctl) {
    Process(c.(buf := Loaded(c.buf, m.bytes)), m.beyond, m.stats)
  }

  function Loaded(buf: Request, bytes: seq<byte>): (r: Request) {
    if |bytes| <= BUFFER_SIZE then bytes + buf[|bytes|..] else buf
  }

  /** None: the stated length runs past the buffer. */
  function Response(buf: Request): (r: Option<seq<byte>>) {
    if Le32(buf, 4) <= BUFFER_SIZE then Some(buf[..Le32(buf, 4)]) else None
  }

  // ---------- The shape of completions ----------

  lemma HeadFields(kind: word32, length: word32, id: seq<byte>, status: word32, rest: seq<byte>)
    requires |id| == 4
    ensures var m := Head(kind, length, id, status) + rest;
            && Le32(m, 0) == kind && Le32(m, 4) == length && m[8..12] == id && Le32(m, 12) == status && m[16..] == rest
  {
    LoadStored(kind);
    LoadStored(length);
    LoadStored(status);
    PartsAt(Put32(kind), Put32(length), id, Put32(status), rest);
  }

  lemma PartsAt(a: seq<byte>, b: seq<byte>, c: seq<byte>, d: seq<byte>, rest: seq<byte>)
    requires |a| == |b| == |c| == |d| == 4
    ensures var m := a + b + c + d + rest;
            && Le32(m, 0) == Le32(a, 0) && Le32(m, 4) == Le32(b, 0) && m[8..12] == c && Le32(m, 12) == Le32(d, 0)
            && m[16..] == rest && Le32(m, 8) == Le32(c, 0)
  {
    var m := a + b + c + d + rest;
    assert m[0..4] == a[0..4] && m[4..8] == b[0..4] && m[8..12] == c[0..4] && m[12..16] == d[0..4];
    Le32Same(m, 0, a, 0);
    Le32Same(m, 4, b, 0);
    Le32Same(m, 8, c, 0);
    Le32Same(m, 12, d, 0);
  }

  predicate Handled(kind: word32) {
    kind == INITIALIZE_MSG || kind == QUERY_MSG || kind == SET_MSG || kind == RESET_MSG || kind == KEEPALIVE_MSG
  }

  /** Every completion has the type of its request with the top bit set, states its true length of at most
      112 bytes, and, except for reset, carries the request's RequestId. */
  lemma ReplyShape(r: Request, filter: word32, stats: Stats)
    ensures Reply(r, filter, stats).Some? <==> Handled(Le32(r, 0))
    ensures Reply(r, filter, stats).Some? ==>
              var reply := Reply(r, filter, stats).value;
              && 16 <= |reply| <= 112 && Le32(reply, 4) == |reply|
              && Le32(reply, 0) == Le32(r, 0) as int + COMPLETION_BIT
              && (Le32(r, 0) != RESET_MSG ==> reply[8..12] == r[8..12])
  {
    var kind, id, oid := Le32(r, 0), r[8..12], Le32(r, 12);
    if kind == INITIALIZE_MSG {
      HeadFields(0x8000_0002, 52, id, SUCCESS, Words([1, 0, 1, 0, 1, 1558, 0, 0, 0]));
    } else if kind == QUERY_MSG {
      QueryReplyFields(id, AnswerTo(oid, filter, stats));
    } else if kind == SET_MSG {
      SetReplyFields(id, if Settable(oid) then SUCCESS else FAILURE);
    } else if kind == RESET_MSG {
      ResetReplyFields(0x8000_0006, 16, SUCCESS, 1);
    } else if kind == KEEPALIVE_MSG {
      HeadOnly(0x8000_0008, 16, id, SUCCESS);
    }
  }

  lemma HeadOnly(kind: word32, length: word32, id: seq<byte>, status: word32)
    requires |id| == 4
    ensures var m := Head(kind, length, id, status);
            |m| == 16 && Le32(m, 0) == kind && Le32(m, 4) == length && m[8..12] == id && Le32(m, 12) == status
  {
    HeadFields(kind, length, id, status, []);
    var m := Head(kind, length, id, status);
    assert m + [] == m;
  }

  lemma SetReplyFields(id: seq<byte>, status: word32)
    requires |id| == 4
    ensures var m := Head(0x8000_0005, 16, id, status);
            |m| == 16 && Le32(m, 0) == 0x8000_0005 && Le32(m, 4) == 16 && m[8..12] == id && Le32(m, 12) == status
  {
    HeadOnly(0x8000_0005, 16, id, status);
  }

  lemma ResetReplyFields(kind: word32, length: word32, status: word32, addressing: word32)
    ensures var m := Put32(kind) + Put32(length) + Put32(status) + Put32(addressing);
            Le32(m, 0) == kind && Le32(m, 4) == length && Le32(m, 8) == status && Le32(m, 12) == addressing
  {
    LoadStored(kind);
    LoadStored(length);
    LoadStored(status);
    LoadStored(addressing);
    PartsAt(Put32(kind), Put32(length), Put32(status), Put32(addressing), []);
    var m := Put32(kind) + Put32(length) + Put32(status) + Put32(addressing);
    assert m + [] == m;
  }

  /** A query completion locates its data 16 bytes past the RequestId, that is at byte 24, and ends with it. */
  lemma QueryReplyFields(id: seq<byte>, a: Answer)
    requires |id| == 4 && |AnswerData(a)| <= 88
    ensures var m := QueryReply(id, a);
            && Le32(m, 0) == 0x8000_0004 && Le32(m, 4) == |m| && m[8..12] == id && Le32(m, 12) == a.status
            && Le32(m, 20) + 8 == 24 && Le32(m, 20) + 8 + Le32(m, 16) == |m| && m[24..] == AnswerData(a)
  {
    var data := AnswerData(a);
    var kind, offset := 0x8000_0004, 16;
    var rest := Put32(|data|) + Put32(offset) + data;
    HeadFields(kind, 24 + |data|, id, a.status, rest);
    var head := Head(kind, 24 + |data|, id, a.status);
    InformationFields(|data|, offset, data, head);
    Regroup(head, Put32(|data|), Put32(offset), data);
  }

  lemma Regroup(a: seq<byte>, b: seq<byte>, c: seq<byte>, d: seq<byte>)
    ensures a + b + c + d == a + (b + c + d)
  {
  }

  lemma InformationFields(length: word32, offset: word32, data: seq<byte>, head: seq<byte>)
    requires |head| == 16
    ensures var m := head + (Put32(length) + Put32(offset) + data);
            Le32(m, 16) == length && Le32(m, 20) == offset && m[24..] == data
  {
    LoadStored(length);
    LoadStored(offset);
    var m := head + (Put32(length) + Put32(offset) + data);
    assert m[16..20] == Put32(length)[0..4] && m[20..24] == Put32(offset)[0..4];
    Le32Same(m, 16, Put32(length), 0);
    Le32Same(m, 20, Put32(offset), 0);
  }

  // ---------- What completions say ----------

  lemma {:induction false} WordAt(head: seq<byte>, ws: seq<word32>, k: nat)
    requires k < |ws|
    ensures Le32(head + Words(ws), |head| + 4 * k) == ws[k]
    decreases k
  {
    var m, word := head + Words(ws), Put32(ws[0]);
    assert m == head + word + Words(ws[1..]);
    if k == 0 {
      LoadStored(ws[0]);
      assert m[|head|..|head| + 4] == word[0..4];
      Le32Same(m, |head|, word, 0);
    } else {
      WordAt(head + word, ws[1..], k - 1);
    }
  }

  /** The words of an initialize completion behind its status: version 1.0, connectionless, medium 802.3, one packet per
      transfer, 1558 bytes, no alignment and no address family list. */
  lemma InitializeWords(head: seq<byte>)
    requires |head| == 16
    ensures var m := head + Words([1, 0, 1, 0, 1, 1558, 0, 0, 0]);
            && |m| == 52
            && Le32(m, 16) == 1 && Le32(m, 20) == 0 && Le32(m, 24) == 1 && Le32(m, 28) == 0 && Le32(m, 32) == 1
            && Le32(m, 36) == 1558 && Le32(m, 40) == 0 && Le32(m, 44) == 0 && Le32(m, 48) == 0
  {
    NineWords(head, [1, 0, 1, 0, 1, 1558, 0, 0, 0]);
  }

  lemma NineWords(head: seq<byte>, ws: seq<word32>)
    requires |head| == 16 && |ws| == 9
    ensures var m := head + Words(ws);
            && |m| == 52
            && Le32(m, 16) == ws[0] && Le32(m, 20) == ws[1] && Le32(m, 24) == ws[2] && Le32(m, 28) == ws[3]
            && Le32(m, 32) == ws[4] && Le32(m, 36) == ws[5] && Le32(m, 40) == ws[6] && Le32(m, 44) == ws[7]
            && Le32(m, 48) == ws[8]
  {
    WordAt(head, ws, 0);
    WordAt(head, ws, 1);
    WordAt(head, ws, 2);
    WordAt(head, ws, 3);
    WordAt(head, ws, 4);
    WordAt(head, ws, 5);
    WordAt(head, ws, 6);
    WordAt(head, ws, 7);
    WordAt(head, ws, 8);
  }

  lemma InitializeReply(r: Request, filter: word32, stats: Stats)
    requires Le32(r, 0) == INITIALIZE_MSG
    ensures Reply(r, filter, stats)
         == Some(Head(0x8000_0002, 52, r[8..12], SUCCESS) + Words([1, 0, 1, 0, 1, 1558, 0, 0, 0]))
  {
  }

  lemma HeadAndWords(m: seq<byte>, kind: word32, length: word32, id: seq<byte>, status: word32)
    requires |id| == 4 && m == Head(kind, length, id, status) + Words([1, 0, 1, 0, 1, 1558, 0, 0, 0])
    ensures |m| == 52 && Le32(m, 12) == status
    ensures Le32(m, 16) == 1 && Le32(m, 20) == 0 && Le32(m, 24) == 1 && Le32(m, 28) == 0 && Le32(m, 32) == 1
    ensures Le32(m, 36) == 1558 && Le32(m, 40) == 0 && Le32(m, 44) == 0 && Le32(m, 48) == 0
  {
    HeadFields(kind, length, id, status, Words([1, 0, 1, 0, 1, 1558, 0, 0, 0]));
    InitializeWords(Head(kind, length, id, status));
  }

  /** An initialize request succeeds, and is told what `InitializeWords` lists. */
  lemma InitializeSays(r: Request, filter: word32, stats: Stats, m: seq<byte>)
    ensures Le32(r, 0) == 2 && Reply(r, filter, stats) == Some(m) ==>
              && |m| == 52 && Le32(m, 12) == 0
              && Le32(m, 16) == 1 && Le32(m, 20) == 0 && Le32(m, 24) == 1 && Le32(m, 28) == 0 && Le32(m, 32) == 1
              && Le32(m, 36) == 1558 && Le32(m, 40) == 0 && Le32(m, 44) == 0 && Le32(m, 48) == 0
  {
    if Le32(r, 0) == INITIALIZE_MSG && Reply(r, filter, stats) == Some(m) {
      InitializeReply(r, filter, stats);
      HeadAndWords(m, 0x8000_0002, 52, r[8..12], SUCCESS);
    }
  }

  lemma ShortReply(r: Request, filter: word32, stats: Stats)
    ensures Le32(r, 0) == SET_MSG ==>
              Reply(r, filter, stats)
              == Some(Head(0x8000_0005, 16, r[8..12], if Settable(Le32(r, 12)) then SUCCESS else FAILURE))
    ensures Le32(r, 0) == RESET_MSG ==>
              Reply(r, filter, stats) == Some(Put32(0x8000_0006) + Put32(16) + Put32(SUCCESS) + Put32(1))
    ensures Le32(r, 0) == KEEPALIVE_MSG ==> Reply(r, filter, stats) == Some(Head(0x8000_0008, 16, r[8..12], SUCCESS))
  {
  }

  lemma HeadSays(m: seq<byte>, kind: word32, length: word32, id: seq<byte>, status: word32)
    requires |id| == 4 && m == Head(kind, length, id, status)
    ensures |m| == 16 && Le32(m, 12) == status
  {
    HeadOnly(kind, length, id, status);
  }

  lemma ResetSays(m: seq<byte>, kind: word32, length: word32, status: word32, addressing: word32)
    requires m == Put32(kind) + Put32(length) + Put32(status) + Put32(addressing)
    ensures |m| == 16 && Le32(m, 8) == status && Le32(m, 12) == addressing
  {
    ResetReplyFields(kind, length, status, addressing);
  }

  /** A set request succeeds for the five objects that can be set and fails for every other; reset and keepalive
      succeed, and a reset reports that addressing was reset. */
  lemma OthersSay(r: Request, filter: word32, stats: Stats, m: seq<byte>)
    requires Reply(r, filter, stats) == Some(m)
    ensures Le32(r, 0) == 5 ==> |m| == 16 && Le32(m, 12) == if CanBeSet(Le32(r, 12)) then 0 else 0xC000_0001
    ensures Le32(r, 0) == 6 ==> |m| == 16 && Le32(m, 8) == 0 && Le32(m, 12) == 1
    ensures Le32(r, 0) == 8 ==> |m| == 16 && Le32(m, 12) == 0
  {
    ShortReply(r, filter, stats);
    if Le32(r, 0) == SET_MSG {
      HeadSays(m, 0x8000_0005, 16, r[8..12], if Settable(Le32(r, 12)) then SUCCESS else FAILURE);
    } else if Le32(r, 0) == RESET_MSG {
      ResetSays(m, 0x8000_0006, 16, SUCCESS, 1);
    } else if Le32(r, 0) == KEEPALIVE_MSG {
      HeadSays(m, 0x8000_0008, 16, r[8..12], SUCCESS);
    }
  }

  predicate CanBeSet(oid: word32) {
    oid == 0x0001_021B || oid == 0x0001_010E || oid == 0x0001_010F || oid == 0x0001_0112 || oid == 0x0101_0103
  }

  /** A completion with this status and one word of data. */
  predicate SaysWord(m: seq<byte>, status: word32, w: word32) {
    |m| == 28 && Le32(m, 12) == status && Le32(m, 24) == w
  }

  predicate SaysBytes(m: seq<byte>, status: word32, data: seq<byte>) {
    |m| >= 24 && Le32(m, 12) == status && m[24..] == data
  }

  /** `m` is the completion of the query `r`. */
  predicate Answered(r: Request, filter: word32, stats: Stats, m: seq<byte>) {
    Le32(r, 0) == 4 && Reply(r, filter, stats) == Some(m)
  }

  lemma QuerySays(r: Request, filter: word32, stats: Stats, m: seq<byte>)
    ensures Answered(r, filter, stats, m) ==>
              var a := AnswerTo(Le32(r, 12), filter, stats);
              && |m| == 24 + |AnswerData(a)| && SaysBytes(m, a.status, AnswerData(a))
              && (a.Word? ==> SaysWord(m, a.status, a.word))
  {
    if Answered(r, filter, stats, m) {
      var a := AnswerTo(Le32(r, 12), filter, stats);
      QueryReplyFields(r[8..12], a);
      if a.Word? {
        LastWord(m, a.word);
      }
    }
  }

  /** The value of every object answered with one word. */
  lemma WordAnswers(r: Request, filter: word32, stats: Stats, m: seq<byte>)
    ensures Answered(r, filter, stats, m) ==>
              var oid := Le32(r, 12);
              && (oid in {0x0001_0102, 0x0001_0103, 0x0001_0104, 0x0001_0113, 0x0001_0114, 0x0001_0202, 0x0001_021B}
                  ==> SaysWord(m, 0, 0))
              && (oid in {0x0002_0105, 0x0102_0101, 0x0102_0102, 0x0102_0103} ==> SaysWord(m, 0, 0))
              && (oid == 0x0001_0106 ==> SaysWord(m, 0, 1500))
              && (oid == 0x0001_0107 ==> SaysWord(m, 0, 120000))
              && (oid in {0x0001_010A, 0x0001_010B, 0x0001_0111} ==> SaysWord(m, 0, 1514))
              && (oid == 0x0001_010C ==> SaysWord(m, 0, 0x00FF_FFFF))
              && (oid == 0x0001_010E ==> SaysWord(m, 0, filter))
              && (oid == 0x0001_0116 ==> SaysWord(m, 0, 0x1000))
              && (oid == 0x0002_0101 ==> SaysWord(m, 0, stats.txok))
              && (oid == 0x0002_0102 ==> SaysWord(m, 0, stats.rxok))
              && (oid == 0x0002_0103 ==> SaysWord(m, 0, stats.txbad))
              && (oid == 0x0002_0104 ==> SaysWord(m, 0, stats.rxbad))
              && (oid == 0x0101_0104 ==> SaysWord(m, 0, 1))
              && (oid in {0x0101_0103, 0x0101_0105} ==> SaysWord(m, 0xC000_00BB, 0))
  {
    QuerySays(r, filter, stats, m);
    if Answered(r, filter, stats, m) {
      WordsOf(m, Le32(r, 12), filter, stats);
    }
  }

  lemma WordsOf(m: seq<byte>, oid: word32, filter: word32, stats: Stats)
    requires var a := AnswerTo(oid, filter, stats); a.Word? ==> SaysWord(m, a.status, a.word)
    ensures oid in {0x0001_0102, 0x0001_0103, 0x0001_0104, 0x0001_0113, 0x0001_0114, 0x0001_0202, 0x0001_021B}
            ==> SaysWord(m, 0, 0)
    ensures oid in {0x0002_0105, 0x0102_0101, 0x0102_0102, 0x0102_0103} ==> SaysWord(m, 0, 0)
    ensures oid == 0x0001_0106 ==> SaysWord(m, 0, 1500)
    ensures oid == 0x0001_0107 ==> SaysWord(m, 0, 120000)
    ensures oid in {0x0001_010A, 0x0001_010B, 0x0001_0111} ==> SaysWord(m, 0, 1514)
    ensures oid == 0x0001_010C ==> SaysWord(m, 0, 0x00FF_FFFF)
    ensures oid == 0x0001_010E ==> SaysWord(m, 0, filter)
    ensures oid == 0x0001_0116 ==> SaysWord(m, 0, 0x1000)
    ensures oid == 0x0002_0101 ==> SaysWord(m, 0, stats.txok)
    ensures oid == 0x0002_0102 ==> SaysWord(m, 0, stats.rxok)
    ensures oid == 0x0002_0103 ==> SaysWord(m, 0, stats.txbad)
    ensures oid == 0x0002_0104 ==> SaysWord(m, 0, stats.rxbad)
    ensures oid == 0x0101_0104 ==> SaysWord(m, 0, 1)
    ensures oid in {0x0101_0103, 0x0101_0105} ==> SaysWord(m, 0xC000_00BB, 0)
  {
  }

  /** The objects answered with bytes: the two addresses, the vendor's name and the list of 22 objects. */
  lemma ByteAnswers(r: Request, filter: word32, stats: Stats, m: seq<byte>, listed: seq<word32>)
    requires listed == SUPPORTED
    ensures Answered(r, filter, stats, m) ==>
              var oid := Le32(r, 12);
              && (oid == 0x0101_0101 || oid == 0x0101_0102 ==> SaysBytes(m, 0, [0x20, 0x89, 0x84, 0x6A, 0x96, 0xAB]))
              && (oid == 0x0001_010D ==> SaysBytes(m, 0, [0x66, 0x65, 0x74, 0x69, 0x73, 0x6F, 0x76, 0]))
              && (oid == 0x0001_0101 ==> SaysBytes(m, 0, Words(listed)))
  {
    var oid := Le32(r, 12);
    QuerySays(r, filter, stats, m);
    if Answered(r, filter, stats, m) {
      BytesOf(m, oid, filter, stats, listed);
    }
  }

  lemma BytesOf(m: seq<byte>, oid: word32, filter: word32, stats: Stats, listed: seq<word32>)
    requires listed == SUPPORTED
    ensures var a := AnswerTo(oid, filter, stats);
            SaysBytes(m, a.status, AnswerData(a)) ==>
              && (oid == 0x0101_0101 || oid == 0x0101_0102 ==> SaysBytes(m, 0, [0x20, 0x89, 0x84, 0x6A, 0x96, 0xAB]))
              && (oid == 0x0001_010D ==> SaysBytes(m, 0, [0x66, 0x65, 0x74, 0x69, 0x73, 0x6F, 0x76, 0]))
              && (oid == 0x0001_0101 ==> SaysBytes(m, 0, Words(listed)))
  {
    if oid == 0x0101_0101 {
      PermanentAnswer(filter, stats);
    } else if oid == 0x0101_0102 {
      CurrentAnswer(filter, stats);
    } else if oid == 0x0001_010D {
      VendorAnswer(filter, stats);
    } else if oid == 0x0001_0101 {
      ListAnswer(oid, filter, stats, listed);
    }
  }

  /** Every other query fails, with no data. */
  lemma OtherQueriesFail(r: Request, filter: word32, stats: Stats, m: seq<byte>)
    ensures Answered(r, filter, stats, m) && !Known(Le32(r, 12)) ==> |m| == 24 && Le32(m, 12) == 0xC000_0001
  {
    QuerySays(r, filter, stats, m);
    if !Known(Le32(r, 12)) {
      UnknownFails(Le32(r, 12), filter, stats);
    }
  }

  lemma PermanentAnswer(filter: word32, stats: Stats)
    ensures AnswerTo(0x0101_0101, filter, stats) == Blob(0, [0x20, 0x89, 0x84, 0x6A, 0x96, 0xAB])
  {
  }

  lemma CurrentAnswer(filter: word32, stats: Stats)
    ensures AnswerTo(0x0101_0102, filter, stats) == Blob(0, [0x20, 0x89, 0x84, 0x6A, 0x96, 0xAB])
  {
  }

  lemma VendorAnswer(filter: word32, stats: Stats)
    ensures AnswerTo(0x0001_010D, filter, stats) == Blob(0, [0x66, 0x65, 0x74, 0x69, 0x73, 0x6F, 0x76, 0])
  {
  }

  lemma ListAnswer(oid: word32, filter: word32, stats: Stats, listed: seq<word32>)
    requires oid == 0x0001_0101 && listed == SUPPORTED
    ensures AnswerTo(oid, filter, stats) == Blob(0, Words(listed))
  {
    assert WordAnswer(oid, filter, stats) == None;
  }

  lemma UnknownFails(oid: word32, filter: word32, stats: Stats)
    requires !Known(oid)
    ensures AnswerTo(oid, filter, stats) == Blob(0xC000_0001, [])
  {
    assert WordAnswer(oid, filter, stats) == None;
  }

  predicate Known(oid: word32) {
    || (0x0001_0101 <= oid <= 0x0001_0104) || oid == 0x0001_0106 || oid == 0x0001_0107
    || (0x0001_010A <= oid <= 0x0001_010E) || oid == 0x0001_0111 || oid == 0x0001_0113 || oid == 0x0001_0114
    || oid == 0x0001_0116 || oid == 0x0001_0202 || oid == 0x0001_021B || (0x0002_0101 <= oid <= 0x0002_0105)
    || (0x0101_0101 <= oid <= 0x0101_0105) || (0x0102_0101 <= oid <= 0x0102_0103)
  }

  /** Advertised but not answered: the protocol options and the number of packets per send. */
  lemma AdvertisedExactly(oid: word32)
    requires oid in SUPPORTED
    ensures Known(oid) <==> oid != 0x0001_0112 && oid != 0x0001_0115
  {
  }

  // ---------- The filter a set request installs ----------

  /** For every value address inside the buffer, wrapped ones included: the filter is the value in the request exactly
      when that starts with the RequestId (offset 0), behind the three low bytes of the Status already written
      over the Oid (offset 7 or more), or in a MessageLength (wrapped addresses 4 to 7) whose bytes from there on
      happen to be those of the completion's 16. */
  lemma FilterIsTheRequestsValue(r: Request, beyond: word32)
    requires SetsFilter(r) && ValueAddress(r) <= BUFFER_SIZE - 4
    ensures var a := ValueAddress(r);
            (NewFilter(r, beyond) == Le32(r, a)
             <==> a == 8 || a >= 15 || (4 <= a < 8 && forall i | a <= i < 8 :: r[i] == if i == 4 then 16 else 0))
  {
    var a: nat := ValueAddress(r);
    var now := SetInProgress(r);
    OidBytes(r);
    ZeroStatus(r);
    HeadBytes(r);
    Le32Injective(now, r, a);
    var x, y := now[a..a + 4], r[a..a + 4];
    if a == 8 || a >= 15 {
      assert x == y;
    } else if a >= 9 {
      var k := if a <= 12 then 12 - a else 0;
      assert x[k] != y[k];
    } else if a < 4 {
      assert x[3 - a] != y[3 - a];
    } else {
      WrappedValue(r, now, a);
    }
  }

  lemma WrappedValue(r: Request, now: Request, a: nat)
    requires 4 <= a < 8 && now[4..8] == [16, 0, 0, 0] && now[8..12] == r[8..12]
    ensures now[a..a + 4] == r[a..a + 4] <==> forall i | a <= i < 8 :: r[i] == if i == 4 then 16 else 0
  {
    var x, y := now[a..a + 4], r[a..a + 4];
    assert forall i | 4 <= i < 8 :: now[i] == now[4..8][i - 4];
    assert forall i | 8 <= i < 12 :: now[i] == now[8..12][i - 8] == r[8..12][i - 8] == r[i];
    assert forall i | 0 <= i < 4 :: x[i] == now[a + i] && y[i] == r[a + i];
    if x == y {
      forall i | a <= i < 8 ensures r[i] == if i == 4 then 16 else 0 {
        assert x[i - a] == y[i - a];
      }
    }
  }

  /** A request with offset 1 installs 0, the Status, and not the value that it has there. */
  lemma StatusForFilter(r: Request, beyond: word32)
    requires SetsFilter(r) && Le32(r, 20) == 1
    ensures NewFilter(r, beyond) != Le32(r, 9) && ValueAddress(r) == 9
  {
    FilterIsTheRequestsValue(r, beyond);
  }

  /** The type and the length of the completion, against those of the request. */
  lemma HeadBytes(r: Request)
    requires SetsFilter(r)
    ensures var now := SetInProgress(r); now[3] == 0x80 && r[3] == 0 && now[4..8] == [16, 0, 0, 0]
  {
    WordDigits(r[0], r[1], r[2], r[3]);
    var rest := SetInProgress(r)[8..];
    assert Put32(0x8000_0005) == [5, 0, 0, 0x80] by { StoreLoaded([5, 0, 0, 0x80], 0); }
    assert Put32(16) == [16, 0, 0, 0] by { StoreLoaded([16, 0, 0, 0], 0); }
    assert SetInProgress(r) == [5, 0, 0, 0x80] + [16, 0, 0, 0] + rest;
  }

  lemma OidBytes(r: Request)
    requires SetsFilter(r)
    ensures r[12] == 0x0E && r[13] == 1 && r[14] == 1 && r[15] == 0
  {
    WordDigits(r[12], r[13], r[14], r[15]);
  }

  lemma ZeroStatus(r: Request)
    ensures var now := SetInProgress(r);
            now[8..12] == r[8..12] && now[12..16] == [0, 0, 0, 0] && now[16..] == r[16..]
  {
    assert Put32(SUCCESS) == [0, 0, 0, 0] by { StoreLoaded([0, 0, 0, 0], 0); }
  }

  lemma Le32Injective(a: seq<byte>, b: seq<byte>, i: nat)
    requires i + 4 <= |a| && i + 4 <= |b|
    ensures Le32(a, i) == Le32(b, i) <==> a[i..i + 4] == b[i..i + 4]
  {
    StoreLoaded(a, i);
    StoreLoaded(b, i);
  }

  // ---------- Runs ----------

  const POWER_ON := Ctl(Zeros(BUFFER_SIZE), Uninitialized, 0, 0)

  function Run(c: Ctl, ms: seq<HostMessage>): (r: Ctl) {
    if ms == [] then c else Transact(Run(c, ms[..|ms| - 1]), ms[|ms| - 1])
  }

  /** The buffer as the device sees it when the last message of `ms` has arrived. */
  function Arrived(c: Ctl, ms: seq<HostMessage>): (r: Request)
    requires ms != []
  {
    Loaded(Run(c, ms[..|ms| - 1]).buf, ms[|ms| - 1].bytes)
  }

  /** The value of the most recent filter setting among `ms`. */
  function LastFilter(c: Ctl, ms: seq<HostMessage>): (w: word32) {
    if ms == [] then c.filter
    else if SetsFilter(Arrived(c, ms)) then NewFilter(Arrived(c, ms), ms[|ms| - 1].beyond)
    else LastFilter(c, ms[..|ms| - 1])
  }

  /** What the most recent initialize, reset or filter setting among `ms` calls for. */
  function LastState(c: Ctl, ms: seq<HostMessage>): (s: RndisState) {
    if ms == [] then c.state
    else
      var r := Arrived(c, ms);
      if Le32(r, 0) == INITIALIZE_MSG then Initialized
      else if Le32(r, 0) == RESET_MSG then Uninitialized
      else if SetsFilter(r) then if NewFilter(r, ms[|ms| - 1].beyond) == 0 then Initialized else DataInitialized
      else LastState(c, ms[..|ms| - 1])
  }

  /** Over any message sequence the device remembers exactly the last filter and the last state change. */
  lemma {:induction false} RunRemembers(c: Ctl, ms: seq<HostMessage>)
    ensures Run(c, ms).filter == LastFilter(c, ms) && Run(c, ms).state == LastState(c, ms)
  {
    if ms != [] {
      RunRemembers(c, ms[..|ms| - 1]);
      ReplyShape(Arrived(c, ms), Run(c, ms[..|ms| - 1]).filter, ms[|ms| - 1].stats);
    }
  }

  /** A device that has been powered on passes frames only with a packet filter in force. */
  lemma {:induction false} DataNeedsFilter(ms: seq<HostMessage>)
    ensures Run(POWER_ON, ms).state == DataInitialized ==> Run(POWER_ON, ms).filter != 0
  {
    if ms != [] {
      DataNeedsFilter(ms[..|ms| - 1]);
      ReplyShape(Arrived(POWER_ON, ms), Run(POWER_ON, ms[..|ms| - 1]).filter, ms[|ms| - 1].stats);
    }
  }

  /** What the host reads back is the completion of what it sent. */
  lemma HostReadsReply(c: Ctl, m: HostMessage)
    requires Handled(Le32(Loaded(c.buf, m.bytes), 0))
    ensures Response(Transact(c, m).buf) == Reply(Loaded(c.buf, m.bytes), c.filter, m.stats)
    ensures Transact(c, m).notified == c.notified + 1
  {
    var r := Loaded(c.buf, m.bytes);
    ReplyShape(r, c.filter, m.stats);
    OwnLength(Reply(r, c.filter, m.stats).value, r);
  }

  /** A message written over the buffer that states its own length is read back whole. */
  lemma OwnLength(reply: seq<byte>, r: Request)
    requires 8 <= |reply| <= BUFFER_SIZE && Le32(reply, 4) == |reply|
    ensures Response(Over(reply, r)) == Some(reply)
  {
    var buf := reply + r[|reply|..];
    assert buf[4..8] == reply[4..8];
    Le32Same(buf, 4, reply, 4);
    assert buf[..|reply|] == reply;
  }

  /** A message of any other type is ignored: nothing changes, and the host is not notified. */
  lemma OthersIgnored(c: Ctl, beyond: word32, stats: Stats)
    requires Le32(c.buf, 0) != 2 && Le32(c.buf, 0) != 4 && Le32(c.buf, 0) != 5 && Le32(c.buf, 0) != 6
    requires Le32(c.buf, 0) != 8
    ensures Process(c, beyond, stats) == c
  {
  }

  /** What a host transfer leaves in the buffer: its bytes in front, and then, if it is answered, the completion in
      front of what was there. */
  lemma BufferExactly(c: Ctl, m: HostMessage, k: nat)
    requires |m.bytes| <= 120 && k < 120
    ensures var loaded, reply := Loaded(c.buf, m.bytes), Reply(Loaded(c.buf, m.bytes), c.filter, m.stats);
            && |loaded| == 120 && loaded[k] == (if k < |m.bytes| then m.bytes[k] else c.buf[k])
            && Transact(c, m).buf[k]
               == if reply.Some? && k < |reply.value| then reply.value[k] else loaded[k]
  {
    var loaded := Loaded(c.buf, m.bytes);
    ReplyShape(loaded, c.filter, m.stats);
  }

  /** A value address outside the buffer installs what lies there. */
  lemma FilterFromBeyond(r: Request, beyond: word32)
    requires (Le32(r, 20) as int + 8) % 0x1_0000_0000 > 116
    ensures NewFilter(r, beyond) == beyond
  {
    Add32IsModular(Le32(r, 20), 8);
  }

  /** A query for the packet filter reads back the last one set, or 0 when none was. */
  lemma FilterQuery(ms: seq<HostMessage>, q: HostMessage)
    ensures QueriesFilter(Arrived(POWER_ON, ms + [q])) ==>
              var response := Response(Run(POWER_ON, ms + [q]).buf);
              && response.Some? && |response.value| == 28
              && Le32(response.value, 12) == SUCCESS && Le32(response.value, 24) == LastFilter(POWER_ON, ms)
  {
    assert (ms + [q])[..|ms|] == ms;
    var c := Run(POWER_ON, ms);
    var r := Loaded(c.buf, q.bytes);
    if QueriesFilter(r) {
      RunRemembers(POWER_ON, ms);
      HostReadsReply(c, q);
      FilterAnswer(r, c.filter, q.stats);
    }
  }

  lemma FilterAnswer(r: Request, filter: word32, stats: Stats)
    requires QueriesFilter(r)
    ensures var reply := Reply(r, filter, stats);
            && reply.Some? && |reply.value| == 28
            && Le32(reply.value, 12) == SUCCESS && Le32(reply.value, 24) == filter
  {
    var a := AnswerTo(Le32(r, 12), filter, stats);
    FilterWord(filter, stats);
    QueryReplyFields(r[8..12], a);
    LastWord(QueryReply(r[8..12], a), filter);
  }

  lemma FilterWord(filter: word32, stats: Stats)
    ensures AnswerTo(OID_CURRENT_PACKET_FILTER, filter, stats) == Word(SUCCESS, filter)
  {
  }

  lemma LastWord(m: seq<byte>, w: word32)
    requires |m| == 28 && m[24..] == Put32(w)
    ensures Le32(m, 24) == w
  {
    LoadStored(w);
    assert m[24..28] == Put32(w)[0..4];
    Le32Same(m, 24, Put32(w), 0);
  }
}
