/** The DNS responder, and an independent decoder of messages (sections 4.1.1 to 4.1.4 of RFC 1035) to read its
    replies with. */
module DnsServer {
  import opened Bytes
  import opened DnsParser

  const HEADER := 12

  type Addr = a: seq<byte> | |a| == 4 witness [0, 0, 0, 0]

  // ---------- The responder ----------

  /** A C string: the bytes before the first NUL. */
  function CString(s: seq<byte>): (r: seq<byte>) {
    if s == [] || s[0] == 0 then [] else [s[0]] + CString(s[1..])
  }

  lemma {:induction false} CStringOfName(s: seq<byte>, more: seq<byte>)
    ensures CString(s + [0] + more) == CString(s)
  {
    if s == [] || s[0] == 0 {
      assert (s + [0] + more)[0] == 0;
    } else {
      assert (s + [0] + more)[1..] == s[1..] + [0] + more;
      CStringOfName(s[1..], more);
    }
  }

  /** It is the longest front without a NUL. */
  lemma {:induction false} CStringExactly(s: seq<byte>)
    ensures CString(s) <= s && 0 !in CString(s) && (|CString(s)| < |s| ==> s[|CString(s)|] == 0)
  {
    if s != [] && s[0] != 0 {
      CStringExactly(s[1..]);
      assert CString(s)[1..] == CString(s[1..]);
    }
  }

  function Be16(s: seq<byte>, i: nat): (n: nat)
    requires i + 2 <= |s|
  {
    0x100 * (s[i] as int) + s[i + 1]
  }

  /** The 16 bytes appended to the question: a pointer to its name, type A, class IN, 32 seconds, the address. */
  function Answer(addr: Addr): (s: seq<byte>)
    ensures |s| == 16
  {
    [0xC0, 0x0C, 0, 1, 0, 1, 0, 0, 0, 32, 0, 4] + addr
  }

  /** The header with the response bit set and one answer announced. */
  function ReplyHeader(h: seq<byte>): (s: seq<byte>)
    requires |h| == HEADER && h[2] < 0x80
    ensures |s| == HEADER
  {
    h[..2] + [h[2] + 0x80] + h[3..6] + [0, 1] + h[8..]
  }

  /** A query the server looks up: longer than a header, not a response, one question that parses. */
  predicate Accepts(request: seq<byte>) {
    |request| > HEADER && request[2] < 0x80 && Be16(request, 4) == 1 && Parse(request[HEADER..]).Accepted?
  }

  function ReplyTo(request: seq<byte>, addr: Addr): (r: seq<byte>)
    requires Accepts(request)
  {
    var n := Parse(request[HEADER..]).consumed;
    if HEADER + n <= |request| then ReplyHeader(request[..HEADER]) + request[HEADER..HEADER + n] + Answer(addr) else []
  }

  class Responder {
    const name: array<byte>  // query.name
    const lookup: seq<byte> -> Option<Addr>

    ghost predicate Valid() {
      name.Length == MAX_NAME
    }

    constructor (lookup: seq<byte> -> Option<Addr>)
      ensures Valid() && fresh(name) && this.lookup == lookup
    {
      name := new byte[MAX_NAME](_ => 0);
      this.lookup := lookup;
    }

    method UdpRecv(payload: seq<byte>, alloc: bool) returns (sent: Option<seq<byte>>)
      requires Valid()
      modifies name
      ensures sent == if !Accepts(payload) then None
                      else match lookup(CString(Dotted(Parse(payload[HEADER..]).labels)))
                           case None => None
                           case Some(addr) => if alloc then Some(ReplyTo(payload, addr)) else None
    {
      sent := None;
      if |payload| <= HEADER { return; }
      if payload[2] / 0x80 != 0 { return; }
      if Be16(payload, 4) != 1 { return; }
      var len, _, _ := ParseNextQuery(payload[HEADER..], name);
      if len < 0 { return; }
      ghost var dotted := Dotted(Parse(payload[HEADER..]).labels);
      assert name[..] == dotted + [0] + name[|dotted| + 1..];
      CStringOfName(dotted, name[|dotted| + 1..]);
      var addr := lookup(CString(name[..]));
      if addr == None { return; }
      if !alloc { return; }
      ghost var front := payload[..HEADER + len];
      assert front[..HEADER] == payload[..HEADER] && front[HEADER..] == payload[HEADER..HEADER + len];
      var out := Build(payload[..HEADER + len], addr.value);
      return Some(out);
    }

    /** The received bytes are copied and then patched. */
    method Build(front: seq<byte>, addr: Addr) returns (reply: seq<byte>)
      requires |front| >= HEADER && front[2] < 0x80
      ensures reply == ReplyHeader(front[..HEADER]) + front[HEADER..] + Answer(addr)
    {
      var out := new byte[|front| + 16](_ => 0);
      CopyTo(out, 0, front);
      out[2] := out[2] + 0x80;
      out[6], out[7] := 0, 1;
      assert out[..|front|] == ReplyHeader(front[..HEADER]) + front[HEADER..];
      ghost var patched := out[..|front|];
      CopyTo(out, |front|, Answer(addr));
      assert out[..] == patched + Answer(addr);
      return out[..];
    }
  }

  // ---------- A decoder by the standard ----------

  datatype Name = Name(labels: Labels, next: nat)

  /** The name at `at`. A pointer must lead to an earlier name (before `bound`), and a label has at most 63 bytes. */
  function ReadName(msg: seq<byte>, at: nat, bound: nat): (r: Option<Name>)
    ensures r.Some? ==> at < r.value.next <= |msg|
    decreases bound, |msg| - at
  {
    if at >= |msg| then None
    else
      var n := msg[at];
      if n == 0 then Some(Name(Root, at + 1))
      else if n >= 0xC0 then
        if at + 1 >= |msg| then None
        else
          var target := 0x100 * (n as int - 0xC0) + msg[at + 1];
          if target >= bound then None
          else match ReadName(msg, target, target)
            case None => None
            case Some(name) => Some(Name(name.labels, at + 2))
      else if n >= 64 || at + 1 + n > |msg| then None
      else Behind(msg[at + 1..at + 1 + n], ReadName(msg, at + 1 + n, bound))
  }

  /** A label in front of the name that follows it. */
  function Behind(l: Label, r: Option<Name>): (s: Option<Name>) {
    match r
    case None => None
    case Some(name) => Some(Name(More(l, name.labels), name.next))
  }

  datatype Question = Question(labels: Labels, qtype: nat, qclass: nat)
  datatype Rr = Rr(labels: Labels, rtype: nat, rclass: nat, ttl: nat, rdata: seq<byte>)

  function ReadQuestion(msg: seq<byte>, at: nat): (r: Option<(Question, nat)>) {
    match ReadName(msg, at, at)
    case None => None
    case Some(name) =>
      if name.next + 4 > |msg| then None
      else Some((Question(name.labels, Be16(msg, name.next), Be16(msg, name.next + 2)), name.next + 4))
  }

  function ReadRr(msg: seq<byte>, at: nat): (r: Option<(Rr, nat)>)
    ensures r.Some? ==> at < r.value.1 <= |msg|
  {
    match ReadName(msg, at, at)
    case None => None
    case Some(name) =>
      var i := name.next;
      if i + 10 > |msg| || i + 10 + Be16(msg, i + 8) > |msg| then None
      else
        var end := i + 10 + Be16(msg, i + 8);
        var ttl := 0x1_0000 * Be16(msg, i + 4) + Be16(msg, i + 6);
        Some((Rr(name.labels, Be16(msg, i), Be16(msg, i + 2), ttl, msg[i + 10..end]), end))
  }

  function ReadRrs(msg: seq<byte>, at: nat, count: nat): (r: Option<(seq<Rr>, nat)>)
    decreases count
  {
    if count == 0 then Some(([], at))
    else match ReadRr(msg, at)
      case None => None
      case Some(one) =>
        match ReadRrs(msg, one.1, count - 1)
        case None => None
        case Some(rest) => Some(([one.0] + rest.0, rest.1))
  }

  /** The header but for its counts (section 4.1.1): identifier, query or response, kind of query, authoritative answer,
      truncation, recursion desired and available, three reserved bits, response code. */
  datatype Header = Header(
    id: nat, response: bool, opcode: nat, aa: bool, tc: bool, rd: bool, ra: bool, z: nat, rcode: nat)

  function ReadHeader(msg: seq<byte>): (h: Header)
    requires |msg| >= HEADER
  {
    var a, b := msg[2], msg[3];
    Header(Be16(msg, 0), a / 128 == 1, a / 8 % 16, a / 4 % 2 == 1, a / 2 % 2 == 1, a % 2 == 1,
           b / 128 == 1, b / 16 % 8, b % 16)
  }

  datatype Message = Message(header: Header, question: Question, records: seq<Rr>)

  /** A message with one question, decoded by its own counts; all of it must be used up. */
  function Decode(msg: seq<byte>): (r: Option<Message>) {
    if |msg| < HEADER || Be16(msg, 4) != 1 then None
    else match ReadQuestion(msg, HEADER)
      case None => None
      case Some(q) =>
        match ReadRrs(msg, q.1, Be16(msg, 6) + Be16(msg, 8) + Be16(msg, 10))
        case None => None
        case Some(rs) => if rs.1 == |msg| then Some(Message(ReadHeader(msg), q.0, rs.0)) else None
  }

  // ---------- Replies decode ----------

  /** No label is longer than 63 bytes, as the standard has it. */
  predicate Short(ls: Labels) {
    ls.More? ==> |ls.head| < 64 && Short(ls.rest)
  }

  /** No label is longer than what the parser can store. */
  predicate Storable(ls: Labels) {
    ls.More? ==> |ls.head| < MAX_NAME && Storable(ls.rest)
  }

  lemma {:induction false} DottedIsStorable(ls: Labels)
    requires |Dotted(ls)| < MAX_NAME
    ensures Storable(ls)
    decreases ls
  {
    if ls.More? {
      DottedIsStorable(ls.rest);
    }
  }

  lemma ReadOneLabel(msg: seq<byte>, at: nat, bound: nat, l: Label)
    requires at + 1 + |l| <= |msg| && msg[at] == |l| < 128 && msg[at + 1..at + 1 + |l|] == l
    ensures ReadName(msg, at, bound) ==
            if |l| >= 64 then None else Behind(l, ReadName(msg, at + 1 + |l|, bound))
  {
  }

  /** What reading the encoding of `ls` at `at` should give. */
  function NameOf(ls: Labels, at: nat): (r: Option<Name>) {
    if Short(ls) then Some(Name(ls, at + |Encode(ls)|)) else None
  }

  lemma NameOfMore(l: Label, rest: Labels, at: nat)
    ensures NameOf(More(l, rest), at) == if |l| >= 64 then None else Behind(l, NameOf(rest, at + 1 + |l|))
  {
  }

  /** The decoder reads back encoded labels exactly when none is longer than 63 bytes. */
  lemma {:induction false} ReadsLabels(msg: seq<byte>, at: nat, bound: nat, ls: Labels)
    requires Labelled(msg, at, ls) && Storable(ls)
    ensures ReadName(msg, at, bound) == NameOf(ls, at)
    decreases ls
  {
    if ls.More? {
      ReadOneLabel(msg, at, bound, ls.head);
      NameOfMore(ls.head, ls.rest, at);
      ReadsLabels(msg, at + 1 + |ls.head|, bound, ls.rest);
    }
  }

  /** The three parts of a reply, in place. */
  lemma ReplyParts(request: seq<byte>, addr: Addr, ls: Labels)
    requires Accepts(request) && ls == Parse(request[HEADER..]).labels
    ensures var msg, n := ReplyTo(request, addr), |Encode(ls)| + 4;
            && HEADER + n <= |request| && |msg| == HEADER + n + 16
            && Stands(msg, HEADER, Encode(ls)) && Stands(request, HEADER, Encode(ls))
            && Stands(msg, HEADER + n, Answer(addr))
            && msg[..HEADER] == ReplyHeader(request[..HEADER])
            && msg[HEADER..HEADER + n] == request[HEADER..HEADER + n]
            && |Dotted(ls)| < MAX_NAME
  {
    var data, n := request[HEADER..], |Encode(ls)| + 4;
    AcceptedIsReadable(data);
    var msg := ReplyTo(request, addr);
    assert msg == ReplyHeader(request[..HEADER]) + request[HEADER..HEADER + n] + Answer(addr);
    var name := Encode(ls);
    assert request[HEADER..HEADER + |name|] == data[0..|name|] == name;
    SliceOfSlice(msg, HEADER, HEADER + n, 0, |name|);
    SliceOfSlice(request, HEADER, HEADER + n, 0, |name|);
  }

  /** The question of a reply is that of the query: the parser reads the same name from it. */
  lemma ReplyKeepsQuestion(request: seq<byte>, addr: Addr)
    requires Accepts(request)
    ensures |ReplyTo(request, addr)| == HEADER + Parse(request[HEADER..]).consumed + 16
    ensures Parse(ReplyTo(request, addr)[HEADER..]) == Parse(request[HEADER..])
  {
    var ls := Parse(request[HEADER..]).labels;
    ReplyParts(request, addr, ls);
    var msg := ReplyTo(request, addr);
    var name := Encode(ls);
    assert msg[HEADER..][0..|name|] == name && request[HEADER..][0..|name|] == name;
    assert Readable(msg[HEADER..], ls) && Readable(request[HEADER..], ls);
    ParseIsExact(msg[HEADER..]);
    ParseIsExact(request[HEADER..]);
  }

  lemma CountsOf(h: seq<byte>)
    requires |h| == HEADER && h[2] < 0x80
    ensures var r := ReplyHeader(h);
            Be16(r, 4) == Be16(h, 4) && Be16(r, 6) == 1 && Be16(r, 8) == Be16(h, 8) && Be16(r, 10) == Be16(h, 10)
  {
  }

  /** The appended record: its name is a pointer to byte 12, where the question's name is. */
  lemma ReadsAnswer(msg: seq<byte>, at: nat, addr: Addr, ls: Labels)
    requires Stands(msg, at, Answer(addr)) && at > HEADER && at + 16 == |msg|
    requires ReadName(msg, HEADER, HEADER) == Some(Name(ls, at - 4))
    ensures ReadRr(msg, at) == Some((Rr(ls, 1, 1, 32, addr), |msg|))
  {
    AnswerBytes(msg, at, at + 2, addr);
    assert ReadName(msg, at, at) == Some(Name(ls, at + 2));
  }

  lemma AnswerBytes(msg: seq<byte>, at: nat, i: nat, addr: Addr)
    requires Stands(msg, at, Answer(addr)) && i == at + 2
    ensures i + 14 <= |msg| && msg[at] == 0xC0 && msg[at + 1] == 0x0C
    ensures Be16(msg, i) == 1 && Be16(msg, i + 2) == 1 && Be16(msg, i + 4) == 0 && Be16(msg, i + 6) == 32
    ensures Be16(msg, i + 8) == 4 && msg[i + 10..i + 14] == addr
  {
    var fixed: seq<byte> := [0xC0, 0x0C, 0, 1, 0, 1, 0, 0, 0, 32, 0, 4];
    StandsParts(msg, at, fixed, addr);
    StandsAt(msg, at, fixed);
    assert msg[at] == fixed[0] && msg[at + 1] == fixed[1] && msg[at + 2] == fixed[2] && msg[at + 3] == fixed[3]
        && msg[at + 4] == fixed[4] && msg[at + 5] == fixed[5] && msg[at + 6] == fixed[6] && msg[at + 7] == fixed[7]
        && msg[at + 8] == fixed[8] && msg[at + 9] == fixed[9] && msg[at + 10] == fixed[10] && msg[at + 11] == fixed[11];
  }

  lemma OneRecord(msg: seq<byte>, at: nat, count: nat, rr: Rr)
    requires ReadRr(msg, at) == Some((rr, |msg|))
    ensures ReadRrs(msg, at, 1) == Some(([rr], |msg|))
    ensures count > 1 ==> ReadRrs(msg, at, count) == None
  {
    var none := ReadRrs(msg, |msg|, 1 - 1);
    assert none == Some(([], |msg|));
    assert [rr] + none.value.0 == [rr];
    assert ReadRr(msg, |msg|) == None;
    if count > 1 {
      assert ReadRrs(msg, |msg|, count - 1) == None;
    }
  }

  /** The reply to an accepted query decodes, by its own counts and down to its last byte, exactly when the query
      announced no authority and no additional records and its labels have at most 63 bytes. It then repeats
      the question and answers it with an address record for the same name. */
  lemma ReplyDecodes(request: seq<byte>, addr: Addr)
    requires Accepts(request)
    ensures var ls := Parse(request[HEADER..]).labels;
            var n := HEADER + Parse(request[HEADER..]).consumed;
            && n <= |request| && n >= 4
            && Decode(ReplyTo(request, addr))
            == if Short(ls) && Be16(request, 8) == 0 && Be16(request, 10) == 0
               then Some(Message(ReadHeader(request).(response := true),
                                 Question(ls, Be16(request, n - 4), Be16(request, n - 2)), [Rr(ls, 1, 1, 32, addr)]))
               else None
    ensures !ReadHeader(request).response
  {
    var ls, msg := Parse(request[HEADER..]).labels, ReplyTo(request, addr);
    var n := HEADER + |Encode(ls)| + 4;
    ReplyKeepsQuestion(request, addr);
    ReplyParts(request, addr, ls);
    DottedIsStorable(ls);
    EncodingIsLabelled(msg, HEADER, ls);
    ReadsLabels(msg, HEADER, HEADER, ls);
    Counts(request, msg);
    ReplyFlags(request, addr);
    SameFields(request, msg, n);
    if Short(ls) {
      ReadsAnswer(msg, n, addr, ls);
    }
    DecodesTo(msg, ls, n, Rr(ls, 1, 1, 32, addr));
  }

  /** A query for the root's address that announces `additional` records. */
  function RootRequest(additional: byte): (request: seq<byte>) {
    [0, 1, 1, 0, 0, 1, 0, 0, 0, 0, 0, additional] + [0, 0, 1, 0, 1]
  }

  /** A query that announces one additional record, as one with an OPT record does, gets a reply that does not decode;
      without that record the reply decodes. */
  lemma AdditionalCountSpoils(addr: Addr)
    ensures Accepts(RootRequest(1)) && Decode(ReplyTo(RootRequest(1), addr)) == None
    ensures Accepts(RootRequest(0))
         && Decode(ReplyTo(RootRequest(0), addr))
            == Some(Message(Header(1, true, 0, false, false, true, false, 0, 0), Question(Root, 1, 1),
                            [Rr(Root, 1, 1, 32, addr)]))
  {
    RootReply(1, addr);
    RootReply(0, addr);
  }

  lemma RootReply(additional: byte, addr: Addr)
    ensures Accepts(RootRequest(additional))
         && Decode(ReplyTo(RootRequest(additional), addr))
            == if additional == 0
               then Some(Message(Header(1, true, 0, false, false, true, false, 0, 0), Question(Root, 1, 1),
                                 [Rr(Root, 1, 1, 32, addr)]))
               else None
  {
    var h: seq<byte> := [0, 1, 1, 0, 0, 1, 0, 0, 0, 0, 0, additional];
    RootQuery(h, addr);
    RootHeader(RootRequest(additional));
  }

  lemma RootHeader(request: seq<byte>)
    requires |request| > HEADER && request[0] == 0 && request[1] == 1 && request[2] == 1 && request[3] == 0
    ensures ReadHeader(request) == Header(1, false, 0, false, false, true, false, 0, 0)
  {
  }

  lemma RootQuery(h: seq<byte>, addr: Addr)
    requires |h| == HEADER && h[2] < 0x80 && Be16(h, 4) == 1
    ensures var request := h + [0, 0, 1, 0, 1];
            && Accepts(request)
            && Decode(ReplyTo(request, addr))
               == if Be16(h, 8) == 0 && Be16(h, 10) == 0
                  then Some(Message(ReadHeader(request).(response := true), Question(Root, 1, 1),
                                    [Rr(Root, 1, 1, 32, addr)]))
                  else None
  {
    var request := h + [0, 0, 1, 0, 1];
    assert request[HEADER..] == [0, 0, 1, 0, 1];
    assert Parse(request[HEADER..]) == Accepted(Root, 5);
    ReplyDecodes(request, addr);
  }

  /** The twelve header bytes of any reply: the query's, with the response bit set, which was clear, and one answer. */
  lemma ReplyHeaderBytes(request: seq<byte>, addr: Addr)
    requires Accepts(request)
    ensures var msg := ReplyTo(request, addr);
            && |request| > 12 && |msg| >= 12
            && msg[..2] == request[..2] && request[2] < 128 && msg[2] == request[2] + 128 && msg[3] == request[3]
            && msg[4..6] == request[4..6] == [0, 1] && msg[6..8] == [0, 1] && msg[8..12] == request[8..12]
  {
    var ls, msg := Parse(request[HEADER..]).labels, ReplyTo(request, addr);
    ReplyParts(request, addr, ls);
    var h, r := request[..HEADER], msg[..HEADER];
    assert r == ReplyHeader(h);
    assert forall i | 0 <= i < HEADER :: msg[i] == r[i] && request[i] == h[i];
  }

  lemma ReplyFlags(request: seq<byte>, addr: Addr)
    requires Accepts(request)
    ensures |ReplyTo(request, addr)| >= HEADER && !ReadHeader(request).response
    ensures ReadHeader(ReplyTo(request, addr)) == ReadHeader(request).(response := true)
  {
    ReplyHeaderBytes(request, addr);
    var msg := ReplyTo(request, addr);
    assert Be16(msg, 0) == Be16(request, 0) by { assert msg[..2][0] == msg[0] && msg[..2][1] == msg[1]; }
    TopBit(request[2]);
  }

  /** Setting the top bit of a byte leaves the others. */
  lemma TopBit(a: byte)
    requires a < 128
    ensures var b := a as int + 128;
            && a / 128 == 0 && b / 128 == 1
            && b / 8 % 16 == a / 8 % 16 && b / 4 % 2 == a / 4 % 2 && b / 2 % 2 == a / 2 % 2 && b % 2 == a % 2
  {
    var b := a as int + 128;
    assert b / 8 == a / 8 + 16;
    assert b / 4 == a / 4 + 32;
    assert b / 2 == a / 2 + 64;
  }

  /** Which datagrams are answered, if the name is known: those of more than twelve bytes, with the response bit
      clear and one question, that begin behind the header with a name whose dotted form takes at most 127 bytes and
      four more bytes. */
  lemma AcceptsExactly(request: seq<byte>)
    ensures Accepts(request)
       <==> |request| > 12 && request[2] < 128 && request[4] == 0 && request[5] == 1
            && exists ls :: Readable(request[12..], ls)
  {
    if |request| > 12 {
      ParseIsExact(request[12..]);
    }
  }

  lemma DecodesTo(msg: seq<byte>, ls: Labels, n: nat, rr: Rr)
    requires HEADER + 4 <= n <= |msg| && n == HEADER + |Encode(ls)| + 4
    requires Be16(msg, 4) == 1 && Be16(msg, 6) == 1
    requires ReadName(msg, HEADER, HEADER) == NameOf(ls, HEADER)
    requires Short(ls) ==> ReadRr(msg, n) == Some((rr, |msg|))
    ensures Decode(msg) ==
            if Short(ls) && Be16(msg, 8) == 0 && Be16(msg, 10) == 0
            then Some(Message(ReadHeader(msg), Question(ls, Be16(msg, n - 4), Be16(msg, n - 2)), [rr])) else None
  {
    if Short(ls) {
      assert ReadQuestion(msg, HEADER) == Some((Question(ls, Be16(msg, n - 4), Be16(msg, n - 2)), n));
      OneRecord(msg, n, 1 + Be16(msg, 8) + Be16(msg, 10), rr);
    } else {
      assert ReadQuestion(msg, HEADER) == None;
    }
  }

  lemma Counts(request: seq<byte>, msg: seq<byte>)
    requires |request| >= HEADER && |msg| >= HEADER && request[2] < 0x80
    requires msg[..HEADER] == ReplyHeader(request[..HEADER])
    ensures Be16(msg, 4) == Be16(request, 4) && Be16(msg, 6) == 1
    ensures Be16(msg, 8) == Be16(request, 8) && Be16(msg, 10) == Be16(request, 10)
  {
    var h, r := request[..HEADER], msg[..HEADER];
    CountsOf(h);
    assert forall i | 0 <= i < HEADER :: h[i] == request[i] && r[i] == msg[i];
    assert Be16(r, 4) == Be16(msg, 4) && Be16(r, 6) == Be16(msg, 6);
    assert Be16(r, 8) == Be16(msg, 8) && Be16(r, 10) == Be16(msg, 10);
    assert Be16(h, 4) == Be16(request, 4) && Be16(h, 8) == Be16(request, 8) && Be16(h, 10) == Be16(request, 10);
  }

  lemma SameFields(request: seq<byte>, msg: seq<byte>, n: nat)
    requires HEADER + 4 <= n <= |request| && n <= |msg| && msg[HEADER..n] == request[HEADER..n]
    ensures Be16(msg, n - 4) == Be16(request, n - 4) && Be16(msg, n - 2) == Be16(request, n - 2)
  {
    var a, b, k := msg[HEADER..n], request[HEADER..n], n - HEADER;
    assert a[k - 4] == b[k - 4] && a[k - 3] == b[k - 3] && a[k - 2] == b[k - 2] && a[k - 1] == b[k - 1];
  }
}
