/** The DNS question parser: length-prefixed labels become a dotted name in a 128-byte array
    (sections 4.1.2 and 3.1 of RFC 1035). */
module DnsParser {
  import opened Bytes

  const MAX_NAME := 128
  const DOT: byte := 0x2E

  // ---------- Label lists ----------

  type Label = l: seq<byte> | 0 < |l| < 256 witness [0]

  datatype Labels = Root | More(head: Label, rest: Labels)

  /** The encoded name, with the zero byte that ends it. */
  function Encode(ls: Labels): (s: seq<byte>)
    ensures |s| > 0
  {
    match ls
    case Root => [0]
    case More(l, rest) => [|l|] + l + Encode(rest)
  }

  /** The labels joined with dots. */
  function Dotted(ls: Labels): (s: seq<byte>) {
    match ls
    case Root => []
    case More(l, Root) => l
    case More(l, rest) => l + [DOT] + Dotted(rest)
  }

  /** What `ls` adds to a dotted name: a dot too, unless it comes first. */
  function Added(first: bool, ls: Labels): (s: seq<byte>) {
    if first || ls == Root then Dotted(ls) else [DOT] + Dotted(ls)
  }

  /** How many bytes that is. */
  function Cost(first: bool, ls: Labels): (n: nat) {
    match ls
    case Root => 0
    case More(l, rest) => Dots(first) + |l| + Cost(false, rest)
  }

  function Dots(first: bool): (n: nat) {
    if first then 0 else 1
  }

  function Separator(first: bool): (s: seq<byte>)
    ensures |s| == Dots(first)
  {
    if first then [] else [DOT]
  }

  lemma {:induction false} CostIsLength(first: bool, ls: Labels)
    ensures |Added(first, ls)| == Cost(first, ls)
    decreases ls
  {
    if ls.More? {
      CostIsLength(false, ls.rest);
      AddedMore(first, ls.head, ls.rest);
    }
  }

  lemma AddedMore(first: bool, l: Label, rest: Labels)
    ensures Added(first, More(l, rest)) == (if first then l else [DOT] + l) + Added(false, rest)
  {
    assert l + [] == l;
    assert [DOT] + (l + [DOT] + Dotted(rest)) == ([DOT] + l) + ([DOT] + Dotted(rest));
    assert l + [DOT] + Dotted(rest) == l + ([DOT] + Dotted(rest));
  }

  /** The index of the first dot, or the length if there is none. */
  function FirstDot(s: seq<byte>): (i: nat)
    ensures i <= |s| && (i < |s| ==> s[i] == 0x2E) && forall k | 0 <= k < i :: s[k] != 0x2E
  {
    if s == [] || s[0] == 0x2E then 0 else 1 + FirstDot(s[1..])
  }

  /** What stands between the dots. */
  function Split(s: seq<byte>): (parts: seq<seq<byte>>)
    decreases |s|
  {
    var i := FirstDot(s);
    if i == |s| then [s] else [s[..i]] + Split(s[i + 1..])
  }

  function ListOf(ls: Labels): (labels: seq<seq<byte>>) {
    match ls
    case Root => []
    case More(l, rest) => [l] + ListOf(rest)
  }

  /** A dotted name splits at its dots into its labels, if they contain none themselves; that of the root is empty. */
  lemma {:induction false} DottedSplits(ls: Labels)
    requires forall l | l in ListOf(ls) :: 0x2E !in l
    ensures if ls == Root then Dotted(ls) == [] else Split(Dotted(ls)) == ListOf(ls)
    decreases ls
  {
    match ls
    case Root =>
    case More(l, rest) =>
      assert l in ListOf(ls) && forall x | x in ListOf(rest) :: x in ListOf(ls);
      DottedSplits(rest);
      if rest == Root {
        NoDot(l);
      } else {
        SplitFirst(l, Dotted(rest));
      }
  }

  lemma NoDot(l: seq<byte>)
    requires 0x2E !in l
    ensures Split(l) == [l]
  {
  }

  lemma SplitFirst(l: seq<byte>, rest: seq<byte>)
    requires 0x2E !in l
    ensures Split(l + [0x2E] + rest) == [l] + Split(rest)
  {
    var s := l + [0x2E] + rest;
    assert s[|l|] == 0x2E && forall k | 0 <= k < |l| :: s[k] == l[k] && l[k] in l;
    var i := FirstDot(s);
    assert s[..i] == l && s[i + 1..] == rest;
  }

  // ---------- The parser ----------

  /** What the parser returns: the labels and the bytes consumed, or one of its two errors. */
  datatype Parsed = Accepted(labels: Labels, consumed: nat) | Truncated | TooLong

  /** Parsing on from `at` when `len` bytes of the dotted name are stored, or none because this is the first label. */
  function ParseFrom(data: seq<byte>, at: nat, len: nat, first: bool): (r: Parsed)
    requires at <= |data|
    decreases |data| - at
  {
    if at == |data| then Truncated
    else
      var n, next := data[at], at + 1 + data[at];
      if n == 0 then
        if |data| - at - 1 < 4 then Truncated else Accepted(Root, at + 5)
      else if next > |data| then Truncated
      else if len + Dots(first) + n >= MAX_NAME then TooLong
      else
        Behind(data[at + 1..next], ParseFrom(data, next, len + Dots(first) + n, false))
  }

  /** A label in front of what else is parsed. */
  function Behind(l: Label, r: Parsed): (s: Parsed) {
    match r
    case Accepted(rest, consumed) => Accepted(More(l, rest), consumed)
    case error => error
  }

  function Parse(data: seq<byte>): (r: Parsed) {
    ParseFrom(data, 0, 0, true)
  }

  /** The outcome of the whole parse, seen from a point where `front` is stored and `rest` is still to come. */
  ghost predicate Leads(whole: Parsed, front: seq<byte>, first: bool, rest: Parsed) {
    match rest
    case Accepted(ls, consumed) =>
      whole.Accepted? && whole.consumed == consumed && Dotted(whole.labels) == front + Added(first, ls)
    case error => whole == error
  }

  /** One label read. */
  lemma ParseOne(data: seq<byte>, at: nat, len: nat, first: bool, l: Label)
    requires at + 1 + |l| <= |data| && data[at] == |l| && data[at + 1..at + 1 + |l|] == l
    requires len + Dots(first) + |l| < MAX_NAME
    ensures ParseFrom(data, at, len, first) == Behind(l, ParseFrom(data, at + 1 + |l|, len + Dots(first) + |l|, false))
  {
  }

  /** Where parsing stops at a label, it stops as a whole. */
  lemma LeadsToError(whole: Parsed, front: seq<byte>, data: seq<byte>, at: nat, len: nat, first: bool)
    requires at < |data| && data[at] != 0 && Leads(whole, front, first, ParseFrom(data, at, len, first))
    ensures at + 1 + data[at] > |data| ==> whole == Truncated
    ensures at + 1 + data[at] <= |data| && len + Dots(first) + data[at] >= MAX_NAME ==> whole == TooLong
  {
  }

  /** At the terminator, and past the end of the data. */
  lemma LeadsToEnd(whole: Parsed, front: seq<byte>, data: seq<byte>, at: nat, len: nat, first: bool)
    requires at <= |data| && Leads(whole, front, first, ParseFrom(data, at, len, first))
    requires at < |data| ==> data[at] == 0
    ensures if |data| - at < 5 then whole == Truncated
            else whole.Accepted? && whole.consumed == at + 5 && Dotted(whole.labels) == front
  {
    assert front + [] == front;
  }

  lemma LeadsOn(whole: Parsed, front: seq<byte>, data: seq<byte>, at: nat, len: nat, first: bool,
                stored: seq<byte>, next: nat, sum: nat)
    requires at < next <= |data| && next == at + 1 + data[at] && data[at] != 0
    requires sum == len + Dots(first) + data[at] < MAX_NAME
    requires stored == front + Separator(first) + data[at + 1..next]
    requires Leads(whole, front, first, ParseFrom(data, at, len, first))
    ensures Leads(whole, stored, false, ParseFrom(data, next, sum, false))
  {
    var l: Label := data[at + 1..next];
    ParseOne(data, at, len, first, l);
    LeadsMore(whole, front, first, l, ParseFrom(data, next, sum, false));
  }

  /** One more label, in terms of what is still to come. */
  lemma LeadsMore(whole: Parsed, front: seq<byte>, first: bool, l: Label, r: Parsed)
    requires Leads(whole, front, first, Behind(l, r))
    ensures Leads(whole, front + Separator(first) + l, false, r)
  {
    if r.Accepted? {
      AddedMore(first, l, r.labels);
      assert front + Added(first, More(l, r.labels)) == front + Separator(first) + l + Added(false, r.labels);
    }
  }

  /** parse_next_query. On success the array holds the dotted name and its NUL, and the two 16-bit fields are
      the bytes that follow, as they stand. */
  method ParseNextQuery(data: seq<byte>, name: array<byte>)
    returns (result: int, qtype: seq<byte>, qclass: seq<byte>)
    requires name.Length == MAX_NAME
    modifies name
    ensures match Parse(data)
            case Truncated => result == -1
            case TooLong => result == -2
            case Accepted(ls, consumed) =>
              && result == consumed && 5 <= consumed <= |data|
              && qtype == data[consumed - 4..consumed - 2] && qclass == data[consumed - 2..consumed]
              && |Dotted(ls)| < MAX_NAME && name[..|Dotted(ls)| + 1] == Dotted(ls) + [0]
  {
    qtype, qclass := [], [];
    var len, labels, at := 0, 0, 0;
    ghost var whole := Parse(data);
    LeadsAtStart(data, name[..0]);
    while true
      invariant 0 <= at <= |data| && 0 <= labels && 0 <= len < MAX_NAME
      invariant Leads(whole, name[..len], labels == 0, ParseFrom(data, at, len, labels == 0))
      decreases |data| - at
    {
      if |data| - at <= 0 {
        LeadsToEnd(whole, name[..len], data, at, len, labels == 0);
        return -1, [], [];
      }
      var labelLen := data[at];
      at := at + 1;
      if labelLen == 0 { break; }
      var error;
      error, len := ReadLabel(data, at, name, len, labels > 0, whole);
      if error != 0 { return error, [], []; }
      at := at + labelLen;
      labels := labels + 1;
    }
    LeadsToEnd(whole, name[..len], data, at - 1, len, labels == 0);
    if |data| - at < 4 { return -1, [], []; }
    name[len] := 0;
    assert name[..len + 1] == name[..len] + [0];
    qtype := data[at..at + 2];
    qclass := data[at + 2..at + 4];
    return at + 4, qtype, qclass;
  }

  lemma LeadsAtStart(data: seq<byte>, empty: seq<byte>)
    requires empty == []
    ensures Leads(Parse(data), empty, true, Parse(data))
  {
  }

  /** The body of the loop, once a non-zero length byte has been read. */
  method ReadLabel(data: seq<byte>, at: nat, name: array<byte>, start: nat, dot: bool, ghost whole: Parsed)
    returns (error: int, len: nat)
    requires 0 < at <= |data| && data[at - 1] != 0 && start < MAX_NAME == name.Length
    requires Leads(whole, name[..start], !dot, ParseFrom(data, at - 1, start, !dot))
    modifies name
    ensures error == 0 || (error == -1 && whole == Truncated) || (error == -2 && whole == TooLong)
    ensures error == 0 ==> at + data[at - 1] <= |data| && len < MAX_NAME
    ensures error == 0 ==> Leads(whole, name[..len], false, ParseFrom(data, at + data[at - 1], len, false))
  {
    ghost var front := name[..start];
    LeadsToError(whole, front, data, at - 1, start, !dot);
    error, len := StoreLabel(data, at, data[at - 1], name, start, dot);
    if error == 0 {
      LeadsOn(whole, front, data, at - 1, start, !dot, name[..len], at + data[at - 1], len);
    }
  }

  /** A dot unless this is the first label, the two checks, and the copy. */
  method StoreLabel(data: seq<byte>, at: nat, labelLen: byte, name: array<byte>, start: nat, dot: bool)
    returns (error: int, len: nat)
    requires at <= |data| && start < MAX_NAME == name.Length
    modifies name
    ensures error == if at + labelLen > |data| then -1 else if start + Dots(!dot) + labelLen >= MAX_NAME then -2 else 0
    ensures error == 0 ==>
              && len == start + Dots(!dot) + labelLen
              && name[..len] == old(name[..start]) + Separator(!dot) + data[at..at + labelLen]
  {
    len := start;
    if dot {
      if len == MAX_NAME { return -2, len; }
      name[len] := DOT;
      len := len + 1;
    }
    assert name[..len] == old(name[..start]) + Separator(!dot);
    if labelLen > |data| - at { return -1, len; }
    if len + labelLen >= MAX_NAME { return -2, len; }
    PutLabel(name, len, data[at..at + labelLen]);
    len := len + labelLen;
    error := 0;
  }

  method PutLabel(name: array<byte>, len: nat, l: seq<byte>)
    requires len + |l| <= name.Length
    modifies name
    ensures name[..len + |l|] == old(name[..len]) + l
  {
    CopyTo(name, len, l);
  }

  // ---------- Exactness ----------

  /** The data begins with the encoding of `ls`, whose dotted form takes at most 127 bytes, and four more bytes. */
  predicate Readable(data: seq<byte>, ls: Labels) {
    Stands(data, 0, Encode(ls)) && |Encode(ls)| + 4 <= |data| && |Dotted(ls)| < MAX_NAME
  }

  /** The labels and their terminator, met one after the other from `at` on. */
  predicate Labelled(data: seq<byte>, at: nat, ls: Labels)
    decreases ls
  {
    match ls
    case Root => at < |data| && data[at] == 0
    case More(l, rest) =>
      var next := at + 1 + |l|;
      next <= |data| && data[at] == |l| && data[at + 1..next] == l && Labelled(data, next, rest)
  }

  lemma {:induction false} EncodingIsLabelled(data: seq<byte>, at: nat, ls: Labels)
    ensures Stands(data, at, Encode(ls)) <==> Labelled(data, at, ls)
    decreases ls
  {
    match ls
    case Root => OneByteStands(data, at, 0);
    case More(l, rest) =>
      assert Encode(ls) == [|l|] + (l + Encode(rest));
      StandsParts(data, at, [|l|], l + Encode(rest));
      StandsParts(data, at + 1, l, Encode(rest));
      OneByteStands(data, at, |l|);
      EncodingIsLabelled(data, at + 1 + |l|, rest);
  }

  lemma OneByteStands(data: seq<byte>, at: nat, b: byte)
    ensures Stands(data, at, [b]) <==> at < |data| && data[at] == b
  {
    if at < |data| {
      assert data[at..at + 1] == [data[at]];
    }
  }

  lemma AcceptedStep(data: seq<byte>, at: nat, len: nat, first: bool) returns (l: Label)
    requires at <= |data| && ParseFrom(data, at, len, first).Accepted? && data[at] != 0
    ensures at + 1 + |l| <= |data| && data[at] == |l| && data[at + 1..at + 1 + |l|] == l
    ensures len + Dots(first) + |l| < MAX_NAME
    ensures ParseFrom(data, at + 1 + |l|, len + Dots(first) + |l|, false).Accepted?
  {
    l := data[at + 1..at + 1 + data[at]];
  }

  lemma {:induction false} ParsedIsLabelled(data: seq<byte>, at: nat, len: nat, first: bool)
    requires at <= |data| && len < MAX_NAME && ParseFrom(data, at, len, first).Accepted?
    ensures var r := ParseFrom(data, at, len, first);
            && Labelled(data, at, r.labels) && r.consumed == at + |Encode(r.labels)| + 4 <= |data|
            && len + Cost(first, r.labels) < MAX_NAME
    decreases |data| - at
  {
    if data[at] != 0 {
      var l := AcceptedStep(data, at, len, first);
      ParsedIsLabelled(data, at + 1 + |l|, len + Dots(first) + |l|, false);
      ParseOne(data, at, len, first, l);
    }
  }

  lemma {:induction false} LabelledIsParsed(data: seq<byte>, at: nat, len: nat, first: bool, ls: Labels)
    requires Labelled(data, at, ls) && at + |Encode(ls)| + 4 <= |data| && len + Cost(first, ls) < MAX_NAME
    ensures ParseFrom(data, at, len, first) == Accepted(ls, at + |Encode(ls)| + 4)
    decreases ls
  {
    if ls.More? {
      ParseOne(data, at, len, first, ls.head);
      LabelledIsParsed(data, at + 1 + |ls.head|, len + Dots(first) + |ls.head|, false, ls.rest);
    }
  }

  /** Parsing is exact: it succeeds if and only if the data begins with a terminated label list whose dotted
      form takes at most 127 bytes, followed by four more bytes; then those labels are the result, and the
      count is what they, their terminator and the four bytes take. */
  lemma ParseIsExact(data: seq<byte>)
    ensures Parse(data).Accepted? <==> exists ls :: Readable(data, ls)
    ensures forall ls :: Readable(data, ls) ==> Parse(data) == Accepted(ls, |Encode(ls)| + 4)
  {
    if Parse(data).Accepted? {
      AcceptedIsReadable(data);
    }
    forall ls | Readable(data, ls) ensures Parse(data) == Accepted(ls, |Encode(ls)| + 4) {
      EncodingIsLabelled(data, 0, ls);
      CostIsLength(true, ls);
      LabelledIsParsed(data, 0, 0, true, ls);
    }
  }

  lemma AcceptedIsReadable(data: seq<byte>)
    requires Parse(data).Accepted?
    ensures Readable(data, Parse(data).labels) && Parse(data).consumed == |Encode(Parse(data).labels)| + 4
  {
    ParsedIsLabelled(data, 0, 0, true);
    EncodingIsLabelled(data, 0, Parse(data).labels);
    CostIsLength(true, Parse(data).labels);
  }

  /** Encoding a name and parsing it gives the name back, whatever follows the question. */
  lemma EncodeThenParse(ls: Labels, fields: seq<byte>, rest: seq<byte>)
    requires |Dotted(ls)| < MAX_NAME && |fields| == 4
    ensures Parse(Encode(ls) + fields + rest) == Accepted(ls, |Encode(ls)| + 4)
  {
    var data := Encode(ls) + fields + rest;
    assert data[0..|Encode(ls)|] == Encode(ls);
    assert Readable(data, ls);
    ParseIsExact(data);
  }
}
