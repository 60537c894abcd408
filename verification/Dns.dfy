/** The hand-rolled DNS wire codec (RFC 1035) and the authoritative answer built with it. */
module Dns {
  import opened Names

  const QTYPE_A := 1
  const QTYPE_ANY := 255
  const QCLASS_IN := 1
  const RCODE_NOERROR := 0
  const RCODE_SERVFAIL := 2
  const RCODE_NXDOMAIN := 3
  const RCODE_NOTIMP := 4
  const DEFAULT_TTL := 5
  const MAX_ANSWERS := 64
  const MAX_UDP_RESPONSE_BYTES := 512
  const MAX_LABEL := 63
  const MAX_LABELS := 33
  const HEADER := 12

  datatype Query = Query(
    id: nat, opcode: nat, recursionDesired: bool, name: string, qtype: nat, qclass: nat, question: seq<byte>)

  // ----- big-endian numbers -----

  function U16(n: nat): seq<byte>
    requires n < 0x1_0000
  {
    [n / 256, n % 256]
  }

  function U32(n: nat): seq<byte>
    requires n < 0x1_0000_0000
  {
    [n / 0x100_0000, n / 0x1_0000 % 256, n / 0x100 % 256, n % 256]
  }

  function ReadU16(buf: seq<byte>, at: nat): nat
    requires at + 2 <= |buf|
  {
    (buf[at] as nat) * 256 + buf[at+1] as nat
  }

  function ReadU32(buf: seq<byte>, at: nat): nat
    requires at + 4 <= |buf|
  {
    ReadU16(buf, at) * 0x1_0000 + ReadU16(buf, at + 2)
  }

  // ----- parsing -----

  datatype Labels = Labels(labels: seq<seq<byte>>, end: nat)

  /** Labels from an offset up to and including the root label. */
  function LabelsFrom(buf: seq<byte>, offset: nat, labels: seq<seq<byte>>): Option<Labels>
    decreases |buf| - offset
  {
    if offset >= |buf| then None
    else
      var length := buf[offset];
      if length == 0 then Some(Labels(labels, offset + 1))
      else if length > MAX_LABEL || |labels| >= MAX_LABELS then None
      else if offset + 1 + length > |buf| then None
      else LabelsFrom(buf, offset + 1 + length, labels + [buf[offset+1..offset+1+length]])
  }

  function Lower(s: string): string {
    seq(|s|, i requires 0 <= i < |s| => if 'A' <= s[i] <= 'Z' then (s[i] as int + 32) as char else s[i])
  }

  /** The dotted name; `text` decodes the bytes of one label. */
  function JoinedName(labels: seq<seq<byte>>, text: seq<byte> -> string): string {
    if labels == [] then ""
    else if |labels| == 1 then Lower(text(labels[0]))
    else JoinedName(labels[..|labels|-1], text) + "." + Lower(text(labels[|labels|-1]))
  }

  function Parse(buf: seq<byte>, text: seq<byte> -> string): Option<Query> {
    if |buf| < HEADER || ReadU16(buf, 4) != 1 then None
    else
      var l := LabelsFrom(buf, HEADER, []);
      if l.None? || l.value.end + 4 > |buf| then None
      else
        var end := l.value.end;
        if end < HEADER then None
        else Some(Query(ReadU16(buf, 0), buf[2] / 8 % 16, buf[2] % 2 == 1, JoinedName(l.value.labels, text),
                        ReadU16(buf, end), ReadU16(buf, end + 2), buf[HEADER..end+4]))
  }

  method ParseQuery(buf: seq<byte>, text: seq<byte> -> string) returns (query: Option<Query>)
    ensures query == Parse(buf, text)
  {
    if |buf| < HEADER { return None; }
    var id := ReadU16(buf, 0);
    var opcode, recursionDesired := buf[2] / 8 % 16, buf[2] % 2 == 1;
    if ReadU16(buf, 4) != 1 { return None; }
    var offset: nat := HEADER;
    var labels: seq<seq<byte>> := [];
    while true
      invariant HEADER <= offset && LabelsFrom(buf, HEADER, []) == LabelsFrom(buf, offset, labels)
      decreases |buf| - offset
    {
      if offset >= |buf| { return None; }
      var length := buf[offset];
      offset := offset + 1;
      if length == 0 { break; }
      if length > 63 || |labels| > 32 { return None; }
      var end := offset + length;
      if end > |buf| { return None; }
      labels := labels + [buf[offset..end]];
      offset := end;
    }
    if offset + 2 > |buf| { return None; }
    var qtype := ReadU16(buf, offset);
    offset := offset + 2;
    if offset + 2 > |buf| { return None; }
    var qclass := ReadU16(buf, offset);
    offset := offset + 2;
    return Some(Query(id, opcode, recursionDesired, JoinedName(labels, text), qtype, qclass, buf[HEADER..offset]));
  }

  /** The label scan ends inside the message, after at most 33 labels of at most 64 octets. */
  lemma {:induction false} LabelsAreBounded(buf: seq<byte>, offset: nat, labels: seq<seq<byte>>)
    requires |labels| <= MAX_LABELS && LabelsFrom(buf, offset, labels).Some?
    ensures var l := LabelsFrom(buf, offset, labels).value;
            && offset < l.end <= |buf| && |labels| <= |l.labels| <= MAX_LABELS
            && l.end <= offset + 64 * (|l.labels| - |labels|) + 1
    decreases |buf| - offset
  {
    if buf[offset] != 0 {
      LabelsAreBounded(buf, offset + 1 + buf[offset], labels + [buf[offset+1..offset+1+buf[offset]]]);
    }
  }

  /** The label scan reads no byte outside the question. */
  lemma {:induction false} LabelsAreLocal(a: seq<byte>, b: seq<byte>, offset: nat, labels: seq<seq<byte>>)
    requires |labels| <= MAX_LABELS && LabelsFrom(a, offset, labels).Some?
    requires var end := LabelsFrom(a, offset, labels).value.end;
             end <= |a| && end <= |b| && forall i :: offset <= i < end ==> a[i] == b[i]
    ensures LabelsFrom(b, offset, labels) == LabelsFrom(a, offset, labels)
    decreases |a| - offset
  {
    LabelsAreBounded(a, offset, labels);
    var length := a[offset];
    if length != 0 {
      LabelsAreBounded(a, offset + 1 + length, labels + [a[offset+1..offset+1+length]]);
      assert a[offset+1..offset+1+length] == b[offset+1..offset+1+length];
      LabelsAreLocal(a, b, offset + 1 + length, labels + [a[offset+1..offset+1+length]]);
    }
  }

  // ----- encoding -----

  function Flag(b: bool, bit: nat): nat { if b then bit else 0 }

  function HeaderByte(q: Query, rcode: nat, answers: nat, truncated: bool, authoritative: bool, i: nat): byte
    requires q.id < 0x1_0000 && q.opcode < 16 && i < HEADER
  {
    match i
    case 0 => q.id / 256
    case 1 => q.id % 256
    case 2 => 128 + q.opcode * 8 + Flag(authoritative, 4) + Flag(truncated, 2) + Flag(q.recursionDesired, 1)
    case 3 => rcode % 16
    case 5 => 1
    case 6 => answers % 0x1_0000 / 256
    case 7 => answers % 0x1_0000 % 256
    case _ => 0
  }

  function Header(q: Query, rcode: nat, answers: nat, truncated: bool, authoritative: bool): seq<byte>
    requires q.id < 0x1_0000 && q.opcode < 16
  {
    seq(HEADER, i requires 0 <= i < HEADER => HeaderByte(q, rcode, answers, truncated, authoritative, i))
  }

  function AnswerByte(address: Ipv4, i: nat): byte {
    match i
    case 0 => 0xC0
    case 1 => 0x0C
    case 3 => QTYPE_A
    case 5 => QCLASS_IN
    case 9 => DEFAULT_TTL
    case 11 => 4
    case 12 => address.a
    case 13 => address.b
    case 14 => address.c
    case 15 => address.d
    case _ => 0
  }

  /** One resource record: a pointer to the question's name, type A, class IN, the TTL and the address. */
  function AnswerBytes(address: Ipv4): seq<byte> {
    seq(16, i requires 0 <= i < 16 => AnswerByte(address, i))
  }

  function AnswersBytes(answers: seq<Ipv4>): seq<byte> {
    if answers == [] then [] else AnswersBytes(answers[..|answers|-1]) + AnswerBytes(answers[|answers|-1])
  }

  function Encode(q: Query, rcode: nat, answers: seq<Ipv4>, truncated: bool, authoritative: bool): seq<byte>
    requires q.id < 0x1_0000 && q.opcode < 16
  {
    Header(q, rcode, |answers|, truncated, authoritative) + q.question + AnswersBytes(answers)
  }

  method EncodeResponse(q: Query, rcode: nat, answers: seq<Ipv4>, truncated: bool, authoritative: bool)
      returns (out: seq<byte>)
    requires q.id < 0x1_0000 && q.opcode < 16
    ensures out == Encode(q, rcode, answers, truncated, authoritative)
  {
    out := U16(q.id);
    var flags := 0x80 + q.opcode * 8;
    if authoritative { flags := flags + 0x04; }
    if truncated { flags := flags + 0x02; }
    if q.recursionDesired { flags := flags + 0x01; }
    out := out + [flags];
    out := out + [rcode % 16];
    out := out + U16(1);
    out := out + U16(|answers| % 0x1_0000);
    out := out + U16(0);
    out := out + U16(0);
    assert out == Header(q, rcode, |answers|, truncated, authoritative);
    out := out + q.question;
    ghost var start := out;
    for i := 0 to |answers|
      invariant out == start + AnswersBytes(answers[..i])
    {
      assert answers[..i+1][..i] == answers[..i];
      var record := EncodeAnswer(answers[i]);
      out := out + record;
    }
    assert answers[..|answers|] == answers;
  }

  method EncodeAnswer(address: Ipv4) returns (out: seq<byte>)
    ensures out == AnswerBytes(address)
  {
    out := [0xC0, 0x0C];
    out := out + U16(QTYPE_A);
    out := out + U16(QCLASS_IN);
    out := out + U32(DEFAULT_TTL);
    out := out + U16(4);
    out := out + [address.a, address.b, address.c, address.d];
  }

  lemma {:induction false} AnswersLength(answers: seq<Ipv4>)
    ensures |AnswersBytes(answers)| == 16 * |answers|
  {
    if answers != [] { AnswersLength(answers[..|answers|-1]); }
  }

  // ----- the codec's laws -----

  /** The length of a response: header, question, and 16 octets for each answer. */
  lemma EncodedLength(q: Query, rcode: nat, answers: seq<Ipv4>, truncated: bool, authoritative: bool)
    requires q.id < 0x1_0000 && q.opcode < 16
    ensures |Encode(q, rcode, answers, truncated, authoritative)| == HEADER + |q.question| + 16 * |answers|
  {
    AnswersLength(answers);
  }

  lemma ParsedIsEncodable(buf: seq<byte>, text: seq<byte> -> string)
    requires Parse(buf, text).Some?
    ensures var q := Parse(buf, text).value;
            q.id < 0x1_0000 && q.opcode < 16 && 5 <= |q.question| <= 64 * MAX_LABELS + 5
  {
    LabelsAreBounded(buf, HEADER, []);
  }

  /** The three parts of a response. */
  lemma EncodedLayout(q: Query, rcode: nat, answers: seq<Ipv4>, truncated: bool, authoritative: bool)
    requires q.id < 0x1_0000 && q.opcode < 16
    ensures var out := Encode(q, rcode, answers, truncated, authoritative);
            var h := Header(q, rcode, |answers|, truncated, authoritative);
            var at := HEADER + |q.question|;
            && |h| == HEADER && |out| == at + 16 * |answers|
            && out[..HEADER] == h && out[HEADER..at] == q.question && out[at..] == AnswersBytes(answers)
  {
    EncodedLength(q, rcode, answers, truncated, authoritative);
  }

  /** A message with the identification, the flags the parser reads, one question and the same question
      section parses alike, whatever else it holds. */
  lemma ParseIsLocal(a: seq<byte>, b: seq<byte>, text: seq<byte> -> string)
    requires Parse(a, text).Some?
    requires var q := Parse(a, text).value;
             && HEADER + |q.question| <= |b| && b[HEADER..HEADER+|q.question|] == q.question
             && ReadU16(b, 0) == q.id && ReadU16(b, 4) == 1
             && b[2] / 8 % 16 == q.opcode && (b[2] % 2 == 1 <==> q.recursionDesired)
    ensures Parse(b, text) == Parse(a, text)
  {
    LabelsAreBounded(a, HEADER, []);
    var end := LabelsFrom(a, HEADER, []).value.end;
    SliceAgrees(a, b, HEADER, end + 4);
    LabelsAreLocal(a, b, HEADER, []);
  }

  lemma SliceAgrees(a: seq<byte>, b: seq<byte>, from: nat, to: nat)
    requires from <= to <= |a| && to <= |b| && a[from..to] == b[from..to]
    ensures forall i :: from <= i < to ==> a[i] == b[i]
  {
    forall i | from <= i < to ensures a[i] == b[i] {
      assert a[i] == a[from..to][i-from] == b[from..to][i-from];
    }
  }

  /** Parsing any encoded response returns exactly the query it answers. */
  lemma ParseOfEncoded(buf: seq<byte>, text: seq<byte> -> string, rcode: nat, answers: seq<Ipv4>, truncated: bool,
                       authoritative: bool)
    requires Parse(buf, text).Some?
    ensures var q := Parse(buf, text).value;
            && q.id < 0x1_0000 && q.opcode < 16
            && Parse(Encode(q, rcode, answers, truncated, authoritative), text) == Some(q)
  {
    ParsedIsEncodable(buf, text);
    var q := Parse(buf, text).value;
    var out := Encode(q, rcode, answers, truncated, authoritative);
    var h := Header(q, rcode, |answers|, truncated, authoritative);
    EncodedLayout(q, rcode, answers, truncated, authoritative);
    HeaderOfEncoded(q, rcode, answers, truncated, authoritative);
    ParseIsLocal(buf, out, text);
  }

  lemma FieldsOfOctet(opcode: nat, a: nat, t: nat, d: nat)
    requires opcode < 16 && a < 2 && t < 2 && d < 2
    ensures var f := 128 + opcode * 8 + 4 * a + 2 * t + d;
            f / 128 == 1 && f / 8 % 16 == opcode && f / 4 % 2 == a && f / 2 % 2 == t && f % 2 == d
  {
    var f := 128 + opcode * 8 + 4 * a + 2 * t + d;
    assert f / 8 == 16 + opcode;
    assert f / 4 == 32 + 2 * opcode + a;
    assert f / 2 == 64 + 4 * opcode + 2 * a + t;
  }

  lemma FlagsRoundTrip(q: Query, truncated: bool, authoritative: bool)
    requires q.opcode < 16
    ensures var f := 128 + q.opcode * 8 + Flag(authoritative, 4) + Flag(truncated, 2) + Flag(q.recursionDesired, 1);
            && f / 8 % 16 == q.opcode && (f % 2 == 1 <==> q.recursionDesired) && f / 128 == 1
            && (f / 4 % 2 == 1 <==> authoritative) && (f / 2 % 2 == 1 <==> truncated)
  {
    FieldsOfOctet(q.opcode, Flag(authoritative, 1), Flag(truncated, 1), Flag(q.recursionDesired, 1));
  }

  /** The header of a response says it is one, repeats the flags and codes, and counts the sections. */
  lemma HeaderOfEncoded(q: Query, rcode: nat, answers: seq<Ipv4>, truncated: bool, authoritative: bool)
    requires q.id < 0x1_0000 && q.opcode < 16
    ensures var out := Encode(q, rcode, answers, truncated, authoritative);
            && |out| >= HEADER
            && ReadU16(out, 0) == q.id
            && out[2] / 128 == 1 && out[2] / 8 % 16 == q.opcode
            && (out[2] / 4 % 2 == 1 <==> authoritative) && (out[2] / 2 % 2 == 1 <==> truncated)
            && (out[2] % 2 == 1 <==> q.recursionDesired)
            && out[3] == rcode % 16
            && ReadU16(out, 4) == 1 && ReadU16(out, 6) == |answers| % 0x1_0000
            && ReadU16(out, 8) == 0 && ReadU16(out, 10) == 0
  {
    EncodedLayout(q, rcode, answers, truncated, authoritative);
    FlagsRoundTrip(q, truncated, authoritative);
    var out := Encode(q, rcode, answers, truncated, authoritative);
    var h := Header(q, rcode, |answers|, truncated, authoritative);
    assert forall i :: 0 <= i < HEADER ==> out[i] == out[..HEADER][i] == h[i];
  }

  /** A decoder for one resource record as this server writes them, defined on its own: a pointer to the question's
      name, type A, class IN, five seconds to live and four octets of address. */
  function ReadAnswer(buf: seq<byte>, at: nat): Option<Ipv4> {
    if at + 16 > |buf| then None
    else if ReadU16(buf, at) != 0xC00C || ReadU16(buf, at + 2) != 1 || ReadU16(buf, at + 4) != 1
            || ReadU32(buf, at + 6) != 5 || ReadU16(buf, at + 10) != 4 then None
    else Some(Ipv4(buf[at+12], buf[at+13], buf[at+14], buf[at+15]))
  }

  /** The results of a decoder at the places 0 to `count`, if it succeeds at all of them. */
  function Gather(read: nat -> Option<Ipv4>, count: nat): Option<seq<Ipv4>> {
    if count == 0 then Some([])
    else
      var before, last := Gather(read, count - 1), read(count - 1);
      if before.None? || last.None? then None else Some(before.value + [last.value])
  }

  function AnswerReader(buf: seq<byte>, at: nat): nat -> Option<Ipv4> {
    (i: nat) => ReadAnswer(buf, at + 16 * i)
  }

  function ReadAnswers(buf: seq<byte>, at: nat, count: nat): Option<seq<Ipv4>> {
    Gather(AnswerReader(buf, at), count)
  }

  lemma {:induction false} GatherAll(read: nat -> Option<Ipv4>, answers: seq<Ipv4>)
    requires forall i: nat :: i < |answers| ==> read(i) == Some(answers[i])
    ensures Gather(read, |answers|) == Some(answers)
  {
    if answers != [] {
      GatherAll(read, answers[..|answers|-1]);
      assert answers == answers[..|answers|-1] + [answers[|answers|-1]];
    }
  }

  lemma AnswerRoundTrips(buf: seq<byte>, at: nat, address: Ipv4)
    requires Holds(buf, at, AnswerBytes(address))
    ensures ReadAnswer(buf, at) == Some(address)
  {
    forall i | 0 <= i < 16 ensures buf[at+i] == AnswerByte(address, i) {
      assert buf[at..at+16][i] == AnswerBytes(address)[i];
    }
  }

  ghost predicate Holds(buf: seq<byte>, at: nat, bytes: seq<byte>) {
    at + |bytes| <= |buf| && buf[at..at+|bytes|] == bytes
  }

  lemma HoldsBoth(buf: seq<byte>, at: nat, a: seq<byte>, b: seq<byte>)
    requires Holds(buf, at, a + b)
    ensures Holds(buf, at, a) && Holds(buf, at + |a|, b)
  {
    var all := buf[at..at+|a + b|];
    assert buf[at..at+|a|] == all[..|a|];
    assert buf[at+|a|..at+|a|+|b|] == all[|a|..];
  }

  lemma AnswersBytesSplit(buf: seq<byte>, at: nat, answers: seq<Ipv4>)
    requires answers != [] && Holds(buf, at, AnswersBytes(answers))
    ensures var init := answers[..|answers|-1];
            Holds(buf, at, AnswersBytes(init)) && Holds(buf, at + 16 * |init|, AnswerBytes(answers[|answers|-1]))
  {
    var init := answers[..|answers|-1];
    AnswersLength(init);
    HoldsBoth(buf, at, AnswersBytes(init), AnswerBytes(answers[|answers|-1]));
  }

  lemma LastAnswerRoundTrips(buf: seq<byte>, at: nat, answers: seq<Ipv4>)
    requires answers != [] && Holds(buf, at, AnswersBytes(answers))
    ensures var init := answers[..|answers|-1];
            Holds(buf, at, AnswersBytes(init)) && ReadAnswer(buf, at + 16 * |init|) == Some(answers[|answers|-1])
  {
    var init := answers[..|answers|-1];
    AnswersBytesSplit(buf, at, answers);
    AnswerRoundTrips(buf, at + 16 * |init|, answers[|answers|-1]);
  }

  lemma {:induction false} AnswersAreRead(buf: seq<byte>, at: nat, answers: seq<Ipv4>)
    requires Holds(buf, at, AnswersBytes(answers))
    ensures forall i: nat :: i < |answers| ==> AnswerReader(buf, at)(i) == Some(answers[i])
  {
    if answers != [] {
      LastAnswerRoundTrips(buf, at, answers);
      AnswersAreRead(buf, at, answers[..|answers|-1]);
    }
  }

  lemma AnswersRoundTrip(buf: seq<byte>, at: nat, answers: seq<Ipv4>)
    requires Holds(buf, at, AnswersBytes(answers))
    ensures ReadAnswers(buf, at, |answers|) == Some(answers)
  {
    AnswersAreRead(buf, at, answers);
    GatherAll(AnswerReader(buf, at), answers);
  }

  /** The answer section of a response decodes to exactly the addresses it was given. */
  lemma AnswersOfEncoded(q: Query, rcode: nat, answers: seq<Ipv4>, truncated: bool, authoritative: bool)
    requires q.id < 0x1_0000 && q.opcode < 16
    ensures ReadAnswers(Encode(q, rcode, answers, truncated, authoritative), HEADER + |q.question|, |answers|) ==
              Some(answers)
  {
    var h := Header(q, rcode, |answers|, truncated, authoritative);
    assert |h| == HEADER;
    SuffixHolds(h + q.question, AnswersBytes(answers));
    AnswersRoundTrip(h + q.question + AnswersBytes(answers), HEADER + |q.question|, answers);
  }

  lemma SuffixHolds(a: seq<byte>, b: seq<byte>)
    ensures Holds(a + b, |a|, b)
  {
  }

  // ----- answering -----

  type Zone = map<string, seq<Ipv4>>

  function Truncate(answers: seq<Ipv4>): seq<Ipv4> {
    if |answers| > MAX_ANSWERS then answers[..MAX_ANSWERS] else answers
  }

  function AnswersFor(q: Query, zone: Zone): seq<Ipv4> {
    if q.name in zone && (q.qtype == QTYPE_A || q.qtype == QTYPE_ANY) then Truncate(zone[q.name]) else []
  }

  function Respond(buf: seq<byte>, zone: Zone, isUdp: bool, text: seq<byte> -> string): Option<seq<byte>> {
    var parsed := Parse(buf, text);
    if parsed.None? then None
    else
      ParsedIsEncodable(buf, text);
      var q := parsed.value;
      if q.opcode != 0 || q.qclass != QCLASS_IN then Some(Encode(q, RCODE_NOTIMP, [], false, true))
      else
        var rcode := if q.name in zone then RCODE_NOERROR else RCODE_NXDOMAIN;
        var full := Encode(q, rcode, AnswersFor(q, zone), false, true);
        if isUdp && |full| > MAX_UDP_RESPONSE_BYTES then Some(Encode(q, rcode, [], true, true)) else Some(full)
  }

  /** The first addresses of a list: all of them, or 64. */
  ghost predicate IsLeading(got: seq<Ipv4>, all: seq<Ipv4>) {
    got <= all && |got| == if |all| > 64 then 64 else |all|
  }

  /** The reply is an answer to the query in `buf`, whose question ends at `end`: the same identification, operation
      code, recursion flag and question. */
  ghost predicate Answers(buf: seq<byte>, out: seq<byte>, end: nat) {
    && HEADER <= end <= |buf| && end <= |out| && out[HEADER..end] == buf[HEADER..end]
    && out[0] == buf[0] && out[1] == buf[1]
    && out[2] / 128 == 1 && out[2] / 8 % 16 == buf[2] / 8 % 16 && out[2] % 2 == buf[2] % 2
  }

  /** The query whose question ends at `end` is of a kind the server supports, and asks for the name's addresses. */
  ghost predicate IsSupported(buf: seq<byte>, end: nat)
    requires HEADER + 4 < end <= |buf|
  {
    buf[2] / 8 % 16 == 0 && ReadU16(buf, end - 2) == 1
  }

  ghost predicate AsksAddresses(buf: seq<byte>, zone: Zone, name: string, end: nat)
    requires HEADER + 4 < end <= |buf|
  {
    IsSupported(buf, end) && name in zone && (ReadU16(buf, end - 4) == 1 || ReadU16(buf, end - 4) == 255)
  }

  /** What a reply must mean to a client that decodes it: it answers the query with authority; the code is NOTIMP,
      NXDOMAIN or NOERROR as query and zone demand; the addresses decoded are the first 64 of the name's, for types A
      and ANY, unless it is marked truncated, which it is exactly when a UDP reply with them would not fit; in all
      other cases there are none. */
  ghost predicate IsFaithful(buf: seq<byte>, zone: Zone, isUdp: bool, name: string, end: nat, out: seq<byte>) {
    && HEADER + 4 < end && Answers(buf, out, end) && out[2] / 4 % 2 == 1
    && var asked := AsksAddresses(buf, zone, name, end);
       var count := if !asked then 0 else if |zone[name]| > 64 then 64 else |zone[name]|;
       var got := ReadAnswers(out, end, ReadU16(out, 6));
       && out[3] == (if !IsSupported(buf, end) then 4 else if name in zone then 0 else 3)
       && (out[2] / 2 % 2 == 1 <==> isUdp && IsSupported(buf, end) && end + 16 * count > 512)
       && got.Some? && if asked && out[2] / 2 % 2 != 1 then IsLeading(got.value, zone[name]) else got.value == []
  }

  lemma FaithfulReply(buf: seq<byte>, zone: Zone, isUdp: bool, name: string, end: nat, out: seq<byte>, rcode: nat,
                      answers: seq<Ipv4>, truncated: bool, full: seq<Ipv4>)
    requires HEADER + 4 < end && Answers(buf, out, end) && DecodesAs(out, end - HEADER, rcode, answers, truncated, true)
    requires rcode == if !IsSupported(buf, end) then 4 else if name in zone then 0 else 3
    requires if AsksAddresses(buf, zone, name, end) then IsLeading(full, zone[name]) else full == []
    requires truncated <==> isUdp && IsSupported(buf, end) && end + 16 * |full| > 512
    requires answers == if truncated then [] else full
    ensures IsFaithful(buf, zone, isUdp, name, end, out)
  {
  }

  /** The reply as it is encoded. */
  lemma RespondsWith(q: Query, buf: seq<byte>, zone: Zone, isUdp: bool, text: seq<byte> -> string)
      returns (rcode: nat, full: seq<Ipv4>, truncated: bool)
    requires Parse(buf, text) == Some(q) && q.id < 0x1_0000 && q.opcode < 16
    ensures var supported := q.opcode == 0 && q.qclass == 1;
            && rcode == (if !supported then 4 else if q.name in zone then 0 else 3)
            && (if supported && q.name in zone && (q.qtype == 1 || q.qtype == 255)
                then IsLeading(full, zone[q.name]) else full == [])
            && (truncated <==> isUdp && supported && HEADER + |q.question| + 16 * |full| > 512)
    ensures Respond(buf, zone, isUdp, text) == Some(Encode(q, rcode, if truncated then [] else full, truncated, true))
  {
    if q.opcode != 0 || q.qclass != QCLASS_IN {
      rcode, full, truncated := RCODE_NOTIMP, [], false;
    } else {
      rcode := if q.name in zone then RCODE_NOERROR else RCODE_NXDOMAIN;
      full := AnswersFor(q, zone);
      EncodedLength(q, rcode, full, false, true);
      truncated := isUdp && HEADER + |q.question| + 16 * |full| > 512;
    }
  }

  lemma ReplyIsFaithful(buf: seq<byte>, zone: Zone, isUdp: bool, text: seq<byte> -> string, q: Query, rcode: nat,
                        full: seq<Ipv4>, truncated: bool, answers: seq<Ipv4>)
    requires Parse(buf, text) == Some(q) && q.id < 0x1_0000 && q.opcode < 16
    requires var supported := q.opcode == 0 && q.qclass == 1;
             && rcode == (if !supported then 4 else if q.name in zone then 0 else 3)
             && (if supported && q.name in zone && (q.qtype == 1 || q.qtype == 255)
                 then IsLeading(full, zone[q.name]) else full == [])
             && (truncated <==> isUdp && supported && HEADER + |q.question| + 16 * |full| > 512)
    requires answers == if truncated then [] else full
    ensures var out := Encode(q, rcode, answers, truncated, true);
            Parse(out, text) == Some(q) && IsFaithful(buf, zone, isUdp, q.name, HEADER + |q.question|, out)
  {
    DecodeAll(buf, text, rcode, answers, truncated, true);
    QuestionIsLast(buf, text);
    FaithfulReply(buf, zone, isUdp, q.name, HEADER + |q.question|, Encode(q, rcode, answers, truncated, true), rcode,
                  answers, truncated, full);
  }

  lemma RespondIsFaithful(buf: seq<byte>, zone: Zone, isUdp: bool, text: seq<byte> -> string)
    requires Parse(buf, text).Some?
    ensures Respond(buf, zone, isUdp, text).Some?
    ensures Parse(Respond(buf, zone, isUdp, text).value, text) == Parse(buf, text)
    ensures var q := Parse(buf, text).value;
            IsFaithful(buf, zone, isUdp, q.name, HEADER + |q.question|, Respond(buf, zone, isUdp, text).value)
  {
    ParsedIsEncodable(buf, text);
    var q := Parse(buf, text).value;
    var rcode, full, truncated := RespondsWith(q, buf, zone, isUdp, text);
    ReplyIsFaithful(buf, zone, isUdp, text, q, rcode, full, truncated, if truncated then [] else full);
  }

  /** Type and class are the last four octets of the question. */
  lemma QuestionIsLast(buf: seq<byte>, text: seq<byte> -> string)
    requires Parse(buf, text).Some?
    ensures var q := Parse(buf, text).value;
            var end := HEADER + |q.question|;
            && HEADER + 4 < end <= |buf| && q.question == buf[HEADER..end]
            && q.id == ReadU16(buf, 0) && q.opcode == buf[2] / 8 % 16 && (q.recursionDesired <==> buf[2] % 2 == 1)
            && q.qtype == ReadU16(buf, end - 4) && q.qclass == ReadU16(buf, end - 2)
  {
    LabelsAreBounded(buf, HEADER, []);
  }

  lemma SameIdentification(buf: seq<byte>, out: seq<byte>)
    requires |buf| >= 2 && |out| >= 2 && ReadU16(out, 0) == ReadU16(buf, 0)
    ensures out[0] == buf[0] && out[1] == buf[1]
  {
  }

  lemma DecodeAll(buf: seq<byte>, text: seq<byte> -> string, rcode: nat, answers: seq<Ipv4>, truncated: bool,
                  authoritative: bool)
    requires Parse(buf, text).Some? && |answers| < 0x1_0000 && rcode < 16
    ensures var q := Parse(buf, text).value;
            && q.id < 0x1_0000 && q.opcode < 16
            && var out := Encode(q, rcode, answers, truncated, authoritative);
               && Parse(out, text) == Some(q) && Answers(buf, out, HEADER + |q.question|)
               && DecodesAs(out, |q.question|, rcode, answers, truncated, authoritative)
  {
    ParsedIsEncodable(buf, text);
    var q := Parse(buf, text).value;
    QuestionIsLast(buf, text);
    ParseOfEncoded(buf, text, rcode, answers, truncated, authoritative);
    DecodesHeader(q, rcode, answers, truncated, authoritative);
    EncodedLayout(q, rcode, answers, truncated, authoritative);
    HeaderOfEncoded(q, rcode, answers, truncated, authoritative);
    SameIdentification(buf, Encode(q, rcode, answers, truncated, authoritative));
  }

  lemma DecodesHeader(q: Query, rcode: nat, answers: seq<Ipv4>, truncated: bool, authoritative: bool)
    requires q.id < 0x1_0000 && q.opcode < 16 && |answers| < 0x1_0000 && rcode < 16
    ensures DecodesAs(Encode(q, rcode, answers, truncated, authoritative), |q.question|, rcode, answers, truncated,
                      authoritative)
  {
    EncodedLength(q, rcode, answers, truncated, authoritative);
    DecodesCounts(q, rcode, answers, truncated, authoritative);
    AnswersOfEncoded(q, rcode, answers, truncated, authoritative);
  }

  lemma DecodesCounts(q: Query, rcode: nat, answers: seq<Ipv4>, truncated: bool, authoritative: bool)
    requires q.id < 0x1_0000 && q.opcode < 16 && |answers| < 0x1_0000 && rcode < 16
    ensures var out := Encode(q, rcode, answers, truncated, authoritative);
            && |out| >= HEADER && out[3] == rcode && ReadU16(out, 6) == |answers|
            && (out[2] / 2 % 2 == 1 <==> truncated) && (out[2] / 4 % 2 == 1 <==> authoritative)
  {
    HeaderOfEncoded(q, rcode, answers, truncated, authoritative);
  }

  /** Everything a client reads from a reply besides the query it repeats. */
  ghost predicate DecodesAs(out: seq<byte>, question: nat, rcode: nat, answers: seq<Ipv4>, truncated: bool,
                            authoritative: bool) {
    && |out| == HEADER + question + 16 * |answers|
    && out[3] == rcode && (out[2] / 2 % 2 == 1 <==> truncated) && (out[2] / 4 % 2 == 1 <==> authoritative)
    && ReadU16(out, 6) == |answers|
    && ReadAnswers(out, HEADER + question, |answers|) == Some(answers)
  }

  /** A UDP reply fits the classic 512 octets exactly when the question leaves room for the header; names
      within the 255 octets of section 2.3.4 of RFC 1035 always do. Every reply fits the two-octet length
      prefix of section 4.2.2. */
  lemma RepliesFit(buf: seq<byte>, zone: Zone, isUdp: bool, text: seq<byte> -> string)
    requires Respond(buf, zone, isUdp, text).Some?
    ensures var out := Respond(buf, zone, isUdp, text).value;
            Parse(buf, text).Some? &&
            var q := Parse(buf, text).value;
            && (isUdp ==> (|out| <= MAX_UDP_RESPONSE_BYTES <==> |q.question| <= MAX_UDP_RESPONSE_BYTES - HEADER))
            && (isUdp && |q.question| <= 255 + 4 ==> |out| <= MAX_UDP_RESPONSE_BYTES)
            && |out| < 0x1_0000
  {
    ParsedIsEncodable(buf, text);
    var q := Parse(buf, text).value;
    EncodedLength(q, RCODE_NOTIMP, [], false, true);
    var rcode := if q.name in zone then RCODE_NOERROR else RCODE_NXDOMAIN;
    EncodedLength(q, rcode, AnswersFor(q, zone), false, true);
    EncodedLength(q, rcode, [], true, true);
  }

  // ----- dispatch -----

  /** The names this server answers itself; the others are forwarded. */
  predicate IsAuthoritative(name: string) {
    name == "jiji" || (|name| >= 5 && name[|name|-5..] == ".jiji")
  }

  /** `handle_query`: a name of the zone is answered locally; for any other the forwarders' answer is relayed,
      or the failure of all of them reported. */
  function Handle(buf: seq<byte>, zone: Zone, forwarded: Option<seq<byte>>, isUdp: bool, text: seq<byte> -> string)
    : Option<seq<byte>>
  {
    var parsed := Parse(buf, text);
    if parsed.None? then None
    else if IsAuthoritative(parsed.value.name) then Respond(buf, zone, isUdp, text)
    else if forwarded.Some? then forwarded
    else
      ParsedIsEncodable(buf, text);
      Some(Encode(parsed.value, RCODE_SERVFAIL, [], false, false))
  }

  lemma AuthoritativeIff(name: string)
    ensures IsAuthoritative(name) <==> name == "jiji" || exists stem :: name == stem + ".jiji"
  {
    if |name| >= 5 { assert name == name[..|name|-5] + name[|name|-5..]; }
    if stem :| name == stem + ".jiji" { assert name[|name|-5..] == ".jiji"; }
  }

  /** The reply says that the server failed, without authority and without addresses. */
  ghost predicate IsFailure(buf: seq<byte>, end: nat, out: seq<byte>) {
    && Answers(buf, out, end) && out[3] == 2 && out[2] / 4 % 2 != 1 && out[2] / 2 % 2 != 1
    && ReadAnswers(out, end, ReadU16(out, 6)) == Some([])
  }

  /** A name of the zone is answered by `respond` whatever the forwarders would say. For any other name, whatever is
      in the zone, the forwarders' answer is relayed, and without one the failure reported. */
  lemma HandleIsFaithful(buf: seq<byte>, zone: Zone, forwarded: Option<seq<byte>>, isUdp: bool,
                         text: seq<byte> -> string)
    requires Parse(buf, text).Some?
    ensures var q := Parse(buf, text).value;
            var reply := Handle(buf, zone, forwarded, isUdp, text);
            if q.name == "jiji" || exists stem :: q.name == stem + ".jiji" then reply == Respond(buf, zone, isUdp, text)
            else if forwarded.Some? then reply == forwarded
            else reply.Some? && IsFailure(buf, HEADER + |q.question|, reply.value)
  {
    ParsedIsEncodable(buf, text);
    AuthoritativeIff(Parse(buf, text).value.name);
    DecodeAll(buf, text, RCODE_SERVFAIL, [], false, false);
  }
}
