/** The questions the server can be asked: which names some query carries, what the server answers to them,
    and which of them make a reply too long. */
module Queries {
  import opened Names
  import opened Dns
  import Catalog
  import ServedZone

  // ----- queries as clients write them -----

  ghost predicate ValidLabels(labels: seq<seq<byte>>) {
    forall i :: 0 <= i < |labels| ==> 1 <= |labels[i]| <= 63
  }

  /** A name on the wire: each label after its length, and the root label. */
  function Wire(labels: seq<seq<byte>>): seq<byte>
    requires forall i :: 0 <= i < |labels| ==> 1 <= |labels[i]| <= MAX_LABEL
  {
    if labels == [] then [0] else Octet(|labels[0]|) + labels[0] + Wire(labels[1..])
  }

  function Octet(n: nat): (o: seq<byte>)
    requires n < 256
    ensures |o| == 1 && o[0] == n
  {
    [n]
  }

  function Opening(): (h: seq<byte>)
    ensures |h| == HEADER && h[0] == h[1] == h[2] == h[4] == 0 && h[5] == 1
  {
    [0, 0, 0, 0, 0, 1, 0, 0, 0, 0, 0, 0]
  }

  function Closing(): (t: seq<byte>)
    ensures |t| == 4 && ReadU16(t, 0) == QTYPE_A && ReadU16(t, 2) == QCLASS_IN
  {
    [0, 1, 0, 1]
  }

  /** A standard query for the address of a name. */
  function QueryFor(labels: seq<seq<byte>>): seq<byte>
    requires forall i :: 0 <= i < |labels| ==> 1 <= |labels[i]| <= MAX_LABEL
  {
    Opening() + (Wire(labels) + Closing())
  }

  lemma HeadIsRead(buf: seq<byte>, at: nat, length: seq<byte>, octets: seq<byte>, rest: seq<byte>)
    requires |length| == 1 && Holds(buf, at, length + (octets + rest))
    ensures at < |buf| && buf[at] == length[0] && at + 1 + |octets| <= |buf|
    ensures buf[at+1..at+1+|octets|] == octets && Holds(buf, at + 1 + |octets|, rest)
  {
    HoldsBoth(buf, at, length, octets + rest);
    HoldsBoth(buf, at + 1, octets, rest);
    assert buf[at] == buf[at..at+1][0];
  }

  lemma WireUnfolds(labels: seq<seq<byte>>)
    requires ValidLabels(labels) && labels != []
    ensures Wire(labels) == Octet(|labels[0]|) + (labels[0] + Wire(labels[1..]))
  {
    assert Octet(|labels[0]|) + labels[0] + Wire(labels[1..]) == Octet(|labels[0]|) + (labels[0] + Wire(labels[1..]));
  }

  lemma ScanOne(buf: seq<byte>, at: nat, before: seq<seq<byte>>, octets: seq<byte>)
    requires 1 <= |octets| <= MAX_LABEL && |before| < MAX_LABELS
    requires at + 1 + |octets| <= |buf| && buf[at] == |octets| && buf[at+1..at+1+|octets|] == octets
    ensures LabelsFrom(buf, at, before) == LabelsFrom(buf, at + 1 + |octets|, before + [octets])
  {
  }

  lemma {:induction false} LabelsOfWire(buf: seq<byte>, at: nat, before: seq<seq<byte>>, labels: seq<seq<byte>>)
    requires ValidLabels(labels) && |before| + |labels| <= MAX_LABELS && Holds(buf, at, Wire(labels))
    ensures LabelsFrom(buf, at, before) == Some(Labels(before + labels, at + |Wire(labels)|))
    decreases |labels|
  {
    if labels == [] {
      assert buf[at] == buf[at..at+1][0] == 0;
      assert before + labels == before;
    } else {
      var octets, rest := labels[0], Wire(labels[1..]);
      WireUnfolds(labels);
      HeadIsRead(buf, at, Octet(|octets|), octets, rest);
      ScanOne(buf, at, before, octets);
      LabelsOfWire(buf, at + 1 + |octets|, before + [octets], labels[1..]);
      assert before + [octets] + labels[1..] == before + labels;
    }
  }

  /** The header of a standard query, and what follows the name in a question for an address. */
  ghost predicate IsOpening(o: seq<byte>) {
    |o| == HEADER && ReadU16(o, 0) == 0 && ReadU16(o, 4) == 1 && o[2] == 0
  }

  ghost predicate IsClosing(c: seq<byte>) {
    |c| == 4 && ReadU16(c, 0) == QTYPE_A && ReadU16(c, 2) == QCLASS_IN
  }

  lemma OpeningIsRead(opening: seq<byte>, question: seq<byte>)
    requires IsOpening(opening)
    ensures var buf := opening + question; ReadU16(buf, 0) == 0 && ReadU16(buf, 4) == 1 && buf[2] == 0
  {
    var buf := opening + question;
    assert buf[0] == opening[0] && buf[1] == opening[1] && buf[4] == opening[4] && buf[5] == opening[5];
  }

  lemma ClosingIsRead(buf: seq<byte>, at: nat, closing: seq<byte>)
    requires IsClosing(closing) && Holds(buf, at, closing)
    ensures at + 4 <= |buf| && ReadU16(buf, at) == QTYPE_A && ReadU16(buf, at + 2) == QCLASS_IN
  {
    forall i | 0 <= i < 4 ensures buf[at+i] == closing[i] {
      assert buf[at+i] == buf[at..at+4][i];
    }
  }

  lemma NameIsRead(buf: seq<byte>, labels: seq<seq<byte>>, wire: seq<byte>, rest: seq<byte>)
    requires ValidLabels(labels) && |labels| <= MAX_LABELS && wire == Wire(labels) && Holds(buf, HEADER, wire + rest)
    ensures LabelsFrom(buf, HEADER, []) == Some(Labels(labels, HEADER + |wire|))
  {
    HoldsBoth(buf, HEADER, wire, rest);
    LabelsOfWire(buf, HEADER, [], labels);
    assert [] + labels == labels;
  }

  lemma EndIsRead(buf: seq<byte>, wire: seq<byte>, closing: seq<byte>)
    requires IsClosing(closing) && Holds(buf, HEADER, wire + closing)
    ensures var end := HEADER + |wire|;
            && end + 4 <= |buf| && ReadU16(buf, end) == QTYPE_A && ReadU16(buf, end + 2) == QCLASS_IN
            && buf[HEADER..end+4] == wire + closing
  {
    HoldsBoth(buf, HEADER, wire, closing);
    ClosingIsRead(buf, HEADER + |wire|, closing);
  }

  lemma ParseOfParts(buf: seq<byte>, labels: seq<seq<byte>>, end: nat, question: seq<byte>, text: seq<byte> -> string)
    requires HEADER <= end && end + 4 <= |buf| && ReadU16(buf, 0) == 0 && ReadU16(buf, 4) == 1 && buf[2] == 0
    requires LabelsFrom(buf, HEADER, []) == Some(Labels(labels, end)) && buf[HEADER..end+4] == question
    requires ReadU16(buf, end) == QTYPE_A && ReadU16(buf, end + 2) == QCLASS_IN
    ensures Parse(buf, text) == Some(Query(0, 0, false, JoinedName(labels, text), QTYPE_A, QCLASS_IN, question))
  {
    assert buf[2] / 8 % 16 == 0 && buf[2] % 2 == 0;
  }

  lemma ParseOfAssembled(labels: seq<seq<byte>>, opening: seq<byte>, wire: seq<byte>, closing: seq<byte>,
                         text: seq<byte> -> string)
    requires ValidLabels(labels) && |labels| <= MAX_LABELS && wire == Wire(labels)
    requires IsOpening(opening) && IsClosing(closing)
    ensures Parse(opening + (wire + closing), text) ==
            Some(Query(0, 0, false, JoinedName(labels, text), QTYPE_A, QCLASS_IN, wire + closing))
  {
    var buf := opening + (wire + closing);
    SuffixHolds(opening, wire + closing);
    OpeningIsRead(opening, wire + closing);
    NameIsRead(buf, labels, wire, closing);
    EndIsRead(buf, wire, closing);
    ParseOfParts(buf, labels, HEADER + |wire|, wire + closing, text);
  }

  /** A query a client writes parses to the name it was written for. */
  lemma ParseOfQueryFor(labels: seq<seq<byte>>, text: seq<byte> -> string)
    requires ValidLabels(labels) && |labels| <= MAX_LABELS
    ensures Parse(QueryFor(labels), text) ==
            Some(Query(0, 0, false, JoinedName(labels, text), QTYPE_A, QCLASS_IN, Wire(labels) + Closing()))
  {
    ParseOfAssembled(labels, Opening(), Wire(labels), Closing(), text);
  }

  /** The labels any query parses to. */
  lemma {:induction false} ScannedAreValid(buf: seq<byte>, at: nat, labels: seq<seq<byte>>)
    requires |labels| <= MAX_LABELS && ValidLabels(labels) && LabelsFrom(buf, at, labels).Some?
    ensures var l := LabelsFrom(buf, at, labels).value.labels; ValidLabels(l) && |l| <= MAX_LABELS
    decreases |buf| - at
  {
    if buf[at] != 0 {
      ScannedAreValid(buf, at + 1 + buf[at], labels + [buf[at+1..at+1+buf[at]]]);
    }
  }

  /** The labels a scan finds are written there. */
  lemma {:induction false} ScannedIsWire(buf: seq<byte>, at: nat, before: seq<seq<byte>>)
      returns (labels: seq<seq<byte>>)
    requires |before| <= MAX_LABELS && LabelsFrom(buf, at, before).Some?
    ensures ValidLabels(labels) && Holds(buf, at, Wire(labels))
    ensures LabelsFrom(buf, at, before).value == Labels(before + labels, at + |Wire(labels)|)
    decreases |buf| - at
  {
    labels := [];
    if buf[at] == 0 {
      assert Wire(labels) == [0] && buf[at..at+1] == [buf[at]];
      assert before + labels == before;
    } else {
      var octets := buf[at+1..at+1+buf[at]];
      ScanOne(buf, at, before, octets);
      var rest := ScannedIsWire(buf, at + 1 + |octets|, before + [octets]);
      labels := [octets] + rest;
      WirePrepends(buf, at, octets, rest);
      assert before + [octets] + rest == before + labels;
    }
  }

  lemma WirePrepends(buf: seq<byte>, at: nat, octets: seq<byte>, rest: seq<seq<byte>>)
    requires 1 <= |octets| <= 63 && ValidLabels(rest)
    requires at + 1 + |octets| <= |buf| && buf[at] == |octets| && buf[at+1..at+1+|octets|] == octets
    requires Holds(buf, at + 1 + |octets|, Wire(rest))
    ensures ValidLabels([octets] + rest) && Holds(buf, at, Wire([octets] + rest))
    ensures |Wire([octets] + rest)| == 1 + |octets| + |Wire(rest)|
  {
    var labels := [octets] + rest;
    assert labels[1..] == rest;
    WireUnfolds(labels);
    HoldsHead(buf, at, octets, Wire(rest));
  }

  lemma HoldsHead(buf: seq<byte>, at: nat, octets: seq<byte>, rest: seq<byte>)
    requires at + 1 + |octets| <= |buf| && |octets| < 256 && buf[at] == |octets|
    requires buf[at+1..at+1+|octets|] == octets && Holds(buf, at + 1 + |octets|, rest)
    ensures Holds(buf, at, Octet(|octets|) + (octets + rest))
  {
    var n := |octets|;
    assert buf[at..at+1] == Octet(n);
    assert buf[at+1..at+1+n+|rest|] == buf[at+1..at+1+n] + buf[at+1+n..at+1+n+|rest|];
    assert buf[at..at+1+n+|rest|] == buf[at..at+1] + buf[at+1..at+1+n+|rest|];
  }

  /** A message is a question for the name with these labels. */
  ghost predicate IsQuestion(buf: seq<byte>, labels: seq<seq<byte>>) {
    && |buf| >= HEADER && buf[4] == 0 && buf[5] == 1
    && ValidLabels(labels) && |labels| <= 33
    && Holds(buf, HEADER, Wire(labels)) && HEADER + |Wire(labels)| + 4 <= |buf|
  }

  /** For every message: it parses if and only if it counts one question and holds, after the header, a name of at
      most 33 labels of 1 to 63 octets, the root label and four more octets; and it parses to the name these labels
      join to. */
  lemma ParsesIff(buf: seq<byte>, text: seq<byte> -> string)
    ensures Parse(buf, text).Some? <==> exists labels :: IsQuestion(buf, labels)
    ensures forall labels :: IsQuestion(buf, labels) ==>
              Parse(buf, text).Some? && Parse(buf, text).value.name == Joined(PiecesOf(labels, text))
  {
    if Parse(buf, text).Some? {
      ScannedAreValid(buf, HEADER, []);
      LabelsAreBounded(buf, HEADER, []);
      var labels := ScannedIsWire(buf, HEADER, []);
      assert [] + labels == labels;
      assert IsQuestion(buf, labels);
    }
    forall labels | IsQuestion(buf, labels)
      ensures Parse(buf, text).Some? && Parse(buf, text).value.name == Joined(PiecesOf(labels, text))
    {
      LabelsOfWire(buf, HEADER, [], labels);
      assert [] + labels == labels;
      JoinedNameIsJoined(labels, text);
    }
  }

  ghost predicate Asks(buf: seq<byte>, name: string, text: seq<byte> -> string) {
    Parse(buf, text).Some? && Parse(buf, text).value.name == name
  }

  // ----- the names some query carries -----

  predicate IsAscii(s: string) { forall c :: c in s ==> c as int < 128 }

  predicate IsLower(s: string) { forall c :: c in s ==> !('A' <= c <= 'Z') }

  predicate IsAsciiLabel(l: seq<byte>) { forall b :: b in l ==> b < 128 }

  function Chars(l: seq<byte>): string { seq(|l|, i requires 0 <= i < |l| => l[i] as char) }

  /** What the proofs use of decoding a label as UTF-8 with replacement: octets below 128 stand for
      themselves, and any other octet leaves a character that is not ASCII. */
  ghost predicate DecodesUtf8(text: seq<byte> -> string) {
    && (forall l :: IsAsciiLabel(l) ==> text(l) == Chars(l))
    && (forall l :: !IsAsciiLabel(l) ==> !IsAscii(text(l)))
  }

  function Joined(pieces: seq<string>): string {
    if pieces == [] then ""
    else if |pieces| == 1 then pieces[0]
    else Joined(pieces[..|pieces|-1]) + "." + pieces[|pieces|-1]
  }

  /** The name is at most 33 pieces of 1 to 63 characters with dots between them; a piece may hold dots. */
  ghost predicate IsCut(pieces: seq<string>, name: string) {
    && |pieces| <= 33 && (forall i :: 0 <= i < |pieces| ==> 1 <= |pieces[i]| <= 63)
    && Joined(pieces) == name
  }

  function CharOctet(c: char): byte { if c as int < 128 then c as int else 0 }

  function OctetsOf(s: string): seq<byte> { seq(|s|, i requires 0 <= i < |s| => CharOctet(s[i])) }

  lemma OctetsDecode(s: string, text: seq<byte> -> string)
    requires IsAscii(s) && IsLower(s) && DecodesUtf8(text)
    ensures Lower(text(OctetsOf(s))) == s
  {
    var l := OctetsOf(s);
    assert forall i :: 0 <= i < |s| ==> s[i] in s;
    assert IsAsciiLabel(l);
    assert Chars(l) == s;
    assert Lower(s) == s;
  }

  lemma JoinedParts(pieces: seq<string>)
    requires pieces != []
    ensures var init, last := pieces[..|pieces|-1], pieces[|pieces|-1];
            Joined(pieces) == (if init == [] then last else Joined(init) + "." + last)
  {
  }

  /** The octets of the pieces, as labels. */
  ghost function LabelsFor(pieces: seq<string>): seq<seq<byte>> {
    seq(|pieces|, i requires 0 <= i < |pieces| => OctetsOf(pieces[i]))
  }

  lemma {:induction false} LabelsDecode(pieces: seq<string>, text: seq<byte> -> string)
    requires DecodesUtf8(text) && forall i :: 0 <= i < |pieces| ==> IsAscii(pieces[i]) && IsLower(pieces[i])
    ensures JoinedName(LabelsFor(pieces), text) == Joined(pieces)
  {
    if pieces != [] {
      var init, last := pieces[..|pieces|-1], pieces[|pieces|-1];
      OctetsDecode(last, text);
      LabelsDecode(init, text);
      assert LabelsFor(pieces)[..|pieces|-1] == LabelsFor(init);
      assert LabelsFor(pieces)[|pieces|-1] == OctetsOf(last);
    }
  }

  ghost function PiecesOf(labels: seq<seq<byte>>, text: seq<byte> -> string): seq<string> {
    seq(|labels|, i requires 0 <= i < |labels| => Lower(text(labels[i])))
  }

  lemma {:induction false} JoinedNameIsJoined(labels: seq<seq<byte>>, text: seq<byte> -> string)
    ensures JoinedName(labels, text) == Joined(PiecesOf(labels, text))
  {
    if |labels| > 1 {
      JoinedNameIsJoined(labels[..|labels|-1], text);
      assert PiecesOf(labels, text)[..|labels|-1] == PiecesOf(labels[..|labels|-1], text);
    }
  }

  lemma {:induction false} PiecesAreInName(pieces: seq<string>, i: nat)
    requires i < |pieces|
    ensures forall c :: c in pieces[i] ==> c in Joined(pieces)
  {
    JoinedParts(pieces);
    if i < |pieces| - 1 { PiecesAreInName(pieces[..|pieces|-1], i); }
  }

  lemma {:induction false} JoinedIsLower(pieces: seq<string>)
    requires forall i :: 0 <= i < |pieces| ==> IsLower(pieces[i])
    ensures IsLower(Joined(pieces))
  {
    if pieces != [] {
      JoinedParts(pieces);
      JoinedIsLower(pieces[..|pieces|-1]);
    }
  }

  lemma LowerIsLower(s: string)
    ensures IsLower(Lower(s)) && (IsAscii(Lower(s)) <==> IsAscii(s)) && |Lower(s)| == |s|
  {
    assert forall i :: 0 <= i < |s| ==> s[i] in s && Lower(s)[i] in Lower(s);
    forall c | c in Lower(s) ensures !('A' <= c <= 'Z') {
      var i :| 0 <= i < |s| && Lower(s)[i] == c;
    }
    if IsAscii(s) {
      forall c | c in Lower(s) ensures c as int < 128 {
        var i :| 0 <= i < |s| && Lower(s)[i] == c;
      }
    }
    if IsAscii(Lower(s)) {
      forall c | c in s ensures c as int < 128 {
        var i :| 0 <= i < |s| && s[i] == c;
      }
    }
  }

  lemma AskedIsCut(buf: seq<byte>, name: string, text: seq<byte> -> string)
    requires Asks(buf, name, text) && IsAscii(name) && DecodesUtf8(text)
    ensures IsLower(name) && exists pieces :: IsCut(pieces, name)
  {
    var labels := LabelsFrom(buf, HEADER, []).value.labels;
    ScannedAreValid(buf, HEADER, []);
    JoinedNameIsJoined(labels, text);
    var pieces := PiecesOf(labels, text);
    forall i | 0 <= i < |pieces| ensures IsLower(pieces[i]) && 1 <= |pieces[i]| <= MAX_LABEL {
      PiecesAreInName(pieces, i);
      LowerIsLower(text(labels[i]));
      assert pieces[i] == Lower(text(labels[i])) && IsAscii(pieces[i]) && IsAscii(text(labels[i]));
      assert IsAsciiLabel(labels[i]) && text(labels[i]) == Chars(labels[i]);
    }
    JoinedIsLower(pieces);
    assert IsCut(pieces, name);
  }

  /** For every decoder of labels that is UTF-8 with replacement and every ASCII name: some query carries the
      name if and only if it has no upper-case letter and can be cut into labels. */
  lemma AskableIff(name: string, text: seq<byte> -> string)
    requires IsAscii(name) && DecodesUtf8(text)
    ensures (exists buf :: Asks(buf, name, text)) <==> IsLower(name) && exists pieces :: IsCut(pieces, name)
  {
    if buf :| Asks(buf, name, text) { AskedIsCut(buf, name, text); }
    if IsLower(name) && exists pieces :: IsCut(pieces, name) {
      var pieces :| IsCut(pieces, name);
      var buf := AskingFor(pieces, name, text);
    }
  }

  /** A standard query for the address of such a name. */
  lemma AskingFor(pieces: seq<string>, name: string, text: seq<byte> -> string) returns (buf: seq<byte>)
    requires IsCut(pieces, name) && IsAscii(name) && IsLower(name) && DecodesUtf8(text)
    ensures Asks(buf, name, text)
    ensures var q := Parse(buf, text).value; q.opcode == 0 && q.qtype == QTYPE_A && q.qclass == QCLASS_IN
  {
    forall i | 0 <= i < |pieces| ensures IsAscii(pieces[i]) && IsLower(pieces[i]) {
      PiecesAreInName(pieces, i);
    }
    LabelsDecode(pieces, text);
    var labels := LabelsFor(pieces);
    buf := QueryFor(labels);
    ParseOfQueryFor(labels, text);
  }

  // ----- what the server answers to them -----

  lemma ManyPiecesHaveDots(pieces: seq<string>)
    requires |pieces| >= 2
    ensures '.' in Joined(pieces)
  {
    JoinedParts(pieces);
    assert Joined(pieces)[|Joined(pieces[..|pieces|-1])|] == '.';
  }

  /** A name below `jiji` with no other dot can be cut into labels if and only if its first part is at most as
      long as one. */
  lemma StemIsCutIff(stem: string)
    requires '.' !in stem
    ensures (exists pieces :: IsCut(pieces, stem + ".jiji")) <==> |stem| <= MAX_LABEL
  {
    if |stem| <= MAX_LABEL {
      var pieces := if stem == "" then [".jiji"] else [stem, "jiji"];
      JoinedParts(pieces);
      assert stem != "" ==> pieces[..1] == [stem];
      assert IsCut(pieces, stem + ".jiji");
    }
    if pieces :| IsCut(pieces, stem + ".jiji") { CutStemIsShort(stem, pieces); }
  }

  lemma CutStemIsShort(stem: string, pieces: seq<string>)
    requires '.' !in stem && IsCut(pieces, stem + ".jiji")
    ensures |stem| <= MAX_LABEL
  {
    JoinedParts(pieces);
    if |pieces| > 1 {
      var init, last := pieces[..|pieces|-1], pieces[|pieces|-1];
      OnlyDot(stem, Joined(init), last);
      if |init| > 1 { ManyPiecesHaveDots(init); }
      assert init[0] == pieces[0];
    }
  }

  lemma OnlyDot(stem: string, first: string, last: string)
    requires '.' !in stem && stem + ".jiji" == first + "." + last
    ensures first == stem
  {
    var name := stem + ".jiji";
    assert name[|first|] == '.';
    assert forall i :: 0 <= i < |stem| ==> name[i] == stem[i] && stem[i] in stem;
    assert forall i :: |stem| <= i < |name| ==> name[i] == ".jiji"[i-|stem|];
    assert |first| == |stem|;
    assert first == name[..|first|] && stem == name[..|stem|];
  }

  /** The server's reply over TCP to a query for the name is a success that decodes to the first of these addresses:
      all of them, or 64. */
  ghost predicate AnsweredWith(buf: seq<byte>, zone: Zone, forwarded: Option<seq<byte>>, text: seq<byte> -> string,
                               name: string, addresses: seq<Ipv4>) {
    && Asks(buf, name, text)
    && var reply := Handle(buf, zone, forwarded, false, text);
       && reply.Some? && |reply.value| >= HEADER && reply.value[3] == 0
       && var got := ReadAnswers(reply.value, HEADER + |Parse(buf, text).value.question|, ReadU16(reply.value, 6));
          got.Some? && IsLeading(got.value, addresses)
  }

  /** For every zone and ASCII name of it below `jiji` with no other dot: some query is answered with the name's
      addresses, the first 64 of them, if and only if the name has no upper-case letter and its first part has
      at most 63 characters; otherwise no query even asks for it. */
  lemma AnsweredIff(zone: Zone, forwarded: Option<seq<byte>>, text: seq<byte> -> string, stem: string)
    requires DecodesUtf8(text) && IsAscii(stem) && '.' !in stem && stem + ".jiji" in zone
    ensures var name := stem + ".jiji";
            var answerable := IsLower(stem) && |stem| <= MAX_LABEL;
            && (answerable <==> exists buf :: AnsweredWith(buf, zone, forwarded, text, name, zone[name]))
            && (!answerable ==> forall buf :: !Asks(buf, name, text))
  {
    var name := stem + ".jiji";
    assert forall c :: c in name <==> c in stem || c in ".jiji";
    AskableIff(name, text);
    StemIsCutIff(stem);
    assert IsLower(name) <==> IsLower(stem);
    if IsLower(stem) && |stem| <= MAX_LABEL {
      var pieces :| IsCut(pieces, name);
      var buf := AskingFor(pieces, name, text);
      StandardAnswer(buf, zone, forwarded, text, name);
    }
  }

  lemma StandardAnswer(buf: seq<byte>, zone: Zone, forwarded: Option<seq<byte>>, text: seq<byte> -> string,
                       name: string)
    requires Asks(buf, name, text) && IsAuthoritative(name) && name in zone
    requires var q := Parse(buf, text).value; q.opcode == 0 && q.qtype == QTYPE_A && q.qclass == QCLASS_IN
    ensures AnsweredWith(buf, zone, forwarded, text, name, zone[name])
  {
    QuestionIsLast(buf, text);
    RespondIsFaithful(buf, zone, false, text);
  }

  /** For every served record of a project and service with ASCII names without dots: the service's aggregate name is
      in the zone with the addresses of the reachable served records that publish it, in replica order, and some
      query for it is answered with the first 64 of them if and only if project and service have no upper-case letter
      and together with the hyphen at most 63 characters. */
  lemma ServiceIsAnsweredIff(project: string, served: seq<Catalog.Record>, reachable: string -> bool, zone: Zone,
                             forwarded: Option<seq<byte>>, text: seq<byte> -> string, w: Catalog.Record)
    requires DecodesUtf8(text) && ServedZone.IsZone(project, served, reachable, zone)
    requires w in served && reachable(w.ownerNodeId)
    requires IsAscii(project) && IsAscii(w.service) && '.' !in project && '.' !in w.service
    ensures var name := project + "-" + w.service + ".jiji";
            && name in zone && (exists places :: ServedZone.Lists(project, served, reachable, name, places, zone[name]))
            && ((exists buf :: AnsweredWith(buf, zone, forwarded, text, name, zone[name])) <==>
                  IsLower(project) && IsLower(w.service) && |project| + 1 + |w.service| <= MAX_LABEL)
  {
    var stem, name := project + "-" + w.service, project + "-" + w.service + ".jiji";
    assert name == stem + ".jiji";
    assert forall c :: c in stem <==> c in project || c == '-' || c in w.service;
    assert ServedZone.IsListed(project, w, reachable, name);
    ServedZone.ZoneLists(project, served, reachable, zone, name);
    AnsweredIff(zone, forwarded, text, stem);
  }

  // ----- questions longer than a UDP reply -----

  const JIJI: seq<byte> := [106, 105, 106, 105]

  /** `n` labels of the greatest length and the label of the zone. */
  ghost function LongLabels(n: nat): seq<seq<byte>> {
    seq(n, i => seq(MAX_LABEL, j => 97)) + [JIJI]
  }

  lemma {:induction false} LongWire(n: nat)
    ensures ValidLabels(LongLabels(n)) && |Wire(LongLabels(n))| == 64 * n + 6
  {
    var labels := LongLabels(n);
    assert labels[|labels|-1] == JIJI;
    if n == 0 {
      assert labels == [JIJI] && labels[1..] == [];
      assert Wire(labels) == Octet(4) + JIJI + Wire([]);
    } else {
      LongWire(n - 1);
      assert labels[1..] == LongLabels(n - 1);
      assert |labels[0]| == MAX_LABEL;
    }
  }

  /** The parser admits names of up to 33 labels, so a UDP reply to a name of the zone can exceed 512 octets: from
      eight labels of the greatest length before `jiji` on it does, for every zone and whatever the forwarders
      would say. */
  lemma LongNamesOverflowUdp(n: nat, zone: Zone, forwarded: Option<seq<byte>>, text: seq<byte> -> string)
    requires 8 <= n < MAX_LABELS && text(JIJI) == "jiji"
    ensures var buf := QueryFor(LongLabels(n));
            && Parse(buf, text).Some? && IsAuthoritative(Parse(buf, text).value.name)
            && Handle(buf, zone, forwarded, true, text).Some?
            && |Handle(buf, zone, forwarded, true, text).value| > MAX_UDP_RESPONSE_BYTES
  {
    var labels := LongLabels(n);
    LongWire(n);
    ParseOfQueryFor(labels, text);
    assert labels[|labels|-1] == JIJI;
    assert Lower("jiji") == "jiji";
    var name := JoinedName(labels, text);
    assert name == JoinedName(labels[..|labels|-1], text) + "." + "jiji";
    assert name[|name|-5..] == ".jiji";
    RepliesFit(QueryFor(labels), zone, true, text);
  }
}
