/** Writing message heads: the framing fields of the message are dropped, and the one that describes
    the body about to be written takes their place. */
module HeadWriter {
  import opened Bytes
  import opened Results
  import opened FieldSection
  import opened FieldSelect
  import opened BodyErrors
  import opened Lists
  import H = Headers
  import opened ChunkedCoding
  import opened Endpoints
  import W = BodyWriters
  import F = Forwarder

  datatype WriteFraming =
    | Length(length: u64)
    | Chunked
    | PreserveFraming
    | StripFraming

  const FRAMING_HEADERS: seq<Bytes> := [H.CONTENT_LENGTH, H.TRANSFER_ENCODING]

  /** The fields of the message that are not written: none when its framing is preserved. */
  function Dropped(framing: WriteFraming, mayPreserve: bool): seq<Bytes> {
    if mayPreserve && framing.PreserveFraming? then [] else FRAMING_HEADERS
  }

  function FramingField(framing: WriteFraming): seq<Field> {
    match framing
    case Length(n) => [Field(H.CONTENT_LENGTH, Decimal(n))]
    case Chunked => [Field(H.TRANSFER_ENCODING, H.CHUNKED)]
    case PreserveFraming => []
    case StripFraming => []
  }

  /** The fields of the emitted head. */
  function Emitted(fs: seq<Field>, framing: WriteFraming, mayPreserve: bool): seq<Field> {
    Without(fs, Dropped(framing, mayPreserve)) + FramingField(framing)
  }

  /** "HTTP/1.1" */
  const HTTP_1_1: Bytes := [72, 84, 84, 80, 47, 49, 46, 49]

  function StatusLine(code: nat, reason: Bytes): Bytes {
    HTTP_1_1 + [SP] + Decimal(code) + [SP] + reason + CRLF
  }

  function RequestLine(verb: Bytes, path: Bytes): Bytes {
    verb + [SP] + path + [SP] + HTTP_1_1 + CRLF
  }

  method WriteAll(sink: Sink, buf: Bytes) returns (r: Result<Unit, IoError>)
    modifies sink
    ensures old(sink.wire) <= sink.wire <= old(sink.wire) + buf
    ensures r.Ok? ==> sink.wire == old(sink.wire) + buf
    ensures sink.Sound() ==> r.Ok?
  {
    var done := 0;
    while done < |buf|
      invariant done <= |buf| && sink.wire == old(sink.wire) + buf[..done]
      decreases |buf| - done, sink.patience
    {
      var p := sink.PollWrite(buf[done..]);
      match p {
        case Pending =>
        case Ready(Err(e)) =>
          return Err(e);
        case Ready(Ok(n)) =>
          if n == 0 {
            return Err(WriteZero);
          }
          assert buf[..done] + buf[done..][..n] == buf[..done + n];
          done := done + n;
      }
    }
    return Ok(Unit.Unit);
  }

  method FlushAll(sink: Sink) returns (r: Result<Unit, IoError>)
    modifies sink
    ensures sink.wire == old(sink.wire)
    ensures r.Ok? ==> sink.flushed == |sink.wire|
    ensures sink.Sound() ==> r.Ok?
  {
    while true
      invariant sink.wire == old(sink.wire)
      decreases sink.patience
    {
      var p := sink.PollFlush();
      if p.Ready? {
        return p.value;
      }
    }
  }

  /** The fields that are kept, each on its line. */
  method WriteKept(sink: Sink, headers: seq<Field>, dropped: seq<Bytes>) returns (r: Result<Unit, IoError>)
    modifies sink
    ensures old(sink.wire) <= sink.wire <= old(sink.wire) + PrintFields(Without(headers, dropped))
    ensures r.Ok? ==> sink.wire == old(sink.wire) + PrintFields(Without(headers, dropped))
    ensures sink.Sound() ==> r.Ok?
  {
    hide PrintFields, PrintLine, Listed;
    PrintNothing();
    for i := 0 to |headers|
      invariant sink.wire == old(sink.wire) + PrintFields(Without(headers[..i], dropped))
    {
      var f := headers[i];
      assert headers[..i + 1][..i] == headers[..i];
      if !Listed(f.name, dropped) {
        PrintSnoc(Without(headers[..i], dropped), f);
        FieldsSoFar(headers, i + 1, dropped);
        r := WriteAll(sink, PrintLine(f));
        if r.Err? {
          return;
        }
      }
    }
    assert headers[..|headers|] == headers;
    return Ok(Unit.Unit);
  }

  /** The fields written so far are a start of them all. */
  lemma FieldsSoFar(headers: seq<Field>, i: nat, dropped: seq<Bytes>)
    requires i <= |headers|
    ensures PrintFields(Without(headers[..i], dropped)) <= PrintFields(Without(headers, dropped))
  {
    hide PrintFields, Without;
    assert headers == headers[..i] + headers[i..];
    WithoutConcat(headers[..i], headers[i..], dropped);
    PrintFieldsConcat(Without(headers[..i], dropped), Without(headers[i..], dropped));
  }

  /** The part of `write_response_to` and `write_request_to` after the start line. */
  method WriteFields(sink: Sink, headers: seq<Field>, framing: WriteFraming, mayPreserve: bool)
    returns (r: Result<Unit, IoError>)
    modifies sink
    ensures old(sink.wire) <= sink.wire <= old(sink.wire) + PrintSection(Emitted(headers, framing, mayPreserve))
    ensures r.Ok? ==> sink.wire == old(sink.wire) + PrintSection(Emitted(headers, framing, mayPreserve))
    ensures r.Ok? ==> sink.flushed == |sink.wire|
    ensures sink.Sound() ==> r.Ok?
  {
    hide PrintSection, PrintFields, PrintLine, Without, Emitted, Decimal;
    SectionParts(headers, framing, mayPreserve);
    r := WriteKept(sink, headers, Dropped(framing, mayPreserve));
    if r.Err? {
      return;
    }
    if framing.Length? || framing.Chunked? {
      r := WriteAll(sink, PrintLine(FramingField(framing)[0]));
      if r.Err? {
        return;
      }
    }
    r := WriteAll(sink, CRLF);
    if r.Err? {
      return;
    }
    r := FlushAll(sink);
  }

  lemma SectionParts(headers: seq<Field>, framing: WriteFraming, mayPreserve: bool)
    ensures PrintSection(Emitted(headers, framing, mayPreserve))
         == PrintFields(Without(headers, Dropped(framing, mayPreserve)))
            + (if framing.Length? || framing.Chunked? then PrintLine(FramingField(framing)[0]) else []) + CRLF
  {
    hide PrintFields, PrintLine, Without, Decimal;
    var kept := Without(headers, Dropped(framing, mayPreserve));
    if framing.Length? || framing.Chunked? {
      PrintSnoc(kept, FramingField(framing)[0]);
    } else {
      assert kept + [] == kept;
    }
  }

  lemma PrintNothing()
    ensures PrintFields([]) == []
  {
  }

  lemma PrintSnoc(fs: seq<Field>, f: Field)
    ensures PrintFields(fs + [f]) == PrintFields(fs) + PrintLine(f)
  {
    hide PrintLine;
    PrintFieldsConcat(fs, [f]);
    assert PrintFields([f]) == PrintLine(f) + PrintFields([f][1..]) == PrintLine(f);
  }

  /** `write_response_to`. */
  method WriteResponseTo(sink: Sink, code: nat, reason: Bytes, headers: seq<Field>, framing: WriteFraming)
    returns (r: Result<Unit, IoError>)
    modifies sink
    ensures old(sink.wire) <= sink.wire
    ensures sink.wire <= old(sink.wire) + StatusLine(code, reason) + PrintSection(Emitted(headers, framing, true))
    ensures sink.Sound() ==> r.Ok?
    ensures r.Ok? ==>
      && sink.wire == old(sink.wire) + StatusLine(code, reason) + PrintSection(Emitted(headers, framing, true))
      && sink.flushed == |sink.wire|
  {
    hide PrintSection, Decimal;
    r := WriteAll(sink, StatusLine(code, reason));
    if r.Err? {
      return;
    }
    r := WriteFields(sink, headers, framing, true);
  }

  /** `write_request_to`; the proxy never passes a client's framing on, so nothing is preserved. */
  method WriteRequestTo(sink: Sink, verb: Bytes, path: Bytes, headers: seq<Field>, framing: WriteFraming)
    returns (r: Result<Unit, IoError>)
    requires !framing.PreserveFraming?
    modifies sink
    ensures old(sink.wire) <= sink.wire
    ensures sink.wire <= old(sink.wire) + RequestLine(verb, path) + PrintSection(Emitted(headers, framing, false))
    ensures sink.Sound() ==> r.Ok?
    ensures r.Ok? ==>
      && sink.wire == old(sink.wire) + RequestLine(verb, path) + PrintSection(Emitted(headers, framing, false))
      && sink.flushed == |sink.wire|
  {
    hide PrintSection;
    r := WriteAll(sink, RequestLine(verb, path));
    if r.Err? {
      return;
    }
    r := WriteFields(sink, headers, framing, false);
  }

  // ------------------------------------------------------------------ reading a head back

  /** What `framing` announces. */
  function Announced(framing: WriteFraming): H.ParsedFraming
    requires !framing.PreserveFraming?
  {
    match framing
    case Length(n) => H.Length(n)
    case Chunked => H.Chunked
    case StripFraming => H.NoFraming
  }

  lemma DecimalElement(n: u64)
    ensures Elements(Decimal(n)) == [Decimal(n)] && ParseU64(Decimal(n)) == Some(n)
  {
    hide TrimOws;
    DecimalRoundTrip(n);
    var v := Decimal(n);
    assert forall i | 0 <= i < |v| :: In(v[i], Digit) && !IsOws(v[i]) && v[i] != COMMA;
    WithoutComma(v);
    assert v == [] + v + [];
    TrimOwsCore([], v, []);
  }

  lemma ChunkedElement()
    ensures H.SoleChunked(H.CHUNKED)
  {
    hide TrimOws;
    var v := H.CHUNKED;
    WithoutComma(v);
    assert v == [] + v + [];
    TrimOwsCore([], v, []);
    assert [v][..0] == [];
    assert NonEmpty([v]) == [v];
  }

  /** Whatever framing the message came with, the emitted head announces exactly the framing it was
      written with; a preserved one announces what the message did. */
  lemma HeadFraming(fs: seq<Field>, framing: WriteFraming, mayPreserve: bool)
    ensures !framing.PreserveFraming? ==> H.FramingOf(Emitted(fs, framing, mayPreserve)) == Some(Announced(framing))
    ensures framing.PreserveFraming? && mayPreserve ==> Emitted(fs, framing, mayPreserve) == fs
  {
    hide EqIgnoreCase, Elements, ParseU64, H.SoleChunked, Decimal, Named, Without, FramingField;
    if framing.PreserveFraming? {
      WithoutNothing(fs);
      assert FramingField(framing) == [] by { AddedFieldWellFormed(framing); }
      assert fs + [] == fs;
    } else {
      EmittedNamed(fs, framing);
      match framing {
        case Length(n) =>
          DecimalElement(n);
          assert [Decimal(n)][..0] == [];
          assert H.AllElements([Decimal(n)]) == H.AllElements([]) + Elements(Decimal(n)) == [Decimal(n)];
        case Chunked =>
          ChunkedElement();
        case StripFraming =>
        case PreserveFraming =>
      }
    }
  }

  lemma EmittedNamed(fs: seq<Field>, framing: WriteFraming)
    requires !framing.PreserveFraming?
    ensures var out := Without(fs, FRAMING_HEADERS) + FramingField(framing);
      && Named(out, H.CONTENT_LENGTH) == (if framing.Length? then [Decimal(framing.length)] else [])
      && Named(out, H.TRANSFER_ENCODING) == if framing.Chunked? then [H.CHUNKED] else []
  {
    hide EqIgnoreCase, Decimal, Named, Listed, Without, FramingField;
    var kept, added := Without(fs, FRAMING_HEADERS), FramingField(framing);
    NamedWithout(fs, FRAMING_HEADERS, H.CONTENT_LENGTH);
    NamedWithout(fs, FRAMING_HEADERS, H.TRANSFER_ENCODING);
    FramingHeadersListed();
    NamedConcat(kept, added, H.CONTENT_LENGTH);
    NamedConcat(kept, added, H.TRANSFER_ENCODING);
    AddedFieldNamed(framing);
  }

  lemma FramingHeadersListed()
    ensures Listed(H.CONTENT_LENGTH, FRAMING_HEADERS) && Listed(H.TRANSFER_ENCODING, FRAMING_HEADERS)
  {
    assert EqIgnoreCase(FRAMING_HEADERS[0], H.CONTENT_LENGTH) && EqIgnoreCase(FRAMING_HEADERS[1], H.TRANSFER_ENCODING);
  }

  lemma AddedFieldNamed(framing: WriteFraming)
    ensures Named(FramingField(framing), H.CONTENT_LENGTH) == if framing.Length? then [Decimal(framing.length)] else []
    ensures Named(FramingField(framing), H.TRANSFER_ENCODING) == if framing.Chunked? then [H.CHUNKED] else []
  {
    hide Decimal;
    var fs := FramingField(framing);
    if fs != [] {
      OneNamed(fs[0], H.CONTENT_LENGTH);
      OneNamed(fs[0], H.TRANSFER_ENCODING);
      assert EqIgnoreCase(fs[0].name, fs[0].name);
      H.NamesDiffer(fs[0].name);
    }
  }

  lemma AddedFieldWellFormed(framing: WriteFraming)
    ensures AllWellFormed(FramingField(framing)) && |FramingField(framing)| <= 1
    ensures framing.PreserveFraming? || framing.StripFraming? ==> FramingField(framing) == []
  {
    match framing
    case Length(n) =>
      var v := Decimal(n);
      assert forall i | 0 <= i < |v| :: In(v[i], Digit);
    case _ =>
  }

  lemma EmittedWellFormed(fs: seq<Field>, framing: WriteFraming, mayPreserve: bool)
    requires AllWellFormed(fs)
    ensures AllWellFormed(Emitted(fs, framing, mayPreserve)) && |Emitted(fs, framing, mayPreserve)| <= |fs| + 1
  {
    hide WellFormed, Without, FramingField;
    WithoutWellFormed(fs, Dropped(framing, mayPreserve));
    AddedFieldWellFormed(framing);
  }

  /** The emitted head holds every value of every name but the two framing ones, and keeps the fields in
      the order they came in. */
  lemma OthersEmitted(fs: seq<Field>, framing: WriteFraming, mayPreserve: bool, name: Bytes)
    requires !EqIgnoreCase(H.CONTENT_LENGTH, name) && !EqIgnoreCase(H.TRANSFER_ENCODING, name)
    ensures Named(Emitted(fs, framing, mayPreserve), name) == Named(fs, name)
    ensures exists kept, added ::
      Emitted(fs, framing, mayPreserve) == kept + added && IsSubsequence(kept, fs) && |added| <= 1
  {
    hide Without, Named;
    var dropped, added := Dropped(framing, mayPreserve), FramingField(framing);
    var kept := Without(fs, dropped);
    NamedWithout(fs, dropped, name);
    WithoutInOrder(fs, dropped);
    NamedConcat(kept, added, name);
    OtherAdded(framing, name);
    assert kept + added == Emitted(fs, framing, mayPreserve);
  }

  lemma OtherAdded(framing: WriteFraming, name: Bytes)
    requires !EqIgnoreCase(H.CONTENT_LENGTH, name) && !EqIgnoreCase(H.TRANSFER_ENCODING, name)
    ensures Named(FramingField(framing), name) == [] && |FramingField(framing)| <= 1
  {
    hide Decimal;
    var added := FramingField(framing);
    if added != [] {
      OneNamed(added[0], name);
      assert added == [added[0]];
    }
  }

  // ------------------------------------------------------------------ reading a start line back

  /** The method, the target and what follows the line, taken apart at the spaces. */
  function ReadRequestLine(s: Bytes): Option<(Bytes, Bytes, Bytes)> {
    var verbEnd := RunEnd(NotSpace, s, 0);
    if verbEnd == |s| then None
    else
      var pathEnd := RunEnd(NotSpace, s, verbEnd + 1);
      if pathEnd + 11 > |s| || s[pathEnd + 1..pathEnd + 11] != HTTP_1_1 + CRLF then None
      else Some((s[..verbEnd], s[verbEnd + 1..pathEnd], s[pathEnd + 11..]))
  }

  lemma RequestLineReadsBack(verb: Bytes, path: Bytes, t: Bytes)
    requires SP !in verb && SP !in path
    ensures ReadRequestLine(RequestLine(verb, path) + t) == Some((verb, path, t))
  {
    var s := RequestLine(verb, path) + t;
    var i, j := |verb|, |verb| + 1 + |path|;
    assert s == verb + [SP] + path + [SP] + (HTTP_1_1 + CRLF) + t;
    assert s[..i] == verb && s[i] == SP && s[i + 1..j] == path && s[j] == SP;
    assert s[j + 1..j + 11] == HTTP_1_1 + CRLF && s[j + 11..] == t;
    assert s[0..i] == verb;
    RunEndSlice(NotSpace, s, 0, i);
    RunEndSlice(NotSpace, s, i + 1, j);
  }

  /** The status code, the reason and what follows the line. */
  function ReadStatusLine(s: Bytes): Option<(nat, Bytes, Bytes)> {
    if |s| < 9 || s[..9] != HTTP_1_1 + [SP] then None
    else
      var codeEnd := RunEnd(NotSpace, s, 9);
      if codeEnd == |s| || !AllIn(s[9..codeEnd], Digit) then None
      else
        var reasonEnd := RunEnd(NotCr, s, codeEnd + 1);
        if reasonEnd + 2 > |s| || s[reasonEnd..reasonEnd + 2] != CRLF then None
        else Some((DecimalValue(s[9..codeEnd]), s[codeEnd + 1..reasonEnd], s[reasonEnd + 2..]))
  }

  lemma StatusLineReadsBack(code: nat, reason: Bytes, t: Bytes)
    requires CR !in reason
    ensures ReadStatusLine(StatusLine(code, reason) + t) == Some((code, reason, t))
  {
    hide Decimal, DecimalValue;
    var digits := Decimal(code);
    var s := StatusLine(code, reason) + t;
    var i, j := 9 + |digits|, 10 + |digits| + |reason|;
    assert s == (HTTP_1_1 + [SP]) + digits + [SP] + reason + CRLF + t;
    assert s[..9] == HTTP_1_1 + [SP] && s[9..i] == digits && s[i] == SP;
    assert s[i + 1..j] == reason && s[j..j + 2] == CRLF && s[j] == CR && s[j + 2..] == t;
    DigitsAreNotSpace(digits);
    RunEndSlice(NotSpace, s, 9, i);
    RunEndSlice(NotCr, s, i + 1, j);
    DecimalRoundTrip(code);
  }

  lemma DigitsAreNotSpace(digits: Bytes)
    requires AllIn(digits, Digit)
    ensures AllIn(digits, NotSpace)
  {
    assert forall i | 0 <= i < |digits| :: In(digits[i], Digit);
  }

  /** On the wire: the emitted section of a well-formed head parses back to the emitted fields, up to
      the first byte after it, and those fields announce the framing of the body that follows. */
  lemma HeadReadsBack(fs: seq<Field>, framing: WriteFraming, mayPreserve: bool, t: Bytes, slots: nat)
    requires AllWellFormed(fs) && |fs| < slots && !framing.PreserveFraming?
    ensures var out := Emitted(fs, framing, mayPreserve);
      && ParseSection(PrintSection(out) + t, slots) == SectionParse.Complete(|PrintSection(out)|, out)
      && H.FramingOf(out) == Some(Announced(framing))
  {
    hide WellFormed, ParseSection, PrintSection, Without, FramingField, H.FramingOf;
    EmittedWellFormed(fs, framing, mayPreserve);
    HeadFraming(fs, framing, mayPreserve);
    SectionRoundTrip(Emitted(fs, framing, mayPreserve), t, slots);
  }

  // ------------------------------------------------------------------ a whole message

  /** The framing a head is written with for the body that follows it. */
  function FramingFor(codec: W.Codec): WriteFraming {
    match codec
    case Length(total, _) => Length(total)
    case Chunked => Chunked
    case Eof => StripFraming
    case Bodyless => StripFraming
  }

  /** How a receiver frames the body after a head that announces `f`: without framing there is no
      body to a request, and a response body lasts until the close. */
  function CodecFor(f: H.ParsedFraming, isResponse: bool): W.Codec {
    match f
    case Length(n) => W.Length(n, 0)
    case Chunked => W.Chunked
    case NoFraming => if isResponse then W.Eof else W.Bodyless
  }

  /** What a receiver makes of a message past its start line: it parses the head, and frames the body
      the way that head announces. */
  function ReadMessage(stream: Bytes, isResponse: bool, slots: nat, l: Limits): Option<Outcome> {
    match ParseSection(stream, slots)
    case Complete(n, fields) =>
      (match H.FramingOf(fields)
       case Some(framing) => Some(F.Received(CodecFor(framing, isResponse), stream[n..], l))
       case None => None)
    case _ => None
  }

  /** A forwarded message reads back whole. Its receiver parses the emitted head, frames the body
      the way that head announces, and gets the source body, its permitted trailers, and exactly the
      bytes that follow the message.

      `codec` is the writer's; a body that lasts until the close has nothing after it, and only a
      response may have one. */
  lemma MessageReadsBack(fs: seq<Field>, codec: W.Codec, isResponse: bool, wire: Bytes,
                         body: Bytes, trailers: seq<Field>, t: Bytes, slots: nat, l: Limits)
    requires AllWellFormed(fs) && |fs| < slots
    requires F.Delivers(codec, wire, body, trailers) && AllWellFormed(trailers)
    requires codec.Eof? ==> isResponse && t == []
    requires codec.Bodyless? ==> !isResponse && body == []
    requires codec.Chunked? ==> Covers(l, trailers)
    ensures var head := PrintSection(Emitted(fs, FramingFor(codec), isResponse));
      ReadMessage(head + wire + t, isResponse, slots, l)
      == Some(Outcome(body, Ended(if codec.Chunked? then trailers else [], t), true))
  {
    hide F.Delivers, F.Received, WellFormed, ParseSection, PrintSection, Emitted, H.FramingOf;
    HeadAnnounces(fs, codec, isResponse, wire + t, slots, l);
    assert PrintSection(Emitted(fs, FramingFor(codec), isResponse)) + wire + t
        == PrintSection(Emitted(fs, FramingFor(codec), isResponse)) + (wire + t);
    var received := CodecFor(Announced(FramingFor(codec)), isResponse);
    DeliveredFresh(codec, received, wire, body, trailers);
    F.DeliveredReadsBack(received, wire, body, trailers, t, l);
  }

  /** Whatever follows the head is framed the way its writer frames it. */
  lemma HeadAnnounces(fs: seq<Field>, codec: W.Codec, isResponse: bool, rest: Bytes, slots: nat, l: Limits)
    requires AllWellFormed(fs) && |fs| < slots
    ensures ReadMessage(PrintSection(Emitted(fs, FramingFor(codec), isResponse)) + rest, isResponse, slots, l)
         == Some(F.Received(CodecFor(Announced(FramingFor(codec)), isResponse), rest, l))
  {
    hide F.Received, WellFormed, ParseSection, PrintSection, Emitted, H.FramingOf;
    var head := PrintSection(Emitted(fs, FramingFor(codec), isResponse));
    HeadReadsBack(fs, FramingFor(codec), isResponse, rest, slots);
    assert (head + rest)[|head|..] == rest;
  }

  /** The receiver counts the body from zero. */
  lemma DeliveredFresh(codec: W.Codec, receiver: W.Codec, wire: Bytes, body: Bytes, trailers: seq<Field>)
    requires F.Delivers(codec, wire, body, trailers)
    requires if codec.Length? then receiver == W.Length(codec.total, 0) else receiver == codec
    ensures F.Delivers(receiver, wire, body, trailers)
  {
  }
}
