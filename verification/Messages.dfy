/** Whole messages: a head and the body behind it, written to one sink. */
module Messages {
  import opened Bytes
  import opened Results
  import opened FieldSection
  import opened BodyErrors
  import opened ChunkedCoding
  import opened Endpoints
  import opened IoBuffer
  import ChunkedReader
  import opened BodyReaders
  import H = Headers
  import W = BodyWriters
  import opened Forwarder
  import opened HeadWriter

  datatype MessageError =
    | HeadFailed(head: IoError)
    | BodyFailed(body: CopyError)

  /** Whoever reads `message`, a message past its start line whose head was made from `headers`, gets
      `body` and `trailers`, and exactly the bytes of the next message after it. */
  ghost predicate Carries(message: Bytes, headers: seq<Field>, isResponse: bool, codec: W.Codec, body: Bytes,
                          trailers: seq<Field>)
  {
    forall t: Bytes, slots: nat, l: Limits ::
      && AllWellFormed(headers) && |headers| < slots
      && (codec.Chunked? ==> Covers(l, trailers)) && (codec.Eof? ==> t == []) ==>
        ReadMessage(message + t, isResponse, slots, l) == Some(Outcome(body, Ended(trailers, t), true))
  }

  /** Nobody gets a complete message from `message`, other than what there is to forward of `o`; unless
      it is close-delimited, and so can not be told from a shorter one. */
  ghost predicate CarriesOnly(message: Bytes, headers: seq<Field>, isResponse: bool, codec: W.Codec,
                              reader: BodyReader, chunkSize: nat, o: Outcome, forbidden: seq<Bytes>)
  {
    forall slots: nat, l: Limits ::
      && AllWellFormed(headers) && |headers| < slots && l.maxLine >= 18 && !codec.Eof?
      && (o.end.Ended? ==> Covers(l, TrailersOf(reader, codec, o, forbidden))) ==>
        var seen := ReadMessage(message, isResponse, slots, l);
        seen.Some? ==> if o.end.Ended?
          then EndsAs(seen.value, PayloadOf(reader, chunkSize, o), TrailersOf(reader, codec, o, forbidden))
          else !seen.value.end.Ended?
  }

  /** At chunk size zero, a body gets through only if there is nothing of it; and a close-delimited
      one, as long as nothing of it is buffered. */
  ghost predicate GetsThrough(reader: BodyReader, chunkSize: nat)
    requires reader.Valid()
    reads reader.Repr()
  {
    chunkSize > 0 || if reader.Eof? then !reader.DataBuffered() else reader.View().body == []
  }

  method StartBody(sink: Sink, codec: W.Codec, reader: BodyReader, chunkSize: u64, forbidden: seq<Bytes>)
    returns (f: BodyForwarder)
    requires reader.Valid() && Paired(reader, codec) && (reader.CL? ==> reader.cl.offset == 0)
    requires sink !in reader.Repr()
    ensures f.Valid() && !f.errored && f.total == reader.View() && f.writer.codec == codec
    ensures f.Repr() == {f, f.writer, sink} + reader.Repr() && fresh(f) && fresh(f.writer)
    ensures f.chunkSize == chunkSize && f.forbidden == forbidden && f.reader == reader
    ensures f.writer.sink == sink && f.writer.base == sink.wire
    ensures f.GetsThrough() <==> GetsThrough(reader, chunkSize)
  {
    hide BodyReader.View, BodyReader.DataBuffered, BodyForwarder.Valid, W.BodyWriter.Valid;
    var writer := new W.BodyWriter(sink, codec);
    f := new BodyForwarder(chunkSize, reader, writer, forbidden);
  }

  /** The body behind a head that is already out: a writer and a forwarder on the same sink, driven to
      the end. */
  method ForwardBody(sink: Sink, codec: W.Codec, reader: BodyReader, chunkSize: u64, forbidden: seq<Bytes>,
                     turns: nat)
    returns (r: Poll<Result<Handback, CopyError>>)
    requires reader.Valid() && Paired(reader, codec) && (reader.CL? ==> reader.cl.offset == 0)
    requires sink !in reader.Repr()
    modifies reader.Repr(), sink
    ensures chunkSize > 0 ==> r.Ready?
    ensures old(sink.wire) <= sink.wire
    ensures OnlyAs(codec, sink.wire[|old(sink.wire)|..], reader, chunkSize, old(reader.View()), forbidden)
    ensures var o, wire := old(reader.View()), sink.wire[|old(sink.wire)|..];
      r.Ready? && r.value.Ok? ==>
        && o.end.Ended? && AllWellFormed(TrailersOf(reader, codec, o, forbidden))
        && Delivers(codec, wire, PayloadOf(reader, chunkSize, o), TrailersOf(reader, codec, o, forbidden))
        && sink.flushed == |sink.wire|
        && r.value.value.writer == (if codec.Eof? then None else Some(sink))
        && r.value.value.reader == (if !reader.Eof? && reader.recyclable then Some(reader.Stream()) else None)
        && (!reader.Eof? ==> reader.Stream().Valid() && reader.Stream().Contents() == o.end.rest)
    ensures r.Ready? && r.value.Err? ==>
      && Blames(r.value.error, old(reader.View()), false)
      && (reader.Reliable() && sink.Sound() ==> !IsFault(r.value.error))
    ensures var o := old(reader.View());
      o.end.Ended? && o.fits && reader.Reliable() && sink.Sound() ==>
        (r.Ready? && r.value.Ok? <==> old(GetsThrough(reader, chunkSize)))
  {
    hide Delivers, BodyReader.View, BodyForwarder.Valid, W.BodyWriter.Valid, AllWellFormed, NothingElse, CutShort;
    hide GetsThrough, OnlyAs, PayloadOf, TrailersOf;
    hide BodyForwarder.GetsThrough, BodyForwarder.Stuck, BodyForwarder.Starving, IsFault, Blames;
    var f := StartBody(sink, codec, reader, chunkSize, forbidden);
    r := f.Finish(turns);
    assert f.BodyWire() == sink.wire[|old(sink.wire)|..];
    FramedAlike(codec, f.writer.codec, f.BodyWire(), reader, chunkSize, f.total, forbidden);
  }

  /** Neither law looks at how far a declared length is used up. */
  lemma FramedAlike(codec: W.Codec, other: W.Codec, wire: Bytes, reader: BodyReader, chunkSize: nat, o: Outcome,
                    forbidden: seq<Bytes>)
    requires SameFraming(codec, other)
    ensures OnlyAs(codec, wire, reader, chunkSize, o, forbidden)
       <==> OnlyAs(other, wire, reader, chunkSize, o, forbidden)
    ensures o.end.Ended? ==> TrailersOf(reader, codec, o, forbidden) == TrailersOf(reader, other, o, forbidden)
    ensures forall body, trailers :: Delivers(codec, wire, body, trailers) <==> Delivers(other, wire, body, trailers)
  {
  }

  /** A delivered body behind its head is a message that reads back. */
  lemma DeliveredCarries(headers: seq<Field>, codec: W.Codec, isResponse: bool, wire: Bytes, body: Bytes,
                         trailers: seq<Field>)
    requires AllWellFormed(trailers) && Delivers(codec, wire, body, trailers)
    requires codec.Bodyless? ==> !isResponse && body == []
    requires codec.Eof? ==> isResponse
    requires !codec.Chunked? ==> trailers == []
    ensures Carries(PrintSection(Emitted(headers, FramingFor(codec), isResponse)) + wire, headers, isResponse, codec,
                    body, trailers)
  {
    hide Delivers, ReadMessage, AllWellFormed, PrintSection, Emitted, Covers;
    var head := PrintSection(Emitted(headers, FramingFor(codec), isResponse));
    forall t: Bytes, slots: nat, l: Limits
      | && AllWellFormed(headers) && |headers| < slots
        && (codec.Chunked? ==> Covers(l, trailers)) && (codec.Eof? ==> t == [])
      ensures ReadMessage(head + wire + t, isResponse, slots, l) == Some(Outcome(body, Ended(trailers, t), true))
    {
      MessageReadsBack(headers, codec, isResponse, wire, body, trailers, t, slots, l);
    }
  }

  /** And what is not to be taken for another body is not to be taken for another message. */
  lemma OnlyAsCarriesOnly(headers: seq<Field>, codec: W.Codec, isResponse: bool, wire: Bytes, reader: BodyReader,
                          chunkSize: nat, o: Outcome, forbidden: seq<Bytes>)
    requires OnlyAs(codec, wire, reader, chunkSize, o, forbidden) && Paired(reader, codec)
    requires codec.Bodyless? ==> !isResponse && o.body == [] && o.end.Ended?
    ensures CarriesOnly(PrintSection(Emitted(headers, FramingFor(codec), isResponse)) + wire, headers, isResponse,
                        codec, reader, chunkSize, o, forbidden)
  {
    hide Decode, LengthOutcome, ReadMessage, AllWellFormed, PrintSection, Emitted, Covers;
    var head := PrintSection(Emitted(headers, FramingFor(codec), isResponse));
    forall slots: nat, l: Limits
      | && AllWellFormed(headers) && |headers| < slots && l.maxLine >= 18 && !codec.Eof?
        && (o.end.Ended? ==> Covers(l, TrailersOf(reader, codec, o, forbidden)))
      ensures var seen := ReadMessage(head + wire, isResponse, slots, l);
        seen.Some? && if o.end.Ended?
          then EndsAs(seen.value, PayloadOf(reader, chunkSize, o), TrailersOf(reader, codec, o, forbidden))
          else !seen.value.end.Ended?
    {
      HeadAnnounces(headers, codec, isResponse, wire, slots, l);
    }
  }

  /** What is behind the start line, if `wire` has got that far. */
  function Past(before: Bytes, wire: Bytes): Bytes {
    if |before| <= |wire| then wire[|before|..] else []
  }

  lemma PastIsStart(before: Bytes, section: Bytes, wire: Bytes)
    requires wire <= before + section
    ensures wire <= before || before <= wire
    ensures Past(before, wire) <= section
  {
    var all := before + section;
    assert wire == all[..|wire|];
    if |before| <= |wire| {
      assert wire == before + section[..|wire| - |before|];
    } else {
      assert wire == before[..|wire|];
    }
  }

  lemma PastIsRest(before: Bytes, section: Bytes, wire: Bytes)
    ensures before <= before + section + wire
    ensures Past(before, before + section + wire) == section + wire
  {
    assert before + section + wire == before + (section + wire);
  }

  /** Before its first byte, a body is not to be taken for another either. */
  lemma NothingYet(codec: W.Codec, reader: BodyReader, chunkSize: nat, forbidden: seq<Bytes>)
    requires reader.Valid() && Paired(reader, codec) && (reader.CL? ==> reader.cl.offset == 0)
    ensures OnlyAs(codec, [], reader, chunkSize, reader.View(), forbidden)
  {
    hide Decode, Covers, ChunkedReader.ChunkedBodyReader.View;
    if codec.Chunked? {
      forall l: Limits
        ensures Decode(AtSize, [], l).end == Truncated
      {
        EmptyStream(l);
      }
    } else if reader.CL? {
      NoneOfLength(codec.total, reader.cl.reader.Contents());
    }
  }

  lemma NoneOfLength(n: nat, s: Bytes)
    ensures LengthOutcome(n, []).end == (if n > 0 then Truncated else Ended([], []))
    ensures LengthOutcome(n, []).body == []
    ensures n == 0 ==> LengthOutcome(n, s).end.Ended? && LengthOutcome(n, s).body == []
  {
  }

  /** A head that was cut, or has nothing behind it yet, is not to be taken for another message. */
  lemma CutHeadCarriesOnly(message: Bytes, headers: seq<Field>, codec: W.Codec, isResponse: bool, reader: BodyReader,
                           chunkSize: nat, o: Outcome, forbidden: seq<Bytes>)
    requires message <= PrintSection(Emitted(headers, FramingFor(codec), isResponse))
    requires OnlyAs(codec, [], reader, chunkSize, o, forbidden) && Paired(reader, codec)
    requires codec.Bodyless? ==> !isResponse && o.body == [] && o.end.Ended?
    ensures CarriesOnly(message, headers, isResponse, codec, reader, chunkSize, o, forbidden)
  {
    hide OnlyAs, PrintSection, Emitted, AllWellFormed, WellFormed, ParseSection, Covers, TrailersOf, PayloadOf, EndsAs;
    var head := PrintSection(Emitted(headers, FramingFor(codec), isResponse));
    if message == head {
      OnlyAsCarriesOnly(headers, codec, isResponse, [], reader, chunkSize, o, forbidden);
      assert head + [] == message;
    } else {
      assert message == head[..|message|];
      forall slots: nat, l: Limits | AllWellFormed(headers) && |headers| < slots
        ensures ReadMessage(message, isResponse, slots, l) == None
      {
        EmittedWellFormed(headers, FramingFor(codec), isResponse);
        CutSectionIsPartial(Emitted(headers, FramingFor(codec), isResponse), |message|, slots);
      }
    }
  }

  /** A request, from its head to the end of its body. On success, all of it is on the wire and flushed,
      and whoever reads it gets the source body; and short of success, wherever it failed, nobody gets
      a complete request but that one. */
  method ForwardRequest(sink: Sink, verb: Bytes, path: Bytes, headers: seq<Field>, reader: BodyReader,
                        chunkSize: u64, forbidden: seq<Bytes>, turns: nat)
    returns (r: Poll<Result<Handback, MessageError>>)
    requires reader.Valid() && !reader.Eof? && (reader.CL? ==> reader.cl.offset == 0)
    requires sink !in reader.Repr()
    modifies reader.Repr(), sink
    ensures chunkSize > 0 ==> r.Ready?
    ensures var o := old(reader.View());
      o.end.Ended? && o.fits && reader.Reliable() && sink.Sound() ==>
        (r.Ready? && r.value.Ok? <==> old(GetsThrough(reader, chunkSize)))
    ensures r.Ready? && r.value.Err? ==> match r.value.error
      case HeadFailed(_) => !sink.Sound()
      case BodyFailed(e) =>
        && Blames(e, old(reader.View()), false)
        && (reader.Reliable() && sink.Sound() ==> !IsFault(e))
    ensures old(sink.wire) <= sink.wire
    ensures var before, codec, o := old(sink.wire) + RequestLine(verb, path), RequestCodec(reader), old(reader.View());
      && (sink.wire <= before || before <= sink.wire)
      && CarriesOnly(Past(before, sink.wire), headers, false, codec, reader, chunkSize, o, forbidden)
      && (r.Ready? && r.value.Ok? ==>
            && before <= sink.wire && o.end.Ended? && sink.flushed == |sink.wire|
            && Carries(Past(before, sink.wire), headers, false, codec, o.body,
                       TrailersOf(reader, codec, o, forbidden))
            && r.value.value.writer == Some(sink)
            && r.value.value.reader == (if reader.recyclable then Some(reader.Stream()) else None)
            && reader.Stream().Valid() && reader.Stream().Contents() == o.end.rest)
  {
    hide Carries, CarriesOnly, Delivers, OnlyAs, AllWellFormed, PrintSection, Emitted, BodyReader.Valid;
    hide GetsThrough, Past, IsFault, Blames;
    var codec := RequestCodec(reader);
    ghost var o := reader.View();
    ghost var before := old(sink.wire) + RequestLine(verb, path);
    ghost var section := PrintSection(Emitted(headers, FramingFor(codec), false));
    NothingYet(codec, reader, chunkSize, forbidden);
    var head := WriteRequestTo(sink, verb, path, headers, FramingFor(codec));
    if head.Err? {
      PastIsStart(before, section, sink.wire);
      CutHeadCarriesOnly(Past(before, sink.wire), headers, codec, false, reader, chunkSize, o, forbidden);
      return Poll.Ready(Err(HeadFailed(head.error)));
    }
    ghost var written := sink.wire;
    var b := ForwardBody(sink, codec, reader, chunkSize, forbidden, turns);
    ghost var wire := sink.wire[|written|..];
    assert sink.wire == written + wire == before + section + wire;
    PastIsRest(before, section, wire);
    OnlyAsCarriesOnly(headers, codec, false, wire, reader, chunkSize, o, forbidden);
    match b {
      case Pending =>
        return Poll.Pending;
      case Ready(Err(e)) =>
        return Poll.Ready(Err(BodyFailed(e)));
      case Ready(Ok(h)) =>
        DeliveredCarries(headers, codec, false, wire, o.body, TrailersOf(reader, codec, o, forbidden));
        return Poll.Ready(Ok(h));
    }
  }

  /** How a response head is framed. One without a body keeps the framing it came with when that
      describes what a GET would have got. */
  function ResponseFraming(codec: W.Codec, isHead: bool, code: nat): WriteFraming {
    if codec.Bodyless? && (isHead || code == 304) then PreserveFraming else FramingFor(codec)
  }

  /** A response without a body goes out with the very fields it came with when it answers HEAD or says
      that nothing was modified, and otherwise without any framing; one with a body announces its own. */
  lemma ResponseFramed(headers: seq<Field>, codec: W.Codec, isHead: bool, code: nat)
    ensures var out := Emitted(headers, ResponseFraming(codec, isHead, code), true);
      if codec.Bodyless? && (isHead || code == 304) then out == headers
      else H.FramingOf(out) == Some(match codec
        case Length(n, _) => H.Length(n)
        case Chunked => H.Chunked
        case _ => H.NoFraming)
  {
    hide Emitted, H.FramingOf;
    HeadFraming(headers, ResponseFraming(codec, isHead, code), true);
  }

  /** A response, from its head to the end of its body. One without a body is its head, or a start of
      that; any other is a message that reads back to what there is to forward, or is not to be taken
      for another, wherever it failed. */
  method ForwardResponse(sink: Sink, code: nat, reason: Bytes, headers: seq<Field>, isHead: bool,
                         clientCannotChunk: bool, reader: BodyReader, chunkSize: u64, forbidden: seq<Bytes>,
                         turns: nat)
    returns (r: Poll<Result<Handback, MessageError>>)
    requires reader.Valid() && (reader.CL? ==> reader.cl.offset == 0)
    requires sink !in reader.Repr()
    modifies reader.Repr(), sink
    ensures chunkSize > 0 ==> r.Ready?
    ensures var o := old(reader.View());
      o.end.Ended? && o.fits && reader.Reliable() && sink.Sound() ==>
        (r.Ready? && r.value.Ok? <==> old(GetsThrough(reader, chunkSize)))
    ensures r.Ready? && r.value.Err? ==> match r.value.error
      case HeadFailed(_) => !sink.Sound()
      case BodyFailed(e) =>
        && Blames(e, old(reader.View()), false)
        && (reader.Reliable() && sink.Sound() ==> !IsFault(e))
    ensures old(sink.wire) <= sink.wire
    ensures var before, codec := old(sink.wire) + StatusLine(code, reason), ResponseCodec(reader, clientCannotChunk);
      var o := old(reader.View());
      && (sink.wire <= before || before <= sink.wire)
      && (reader.Bodyless? ==>
            Past(before, sink.wire) <= PrintSection(Emitted(headers, ResponseFraming(codec, isHead, code), true)))
      && (!reader.Bodyless? ==>
            CarriesOnly(Past(before, sink.wire), headers, true, codec, reader, chunkSize, o, forbidden))
      && (r.Ready? && r.value.Ok? ==>
            && before <= sink.wire && o.end.Ended? && sink.flushed == |sink.wire|
            && (reader.Bodyless? ==>
                  Past(before, sink.wire) == PrintSection(Emitted(headers, ResponseFraming(codec, isHead, code), true)))
            && (!reader.Bodyless? ==>
                  Carries(Past(before, sink.wire), headers, true, codec, PayloadOf(reader, chunkSize, o),
                          TrailersOf(reader, codec, o, forbidden)))
            && r.value.value.writer == (if codec.Eof? then None else Some(sink))
            && r.value.value.reader == (if !reader.Eof? && reader.recyclable then Some(reader.Stream()) else None)
            && (!reader.Eof? ==> reader.Stream().Valid() && reader.Stream().Contents() == o.end.rest))
  {
    hide Carries, CarriesOnly, Delivers, OnlyAs, AllWellFormed, PrintSection, Emitted, BodyReader.Valid, StatusLine;
    hide GetsThrough, Past, TrailersOf, PayloadOf, IsFault, Blames;
    var codec := ResponseCodec(reader, clientCannotChunk);
    var framing := ResponseFraming(codec, isHead, code);
    ghost var o := reader.View();
    ghost var before := old(sink.wire) + StatusLine(code, reason);
    ghost var section := PrintSection(Emitted(headers, framing, true));
    NothingYet(codec, reader, chunkSize, forbidden);
    var head := WriteResponseTo(sink, code, reason, headers, framing);
    if head.Err? {
      PastIsStart(before, section, sink.wire);
      if !reader.Bodyless? {
        CutHeadCarriesOnly(Past(before, sink.wire), headers, codec, true, reader, chunkSize, o, forbidden);
      }
      return Poll.Ready(Err(HeadFailed(head.error)));
    }
    ghost var written := sink.wire;
    var b := ForwardBody(sink, codec, reader, chunkSize, forbidden, turns);
    ghost var wire := sink.wire[|written|..];
    assert sink.wire == written + wire == before + section + wire;
    PastIsRest(before, section, wire);
    if reader.Bodyless? {
      NoBodyNoWire(codec, wire, reader, chunkSize, o, forbidden);
    } else {
      OnlyAsCarriesOnly(headers, codec, true, wire, reader, chunkSize, o, forbidden);
    }
    match b {
      case Pending =>
        return Poll.Pending;
      case Ready(Err(e)) =>
        return Poll.Ready(Err(BodyFailed(e)));
      case Ready(Ok(h)) =>
        if !reader.Bodyless? {
          DeliveredCarries(headers, codec, true, wire, PayloadOf(reader, chunkSize, o),
                           TrailersOf(reader, codec, o, forbidden));
        }
        return Poll.Ready(Ok(h));
    }
  }

  lemma NoBodyNoWire(codec: W.Codec, wire: Bytes, reader: BodyReader, chunkSize: nat, o: Outcome,
                     forbidden: seq<Bytes>)
    requires codec.Bodyless? && o.body == [] && o.end.Ended?
    requires OnlyAs(codec, wire, reader, chunkSize, o, forbidden)
    ensures wire == []
  {
  }
}
