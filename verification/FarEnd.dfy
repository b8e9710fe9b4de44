/** The far end of a forwarded body: the readers of this repository, put on the wire that its writers
    wrote, behind a transport that hands the bytes over as it likes. */
module FarEnd {
  import opened Bytes
  import opened Results
  import opened FieldSection
  import opened BodyErrors
  import opened ChunkedCoding
  import opened Endpoints
  import opened IoBuffer
  import opened ChunkedReader
  import opened BodyReaders
  import W = BodyWriters
  import opened Forwarder

  /** A body as it was read, and the bytes left for the next message. */
  datatype ReadBody = ReadBody(body: Bytes, trailers: seq<Field>, rest: Bytes)

  /** Reads to the end of the body, in pieces of any positive size. */
  method ReadAll(reader: BodyReader) returns (r: Result<Bytes, BodyError>)
    requires reader.Valid()
    modifies reader.Repr()
    ensures reader.Valid()
    ensures reader.Reliable() && r.Err? ==> !r.error.BodyReadError?
    ensures r.Ok? ==> old(reader.View()).body == r.value && old(reader.View()).end.Ended?
    ensures r.Ok? ==> Advances(old(reader.View()), r.value, reader.View())
    ensures r.Err? ==> Explains(r.error, old(reader.View()))
  {
    hide BodyReader.View, BodyReader.Drained;
    ghost var o := reader.View();
    var body: Bytes := [];
    while true
      invariant reader.Valid()
      invariant Advances(o, body, reader.View())
      decreases reader.Patience(), |reader.View().body|
    {
      var size: int := *;
      ghost var v := reader.View();
      var p := reader.PollRead(if size > 0 then size else 1);
      match p {
        case Pending =>
          AdvancesFurther(o, body, v, [], reader.View());
          assert body + [] == body;
        case Ready(Ok(Some(b))) =>
          AdvancesFurther(o, body, v, b, reader.View());
          body := body + b;
        case Ready(Ok(None)) =>
          AdvancesFurther(o, body, v, [], reader.View());
          assert body + [] == body;
          return Ok(body);
        case Ready(Err(e)) =>
          ExplainsEarlier(e, o, body, v);
          return Err(e);
      }
    }
  }

  /** A reader for the encoding `codec`, over a transport that will hand over `stream`. */
  method NewReader(codec: W.Codec, stream: Bytes, patience: nat, reliable: bool, l: Limits) returns (reader: BodyReader)
    ensures reader.Valid() && fresh(reader.Repr()) && reader.Reliable() == reliable
    ensures reader.View() == Received(codec, stream, l) && !reader.DataBuffered()
    ensures reader.Eof? <==> codec.Eof?
  {
    hide Decode, LengthOutcome;
    var source := new Source(stream, patience, reliable);
    var bytes := new BytesReader(source);
    assert bytes.Contents() == [] + stream == stream;
    match codec {
      case Bodyless =>
        var none := new BodylessBodyReader(bytes);
        reader := Bodyless(none, true);
      case Length(total, _) =>
        var cl := new ContentLengthBodyReader(total, bytes);
        reader := CL(cl, true);
      case Chunked =>
        var te := new ChunkedBodyReader(bytes, l);
        reader := TE(te, true);
      case Eof =>
        var eof := new EofBodyReader(bytes);
        reader := BodyReader.Eof(eof);
    }
  }

  /** Reads a whole body off `stream`. It succeeds only with what the stream decodes to, down to the
      first byte after the body, and fails only for a reason the stream or the transport gives. */
  method Receive(codec: W.Codec, stream: Bytes, patience: nat, reliable: bool, l: Limits)
    returns (r: Result<ReadBody, BodyError>)
    ensures r.Ok? ==> Received(codec, stream, l).body == r.value.body
    ensures r.Ok? ==> Received(codec, stream, l).end == Ended(r.value.trailers, r.value.rest)
    ensures r.Err? ==> Explains(r.error, Received(codec, stream, l))
    ensures r.Err? && r.error.BodyReadError? ==> !reliable
  {
    hide Received, BodyReader.View, Explains;
    var reader := NewReader(codec, stream, patience, reliable, l);
    ghost var o := reader.View();
    var body := ReadAll(reader);
    if body.Err? {
      return Err(body.error);
    }
    ghost var v := reader.View();
    var d := reader.Drain();
    if d.Err? {
      ExplainsEarlier(d.error, o, body.value, v);
      return Err(d.error);
    }
    var stream' := reader.Stream();
    var rest := if reader.Eof? then [] else stream'.AsBytes() + stream'.io.unread;
    assert reader.Eof? ==> o.end == Ended([], []) by { EofEnds(codec, stream, l); }
    return Ok(ReadBody(body.value, d.value.1, rest));
  }

  lemma EofEnds(codec: W.Codec, stream: Bytes, l: Limits)
    ensures codec.Eof? ==> Received(codec, stream, l).end == Ended([], [])
  {
  }

  /** What a forwarder has delivered is read back as it was: the source body, the trailers it was
      ended with, and not one byte of what follows it, whatever pieces the transport hands over and
      whatever sizes are read. Only the transport can keep that from happening. */
  method ReadBack(codec: W.Codec, wire: Bytes, after: Bytes, patience: nat, reliable: bool, l: Limits,
                  ghost body: Bytes, ghost trailers: seq<Field>)
    returns (r: Result<ReadBody, BodyError>)
    requires Delivers(codec, wire, body, trailers) && AllWellFormed(trailers)
    requires codec.Bodyless? ==> body == []
    requires codec.Eof? ==> after == []
    requires codec.Chunked? ==> Covers(l, trailers)
    ensures r.Ok? ==> r.value == ReadBody(body, if codec.Chunked? then trailers else [], after)
    ensures r.Err? ==> r.error.BodyReadError?
    ensures r.Err? ==> !reliable
  {
    hide Delivers, Received, PrintSection, AllWellFormed;
    DeliveredReadsBack(codec, wire, body, trailers, after, l);
    r := Receive(codec, wire + after, patience, reliable, l);
    if r.Err? {
      OnlyFaults(r.error, Received(codec, wire + after, l));
    }
  }

  /** At a chunk size of zero, any close-delimited response at all is forwarded as a complete, empty
      one; only a failing endpoint keeps it from succeeding. */
  method ForwardAtZero(body: Bytes, patience: nat, reliable: bool, eager: bool, l: Limits)
    returns (wire: Bytes, ok: bool)
    requires Covers(l, [])
    ensures ok ==> Decode(AtSize, wire, l) == Outcome([], Ended([], []), true)
    ensures reliable && eager ==> ok
  {
    hide Decode, Delivers, BodyForwarder.Valid, BodyForwarder.Honest, BodyReader.Valid, W.BodyWriter.Valid, Covers;
    var reader := NewReader(W.Eof, body, patience, reliable, l);
    assert reader.View() == Outcome(body, Ended([], []), true);
    var sink := new Sink(patience, reliable, eager);
    var writer := new W.BodyWriter(sink, W.Chunked);
    var f := new BodyForwarder(0, reader, writer, []);
    var r := f.Finish(0);
    wire, ok := sink.wire, r.Ready? && r.value.Ok?;
    if ok {
      assert f.BodyWire() == wire && wire + [] == wire;
      assert f.Payload() == [] && f.TrailersOut() == [];
      DeliveredReadsBack(f.writer.codec, wire, [], [], [], l);
    }
  }

  /** What a forwarder has left cut short is never read as a complete body. */
  method ReadCutShort(codec: W.Codec, wire: Bytes, patience: nat, reliable: bool, l: Limits)
    returns (r: Result<ReadBody, BodyError>)
    requires CutShort(codec, wire) && (codec.Length? || (codec.Chunked? && l.maxLine >= 18))
    ensures r.Err?
  {
    hide Decode, LengthOutcome;
    r := Receive(codec, wire, patience, reliable, l);
  }
}
