/** The exchange of both bodies of one request and its response. */
module Exchanger {
  import opened Bytes
  import opened Results
  import opened ChunkedCoding
  import opened IoBuffer
  import opened Endpoints
  import opened BodyReaders
  import opened BodyWriters
  import opened Forwarder

  /** Both halves of a connection. */
  datatype Connection = Connection(reader: BytesReader, writer: Sink)

  /** What may be said of a half-connection handed back after `f` wrote its body to it. */
  ghost predicate WroteWhole(f: BodyForwarder, sink: Sink)
    reads f.writer, f.writer.sink
  {
    && sink == f.writer.sink && !f.writer.codec.Eof?
    && f.total.end.Ended?
    && Delivers(f.writer.codec, f.BodyWire(), f.Payload(), f.TrailersOut())
    && sink.flushed == |sink.wire|
  }

  /** What may be said of a half-connection handed back after `f` read its body from it. */
  ghost predicate ReadWhole(f: BodyForwarder, stream: BytesReader)
    reads f.reader.Repr()
  {
    && stream == f.reader.Stream() && !f.reader.Eof? && f.reader.recyclable
    && f.total.end.Ended? && f.reader.Valid()
    && stream.Contents() == f.total.end.rest
  }

  /** What may be said of everything `f` handed back. */
  ghost predicate Concluded(f: BodyForwarder, h: Handback)
    reads f.writer, f.writer.sink, f.reader.Repr()
  {
    && f.total.end.Ended?
    && (h.reader.Some? <==> !f.reader.Eof? && f.reader.recyclable)
    && (h.reader.Some? ==> ReadWhole(f, h.reader.value))
    && (h.writer.Some? <==> !f.writer.codec.Eof?)
    && (h.writer.Some? ==> WroteWhole(f, h.writer.value))
  }

  /** One direction, driven to its end. */
  method FinishOne(f: BodyForwarder, turns: nat) returns (r: Poll<Result<Handback, CopyError>>)
    requires f.Valid()
    modifies f.Repr()
    ensures SameFraming(old(f.writer.codec), f.writer.codec) && f.Honest()
    ensures r.Pending? ==> f.chunkSize == 0
    ensures r.Ready? && r.value.Ok? ==> Concluded(f, r.value.value)
    ensures r.Ready? && r.value.Err? ==> Blames(r.value.error, f.total, old(f.errored))
    ensures !old(f.errored) && f.total.end.Ended? && f.total.fits && f.Sound() ==>
      (r.Ready? && r.value.Ok? <==> old(f.GetsThrough()))
  {
    hide BodyForwarder.GetsThrough;
    hide Delivers, BodyReader.Valid, BodyForwarder.Valid, BodyForwarder.TrailersOut, BodyForwarder.BodyWire;
    hide BodyForwarder.Honest, BodyForwarder.Payload, BodyForwarder.Stuck, BodyForwarder.Starving, IsFault, Blames;
    r := f.Finish(turns);
  }

  /** The connections that come back: the backend's with its reader, as a request's writer always comes
      back, and the frontend's when both of its halves do. */
  function PairUp(f2b: Handback, b2f: Handback): (Option<Connection>, Option<Connection>)
    requires f2b.writer.Some?
  {
    (if f2b.reader.Some? && b2f.writer.Some?
       then Some(Connection(f2b.reader.value, b2f.writer.value)) else None,
     if b2f.reader.Some? then Some(Connection(b2f.reader.value, f2b.writer.value)) else None)
  }

  /** `ProxyBodyExchanger::finish`: drive both forwarders, then pair what they give back into the
      two connections. The forwarders share nothing, so driving them side by side and driving them
      one after the other come to the same; the call is left Pending when either of them is.

      A connection comes back only at a message boundary: everything owed to it is written and
      flushed, and its reader is at the first byte after the message just read. One whose reader or
      writer was delimited by close never comes back. Two complete bodies over endpoints that do not
      fail succeed exactly if both get through; one that was cut short never does, whatever the other one comes to; and
      neither wire is ever taken for a complete body other than its own. */
  method Finish(request: BodyForwarder, response: BodyForwarder, turns: nat)
    returns (r: Poll<Result<(Option<Connection>, Option<Connection>), CopyError>>)
    requires request.Valid() && response.Valid() && request.Repr() !! response.Repr()
    requires !request.reader.Eof? && !request.writer.codec.Eof?
    modifies request.Repr(), response.Repr()
    ensures request.chunkSize > 0 && response.chunkSize > 0 ==> r.Ready?
    ensures r.Ready? && r.value.Ok? ==> request.total.end.Ended? && response.total.end.Ended?
    ensures r.Ready? && r.value.Ok? && r.value.value.0.Some? ==>
      ReadWhole(request, r.value.value.0.value.reader) && WroteWhole(response, r.value.value.0.value.writer)
    ensures r.Ready? && r.value.Ok? && r.value.value.1.Some? ==>
      ReadWhole(response, r.value.value.1.value.reader) && WroteWhole(request, r.value.value.1.value.writer)
    ensures
      && !old(request.errored) && request.total.end.Ended? && request.total.fits
      && !old(response.errored) && response.total.end.Ended? && response.total.fits
      && request.Sound() && response.Sound()
      ==> (r.Ready? && r.value.Ok? <==> old(request.GetsThrough() && response.GetsThrough()))
    ensures request.Honest() && response.Honest()
    ensures r.Ready? && r.value.Err? ==>
      || Blames(r.value.error, response.total, old(response.errored))
      || Blames(r.value.error, request.total, old(request.errored))
    ensures r.Ready? && r.value.Ok? ==>
      (r.value.value.0.Some? <==> request.reader.recyclable && !response.writer.codec.Eof?)
    ensures r.Ready? && r.value.Ok? ==>
      (r.value.value.1.Some? <==> !response.reader.Eof? && response.reader.recyclable)
  {
    hide BodyForwarder.Valid, BodyForwarder.Honest, BodyForwarder.GetsThrough, ReadWhole, WroteWhole, Blames;
    var f2b := FinishOne(request, turns);
    var b2f := FinishOne(response, turns);
    if f2b.Pending? || b2f.Pending? {
      return Poll.Pending;
    }
    if b2f.value.Err? {
      return Poll.Ready(Err(b2f.value.error));
    }
    if f2b.value.Err? {
      return Poll.Ready(Err(f2b.value.error));
    }
    return Poll.Ready(Ok(PairUp(f2b.value.value, b2f.value.value)));
  }
}
