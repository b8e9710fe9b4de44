/** The body forwarder: pulls from a body reader, pushes through a body writer, and may be left and
    polled again at any point. The request and the response forwarder are this one machine. */
module Forwarder {
  import opened Bytes
  import opened Results
  import opened FieldSection
  import opened BodyErrors
  import opened ChunkedCoding
  import opened IoBuffer
  import opened Endpoints
  import opened ChunkedReader
  import opened BodyReaders
  import opened BodyWriters
  import opened FieldSelect
  import opened ChunkLine

  datatype CopyError =
    | ReadFailed(read: BodyError)
    | WriteFailed(write: BodyError)
    | ForwardAfterError
    | CopyIncomplete

  datatype StepOutcome = NeedInput | Working

  /** What a finished forwarder gives back for reuse. */
  datatype Handback = Handback(reader: Option<BytesReader>, writer: Option<Sink>)

  /** An error that only a failing endpoint can cause. */
  predicate IsFault(e: CopyError) {
    e.WriteFailed? || (e.ReadFailed? && e.read.BodyReadError?)
  }

  /** Which writer a message body may be forwarded through, given the reader it comes from. */
  predicate Paired(reader: BodyReader, codec: Codec) {
    match reader
    case TE(_, _) => codec.Chunked? || codec.Eof?
    case CL(r, _) => codec == Length(r.length, 0)
    case Eof(_) => codec.Chunked? || codec.Eof?
    case Bodyless(_, _) => codec.Bodyless?
  }

  /** The request side: `BackendProxyRequest::forward`. */
  function RequestCodec(reader: BodyReader): (c: Codec)
    requires !reader.Eof?
    ensures Paired(reader, c) && !c.Eof?
  {
    match reader
    case TE(_, _) => Chunked
    case CL(r, _) => Length(r.length, 0)
    case Bodyless(_, _) => Codec.Bodyless
  }

  /** The response side: `forward_response_head`. A client that cannot chunk gets whatever has no
      length delimited by close. */
  function ResponseCodec(reader: BodyReader, clientCannotChunk: bool): (c: Codec)
    ensures Paired(reader, c)
    ensures if clientCannotChunk then !c.Chunked? else !c.Eof?
  {
    match reader
    case TE(_, _) => if clientCannotChunk then Codec.Eof else Chunked
    case CL(r, _) => Length(r.length, 0)
    case Bodyless(_, _) => Codec.Bodyless
    case Eof(_) => if clientCannotChunk then Codec.Eof else Chunked
  }

  /** The encoding never changes; only a content-length offset moves. */
  predicate SameFraming(before: Codec, after: Codec) {
    if before.Length? then after.Length? && after.total == before.total else after == before
  }

  /** What there is to forward of the source body `o`: all of it, but nothing of a close-delimited one
      that is read zero bytes at a time. */
  function PayloadOf(reader: BodyReader, chunkSize: nat, o: Outcome): Bytes {
    if chunkSize == 0 && reader.Eof? then [] else o.body
  }

  /** The trailers that go with it. */
  function TrailersOf(reader: BodyReader, codec: Codec, o: Outcome, forbidden: seq<Bytes>): (trailers: seq<Field>)
    requires o.end.Ended?
    ensures !codec.Chunked? ==> trailers == []
  {
    if reader.TE? && codec.Chunked? then Without(o.end.trailers, forbidden) else []
  }

  /** Of the source's trailers, a chunked receiver gets every value of every name that is not forbidden
      and none of any other, in order; every other receiver gets none. */
  lemma TrailersKept(reader: BodyReader, codec: Codec, o: Outcome, forbidden: seq<Bytes>, name: Bytes)
    requires o.end.Ended?
    ensures Named(TrailersOf(reader, codec, o, forbidden), name)
         == if reader.TE? && codec.Chunked? && !Listed(name, forbidden) then Named(o.end.trailers, name) else []
    ensures IsSubsequence(TrailersOf(reader, codec, o, forbidden), o.end.trailers)
  {
    hide Listed;
    NamedWithout(o.end.trailers, forbidden, name);
    WithoutInOrder(o.end.trailers, forbidden);
  }

  /** Why a forward may fail, when `o` is the source body and `latched` says that it had failed before. */
  predicate Blames(e: CopyError, o: Outcome, latched: bool) {
    match e
    case ReadFailed(e) => Explains(e, o)
    case WriteFailed(e) => e.BodyWriteError?
    case ForwardAfterError => latched
    case CopyIncomplete => false
  }

  /** `wire` carries all of `body` and `trailers` in the encoding `codec`. */
  ghost predicate Delivers(codec: Codec, wire: Bytes, body: Bytes, trailers: seq<Field>) {
    match codec
    case Chunked => exists cs :: Sized64(cs) && Flatten(cs) == body && wire == EncodeBody(cs, trailers)
    case Length(total, _) => wire == body && |body| == total
    case _ => wire == body
  }

  /** What a receiver makes of `wire` when it frames it the way `codec` says. */
  function Received(codec: Codec, wire: Bytes, l: Limits): Outcome {
    match codec
    case Chunked => Decode(AtSize, wire, l)
    case Length(total, _) => LengthOutcome(total, wire)
    case Eof => Outcome(wire, Ended([], []), true)
    case Bodyless => Stop(Ended([], wire), true)
  }

  /** A delivered body reads back: the receiver gets that body and those trailers, and, unless the
      end is the close, finds exactly the bytes of the next message after it. */
  lemma DeliveredReadsBack(codec: Codec, wire: Bytes, body: Bytes, trailers: seq<Field>, t: Bytes, l: Limits)
    requires Delivers(codec, wire, body, trailers) && AllWellFormed(trailers)
    requires codec.Bodyless? ==> body == []
    requires codec.Eof? ==> t == []
    requires codec.Chunked? ==> Covers(l, trailers)
    ensures Received(codec, wire + t, l)
         == Outcome(body, Ended(if codec.Chunked? then trailers else [], t), true)
  {
    hide Decode;
    match codec {
      case Chunked =>
        var cs :| Sized64(cs) && Flatten(cs) == body && wire == EncodeBody(cs, trailers);
        RoundTrip(cs, trailers, t, l);
      case Length(_, _) =>
        assert (wire + t)[|body|..] == t && (wire + t)[..|body|] == body;
      case Eof =>
        assert wire + t == wire;
      case Bodyless =>
        assert wire + t == t;
    }
  }

  /** A complete outcome, if `o` is one, is `body` with `trailers` and nothing after it. */
  ghost predicate EndsAs(o: Outcome, body: Bytes, trailers: seq<Field>) {
    o.end.Ended? ==> o.body == body && o.end == Ended(trailers, [])
  }

  /** `wire` is not a complete body other than `body` with `trailers` to anyone who frames it the way
      `codec` says; a close-delimited one can be told from a shorter one by nobody. */
  ghost predicate NothingElse(codec: Codec, wire: Bytes, body: Bytes, trailers: seq<Field>) {
    match codec
    case Chunked => forall l: Limits :: Covers(l, trailers) ==> EndsAs(Decode(AtSize, wire, l), body, trailers)
    case Length(total, _) => EndsAs(LengthOutcome(total, wire), body, [])
    case _ => wire <= body
  }

  lemma CoversLines(l: Limits, trailers: seq<Field>)
    requires Covers(l, trailers)
    ensures l.maxLine >= 18
  {
  }

  /** One wire delivers one body. */
  lemma DeliveredOnce(codec: Codec, wire: Bytes, body: Bytes, other: Bytes, trailers: seq<Field>)
    requires Delivers(codec, wire, body, trailers) && AllWellFormed(trailers)
    ensures Delivers(codec, wire, other, trailers) <==> body == other
  {
    hide Decode, AllWellFormed, PrintSection;
    if codec.Chunked? && Delivers(codec, wire, other, trailers) {
      var l := Limits(18, |PrintSection(trailers)|, |trailers|);
      DeliveredReadsBack(codec, wire, body, trailers, [], l);
      DeliveredReadsBack(codec, wire, other, trailers, [], l);
    }
  }

  lemma DeliveredIsNothingElse(codec: Codec, wire: Bytes, body: Bytes, trailers: seq<Field>)
    requires Delivers(codec, wire, body, trailers) && AllWellFormed(trailers)
    ensures NothingElse(codec, wire, body, trailers)
  {
    hide Decode, AllWellFormed, Covers;
    if codec.Chunked? {
      forall l | Covers(l, trailers)
        ensures EndsAs(Decode(AtSize, wire, l), body, trailers)
      {
        DeliveredReadsBack(codec, wire, body, trailers, [], l);
        assert wire + [] == wire;
      }
    }
  }

  /** `wire` can not be taken for a complete body by anyone who frames it the way `codec` says. */
  ghost predicate CutShort(codec: Codec, wire: Bytes) {
    match codec
    case Chunked => forall l: Limits :: l.maxLine >= 18 ==> Decode(AtSize, wire, l).end == Truncated
    case Length(total, _) => LengthOutcome(total, wire).end == Truncated
    case _ => true
  }

  /** Nobody who frames `wire` the way `codec` says takes it for a complete body, other than the one
      there is to forward of the source body `o`. */
  ghost predicate OnlyAs(codec: Codec, wire: Bytes, reader: BodyReader, chunkSize: nat, o: Outcome,
                         forbidden: seq<Bytes>)
  {
    if o.end.Ended?
    then NothingElse(codec, wire, PayloadOf(reader, chunkSize, o), TrailersOf(reader, codec, o, forbidden))
    else CutShort(codec, wire)
  }

  class BodyForwarder {
    const chunkSize: u64
    const reader: BodyReader
    const writer: BodyWriter
    const forbidden: seq<Bytes>
    var pending: Bytes
    var readDone: bool
    var errored: bool
    /** The writer state was taken out for a step that failed, and never put back. */
    var poisoned: bool

    /** The whole source body, and how it ends. */
    ghost const total: Outcome

    /** Reading a close-delimited body zero bytes at a time. */
    ghost predicate Starving() {
      chunkSize == 0 && reader.Eof?
    }

    ghost function Payload(): Bytes {
      PayloadOf(reader, chunkSize, total)
    }

    constructor (chunkSize: u64, reader: BodyReader, writer: BodyWriter, forbidden: seq<Bytes>)
      requires reader.Valid() && writer.Valid()
      requires writer.phase.Ready? && writer.closed == [] && writer.current == []
      requires Paired(reader, writer.codec) && (reader.CL? ==> reader.cl.offset == 0)
      ensures Valid() && total == reader.View() && !errored && !readDone && pending == []
      ensures this.chunkSize == chunkSize && this.forbidden == forbidden
      ensures this.reader == reader && this.writer == writer
    {
      this.chunkSize, this.reader, this.writer, this.forbidden := chunkSize, reader, writer, forbidden;
      pending, readDone, errored, poisoned := [], false, false, false;
      total := reader.View();
    }

    ghost function Repr(): set<object> {
      {this} + reader.Repr() + writer.Repr()
    }

    /** How the pending bytes relate to the cycle in flight. Close says nothing: `pending` is empty
        when the cycle is about to close, and may be refilled before it has. */
    ghost predicate Coupled()
      reads this, writer
    {
      match writer.phase
      case Ready => true
      case Open(n, _, _) => n == |pending| > 0
      case Write(n, at) => n - at == |pending| > 0
      case Close(_, _) => true
      case Finish(_, _, _) => false
      case Abort(_, _) => false
    }

    ghost predicate InCycle()
      reads writer
    {
      !writer.phase.Finish? && !writer.phase.Abort?
    }

    ghost predicate Framed()
      reads writer
    {
      && (reader.Eof? ==> total.end == Ended([], []) && total.fits)
      && match writer.codec
         case Length(n, _) =>
           reader.CL? && |total.body| <= n && (total.end.Ended? <==> |total.body| == n)
         case Bodyless => total.body == []
         case _ => true
    }

    /** The two ends of the forwarder share nothing. */
    ghost predicate Separate() {
      this !in reader.Repr() && this !in writer.Repr() && reader.Repr() !! writer.Repr()
    }

    /** What holds even after an error: the wire carries a whole number of cycles and a part of one,
        and their payload, followed by the pending bytes, is a prefix of what there is to forward. */
    ghost predicate Intact()
      reads Repr()
    {
      && Separate() && |pending| <= chunkSize
      && reader.Valid() && writer.Valid() && Framed() && InCycle()
      && writer.Sent() + pending <= Payload()
      && (chunkSize == 0 ==> writer.Sent() == [])
    }

    /** Conservation: the source bytes that have left the reader are on the wire or pending, in
        that order, and the reader still has all the others. */
    ghost predicate Conserved()
      reads Repr()
    {
      reader.Valid() && (!Starving() ==> Advances(total, writer.Sent() + pending, reader.View()))
    }

    ghost predicate ReadOut()
      reads Repr()
    {
      reader.Valid() && reader.Drained() && reader.View().body == [] && reader.View().end.Ended?
    }

    ghost predicate Valid()
      reads Repr()
    {
      && Intact() && (poisoned ==> errored)
      && (!errored ==> Coupled() && Conserved() && (readDone ==> ReadOut()))
    }

    /** What every forward operation that is not the last one makes smaller, in this order: body
        still to be read, stalls the endpoints have left, bytes pending, phases to the next Write. */
    ghost function Unread(): nat
      reads Repr()
    {
      if reader.Valid() then |reader.View().body| + (if readDone then 0 else 1) else 0
    }

    ghost function Stalls(): nat
      reads Repr()
    {
      reader.Patience() + writer.sink.patience
    }

    /** A byte of the body is buffered, and none are asked for. */
    ghost predicate Stuck()
      reads Repr()
    {
      chunkSize == 0 && !errored && !readDone && pending == [] && reader.Valid() && reader.DataBuffered()
    }

    /** At chunk size zero, only a body gets through of which nothing is ever seen. */
    ghost predicate GetsThrough()
      reads Repr()
    {
      chunkSize > 0 || if reader.Eof? then !Stuck() else total.body == []
    }

    lemma StuckOnBody()
      requires Valid() && Stuck()
      ensures !Starving() ==> total.body != []
    {
      hide BodyReader.View, BodyReader.DataBuffered;
      reader.DataIsBody();
    }

    /** Neither endpoint ever fails, nor, ready, takes nothing. */
    predicate Sound() {
      reader.Reliable() && writer.sink.Sound()
    }

    ghost function PhaseRank(): nat
      reads writer
    {
      match writer.phase
      case Close(_, _) => 3
      case Ready => 2
      case Open(_, _, _) => 1
      case _ => 0
    }

    /** The Write arm of a step: hand over what the sink takes, and close the cycle with the last
        of it. */
    method StepWrite() returns (r: Poll<Result<StepOutcome, CopyError>>)
      requires writer.Valid() && writer.phase.Write? && Coupled()
      modifies this`pending, writer, writer.sink
      ensures writer.Valid() && InCycle() && (r.Pending? || r.value.Ok? ==> Coupled())
      ensures SameFraming(old(writer.codec), writer.codec)
      ensures writer.sink.patience <= old(writer.sink.patience)
      ensures writer.sink.reliable && r.Ready? && r.value.Err? ==> !r.value.error.WriteFailed?
      ensures writer.Sent() + pending == old(writer.Sent() + pending)
      ensures |pending| <= |old(pending)|
      ensures r.Pending? ==> pending == old(pending) && writer.sink.patience < old(writer.sink.patience)
      ensures r.Ready? && r.value.Err? ==> r.value.error.WriteFailed? && r.value.error.write.BodyWriteError?
      ensures r.Ready? && r.value.Ok? ==> r.value.value.Working?
      ensures r.Ready? && r.value.Ok? ==>
        writer.sink.patience < old(writer.sink.patience) || |pending| < |old(pending)|
    {
      hide Flatten, BodyWriter.Valid;
      var p := writer.PollWrite(pending);
      match p {
        case Pending =>
          return Poll.Pending;
        case Ready(Err(e)) =>
          return Poll.Ready(Err(WriteFailed(e)));
        case Ready(Ok(n)) =>
          assert pending == pending[..n] + pending[n..];
          ghost var done := Flatten(writer.closed);
          assert done + writer.current + pending[n..] == done + old(writer.current) + pending;
          pending := pending[n..];
          if pending == [] {
            var c := writer.IntoClose();
            if c.Err? {
              return Poll.Ready(Err(WriteFailed(c.error)));
            }
          }
          return Poll.Ready(Ok(Working));
      }
    }

    /** The writer's budget has room for everything pending. */
    ghost predicate Budgeted()
      reads this, writer
    {
      match writer.codec
      case Length(total, offset) => writer.phase.Ready? ==> offset + |pending| <= total
      case Bodyless => pending == []
      case _ => true
    }

    lemma PendingFits()
      requires Valid() && !errored
      ensures Budgeted()
    {
      hide Decode, EncodeChunks, Flatten, SizeLine, LengthOutcome;
      assert writer.Sent() + pending <= Payload() <= total.body;
    }

    /** One step of the writer. The phase is out of its place while it is being stepped; a step that
        fails leaves it out. */
    method StepOnce() returns (r: Poll<Result<StepOutcome, CopyError>>)
      requires writer.Valid() && Framed() && InCycle() && Coupled() && Budgeted() && |pending| < U64_LIMIT
      modifies this`pending, this`poisoned, writer, writer.sink
      ensures writer.Valid() && Framed() && InCycle()
      ensures SameFraming(old(writer.codec), writer.codec)
      ensures old(poisoned) ==> r == Poll.Ready(Err(ForwardAfterError)) && writer.sink.wire == old(writer.sink.wire)
      ensures writer.sink.patience <= old(writer.sink.patience)
      ensures writer.sink.Sound() && r.Ready? && r.value.Err? ==> !r.value.error.WriteFailed?
      ensures writer.Sent() + pending == old(writer.Sent() + pending)
      ensures |pending| <= |old(pending)|
      ensures poisoned <==> r.Ready? && r.value.Err?
      ensures !poisoned ==> Coupled()
      ensures r.Pending? ==> pending == old(pending) && writer.sink.patience < old(writer.sink.patience)
      ensures !old(poisoned) && poisoned ==> r.value.error.WriteFailed? && r.value.error.write.BodyWriteError?
      ensures r == Poll.Ready(Ok(NeedInput)) ==> pending == [] && writer.phase.Ready?
      ensures r == Poll.Ready(Ok(Working)) ==>
        || writer.sink.patience < old(writer.sink.patience)
        || |pending| < |old(pending)|
        || (pending == old(pending) && PhaseRank() < old(PhaseRank()))
    {
      hide BodyWriter.Valid;
      if poisoned {
        return Poll.Ready(Err(ForwardAfterError));
      }
      if writer.phase.Ready? && pending == [] {
        return Poll.Ready(Ok(NeedInput));
      }
      assert this !in writer.Repr();
      match writer.phase {
        case Ready =>
          var o := writer.OpenChunk(|pending|);
          poisoned := o.Err?;
          r := Stepped(Poll.Ready(o));
        case Open(_, _, _) =>
          var p := writer.PollOpenToWrite();
          poisoned := p.Ready? && p.value.Err?;
          r := Stepped(p);
        case Write(_, _) =>
          r := StepWrite();
          poisoned := r.Ready? && r.value.Err?;
        case Close(_, _) =>
          var p := writer.PollCloseToReady();
          poisoned := p.Ready? && p.value.Err?;
          r := Stepped(p);
      }
    }

    /** Nearer to the end of the body than before: less to read, or as much and fewer stalls left, or
        as many and less pending, or as much and nearer to the next Write. */
    twostate predicate Nearer()
      reads Repr()
    {
      || Unread() < old(Unread())
      || (Unread() == old(Unread()) && Stalls() < old(Stalls()))
      || (Unread() == old(Unread()) && Stalls() == old(Stalls()) && |pending| < |old(pending)|)
      || (Unread() == old(Unread()) && Stalls() == old(Stalls()) && pending == old(pending)
          && PhaseRank() < old(PhaseRank()))
    }

    /** `forward`, polled once. `true` once the body has been forwarded in full; an error latches. Not
        being polled again for a while is all that cancelling a `forward` amounts to, so everything
        promised of Pending is promised of that. */
    method PollForward() returns (r: Poll<Result<bool, CopyError>>)
      requires Valid()
      modifies Repr()
      ensures Valid()
      ensures SameFraming(old(writer.codec), writer.codec)
      ensures old(errored) ==>
        && r == Poll.Ready(Err(ForwardAfterError))
        && writer.sink.wire == old(writer.sink.wire)
        && reader.Stream().Valid() && reader.Stream().Contents() == old(reader.Stream().Contents())
      ensures errored <==> r.Ready? && r.value.Err?
      ensures errored && !old(errored) ==> match r.value.error
        case ReadFailed(e) => Explains(e, total)
        case WriteFailed(e) => e.BodyWriteError?
        case _ => false
      ensures Sound() && r.Ready? && r.value.Err? ==> !IsFault(r.value.error)
      ensures r == Poll.Ready(Ok(true)) ==> readDone && pending == [] && writer.phase.Ready?
      ensures r.Pending? || r == Poll.Ready(Ok(false)) ==> Nearer() || (r.Ready? && Stuck())
      ensures chunkSize == 0 && r.Ready? && r.value.Ok? ==> readDone || Stuck()
      ensures old(Stuck()) ==> r == Poll.Ready(Ok(false)) && Stuck()
      ensures Starving() && !old(Stuck()) ==> !Stuck()
    {
      hide BodyWriter.Valid, BodyWriter.Sent, BodyReader.View, BodyReader.Drained;
      hide BodyReader.DataBuffered, BodyReader.Patience;
      if errored {
        return Poll.Ready(Err(ForwardAfterError));
      }
      r := ForwardInner();
      if r.Ready? && r.value.Err? {
        errored := true;
      }
    }

    /** `forward_inner`: a read when nothing is pending, a writer step otherwise. */
    method ForwardInner() returns (r: Poll<Result<bool, CopyError>>)
      requires Valid() && !errored
      modifies this`pending, this`readDone, this`poisoned, reader.Repr(), writer.Repr()
      ensures Intact() && SameFraming(old(writer.codec), writer.codec)
      ensures r.Pending? || r.value.Ok? ==> Valid()
      ensures r.Ready? && r.value.Err? ==> match r.value.error
        case ReadFailed(e) => Explains(e, total)
        case WriteFailed(e) => e.BodyWriteError?
        case _ => false
      ensures Sound() && r.Ready? && r.value.Err? ==> !IsFault(r.value.error)
      ensures r == Poll.Ready(Ok(true)) ==> readDone && pending == [] && writer.phase.Ready?
      ensures r.Pending? || r == Poll.Ready(Ok(false)) ==> Nearer() || (r.Ready? && Stuck())
      ensures chunkSize == 0 && r.Ready? && r.value.Ok? ==> readDone || Stuck()
      ensures old(Stuck()) ==> r == Poll.Ready(Ok(false)) && Stuck()
      ensures Starving() && !old(Stuck()) ==> !Stuck()
    {
      hide BodyWriter.Valid, BodyWriter.Sent, BodyReader.View, BodyReader.Drained, BodyReader.DataBuffered;
      if pending == [] && !readDone {
        r := Refill();
      } else {
        r := Drive();
      }
    }

    /** The read arm. Nothing changes until the read resolves. */
    method Refill() returns (r: Poll<Result<bool, CopyError>>)
      requires Valid() && !errored && pending == [] && !readDone
      modifies this`pending, this`readDone, reader.Repr()
      ensures Intact()
      ensures r.Pending? || r.value.Ok? ==> Valid()
      ensures r.Pending? ==> Unread() == old(Unread()) && reader.Patience() < old(reader.Patience())
      ensures reader.Reliable() && r.Ready? && r.value.Err? ==> !IsFault(r.value.error)
      ensures r.Ready? && r.value.Ok? ==> !r.value.value && (Unread() < old(Unread()) || Stuck())
      ensures chunkSize == 0 && r.Ready? && r.value.Ok? ==> readDone || Stuck()
      ensures old(Stuck()) ==> r == Poll.Ready(Ok(false)) && Stuck()
      ensures Starving() && !old(Stuck()) ==> !Stuck()
      ensures r.Ready? && r.value.Err? ==> r.value.error.ReadFailed? && Explains(r.value.error.read, total)
    {
      hide BodyWriter.Valid, BodyWriter.Sent, BodyReader.View, BodyReader.Valid, BodyReader.Repr, BodyReader.Drained;
      hide BodyReader.DataBuffered, BodyReader.Patience, BodyReader.Stream;
      ghost var sent, v := writer.Sent(), reader.View();
      assert sent + [] == sent;
      EofIsWhole();
      var p := reader.PollRead(chunkSize);
      match p {
        case Pending =>
          StillConserved(sent, v, [], reader.View());
          return Poll.Pending;
        case Ready(Err(e)) =>
          if reader.Eof? {
            OnlyFaults(e, v);
          } else {
            ExplainsEarlier(e, total, sent, v);
          }
          return Poll.Ready(Err(ReadFailed(e)));
        case Ready(Ok(Some(buf))) =>
          StillConserved(sent, v, buf, reader.View());
          pending := buf;
        case Ready(Ok(None)) =>
          StillConserved(sent, v, [], reader.View());
          readDone := true;
      }
      return Poll.Ready(Ok(false));
    }

    lemma StillConserved(sent: Bytes, v: Outcome, b: Bytes, v': Outcome)
      requires !Starving() ==> Advances(total, sent, v)
      ensures !Starving() && Advances(v, b, v') ==> Advances(total, sent + b, v')
    {
      if !Starving() && Advances(v, b, v') {
        AdvancesFurther(total, sent, v, b, v');
      }
    }

    lemma EofIsWhole()
      requires reader.Valid()
      ensures reader.Eof? ==> reader.View().end == Ended([], []) && reader.View().fits
    {
    }

    /** The write arm. Reaching it with nothing pending means that the reader is done. */
    method Drive() returns (r: Poll<Result<bool, CopyError>>)
      requires Valid() && !errored && !(pending == [] && !readDone)
      modifies this`pending, this`poisoned, writer, writer.sink
      ensures Intact() && Conserved()
      ensures SameFraming(old(writer.codec), writer.codec)
      ensures r.Pending? || r.value.Ok? ==> Valid()
      ensures Unread() == old(Unread())
      ensures reader.Patience() == old(reader.Patience())
      ensures writer.sink.patience <= old(writer.sink.patience)
      ensures writer.sink.Sound() && r.Ready? && r.value.Err? ==> !r.value.error.WriteFailed?
      ensures r.Pending? ==> writer.sink.patience < old(writer.sink.patience)
      ensures r == Poll.Ready(Ok(true)) ==> readDone && pending == [] && writer.phase.Ready?
      ensures r == Poll.Ready(Ok(false)) ==>
        || writer.sink.patience < old(writer.sink.patience)
        || |pending| < |old(pending)|
        || (pending == old(pending) && PhaseRank() < old(PhaseRank()))
      ensures r.Ready? && r.value.Err? ==> r.value.error.WriteFailed? && r.value.error.write.BodyWriteError?
    {
      hide BodyWriter.Valid, BodyWriter.Sent, BodyReader.View, BodyReader.Drained;
      PendingFits();
      ghost var v := reader.View();
      var outcome := StepOnce();
      assert writer !in reader.Repr() && writer.sink !in reader.Repr() && this !in reader.Repr();
      assert reader.Valid();
      match outcome {
        case Pending => return Poll.Pending;
        case Ready(Err(e)) => return Poll.Ready(Err(e));
        case Ready(Ok(NeedInput)) => return Poll.Ready(Ok(readDone));
        case Ready(Ok(Working)) => return Poll.Ready(Ok(false));
      }
    }

    /** The trailers a receiver of the forwarded body gets. */
    ghost function TrailersOut(): seq<Field>
      reads writer
      requires total.end.Ended?
    {
      TrailersOf(reader, writer.codec, total, forbidden)
    }

    /** Everything the body put on the wire. */
    ghost function BodyWire(): Bytes
      reads writer, writer.sink
    {
      if |writer.base| <= |writer.sink.wire| then writer.sink.wire[|writer.base|..] else []
    }

    ghost predicate Honest()
      reads writer, writer.sink
    {
      OnlyAs(writer.codec, BodyWire(), reader, chunkSize, total, forbidden)
    }

    /** Forwards what is left, terminates the body, and hands back the connections that may be
        reused. `turns` is how many reads of zero bytes the caller sits through before it drops the
        call, which is then left Pending; at any other chunk size there are none.

        Success means that the source body was complete and that all there is to forward, with its
        permitted trailers, is on the wire and flushed; and the source stream is at the first byte
        after it. That is the whole source body exactly unless a close-delimited one was read zero
        bytes at a time. A source that was cut short or broken never succeeds. Whatever comes of it,
        nobody takes the wire for any other complete body. A complete source, on endpoints that do not
        fail and within the limits, succeeds exactly if it gets through; and what is stuck stays
        stuck. */
    method Finish(turns: nat) returns (r: Poll<Result<Handback, CopyError>>)
      requires Valid()
      modifies Repr()
      ensures SameFraming(old(writer.codec), writer.codec)
      ensures r.Ready? && r.value.Ok? ==> !old(errored) && total.end.Ended?
      ensures r.Ready? && r.value.Ok? ==> Delivers(writer.codec, BodyWire(), Payload(), TrailersOut())
      ensures r.Ready? && r.value.Ok? ==> AllWellFormed(TrailersOut()) && writer.sink.flushed == |writer.sink.wire|
      ensures r.Ready? && r.value.Ok? ==>
        (Delivers(writer.codec, BodyWire(), total.body, TrailersOut())
         <==> chunkSize > 0 || !reader.Eof? || total.body == [])
      ensures r.Ready? && r.value.Ok? ==> r.value.value.writer == if writer.codec.Eof? then None else Some(writer.sink)
      ensures r.Ready? && r.value.Ok? ==>
        r.value.value.reader == if !reader.Eof? && reader.recyclable then Some(reader.Stream()) else None
      ensures r.Ready? && r.value.Ok? && !reader.Eof? ==>
        reader.Valid() && reader.Stream().Contents() == total.end.rest
      ensures Honest() && writer.base <= writer.sink.wire
      ensures !old(errored) && total.end.Ended? && total.fits && Sound() ==>
        (r.Ready? && r.value.Ok? <==> old(GetsThrough()))
      ensures chunkSize == 0 && r.Ready? && r.value.Ok? ==> Payload() == []
      ensures old(errored) ==>
        && r == Poll.Ready(Err(ForwardAfterError))
        && writer.sink.wire == old(writer.sink.wire)
        && reader.Stream().Valid() && reader.Stream().Contents() == old(reader.Stream().Contents())
      ensures r.Pending? ==> chunkSize == 0 && Valid() && Stuck()
      ensures old(Stuck()) ==> r.Pending?
      ensures Starving() && !old(Stuck()) ==> r.Ready?
      ensures Sound() && r.Ready? && r.value.Err? ==> !IsFault(r.value.error)
      ensures r.Ready? && r.value.Err? ==> Blames(r.value.error, total, old(errored))
    {
      hide BodyWriter.Valid, BodyWriter.Sent, BodyReader.View, BodyReader.Drained, BodyReader.DataBuffered;
      hide Explains, Delivers, Honest, TrailersOf;
      var done, left := false, turns;
      while !done
        invariant SameFraming(old(writer.codec), writer.codec)
        invariant Valid() && errored == old(errored)
        invariant done ==> !errored && readDone && pending == [] && writer.phase.Ready?
        invariant old(Stuck()) ==> Stuck() && !done
        invariant Starving() && !old(Stuck()) ==> !Stuck()
        invariant old(errored) ==>
          && !done && writer.sink.wire == old(writer.sink.wire)
          && reader.Stream().Valid() && reader.Stream().Contents() == old(reader.Stream().Contents())
        decreases left, if done then 0 else 1, Unread(), Stalls(), |pending|, PhaseRank()
      {
        var p := PollForward();
        match p {
          case Pending =>
          case Ready(Ok(b)) =>
            done := b;
            if chunkSize == 0 && pending == [] && !readDone {
              if left == 0 {
                StillHonest();
                StuckOnBody();
                return Poll.Pending;
              }
              left := left - 1;
            }
          case Ready(Err(e)) =>
            StillHonest();
            if e.ReadFailed? && total.end.Ended? {
              OnlyFaults(e.read, total);
            }
            return Poll.Ready(Err(e));
        }
      }
      if !writer.phase.Ready? {
        return Poll.Ready(Err(CopyIncomplete));
      }
      SourceUsedUp();
      var ended := Terminate();
      if ended.Err? && ended.error.ReadFailed? {
        OnlyFaults(ended.error.read, total);
      }
      if ended.Ok? {
        DeliveredOnce(writer.codec, BodyWire(), Payload(), total.body, TrailersOut());
        DeliveredHonest();
      }
      return Poll.Ready(ended);
    }

    lemma SourceUsedUp()
      requires Valid() && !errored && readDone && pending == [] && writer.phase.Ready?
      ensures total.end.Ended? && total.end == reader.View().end
      ensures writer.Sent() == Flatten(writer.closed) == Payload()
    {
      hide Flatten, BodyReader.View, BodyReader.Drained;
      EofIsWhole();
      assert writer.Sent() + [] + [] == writer.Sent() == Flatten(writer.closed) + [] == Flatten(writer.closed);
    }

    /** Conservation, as a receiver of a chunked wire sees it in any reachable state, cancelled or
        not: it has the bytes sent so far and knows that more must come; those bytes, the pending
        ones and the ones still to be read are the source body. */
    lemma WireSoFar(l: Limits)
      requires Valid() && writer.codec.Chunked? && l.maxLine >= 18
      ensures var o := Decode(AtSize, BodyWire(), l);
        && o.end == Truncated && o.body + pending <= Payload()
        && (!errored && !Starving() ==> o.body + pending + reader.View().body == total.body)
    {
      hide Decode, EncodeChunks, Flatten, BodyWriter.Sent;
      writer.WireDecodes(l);
    }

    lemma DeliveredHonest()
      requires total.end.Ended? && AllWellFormed(TrailersOut())
      requires Delivers(writer.codec, BodyWire(), Payload(), TrailersOut())
      ensures Honest()
    {
      hide Delivers, NothingElse;
      DeliveredIsNothingElse(writer.codec, BodyWire(), Payload(), TrailersOut());
    }

    lemma StillHonest()
      requires Valid()
      ensures Honest() && writer.base <= writer.sink.wire
    {
      hide Decode, EncodeChunks, Flatten;
      match writer.codec {
        case Chunked =>
          forall l: Limits | l.maxLine >= 18
            ensures Decode(AtSize, BodyWire(), l).end == Truncated
          {
            writer.WireDecodes(l);
          }
        case _ =>
          assert BodyWire() == writer.Sent() <= writer.Sent() + pending <= Payload() <= total.body;
      }
    }

    /** The body's end has been started on, and may not be out. */
    lemma EndingHonest(fields: seq<Field>)
      requires writer.Valid() && Framed() && total.end.Ended? && AllWellFormed(fields) && fields == TrailersOut()
      requires Flatten(writer.closed) == Payload() && writer.current == []
      requires writer.phase.Ready? || (writer.phase.Finish? && writer.trailers == fields)
      ensures Honest() && writer.base <= writer.sink.wire
    {
      hide Decode, EncodeChunks, Flatten, LastChunk, AllWellFormed, Covers;
      assert writer.Sent() == Payload() + [] == Payload();
      match writer.codec {
        case Chunked =>
          forall l: Limits | Covers(l, fields)
            ensures EndsAs(Decode(AtSize, BodyWire(), l), Payload(), fields)
          {
            CoversLines(l, fields);
            if writer.phase.Ready? {
              writer.WireDecodes(l);
            } else {
              writer.FinishDecodes(l);
            }
          }
        case _ =>
          assert BodyWire() == writer.Image() == Payload();
          assert BodyWire()[|BodyWire()|..] == [];
      }
    }

    lemma BudgetSpent()
      requires writer.Valid() && Framed() && writer.phase.Ready? && total.end.Ended? && writer.Sent() == Payload()
      ensures writer.codec.Length? ==> writer.codec.offset == writer.codec.total
    {
      hide EncodeChunks, Flatten;
    }

    lemma TrailersOutWellFormed()
      requires reader.Valid() && total.end.Ended? && total.end == reader.View().end
      ensures AllWellFormed(TrailersOut())
    {
      hide Decode, WellFormed;
      if reader.TE? && writer.codec.Chunked? && reader.te.inner.Some? {
        TrailersWellFormed(reader.te.inner.value.Where(), reader.Stream().Contents(), reader.te.limits);
        WithoutWellFormed(total.end.trailers, forbidden);
      }
    }

    lemma EndedDelivers(fields: seq<Field>)
      requires writer.Valid() && Framed() && total.end.Ended?
      requires writer.phase.Finish? && writer.phase.flushed && writer.trailers == fields
      requires Flatten(writer.closed) == Payload()
      ensures Delivers(writer.codec, BodyWire(), Payload(), fields)
      ensures writer.sink.flushed == |writer.sink.wire|
    {
      hide EncodeChunks, Flatten, LastChunk;
      assert BodyWire() == writer.Image();
      assert !writer.codec.Chunked? ==> Flatten(writer.closed) + [] == Payload();
      assert writer.phase.data[..writer.phase.written] == writer.phase.data;
    }

    /** The second half of `finish`: drain the reader, sanitize its trailers, end the body. */
    method Terminate() returns (r: Result<Handback, CopyError>)
      requires Valid() && !errored && readDone && pending == [] && writer.phase.Ready?
      modifies Repr()
      ensures SameFraming(old(writer.codec), writer.codec)
      ensures total.end.Ended? && AllWellFormed(TrailersOut()) && (r.Err? ==> Honest())
      ensures writer.base <= writer.sink.wire
      ensures r.Ok? ==> Delivers(writer.codec, BodyWire(), Payload(), TrailersOut())
      ensures r.Ok? ==> writer.sink.flushed == |writer.sink.wire|
      ensures r.Ok? ==> r.value.writer == if writer.codec.Eof? then None else Some(writer.sink)
      ensures r.Ok? ==> r.value.reader == if !reader.Eof? && reader.recyclable then Some(reader.Stream()) else None
      ensures r.Ok? && !reader.Eof? ==> reader.Valid() && reader.Stream().Contents() == total.end.rest
      ensures Sound() && r.Err? ==> !IsFault(r.error)
      ensures r.Err? ==> match r.error
        case ReadFailed(e) => Explains(e, total)
        case WriteFailed(e) => e.BodyWriteError?
        case _ => false
    {
      hide BodyWriter.Valid, BodyReader.View, BodyReader.Drained, Explains, AllWellFormed, Delivers, Honest;
      EofIsWhole();
      SourceUsedUp();
      TrailersOutWellFormed();
      BudgetSpent();
      var d := reader.Drain();
      if d.Err? {
        ExplainsEarlier(d.error, total, old(writer.Sent() + pending), old(reader.View()));
        EndingHonest(TrailersOut());
        return Err(ReadFailed(d.error));
      }
      var fields: seq<Field> := [];
      if reader.TE? && writer.codec.Chunked? {
        fields := Retain(d.value.1, forbidden);
      }
      var w := EndBody(fields);
      EndingHonest(fields);
      if w.Ok? {
        EndedDelivers(fields);
      }
      r := match w
        case Ok(sink) => Ok(Handback(d.value.0, sink))
        case Err(e) => Err(WriteFailed(e));
    }

    /** `finish` on the writer, driven until its terminator is written and flushed. */
    method EndBody(fields: seq<Field>) returns (r: Result<Option<Sink>, BodyError>)
      requires writer.Valid() && writer.phase.Ready? && (!writer.codec.Chunked? ==> fields == [])
      modifies writer, writer.sink
      ensures writer.Valid() && writer.codec == old(writer.codec) && writer.closed == old(writer.closed)
      ensures writer.current == [] && (writer.phase.Ready? || (writer.phase.Finish? && writer.trailers == fields))
      ensures r.Ok? ==> writer.phase.Finish? && writer.phase.flushed
      ensures r.Ok? ==> r.value == if writer.codec.Eof? then None else Some(writer.sink)
      ensures writer.sink.Sound() && r.Err? ==> !r.error.BodyWriteError?
      ensures r.Err? ==>
        || r.error.BodyWriteError?
        || (writer.codec.Length? && writer.codec.offset < writer.codec.total && r.error.IncompleteBody?)
    {
      var f := writer.IntoFinish(fields);
      if f.Err? {
        return Err(f.error);
      }
      while true
        invariant writer.Valid() && writer.phase.Finish? && writer.trailers == fields
        invariant writer.codec == old(writer.codec) && writer.closed == old(writer.closed)
        decreases writer.sink.patience
      {
        hide BodyWriter.Valid;
        var p := writer.PollFinish();
        if p.Ready? {
          if p.value.Err? {
            return Err(p.value.error);
          }
          break;
        }
      }
      r := writer.IntoWriter();
    }
  }

  function Stepped(p: Poll<Result<Unit, BodyError>>): Poll<Result<StepOutcome, CopyError>> {
    match p
    case Pending => Poll.Pending
    case Ready(Ok(_)) => Poll.Ready(Ok(Working))
    case Ready(Err(e)) => Poll.Ready(Err(WriteFailed(e)))
  }
}
