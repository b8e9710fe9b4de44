/** The body writers as one typestate machine, Ready -> Open -> Write -> Close -> Ready, ending in
    Finish or Abort. The encoding is a tag; each phase keeps the cursor of the bytes it owes. */
module BodyWriters {
  import opened Bytes
  import opened Results
  import opened ChunkLine
  import opened FieldSection
  import opened BodyErrors
  import opened ChunkedCoding
  import opened Endpoints

  datatype Codec =
    | Bodyless
    | Length(total: u64, offset: u64)
    | Chunked
    | Eof

  datatype Phase =
    | Ready
    | Open(chunkLength: u64, header: Bytes, written: nat)
    | Write(chunkLength: u64, chunkOffset: u64)
    | Close(footerLen: nat, footerWritten: nat)
    | Finish(data: Bytes, written: nat, flushed: bool)
    | Abort(marked: bool, flushed: bool)

  /** Extending a partly written buffer on the wire. */
  lemma GrowsBy(base: Bytes, done: Bytes, buf: Bytes, from: nat, to: nat)
    requires from <= to <= |buf|
    ensures base + (done + buf[..from]) + buf[from..to] == base + (done + buf[..to])
  {
  }

  class BodyWriter {
    const sink: Sink
    var codec: Codec
    var phase: Phase

    /** The wire before the body, the payloads of the cycles closed so far, and what the wire holds
        of the payload of the cycle in flight. */
    ghost const base: Bytes
    ghost var closed: seq<Bytes>
    ghost var current: Bytes
    ghost var trailers: seq<Field>

    constructor (sink: Sink, codec: Codec)
      requires codec.Length? ==> codec.offset == 0
      ensures Valid() && this.sink == sink && this.codec == codec && phase.Ready?
      ensures base == sink.wire && closed == [] && current == []
    {
      this.sink, this.codec, phase := sink, codec, Phase.Ready;
      base, closed, current, trailers := sink.wire, [], [], [];
    }

    ghost function Repr(): set<object> {
      {this, sink}
    }

    /** What the body has put on the wire. */
    ghost function Image(): Bytes
      reads this
      requires phase.Open? ==> phase.written <= |phase.header|
      requires phase.Close? ==> phase.footerWritten <= 2
      requires phase.Finish? ==> phase.written <= |phase.data|
    {
      if codec.Chunked? then
        EncodeChunks(closed) +
        match phase
        case Ready => []
        case Open(_, header, written) => header[..written]
        case Write(n, _) => SizeLine(n) + current
        case Close(_, written) => SizeLine(|current|) + current + CRLF[..written]
        case Finish(data, written, _) => data[..written]
        case Abort(marked, _) => if marked then ABORT_MARK else []
      else Flatten(closed) + current
    }

    /** Payload bytes on the wire. */
    ghost function Sent(): Bytes
      reads this
    {
      Flatten(closed) + current
    }

    ghost predicate PhaseValid()
      reads this
    {
      match phase
      case Ready => current == []
      case Open(n, header, written) =>
        && current == [] && written <= |header|
        && header == if codec.Chunked? then SizeLine(n) else []
      case Write(n, at) => |current| == at <= n
      case Close(len, written) =>
        && |current| < U64_LIMIT && written <= len
        && len == if codec.Chunked? && current != [] then 2 else 0
      case Finish(data, written, flushed) =>
        && current == [] && written <= |data| && (flushed ==> written == |data|)
        && data == if codec.Chunked? then LastChunk(trailers) else []
      case Abort(marked, flushed) => current == [] && (flushed && codec.Chunked? ==> marked)
    }

    /** The running offset, and the promise of the cycle in flight, against the declared total. */
    ghost predicate BudgetValid()
      reads this
    {
      match codec
      case Bodyless =>
        && closed == [] && current == []
        && (phase.Open? || phase.Write? ==> phase.chunkLength == 0)
      case Length(total, offset) =>
        && offset == |Flatten(closed)| + (if phase.Close? then |current| else 0)
        && offset <= total
        && (phase.Open? || phase.Write? ==> offset + phase.chunkLength <= total)
        && (phase.Finish? ==> offset == total)
      case _ => true
    }

    ghost predicate Valid()
      reads Repr()
    {
      && PhaseValid() && BudgetValid() && Sized64(closed)
      && sink.wire == base + Image()
      && ((phase.Finish? || phase.Abort?) && phase.flushed ==> sink.flushed == |sink.wire|)
    }

    method OpenChunk(length: u64) returns (r: Result<Unit, BodyError>)
      requires Valid() && phase.Ready?
      modifies this
      ensures Valid() && codec == old(codec) && Sent() == old(Sent())
      ensures r.Ok? ==> phase.Open? && phase.chunkLength == length && phase.written == 0
      ensures r.Err? ==> phase.Ready? && r.error == BodyOverflow(if codec.Length? then codec.total else 0)
      ensures r.Err? <==> match codec
        case Bodyless => length > 0
        case Length(total, offset) => offset + length > total
        case _ => false
    {
      match codec {
        case Bodyless =>
          if length > 0 {
            return Err(BodyOverflow(0));
          }
        case Length(total, offset) =>
          if offset + length >= U64_LIMIT || offset + length > total {
            return Err(BodyOverflow(total));
          }
        case Chunked =>
        case Eof =>
      }
      phase := Open(length, if codec.Chunked? then SizeLine(length) else [], 0);
      return Ok(Unit.Unit);
    }

    /** Writes `buf` from `start` on until it is all out or the sink stops taking it; a sink that is
        ready but takes nothing is an error. */
    method PollWriteRest(buf: Bytes, start: nat) returns (end: nat, r: Poll<Result<Unit, BodyError>>)
      requires start <= |buf|
      modifies sink
      ensures start <= end <= |buf| && sink.wire == old(sink.wire) + buf[start..end]
      ensures sink.flushed == old(sink.flushed) && sink.patience <= old(sink.patience)
      ensures r.Pending? ==> sink.patience < old(sink.patience)
      ensures sink.Sound() && r.Ready? && r.value.Err? ==> !r.value.error.BodyWriteError?
      ensures r.Ready? && r.value.Ok? ==> end == |buf|
      ensures r.Ready? && r.value.Err? ==> r.value.error.BodyWriteError?
    {
      end := start;
      while end < |buf|
        invariant start <= end <= |buf| && sink.wire == old(sink.wire) + buf[start..end]
        invariant sink.flushed == old(sink.flushed) && sink.patience <= old(sink.patience)
      {
        var p := sink.PollWrite(buf[end..]);
        match p {
          case Pending =>
            return end, Poll.Pending;
          case Ready(Err(e)) =>
            return end, Poll.Ready(Err(BodyWriteError(e)));
          case Ready(Ok(n)) =>
            if n == 0 {
              return end, Poll.Ready(Err(BodyWriteError(WriteZero)));
            }
            assert buf[start..end] + buf[end..][..n] == buf[start..end + n];
            end := end + n;
        }
      }
      return end, Poll.Ready(Ok(Unit.Unit));
    }

    method PollOpen() returns (r: Poll<Result<Unit, BodyError>>)
      requires Valid() && phase.Open?
      modifies Repr()
      ensures Valid() && codec == old(codec) && closed == old(closed) && current == []
      ensures phase.Open? && phase.chunkLength == old(phase.chunkLength)
      ensures r.Pending? ==> sink.patience < old(sink.patience)
      ensures sink.Sound() && r.Ready? && r.value.Err? ==> !r.value.error.BodyWriteError?
      ensures sink.patience <= old(sink.patience)
      ensures r.Ready? && r.value.Ok? ==> phase.written == |phase.header|
      ensures r.Ready? && r.value.Err? ==> r.value.error.BodyWriteError?
    {
      hide SizeLine, EncodeChunks, Flatten, LastChunk;
      var Open(n, header, written) := phase;
      ghost var start := written;
      written, r := PollWriteRest(header, written);
      GrowsBy(base, EncodeChunks(closed), header, start, written);
      phase := Open(n, header, written);
    }

    method IntoWrite() returns (r: Result<Unit, BodyError>)
      requires Valid() && phase.Open?
      modifies this
      ensures Valid() && codec == old(codec) && closed == old(closed) && current == []
      ensures r.Ok? <==> old(phase.written) == |old(phase.header)|
      ensures r.Ok? ==> phase == Write(old(phase.chunkLength), 0)
      ensures r.Err? ==>
        phase == old(phase) && r.error == IncompleteChunkHeader(|phase.header|, phase.written)
    {
      hide SizeLine, EncodeChunks, Flatten, LastChunk;
      if phase.written < |phase.header| {
        return Err(IncompleteChunkHeader(|phase.header|, phase.written));
      }
      phase := Write(phase.chunkLength, 0);
      return Ok(Unit.Unit);
    }

    /** Polls Open and moves on to Write once its header is out; the move itself never fails. */
    method PollOpenToWrite() returns (r: Poll<Result<Unit, BodyError>>)
      requires Valid() && phase.Open?
      modifies Repr()
      ensures Valid() && codec == old(codec) && Sent() == old(Sent())
      ensures sink.patience <= old(sink.patience)
      ensures r.Pending? ==> sink.patience < old(sink.patience)
      ensures sink.Sound() && r.Ready? && r.value.Err? ==> !r.value.error.BodyWriteError?
      ensures !(r.Ready? && r.value.Ok?) ==> phase.Open? && phase.chunkLength == old(phase.chunkLength)
      ensures r.Ready? && r.value.Ok? ==> phase == Write(old(phase.chunkLength), 0)
      ensures r.Ready? && r.value.Err? ==> r.value.error.BodyWriteError?
    {
      r := PollOpen();
      if r.Ready? && r.value.Ok? {
        var w := IntoWrite();
        r := Poll.Ready(w);
      }
    }

    /** Writes some of `buffer`, never past the length the cycle was opened for. */
    method PollWrite(buffer: Bytes) returns (r: Poll<Result<nat, BodyError>>)
      requires Valid() && phase.Write?
      modifies Repr()
      ensures Valid() && codec == old(codec) && closed == old(closed)
      ensures phase.Write? && phase.chunkLength == old(phase.chunkLength)
      ensures r.Pending? ==> sink.patience < old(sink.patience)
      ensures sink.reliable && r.Ready? && r.value.Err? ==> !r.value.error.BodyWriteError?
      ensures sink.patience <= old(sink.patience)
      ensures phase.chunkOffset == old(phase.chunkOffset) + if r.Ready? && r.value.Ok? then r.value.value else 0
      ensures r.Ready? && r.value.Ok? ==>
        && r.value.value <= |buffer| && current == old(current) + buffer[..r.value.value]
        && (r.value.value == 0 && buffer != [] ==> sink.patience < old(sink.patience))
      ensures !(r.Ready? && r.value.Ok?) ==> current == old(current)
      ensures old(phase.chunkOffset) + |buffer| > phase.chunkLength
         <==> r.Ready? && r.value.Err? && r.value.error.BodyOverflow?
      ensures r.Ready? && r.value.Err? ==> r.value.error.BodyOverflow? || r.value.error.BodyWriteError?
    {
      hide SizeLine, EncodeChunks, Flatten, LastChunk;
      if codec.Bodyless? {
        assert current + buffer[..0] == current;
        return if buffer == [] then Poll.Ready(Ok(0)) else Poll.Ready(Err(BodyOverflow(0)));
      }
      r := PollWriteBounded(phase.chunkLength, phase.chunkOffset, buffer);
      if r.Ready? && r.value.Ok? {
        var n := r.value.value;
        phase := Write(phase.chunkLength, phase.chunkOffset + n);
        assert base + (Flatten(closed) + current) + buffer[..n] == base + (Flatten(closed) + (current + buffer[..n]));
        assert base + (EncodeChunks(closed) + (SizeLine(phase.chunkLength) + current)) + buffer[..n]
            == base + (EncodeChunks(closed) + (SizeLine(phase.chunkLength) + (current + buffer[..n])));
        current := current + buffer[..n];
      }
    }

    /** `poll_write_bounded`: a buffer that could not be written in full is refused outright. */
    method PollWriteBounded(maxLength: u64, offset: u64, buffer: Bytes) returns (r: Poll<Result<nat, BodyError>>)
      requires offset <= maxLength
      modifies sink
      ensures sink.flushed == old(sink.flushed) && sink.patience <= old(sink.patience)
      ensures r.Pending? ==> sink.patience < old(sink.patience) && sink.wire == old(sink.wire)
      ensures sink.reliable && r.Ready? && r.value.Err? ==> !r.value.error.BodyWriteError?
      ensures offset + |buffer| > maxLength <==> r == Poll.Ready(Err(BodyOverflow(maxLength)))
      ensures r.Ready? && r.value.Err? ==>
        sink.wire == old(sink.wire) && (r.value.error == BodyOverflow(maxLength) || r.value.error.BodyWriteError?)
      ensures r.Ready? && r.value.Ok? ==>
        && r.value.value <= |buffer| && sink.wire == old(sink.wire) + buffer[..r.value.value]
        && (r.value.value == 0 && buffer != [] ==> sink.patience < old(sink.patience))
    {
      if offset + |buffer| >= U64_LIMIT || offset + |buffer| > maxLength {
        return Poll.Ready(Err(BodyOverflow(maxLength)));
      }
      var p := sink.PollWrite(buffer);
      match p {
        case Pending => return Poll.Pending;
        case Ready(Ok(n)) => return Poll.Ready(Ok(n));
        case Ready(Err(e)) => return Poll.Ready(Err(BodyWriteError(e)));
      }
    }

    method IntoClose() returns (r: Result<Unit, BodyError>)
      requires Valid() && phase.Write?
      modifies this
      ensures Valid() && closed == old(closed) && current == old(current)
      ensures r.Ok? <==> old(phase.chunkOffset) == old(phase.chunkLength)
      ensures r.Ok? ==> phase.Close? && phase.footerWritten == 0
      ensures r.Err? ==> phase == old(phase) && r.error == IncompleteBody(phase.chunkLength, phase.chunkOffset)
      ensures codec == if r.Ok? && old(codec).Length?
        then Length(old(codec).total, old(codec).offset + |current|) else old(codec)
    {
      hide SizeLine, EncodeChunks, Flatten, LastChunk;
      var n := phase.chunkLength;
      if !codec.Bodyless? && phase.chunkOffset < n {
        return Err(IncompleteBody(n, phase.chunkOffset));
      }
      if codec.Length? {
        codec := Length(codec.total, codec.offset + n);
      }
      phase := Close(if codec.Chunked? && n > 0 then 2 else 0, 0);
      assert CRLF[..0] == [];
      return Ok(Unit.Unit);
    }

    method PollClose() returns (r: Poll<Result<Unit, BodyError>>)
      requires Valid() && phase.Close?
      modifies Repr()
      ensures Valid() && codec == old(codec) && closed == old(closed) && current == old(current)
      ensures phase.Close? && phase.footerLen == old(phase.footerLen)
      ensures r.Pending? ==> sink.patience < old(sink.patience)
      ensures sink.Sound() && r.Ready? && r.value.Err? ==> !r.value.error.BodyWriteError?
      ensures sink.patience <= old(sink.patience)
      ensures r.Ready? && r.value.Ok? ==> phase.footerWritten == phase.footerLen
      ensures r.Ready? && r.value.Err? ==> r.value.error.BodyWriteError?
    {
      hide SizeLine, EncodeChunks, Flatten, LastChunk;
      var Close(len, written) := phase;
      ghost var start := written;
      written, r := PollWriteRest(CRLF[..len], written);
      ghost var done := EncodeChunks(closed) + (SizeLine(|current|) + current);
      GrowsBy(base, done, CRLF[..len], start, written);
      assert CRLF[..len][..written] == CRLF[..written] && CRLF[..len][..start] == CRLF[..start];
      assert forall k | 0 <= k <= 2 ::
        done + CRLF[..k] == EncodeChunks(closed) + (SizeLine(|current|) + current + CRLF[..k]);
      phase := Close(len, written);
    }

    method IntoReady() returns (r: Result<Unit, BodyError>)
      requires Valid() && phase.Close?
      modifies this
      ensures Valid() && codec == old(codec)
      ensures r.Ok? <==> old(phase.footerWritten) == old(phase.footerLen)
      ensures r.Ok? ==> phase.Ready? && current == [] && Flatten(closed) == old(Sent())
      ensures r.Err? ==>
        && phase == old(phase) && closed == old(closed) && current == old(current)
        && r.error == IncompleteChunkFooter(phase.footerLen, phase.footerWritten)
    {
      if phase.footerWritten < phase.footerLen {
        return Err(IncompleteChunkFooter(phase.footerLen, phase.footerWritten));
      }
      CloseCycle();
      return Ok(Unit.Unit);
    }

    /** Polls Close and moves on to Ready once its footer is out; the move itself never fails. */
    method PollCloseToReady() returns (r: Poll<Result<Unit, BodyError>>)
      requires Valid() && phase.Close?
      modifies Repr()
      ensures Valid() && codec == old(codec) && Sent() == old(Sent())
      ensures sink.patience <= old(sink.patience)
      ensures r.Pending? ==> sink.patience < old(sink.patience)
      ensures sink.Sound() && r.Ready? && r.value.Err? ==> !r.value.error.BodyWriteError?
      ensures !(r.Ready? && r.value.Ok?) ==> phase.Close?
      ensures r.Ready? && r.value.Ok? ==> phase.Ready?
      ensures r.Ready? && r.value.Err? ==> r.value.error.BodyWriteError?
    {
      hide Flatten;
      r := PollClose();
      if r.Ready? && r.value.Ok? {
        var y := IntoReady();
        r := Poll.Ready(y);
        assert Flatten(closed) + [] == Flatten(closed);
      }
    }

    /** The cycle in flight joins the closed ones; the wire already shows it as one of them. */
    method CloseCycle()
      requires Valid() && phase.Close? && phase.footerWritten == phase.footerLen
      modifies this
      ensures Valid() && codec == old(codec) && phase.Ready?
      ensures current == [] && Flatten(closed) == old(Sent())
    {
      hide SizeLine, EncodeChunks, Flatten;
      if !codec.Bodyless? {
        AppendChunk(closed, current);
        assert closed + [current] != [];
        closed, current := closed + [current], [];
      }
      phase := Phase.Ready;
      assert Flatten(closed) + [] == Flatten(closed);
      assert EncodeChunks(closed) + [] == EncodeChunks(closed);
    }

    /** `finish` and `finish_with_trailers`; only the chunked encoding carries trailers. */
    method IntoFinish(fields: seq<Field>) returns (r: Result<Unit, BodyError>)
      requires Valid() && phase.Ready?
      requires !codec.Chunked? ==> fields == []
      modifies this
      ensures Valid() && codec == old(codec) && closed == old(closed) && current == []
      ensures r.Err? <==> codec.Length? && codec.offset < codec.total
      ensures r.Ok? ==> phase.Finish? && trailers == fields
      ensures r.Err? ==> phase.Ready? && r.error == IncompleteBody(codec.total, codec.offset)
    {
      hide SizeLine, EncodeChunks, Flatten, LastChunk;
      if codec.Length? && codec.offset < codec.total {
        return Err(IncompleteBody(codec.total, codec.offset));
      }
      trailers := fields;
      phase := Finish(if codec.Chunked? then LastChunk(fields) else [], 0, false);
      return Ok(Unit.Unit);
    }

    method PollFinish() returns (r: Poll<Result<Unit, BodyError>>)
      requires Valid() && phase.Finish?
      modifies Repr()
      ensures Valid() && codec == old(codec) && closed == old(closed) && trailers == old(trailers)
      ensures phase.Finish? && phase.data == old(phase.data)
      ensures r.Pending? ==> sink.patience < old(sink.patience)
      ensures sink.Sound() && r.Ready? && r.value.Err? ==> !r.value.error.BodyWriteError?
      ensures sink.patience <= old(sink.patience)
      ensures r.Ready? && r.value.Ok? ==> phase.flushed && phase.written == |phase.data|
      ensures r.Ready? && r.value.Err? ==> r.value.error.BodyWriteError?
    {
      hide SizeLine, EncodeChunks, Flatten, LastChunk;
      var Finish(data, written, flushed) := phase;
      ghost var start := written;
      written, r := PollWriteRest(data, written);
      GrowsBy(base, EncodeChunks(closed), data, start, written);
      phase := Finish(data, written, flushed);
      if r.Pending? || r.value.Err? {
        return r;
      }
      var p := sink.PollFlush();
      match p {
        case Pending =>
          return Poll.Pending;
        case Ready(Err(e)) =>
          return Poll.Ready(Err(BodyWriteError(e)));
        case Ready(Ok(_)) =>
          phase := Finish(phase.data, phase.written, true);
          return Poll.Ready(Ok(Unit.Unit));
      }
    }

    /** Gives the connection back for the next message, unless it is close-delimited. */
    method IntoWriter() returns (r: Result<Option<Sink>, BodyError>)
      requires Valid() && phase.Finish?
      ensures r.Ok? <==> phase.flushed
      ensures r.Ok? ==> r.value == if codec.Eof? then None else Some(sink)
      ensures r.Err? ==> r.error == if phase.written < |phase.data|
        then IncompleteFinish(|phase.data|, phase.written) else UnflushedFinish
    {
      if phase.written < |phase.data| {
        return Err(IncompleteFinish(|phase.data|, phase.written));
      }
      if !phase.flushed {
        return Err(UnflushedFinish);
      }
      return Ok(if codec.Eof? then None else Some(sink));
    }

    method IntoAbort()
      requires Valid() && phase.Ready?
      modifies this
      ensures Valid() && codec == old(codec) && closed == old(closed) && phase == Abort(false, false)
    {
      phase := Abort(false, false);
    }

    /** Poisons a chunked stream with a byte no size line starts with; the other encodings have
        nothing to say. */
    method PollAbort() returns (r: Poll<Result<Unit, BodyError>>)
      requires Valid() && phase.Abort?
      modifies Repr()
      ensures Valid() && codec == old(codec) && closed == old(closed) && phase.Abort?
      ensures r.Pending? ==> sink.patience < old(sink.patience)
      ensures sink.Sound() && r.Ready? && r.value.Err? ==> !r.value.error.BodyWriteError?
      ensures r.Ready? && r.value.Ok? ==> phase.flushed && (codec.Chunked? ==> phase.marked)
    {
      hide SizeLine, EncodeChunks, Flatten, LastChunk;
      if codec.Chunked? && !phase.marked {
        var p := sink.PollWrite(ABORT_MARK);
        match p {
          case Pending =>
            return Poll.Pending;
          case Ready(Err(e)) =>
            return Poll.Ready(Err(BodyWriteError(e)));
          case Ready(Ok(n)) =>
            if n == 0 {
              return Poll.Ready(Err(BodyWriteError(WriteZero)));
            }
            phase := Abort(true, phase.flushed);
        }
      }
      var p := sink.PollFlush();
      match p {
        case Pending =>
          return Poll.Pending;
        case Ready(Err(e)) =>
          return Poll.Ready(Err(BodyWriteError(e)));
        case Ready(Ok(_)) =>
          phase := Abort(phase.marked, true);
          return Poll.Ready(Ok(Unit.Unit));
      }
    }

    /** A declared length is never passed, at any point of any cycle, nor is it by the cycle's own
        promise; the wire carries the payload and nothing else; and between cycles `finish` is
        possible exactly when the payload is as long as declared. */
    lemma LengthKept()
      requires Valid() && codec.Length?
      ensures sink.wire[|base|..] == Sent()
      ensures |Sent()| <= codec.total
      ensures phase.Open? || phase.Write? ==> |Flatten(closed)| + phase.chunkLength <= codec.total
      ensures phase.Ready? ==> (codec.offset == codec.total <==> |Sent()| == codec.total)
      ensures phase.Finish? ==> |Sent()| == codec.total
    {
      hide Flatten, EncodeChunks;
      assert sink.wire[|base|..] == Image();
    }

    /** At every point between the first byte of a chunked body and its last chunk, with any cursor
        anywhere, a receiver of the wire has exactly the payload sent so far and knows that more
        must come. */
    lemma WireDecodes(l: Limits)
      requires Valid() && codec.Chunked? && !phase.Finish? && !phase.Abort?
      requires l.maxLine >= 18
      ensures var o := Decode(AtSize, sink.wire[|base|..], l); o.body == Sent() && o.end == Truncated
    {
      hide Decode, SizeLine, EncodeChunks, Flatten;
      var inFlight := sink.wire[|base| + |EncodeChunks(closed)|..];
      assert sink.wire[|base|..] == EncodeChunks(closed) + inFlight;
      ChunksDecode(closed, inFlight, l);
      assert inFlight == Image()[|EncodeChunks(closed)|..];
      match phase {
        case Ready =>
          EmptyStream(l);
        case Open(n, header, written) =>
          CutHeaderDecodes(n, written, l);
        case Write(n, _) =>
          CutDataDecodes(n, current, l);
        case Close(_, written) =>
          if current == [] {
            EmptyStream(l);
            assert CRLF[..0] == [];
          } else {
            CutFooterDecodes(current, written, l);
          }
      }
    }

    /** While its end is being written, a receiver still knows that more must come; and from its last
        byte on, the body reads back. */
    lemma FinishDecodes(l: Limits)
      requires Valid() && codec.Chunked? && phase.Finish? && AllWellFormed(trailers)
      requires Covers(l, trailers)
      ensures var o := Decode(AtSize, sink.wire[|base|..], l);
        o.body == Sent() && o.end == if phase.written < |phase.data| then Truncated else Ended(trailers, [])
    {
      hide Decode, EncodeChunks, Flatten, LastChunk, AllWellFormed, PrintSection;
      var end := phase.data[..phase.written];
      assert sink.wire[|base|..] == EncodeChunks(closed) + end;
      ChunksDecode(closed, end, l);
      if phase.written < |phase.data| {
        CutLastChunkDecodes(trailers, phase.written, l);
      } else {
        LastChunkDecodes(trailers, [], l);
        assert end == LastChunk(trailers) + [];
      }
    }

    /** Once the abort mark is out, nothing that follows it can be read as a complete body. */
    lemma AbortedWireDecodes(t: Bytes, l: Limits)
      requires Valid() && codec.Chunked? && phase.Abort? && phase.marked
      requires l.maxLine >= 18
      ensures var o := Decode(AtSize, sink.wire[|base|..] + t, l);
        o.body == Sent() && o.end == Malformed(InvalidChunkHeader)
    {
      hide Decode, EncodeChunks, Flatten;
      assert sink.wire[|base|..] == EncodeChunks(closed) + ABORT_MARK;
      AbortIsMalformed(closed, t, l);
    }
  }
}
