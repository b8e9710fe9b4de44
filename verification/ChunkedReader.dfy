/** The incremental reader of a chunked body: a head, a data and a final reader handed from one to
    the next, each polled over the same buffered stream. */
module ChunkedReader {
  import opened Bytes
  import opened Results
  import opened ChunkLine
  import opened FieldSection
  import opened BodyErrors
  import opened ChunkedCoding
  import opened IoBuffer

  const DRAIN_SIZE := 4096

  datatype ChunkBodyState = InBody | InFooterNeedCr | InFooterNeedLf | Done

  datatype ChunkHeadState =
    | ReadingSize
    | ReadingTrailers
    | ReadyData(size: u64)
    | ReadyFinal(trailers: seq<Field>)

  /** Which of the nested readers owns the stream, with its fields. */
  datatype ChunkStream =
    | InChunk(size: u64, remaining: u64, state: ChunkBodyState)
    | BetweenChunk(head: ChunkHeadState)
    | Final(trailers: seq<Field>)
  {
    predicate Valid() {
      && (InChunk? ==> remaining <= size && (!state.InBody? ==> remaining == 0))
      && (BetweenChunk? && head.ReadyData? ==> head.size > 0)
      && (Where().AtEnd? ==> AllWellFormed(Where().trailers))
    }

    /** Where in the body the stream stands. */
    function Where(): Position {
      match this
      case InChunk(_, n, InBody) => InData(n)
      case InChunk(_, _, InFooterNeedCr) => AtCr
      case InChunk(_, _, InFooterNeedLf) => AtLf
      case InChunk(_, _, Done) => AtSize
      case BetweenChunk(ReadingSize) => AtSize
      case BetweenChunk(ReadingTrailers) => AtTrailers
      case BetweenChunk(ReadyData(n)) => InData(n)
      case BetweenChunk(ReadyFinal(fs)) => AtEnd(fs)
      case Final(fs) => AtEnd(fs)
    }

    /** Decreases on every step that does not consume input. */
    function Rank(): nat {
      match this
      case InChunk(_, _, InBody) => 5
      case InChunk(_, _, InFooterNeedCr) => 4
      case InChunk(_, _, InFooterNeedLf) => 4
      case InChunk(_, _, Done) => 3
      case BetweenChunk(ReadingSize) => 2
      case BetweenChunk(ReadingTrailers) => 2
      case BetweenChunk(ReadyData(_)) => 6
      case BetweenChunk(ReadyFinal(_)) => 1
      case Final(_) => 0
    }
  }

  /** Why a read may fail when `o` is what is left of the body: the transport did, a limit was
      outgrown, or the body itself is cut short or broken. */
  predicate Explains(e: BodyError, o: Outcome) {
    match e
    case BodyReadError(_) => true
    case ChunkHeaderTooLong(_) => !o.fits
    case TrailerFault(MaxLengthExceeded(_)) => !o.fits
    case UnexpectedEof => o.end == Truncated
    case _ => o.end == Malformed(e)
  }

  lemma ExplainsEarlier(e: BodyError, o: Outcome, b: Bytes, o': Outcome)
    requires Advances(o, b, o') && Explains(e, o')
    ensures Explains(e, o)
  {
  }

  lemma OnlyFaults(e: BodyError, o: Outcome)
    requires Explains(e, o)
    ensures o.end.Ended? && o.fits ==> e.BodyReadError?
  {
  }

  lemma LatchExplains(o: Outcome)
    ensures o.end == Malformed(ReadAfterError) ==> Explains(ReadAfterError, o)
  {
  }

  lemma Unmoved(o: Outcome)
    ensures Advances(o, [], o)
  {
  }

  lemma AdvancesOn(o: Outcome, v: Outcome, b: Bytes, o': Outcome)
    requires Advances(o, [], v) && Advances(v, b, o')
    ensures Advances(o, b, o')
  {
    AdvancesFurther(o, [], v, b, o');
    assert [] + b == b;
  }

  /** Carries what a step says of the body it started from over to the body the read started from. */
  lemma StepExplained(step: Option<Poll<Result<Option<Bytes>, BodyError>>>, o: Outcome, v: Outcome, o': Outcome)
    requires Advances(o, [], v)
    ensures match step
      case Some(Ready(Ok(Some(b)))) => Advances(v, b, o') ==> Advances(o, b, o')
      case Some(Ready(Err(e))) => Explains(e, v) ==> Explains(e, o)
      case _ => Advances(v, [], o') ==> Advances(o, [], o')
  {
    hide Explains, Advances;
    match step
    case Some(Ready(Ok(Some(b)))) =>
      if Advances(v, b, o') { AdvancesOn(o, v, b, o'); }
    case Some(Ready(Err(e))) =>
      if Explains(e, v) { ExplainsEarlier(e, o, [], v); }
    case _ =>
      if Advances(v, [], o') { AdvancesOn(o, v, [], o'); }
  }

  /** A step ended in a failure of the transport. */
  predicate IsReadFault(step: Option<Poll<Result<Option<Bytes>, BodyError>>>) {
    match step
    case Some(Ready(Err(BodyReadError(_)))) => true
    case _ => false
  }

  function Min(a: nat, b: nat): nat {
    if a < b then a else b
  }

  // What a verdict on the buffered bytes means for the body, by the stability of the two parsers.

  lemma SizeInvalid(s: Bytes, t: Bytes, l: Limits)
    requires ParseSize(s).Invalid?
    ensures Decode(AtSize, s + t, l).end == Malformed(InvalidChunkHeader)
  {
    hide ParseSize, ParseSection, LineFits;
    SizeStable(s, t);
  }

  lemma SizeTooLong(s: Bytes, t: Bytes, l: Limits)
    requires ParseSize(s).Partial? && |s| >= l.maxLine
    ensures !Decode(AtSize, s + t, l).fits
  {
    hide ParseSize, ParseSection;
    var cut := s[..l.maxLine];
    assert (s + t)[..l.maxLine] == cut;
    assert cut + s[l.maxLine..] == s;
    if !ParseSize(cut).Partial? {
      SizeStable(cut, s[l.maxLine..]);
    }
  }

  lemma SizeCutShort(s: Bytes, l: Limits)
    requires ParseSize(s).Partial?
    ensures Decode(AtSize, s, l).end == Truncated
  {
    hide ParseSize, ParseSection, LineFits;
  }

  lemma SizeRead(s: Bytes, t: Bytes, l: Limits)
    requires ParseSize(s).Complete?
    ensures var r := ParseSize(s);
      Advances(Decode(AtSize, s + t, l), [],
               Decode(if r.size == 0 then AtTrailers else InData(r.size), s[r.length..] + t, l))
  {
    hide ParseSize, ParseSection, LineFits;
    SizeStable(s, t);
    assert (s + t)[ParseSize(s).length..] == s[ParseSize(s).length..] + t;
  }

  lemma FooterRead(p: Position, b: byte, s: Bytes, l: Limits)
    requires p.AtCr? || p.AtLf?
    ensures var wanted := if p.AtCr? then CR else LF;
      if b == wanted then Decode(p, [b] + s, l) == Decode(if p.AtCr? then AtLf else AtSize, s, l)
      else Decode(p, [b] + s, l).end == Malformed(InvalidChunkFooter(wanted, b))
  {
    hide ParseSize, ParseSection;
    assert ([b] + s)[1..] == s;
  }

  lemma TrailersInvalid(s: Bytes, t: Bytes, l: Limits)
    requires ParseSection(s, l.slots).Invalid?
    ensures Decode(AtTrailers, s + t, l).end == Malformed(TrailerFault(BadField(ParseSection(s, l.slots).error)))
  {
    hide ParseSize, ParseSection, TrailersFit;
    SectionStable(s, t, l.slots);
  }

  lemma TrailersTooLong(s: Bytes, t: Bytes, l: Limits)
    requires ParseSection(s, l.slots).Partial? && |s| >= l.maxTrailers
    ensures !Decode(AtTrailers, s + t, l).fits
  {
    hide ParseSize, ParseSection;
    var cut := s[..l.maxTrailers];
    assert (s + t)[..l.maxTrailers] == cut;
    assert cut + s[l.maxTrailers..] == s;
    if !ParseSection(cut, l.slots).Partial? {
      SectionStable(cut, s[l.maxTrailers..], l.slots);
    }
  }

  lemma TrailersCutShort(s: Bytes, l: Limits)
    requires ParseSection(s, l.slots).Partial?
    ensures Decode(AtTrailers, s, l).end == Truncated
  {
    hide ParseSize, ParseSection, TrailersFit;
  }

  lemma TrailersRead(s: Bytes, t: Bytes, l: Limits)
    requires ParseSection(s, l.slots).Complete?
    ensures AllWellFormed(ParseSection(s, l.slots).fields)
    ensures var r := ParseSection(s, l.slots);
      Advances(Decode(AtTrailers, s + t, l), [], Decode(AtEnd(r.fields), s[r.length..] + t, l))
  {
    hide ParseSize, ParseSection, TrailersFit, WellFormed;
    SectionWellFormed(s, l.slots);
    SectionStable(s, t, l.slots);
    assert (s + t)[ParseSection(s, l.slots).length..] == s[ParseSection(s, l.slots).length..] + t;
  }

  lemma EmptyIsTruncated(p: Position, l: Limits)
    requires p.AtSize? || p.AtTrailers? || p.AtCr? || p.AtLf? || (p.InData? && p.remaining > 0)
    ensures Decode(p, [], l).end == Truncated
  {
  }

  lemma EndDecodes(fs: seq<Field>, s: Bytes, l: Limits)
    ensures Decode(AtEnd(fs), s, l) == Stop(Ended(fs, s), true)
  {
  }

  class ChunkedBodyReader {
    const reader: BytesReader
    const limits: Limits
    /** `None` while a nested reader is taken out to be polled, and for good after an error. */
    var inner: Option<ChunkStream>

    constructor (reader: BytesReader, limits: Limits)
      requires reader.Valid()
      ensures Valid() && this.reader == reader && this.limits == limits && inner.Some?
      ensures View() == Decode(AtSize, reader.Contents(), limits)
    {
      this.reader, this.limits := reader, limits;
      inner := Some(BetweenChunk(ReadingSize));
    }

    ghost function Repr(): set<object> {
      {this, reader.io, reader.buffer}
    }

    ghost predicate Valid()
      reads Repr()
    {
      reader.Valid() && (inner.Some? ==> inner.value.Valid())
    }

    /** What is left of the body, over everything still to arrive. */
    ghost function View(): Outcome
      reads Repr()
      requires Valid()
    {
      if inner.None? then Stop(Malformed(ReadAfterError), true)
      else Decode(inner.value.Where(), reader.Contents(), limits)
    }

    predicate Drained()
      reads this
    {
      inner.None? || inner.value.Final?
    }

    /** Takes the one byte the footer wants at `p`. */
    method PollFooter(p: Position) returns (r: Poll<Result<Unit, BodyError>>)
      requires reader.Valid() && (p.AtCr? || p.AtLf?)
      modifies reader.Repr()
      ensures reader.Valid()
      ensures r.Pending? ==> reader.io.patience < old(reader.io.patience)
      ensures reader.io.reliable && r.Ready? && r.value.Err? ==> !r.value.error.BodyReadError?
      ensures r.Ready? ==> reader.io.patience == old(reader.io.patience)
      ensures match r
        case Pending => reader.Contents() == old(reader.Contents())
        case Ready(Ok(_)) =>
          && |reader.Contents()| < |old(reader.Contents())|
          && Decode(p, old(reader.Contents()), limits)
             == Decode(if p.AtCr? then AtLf else AtSize, reader.Contents(), limits)
        case Ready(Err(e)) => Explains(e, Decode(p, old(reader.Contents()), limits))
    {
      hide Decode;
      var wanted := if p.AtCr? then CR else LF;
      r := reader.PollEnsure();
      if r.Ready? && r.value.Ok? {
        var b := reader.GetU8();
        FooterRead(p, b, reader.Contents(), limits);
        if b != wanted {
          return Ready(Err(InvalidChunkFooter(wanted, b)));
        }
      } else {
        EmptyIsTruncated(p, limits);
      }
    }

    /** A step of the data reader. Moves `taken` forward over the stream; the caller puts it back. */
    method PollReadData(taken: ChunkStream, maxLen: nat)
      returns (next: ChunkStream, r: Poll<Result<Option<Bytes>, BodyError>>)
      requires reader.Valid() && taken.InChunk? && taken.Valid()
      modifies reader.Repr()
      ensures reader.Valid() && next.InChunk? && next.Valid()
      ensures r.Pending? ==> reader.io.patience < old(reader.io.patience)
      ensures reader.io.reliable && r.Ready? && r.value.Err? ==> !r.value.error.BodyReadError?
      ensures r.Ready? ==> reader.io.patience == old(reader.io.patience)
      ensures var o, o' :=
          Decode(taken.Where(), old(reader.Contents()), limits), Decode(next.Where(), reader.Contents(), limits);
        match r
        case Pending => Advances(o, [], o')
        case Ready(Ok(Some(b))) => Advances(o, b, o') && |b| <= maxLen && (maxLen > 0 ==> b != [])
        case Ready(Ok(None)) => Advances(o, [], o') && next.state.Done?
        case Ready(Err(e)) => Explains(e, o)
      ensures r.Ready? && r.value.Ok? && r.value.value.Some? ==>
        var b := r.value.value.value;
        |b| == Min(Min(taken.remaining, |b + reader.Buffered()|), maxLen)
        && (maxLen == 0 ==> next.state.InBody? && next.remaining > 0 && reader.Buffered() != [])
      ensures taken.state.InBody? && taken.remaining > 0 && old(reader.Buffered()) != [] ==>
        && r.Ready? && r.value.Ok? && r.value.value.Some?
        && var b := r.value.value.value;
           next == taken.(remaining := taken.remaining - |b|) && old(reader.Buffered()) == b + reader.Buffered()
      ensures r == Ready(Ok(None)) ==>
        || |reader.Contents()| < |old(reader.Contents())|
        || (reader.Contents() == old(reader.Contents()) && taken.state.Done?)
    {
      hide Decode, WellFormed, BytesReader.Valid, BytesReader.Contents, BytesReader.Buffered;
      next := taken;
      ghost var o := Decode(taken.Where(), reader.Contents(), limits);
      while true
        invariant reader.Valid() && next.InChunk? && next.Valid()
        invariant reader.io.patience == old(reader.io.patience)
        invariant Decode(next.Where(), reader.Contents(), limits) == o
        invariant next.remaining == taken.remaining
        invariant taken.state.InBody? && taken.remaining > 0 && old(reader.Buffered()) != [] ==>
          next == taken && reader.Buffered() == old(reader.Buffered())
        invariant |reader.Contents()| < |old(reader.Contents())|
               || (reader.Contents() == old(reader.Contents()) && (taken.state.Done? <==> next.state.Done?))
        decreases |reader.Contents()|, next.Rank()
      {
        match next.state {
          case InBody =>
            if next.remaining == 0 {
              ChunkDataEnds(reader.Contents(), limits);
              next := next.(state := InFooterNeedCr);
              continue;
            }
            var p := reader.PollEnsure();
            if p.Pending? {
              return next, Pending;
            } else if p.value.Err? {
              EmptyIsTruncated(next.Where(), limits);
              return next, Ready(Err(p.value.error));
            }
            var at := Min(Min(next.remaining, reader.Len()), maxLen);
            ghost var n := next.remaining;
            next := next.(remaining := next.remaining - at);
            var b := reader.SplitTo(at);
            TakeData(n, b, reader.Contents(), limits);
            return next, Ready(Ok(Some(b)));
          case InFooterNeedCr =>
            var p := PollFooter(AtCr);
            if p.Pending? {
              return next, Pending;
            } else if p.value.Err? {
              return next, Ready(Err(p.value.error));
            }
            next := next.(state := InFooterNeedLf);
          case InFooterNeedLf =>
            var p := PollFooter(AtLf);
            if p.Pending? {
              return next, Pending;
            } else if p.value.Err? {
              return next, Ready(Err(p.value.error));
            }
            next := next.(state := Done);
          case Done =>
            return next, Ready(Ok(None));
        }
      }
    }

    /** As much of a size line is there as may be, and it has not ended. */
    predicate LineTooLong(seen: Bytes) {
      seen != [] && |seen| >= limits.maxLine && ParseSize(seen).Partial?
    }

    predicate SectionTooLong(seen: Bytes) {
      seen != [] && |seen| >= limits.maxTrailers && ParseSection(seen, limits.slots).Partial?
    }

    /** Reads one size line, extension and all; never waits for more of one that is too long. */
    method PollSize() returns (r: Poll<Result<u64, BodyError>>)
      requires reader.Valid()
      modifies reader.Repr()
      ensures reader.Valid()
      ensures r.Pending? ==> reader.io.patience < old(reader.io.patience)
      ensures reader.io.reliable && r.Ready? && r.value.Err? ==> !r.value.error.BodyReadError?
      ensures r.Ready? ==> reader.io.patience == old(reader.io.patience)
      ensures match r
        case Pending => reader.Contents() == old(reader.Contents())
        case Ready(Ok(size)) =>
          && |reader.Contents()| < |old(reader.Contents())|
          && Advances(Decode(AtSize, old(reader.Contents()), limits), [],
                      Decode(if size == 0 then AtTrailers else InData(size), reader.Contents(), limits))
        case Ready(Err(e)) => Explains(e, Decode(AtSize, old(reader.Contents()), limits))
      ensures r.Pending? ==> reader.Buffered() == [] || |reader.Buffered()| < limits.maxLine
      ensures r.Ready? && r.value.Err? && r.value.error.ChunkHeaderTooLong? ==>
        && r.value.error == ChunkHeaderTooLong(limits.maxLine)
        && |reader.Buffered()| >= limits.maxLine && ParseSize(reader.Buffered()).Partial?
      ensures LineTooLong(old(reader.Buffered())) ==> r == Ready(Err(ChunkHeaderTooLong(limits.maxLine)))
    {
      hide ParseSize, Decode;
      while true
        invariant reader.Valid() && reader.Contents() == old(reader.Contents())
        invariant reader.io.patience == old(reader.io.patience)
        invariant LineTooLong(old(reader.Buffered())) ==> reader.Buffered() == old(reader.Buffered())
        decreases |reader.Contents()| - |reader.Buffered()|
      {
        var p := reader.PollEnsure();
        if p.Pending? {
          return Pending;
        } else if p.value.Err? {
          EmptyIsTruncated(AtSize, limits);
          return Ready(Err(p.value.error));
        }
        var seen := reader.AsBytes();
        match ParseSize(seen) {
          case Invalid =>
            SizeInvalid(seen, reader.io.unread, limits);
            return Ready(Err(InvalidChunkHeader));
          case Partial =>
            if reader.Len() >= limits.maxLine {
              SizeTooLong(seen, reader.io.unread, limits);
              return Ready(Err(ChunkHeaderTooLong(limits.maxLine)));
            }
            p := reader.PollExtend();
            if p.Pending? {
              return Pending;
            } else if p.value.Err? {
              SizeCutShort(seen, limits);
              return Ready(Err(p.value.error));
            }
          case Complete(n, size) =>
            SizeRead(seen, reader.io.unread, limits);
            var _ := reader.SplitTo(n);
            return Ready(Ok(size));
        }
      }
    }

    /** Reads the trailer section; never waits for more of one that is too long. */
    method PollTrailers() returns (r: Poll<Result<seq<Field>, BodyError>>)
      requires reader.Valid()
      modifies reader.Repr()
      ensures reader.Valid()
      ensures r.Pending? ==> reader.io.patience < old(reader.io.patience)
      ensures reader.io.reliable && r.Ready? && r.value.Err? ==> !r.value.error.BodyReadError?
      ensures r.Ready? ==> reader.io.patience == old(reader.io.patience)
      ensures match r
        case Pending => reader.Contents() == old(reader.Contents())
        case Ready(Ok(fs)) =>
          && AllWellFormed(fs) && |reader.Contents()| < |old(reader.Contents())|
          && Advances(Decode(AtTrailers, old(reader.Contents()), limits), [],
                      Decode(AtEnd(fs), reader.Contents(), limits))
        case Ready(Err(e)) => Explains(e, Decode(AtTrailers, old(reader.Contents()), limits))
      ensures r.Pending? ==> reader.Buffered() == [] || |reader.Buffered()| < limits.maxTrailers
      ensures r.Ready? && r.value.Err? && r.value.error.TrailerFault? && r.value.error.trailer.MaxLengthExceeded? ==>
        && r.value.error.trailer == MaxLengthExceeded(limits.maxTrailers)
        && |reader.Buffered()| >= limits.maxTrailers && ParseSection(reader.Buffered(), limits.slots).Partial?
      ensures SectionTooLong(old(reader.Buffered())) ==>
        r == Ready(Err(TrailerFault(MaxLengthExceeded(limits.maxTrailers))))
    {
      hide ParseSection, Decode, WellFormed;
      while true
        invariant reader.Valid() && reader.Contents() == old(reader.Contents())
        invariant reader.io.patience == old(reader.io.patience)
        invariant SectionTooLong(old(reader.Buffered())) ==> reader.Buffered() == old(reader.Buffered())
        decreases |reader.Contents()| - |reader.Buffered()|
      {
        var p := reader.PollEnsure();
        if p.Pending? {
          return Pending;
        } else if p.value.Err? {
          EmptyIsTruncated(AtTrailers, limits);
          return Ready(Err(p.value.error));
        }
        var seen := reader.AsBytes();
        match ParseSection(seen, limits.slots) {
          case Invalid(e) =>
            TrailersInvalid(seen, reader.io.unread, limits);
            return Ready(Err(TrailerFault(BadField(e))));
          case Partial =>
            if reader.Len() >= limits.maxTrailers {
              TrailersTooLong(seen, reader.io.unread, limits);
              return Ready(Err(TrailerFault(MaxLengthExceeded(limits.maxTrailers))));
            }
            p := reader.PollExtend();
            if p.Pending? {
              return Pending;
            } else if p.value.Err? {
              TrailersCutShort(seen, limits);
              return Ready(Err(p.value.error));
            }
          case Complete(n, fs) =>
            TrailersRead(seen, reader.io.unread, limits);
            var _ := reader.SplitTo(n);
            return Ready(Ok(fs));
        }
      }
    }

    /** A step of the head reader: the size line, then the trailers if it was the last chunk. */
    method PollReadChunk(taken: ChunkStream)
      returns (next: ChunkStream, r: Poll<Result<Unit, BodyError>>)
      requires reader.Valid() && taken.BetweenChunk? && taken.Valid()
      modifies reader.Repr()
      ensures reader.Valid() && next.BetweenChunk? && next.Valid()
      ensures r.Pending? ==> reader.io.patience < old(reader.io.patience)
      ensures reader.io.reliable && r.Ready? && r.value.Err? ==> !r.value.error.BodyReadError?
      ensures r.Ready? ==> reader.io.patience == old(reader.io.patience)
      ensures var o, o' :=
          Decode(taken.Where(), old(reader.Contents()), limits), Decode(next.Where(), reader.Contents(), limits);
        match r
        case Pending => Advances(o, [], o')
        case Ready(Ok(_)) => Advances(o, [], o') && (next.head.ReadyData? || next.head.ReadyFinal?)
        case Ready(Err(e)) => Explains(e, o)
      ensures r.Ready? && r.value.Ok? ==>
        |reader.Contents()| < |old(reader.Contents())| || (reader.Contents() == old(reader.Contents()) && next == taken)
    {
      hide Decode, WellFormed;
      next := taken;
      if next.head.ReadingSize? {
        var p := PollSize();
        match p {
          case Pending =>
            return next, Pending;
          case Ready(Err(e)) =>
            return next, Ready(Err(e));
          case Ready(Ok(size)) =>
            next := BetweenChunk(if size == 0 then ReadingTrailers else ReadyData(size));
        }
      }
      if next.head.ReadingTrailers? {
        var p := PollTrailers();
        match p {
          case Pending =>
            return next, Pending;
          case Ready(Err(e)) =>
            return next, Ready(Err(e));
          case Ready(Ok(fs)) =>
            next := BetweenChunk(ReadyFinal(fs));
        }
      }
      return next, Ready(Ok(Unit.Unit));
    }

    /** A chunk's data is next, and some of it is already buffered. */
    ghost predicate DataBuffered()
      reads Repr()
      requires Valid()
    {
      && inner.Some? && inner.value.InChunk? && inner.value.state.InBody? && inner.value.remaining > 0
      && reader.Buffered() != []
    }

    /** `current`, taken out inside a chunk, is polled and put back; `None` when the chunk is over. */
    method StepInChunk(current: ChunkStream, maxLen: nat)
      returns (r: Option<Poll<Result<Option<Bytes>, BodyError>>>)
      requires reader.Valid() && inner.None? && current.InChunk? && current.Valid()
      modifies Repr()
      ensures Valid()
      ensures r == Some(Pending) ==> reader.io.patience < old(reader.io.patience)
      ensures r != Some(Pending) ==> reader.io.patience == old(reader.io.patience)
      ensures reader.io.reliable ==> !IsReadFault(r)
      ensures var v := Decode(current.Where(), old(reader.Contents()), limits);
        match r
        case None =>
          && inner == Some(BetweenChunk(ReadingSize)) && Advances(v, [], View())
          && |reader.Contents()| <= |old(reader.Contents())|
          && (|reader.Contents()| == |old(reader.Contents())| ==> current.state.Done?)
        case Some(Pending) => inner.Some? && Advances(v, [], View())
        case Some(Ready(Ok(o))) =>
          && inner.Some? && o.Some? && Advances(v, o.value, View())
          && |o.value| <= maxLen && (maxLen > 0 ==> o.value != [])
        case Some(Ready(Err(e))) => inner.None? && Explains(e, v)
      ensures maxLen == 0 && r.Some? && r.value.Ready? && r.value.value.Ok? ==> DataBuffered()
      ensures maxLen == 0 && current.state.InBody? && current.remaining > 0 && old(reader.Buffered()) != [] ==>
        r == Some(Ready(Ok(Some([])))) && inner == Some(current) && reader.Buffered() == old(reader.Buffered())
    {
      hide Decode, WellFormed, Explains, Advances;
      hide BytesReader.Valid, BytesReader.Contents, BytesReader.Buffered;
      var next, p := PollReadData(current, maxLen);
      match p {
        case Pending =>
          inner := Some(next);
          return Some(Pending);
        case Ready(Err(e)) =>
          return Some(Ready(Err(e)));
        case Ready(Ok(Some(b))) =>
          inner := Some(next);
          assert b == [] ==> b + reader.Buffered() == reader.Buffered();
          return Some(Ready(Ok(Some(b))));
        case Ready(Ok(None)) =>
          inner := Some(BetweenChunk(ReadingSize));
          return None;
      }
    }

    /** `current`, taken out between chunks, is polled and put back; `None` once it knows what comes
        next. */
    method StepBetween(current: ChunkStream) returns (r: Option<Poll<Result<Option<Bytes>, BodyError>>>)
      requires reader.Valid() && inner.None? && current.BetweenChunk? && current.Valid()
      modifies Repr()
      ensures Valid()
      ensures r == Some(Pending) ==> reader.io.patience < old(reader.io.patience)
      ensures r != Some(Pending) ==> reader.io.patience == old(reader.io.patience)
      ensures reader.io.reliable ==> !IsReadFault(r)
      ensures var v := Decode(current.Where(), old(reader.Contents()), limits);
        match r
        case None =>
          && inner.Some? && Advances(v, [], View())
          && |reader.Contents()| <= |old(reader.Contents())|
          && (|reader.Contents()| == |old(reader.Contents())| ==> inner.value.Rank() < current.Rank())
        case Some(Pending) => inner.Some? && Advances(v, [], View())
        case Some(Ready(Ok(_))) => false
        case Some(Ready(Err(e))) => inner.None? && Explains(e, v)
    {
      hide Decode, WellFormed, Explains, Advances;
      hide BytesReader.Valid, BytesReader.Contents, BytesReader.Buffered;
      var next, p := PollReadChunk(current);
      match p {
        case Pending =>
          inner := Some(next);
          return Some(Pending);
        case Ready(Err(e)) =>
          return Some(Ready(Err(e)));
        case Ready(Ok(_)) =>
          inner := Some(if next.head.ReadyData? then InChunk(next.head.size, next.head.size, InBody)
                        else Final(next.head.trailers));
          return None;
      }
    }

    /** Reads up to `maxLen` bytes of the body; `None` once the body and its trailers are over. */
    method PollRead(maxLen: nat) returns (r: Poll<Result<Option<Bytes>, BodyError>>)
      requires Valid()
      modifies Repr()
      ensures Valid()
      ensures r.Pending? ==> reader.io.patience < old(reader.io.patience)
      ensures reader.io.reliable && r.Ready? && r.value.Err? ==> !r.value.error.BodyReadError?
      ensures r.Ready? ==> reader.io.patience == old(reader.io.patience)
      ensures r.Ready? && r.value.Err? <==> inner.None?
      ensures match r
        case Pending => Advances(old(View()), [], View())
        case Ready(Ok(Some(b))) => Advances(old(View()), b, View()) && |b| <= maxLen && (maxLen > 0 ==> b != [])
        case Ready(Ok(None)) =>
          && inner.value.Final? && Advances(old(View()), [], View())
          && View() == Stop(Ended(inner.value.trailers, reader.Contents()), true)
        case Ready(Err(e)) => Explains(e, old(View()))
      ensures maxLen == 0 && r.Ready? && r.value.Ok? && r.value.value.Some? ==> DataBuffered()
      ensures maxLen == 0 && old(DataBuffered()) ==> r == Ready(Ok(Some([]))) && DataBuffered()
    {
      hide Decode, WellFormed, Explains, Advances;
      hide BytesReader.Valid, BytesReader.Contents, BytesReader.Buffered;
      ghost var o := View();
      Unmoved(o);
      while true
        invariant Valid()
        invariant reader.io.patience == old(reader.io.patience)
        invariant inner.None? ==> View() == o
        invariant Advances(o, [], View())
        invariant maxLen == 0 && old(DataBuffered()) ==>
          inner == old(inner) && reader.Buffered() == old(reader.Buffered())
        decreases |reader.Contents()|, if inner.Some? then inner.value.Rank() else 0
      {
        ghost var v := View();
        if inner.None? {
          LatchExplains(o);
          return Ready(Err(ReadAfterError));
        }
        var current := inner.value;
        if current.Final? {
          EndDecodes(current.trailers, reader.Contents(), limits);
          return Ready(Ok(None));
        }
        assert this !in reader.Repr();
        inner := None;
        var step: Option<Poll<Result<Option<Bytes>, BodyError>>>;
        if current.InChunk? {
          step := StepInChunk(current, maxLen);
        } else {
          step := StepBetween(current);
        }
        StepExplained(step, o, v, View());
        if step.Some? {
          return step.value;
        }
      }
    }

    /** Discards what is left of the body and hands back its trailers, with the stream at the first
        byte after the body. */
    method Drain() returns (r: Result<seq<Field>, BodyError>)
      requires Valid()
      modifies Repr()
      ensures Valid() && reader.io.patience <= old(reader.io.patience)
      ensures reader.io.reliable && r.Err? ==> !r.error.BodyReadError?
      ensures r.Ok? ==> old(View()).end == Ended(r.value, reader.Contents())
      ensures r.Err? ==> Explains(r.error, old(View()))
    {
      hide Decode, WellFormed;
      ghost var o := View();
      ghost var discarded: Bytes := [];
      while true
        invariant Valid() && reader.io.patience <= old(reader.io.patience)
        invariant Advances(o, discarded, View())
        decreases reader.io.patience, |View().body|
      {
        ghost var v := View();
        var p := PollRead(DRAIN_SIZE);
        match p {
          case Pending =>
            AdvancesFurther(o, discarded, v, [], View());
            assert discarded + [] == discarded;
          case Ready(Ok(Some(b))) =>
            AdvancesFurther(o, discarded, v, b, View());
            discarded := discarded + b;
          case Ready(Ok(None)) =>
            return Ok(inner.value.trailers);
          case Ready(Err(e)) =>
            return Err(e);
        }
      }
    }
  }
}
