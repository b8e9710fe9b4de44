/** The chunked coding of section 7.1 of RFC 9112 as a whole-stream decoder and encoder.

    `Decode` is what the incremental readers refine, and `EncodeBody` is what the incremental
    writer puts on the wire; neither knows about buffers, polling or partial I/O. */
module ChunkedCoding {
  import opened Bytes
  import opened ChunkLine
  import opened FieldSection
  import opened BodyErrors

  /** How a body ends: with its trailers and the bytes after it, in the middle, or on a byte
      that breaks the coding. */
  datatype Ending =
    | Ended(trailers: seq<Field>, rest: Bytes)
    | Truncated
    | Malformed(error: BodyError)

  /** What is left of a body. `fits` says that no size line and no trailer section on the way
      outgrows the reader's limits before it ends. */
  datatype Outcome = Outcome(body: Bytes, end: Ending, fits: bool)

  function Prepend(b: Bytes, o: Outcome): Outcome {
    Outcome(b + o.body, o.end, o.fits)
  }

  /** Reading `b` leads from `o` to `o'`. */
  predicate Advances(o: Outcome, b: Bytes, o': Outcome) {
    o.body == b + o'.body && o.end == o'.end && (o.fits ==> o'.fits)
  }

  lemma AdvancesFurther(o: Outcome, b: Bytes, o': Outcome, c: Bytes, o'': Outcome)
    requires Advances(o, b, o') && Advances(o', c, o'')
    ensures Advances(o, b + c, o'')
  {
    assert b + (c + o''.body) == (b + c) + o''.body;
  }

  datatype Limits = Limits(maxLine: nat, maxTrailers: nat, slots: nat)

  /** A position inside a chunked body. */
  datatype Position =
    | AtSize
    | InData(remaining: nat)
    | AtCr
    | AtLf
    | AtTrailers
    | AtEnd(trailers: seq<Field>)

  predicate LineFits(s: Bytes, max: nat) {
    |s| >= max ==> !ParseSize(s[..max]).Partial?
  }

  predicate TrailersFit(s: Bytes, max: nat, slots: nat) {
    |s| >= max ==> !ParseSection(s[..max], slots).Partial?
  }

  function Stop(end: Ending, fits: bool): Outcome {
    Outcome([], end, fits)
  }

  /** The body from position `p` on, when `s` is everything still to come. */
  function Decode(p: Position, s: Bytes, l: Limits): Outcome
    decreases |s|, p.InData?
  {
    match p
    case AtSize =>
      var fits := LineFits(s, l.maxLine);
      (match ParseSize(s)
       case Partial => Stop(Truncated, fits)
       case Invalid => Stop(Malformed(InvalidChunkHeader), fits)
       case Complete(n, size) =>
         var o := if size == 0 then Decode(AtTrailers, s[n..], l) else Decode(InData(size), s[n..], l);
         o.(fits := fits && o.fits))
    case InData(n) =>
      if |s| < n then Outcome(s, Truncated, true)
      else Prepend(s[..n], Decode(AtCr, s[n..], l))
    case AtCr =>
      if s == [] then Stop(Truncated, true)
      else if s[0] != CR then Stop(Malformed(InvalidChunkFooter(CR, s[0])), true)
      else Decode(AtLf, s[1..], l)
    case AtLf =>
      if s == [] then Stop(Truncated, true)
      else if s[0] != LF then Stop(Malformed(InvalidChunkFooter(LF, s[0])), true)
      else Decode(AtSize, s[1..], l)
    case AtTrailers =>
      var fits := TrailersFit(s, l.maxTrailers, l.slots);
      (match ParseSection(s, l.slots)
       case Partial => Stop(Truncated, fits)
       case Invalid(e) => Stop(Malformed(TrailerFault(BadField(e))), fits)
       case Complete(n, fs) => Stop(Ended(fs, s[n..]), fits))
    case AtEnd(fs) => Stop(Ended(fs, s), true)
  }

  /** Bytes taken from the front of a chunk's data come off the front of the body. */
  lemma TakeData(n: nat, b: Bytes, s: Bytes, l: Limits)
    requires |b| <= n
    ensures Decode(InData(n), b + s, l) == Prepend(b, Decode(InData(n - |b|), s, l))
  {
    hide ParseSize, ParseSection;
    if |s| >= n - |b| {
      assert (b + s)[..n] == b + s[..n - |b|];
      assert (b + s)[n..] == s[n - |b|..];
      assert b + s[..n - |b|] + Decode(AtCr, s[n - |b|..], l).body
          == b + (s[..n - |b|] + Decode(AtCr, s[n - |b|..], l).body);
    }
  }

  lemma ChunkDataEnds(s: Bytes, l: Limits)
    ensures Decode(InData(0), s, l) == Decode(AtCr, s, l)
  {
    hide ParseSize, ParseSection;
    var o := Decode(AtCr, s, l);
    assert s[0..] == s && [] + o.body == o.body;
  }

  /** What more input can do to an outcome: nothing but lengthen the rest once the body has ended,
      nothing at all once the coding is broken, and otherwise only continue the body. */
  predicate Continues(o: Outcome, t: Bytes, longer: Outcome) {
    match o.end
    case Ended(fs, rest) => longer == Outcome(o.body, Ended(fs, rest + t), o.fits)
    case Malformed(_) => longer == o
    case Truncated => o.body <= longer.body && (longer.fits ==> o.fits)
  }

  lemma LineFitsStable(s: Bytes, t: Bytes, max: nat)
    ensures !ParseSize(s).Partial? ==> LineFits(s + t, max) == LineFits(s, max)
    ensures LineFits(s + t, max) ==> LineFits(s, max)
  {
    hide ParseSize;
    if |s| >= max {
      assert (s + t)[..max] == s[..max];
    } else if |s + t| >= max && !ParseSize(s).Partial? {
      assert (s + t)[..max] == s + t[..max - |s|];
      SizeStable(s, t[..max - |s|]);
    }
  }

  lemma TrailersFitStable(s: Bytes, t: Bytes, max: nat, slots: nat)
    ensures !ParseSection(s, slots).Partial? ==> TrailersFit(s + t, max, slots) == TrailersFit(s, max, slots)
    ensures TrailersFit(s + t, max, slots) ==> TrailersFit(s, max, slots)
  {
    hide ParseSection;
    if |s| >= max {
      assert (s + t)[..max] == s[..max];
    } else if |s + t| >= max && !ParseSection(s, slots).Partial? {
      assert (s + t)[..max] == s + t[..max - |s|];
      SectionStable(s, t[..max - |s|], slots);
    }
  }

  /** The decoder never changes its mind: whatever it has made of a stream so far stands, however
      the stream goes on. */
  lemma {:induction false} DecodeStable(p: Position, s: Bytes, t: Bytes, l: Limits)
    ensures Continues(Decode(p, s, l), t, Decode(p, s + t, l))
    decreases |s|, p.InData?
  {
    hide ParseSize, ParseSection, LineFits, TrailersFit;
    match p
    case AtSize =>
      LineFitsStable(s, t, l.maxLine);
      if !ParseSize(s).Partial? {
        SizeStable(s, t);
        match ParseSize(s) {
          case Complete(n, size) =>
            assert (s + t)[n..] == s[n..] + t;
            DecodeStable(if size == 0 then AtTrailers else InData(size), s[n..], t, l);
          case Invalid =>
          case Partial =>
        }
      }
    case InData(n) =>
      if |s| < n {
        TakeData(n, s, t, l);
      } else {
        assert (s + t)[..n] == s[..n];
        assert (s + t)[n..] == s[n..] + t;
        DecodeStable(AtCr, s[n..], t, l);
      }
    case AtCr =>
      if s != [] && s[0] == CR {
        assert (s + t)[1..] == s[1..] + t;
        DecodeStable(AtLf, s[1..], t, l);
      }
    case AtLf =>
      if s != [] && s[0] == LF {
        assert (s + t)[1..] == s[1..] + t;
        DecodeStable(AtSize, s[1..], t, l);
      }
    case AtTrailers =>
      TrailersFitStable(s, t, l.maxTrailers, l.slots);
      if !ParseSection(s, l.slots).Partial? {
        SectionStable(s, t, l.slots);
        match ParseSection(s, l.slots) {
          case Complete(n, fs) => assert (s + t)[n..] == s[n..] + t;
          case Invalid(_) =>
          case Partial =>
        }
      }
    case AtEnd(_) =>
  }

  lemma {:induction false} TrailersWellFormed(p: Position, s: Bytes, l: Limits)
    requires Decode(p, s, l).end.Ended?
    requires p.AtEnd? ==> AllWellFormed(p.trailers)
    ensures AllWellFormed(Decode(p, s, l).end.trailers)
    decreases |s|, p.InData?
  {
    hide ParseSize, ParseSection, LineFits, TrailersFit, AllWellFormed;
    match p
    case AtSize =>
      var r := ParseSize(s);
      TrailersWellFormed(if r.size == 0 then AtTrailers else InData(r.size), s[r.length..], l);
    case InData(n) => TrailersWellFormed(AtCr, s[n..], l);
    case AtCr => TrailersWellFormed(AtLf, s[1..], l);
    case AtLf => TrailersWellFormed(AtSize, s[1..], l);
    case AtTrailers => SectionWellFormed(s, l.slots);
    case AtEnd(_) =>
  }

  /** What follows a complete body is a suffix of the stream. */
  lemma {:induction false} RestIsSuffix(p: Position, s: Bytes, l: Limits)
    requires Decode(p, s, l).end.Ended?
    ensures |Decode(p, s, l).end.rest| <= |s|
    ensures Decode(p, s, l).end.rest == s[|s| - |Decode(p, s, l).end.rest|..]
    ensures !p.AtEnd? ==> |Decode(p, s, l).end.rest| < |s|
    decreases |s|, p.InData?
  {
    hide ParseSize, ParseSection, LineFits, TrailersFit;
    match p
    case AtSize =>
      var n := ParseSize(s).length;
      RestIsSuffix(if ParseSize(s).size == 0 then AtTrailers else InData(ParseSize(s).size), s[n..], l);
    case InData(n) => RestIsSuffix(AtCr, s[n..], l);
    case AtCr => RestIsSuffix(AtLf, s[1..], l);
    case AtLf => RestIsSuffix(AtSize, s[1..], l);
    case AtTrailers =>
    case AtEnd(_) =>
  }

  /** Truncation is never mistaken for completion: cut a complete stream anywhere before the end
      of its body, and what is left decodes as a truncated body that the full one extends. */
  lemma CutIsTruncated(s: Bytes, k: nat, l: Limits)
    requires Decode(AtSize, s, l).end.Ended?
    requires k < |s| - |Decode(AtSize, s, l).end.rest|
    ensures Decode(AtSize, s[..k], l).end == Truncated
    ensures Decode(AtSize, s[..k], l).body <= Decode(AtSize, s, l).body
  {
    hide Decode;
    var cut := s[..k];
    assert cut + s[k..] == s;
    DecodeStable(AtSize, cut, s[k..], l);
    if Decode(AtSize, cut, l).end.Ended? {
      RestIsSuffix(AtSize, cut, l);
    }
  }

  // ------------------------------------------------------------------ encoding

  /** One Open/Write/Close cycle; an empty one leaves nothing on the wire. */
  function EncodeChunk(c: Bytes): Bytes {
    if c == [] then [] else SizeLine(|c|) + c + CRLF
  }

  function EncodeChunks(cs: seq<Bytes>): Bytes {
    if cs == [] then [] else EncodeChunks(cs[..|cs| - 1]) + EncodeChunk(cs[|cs| - 1])
  }

  function Flatten(cs: seq<Bytes>): Bytes {
    if cs == [] then [] else Flatten(cs[..|cs| - 1]) + cs[|cs| - 1]
  }

  lemma AppendChunk(cs: seq<Bytes>, c: Bytes)
    ensures Flatten(cs + [c]) == Flatten(cs) + c
    ensures EncodeChunks(cs + [c])
         == EncodeChunks(cs) + (SizeLine(|c|) + c + CRLF[..if c == [] then 0 else 2])
  {
    hide Hex;
    var more := cs + [c];
    assert more[..|more| - 1] == cs;
    assert c == [] ==> SizeLine(|c|) + c + CRLF[..0] == [];
    assert CRLF[..2] == CRLF;
  }

  function LastChunk(trailers: seq<Field>): Bytes {
    LAST_CHUNK_LINE + PrintSection(trailers)
  }

  function EncodeBody(cs: seq<Bytes>, trailers: seq<Field>): Bytes {
    EncodeChunks(cs) + LastChunk(trailers)
  }

  /** A receiver's limits have room for every size line, and for these trailers. */
  predicate Covers(l: Limits, trailers: seq<Field>) {
    l.maxLine >= 18 && l.maxTrailers >= |PrintSection(trailers)| && l.slots >= |trailers|
  }

  /** Every chunk length is a 64-bit count. */
  predicate Sized64(cs: seq<Bytes>) {
    forall i | 0 <= i < |cs| :: |cs[i]| < U64_LIMIT
  }

  lemma ChunkDecodes(c: Bytes, t: Bytes, l: Limits)
    requires |c| < U64_LIMIT && l.maxLine >= 18
    ensures Decode(AtSize, EncodeChunk(c) + t, l) == Prepend(c, Decode(AtSize, t, l))
  {
    hide ParseSize, ParseSection, SizeLine;
    if c == [] {
      assert EncodeChunk(c) + t == t;
    } else {
      var line := SizeLine(|c|);
      var s := EncodeChunk(c) + t;
      assert s == line + (c + (CRLF + t));
      SizeRoundTrip(|c|, c + (CRLF + t));
      ShortLineFits(|c|, c + (CRLF + t), l.maxLine);
      assert s[|line|..] == c + (CRLF + t);
      TakeData(|c|, c, CRLF + t, l);
      FooterDecodes(t, l);
    }
  }

  lemma FooterDecodes(t: Bytes, l: Limits)
    ensures Decode(InData(0), CRLF + t, l) == Decode(AtSize, t, l)
  {
    hide ParseSize, ParseSection;
    var s := CRLF + t;
    assert s[1..] == [LF] + t && ([LF] + t)[1..] == t;
    ChunkDataEnds(s, l);
  }

  lemma ShortLineFits(n: u64, t: Bytes, max: nat)
    requires n > 0 && max >= 18
    ensures LineFits(SizeLine(n) + t, max)
  {
    hide ParseSize, SizeLine;
    SizeLineFitsHeader(n);
    var s := SizeLine(n) + t;
    if |s| >= max {
      assert s[..max] == SizeLine(n) + t[..max - |SizeLine(n)|];
      SizeRoundTrip(n, t[..max - |SizeLine(n)|]);
    }
  }

  /** A run of encoded chunks decodes to their concatenation, followed by whatever the rest of the
      stream decodes to. */
  lemma {:induction false} ChunksDecode(cs: seq<Bytes>, t: Bytes, l: Limits)
    requires Sized64(cs) && l.maxLine >= 18
    ensures Decode(AtSize, EncodeChunks(cs) + t, l) == Prepend(Flatten(cs), Decode(AtSize, t, l))
  {
    hide Decode, EncodeChunk;
    if cs == [] {
      assert EncodeChunks(cs) + t == t;
      assert Prepend([], Decode(AtSize, t, l)).body == Decode(AtSize, t, l).body;
    } else {
      var c, most := cs[|cs| - 1], cs[..|cs| - 1];
      assert EncodeChunks(cs) + t == EncodeChunks(most) + (EncodeChunk(c) + t);
      ChunksDecode(most, EncodeChunk(c) + t, l);
      ChunkDecodes(c, t, l);
      assert Flatten(most) + (c + Decode(AtSize, t, l).body) == Flatten(cs) + Decode(AtSize, t, l).body;
    }
  }

  lemma LastChunkDecodes(trailers: seq<Field>, t: Bytes, l: Limits)
    requires AllWellFormed(trailers)
    requires Covers(l, trailers)
    ensures Decode(AtSize, LastChunk(trailers) + t, l) == Outcome([], Ended(trailers, t), true)
  {
    hide ParseSize, ParseSection, PrintSection;
    var body := PrintSection(trailers) + t;
    var s := LastChunk(trailers) + t;
    assert s == LAST_CHUNK_LINE + body;
    LastLineParses(body);
    assert s[3..] == body;
    if |s| >= l.maxLine {
      assert s[..l.maxLine] == LAST_CHUNK_LINE + body[..l.maxLine - 3];
      LastLineParses(body[..l.maxLine - 3]);
    }
    SectionRoundTrip(trailers, t, l.slots);
    var n := |PrintSection(trailers)|;
    if |body| >= l.maxTrailers {
      assert body[..l.maxTrailers] == PrintSection(trailers) + t[..l.maxTrailers - n];
      SectionRoundTrip(trailers, t[..l.maxTrailers - n], l.slots);
    }
    assert body[n..] == t;
  }

  /** The chunked round trip: any chunking of any payload, with any well-formed trailers and any
      bytes after it, decodes to the payload, the trailers, and exactly those bytes. */
  lemma RoundTrip(cs: seq<Bytes>, trailers: seq<Field>, t: Bytes, l: Limits)
    requires Sized64(cs) && AllWellFormed(trailers)
    requires Covers(l, trailers)
    ensures Decode(AtSize, EncodeBody(cs, trailers) + t, l) == Outcome(Flatten(cs), Ended(trailers, t), true)
  {
    hide Decode, LastChunk, EncodeChunks;
    assert EncodeBody(cs, trailers) + t == EncodeChunks(cs) + (LastChunk(trailers) + t);
    ChunksDecode(cs, LastChunk(trailers) + t, l);
    LastChunkDecodes(trailers, t, l);
    assert Flatten(cs) + [] == Flatten(cs);
  }

  /** The end of a body, cut anywhere, is no end. */
  lemma CutLastChunkDecodes(trailers: seq<Field>, k: nat, l: Limits)
    requires AllWellFormed(trailers) && Covers(l, trailers) && k < |LastChunk(trailers)|
    ensures Decode(AtSize, LastChunk(trailers)[..k], l).body == []
    ensures Decode(AtSize, LastChunk(trailers)[..k], l).end == Truncated
  {
    hide Decode, LastChunk, Covers;
    LastChunkDecodes(trailers, [], l);
    assert LastChunk(trailers) + [] == LastChunk(trailers);
    CutIsTruncated(LastChunk(trailers), k, l);
  }

  /** An aborted stream is broken for good: chunks, then `x`, then anything at all. */
  lemma AbortIsMalformed(cs: seq<Bytes>, t: Bytes, l: Limits)
    requires Sized64(cs) && l.maxLine >= 18
    ensures Decode(AtSize, EncodeChunks(cs) + ABORT_MARK + t, l).body == Flatten(cs)
    ensures Decode(AtSize, EncodeChunks(cs) + ABORT_MARK + t, l).end == Malformed(InvalidChunkHeader)
  {
    hide EncodeChunks, ParseSize;
    var s := ABORT_MARK + t;
    assert EncodeChunks(cs) + ABORT_MARK + t == EncodeChunks(cs) + s;
    ChunksDecode(cs, s, l);
    assert s[0] == 120;
    NotASize(s);
    assert Flatten(cs) + [] == Flatten(cs);
  }

  /** `x`, which no size line starts with. */
  const ABORT_MARK: Bytes := [120]

  // ------------------------------------------------------------------ a chunk in flight

  /** A size line cut short is not a size line yet. */
  lemma CutLineIsPartial(n: u64, k: nat)
    requires k < |SizeLine(n)|
    ensures ParseSize(SizeLine(n)[..k]).Partial?
  {
    hide ParseSize;
    var line := SizeLine(n);
    assert n > 0;
    SizeRoundTrip(n, []);
    assert line + [] == line && line[..k] + line[k..] == line;
    if !ParseSize(line[..k]).Partial? {
      SizeStable(line[..k], line[k..]);
    }
  }

  lemma CutHeaderDecodes(n: u64, k: nat, l: Limits)
    requires k <= |SizeLine(n)|
    ensures Decode(AtSize, SizeLine(n)[..k], l).body == [] && Decode(AtSize, SizeLine(n)[..k], l).end == Truncated
  {
    hide ParseSize, ParseSection, SizeLine, LineFits;
    if k < |SizeLine(n)| {
      CutLineIsPartial(n, k);
    } else if n == 0 {
      EmptyStream(l);
    } else {
      CutDataDecodes(n, [], l);
      assert SizeLine(n)[..k] == SizeLine(n) + [];
    }
  }

  lemma EmptyStream(l: Limits)
    ensures SizeLine(0) == []
    ensures Decode(AtSize, [], l).body == [] && Decode(AtSize, [], l).end == Truncated
  {
  }

  lemma CutCrlfDecodes(k: nat, l: Limits)
    requires k <= 2
    ensures Decode(AtCr, CRLF[..k], l).body == [] && Decode(AtCr, CRLF[..k], l).end == Truncated
  {
    hide ParseSize, ParseSection;
    if k == 2 {
      EmptyStream(l);
      assert CRLF[..2][1..] == [LF] && [LF][1..] == [];
      assert Decode(AtLf, [LF], l) == Decode(AtSize, [], l);
    } else if k == 1 {
      assert CRLF[..1][1..] == [];
      assert Decode(AtLf, [], l).end == Truncated;
    }
  }

  lemma CutDataDecodes(n: u64, data: Bytes, l: Limits)
    requires |data| <= n
    ensures Decode(AtSize, SizeLine(n) + data, l).body == data && Decode(AtSize, SizeLine(n) + data, l).end == Truncated
  {
    hide ParseSize, ParseSection, SizeLine, LineFits;
    if n == 0 {
      EmptyStream(l);
    } else if |data| == n {
      CutFooterDecodes(data, 0, l);
      assert SizeLine(n) + data == SizeLine(n) + data + CRLF[..0];
    } else {
      var s := SizeLine(n) + data;
      SizeRoundTrip(n, data);
      assert s[|SizeLine(n)|..] == data;
    }
  }

  lemma CutFooterDecodes(data: Bytes, k: nat, l: Limits)
    requires 0 < |data| < U64_LIMIT && k <= 2
    ensures var s := SizeLine(|data|) + data + CRLF[..k];
      Decode(AtSize, s, l).body == data && Decode(AtSize, s, l).end == Truncated
  {
    hide ParseSize, ParseSection, SizeLine, LineFits;
    var n := |data|;
    var tail := data + CRLF[..k];
    assert SizeLine(n) + data + CRLF[..k] == SizeLine(n) + tail;
    SizeRoundTrip(n, tail);
    assert (SizeLine(n) + tail)[|SizeLine(n)|..] == tail;
    assert tail[..n] == data && tail[n..] == CRLF[..k];
    CutCrlfDecodes(k, l);
    assert Decode(InData(n), tail, l) == Prepend(data, Decode(AtCr, CRLF[..k], l));
    assert data + [] == data;
  }
}
