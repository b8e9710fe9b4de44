/** The chunked coding as a grammar: the decoder accepts exactly its texts, and gives up exactly on
    what can not be the start of one. */
module ChunkedGrammar {
  import opened Bytes
  import opened ChunkLine
  import opened FieldSection
  import opened ChunkedCoding

  /** A chunk as it stands in the text: its size line, extension and all, and its data. */
  datatype Chunk = Chunk(line: Bytes, data: Bytes)
  {
    predicate Valid() {
      data != [] && StartsWithSize(line, |line|, |data|)
    }
  }

  predicate AllValid(cs: seq<Chunk>) {
    forall i | 0 <= i < |cs| :: cs[i].Valid()
  }

  function Text(cs: seq<Chunk>): Bytes {
    if cs == [] then [] else cs[0].line + (cs[0].data + (CRLF + Text(cs[1..])))
  }

  function Data(cs: seq<Chunk>): Bytes {
    if cs == [] then [] else cs[0].data + Data(cs[1..])
  }

  /** Chunks, a last chunk, a trailer section with the fields `fs`. */
  predicate IsBody(cs: seq<Chunk>, last: Bytes, section: Bytes, fs: seq<Field>, slots: nat) {
    && AllValid(cs)
    && StartsWithSize(last, |last|, 0)
    && ParseSection(section, slots) == SectionParse.Complete(|section|, fs)
  }

  lemma LineFollowed(line: Bytes, size: nat, t: Bytes)
    requires StartsWithSize(line, |line|, size)
    ensures var r := ParseSize(line + t); r.Complete? && r.length == |line| && r.size == size
    ensures (line + t)[|line|..] == t
  {
    hide StartsWithSize, ParseSize;
    SizeLines(line, |line|, size);
    SizeStable(line, t);
  }

  lemma ChunkFollowed(c: Chunk, t: Bytes, l: Limits)
    requires c.Valid()
    ensures var o, o' := Decode(AtSize, c.line + (c.data + (CRLF + t)), l), Decode(AtSize, t, l);
      o.body == c.data + o'.body && o.end == o'.end
  {
    hide StartsWithSize, ParseSize, ParseSection, LineFits;
    LineFollowed(c.line, |c.data|, c.data + (CRLF + t));
    TakeData(|c.data|, c.data, CRLF + t, l);
    FooterDecodes(t, l);
  }

  lemma EndFollowed(last: Bytes, section: Bytes, fs: seq<Field>, t: Bytes, l: Limits)
    requires IsBody([], last, section, fs, l.slots)
    ensures var o := Decode(AtSize, last + (section + t), l); o.body == [] && o.end == Ended(fs, t)
  {
    hide StartsWithSize, ParseSize, ParseSection, LineFits, TrailersFit;
    LineFollowed(last, 0, section + t);
    SectionStable(section, t, l.slots);
    assert (section + t)[|section|..] == t;
  }

  /** Every text of the grammar, whatever its size lines look like, decodes to its data and its fields,
      and stops exactly where it ends. */
  lemma {:induction false} TextDecodes(cs: seq<Chunk>, last: Bytes, section: Bytes, fs: seq<Field>, t: Bytes,
                                       l: Limits)
    requires IsBody(cs, last, section, fs, l.slots)
    ensures var o := Decode(AtSize, Text(cs) + (last + (section + t)), l);
      o.body == Data(cs) && o.end == Ended(fs, t)
  {
    hide Decode, StartsWithSize, ParseSection;
    var end := last + (section + t);
    if cs == [] {
      assert Text(cs) + end == end;
      EndFollowed(last, section, fs, t, l);
    } else {
      TextDecodes(cs[1..], last, section, fs, t, l);
      ChunkFollowed(cs[0], Text(cs[1..]) + end, l);
      assert Text(cs) + end == cs[0].line + (cs[0].data + (CRLF + (Text(cs[1..]) + end)));
    }
  }

  lemma SizeCut(s: Bytes, n: nat, size: nat)
    requires StartsWithSize(s, n, size)
    ensures StartsWithSize(s[..n], n, size)
  {
    hide HexNumber, IsPadding;
    var k := RunEnd(HexDigits, s, 0);
    assert s[..n][..k] == s[..k] && s[..n][k..n - 2] == s[k..n - 2] && s[..n][n - 2..n] == s[n - 2..n];
    RunEndIs(HexDigits, s[..n], 0, k);
  }

  /** A chunk in front of a body that ends is followed by its CRLF. */
  lemma ChunkTaken(s: Bytes, n: nat, l: Limits)
    requires Decode(InData(n), s, l).end.Ended?
    ensures n + 2 <= |s| && s[n] == CR && s[n + 1] == LF
    ensures var o, o' := Decode(InData(n), s, l), Decode(AtSize, s[n + 2..], l);
      o.body == s[..n] + o'.body && o.end == o'.end
  {
    hide ParseSize, ParseSection, LineFits;
    var foot := s[n..];
    assert Decode(AtCr, foot, l).end.Ended?;
    assert Decode(AtLf, foot[1..], l).end.Ended?;
    assert foot[1..][1..] == s[n + 2..];
  }

  /** The first chunk of a body that ends, when it is not the last one. */
  lemma FirstChunk(s: Bytes, l: Limits) returns (c: Chunk, next: Bytes)
    requires Decode(AtSize, s, l).end.Ended? && ParseSize(s).Complete? && ParseSize(s).size > 0
    ensures c.Valid() && s == c.line + (c.data + (CRLF + next)) && |next| < |s|
    ensures Decode(AtSize, s, l).body == c.data + Decode(AtSize, next, l).body
    ensures Decode(AtSize, s, l).end == Decode(AtSize, next, l).end
  {
    hide StartsWithSize, ParseSize, ParseSection, LineFits;
    var n, size := ParseSize(s).length, ParseSize(s).size;
    SizeLines(s, n, size);
    SizeCut(s, n, size);
    var after := s[n..];
    assert Decode(InData(size), after, l).end.Ended?;
    ChunkTaken(after, size, l);
    c, next := Chunk(s[..n], after[..size]), after[size + 2..];
    assert after == c.data + (CRLF + next);
  }

  /** The end of a body that ends. */
  lemma LastParts(s: Bytes, l: Limits) returns (last: Bytes, section: Bytes)
    requires Decode(AtSize, s, l).end.Ended? && ParseSize(s).Complete? && ParseSize(s).size == 0
    ensures IsBody([], last, section, Decode(AtSize, s, l).end.trailers, l.slots)
    ensures s == last + (section + Decode(AtSize, s, l).end.rest) && Decode(AtSize, s, l).body == []
  {
    hide StartsWithSize, ParseSize, ParseSection, LineFits, TrailersFit;
    var n := ParseSize(s).length;
    SizeLines(s, n, 0);
    SizeCut(s, n, 0);
    var after := s[n..];
    SectionCut(after, l.slots);
    last, section := s[..n], after[..ParseSection(after, l.slots).length];
  }

  lemma EndedStarts(s: Bytes, l: Limits)
    requires Decode(AtSize, s, l).end.Ended?
    ensures ParseSize(s).Complete?
  {
    hide ParseSize, LineFits;
  }

  /** And nothing else decodes as complete: what does is such a text. */
  lemma {:induction false} DecodedIsText(s: Bytes, l: Limits)
    returns (cs: seq<Chunk>, last: Bytes, section: Bytes)
    requires Decode(AtSize, s, l).end.Ended?
    ensures IsBody(cs, last, section, Decode(AtSize, s, l).end.trailers, l.slots)
    ensures s == Text(cs) + (last + (section + Decode(AtSize, s, l).end.rest))
    ensures Decode(AtSize, s, l).body == Data(cs)
    decreases |s|
  {
    hide Decode, StartsWithSize, ParseSize, ParseSection;
    EndedStarts(s, l);
    if ParseSize(s).size == 0 {
      last, section := LastParts(s, l);
      cs := [];
      assert [] + s == s;
    } else {
      var c, next := FirstChunk(s, l);
      var more;
      more, last, section := DecodedIsText(next, l);
      cs := [c] + more;
      assert cs[1..] == more;
      var end := last + (section + Decode(AtSize, next, l).end.rest);
      assert c.line + (c.data + (CRLF + (Text(more) + end))) == c.line + (c.data + (CRLF + Text(more))) + end;
    }
  }

  /** What is merely cut short can still end; so the decoder gives up only on what can not. */
  lemma {:induction false} TruncatedCanEnd(p: Position, s: Bytes, l: Limits) returns (t: Bytes)
    requires Decode(p, s, l).end == Truncated
    ensures Decode(p, s + t, l).end.Ended?
    decreases |s|, p.InData?
  {
    hide ParseSize, ParseSection, LineFits, TrailersFit;
    match p
    case AtSize =>
      if ParseSize(s).Partial? {
        t := SizeCanEnd(s, l);
      } else {
        var n, size := ParseSize(s).length, ParseSize(s).size;
        t := TruncatedCanEnd(if size == 0 then AtTrailers else InData(size), s[n..], l);
        SizeStable(s, t);
        assert (s + t)[n..] == s[n..] + t;
      }
    case InData(n) =>
      if |s| < n {
        var fill := seq(n - |s|, _ => 0);
        var u := FooterCanEnd(AtCr, l);
        t := fill + u;
        assert s + t == (s + fill) + u;
        TakeData(n, s + fill, u, l);
        ChunkDataEnds(u, l);
      } else {
        t := TruncatedCanEnd(AtCr, s[n..], l);
        assert (s + t)[..n] == s[..n] && (s + t)[n..] == s[n..] + t;
      }
    case AtCr =>
      if s == [] {
        t := FooterCanEnd(AtCr, l);
        assert s + t == t;
      } else {
        t := TruncatedCanEnd(AtLf, s[1..], l);
        assert (s + t)[1..] == s[1..] + t;
      }
    case AtLf =>
      if s == [] {
        t := FooterCanEnd(AtLf, l);
        assert s + t == t;
      } else {
        t := TruncatedCanEnd(AtSize, s[1..], l);
        assert (s + t)[1..] == s[1..] + t;
      }
    case AtTrailers =>
      t := SectionOpen(s, l.slots);
    case AtEnd(_) =>
      t := [];
  }

  lemma FooterCanEnd(p: Position, l: Limits) returns (t: Bytes)
    requires p.AtCr? || p.AtLf?
    ensures Decode(p, t, l).end.Ended?
  {
    hide ParseSize, ParseSection, LineFits;
    NothingIsPartial();
    var u := SizeCanEnd([], l);
    assert [] + u == u;
    var afterCr := [LF] + u;
    assert afterCr[1..] == u;
    assert Decode(AtLf, afterCr, l).end.Ended?;
    t := if p.AtCr? then [CR] + afterCr else afterCr;
    assert p.AtCr? ==> t[1..] == afterCr;
  }

  lemma NothingIsPartial()
    ensures ParseSize([]).Partial?
  {
  }

  /** A size line that has not arrived in full can still be followed by its data and an end. */
  lemma SizeCanEnd(s: Bytes, l: Limits) returns (t: Bytes)
    requires ParseSize(s).Partial?
    ensures Decode(AtSize, s + t, l).end.Ended?
  {
    hide Decode, StartsWithSize, ParseSize;
    var u := SizeOpen(s);
    var line := s + u;
    var size := ParseSize(line).size;
    SizeLines(line, |line|, size);
    LastLineParses([]);
    assert LAST_CHUNK_LINE + [] == LAST_CHUNK_LINE;
    SizeLines(LAST_CHUNK_LINE, 3, 0);
    if size == 0 {
      t := u + [LF];
      TextDecodes([], line, [LF], [], [], l);
      assert s + t == Text([]) + (line + ([LF] + []));
    } else {
      var c := Chunk(line, seq(size, _ => 0));
      t := u + c.data + CRLF + LAST_CHUNK_LINE + [LF];
      TextDecodes([c], LAST_CHUNK_LINE, [LF], [], [], l);
      assert [c][1..] == [] && Text([c]) == line + (c.data + (CRLF + Text([])));
      assert s + t == Text([c]) + (LAST_CHUNK_LINE + ([LF] + []));
    }
  }
}
