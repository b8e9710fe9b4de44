/** Field lines and field sections, sections 5 and 7.1.2 of RFC 9112: a parser for a section that
    may not have arrived in full, and the printer the writers use. The parser takes a bare LF for a
    line end, as section 2.2 allows; the printer always writes CRLF. */
module FieldSection {
  import opened Bytes

  datatype Field = Field(name: Bytes, value: Bytes)

  datatype FieldError = InvalidField | TooManyFields

  datatype LineParse =
    | LinePartial
    | LineInvalid
    | Line(length: nat, field: Field)

  /** One `name ":" OWS value OWS` and its line end. */
  function ParseLine(s: Bytes): (r: LineParse)
    ensures r.Line? ==> 3 <= r.length <= |s|
  {
    var colon := RunEnd(Token, s, 0);
    if colon == |s| then LinePartial
    else if colon == 0 || s[colon] != COLON then LineInvalid
    else ParseValue(s, colon)
  }

  /** The rest of a field line whose name ends at `colon`. */
  function ParseValue(s: Bytes, colon: nat): (r: LineParse)
    requires 0 < colon < |s|
    ensures r.Line? ==> colon + 2 <= r.length <= |s|
  {
    var end := RunEnd(FieldValue, s, colon + 1);
    if end == |s| then LinePartial
    else if s[end] == LF then Line(end + 1, Field(s[..colon], TrimOws(s[colon + 1..end])))
    else if s[end] != CR then LineInvalid
    else if end + 1 == |s| then LinePartial
    else if s[end + 1] != LF then LineInvalid
    else Line(end + 2, Field(s[..colon], TrimOws(s[colon + 1..end])))
  }

  /** A field that survives being printed: a token for a name, and a trimmed value without any
      byte that could end its line. */
  predicate WellFormed(f: Field) {
    && f.name != []
    && AllIn(f.name, Token)
    && AllIn(f.value, FieldValue)
    && Trimmed(f.value)
  }

  lemma LineWellFormed(s: Bytes)
    requires ParseLine(s).Line?
    ensures WellFormed(ParseLine(s).field)
  {
    var colon := RunEnd(Token, s, 0);
    var end := RunEnd(FieldValue, s, colon + 1);
    var raw := s[colon + 1..end];
    TrimOwsAllIn(raw, FieldValue);
  }

  datatype SectionParse =
    | Partial
    | Invalid(error: FieldError)
    | Complete(length: nat, fields: seq<Field>)

  /** Field lines up to and including the empty line; `slots` bounds how many are accepted. */
  function ParseSection(s: Bytes, slots: nat): (r: SectionParse)
    ensures r.Complete? ==> 1 <= r.length <= |s| && |r.fields| <= slots
  {
    if s == [] then Partial
    else if s[0] == LF then Complete(1, [])
    else if s[0] == CR then
      if |s| == 1 then Partial
      else if s[1] == LF then Complete(2, [])
      else Invalid(InvalidField)
    else if slots == 0 then Invalid(TooManyFields)
    else
      match ParseLine(s)
      case LinePartial => Partial
      case LineInvalid => Invalid(InvalidField)
      case Line(n, f) =>
        match ParseSection(s[n..], slots - 1)
        case Partial => Partial
        case Invalid(e) => Invalid(e)
        case Complete(m, fs) => Complete(n + m, [f] + fs)
  }

  lemma {:induction false} SectionWellFormed(s: Bytes, slots: nat)
    requires ParseSection(s, slots).Complete?
    ensures AllWellFormed(ParseSection(s, slots).fields)
  {
    hide ParseLine, RunEnd;
    if s[0] != CR && s[0] != LF {
      LineWellFormed(s);
      SectionWellFormed(s[ParseLine(s).length..], slots - 1);
    }
  }

  predicate AllWellFormed(fs: seq<Field>) {
    forall i | 0 <= i < |fs| :: WellFormed(fs[i])
  }

  lemma LineStable(s: Bytes, t: Bytes)
    requires !ParseLine(s).LinePartial?
    ensures ParseLine(s + t) == ParseLine(s)
  {
    var colon := RunEnd(Token, s, 0);
    RunEndIs(Token, s + t, 0, colon);
    if colon > 0 && s[colon] == COLON {
      ValueStable(s, t, colon);
    }
  }

  lemma ValueStable(s: Bytes, t: Bytes, colon: nat)
    requires 0 < colon < |s|
    requires !ParseValue(s, colon).LinePartial?
    ensures ParseValue(s + t, colon) == ParseValue(s, colon)
  {
    hide TrimOws;
    var end := RunEnd(FieldValue, s, colon + 1);
    RunEndIs(FieldValue, s + t, colon + 1, end);
    assert (s + t)[..colon] == s[..colon];
    assert (s + t)[colon + 1..end] == s[colon + 1..end];
  }

  /** A verdict on a buffered prefix stands however the stream goes on. */
  lemma {:induction false} SectionStable(s: Bytes, t: Bytes, slots: nat)
    requires !ParseSection(s, slots).Partial?
    ensures ParseSection(s + t, slots) == ParseSection(s, slots)
  {
    hide ParseLine;
    if s[0] != CR && s[0] != LF && slots > 0 {
      LineStable(s, t);
      match ParseLine(s)
      case Line(n, f) =>
        assert (s + t)[n..] == s[n..] + t;
        SectionStable(s[n..], t, slots - 1);
      case LineInvalid =>
      case LinePartial =>
    }
  }

  function PrintLine(f: Field): Bytes {
    f.name + [COLON, SP] + f.value + CRLF
  }

  function PrintFields(fs: seq<Field>): Bytes {
    if fs == [] then [] else PrintLine(fs[0]) + PrintFields(fs[1..])
  }

  /** What the writers emit for a whole section. */
  function PrintSection(fs: seq<Field>): Bytes {
    PrintFields(fs) + CRLF
  }

  lemma LineStartsWithName(f: Field)
    requires WellFormed(f)
    ensures PrintLine(f) != [] && IsTchar(PrintLine(f)[0])
  {
    assert PrintLine(f)[0] == f.name[0];
  }

  predicate IsLineEnd(eol: Bytes) {
    eol == CRLF || eol == [LF]
  }

  /** A field line, with whitespace around its value. */
  function LineOf(f: Field, before: Bytes, after: Bytes, eol: Bytes): Bytes {
    f.name + [COLON] + (before + f.value + after) + eol
  }

  /** Every field line is accepted, down to its line end, and gives its name and its bare value. */
  lemma LineParses(f: Field, before: Bytes, after: Bytes, eol: Bytes, t: Bytes)
    requires WellFormed(f) && AllIn(before, Ows) && AllIn(after, Ows) && IsLineEnd(eol)
    ensures ParseLine(LineOf(f, before, after, eol) + t) == Line(|LineOf(f, before, after, eol)|, f)
  {
    var s := LineOf(f, before, after, eol) + t;
    assert s == f.name + ([COLON] + (before + f.value + after) + eol + t);
    RunEndIs(Token, s, 0, |f.name|);
    ValueParses(f, before, after, eol, t, s);
  }

  lemma ValueParses(f: Field, before: Bytes, after: Bytes, eol: Bytes, t: Bytes, s: Bytes)
    requires WellFormed(f) && AllIn(before, Ows) && AllIn(after, Ows) && IsLineEnd(eol)
    requires s == LineOf(f, before, after, eol) + t
    ensures ParseValue(s, |f.name|) == Line(|LineOf(f, before, after, eol)|, f)
  {
    hide TrimOws, RunEnd;
    var raw := before + f.value + after;
    var colon, end := |f.name|, |f.name| + 1 + |raw|;
    assert s == (f.name + [COLON]) + raw + (eol + t);
    assert s[colon + 1..end] == raw;
    assert s[end] == eol[0] && (eol == CRLF ==> s[end + 1] == LF);
    assert AllIn(raw, FieldValue);
    RunEndSlice(FieldValue, s, colon + 1, end);
    TrimOwsCore(before, f.value, after);
    assert s[..colon] == f.name;
  }

  /** And nothing else is: what is accepted is such a line. */
  lemma LineHasParts(s: Bytes) returns (before: Bytes, after: Bytes, eol: Bytes)
    requires ParseLine(s).Line?
    ensures AllIn(before, Ows) && AllIn(after, Ows) && IsLineEnd(eol) && WellFormed(ParseLine(s).field)
    ensures s[..ParseLine(s).length] == LineOf(ParseLine(s).field, before, after, eol)
  {
    hide TrimOws, RunEnd;
    LineWellFormed(s);
    var colon := RunEnd(Token, s, 0);
    var end := RunEnd(FieldValue, s, colon + 1);
    var raw := s[colon + 1..end];
    before, after := OwsAround(raw);
    var n := ParseLine(s).length;
    eol := s[end..n];
    assert s[..end] == s[..colon] + [COLON] + raw;
    assert s[..n] == s[..end] + eol;
  }

  lemma LineRoundTrip(f: Field, t: Bytes)
    requires WellFormed(f)
    ensures ParseLine(PrintLine(f) + t) == Line(|PrintLine(f)|, f)
    ensures PrintLine(f) == LineOf(f, [SP], [], CRLF)
  {
    hide ParseLine;
    LineParses(f, [SP], [], CRLF, t);
    assert PrintLine(f) == LineOf(f, [SP], [], CRLF);
  }

  /** Printing then parsing a section gives back the same fields in the same order, and stops
      exactly where the section ends. */
  lemma {:induction false} SectionRoundTrip(fs: seq<Field>, t: Bytes, slots: nat)
    requires |fs| <= slots
    requires AllWellFormed(fs)
    ensures ParseSection(PrintSection(fs) + t, slots) == Complete(|PrintSection(fs)|, fs)
  {
    hide ParseLine, PrintLine;
    var s := PrintSection(fs) + t;
    if fs == [] {
      assert s == CRLF + t;
    } else {
      var rest := PrintSection(fs[1..]) + t;
      assert s == PrintLine(fs[0]) + rest;
      LineRoundTrip(fs[0], rest);
      LineStartsWithName(fs[0]);
      assert s[|PrintLine(fs[0])|..] == rest;
      SectionRoundTrip(fs[1..], t, slots - 1);
      assert [fs[0]] + fs[1..] == fs;
    }
  }

  /** One field too many is refused. */
  lemma {:induction false} SectionTooMany(fs: seq<Field>, t: Bytes, slots: nat)
    requires |fs| > slots && AllWellFormed(fs)
    ensures ParseSection(PrintSection(fs) + t, slots) == Invalid(TooManyFields)
  {
    hide ParseLine, PrintLine;
    var s := PrintSection(fs) + t;
    var rest := PrintSection(fs[1..]) + t;
    assert s == PrintLine(fs[0]) + rest;
    LineRoundTrip(fs[0], rest);
    LineStartsWithName(fs[0]);
    if slots > 0 {
      assert s[|PrintLine(fs[0])|..] == rest;
      SectionTooMany(fs[1..], t, slots - 1);
    }
  }

  /** A line that is accepted is accepted from its own bytes alone. */
  lemma LineCut(s: Bytes, k: nat)
    requires ParseLine(s).Line? && ParseLine(s).length <= k <= |s|
    ensures ParseLine(s[..k]) == ParseLine(s)
  {
    hide ParseLine, WellFormed;
    var before, after, eol := LineHasParts(s);
    var n, f := ParseLine(s).length, ParseLine(s).field;
    assert s[..k] == s[..n] + s[n..k];
    LineParses(f, before, after, eol, s[n..k]);
  }

  /** And so is a section. */
  lemma {:induction false} SectionCut(s: Bytes, slots: nat)
    requires ParseSection(s, slots).Complete?
    ensures ParseSection(s[..ParseSection(s, slots).length], slots) == ParseSection(s, slots)
  {
    hide ParseLine;
    if s[0] != CR && s[0] != LF {
      var n, m := ParseLine(s).length, ParseSection(s, slots).length;
      LineCut(s, m);
      SectionCut(s[n..], slots - 1);
      assert s[..m][n..] == s[n..][..m - n];
    }
  }

  /** As long as there is no verdict on a line, it can still be completed. */
  lemma LineOpen(s: Bytes) returns (t: Bytes)
    requires s != [] && ParseLine(s).LinePartial?
    ensures ParseLine(s + t).Line? && ParseLine(s + t).length == |s + t|
  {
    hide TrimOws, RunEnd;
    var colon := RunEnd(Token, s, 0);
    if colon == |s| {
      t := [COLON, LF];
      RunEndIs(Token, s + t, 0, colon);
      RunEndIs(FieldValue, s + t, colon + 1, colon + 1);
    } else {
      RunEndIs(Token, s + [LF], 0, colon);
      t := [LF];
      var end := RunEnd(FieldValue, s, colon + 1);
      RunEndIs(FieldValue, s + t, colon + 1, end);
    }
  }

  /** Nor is there one on a section. */
  lemma {:induction false} SectionOpen(s: Bytes, slots: nat) returns (t: Bytes)
    requires ParseSection(s, slots).Partial?
    ensures ParseSection(s + t, slots).Complete?
  {
    hide ParseLine;
    if s == [] || s == [CR] {
      t := [LF];
    } else if ParseLine(s).LinePartial? {
      var u := LineOpen(s);
      t := u + [LF];
      assert s + t == (s + u) + [LF] && (s + t)[|s + u|..] == [LF];
      LineStable(s + u, [LF]);
    } else {
      var n := ParseLine(s).length;
      t := SectionOpen(s[n..], slots - 1);
      LineStable(s, t);
      assert (s + t)[n..] == s[n..] + t;
    }
  }

  /** A printed section cut anywhere is not a section yet. */
  lemma CutSectionIsPartial(fs: seq<Field>, k: nat, slots: nat)
    requires |fs| <= slots && AllWellFormed(fs) && k < |PrintSection(fs)|
    ensures ParseSection(PrintSection(fs)[..k], slots).Partial?
  {
    hide ParseSection, PrintSection, AllWellFormed;
    var s := PrintSection(fs);
    SectionRoundTrip(fs, [], slots);
    assert s + [] == s && s[..k] + s[k..] == s;
    if !ParseSection(s[..k], slots).Partial? {
      SectionStable(s[..k], s[k..], slots);
    }
  }

  lemma {:induction false} PrintFieldsConcat(fs: seq<Field>, gs: seq<Field>)
    ensures PrintFields(fs + gs) == PrintFields(fs) + PrintFields(gs)
  {
    if fs == [] {
      assert fs + gs == gs;
    } else {
      assert (fs + gs)[1..] == fs[1..] + gs;
      PrintFieldsConcat(fs[1..], gs);
    }
  }
}
