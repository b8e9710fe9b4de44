/** Comma-separated field values (section 5.6.1 of RFC 9110) and decimal numbers. */
module Lists {
  import opened Bytes
  import opened Results

  function FirstComma(v: Bytes): (i: nat)
    ensures i <= |v|
  {
    RunEnd(NotComma, v, 0)
  }

  /** The raw pieces between commas; there is always at least one. */
  function Pieces(v: Bytes): (ps: seq<Bytes>)
    ensures ps != []
    decreases |v|
  {
    var c := FirstComma(v);
    if c == |v| then [v] else [v[..c]] + Pieces(v[c + 1..])
  }

  function TrimAll(ps: seq<Bytes>): (es: seq<Bytes>)
    ensures |es| == |ps|
    ensures forall i | 0 <= i < |ps| :: es[i] == TrimOws(ps[i])
  {
    seq(|ps|, i requires 0 <= i < |ps| => TrimOws(ps[i]))
  }

  /** The list elements, trimmed; empty ones included. */
  function Elements(v: Bytes): (es: seq<Bytes>)
    ensures es != [] && forall i | 0 <= i < |es| :: Trimmed(es[i])
  {
    TrimAll(Pieces(v))
  }

  lemma FirstElement(v: Bytes)
    ensures var c := FirstComma(v);
      Elements(v) == [TrimOws(v[..c])] + if c < |v| then Elements(v[c + 1..]) else []
  {
    hide FirstComma, TrimAll;
    var c := FirstComma(v);
    var more := if c < |v| then Pieces(v[c + 1..]) else [];
    assert v[..|v|] == v && [v] + [] == [v];
    assert Pieces(v) == [v[..c]] + more;
    TrimFirst(v[..c], more);
  }

  lemma TrimFirst(p: Bytes, more: seq<Bytes>)
    ensures TrimAll([p] + more) == [TrimOws(p)] + TrimAll(more)
    ensures TrimAll([]) == []
  {
    hide TrimOws;
  }

  lemma FirstCommaJoined(v: Bytes, w: Bytes)
    ensures FirstComma(v + [COMMA] + w) == FirstComma(v)
  {
    RunEndIs(NotComma, v + [COMMA] + w, 0, FirstComma(v));
  }

  lemma {:induction false} PiecesJoin(v: Bytes, w: Bytes)
    ensures Pieces(v + [COMMA] + w) == Pieces(v) + Pieces(w)
    decreases |v|
  {
    hide FirstComma;
    var c := FirstComma(v);
    var s := v + [COMMA] + w;
    FirstCommaJoined(v, w);
    if c == |v| {
      assert s[..c] == v && s[c + 1..] == w;
    } else {
      assert s[..c] == v[..c] && s[c + 1..] == v[c + 1..] + [COMMA] + w;
      PiecesJoin(v[c + 1..], w);
      assert [v[..c]] + (Pieces(v[c + 1..]) + Pieces(w)) == [v[..c]] + Pieces(v[c + 1..]) + Pieces(w);
    }
  }

  /** Joining two values with a comma joins their lists. */
  lemma ElementsJoin(v: Bytes, w: Bytes)
    ensures Elements(v + [COMMA] + w) == Elements(v) + Elements(w)
  {
    hide TrimOws, Pieces;
    PiecesJoin(v, w);
    assert TrimAll(Pieces(v) + Pieces(w)) == TrimAll(Pieces(v)) + TrimAll(Pieces(w));
  }

  lemma TrimOwsPadded(before: Bytes, s: Bytes, after: Bytes)
    requires AllIn(before, Ows) && AllIn(after, Ows)
    ensures TrimOws(before + s + after) == TrimOws(s)
  {
    hide TrimOws;
    var a, b := OwsAround(s);
    var core := TrimOws(s);
    assert before + s + after == (before + a) + core + (b + after);
    assert AllIn(before + a, Ows) && AllIn(b + after, Ows);
    TrimOwsCore(before + a, core, b + after);
  }

  lemma WithoutComma(v: Bytes)
    requires AllIn(v, NotComma)
    ensures Elements(v) == [TrimOws(v)]
  {
    hide TrimOws;
    RunEndIs(NotComma, v, 0, |v|);
    FirstElement(v);
    assert v[..|v|] == v;
  }

  lemma PaddedWithoutComma(before: Bytes, v: Bytes, after: Bytes)
    requires AllIn(before, Ows) && AllIn(after, Ows) && AllIn(v, NotComma)
    ensures Elements(before + v + after) == Elements(v)
  {
    hide TrimOws, Elements, IsOws;
    assert forall b: byte :: In(b, Ows) ==> In(b, NotComma) by { OwsIsNotComma(); }
    assert AllIn(before + v + after, NotComma);
    WithoutComma(before + v + after);
    WithoutComma(v);
    TrimOwsPadded(before, v, after);
  }

  lemma OwsIsNotComma()
    ensures forall b: byte :: In(b, Ows) ==> In(b, NotComma)
  {
  }

  lemma {:induction false} ElementsPadded(before: Bytes, v: Bytes, after: Bytes)
    requires AllIn(before, Ows) && AllIn(after, Ows)
    ensures Elements(before + v + after) == Elements(v)
    decreases |v|
  {
    hide Elements, RunEnd;
    var c := FirstComma(v);
    if c == |v| {
      PaddedWithoutComma(before, v, after);
    } else {
      var head, tail := v[..c], v[c + 1..];
      assert v == head + [COMMA] + tail;
      assert before + v + after == (before + head + []) + [COMMA] + ([] + tail + after);
      ElementsJoin(before + head + [], [] + tail + after);
      ElementsJoin(head, tail);
      PaddedWithoutComma(before, head, []);
      ElementsPadded([], tail, after);
    }
  }

  /** Whitespace around a whole list value does not matter. */
  lemma ElementsTrim(v: Bytes)
    ensures Elements(TrimOws(v)) == Elements(v)
  {
    var a, b := OwsAround(v);
    ElementsPadded(a, TrimOws(v), b);
  }

  /** The elements that are not empty. */
  function NonEmpty(es: seq<Bytes>): seq<Bytes> {
    if es == [] then []
    else
      var most, last := NonEmpty(es[..|es| - 1]), es[|es| - 1];
      if last == [] then most else most + [last]
  }

  lemma {:induction false} NonEmptyFirst(e: Bytes, es: seq<Bytes>)
    ensures NonEmpty([e] + es) == (if e == [] then [] else [e]) + NonEmpty(es)
  {
    var all := [e] + es;
    if es == [] {
      assert all[..0] == [] && all[0] == e;
    } else {
      assert all[..|all| - 1] == [e] + es[..|es| - 1];
      NonEmptyFirst(e, es[..|es| - 1]);
    }
  }

  // ------------------------------------------------------------------ decimal numbers

  function Decimal(n: nat): (s: Bytes)
    ensures s != [] && AllIn(s, Digit)
  {
    if n < 10 then [(48 + n) as byte] else Decimal(n / 10) + [(48 + n % 10) as byte]
  }

  function DecimalValue(s: Bytes): nat
    requires AllIn(s, Digit)
  {
    if s == [] then 0 else DecimalValue(s[..|s| - 1]) * 10 + (s[|s| - 1] as nat - 48)
  }

  /** The value of a non-empty run of digits that fits 64 bits. */
  function ParseU64(s: Bytes): Option<u64> {
    if s != [] && AllIn(s, Digit) && DecimalValue(s) < U64_LIMIT then Some(DecimalValue(s)) else None
  }

  lemma {:induction false} DecimalRoundTrip(n: nat)
    ensures DecimalValue(Decimal(n)) == n
  {
    if n >= 10 {
      DecimalRoundTrip(n / 10);
      assert Decimal(n)[..|Decimal(n)| - 1] == Decimal(n / 10);
    } else {
      assert Decimal(n)[..0] == [];
      assert DecimalValue([]) == 0;
    }
  }

  function Zeros(k: nat): (s: Bytes)
    ensures AllIn(s, Digit)
  {
    seq(k, _ => 48)
  }

  lemma {:induction false} LeadingZero(s: Bytes)
    requires AllIn(s, Digit)
    ensures AllIn([48] + s, Digit) && DecimalValue([48] + s) == DecimalValue(s)
  {
    var all := [48] + s;
    if s == [] {
      assert all[..0] == [] && DecimalValue([]) == 0;
    } else {
      assert all[..|all| - 1] == [48] + s[..|s| - 1];
      LeadingZero(s[..|s| - 1]);
    }
  }

  lemma {:induction false} LeadingZeros(k: nat, s: Bytes)
    requires AllIn(s, Digit)
    ensures AllIn(Zeros(k) + s, Digit) && DecimalValue(Zeros(k) + s) == DecimalValue(s)
  {
    if k == 0 {
      assert Zeros(0) + s == s;
    } else {
      LeadingZeros(k - 1, s);
      LeadingZero(Zeros(k - 1) + s);
      assert Zeros(k) + s == [48] + (Zeros(k - 1) + s);
    }
  }

  lemma {:induction false} WithoutLeadingZero(s: Bytes)
    requires s != [] && AllIn(s, Digit) && (|s| == 1 || s[0] != 48)
    ensures s == Decimal(DecimalValue(s))
  {
    var most, d := s[..|s| - 1], s[|s| - 1];
    if |s| == 1 {
      assert most == [] && DecimalValue(most) == 0;
    } else {
      WithoutLeadingZero(most);
      assert DecimalValue(most) != 0;
      assert s == most + [d];
    }
  }

  /** The numbers accepted are exactly the decimal forms of the 64-bit ones, with any leading zeros. */
  lemma U64Accepted(k: nat, n: nat)
    ensures ParseU64(Zeros(k) + Decimal(n)) == if n < U64_LIMIT then Some(n) else None
  {
    hide Decimal, DecimalValue;
    LeadingZeros(k, Decimal(n));
    DecimalRoundTrip(n);
  }

  lemma {:induction false} U64HasParts(s: Bytes) returns (k: nat)
    requires ParseU64(s).Some?
    ensures s == Zeros(k) + Decimal(ParseU64(s).value)
  {
    if |s| == 1 || s[0] != 48 {
      k := 0;
      WithoutLeadingZero(s);
      assert Zeros(0) + s == s;
    } else {
      assert s == [48] + s[1..];
      LeadingZero(s[1..]);
      k := U64HasParts(s[1..]);
      assert Zeros(k + 1) == [48] + Zeros(k);
      k := k + 1;
    }
  }
}
