/** The chunk size line of section 7.1 of RFC 9112: printing it, and parsing it from a buffer
    that may not hold all of it yet. */
module ChunkLine {
  import opened Bytes

  function HexDigit(d: nat): byte
    requires d < 16
  {
    if d < 10 then (48 + d) as byte else (87 + d) as byte
  }

  /** The shortest lower-case hexadecimal form of `n`. */
  function Hex(n: nat): (s: Bytes)
    ensures s != [] && AllIn(s, HexDigits)
  {
    if n < 16 then [HexDigit(n)] else Hex(n / 16) + [HexDigit(n % 16)]
  }

  /** The header a chunk of `n` bytes is opened with; an empty chunk puts nothing on the wire. */
  function SizeLine(n: nat): Bytes {
    if n == 0 then [] else Hex(n) + CRLF
  }

  /** The value of a hexadecimal digit of either case, or 16. */
  function HexValue(b: byte): (v: nat)
    ensures v < 16 <==> IsHexDigit(b)
  {
    if 48 <= b <= 57 then b as nat - 48
    else if 97 <= b <= 102 then b as nat - 87
    else if 65 <= b <= 70 then b as nat - 55
    else 16
  }

  function Pow16(k: nat): (p: nat)
    ensures p > 0
  {
    if k == 0 then 1 else 16 * Pow16(k - 1)
  }

  lemma Pow16Is64Bits()
    ensures Pow16(16) == U64_LIMIT
  {
    assert Pow16(4) == 0x1_0000;
    assert Pow16(8) == 0x1_0000_0000;
    assert Pow16(12) == 0x1_0000_0000_0000;
  }

  /** No size line outgrows the fixed 18-byte header buffer of an opened chunk. */
  lemma {:induction false} HexLength(n: nat, k: nat)
    requires 1 <= k && n < Pow16(k)
    ensures |Hex(n)| <= k
  {
    if n >= 16 {
      assert Pow16(k) == 16 * Pow16(k - 1);
      HexLength(n / 16, k - 1);
    }
  }

  lemma SizeLineFitsHeader(n: u64)
    ensures |SizeLine(n)| <= 18
  {
    Pow16Is64Bits();
    HexLength(n, 16);
  }

  lemma {:induction false} Pow16Monotone(j: nat, k: nat)
    requires j <= k
    ensures Pow16(j) <= Pow16(k)
    decreases k - j
  {
    if j < k { Pow16Monotone(j + 1, k); }
  }

  /** Where the scan of a size line stands: in the digits, in the whitespace past them, inside an
      extension (whose bytes are opaque), just past a CR, or at an end. */
  datatype LinePart = Digits | Gap | Extension | NeedLf | Over | Broken

  datatype LineState = LineState(part: LinePart, digits: nat, size: nat)
  {
    predicate Valid() {
      digits <= 16 && size < Pow16(digits) && (!part.Digits? && !part.Broken? ==> 1 <= digits)
    }

    predicate IsOpen() {
      !part.Over? && !part.Broken?
    }

    function Next(b: byte): (next: LineState)
      requires Valid() && IsOpen()
      ensures next.Valid()
    {
      match part
      case Digits =>
        if IsHexDigit(b) then
          if digits == 16 then this.(part := Broken)
          else LineState(Digits, digits + 1, size * 16 + HexValue(b))
        else if digits == 0 then this.(part := Broken)
        else this.(part := PastDigits(b))
      case Gap => this.(part := PastDigits(b))
      case Extension => if b == CR then this.(part := NeedLf) else this
      case NeedLf => this.(part := if b == LF then Over else Broken)
    }

    static function PastDigits(b: byte): LinePart {
      if b == CR then NeedLf else if b == SEMICOLON then Extension else if IsOws(b) then Gap else Broken
    }
  }

  datatype SizeParse =
    | Partial
    | Invalid
    | Complete(length: nat, size: u64)

  function ParseSize(s: Bytes): (r: SizeParse)
    ensures r.Complete? ==> 0 < r.length <= |s|
  {
    Scan(s, 0, LineState(Digits, 0, 0))
  }

  function Scan(s: Bytes, i: nat, st: LineState): (r: SizeParse)
    requires i <= |s| && st.Valid()
    ensures r.Complete? ==> i <= r.length <= |s| && (st.IsOpen() ==> i < r.length)
    decreases |s| - i
  {
    if st.part.Over? then Sized(i, st)
    else if st.part.Broken? then Invalid
    else if i == |s| then Partial
    else Scan(s, i + 1, st.Next(s[i]))
  }

  function Sized(length: nat, st: LineState): (r: SizeParse)
    requires st.Valid()
    ensures r.Complete? && r.length == length && r.size == st.size
  {
    Pow16Is64Bits();
    Pow16Monotone(st.digits, 16);
    Complete(length, st.size)
  }

  /** A verdict on a buffered prefix stands however the stream goes on. */
  lemma SizeStable(s: Bytes, t: Bytes)
    requires !ParseSize(s).Partial?
    ensures ParseSize(s + t) == ParseSize(s)
  {
    ScanStable(s, t, 0, LineState(Digits, 0, 0));
  }

  lemma {:induction false} ScanStable(s: Bytes, t: Bytes, i: nat, st: LineState)
    requires i <= |s| && st.Valid() && !Scan(s, i, st).Partial?
    ensures Scan(s + t, i, st) == Scan(s, i, st)
    decreases |s| - i
  {
    if st.IsOpen() {
      assert (s + t)[i] == s[i];
      ScanStable(s, t, i + 1, st.Next(s[i]));
    }
  }

  /** And as long as there is no verdict, the line can still be completed. */
  lemma SizeOpen(s: Bytes) returns (t: Bytes)
    requires ParseSize(s).Partial?
    ensures ParseSize(s + t).Complete? && ParseSize(s + t).length == |s + t|
  {
    t := ScanOpen(s, 0, LineState(Digits, 0, 0));
  }

  lemma {:induction false} ScanOpen(s: Bytes, i: nat, st: LineState) returns (t: Bytes)
    requires i <= |s| && st.Valid() && Scan(s, i, st).Partial?
    ensures Scan(s + t, i, st).Complete? && Scan(s + t, i, st).length == |s + t|
    decreases |s| - i
  {
    if i < |s| {
      t := ScanOpen(s, i + 1, st.Next(s[i]));
      assert (s + t)[i] == s[i];
    } else if st.part.NeedLf? {
      t := [LF];
      assert (s + t)[i] == LF;
    } else if st.part.Digits? && st.digits == 0 {
      t := [48] + CRLF;
      assert (s + t)[i] == 48;
      EndsHere(s + t, i + 1, st.Next(48));
    } else {
      t := CRLF;
      EndsHere(s + t, i, st);
    }
  }

  lemma EndsHere(s: Bytes, i: nat, st: LineState)
    requires i + 2 == |s| && s[i] == CR && s[i + 1] == LF
    requires st.Valid() && st.IsOpen() && !st.part.NeedLf? && 1 <= st.digits
    ensures Scan(s, i, st).Complete? && Scan(s, i, st).length == |s|
  {
    assert !IsHexDigit(CR);
    assert st.Next(CR).part.NeedLf? && st.Next(CR).Next(LF).part.Over?;
    assert Scan(s, i, st) == Scan(s, i + 1, st.Next(CR)) == Scan(s, i + 2, st.Next(CR).Next(LF));
  }

  /** Nothing that does not start with a digit is a size line. */
  lemma NotASize(s: Bytes)
    requires s != [] && !IsHexDigit(s[0])
    ensures ParseSize(s).Invalid?
  {
    var st := LineState(Digits, 0, 0);
    assert Scan(s, 0, st) == Scan(s, 1, st.Next(s[0])) && st.Next(s[0]).part.Broken?;
  }

  // ------------------------------------------------------------------ the grammar of a size line

  /** The number that hexadecimal digits denote. */
  function HexNumber(ds: Bytes): (n: nat)
    requires AllIn(ds, HexDigits)
    ensures n < Pow16(|ds|)
  {
    if ds == [] then 0 else HexNumber(ds[..|ds| - 1]) * 16 + HexValue(ds[|ds| - 1])
  }

  /** What may stand between the digits and the CRLF: whitespace, and an extension after a
      semicolon. */
  predicate IsPadding(e: Bytes) {
    var k := RunEnd(Ows, e, 0);
    (k == |e| || e[k] == SEMICOLON) && CR !in e
  }

  /** `s` starts with a size line of `n` bytes that says `size`. */
  predicate StartsWithSize(s: Bytes, n: nat, size: nat) {
    var k := RunEnd(HexDigits, s, 0);
    && 1 <= k <= 16 && k + 2 <= n <= |s|
    && size == HexNumber(s[..k])
    && IsPadding(s[k..n - 2]) && s[n - 2..n] == CRLF
  }

  /** The line past its digits, from `i` to its end at `n`. */
  predicate IsTail(s: Bytes, i: nat, part: LinePart, n: nat) {
    && i + 2 <= n <= |s| && s[n - 2..n] == CRLF
    && if part.Extension? then CR !in s[i..n - 2] else IsPadding(s[i..n - 2])
  }

  lemma PaddingStep(b: byte, e: Bytes)
    ensures IsPadding([b] + e) <==> if b == SEMICOLON then CR !in e else IsOws(b) && IsPadding(e)
    ensures CR in [b] + e <==> b == CR || CR in e
    ensures IsPadding([])
  {
    var all := [b] + e;
    assert all[1..] == e;
    if IsOws(b) {
      RunEndShift(Ows, all, 1);
    }
  }

  lemma {:induction false} TailScan(s: Bytes, i: nat, st: LineState, n: nat)
    requires i <= |s| && st.Valid() && (st.part.Gap? || st.part.Extension?)
    ensures Scan(s, i, st).Complete? ==> Scan(s, i, st).size == st.size
    ensures Scan(s, i, st).Complete? && Scan(s, i, st).length == n <==> IsTail(s, i, st.part, n)
    decreases |s| - i
  {
    hide IsPadding;
    if i < |s| {
      var next := st.Next(s[i]);
      TailStep(s, i, st.part, n);
      if next.part.NeedLf? {
        AfterCr(s, i + 1, next);
      } else if !next.part.Broken? {
        TailScan(s, i + 1, next, n);
      }
    }
  }

  lemma AfterCr(s: Bytes, i: nat, st: LineState)
    requires i <= |s| && st.Valid() && st.part.NeedLf?
    ensures var r := Scan(s, i, st);
      if i < |s| && s[i] == LF then r.Complete? && r.length == i + 1 && r.size == st.size else !r.Complete?
  {
    if i < |s| {
      assert Scan(s, i, st) == Scan(s, i + 1, st.Next(s[i]));
    }
  }

  lemma TailStep(s: Bytes, i: nat, part: LinePart, n: nat)
    requires i < |s| && (part.Gap? || part.Extension?)
    ensures IsTail(s, i, part, n) <==>
      if s[i] == CR then n == i + 2 <= |s| && s[i + 1] == LF
      else if part.Extension? then IsTail(s, i + 1, part, n)
      else !LineState.PastDigits(s[i]).Broken? && IsTail(s, i + 1, LineState.PastDigits(s[i]), n)
  {
    hide IsPadding;
    if i + 2 <= n <= |s| {
      var e := s[i..n - 2];
      assert s[n - 2..n] == CRLF <==> s[n - 2] == CR && s[n - 1] == LF;
      if n == i + 2 {
        assert e == [];
        PaddingStep(CR, []);
      } else {
        assert e == [s[i]] + s[i + 1..n - 2];
        PaddingStep(s[i], s[i + 1..n - 2]);
      }
    }
  }

  lemma NextDigit(s: Bytes, k: nat)
    requires k < |s| && k < 16 && AllIn(s[..k + 1], HexDigits)
    ensures AllIn(s[..k], HexDigits)
    ensures var st := LineState(Digits, k, HexNumber(s[..k]));
      st.Next(s[k]) == LineState(Digits, k + 1, HexNumber(s[..k + 1]))
  {
    var ds := s[..k + 1];
    assert ds[..k] == s[..k] && ds[k] == s[k];
  }

  lemma {:induction false} DigitsScan(s: Bytes, k: nat)
    requires k <= |s| && k <= 16 && AllIn(s[..k], HexDigits)
    ensures ParseSize(s) == Scan(s, k, LineState(Digits, k, HexNumber(s[..k])))
  {
    if k > 0 {
      DigitsScan(s, k - 1);
      NextDigit(s, k - 1);
    }
  }

  /** The scan accepts exactly the size lines: one to sixteen hexadecimal digits of either case,
      whitespace, anything without a CR after a semicolon, and CRLF; and reads the number off the
      digits. */
  lemma SizeLines(s: Bytes, n: nat, size: nat)
    ensures ParseSize(s).Complete? && ParseSize(s).length == n && ParseSize(s).size == size
       <==> StartsWithSize(s, n, size)
  {
    hide IsPadding, HexNumber;
    var k := RunEnd(HexDigits, s, 0);
    var start := if k <= 16 then k else 16;
    DigitsScan(s, start);
    var st := LineState(Digits, start, HexNumber(s[..start]));
    if 1 <= k <= 16 {
      TailScan(s, k, st.(part := Gap), n);
      if k < |s| {
        assert st.Next(s[k]) == st.(part := Gap).Next(s[k]);
      }
    }
  }

  /** Either case of a digit is worth the same. */
  lemma HexValueCaseless(b: byte)
    ensures HexValue(b) == HexValue(ToLower(b))
    ensures IsHexDigit(b) <==> IsHexDigit(ToLower(b))
  {
  }

  /** The same bytes, but for the case of hexadecimal digits. */
  predicate SameButHexCase(s: Bytes, u: Bytes) {
    && |s| == |u|
    && forall i | 0 <= i < |s| :: s[i] == u[i] || (IsHexDigit(s[i]) && u[i] == ToLower(s[i]))
  }

  /** The case of the digits changes nothing about a size line. */
  lemma SizeCaseless(s: Bytes, u: Bytes)
    requires SameButHexCase(s, u)
    ensures ParseSize(s) == ParseSize(u)
  {
    ScanCaseless(s, u, 0, LineState(Digits, 0, 0));
  }

  lemma {:induction false} ScanCaseless(s: Bytes, u: Bytes, i: nat, st: LineState)
    requires SameButHexCase(s, u) && i <= |s| && st.Valid()
    ensures Scan(s, i, st) == Scan(u, i, st)
    decreases |s| - i
  {
    if st.IsOpen() && i < |s| {
      HexValueCaseless(s[i]);
      assert st.Next(s[i]) == st.Next(u[i]);
      ScanCaseless(s, u, i + 1, st.Next(s[i]));
    }
  }

  /** Leading zeros change nothing about the number, except that they count as digits. */
  lemma {:induction false} HexNumberPadded(ds: Bytes)
    requires AllIn(ds, HexDigits)
    ensures AllIn([48] + ds, HexDigits) && HexNumber([48] + ds) == HexNumber(ds)
  {
    var all := [48] + ds;
    if ds == [] {
      assert all[..0] == [] && HexNumber([]) == 0;
    } else {
      assert all[..|all| - 1] == [48] + ds[..|ds| - 1];
      HexNumberPadded(ds[..|ds| - 1]);
    }
  }

  /** A size is printed without leading zeros, and in lower case. */
  lemma {:induction false} HexIsShortest(n: nat)
    ensures n > 0 ==> Hex(n)[0] != 48
    ensures forall i | 0 <= i < |Hex(n)| :: Hex(n)[i] == ToLower(Hex(n)[i])
  {
    if n >= 16 {
      HexIsShortest(n / 16);
    }
  }

  /** Every size line is read, whatever its padding and its extension. */
  lemma SizeLineParses(ds: Bytes, gap: Bytes, extension: Bytes, t: Bytes)
    requires 1 <= |ds| <= 16 && AllIn(ds, HexDigits) && AllIn(gap, Ows)
    requires extension != [] ==> extension[0] == SEMICOLON && CR !in extension
    ensures var line := ds + gap + extension + CRLF;
      var r := ParseSize(line + t);
      r.Complete? && r.length == |line| && r.size == HexNumber(ds)
  {
    hide HexNumber;
    var e, k := gap + extension, |ds|;
    var line := ds + gap + extension + CRLF;
    var s, n := line + t, |line|;
    assert s == ds + (e + (CRLF + t)) && s == (ds + e) + (CRLF + t);
    assert s[..k] == ds && s[k..n - 2] == e && s[n - 2..n] == CRLF;
    assert s[k] == (e + CRLF)[0];
    RunEndIs(HexDigits, s, 0, k);
    PaddingParts(gap, extension);
    SizeLines(s, n, HexNumber(ds));
  }

  lemma PaddingParts(gap: Bytes, extension: Bytes)
    requires AllIn(gap, Ows)
    requires extension != [] ==> extension[0] == SEMICOLON && CR !in extension
    ensures IsPadding(gap + extension)
  {
    RunEndIs(Ows, gap + extension, 0, |gap|);
  }

  /** The digits printed for `n` denote `n`. */
  lemma {:induction false} HexNumberOfHex(n: nat)
    ensures HexNumber(Hex(n)) == n
  {
    var h := Hex(n);
    if n < 16 {
      assert h[..0] == [] && HexNumber([]) == 0;
    } else {
      assert h[..|h| - 1] == Hex(n / 16);
      HexNumberOfHex(n / 16);
    }
  }

  /** Printing then parsing a size gives it back, whatever follows the line. */
  lemma SizeRoundTrip(n: u64, t: Bytes)
    requires n > 0
    ensures ParseSize(SizeLine(n) + t) == Complete(|SizeLine(n)|, n)
  {
    Pow16Is64Bits();
    HexLength(n, 16);
    HexNumberOfHex(n);
    BareLine(Hex(n), t);
  }

  lemma BareLine(ds: Bytes, t: Bytes)
    requires 1 <= |ds| <= 16 && AllIn(ds, HexDigits)
    ensures var r := ParseSize(ds + CRLF + t); r.Complete? && r.length == |ds| + 2 && r.size == HexNumber(ds)
  {
    hide IsPadding, HexNumber;
    var s, k := ds + CRLF + t, |ds|;
    assert s[..k] == ds && s[k..k] == [] && s[k..k + 2] == CRLF && s[k] == CR;
    RunEndIs(HexDigits, s, 0, k);
    PaddingStep(CR, []);
    SizeLines(s, k + 2, HexNumber(ds));
  }

  /** The line that ends a body: `0 CRLF`. */
  const LAST_CHUNK_LINE: Bytes := [48] + CRLF

  lemma LastLineParses(t: Bytes)
    ensures ParseSize(LAST_CHUNK_LINE + t) == Complete(3, 0)
  {
    BareLine([48], t);
    assert [48 as byte][..0] == [] && HexNumber([]) == 0 && HexNumber([48]) == 0;
  }
}
