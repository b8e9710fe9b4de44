/** Octets, and the few ASCII classes the codecs and parsers share. */
module Bytes {

  newtype byte = b: int | 0 <= b < 256

  type Bytes = seq<byte>

  const U64_LIMIT := 0x1_0000_0000_0000_0000

  /** A 64-bit unsigned count; every assignment to one is proved not to overflow. */
  type u64 = n: nat | n < U64_LIMIT

  const HTAB: byte := 9
  const LF: byte := 10
  const CR: byte := 13
  const SP: byte := 32
  const COMMA: byte := 44
  const COLON: byte := 58
  const SEMICOLON: byte := 59

  const CRLF: Bytes := [CR, LF]

  predicate IsOws(b: byte) {
    b == SP || b == HTAB
  }

  predicate IsDigit(b: byte) {
    48 <= b <= 57
  }

  predicate IsHexDigit(b: byte) {
    IsDigit(b) || 65 <= b <= 70 || 97 <= b <= 102
  }

  predicate IsAlpha(b: byte) {
    65 <= b <= 90 || 97 <= b <= 122
  }

  /** `tchar` of RFC 9110 section 5.6.2: ALPHA, DIGIT and ``!#$%&'*+-.^_`|~``. */
  predicate IsTchar(b: byte) {
    || IsDigit(b)
    || IsAlpha(b)
    || b == 33
    || 35 <= b <= 39
    || b == 42 || b == 43 || b == 45 || b == 46
    || 94 <= b <= 96
    || b == 124 || b == 126
  }

  /** `field-vchar`: visible ASCII or obs-text. */
  predicate IsFieldVchar(b: byte) {
    33 <= b && b != 127
  }

  predicate IsFieldValueByte(b: byte) {
    IsFieldVchar(b) || IsOws(b)
  }

  function ToLower(b: byte): byte {
    if 65 <= b <= 90 then b + 32 else b
  }

  /** ASCII case-insensitive comparison. */
  predicate EqIgnoreCase(x: Bytes, y: Bytes) {
    |x| == |y| && forall i | 0 <= i < |x| :: ToLower(x[i]) == ToLower(y[i])
  }

  /** The byte classes whose runs the parsers skip over. */
  datatype ByteClass =
    | Ows | Digit | HexDigits | NotSpace | NotCr | NotComma | Token | FieldValue
    | SchemeTail | AuthorityByte | NotFragment

  predicate In(b: byte, c: ByteClass) {
    match c
    case Ows => IsOws(b)
    case Digit => IsDigit(b)
    case HexDigits => IsHexDigit(b)
    case NotSpace => b != SP
    case NotCr => b != CR
    case NotComma => b != COMMA
    case Token => IsTchar(b)
    case FieldValue => IsFieldValueByte(b)
    case SchemeTail => IsAlpha(b) || IsDigit(b) || b == 43 || b == 45 || b == 46
    case AuthorityByte => b != 47 && b != 63 && b != 35
    case NotFragment => b != 35
  }

  predicate AllIn(s: Bytes, c: ByteClass) {
    forall i | 0 <= i < |s| :: In(s[i], c)
  }

  /** The end of the longest run of bytes of class `c` that starts at `i`. */
  function RunEnd(c: ByteClass, s: Bytes, i: nat): (j: nat)
    requires i <= |s|
    ensures i <= j <= |s|
    ensures forall k | i <= k < j :: In(s[k], c)
    ensures j < |s| ==> !In(s[j], c)
    decreases |s| - i
  {
    if i < |s| && In(s[i], c) then RunEnd(c, s, i + 1) else i
  }

  /** A run is determined by its bytes and the byte that stops it. */
  lemma RunEndIs(c: ByteClass, s: Bytes, i: nat, j: nat)
    requires i <= j <= |s|
    requires forall k | i <= k < j :: In(s[k], c)
    requires j < |s| ==> !In(s[j], c)
    ensures RunEnd(c, s, i) == j
  {
    var e := RunEnd(c, s, i);
    assert e < j || e == j || j < e;
  }

  lemma RunEndSlice(c: ByteClass, s: Bytes, i: nat, j: nat)
    requires i <= j <= |s|
    requires AllIn(s[i..j], c)
    requires j < |s| ==> !In(s[j], c)
    ensures RunEnd(c, s, i) == j
  {
    forall k | i <= k < j
      ensures In(s[k], c)
    {
      assert s[k] == s[i..j][k - i];
    }
    RunEndIs(c, s, i, j);
  }

  lemma RunEndShift(c: ByteClass, v: Bytes, k: nat)
    requires k <= |v|
    ensures RunEnd(c, v, k) == k + RunEnd(c, v[k..], 0)
  {
    var e := RunEnd(c, v[k..], 0);
    assert forall i | k <= i < k + e :: v[i] == v[k..][i - k];
    RunEndIs(c, v, k, k + e);
  }

  /** The start of the longest run of bytes of class `c` that ends at `j`. */
  function RunStart(c: ByteClass, s: Bytes, j: nat): (i: nat)
    requires j <= |s|
    ensures i <= j
    ensures forall k | i <= k < j :: In(s[k], c)
    ensures i > 0 ==> !In(s[i - 1], c)
  {
    if j > 0 && In(s[j - 1], c) then RunStart(c, s, j - 1) else j
  }

  /** `trim_ows`: strip SP and HTAB, and nothing else, from both ends. */
  function TrimOws(s: Bytes): (t: Bytes)
    ensures |t| <= |s| && Trimmed(t)
  {
    var start := RunEnd(Ows, s, 0);
    if start == |s| then [] else s[start..RunStart(Ows, s, |s|)]
  }

  predicate Trimmed(s: Bytes) {
    s != [] ==> !IsOws(s[0]) && !IsOws(s[|s| - 1])
  }

  /** Trimming recovers a trimmed core from any whitespace put around it, and nothing else. */
  lemma TrimOwsCore(before: Bytes, core: Bytes, after: Bytes)
    requires AllIn(before, Ows) && AllIn(after, Ows)
    requires Trimmed(core)
    ensures TrimOws(before + core + after) == core
  {
    var s := before + core + after;
    if core == [] {
      RunEndIs(Ows, s, 0, |s|);
    } else {
      assert s[|before|] == core[0] && s[|before + core| - 1] == core[|core| - 1];
      RunEndIs(Ows, s, 0, |before|);
      var e := RunStart(Ows, s, |s|);
      assert e <= |before + core| - 1 ==> In(s[|before + core| - 1], Ows);
      assert forall k | |before + core| <= k < |s| :: s[k] == after[k - |before + core|];
      assert e == |before + core|;
      assert s[|before|..|before + core|] == core;
    }
  }

  /** The whitespace that trimming takes off. */
  lemma OwsAround(s: Bytes) returns (before: Bytes, after: Bytes)
    ensures AllIn(before, Ows) && AllIn(after, Ows)
    ensures s == before + TrimOws(s) + after
  {
    var start := RunEnd(Ows, s, 0);
    if start == |s| {
      before, after := s, [];
    } else {
      var end := RunStart(Ows, s, |s|);
      before, after := s[..start], s[end..];
    }
  }

  /** Every byte that trimming keeps was there before. */
  lemma TrimOwsAllIn(s: Bytes, c: ByteClass)
    requires AllIn(s, c)
    ensures AllIn(TrimOws(s), c)
  {
  }
}
