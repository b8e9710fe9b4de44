/** The header set, and the framing decision it carries (section 8.6 of RFC 9110, sections 6.1 and
    6.3 of RFC 9112). */
module Headers {
  import opened Bytes
  import opened Results
  import opened FieldSection
  import opened FieldSelect
  import opened Lists

  /** "content-length" */
  const CONTENT_LENGTH: Bytes := [99, 111, 110, 116, 101, 110, 116, 45, 108, 101, 110, 103, 116, 104]

  /** "transfer-encoding" */
  const TRANSFER_ENCODING: Bytes := [116, 114, 97, 110, 115, 102, 101, 114, 45, 101, 110, 99, 111, 100, 105, 110, 103]

  /** "chunked" */
  const CHUNKED: Bytes := [99, 104, 117, 110, 107, 101, 100]

  datatype ParsedFraming = Length(length: u64) | Chunked | NoFraming

  datatype HeaderError =
    | InvalidContentLength
    | ConflictingContentLength(first: u64, second: u64)
    | MultipleTransferEncodingHeaders
    | UnsupportedTransferEncoding
    | BothTeAndCl

  /** Every list element of several field values. */
  function AllElements(vs: seq<Bytes>): seq<Bytes> {
    if vs == [] then [] else AllElements(vs[..|vs| - 1]) + Elements(vs[|vs| - 1])
  }

  function LengthElements(fs: seq<Field>): seq<Bytes> {
    AllElements(Named(fs, CONTENT_LENGTH))
  }

  /** Every element denotes the same 64-bit number `n`. */
  predicate AllDenote(es: seq<Bytes>, n: u64) {
    forall i | 0 <= i < |es| :: ParseU64(es[i]) == Some(n)
  }

  predicate LengthsAgree(es: seq<Bytes>) {
    es != [] ==> ParseU64(es[0]).Some? && AllDenote(es, ParseU64(es[0]).value)
  }

  /** The value names the chunked coding once and nothing else; empty elements do not count. */
  predicate SoleChunked(v: Bytes) {
    var codings := NonEmpty(Elements(v));
    |codings| == 1 && EqIgnoreCase(CHUNKED, codings[0])
  }

  /** What the header set says about framing, if it says one thing. */
  function FramingOf(fs: seq<Field>): Option<ParsedFraming> {
    var lengths, codings := LengthElements(fs), Named(fs, TRANSFER_ENCODING);
    if !LengthsAgree(lengths) then None
    else if codings == [] then Some(if lengths == [] then NoFraming else Length(ParseU64(lengths[0]).value))
    else if |codings| == 1 && SoleChunked(codings[0]) && lengths == [] then Some(Chunked)
    else None
  }

  class Headers {
    var headers: seq<Field>

    constructor (headers: seq<Field>)
      ensures this.headers == headers
    {
      this.headers := headers;
    }

    /** `framing`: one scan over the fields, validating every content-length element as it goes and
        leaving transfer-encoding for the end. */
    method Framing() returns (r: Result<ParsedFraming, HeaderError>)
      ensures r.Ok? <==> FramingOf(headers).Some?
      ensures r.Ok? ==> r.value == FramingOf(headers).value
      ensures r.Err? ==>
        var lengths, codings := LengthElements(headers), Named(headers, TRANSFER_ENCODING);
        match r.error
        case MultipleTransferEncodingHeaders => LengthsAgree(lengths) && |codings| > 1
        case UnsupportedTransferEncoding => LengthsAgree(lengths) && |codings| == 1 && !SoleChunked(codings[0])
        case BothTeAndCl => LengthsAgree(lengths) && lengths != [] && |codings| == 1 && SoleChunked(codings[0])
        case e => LengthFault(e, None, lengths) && !LengthsAgree(lengths)
    {
      hide EqIgnoreCase, Elements, ParseU64, SoleChunked, LengthFault;
      var scanned := Scan();
      if scanned.Err? {
        return Err(scanned.error);
      }
      var (length, teHeaders, teValue) := scanned.value;
      var te := false;
      if teHeaders == 1 {
        var c := EnsureSoleChunkedCoding(teValue);
        if c.Err? {
          return Err(c.error);
        }
        te := true;
      } else if teHeaders > 1 {
        return Err(MultipleTransferEncodingHeaders);
      }
      match length {
        case None => return Ok(if te then Chunked else NoFraming);
        case Some(n) => return if te then Err(BothTeAndCl) else Ok(Length(n));
      }
    }

    /** The scan: the number every content-length element denotes, if there are any, and the
        transfer-encoding values, as far as the decision needs them. */
    method Scan() returns (r: Result<(Option<u64>, nat, Bytes), HeaderError>)
      ensures r.Err? ==> LengthFault(r.error, None, LengthElements(headers)) && !LengthsAgree(LengthElements(headers))
      ensures r.Err? ==> r.error.InvalidContentLength? || r.error.ConflictingContentLength?
      ensures r.Ok? ==>
        var lengths, codings := LengthElements(headers), Named(headers, TRANSFER_ENCODING);
        var (length, teHeaders, teValue) := r.value;
        && (lengths == [] <==> length.None?) && (length.Some? ==> AllDenote(lengths, length.value))
        && teHeaders == |codings| && (teHeaders > 0 ==> teValue == codings[teHeaders - 1])
    {
      hide EqIgnoreCase, Elements, ParseU64, LengthFault, Named, LengthElements, LengthsAgree;
      var length: Option<u64> := None;
      var teHeaders: nat := 0;
      var teValue: Bytes := [];
      NothingNamed();
      for i := 0 to |headers|
        invariant teHeaders == |Named(headers[..i], TRANSFER_ENCODING)|
        invariant teHeaders > 0 ==> teValue == Named(headers[..i], TRANSFER_ENCODING)[teHeaders - 1]
        invariant LengthElements(headers[..i]) == [] <==> length.None?
        invariant length.Some? ==> AllDenote(LengthElements(headers[..i]), length.value)
      {
        var Field(name, value) := headers[i];
        ghost var seen := headers[..i];
        assert headers[..i + 1] == seen + [headers[i]];
        ScanStep(seen, headers[i]);
        NamesDiffer(name);
        if EqIgnoreCase(CONTENT_LENGTH, name) {
          var c := CheckLengths(value, length);
          if c.Err? {
            LaterElementsStay(headers, i + 1);
            LengthErrorStands(LengthElements(seen), Elements(value), LengthElements(headers), length, c.error);
            return Err(c.error);
          }
          length := c.value;
        } else if EqIgnoreCase(TRANSFER_ENCODING, name) {
          teHeaders := teHeaders + 1;
          teValue := value;
        }
      }
      assert headers[..|headers|] == headers;
      return Ok((length, teHeaders, teValue));
    }
  }

  /** One of `es` denotes the number `n`, or none at all. */
  predicate Has(es: seq<Bytes>, n: Option<u64>) {
    exists i :: 0 <= i < |es| && ParseU64(es[i]) == n
  }

  /** Why content-length elements are refused, when `seen` came before them. */
  predicate LengthFault(e: HeaderError, seen: Option<u64>, es: seq<Bytes>) {
    match e
    case InvalidContentLength => Has(es, None)
    case ConflictingContentLength(m, n) => m != n && (seen == Some(m) || Has(es, Some(m))) && Has(es, Some(n))
    case _ => false
  }

  lemma HasMore(a: seq<Bytes>, b: seq<Bytes>, all: seq<Bytes>, n: Option<u64>)
    requires a + b <= all && (Has(a, n) || Has(b, n))
    ensures Has(all, n)
  {
    hide ParseU64;
    if Has(a, n) {
      var i :| 0 <= i < |a| && ParseU64(a[i]) == n;
      assert (a + b)[i] == a[i];
    } else {
      var i :| 0 <= i < |b| && ParseU64(b[i]) == n;
      assert (a + b)[|a| + i] == b[i];
    }
  }

  lemma LengthErrorStands(a: seq<Bytes>, b: seq<Bytes>, all: seq<Bytes>, seen: Option<u64>, e: HeaderError)
    requires a + b <= all
    requires (a == [] <==> seen.None?) && (seen.Some? ==> AllDenote(a, seen.value))
    requires LengthFault(e, seen, b)
    ensures LengthFault(e, None, all) && !LengthsAgree(all)
    ensures e.InvalidContentLength? || e.ConflictingContentLength?
  {
    hide ParseU64;
    match e {
      case InvalidContentLength =>
        HasMore(a, b, all, None);
      case ConflictingContentLength(m, n) =>
        assert seen == Some(m) ==> Has(a, Some(m)) by {
          if seen.Some? { assert ParseU64(a[0]) == seen; }
        }
        HasMore(a, b, all, Some(m));
        HasMore(a, b, all, Some(n));
      case _ =>
    }
  }

  lemma NothingNamed()
    ensures Named([], TRANSFER_ENCODING) == [] && LengthElements([]) == []
  {
  }

  lemma NamesDiffer(name: Bytes)
    ensures !(EqIgnoreCase(CONTENT_LENGTH, name) && EqIgnoreCase(TRANSFER_ENCODING, name))
  {
  }

  lemma ScanStep(seen: seq<Field>, f: Field)
    ensures LengthElements(seen + [f])
         == LengthElements(seen) + if EqIgnoreCase(CONTENT_LENGTH, f.name) then Elements(f.value) else []
    ensures Named(seen + [f], TRANSFER_ENCODING)
         == Named(seen, TRANSFER_ENCODING) + if EqIgnoreCase(TRANSFER_ENCODING, f.name) then [f.value] else []
  {
    hide EqIgnoreCase, Elements;
    var more := seen + [f];
    assert more[..|more| - 1] == seen;
    if EqIgnoreCase(CONTENT_LENGTH, f.name) {
      AllElementsSnoc(Named(seen, CONTENT_LENGTH), f.value);
    }
  }

  lemma AllElementsSnoc(vs: seq<Bytes>, v: Bytes)
    ensures AllElements(vs + [v]) == AllElements(vs) + Elements(v)
  {
    assert (vs + [v])[..|vs|] == vs;
  }

  /** What the first `i` fields list is still listed when the others are added. */
  lemma {:induction false} LaterElementsStay(fs: seq<Field>, i: nat)
    requires i <= |fs|
    ensures LengthElements(fs[..i]) <= LengthElements(fs)
    decreases |fs| - i
  {
    hide EqIgnoreCase, Elements;
    if i == |fs| {
      assert fs[..i] == fs;
    } else {
      var more := fs[..i + 1];
      assert more[..|more| - 1] == fs[..i];
      if EqIgnoreCase(CONTENT_LENGTH, fs[i].name) {
        AllElementsSnoc(Named(fs[..i], CONTENT_LENGTH), fs[i].value);
      }
      LaterElementsStay(fs, i + 1);
    }
  }

  /** The elements of one content-length value, each against the number seen before it. */
  method CheckLengths(value: Bytes, seen: Option<u64>) returns (r: Result<Option<u64>, HeaderError>)
    ensures r.Ok? ==> r.value.Some? && AllDenote(Elements(value), r.value.value) && (seen.Some? ==> r.value == seen)
    ensures r.Err? ==> LengthFault(r.error, seen, Elements(value))
  {
    hide ParseU64, Pieces, TrimOws;
    ElementsTrim(value);
    var pieces := Pieces(TrimOws(value));
    var length := seen;
    for j := 0 to |pieces|
      invariant j > 0 ==> length.Some?
      invariant length.Some? ==> AllDenote(Elements(value)[..j], length.value)
      invariant seen.Some? ==> length == seen
      invariant seen.None? && length.Some? ==> j > 0
    {
      var e := TrimOws(pieces[j]);
      assert e == Elements(value)[j];
      match ParseU64(e) {
        case None =>
          return Err(InvalidContentLength);
        case Some(n) =>
          if length.Some? && length.value != n {
            assert seen.None? ==> ParseU64(Elements(value)[0]) == length && Has(Elements(value), length);
            return Err(ConflictingContentLength(length.value, n));
          }
          length := Some(n);
      }
    }
    return Ok(length);
  }

  /** `ensure_sole_chunked_coding`. */
  method EnsureSoleChunkedCoding(value: Bytes) returns (r: Result<Unit, HeaderError>)
    ensures r.Ok? <==> SoleChunked(value)
    ensures r.Err? ==> r.error == UnsupportedTransferEncoding
  {
    hide Pieces, TrimOws, EqIgnoreCase;
    var pieces := Pieces(value);
    ghost var es := Elements(value);
    var count := 0;
    for j := 0 to |pieces|
      invariant count == |NonEmpty(es[..j])|
      invariant count > 0 ==> EqIgnoreCase(CHUNKED, NonEmpty(es[..j])[0])
    {
      var coding := TrimOws(pieces[j]);
      assert coding == es[j] && es[..j + 1][..j] == es[..j];
      if coding == [] {
        continue;
      }
      NonEmptyGrows(es, j + 1);
      if !EqIgnoreCase(CHUNKED, coding) {
        assert NonEmpty(es[..j + 1])[count] == coding;
        return Err(UnsupportedTransferEncoding);
      }
      count := count + 1;
    }
    assert es[..|es|] == es;
    return if count == 1 then Ok(Unit.Unit) else Err(UnsupportedTransferEncoding);
  }

  lemma {:induction false} NonEmptyGrows(es: seq<Bytes>, j: nat)
    requires j <= |es|
    ensures NonEmpty(es[..j]) <= NonEmpty(es)
    decreases |es| - j
  {
    if j < |es| {
      assert es[..j + 1][..j] == es[..j];
      NonEmptyGrows(es, j + 1);
    } else {
      assert es[..j] == es;
    }
  }
}
