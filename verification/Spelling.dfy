/** The constants and the byte classes, spelled out in characters, as the standards list them. */
module Spelling {
  import opened Bytes
  import opened ChunkLine
  import opened ChunkedCoding
  import opened ConnectionTokens
  import opened FieldSelect
  import opened Headers
  import opened Lists
  import opened RequestTarget
  import HeadWriter
  import ProxyRequest

  function Char(b: byte): char {
    b as int as char
  }

  predicate Spells(bs: Bytes, s: string) {
    |bs| == |s| && forall i | 0 <= i < |s| :: Char(bs[i]) == s[i]
  }

  predicate IsLetter(c: char) {
    'a' <= c <= 'z' || 'A' <= c <= 'Z'
  }

  predicate IsNumeral(c: char) {
    '0' <= c <= '9'
  }

  /** Section 5.6.2 of RFC 9110: `tchar`; section 5.5: `field-vchar`; section 5.6.3: `OWS`. */
  lemma HeaderBytes(b: byte)
    ensures IsTchar(b) <==> IsLetter(Char(b)) || IsNumeral(Char(b)) || Char(b) in "!#$%&'*+-.^_`|~"
    ensures IsFieldVchar(b) <==> '!' <= Char(b) <= '~' || 128 <= b
    ensures IsOws(b) <==> Char(b) in " \t"
  {
  }

  /** RFC 3986, sections 3.1 to 3.4: the bytes of a scheme, those that end an authority, and those that
      need no escape in a path or a query. */
  lemma TargetBytes(b: byte)
    ensures In(b, SchemeTail) <==> IsLetter(Char(b)) || IsNumeral(Char(b)) || Char(b) in "+-."
    ensures IsAlpha(b) <==> IsLetter(Char(b))
    ensures In(b, AuthorityByte) <==> Char(b) !in "/?#"
    ensures IsPathQueryChar(b) <==> IsLetter(Char(b)) || IsNumeral(Char(b)) || Char(b) in "-._~!$&'()*+,;=:@/?"
    ensures IsHexDigit(b) <==> IsNumeral(Char(b)) || 'a' <= Char(b) <= 'f' || 'A' <= Char(b) <= 'F'
  {
  }

  /** The digits, and what each of either case is worth. */
  lemma Numerals(d: nat)
    requires d < 16
    ensures Char(HexDigit(d)) == "0123456789abcdef"[d]
    ensures HexValue(HexDigit(d)) == d
    ensures forall b: byte :: Char(b) == "0123456789ABCDEF"[d] ==> HexValue(b) == d
    ensures d < 10 ==> Spells(Decimal(d), ["0123456789"[d]])
  {
  }

  /** Names match whatever their case, and not otherwise. */
  lemma Cases(x: byte, y: byte)
    ensures EqIgnoreCase([x], [y]) <==>
      x == y || (IsLetter(Char(x)) && IsLetter(Char(y)) && (x as int - y as int == 32 || y as int - x as int == 32))
  {
    assert [x][0] == x && [y][0] == y;
  }

  lemma MixedCase(name: Bytes)
    requires Spells(name, "Content-Length")
    ensures EqIgnoreCase(CONTENT_LENGTH, name)
  {
    assert forall i | 0 <= i < 14 :: Char(name[i]) == "Content-Length"[i];
  }

  lemma FramingNames()
    ensures Spells(CONTENT_LENGTH, "content-length")
    ensures Spells(TRANSFER_ENCODING, "transfer-encoding")
    ensures Spells(CHUNKED, "chunked")
    ensures |HeadWriter.FRAMING_HEADERS| == 2
    ensures Spells(HeadWriter.FRAMING_HEADERS[0], "content-length")
    ensures Spells(HeadWriter.FRAMING_HEADERS[1], "transfer-encoding")
  {
  }

  lemma WireConstants()
    ensures Spells(LAST_CHUNK_LINE, "0\r\n") && Spells(ABORT_MARK, "x") && Spells(CRLF, "\r\n")
    ensures Spells(HeadWriter.HTTP_1_1, "HTTP/1.1")
  {
  }

  lemma TargetNames()
    ensures Spells(HOST, "host") && Spells(SCHEME_END, "://") && Spells(OPTIONS, "OPTIONS")
    ensures Spells(ProxyRequest.CONNECT, "CONNECT") && Spells(ProxyRequest.TRACE, "TRACE")
  {
  }

  /** The three methods that are never forwarded. */
  lemma NeverForwarded(verb: Bytes)
    ensures ProxyRequest.IsForwarded(verb) <==>
      !Spells(verb, "CONNECT") && !Spells(verb, "TRACE") && !Spells(verb, "OPTIONS")
  {
    TargetNames();
    SpelledAlike(verb, ProxyRequest.CONNECT, "CONNECT");
    SpelledAlike(verb, ProxyRequest.TRACE, "TRACE");
    SpelledAlike(verb, OPTIONS, "OPTIONS");
  }

  lemma SpelledAlike(x: Bytes, y: Bytes, s: string)
    requires Spells(y, s)
    ensures Spells(x, s) <==> x == y
  {
    if Spells(x, s) {
      assert forall i | 0 <= i < |s| :: Char(x[i]) == Char(y[i]);
    }
  }

  lemma ConnectionNames()
    ensures Spells(CLOSE, "close") && Spells(KEEP_ALIVE, "keep-alive") && Spells(CONNECTION, "connection")
  {
  }

  lemma HopByHopConstants()
    ensures Spells(ProxyRequest.PROXY_AUTHENTICATE, "proxy-authenticate")
    ensures Spells(ProxyRequest.PROXY_AUTHORIZATION, "proxy-authorization")
    ensures Spells(ProxyRequest.TE, "te") && Spells(ProxyRequest.UPGRADE, "upgrade")
  {
  }

  /** The fields that are never forwarded, whatever the request says. */
  lemma HopByHopNames()
    ensures var names := ProxyRequest.HOP_BY_HOP;
      && |names| == 7
      && Spells(names[0], "connection") && Spells(names[1], "keep-alive")
      && Spells(names[2], "proxy-authenticate") && Spells(names[3], "proxy-authorization")
      && Spells(names[4], "te") && Spells(names[5], "transfer-encoding") && Spells(names[6], "upgrade")
  {
    hide Spells;
    ConnectionNames();
    FramingNames();
    HopByHopConstants();
  }
}
