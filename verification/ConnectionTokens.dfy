/** The options of the `Connection` field (section 7.6.1 of RFC 9110), and what they say about
    keeping the connection. */
module ConnectionTokens {
  import opened Bytes
  import opened Results
  import opened Lists
  import opened FieldSection
  import opened FieldSelect

  /** A whole iteration over one value: the options found, and the byte that ended it early. */
  datatype Tokens = Tokens(found: seq<Bytes>, illegal: Option<byte>)

  function Before(t: Bytes, more: Tokens): Tokens {
    Tokens([t] + more.found, more.illegal)
  }

  /** What a value's list elements mean: each non-empty one is an option, up to the first that is
      not a token. */
  function Meaning(es: seq<Bytes>): Tokens
    requires forall i | 0 <= i < |es| :: Trimmed(es[i])
  {
    if es == [] then Tokens([], None)
    else if es[0] == [] then Meaning(es[1..])
    else if AllIn(es[0], Token) then Before(es[0], Meaning(es[1..]))
    else Tokens([], Some(Illegal(es[0])))
  }

  /** All elements are legal when each is a token or empty; and then the options are those that are not
      empty, in order. */
  lemma {:induction false} LegalMeaning(es: seq<Bytes>)
    requires forall i | 0 <= i < |es| :: Trimmed(es[i])
    ensures Meaning(es).illegal.None? <==> forall i | 0 <= i < |es| :: AllIn(es[i], Token)
    ensures Meaning(es).illegal.None? ==> Meaning(es).found == NonEmpty(es)
  {
    hide Illegal, NonEmpty;
    if es == [] {
      NothingNonEmpty();
    } else {
      LegalMeaning(es[1..]);
      NonEmptyFirst(es[0], es[1..]);
      assert es == [es[0]] + es[1..];
      assert forall i | 1 <= i < |es| :: es[i] == es[1..][i - 1];
      assert forall i | 0 <= i < |es| - 1 :: es[1..][i] == es[i + 1];
    }
  }

  lemma NothingNonEmpty()
    ensures NonEmpty([]) == []
  {
  }

  /** The byte blamed for an element that is not a token: the first one that is neither part of its
      leading token nor of the whitespace after that. */
  function Illegal(e: Bytes): (b: byte)
    requires Trimmed(e) && !AllIn(e, Token)
  {
    var k := RunEnd(Token, e, 0);
    var j := RunEnd(Ows, e, k);
    assert j < |e|;
    e[j]
  }

  function SkipOws(v: Bytes): (w: Bytes)
    ensures |w| <= |v| && (w != [] ==> !IsOws(w[0]))
  {
    v[RunEnd(Ows, v, 0)..]
  }

  /** The iteration that polling `next` to the end makes of `v`. */
  function Iterate(v: Bytes): Tokens
    decreases |v|
  {
    if v == [] then Tokens([], None)
    else
      var k := RunEnd(Token, v, 0);
      var j := RunEnd(Ows, v, k);
      if j < |v| && v[j] != COMMA then Tokens([], Some(v[j]))
      else
        var rest := if j < |v| then SkipOws(v[j + 1..]) else [];
        if k == 0 then Iterate(rest) else Before(v[..k], Iterate(rest))
  }

  lemma IterateStep(v: Bytes)
    requires v != []
    ensures var k := RunEnd(Token, v, 0);
      var j := RunEnd(Ows, v, k);
      var rest := if j < |v| then SkipOws(v[j + 1..]) else [];
      Iterate(v) == if j < |v| && v[j] != COMMA then Tokens([], Some(v[j]))
                    else if k == 0 then Iterate(rest) else Before(v[..k], Iterate(rest))
  {
  }

  class TokenParser {
    var inner: Bytes

    constructor (value: Bytes)
      ensures inner == value
    {
      inner := value;
    }

    /** Splits the longest prefix of class `c` off what is left. */
    method TakeRun(c: ByteClass) returns (taken: Bytes)
      modifies this
      ensures taken == old(inner)[..RunEnd(c, old(inner), 0)]
      ensures inner == old(inner)[RunEnd(c, old(inner), 0)..]
    {
      var n := 0;
      while n < |inner| && In(inner[n], c)
        invariant n <= |inner| && RunEnd(c, inner, 0) == RunEnd(c, inner, n)
      {
        n := n + 1;
      }
      taken := inner[..n];
      inner := inner[n..];
    }

    /** The token run at the front, and, past the whitespace after it, the comma that ends it; or
        the byte found there instead. */
    method TakeElement() returns (tok: Bytes, illegal: Option<byte>)
      requires inner != []
      modifies this
      ensures var v := old(inner);
        var k := RunEnd(Token, v, 0);
        var j := RunEnd(Ows, v, k);
        && tok == v[..k]
        && illegal == (if j < |v| && v[j] != COMMA then Some(v[j]) else None)
        && (illegal.None? ==> inner == if j < |v| then SkipOws(v[j + 1..]) else [])
    {
      hide RunEnd, In, IsOws, IsTchar;
      ghost var v := inner;
      tok := TakeRun(Token);
      ghost var k := RunEnd(Token, v, 0);
      RunEndShift(Ows, v, k);
      ghost var j := RunEnd(Ows, v, k);
      assert v[k..][j - k..] == v[j..];
      var _ := TakeRun(Ows);
      assert inner == v[j..] && (j < |v| ==> inner[0] == v[j] && inner[1..] == v[j + 1..]);
      if inner != [] {
        if inner[0] != COMMA {
          return tok, Some(inner[0]);
        }
        inner := inner[1..];
      }
      var _ := TakeRun(Ows);
      return tok, None;
    }

    /** `next`. Fused: after an error there is nothing left to iterate. */
    method Next() returns (r: Option<Result<Bytes, byte>>)
      modifies this
      ensures match r
        case None => Iterate(old(inner)) == Tokens([], None) && inner == []
        case Some(Ok(t)) => Iterate(old(inner)) == Before(t, Iterate(inner)) && |inner| < |old(inner)|
        case Some(Err(b)) => Iterate(old(inner)) == Tokens([], Some(b)) && inner == [] && old(inner) != []
    {
      hide RunEnd, Iterate, SkipOws;
      while true
        invariant Iterate(inner) == Iterate(old(inner))
        invariant |inner| <= |old(inner)|
        decreases |inner|
      {
        if inner == [] {
          NothingToIterate();
          return None;
        }
        IterateStep(inner);
        var tok, illegal := TakeElement();
        if illegal.Some? {
          inner := [];
          return Some(Err(illegal.value));
        }
        if tok == [] {
          continue;
        }
        return Some(Ok(tok));
      }
    }
  }

  lemma NothingToIterate()
    ensures Iterate([]) == Tokens([], None)
  {
  }

  /** How the iterator sees the first element of `v`: a token run `v[..k]`, whitespace `v[k..j]`,
      and then the comma, the end, or a byte that does not belong. */
  lemma FirstElementSplits(v: Bytes, k: nat, j: nat, c: nat)
    requires v != [] && !IsOws(v[0])
    requires k == RunEnd(Token, v, 0) && j == RunEnd(Ows, v, k) && c == FirstComma(v)
    ensures j <= c && (j == c <==> j == |v| || v[j] == COMMA)
    ensures j == c ==> TrimOws(v[..c]) == v[..k]
    ensures j < c ==> var e := TrimOws(v[..c]); e != [] && !AllIn(e, Token) && Illegal(e) == v[j]
  {
    hide TrimOws;
    assert c < |v| ==> v[c] == COMMA && !In(COMMA, Token) && !In(COMMA, Ows);
    assert k <= c && j <= c;
    var piece := v[..c];
    if j == c {
      assert piece == [] + v[..k] + v[k..c];
      assert k > 0 ==> In(v[k - 1], Token) && In(v[0], Token);
      assert k == 0 ==> j == 0;
      TrimOwsCore([], v[..k], v[k..c]);
    } else {
      BadElement(piece, k, j);
    }
  }

  lemma BadElement(piece: Bytes, k: nat, j: nat)
    requires piece != [] && !IsOws(piece[0]) && k <= j < |piece|
    requires forall i | 0 <= i < k :: In(piece[i], Token)
    requires forall i | k <= i < j :: In(piece[i], Ows)
    requires !In(piece[j], Ows) && (k == j ==> !In(piece[j], Token))
    ensures var e := TrimOws(piece); e != [] && !AllIn(e, Token) && Illegal(e) == piece[j]
  {
    var end := RunStart(Ows, piece, |piece|);
    RunEndIs(Ows, piece, 0, 0);
    var e := TrimOws(piece);
    assert j < end;
    assert e == piece[..end];
    assert forall i | 0 <= i < |e| :: e[i] == piece[i];
    assert k < j ==> In(e[k], Ows) && !In(e[k], Token);
    assert !In(e[k], Token);
    RunEndIs(Token, e, 0, k);
    RunEndIs(Ows, e, k, j);
  }

  /** On a value without leading whitespace, iterating yields exactly the non-empty list elements,
      in order, and stops with one error at the first that is not a token. */
  lemma {:induction false} IterateMeaning(v: Bytes)
    requires v != [] ==> !IsOws(v[0])
    ensures Iterate(v) == Meaning(Elements(v))
    decreases |v|
  {
    hide RunEnd, Elements, TrimOws, FirstComma, Illegal, SkipOws, Iterate, Meaning;
    var c := FirstComma(v);
    FirstElement(v);
    if v == [] {
      EmptyElements();
      NothingToIterate();
    } else {
      IterateStep(v);
      var k := RunEnd(Token, v, 0);
      var j := RunEnd(Ows, v, k);
      FirstElementSplits(v, k, j, c);
      if j == c {
        var rest := if c < |v| then SkipOws(v[c + 1..]) else [];
        if c < |v| {
          ElementsSkip(v[c + 1..]);
        } else {
          EmptyElements();
        }
        IterateMeaning(rest);
        assert AllIn(v[..k], Token);
      }
      MeaningStep(TrimOws(v[..c]), if c < |v| then Elements(v[c + 1..]) else []);
    }
  }

  lemma MeaningStep(e: Bytes, more: seq<Bytes>)
    requires Trimmed(e) && forall i | 0 <= i < |more| :: Trimmed(more[i])
    ensures Meaning([e] + more) == if e == [] then Meaning(more)
      else if AllIn(e, Token) then Before(e, Meaning(more))
      else Tokens([], Some(Illegal(e)))
  {
    hide Illegal;
    assert ([e] + more)[1..] == more;
  }

  lemma EmptyElements()
    ensures Elements([]) == [[]] && Meaning([[]]) == Tokens([], None) && Meaning([]) == Tokens([], None)
  {
    FirstElement([]);
  }

  lemma ElementsSkip(w: Bytes)
    ensures Elements(SkipOws(w)) == Elements(w)
  {
    var i := RunEnd(Ows, w, 0);
    assert w == w[..i] + SkipOws(w) + [];
    ElementsPadded(w[..i], SkipOws(w), []);
  }

  /** The same options, and both or neither stopped by an illegal byte. */
  predicate Agree(t: Tokens, u: Tokens) {
    t.found == u.found && (t.illegal.Some? <==> u.illegal.Some?)
  }

  /** Leading whitespace in front of a first element that is a token. */
  predicate LateToken(v: Bytes) {
    v != [] && IsOws(v[0]) && Elements(v)[0] != [] && AllIn(Elements(v)[0], Token)
  }

  /** On any value whatever, iterating yields what the list means, except that whitespace in front
      of a first option makes the iterator refuse it. */
  lemma IterateMeaningExactly(v: Bytes)
    ensures Agree(Iterate(v), Meaning(Elements(v))) <==> !LateToken(v)
  {
    if v == [] || !IsOws(v[0]) {
      IterateMeaning(v);
    } else {
      LateStart(v);
    }
  }

  lemma LateStart(v: Bytes)
    requires v != [] && IsOws(v[0])
    ensures Agree(Iterate(v), Meaning(Elements(v))) <==> !LateToken(v)
  {
    hide Elements, TrimOws, RunEnd, Iterate, SkipOws;
    var w := SkipOws(v);
    ElementsSkip(v);
    IterateMeaning(w);
    FirstElement(w);
    LateStep(v);
    if w == [] {
      EmptyElements();
    } else if w[0] == COMMA {
      CommaFirst(w);
    } else {
      FirstNotEmpty(w);
    }
  }

  /** What the iterator makes of leading whitespace: it passes over it to a comma or to the end, and
      refuses anything else it finds there. */
  lemma LateStep(v: Bytes)
    requires v != [] && IsOws(v[0])
    ensures var w := SkipOws(v);
      Iterate(v) == if w == [] || w[0] == COMMA then Iterate(w) else Tokens([], Some(w[0]))
  {
    hide Iterate, RunEnd;
    var i, w := RunEnd(Ows, v, 0), SkipOws(v);
    RunEndIs(Token, v, 0, 0);
    IterateStep(v);
    if i == |v| {
      NothingToIterate();
    } else {
      assert w[0] == v[i] && w[1..] == v[i + 1..];
      if v[i] == COMMA {
        CommaStep(w);
      }
    }
  }

  lemma CommaStep(w: Bytes)
    requires w != [] && w[0] == COMMA
    ensures Iterate(w) == Iterate(SkipOws(w[1..]))
  {
    hide Iterate, SkipOws;
    RunEndIs(Token, w, 0, 0);
    RunEndIs(Ows, w, 0, 0);
    IterateStep(w);
  }

  lemma CommaFirst(w: Bytes)
    requires w != [] && w[0] == COMMA
    ensures FirstComma(w) == 0 && TrimOws(w[..0]) == []
  {
    RunEndIs(NotComma, w, 0, 0);
  }

  lemma FirstNotEmpty(w: Bytes)
    requires w != [] && !IsOws(w[0]) && w[0] != COMMA
    ensures TrimOws(w[..FirstComma(w)]) != []
  {
    var piece := w[..FirstComma(w)];
    assert piece[0] == w[0];
    RunEndIs(Ows, piece, 0, 0);
  }

  /** A value that is a space and then `close` is refused, where `close` alone is that option. The
      head parser trims values, so it takes a value put together some other way to get there. */
  lemma LateCloseIsRefused()
    ensures Iterate([SP] + CLOSE) == Tokens([], Some(CLOSE[0]))
    ensures Iterate(CLOSE) == Tokens([CLOSE], None)
  {
    var v := [SP] + CLOSE;
    RunEndIs(Token, v, 0, 0);
    RunEndIs(Ows, v, 0, 1);
    assert Iterate(v) == Tokens([], Some(v[1]));
    assert |CLOSE| == 5;
    RunEndIs(Token, CLOSE, 0, 5);
    RunEndIs(Ows, CLOSE, 5, 5);
    assert Iterate(CLOSE) == Before(CLOSE[..5], Iterate([]));
    assert CLOSE[..5] == CLOSE && [CLOSE] + [] == [CLOSE];
    assert Iterate([]) == Tokens([], None);
  }

  /** "close" */
  const CLOSE: Bytes := [99, 108, 111, 115, 101]

  /** "keep-alive" */
  const KEEP_ALIVE: Bytes := [107, 101, 101, 112, 45, 97, 108, 105, 118, 101]

  /** "connection" */
  const CONNECTION: Bytes := [99, 111, 110, 110, 101, 99, 116, 105, 111, 110]

  // ------------------------------------------------------------------ all the lines together

  /** The options of several lines in one sequence, up to the first illegal byte. */
  function Collected(vs: seq<Bytes>): Tokens {
    if vs == [] then Tokens([], None) else Join(Iterate(vs[0]), Collected(vs[1..]))
  }

  function Join(t: Tokens, u: Tokens): Tokens {
    if t.illegal.Some? then t else Tokens(t.found + u.found, u.illegal)
  }

  datatype HttpVersion = Http10 | Http11

  predicate Names(found: seq<Bytes>, option: Bytes) {
    exists i :: 0 <= i < |found| && EqIgnoreCase(found[i], option)
  }

  /** `close` settles it; otherwise HTTP/1.1 stays open and HTTP/1.0 must be asked to. */
  predicate Persistent(version: HttpVersion, found: seq<Bytes>) {
    !Names(found, CLOSE) && (version.Http10? ==> Names(found, KEEP_ALIVE))
  }

  /** The case of an option does not matter. */
  lemma NamesCaseless(found: seq<Bytes>, option: Bytes, other: Bytes)
    requires EqIgnoreCase(option, other)
    ensures Names(found, option) <==> Names(found, other)
  {
    if i :| 0 <= i < |found| && EqIgnoreCase(found[i], option) {
      assert EqIgnoreCase(found[i], other);
    }
    if i :| 0 <= i < |found| && EqIgnoreCase(found[i], other) {
      assert EqIgnoreCase(found[i], option);
    }
  }

  /** Without options, HTTP/1.1 stays open and HTTP/1.0 does not; `close` closes either, whatever else is
      said; and short of that, `keep-alive` keeps either. */
  lemma PersistenceRules(found: seq<Bytes>)
    ensures Names(found, CLOSE) ==> !Persistent(Http11, found) && !Persistent(Http10, found)
    ensures !Names(found, CLOSE) && Names(found, KEEP_ALIVE) ==> Persistent(Http11, found) && Persistent(Http10, found)
    ensures !Names(found, CLOSE) && !Names(found, KEEP_ALIVE) ==>
      Persistent(Http11, found) && !Persistent(Http10, found)
  {
    hide Names;
  }

  /** `connection_tokens`, collected: every option of every line, or the first illegal byte. */
  method GetConnectionTokens(headers: seq<Field>) returns (r: Result<seq<Bytes>, byte>)
    ensures var all := Collected(Named(headers, CONNECTION));
      r == if all.illegal.Some? then Err(all.illegal.value) else Ok(all.found)
  {
    hide Iterate, EqIgnoreCase, Named;
    var values := Named(headers, CONNECTION);
    var done: seq<Bytes> := [];
    for i := 0 to |values|
      invariant Collected(values) == Join(Tokens(done, None), Collected(values[i..]))
    {
      var parser := new TokenParser(values[i]);
      assert values[i..][0] == values[i] && values[i..][1..] == values[i + 1..];
      JoinMore(done, Iterate(values[i]), Collected(values[i + 1..]));
      while true
        invariant Collected(values) == Join(After(done, Iterate(parser.inner)), Collected(values[i + 1..]))
        decreases |parser.inner|
      {
        ghost var left := Iterate(parser.inner);
        var next := parser.Next();
        match next {
          case None =>
            assert After(done, left) == Tokens(done, None);
            break;
          case Some(Err(b)) =>
            return Err(b);
          case Some(Ok(token)) =>
            assert done + ([token] + Iterate(parser.inner).found) == done + [token] + Iterate(parser.inner).found;
            done := done + [token];
        }
      }
    }
    assert values[|values|..] == [] && done + [] == done;
    return Ok(done);
  }

  /** `connection_is_persistent`. */
  method ConnectionIsPersistent(headers: seq<Field>, version: HttpVersion) returns (r: Result<bool, byte>)
    ensures var all := Collected(Named(headers, CONNECTION));
      r == if all.illegal.Some? then Err(all.illegal.value) else Ok(Persistent(version, all.found))
  {
    hide EqIgnoreCase, Collected;
    var tokens := GetConnectionTokens(headers);
    if tokens.Err? {
      return Err(tokens.error);
    }
    var found := tokens.value;
    var close, keepAlive := false, false;
    for i := 0 to |found|
      invariant close == Names(found[..i], CLOSE)
      invariant close || keepAlive == Names(found[..i], KEEP_ALIVE)
    {
      NamesMore(found[..i], found[i]);
      assert found[..i + 1] == found[..i] + [found[i]];
      if EqIgnoreCase(found[i], CLOSE) {
        close := true;
      } else if EqIgnoreCase(found[i], KEEP_ALIVE) {
        keepAlive := true;
      }
    }
    assert found[..|found|] == found;
    return Ok(match version
      case Http11 => !close
      case Http10 => keepAlive && !close);
  }

  function After(done: seq<Bytes>, t: Tokens): Tokens {
    Tokens(done + t.found, t.illegal)
  }

  lemma JoinMore(done: seq<Bytes>, t: Tokens, u: Tokens)
    ensures After(done, Join(t, u)) == Join(After(done, t), u)
  {
    assert done + (t.found + u.found) == done + t.found + u.found;
  }

  lemma NamesMore(done: seq<Bytes>, token: Bytes)
    ensures forall o :: Names(done + [token], o) <==> Names(done, o) || EqIgnoreCase(token, o)
  {
    hide EqIgnoreCase;
    forall o
      ensures Names(done + [token], o) <==> Names(done, o) || EqIgnoreCase(token, o)
    {
      var more := done + [token];
      assert more[|done|] == token;
      if Names(done, o) {
        var i :| 0 <= i < |done| && EqIgnoreCase(done[i], o);
        assert more[i] == done[i];
      }
    }
  }

  /** The whole is legal when every line is, and holds the options of every line. */
  lemma {:induction false} CollectedHolds(vs: seq<Bytes>)
    ensures Collected(vs).illegal.None? <==> forall i | 0 <= i < |vs| :: Iterate(vs[i]).illegal.None?
    ensures Collected(vs).illegal.None? ==>
      forall t :: t in Collected(vs).found <==> exists i :: 0 <= i < |vs| && t in Iterate(vs[i]).found
  {
    hide Iterate;
    if vs != [] {
      var rest := vs[1..];
      CollectedHolds(rest);
      assert forall i | 0 <= i < |rest| :: rest[i] == vs[i + 1];
      assert forall i | 1 <= i < |vs| :: vs[i] == rest[i - 1];
    }
  }

  /** The order of the `Connection` lines never changes whether they are legal, nor what they say
      about the connection; only the set of their options does. */
  lemma PersistenceIgnoresOrder(vs: seq<Bytes>, ws: seq<Bytes>, version: HttpVersion)
    requires multiset(vs) == multiset(ws)
    ensures Collected(vs).illegal.None? <==> Collected(ws).illegal.None?
    ensures Collected(vs).illegal.None? ==>
      (Persistent(version, Collected(vs).found) <==> Persistent(version, Collected(ws).found))
  {
    hide Iterate, Collected, EqIgnoreCase;
    CollectedHolds(vs);
    CollectedHolds(ws);
    assert forall v :: v in vs <==> v in multiset(vs);
    assert forall v :: v in ws <==> v in multiset(ws);
    forall i | 0 <= i < |vs| ensures vs[i] in ws { assert vs[i] in multiset(vs); }
    forall i | 0 <= i < |ws| ensures ws[i] in vs { assert ws[i] in multiset(ws); }
    if Collected(vs).illegal.None? {
      SameOptions(Collected(vs).found, Collected(ws).found, version);
    }
  }

  lemma SameOptions(f: seq<Bytes>, g: seq<Bytes>, version: HttpVersion)
    requires forall t :: t in f <==> t in g
    ensures Persistent(version, f) <==> Persistent(version, g)
  {
    hide EqIgnoreCase;
    forall o
      ensures Names(f, o) <==> Names(g, o)
    {
      if Names(f, o) {
        var i :| 0 <= i < |f| && EqIgnoreCase(f[i], o);
        assert f[i] in g;
      }
      if Names(g, o) {
        var i :| 0 <= i < |g| && EqIgnoreCase(g[i], o);
        assert g[i] in f;
      }
    }
  }
}
