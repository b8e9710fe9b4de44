/** Request-target forms (section 3.2 of RFC 9112), and the rewriting of absolute-form. */
module RequestTarget {
  import opened Bytes
  import opened Results
  import opened FieldSection
  import opened FieldSelect

  const SLASH: byte := 47
  const QUESTION: byte := 63
  const HASH: byte := 35
  const AT: byte := 64
  const PERCENT: byte := 37
  const ASTERISK: byte := 42

  /** "://" */
  const SCHEME_END: Bytes := [58, 47, 47]

  /** "OPTIONS" */
  const OPTIONS: Bytes := [79, 80, 84, 73, 79, 78, 83]

  /** "host" */
  const HOST: Bytes := [104, 111, 115, 116]

  // ------------------------------------------------------------------ origin-form

  /** `pchar / "/" / "?"` of RFC 3986 section 3.3, less the percent-encoded triples. */
  predicate IsPathQueryChar(b: byte) {
    || IsAlpha(b) || IsDigit(b)
    || b == 33 || b == 36 || 38 <= b <= 47 || b == 58 || b == 59 || b == 61
    || b == 63 || b == 64 || b == 95 || b == 126
  }

  predicate StartsTriple(s: Bytes) {
    |s| >= 3 && s[0] == PERCENT && IsHexDigit(s[1]) && IsHexDigit(s[2])
  }

  /** A run of path and query characters and percent-encoded triples. */
  predicate IsPathQuery(s: Bytes) {
    || s == []
    || (IsPathQueryChar(s[0]) && IsPathQuery(s[1..]))
    || (StartsTriple(s) && IsPathQuery(s[3..]))
  }

  predicate IsOriginForm(path: Bytes) {
    path != [] && path[0] == SLASH && IsPathQuery(path[1..])
  }

  datatype OriginFormError =
    | EmptyPath
    | NotAbsolutePath
    | InvalidCharacter(offset: nat, got: byte)
    | InvalidPercentEncoding(offset: nat)

  /** Where and why `path` stops being origin-form. */
  predicate Offends(e: OriginFormError, path: Bytes) {
    match e
    case EmptyPath => path == []
    case NotAbsolutePath => path != [] && path[0] != SLASH
    case InvalidCharacter(i, b) =>
      && 1 <= i < |path| && path[0] == SLASH && IsPathQuery(path[1..i])
      && path[i] == b && !IsPathQueryChar(b) && b != PERCENT
    case InvalidPercentEncoding(i) =>
      && 1 <= i < |path| && path[0] == SLASH && IsPathQuery(path[1..i])
      && path[i] == PERCENT && !StartsTriple(path[i..])
  }

  lemma {:induction false} PathQueryConcat(s: Bytes, t: Bytes)
    requires IsPathQuery(s)
    ensures IsPathQuery(s + t) <==> IsPathQuery(t)
  {
    if s == [] {
      assert s + t == t;
    } else if IsPathQueryChar(s[0]) {
      assert (s + t)[1..] == s[1..] + t;
      PathQueryConcat(s[1..], t);
    } else {
      assert (s + t)[3..] == s[3..] + t;
      PathQueryConcat(s[3..], t);
    }
  }

  /** The byte at `i` is a path or query character, or a percent sign with two hexadecimal digits behind
      it. */
  predicate IsLegalAt(path: Bytes, i: nat)
    requires i < |path|
  {
    if path[i] == PERCENT then i + 2 < |path| && IsHexDigit(path[i + 1]) && IsHexDigit(path[i + 2])
    else IsPathQueryChar(path[i])
  }

  predicate AllLegal(path: Bytes, from: nat) {
    forall i: nat | from <= i < |path| :: IsLegalAt(path, i)
  }

  lemma LegalShift(s: Bytes, n: nat)
    requires n <= |s|
    ensures AllLegal(s[n..], 0) <==> AllLegal(s, n)
  {
    forall i: nat | i < |s| - n
      ensures IsLegalAt(s[n..], i) <==> IsLegalAt(s, i + n)
    {
    }
    if AllLegal(s[n..], 0) {
      forall i: nat | n <= i < |s|
        ensures IsLegalAt(s, i)
      {
        assert IsLegalAt(s[n..], i - n);
      }
    }
  }

  lemma {:induction false} PathQueryMeans(s: Bytes)
    ensures IsPathQuery(s) <==> AllLegal(s, 0)
  {
    if s != [] {
      var n := if s[0] == PERCENT && |s| >= 3 then 3 else 1;
      PathQueryMeans(s[n..]);
      LegalShift(s, n);
      assert AllLegal(s, 0) ==> IsLegalAt(s, 0);
      FirstLegal(s, n);
    }
  }

  lemma FirstLegal(s: Bytes, n: nat)
    requires s != [] && n == if s[0] == PERCENT && |s| >= 3 then 3 else 1
    ensures AllLegal(s, 0) <==> IsLegalAt(s, 0) && AllLegal(s, n)
  {
    if n == 3 && IsLegalAt(s, 0) {
      assert IsLegalAt(s, 1) && IsLegalAt(s, 2);
    }
  }

  /** Origin-form, byte by byte. */
  lemma OriginFormMeans(path: Bytes)
    ensures IsOriginForm(path) <==> path != [] && path[0] == SLASH && AllLegal(path, 1)
  {
    hide IsPathQuery, IsLegalAt;
    if path != [] {
      PathQueryMeans(path[1..]);
      LegalShift(path, 1);
    }
  }

  /** `validate_origin_form`. */
  method ValidateOriginForm(path: Bytes) returns (r: Result<Unit, OriginFormError>)
    ensures r.Ok? <==> IsOriginForm(path)
    ensures r.Err? ==> Offends(r.error, path)
  {
    if path == [] {
      return Err(EmptyPath);
    }
    if path[0] != SLASH {
      return Err(NotAbsolutePath);
    }
    var i := 1;
    while i < |path|
      invariant 1 <= i <= |path| && IsPathQuery(path[1..i])
    {
      hide IsPathQuery;
      var b := path[i];
      Continues(path, i, |path|);
      OneUnit(path[i..]);
      assert path[1..|path|] == path[1..] && path[i..|path|] == path[i..];
      if IsPathQueryChar(b) {
        OneUnit(path[i..i + 1]);
        Continues(path, i, i + 1);
        i := i + 1;
      } else if b == PERCENT {
        if i + 2 < |path| && IsHexDigit(path[i + 1]) && IsHexDigit(path[i + 2]) {
          OneUnit(path[i..i + 3]);
          Continues(path, i, i + 3);
          i := i + 3;
        } else {
          return Err(InvalidPercentEncoding(i));
        }
      } else {
        return Err(InvalidCharacter(i, b));
      }
    }
    assert path[1..|path|] == path[1..];
    return Ok(Unit.Unit);
  }

  /** Whether `path` is well-formed up to `j` depends on what follows its well-formed part. */
  lemma Continues(path: Bytes, i: nat, j: nat)
    requires 1 <= i <= j <= |path| && IsPathQuery(path[1..i])
    ensures IsPathQuery(path[1..j]) <==> IsPathQuery(path[i..j])
  {
    assert path[1..j] == path[1..i] + path[i..j];
    PathQueryConcat(path[1..i], path[i..j]);
  }

  lemma OneUnit(s: Bytes)
    requires s != []
    ensures |s| == 1 && IsPathQueryChar(s[0]) ==> IsPathQuery(s)
    ensures |s| == 3 && StartsTriple(s) ==> IsPathQuery(s)
    ensures !IsPathQueryChar(s[0]) && !StartsTriple(s) ==> !IsPathQuery(s)
  {
    if |s| == 1 { assert s[1..] == []; }
    if |s| == 3 { assert s[3..] == []; }
  }

  // ------------------------------------------------------------------ classification

  datatype Form =
    | Origin
    | Asterisk
    | Absolute(authority: Bytes, pathAndQuery: Bytes)
    | MaybeAuthority
    | Empty
    | Malformed

  function Classify(target: Bytes): Form {
    if target == [ASTERISK] then Asterisk
    else if target == [] then Empty
    else if target[0] == SLASH then Origin
    else if IsAlpha(target[0]) then ParseAbsoluteForm(target)
    else Malformed
  }

  /** The origin-form path of a target whose path and query are `pq`: an empty path becomes `/`. */
  function OriginPath(pq: Bytes): Bytes {
    if pq == [] then [SLASH]
    else if pq[0] == QUESTION then [SLASH] + pq
    else pq
  }

  function ParseAbsoluteForm(target: Bytes): Form {
    if target == [] then Empty
    else if !IsAlpha(target[0]) then Malformed
    else
      var schemeEnd := RunEnd(SchemeTail, target, 0);
      if |target| < schemeEnd + 3 || target[schemeEnd..schemeEnd + 3] != SCHEME_END then MaybeAuthority
      else ParseHierarchy(target[schemeEnd + 3..])
  }

  /** What comes after `scheme "://"`. */
  function ParseHierarchy(after: Bytes): Form {
    var authorityEnd := RunEnd(AuthorityByte, after, 0);
    var authority := after[..authorityEnd];
    if authority == [] || AT in authority then Malformed
    else
      var pathQuery := after[authorityEnd..];
      Absolute(authority, OriginPath(pathQuery[..RunEnd(NotFragment, pathQuery, 0)]))
  }

  predicate IsScheme(scheme: Bytes) {
    scheme != [] && IsAlpha(scheme[0]) && AllIn(scheme, SchemeTail)
  }

  /** The parts after the scheme: an authority without user information, a path and query that may
      be empty, and a fragment that may be absent. */
  predicate IsHierarchy(authority: Bytes, pq: Bytes, fragment: Bytes) {
    && authority != [] && AllIn(authority, AuthorityByte) && AT !in authority
    && (pq != [] ==> pq[0] == SLASH || pq[0] == QUESTION) && AllIn(pq, NotFragment)
    && (fragment != [] ==> fragment[0] == HASH)
  }

  /** Every target put together from the parts of an absolute-form is recognized as one, and taken
      apart where it was put together. */
  lemma AbsoluteRecognized(scheme: Bytes, authority: Bytes, pq: Bytes, fragment: Bytes)
    requires IsScheme(scheme) && IsHierarchy(authority, pq, fragment)
    ensures Classify(scheme + SCHEME_END + (authority + pq + fragment)) == Absolute(authority, OriginPath(pq))
  {
    hide ParseHierarchy, OriginPath, IsHierarchy, RunEnd;
    var after := authority + pq + fragment;
    var target := scheme + SCHEME_END + after;
    assert target[0] == scheme[0] && target[|scheme|] == SCHEME_END[0];
    assert target[0..|scheme|] == scheme;
    RunEndSlice(SchemeTail, target, 0, |scheme|);
    assert target[|scheme|..|scheme| + 3] == SCHEME_END && target[|scheme| + 3..] == after;
    HierarchyRecognized(authority, pq, fragment);
  }

  lemma HierarchyRecognized(authority: Bytes, pq: Bytes, fragment: Bytes)
    requires IsHierarchy(authority, pq, fragment)
    ensures ParseHierarchy(authority + pq + fragment) == Absolute(authority, OriginPath(pq))
  {
    hide OriginPath, RunEnd;
    var after, pathQuery := authority + pq + fragment, pq + fragment;
    assert after == authority + pathQuery && after[0..|authority|] == authority;
    assert pathQuery != [] ==> !In(pathQuery[0], AuthorityByte) && after[|authority|] == pathQuery[0];
    RunEndSlice(AuthorityByte, after, 0, |authority|);
    assert after[..|authority|] == authority && after[|authority|..] == pathQuery;
    assert pathQuery[0..|pq|] == pq && pathQuery[..|pq|] == pq;
    RunEndSlice(NotFragment, pathQuery, 0, |pq|);
  }

  /** And nothing else is: what is recognized has such parts. */
  lemma AbsoluteHasParts(target: Bytes)
    returns (scheme: Bytes, authority: Bytes, pq: Bytes, fragment: Bytes)
    requires Classify(target).Absolute?
    ensures IsScheme(scheme) && IsHierarchy(authority, pq, fragment)
    ensures target == scheme + SCHEME_END + (authority + pq + fragment)
  {
    hide ParseHierarchy, IsHierarchy;
    var schemeEnd := RunEnd(SchemeTail, target, 0);
    scheme := target[..schemeEnd];
    var after := target[schemeEnd + 3..];
    assert target == scheme + SCHEME_END + after;
    authority, pq, fragment := HierarchyHasParts(after);
  }

  lemma HierarchyHasParts(after: Bytes) returns (authority: Bytes, pq: Bytes, fragment: Bytes)
    requires ParseHierarchy(after).Absolute?
    ensures IsHierarchy(authority, pq, fragment)
    ensures after == authority + pq + fragment
  {
    hide OriginPath, RunEnd;
    var authorityEnd := RunEnd(AuthorityByte, after, 0);
    authority := after[..authorityEnd];
    var pathQuery := after[authorityEnd..];
    var pathEnd := RunEnd(NotFragment, pathQuery, 0);
    pq, fragment := pathQuery[..pathEnd], pathQuery[pathEnd..];
    assert pathQuery != [] ==> pathQuery[0] == after[authorityEnd];
    assert after == authority + pathQuery && pathQuery == pq + fragment;
    assert authority + pq + fragment == authority + (pq + fragment);
  }

  // ------------------------------------------------------------------ normalization

  datatype TargetError = MalformedRequestTarget | AsteriskFormNotAllowed | AuthorityFormNotAllowed

  /** The path and fields a request is forwarded with, or why it is not. */
  function Normal(verb: Bytes, path: Bytes, headers: seq<Field>): Result<(Bytes, seq<Field>), TargetError> {
    match Classify(path)
    case Origin => Ok((path, headers))
    case Asterisk => if verb == OPTIONS then Ok((path, headers)) else Err(AsteriskFormNotAllowed)
    case Absolute(authority, pq) =>
      if IsOriginForm(pq) then Ok((pq, Without(headers, [HOST]) + [Field(HOST, authority)]))
      else Err(MalformedRequestTarget)
    case MaybeAuthority => Err(AuthorityFormNotAllowed)
    case Empty => Err(MalformedRequestTarget)
    case Malformed => Err(MalformedRequestTarget)
  }

  class Request {
    var verb: Bytes
    var path: Bytes
    var headers: seq<Field>

    constructor (verb: Bytes, path: Bytes, headers: seq<Field>)
      ensures this.verb == verb && this.path == path && this.headers == headers
    {
      this.verb, this.path, this.headers := verb, path, headers;
    }

    method SetOriginFormPath(newPath: Bytes) returns (r: Result<Unit, OriginFormError>)
      modifies this`path
      ensures r.Ok? <==> IsOriginForm(newPath)
      ensures path == if r.Ok? then newPath else old(path)
    {
      r := ValidateOriginForm(newPath);
      if r.Ok? {
        path := newPath;
      }
    }

    /** `normalize`: whatever fails, fails before anything is changed. */
    method Normalize() returns (r: Result<Unit, TargetError>)
      modifies this
      ensures verb == old(verb)
      ensures match Normal(verb, old(path), old(headers))
        case Ok((newPath, newHeaders)) => r.Ok? && path == newPath && headers == newHeaders
        case Err(e) => r == Err(e) && path == old(path) && headers == old(headers)
    {
      hide ParseAbsoluteForm, IsPathQuery;
      match Classify(path) {
        case Origin =>
          return Ok(Unit.Unit);
        case Asterisk =>
          return if verb == OPTIONS then Ok(Unit.Unit) else Err(AsteriskFormNotAllowed);
        case Absolute(authority, pathAndQuery) =>
          var outcome := SetOriginFormPath(pathAndQuery);
          if outcome.Err? {
            return Err(MalformedRequestTarget);
          }
          var kept := Retain(headers, [HOST]);
          headers := kept + [Field(HOST, authority)];
          return Ok(Unit.Unit);
        case MaybeAuthority =>
          return Err(AuthorityFormNotAllowed);
        case Empty =>
          return Err(MalformedRequestTarget);
        case Malformed =>
          return Err(MalformedRequestTarget);
      }
    }
  }

  // ------------------------------------------------------------------ what normalizing comes to

  /** The fields of a rewritten request: exactly one Host, the authority, and every other field as it
      was. */
  lemma RewrittenFields(fs: seq<Field>, authority: Bytes)
    ensures var out := Without(fs, [HOST]) + [Field(HOST, authority)];
      && Named(out, HOST) == [authority]
      && forall name :: !EqIgnoreCase(name, HOST) ==> Named(out, name) == Named(fs, name)
  {
    hide EqIgnoreCase, Listed, Named;
    var added := [Field(HOST, authority)];
    SameName(HOST);
    OnlyHostListed(HOST);
    NamedWithout(fs, [HOST], HOST);
    NamedConcat(Without(fs, [HOST]), added, HOST);
    OneNamed(added[0], HOST);
    forall name | !EqIgnoreCase(name, HOST)
      ensures Named(Without(fs, [HOST]) + added, name) == Named(fs, name)
    {
      OnlyHostListed(name);
      NamedWithout(fs, [HOST], name);
      NamedConcat(Without(fs, [HOST]), added, name);
      OneNamed(added[0], name);
    }
  }

  lemma OnlyHostListed(name: Bytes)
    ensures Listed(name, [HOST]) <==> EqIgnoreCase(name, HOST)
  {
    assert EqIgnoreCase(name, HOST) <==> EqIgnoreCase(HOST, name);
    assert [HOST][0] == HOST;
  }

  lemma SameName(name: Bytes)
    ensures EqIgnoreCase(name, name)
  {
  }

  /** Normalizing an absolute-form request, from its parts: an origin-form path, with `/` for an
      empty one, without the fragment; and the authority for its only Host. */
  lemma AbsoluteNormal(verb: Bytes, scheme: Bytes, authority: Bytes, pq: Bytes, fragment: Bytes, fs: seq<Field>)
    requires IsScheme(scheme) && IsHierarchy(authority, pq, fragment)
    ensures Normal(verb, scheme + SCHEME_END + (authority + pq + fragment), fs)
         == if IsOriginForm(OriginPath(pq)) then Ok((OriginPath(pq), Without(fs, [HOST]) + [Field(HOST, authority)]))
            else Err(MalformedRequestTarget)
  {
    hide Classify, OriginPath, IsOriginForm;
    AbsoluteRecognized(scheme, authority, pq, fragment);
  }

  /** The path of a rewritten request is the target's own, down to the fragment, when it has one. */
  lemma PathKept(verb: Bytes, scheme: Bytes, authority: Bytes, pq: Bytes, fragment: Bytes, fs: seq<Field>)
    requires IsScheme(scheme) && IsHierarchy(authority, pq, fragment)
    requires pq != [] && pq[0] == SLASH && IsOriginForm(pq)
    ensures var r := Normal(verb, scheme + SCHEME_END + (authority + pq + fragment), fs);
      r.Ok? && r.value.0 == pq && Named(r.value.1, HOST) == [authority]
  {
    hide Classify, IsOriginForm, Named, Without;
    AbsoluteRecognized(scheme, authority, pq, fragment);
    RewrittenFields(fs, authority);
  }

  /** When it has none, the query alone, or nothing, is behind a slash. */
  lemma PathSupplied(verb: Bytes, scheme: Bytes, authority: Bytes, pq: Bytes, fragment: Bytes, fs: seq<Field>)
    requires IsScheme(scheme) && IsHierarchy(authority, pq, fragment)
    requires (pq == [] || pq[0] == QUESTION) && IsOriginForm([SLASH] + pq)
    ensures var r := Normal(verb, scheme + SCHEME_END + (authority + pq + fragment), fs);
      r.Ok? && r.value.0 == [SLASH] + pq && Named(r.value.1, HOST) == [authority]
  {
    hide Classify, IsOriginForm, Named, Without;
    assert [SLASH] + [] == [SLASH];
    AbsoluteRecognized(scheme, authority, pq, fragment);
    RewrittenFields(fs, authority);
  }

  /** A path goes through as it is; an asterisk does for OPTIONS alone; and a name without a scheme
      separator behind it, with or without a port, is taken for a CONNECT target and refused. */
  lemma OtherForms(verb: Bytes, rest: Bytes, name: Bytes, port: Bytes, fs: seq<Field>)
    requires IsScheme(name) && AllIn(port, Digit)
    ensures Normal(verb, [SLASH] + rest, fs) == Ok(([SLASH] + rest, fs))
    ensures Normal(verb, [ASTERISK], fs)
         == if verb == OPTIONS then Ok(([ASTERISK], fs)) else Err(AsteriskFormNotAllowed)
    ensures Normal(verb, [], fs) == Err(MalformedRequestTarget)
    ensures Normal(verb, name, fs) == Err(AuthorityFormNotAllowed)
    ensures Normal(verb, name + [COLON] + port, fs) == Err(AuthorityFormNotAllowed)
  {
    hide ParseHierarchy, IsOriginForm;
    assert ([SLASH] + rest)[0] == SLASH;
    RunEndIs(SchemeTail, name, 0, |name|);
    var target := name + [COLON] + port;
    assert target[|name|] == COLON && target[0] == name[0];
    RunEndIs(SchemeTail, target, 0, |name|);
    if |port| >= 2 {
      assert target[|name|..|name| + 3][1] == target[|name| + 1] == port[0] && In(port[0], Digit);
      assert SCHEME_END[1] == SLASH != port[0];
    }
  }

  /** Normalizing a normalized request changes nothing. */
  lemma NormalIdempotent(verb: Bytes, path: Bytes, fs: seq<Field>)
    requires Normal(verb, path, fs).Ok?
    ensures var (path', fs') := Normal(verb, path, fs).value; Normal(verb, path', fs') == Ok((path', fs'))
  {
    hide ParseAbsoluteForm, IsPathQuery;
  }
}
