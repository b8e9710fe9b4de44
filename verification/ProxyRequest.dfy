/** Which requests the proxy takes on, and what it makes of their target and fields before it forwards
    them. */
module ProxyRequest {
  import opened Bytes
  import opened Results
  import opened FieldSection
  import opened FieldSelect
  import opened ConnectionTokens
  import opened RequestTarget
  import H = Headers

  /** "proxy-authenticate" */
  const PROXY_AUTHENTICATE: Bytes :=
    [112, 114, 111, 120, 121, 45, 97, 117, 116, 104, 101, 110, 116, 105, 99, 97, 116, 101]

  /** "proxy-authorization" */
  const PROXY_AUTHORIZATION: Bytes :=
    [112, 114, 111, 120, 121, 45, 97, 117, 116, 104, 111, 114, 105, 122, 97, 116, 105, 111, 110]

  /** "te" */
  const TE: Bytes := [116, 101]

  /** "upgrade" */
  const UPGRADE: Bytes := [117, 112, 103, 114, 97, 100, 101]

  /** "CONNECT" */
  const CONNECT: Bytes := [67, 79, 78, 78, 69, 67, 84]

  /** "TRACE" */
  const TRACE: Bytes := [84, 82, 65, 67, 69]

  /** "GET" */
  const GET: Bytes := [71, 69, 84]

  /** The fields that always belong to one connection only. */
  const HOP_BY_HOP: seq<Bytes> :=
    [CONNECTION, KEEP_ALIVE, PROXY_AUTHENTICATE, PROXY_AUTHORIZATION, TE, H.TRANSFER_ENCODING, UPGRADE]

  datatype RequestError =
    | IllegalConnectionOption(got: byte)
    | ConnectNotSupported
    | TraceNotSupported
    | OptionsNotSupported
    | MultipleHosts
    | MissingHost
    | BadTarget(target: TargetError)

  /** The connection options a request names. */
  function Options(headers: seq<Field>): Tokens {
    Collected(Named(headers, CONNECTION))
  }

  /** A method the proxy forwards. */
  predicate IsForwarded(verb: Bytes) {
    verb != CONNECT && verb != TRACE && verb != OPTIONS
  }

  /** One Host at most, and one at least when the version demands it. */
  predicate HostsInOrder(headers: seq<Field>, version: HttpVersion) {
    |Named(headers, HOST)| <= 1 && (version.Http11? ==> |Named(headers, HOST)| == 1)
  }

  /** The request is taken on. */
  predicate Accepted(verb: Bytes, path: Bytes, headers: seq<Field>, version: HttpVersion) {
    && Options(headers).illegal.None?
    && IsForwarded(verb) && HostsInOrder(headers, version)
    && Normal(verb, path, headers).Ok?
  }

  /** The path and the fields an accepted request is forwarded with. */
  function Forwarded(verb: Bytes, path: Bytes, headers: seq<Field>): (Bytes, seq<Field>)
    requires Normal(verb, path, headers).Ok?
  {
    var (newPath, newHeaders) := Normal(verb, path, headers).value;
    (newPath, Without(newHeaders, HOP_BY_HOP + Options(headers).found))
  }

  /** `from_request`: whatever is refused is left as it was received. */
  method FromRequest(request: Request, version: HttpVersion) returns (r: Result<Unit, RequestError>)
    modifies request
    ensures request.verb == old(request.verb)
    ensures r.Ok? <==> old(Accepted(request.verb, request.path, request.headers, version))
    ensures r.Ok? ==>
      (request.path, request.headers) == old(Forwarded(request.verb, request.path, request.headers))
    ensures r.Err? ==> request.path == old(request.path) && request.headers == old(request.headers)
    ensures r.Err? ==> var headers := old(request.headers);
      match r.error
      case IllegalConnectionOption(b) => Options(headers).illegal == Some(b)
      case ConnectNotSupported => request.verb == CONNECT
      case TraceNotSupported => request.verb == TRACE
      case OptionsNotSupported => request.verb == OPTIONS
      case MultipleHosts => |Named(headers, HOST)| > 1
      case MissingHost => version.Http11? && Named(headers, HOST) == []
      case BadTarget(e) => Normal(request.verb, request.path, headers) == Err(e)
  {
    hide Collected, Named, Normal, Listed;
    var tokens := GetConnectionTokens(request.headers);
    if tokens.Err? {
      return Err(IllegalConnectionOption(tokens.error));
    }
    if request.verb == CONNECT {
      return Err(ConnectNotSupported);
    } else if request.verb == TRACE {
      return Err(TraceNotSupported);
    } else if request.verb == OPTIONS {
      return Err(OptionsNotSupported);
    }
    var hosts := |Named(request.headers, HOST)|;
    if hosts > 1 {
      return Err(MultipleHosts);
    } else if version.Http11? && hosts == 0 {
      return Err(MissingHost);
    }
    var normalized := request.Normalize();
    if normalized.Err? {
      return Err(BadTarget(normalized.error));
    }
    request.headers := Retain(request.headers, HOP_BY_HOP + tokens.value);
    return Ok(Unit.Unit);
  }

  /** Every request that is forwarded has an absolute path for its target: asterisk-form does not
      get past the method check, and absolute-form has been rewritten. */
  lemma ForwardedPath(verb: Bytes, path: Bytes, headers: seq<Field>, version: HttpVersion)
    requires Accepted(verb, path, headers, version)
    ensures var (path', _) := Forwarded(verb, path, headers);
      path' != [] && path'[0] == SLASH && (path' == path || IsOriginForm(path'))
  {
    hide RunEnd, OriginPath, IsPathQuery, Options, Named;
  }

  /** Nothing that belongs to the connection is forwarded, whether it always does or the request said
      so; and every other field is, except that Host follows an absolute-form target. */
  lemma ForwardedFields(verb: Bytes, path: Bytes, headers: seq<Field>, version: HttpVersion, name: Bytes)
    requires Accepted(verb, path, headers, version)
    ensures var (_, out) := Forwarded(verb, path, headers);
      Named(out, name) ==
        if Listed(name, HOP_BY_HOP) || Listed(name, Options(headers).found) then []
        else if EqIgnoreCase(name, HOST) && Classify(path).Absolute? then [Classify(path).authority]
        else Named(headers, name)
  {
    hide Named, Classify, Listed, EqIgnoreCase, IsOriginForm, Collected;
    var (_, normal) := Normal(verb, path, headers).value;
    var options := Options(headers).found;
    NamedWithout(normal, HOP_BY_HOP + options, name);
    ListedEither(name, HOP_BY_HOP, options);
    if Classify(path).Absolute? {
      RewrittenFields(headers, Classify(path).authority);
      if EqIgnoreCase(name, HOST) {
        SameNameNamed(name, HOST, normal);
      }
    }
  }

  lemma {:induction false} SameNameNamed(name: Bytes, other: Bytes, fs: seq<Field>)
    requires EqIgnoreCase(name, other)
    ensures Named(fs, name) == Named(fs, other)
  {
    if fs != [] {
      SameNameNamed(name, other, fs[..|fs| - 1]);
      var last := fs[|fs| - 1].name;
      assert EqIgnoreCase(name, last) <==> EqIgnoreCase(other, last);
    }
  }

  /** A request with an illegal connection option on any line, with two Hosts, or, if it is HTTP/1.1, with
      none, is never forwarded. */
  lemma Refused(verb: Bytes, path: Bytes, headers: seq<Field>, version: HttpVersion)
    ensures (exists i :: 0 <= i < |Named(headers, CONNECTION)| && Iterate(Named(headers, CONNECTION)[i]).illegal.Some?)
      ==> !Accepted(verb, path, headers, version)
    ensures |Named(headers, HOST)| > 1 ==> !Accepted(verb, path, headers, version)
    ensures version.Http11? && Named(headers, HOST) == [] ==> !Accepted(verb, path, headers, version)
  {
    hide Named, Normal, Collected, Iterate;
    CollectedHolds(Named(headers, CONNECTION));
  }

  /** Any other with an absolute path is, when its method is not one of the three. */
  lemma PlainRequestForwarded(verb: Bytes, path: Bytes, headers: seq<Field>, version: HttpVersion)
    requires path != [] && path[0] == SLASH && IsForwarded(verb)
    requires forall i | 0 <= i < |Named(headers, CONNECTION)| :: Iterate(Named(headers, CONNECTION)[i]).illegal.None?
    requires |Named(headers, HOST)| == 1 || (version.Http10? && Named(headers, HOST) == [])
    ensures Accepted(verb, path, headers, version)
    ensures Forwarded(verb, path, headers).0 == path
    ensures IsSubsequence(Forwarded(verb, path, headers).1, headers)
  {
    hide Named, Collected, Iterate, ParseAbsoluteForm, Listed;
    CollectedHolds(Named(headers, CONNECTION));
    WithoutInOrder(headers, HOP_BY_HOP + Options(headers).found);
  }

  /** No request is forwarded with two Hosts. */
  lemma OneHostAtMost(verb: Bytes, path: Bytes, headers: seq<Field>, version: HttpVersion)
    requires Accepted(verb, path, headers, version)
    ensures |Named(Forwarded(verb, path, headers).1, HOST)| <= 1
  {
    hide Named, Classify, Normal, Forwarded, Listed, Options;
    ForwardedFields(verb, path, headers, version, HOST);
  }

  /** An accepted HTTP/1.1 request goes out with exactly one Host, unless its own connection options
      name Host. */
  lemma ForwardedHost(verb: Bytes, path: Bytes, headers: seq<Field>)
    requires Accepted(verb, path, headers, Http11)
    ensures var (_, out) := Forwarded(verb, path, headers);
      |Named(out, HOST)| == 1 <==> !Listed(HOST, Options(headers).found)
  {
    hide Named, Classify, Normal, Forwarded, Listed, Options;
    ForwardedFields(verb, path, headers, Http11, HOST);
    HostIsEndToEnd();
  }

  lemma HostIsEndToEnd()
    ensures !Listed(HOST, HOP_BY_HOP)
  {
    assert |HOST| == 4 && forall i | 0 <= i < |HOP_BY_HOP| :: |HOP_BY_HOP[i]| != 4;
  }

  /** A request that does name it, and so loses its Host. */
  lemma HostNamedAsOption(path: Bytes)
    requires path != [] && path[0] == SLASH
    ensures var headers := [Field(HOST, [65]), Field(CONNECTION, HOST)];
      Accepted(GET, path, headers, Http11) && Forwarded(GET, path, headers) == (path, [])
  {
    hide Named, Without, EqIgnoreCase, Listed, Collected;
    var first, second := Field(HOST, [65]), Field(CONNECTION, HOST);
    assert [first, second] == [first] + [second];
    HostAndConnection(first, second);
    SoleOption(HOST);
    ListedEither(HOST, HOP_BY_HOP, [HOST]);
    ListedEither(CONNECTION, HOP_BY_HOP, [HOST]);
    WithoutConcat([first], [second], HOP_BY_HOP + [HOST]);
    WithoutConcat([second], [], HOP_BY_HOP + [HOST]);
  }

  lemma HostAndConnection(first: Field, second: Field)
    requires first.name == HOST && second.name == CONNECTION
    ensures Named([first] + [second], HOST) == [first.value]
    ensures Named([first] + [second], CONNECTION) == [second.value]
    ensures Listed(HOST, [HOST]) && Listed(CONNECTION, HOP_BY_HOP)
  {
    hide Named;
    assert |HOST| == 4 && |CONNECTION| == 10;
    SameName(HOST);
    SameName(CONNECTION);
    assert [HOST][0] == HOST && HOP_BY_HOP[0] == CONNECTION;
    NamedConcat([first], [second], HOST);
    NamedConcat([first], [second], CONNECTION);
    OneNamed(first, HOST);
    OneNamed(second, HOST);
    OneNamed(first, CONNECTION);
    OneNamed(second, CONNECTION);
  }

  lemma SoleOption(v: Bytes)
    requires v != [] && AllIn(v, Token)
    ensures Collected([v]) == Tokens([v], None)
  {
    RunEndIs(Token, v, 0, |v|);
    IterateStep(v);
    assert v[..|v|] == v && [v] + [] == [v];
    assert [v][1..] == [];
    NothingToIterate();
    assert Collected([]) == Tokens([], None);
  }
}
