/**
 * `SkilldockClient` up to the network call: loading and caching the spec,
 * the base URL, the URL and headers of a request, the routing of an
 * operation's parameters to its path, query and headers, and the keyword
 * rule of the `ops` proxy. A request is described by a `Prepared` value
 * instead of being sent; the client's state is a value, so an operation
 * returns the client it leaves behind (the only change is the cached spec).
 */
module Client {
  import opened Wrappers
  import opened Strs
  import opened Json
  import opened OpenApi
  import opened Quoting
  import Dicts
  import Sorting

  /** A Python dict with string keys, in insertion order. */
  type Dict<V> = seq<(string, V)>

  /** What the client raises before any request is sent. */
  datatype Failure =
    | LoadFailed(url: string)               // SkilldockError: the spec could not be loaded or parsed
    | BodyConflict                          // SkilldockError: content together with json_body, data or files
    | MissingPathParam(name: string)        // SkilldockError
    | OperationNotFound(operationId: string) // OperationNotFoundError
    | AuthRequired(operationId: string)     // AuthRequiredError
    | AttributeError(name: string)
    | TypeError

  /** `OperationNotFoundError` and `AuthRequiredError` are `SkilldockError`s too. */
  predicate IsSkilldockError(f: Failure) {
    !f.AttributeError? && !f.TypeError?
  }

  /** The four ways to pass a request body; `None` is Python's `None`. */
  datatype Body = Body(json: Option<Json>, content: Option<string>, data: Option<Json>, files: Option<Json>)

  /**
   * The client's configuration and its cached spec. `fetched` is what
   * `load_openapi` followed by `parse_spec` yields for `openapiUrl`, or
   * `None` when either raises; the fetch itself is not modelled.
   */
  datatype Client = Client(
    openapiUrl: string,
    baseUrlOverride: Option<string>,
    token: Option<string>,
    headerOverride: Option<string>,
    schemeOverride: Option<string>,
    defaultHeaders: Dict<string>,
    loaded: Option<Spec>,
    fetched: Option<Spec>)

  /** What `self._http.request` would be called with. */
  datatype Prepared = Prepared(verb: string, url: string, query: Dict<Json>, body: Body, headers: Dict<string>)

  /** Python truthiness of a `str | None`. */
  predicate Truthy(s: Option<string>) {
    s.Some? && s.value != []
  }

  /** `s or fallback` for a `str | None`. */
  function Or(s: Option<string>, fallback: string): (r: string)
    ensures Truthy(s) ==> r == s.value
    ensures !Truthy(s) ==> r == fallback
  {
    if Truthy(s) then s.value else fallback
  }

  /** Neither empty nor surrounded by whitespace. */
  predicate Tight(s: string) {
    |s| > 0 && !IsSpace(s[0]) && !IsSpace(s[|s| - 1])
  }

  // ---------------------------------------------------------------------
  // The spec property and base_url
  // ---------------------------------------------------------------------

  /**
   * `client.spec`: the cached spec, else the fetched one, which is then
   * cached; a failure is wrapped and nothing is cached.
   */
  function LoadSpec(c: Client): (r: (Client, Result<Spec, Failure>))
    ensures r.1.Ok? <==> c.loaded.Some? || c.fetched.Some?
    ensures r.1.Ok? ==> r.0.loaded == Some(r.1.value)
    ensures c.loaded.Some? ==> r.1 == Ok(c.loaded.value)
    ensures r.1.Err? ==> r.1.error == LoadFailed(c.openapiUrl)
    ensures r.0 == c.(loaded := r.0.loaded)
  {
    match c.loaded
    case Some(s) => (c, Ok(s))
    case None =>
      match c.fetched
      case Some(s) => (c.(loaded := Some(s)), Ok(s))
      case None => (c, Err(LoadFailed(c.openapiUrl)))
  }

  /** Once loaded, the spec is returned again without another fetch. */
  lemma LoadSpecCached(c: Client)
    requires LoadSpec(c).1.Ok?
    ensures LoadSpec(LoadSpec(c).0) == LoadSpec(c)
  {
  }

  /** `client.base_url`: `(override or spec.base_url).rstrip("/")`. */
  function BaseUrl(c: Client): (r: (Client, Result<string, Failure>))
    ensures Truthy(c.baseUrlOverride) ==> r.0 == c && r.1.Ok?
    ensures r.1.Ok? ==> r.0.loaded.Some? || Truthy(c.baseUrlOverride)
    ensures r.1.Ok? && Truthy(c.baseUrlOverride) ==> SlashStripped(r.1.value, c.baseUrlOverride.value)
    ensures r.1.Ok? && !Truthy(c.baseUrlOverride) ==> SlashStripped(r.1.value, r.0.loaded.value.baseUrl)
    ensures r.1.Err? ==> LoadSpec(c).1.Err? && r.0 == LoadSpec(c).0 && r.1.error == LoadSpec(c).1.error
  {
    if Truthy(c.baseUrlOverride) then
      RStripSlash(c.baseUrlOverride.value);
      (c, Ok(RStripChar(c.baseUrlOverride.value, '/')))
    else
      var (c1, s) := LoadSpec(c);
      match s
      case Ok(spec) =>
        RStripSlash(spec.baseUrl);
        (c1, Ok(RStripChar(spec.baseUrl, '/')))
      case Err(e) => (c1, Err(e))
  }

  // ---------------------------------------------------------------------
  // request: URL and headers
  // ---------------------------------------------------------------------

  /** The path with a leading `/` ensured. */
  function Rooted(path: string): (p: string)
    ensures |p| > 0 && p[0] == '/'
    ensures StartsWith(path, "/") ==> p == path
    ensures !StartsWith(path, "/") ==> p == "/" + path
  {
    if StartsWith(path, "/") then path else "/" + path
  }

  /** The URL of `request`: an http(s) path as given, else `base_url` followed by the rooted path. */
  function BuildUrl(c: Client, path: string): (r: (Client, Result<string, Failure>))
    ensures IsHttpUrl(path) ==> r == (c, Ok(path))
    ensures !IsHttpUrl(path) && r.1.Ok? ==>
      var u := r.1.value;
      var p := Rooted(path);
      && |p| <= |u|
      && u[|u| - |p|..] == p
      && (r.0.loaded.Some? || Truthy(c.baseUrlOverride))
      && SlashStripped(u[..|u| - |p|], if Truthy(c.baseUrlOverride) then c.baseUrlOverride.value else r.0.loaded.value.baseUrl)
    ensures r.1.Err? ==> LoadSpec(c).1.Err? && r.0 == LoadSpec(c).0 && r.1.error == LoadSpec(c).1.error
  {
    if IsHttpUrl(path) then (c, Ok(path))
    else
      var (c1, b) := BaseUrl(c);
      match b
      case Ok(base) =>
        var u := base + Rooted(path);
        assert u[..|base|] == base && u[|base|..] == Rooted(path);
        (c1, Ok(u))
      case Err(e) => (c1, Err(e))
  }

  /** `d.update(e)`: each entry of `e` assigned in turn. */
  function Update<V>(d: Dict<V>, e: Dict<V>): Dict<V>
    decreases |e|
  {
    if |e| == 0 then d else Update(Dicts.Put(d, e[0].0, e[0].1), e[1..])
  }

  /** After `d.update(e)` a key reads its value in `e` when it has one, else its value in `d`. */
  lemma {:induction false} UpdateGet<V>(d: Dict<V>, e: Dict<V>, k: string)
    requires Dicts.DistinctKeys(e)
    ensures Dicts.Get(Update(d, e), k) == if Dicts.HasKey(e, k) then Dicts.Get(e, k) else Dicts.Get(d, k)
    decreases |e|
  {
    if |e| > 0 {
      var t := e[1..];
      assert Dicts.DistinctKeys(t) by {
        forall a, b | 0 <= a < b < |t| ensures t[a].0 != t[b].0 {
          assert t[a] == e[a + 1] && t[b] == e[b + 1];
        }
      }
      UpdateGet(Dicts.Put(d, e[0].0, e[0].1), t, k);
      Dicts.GetPut(d, e[0].0, e[0].1, k);
      if k == e[0].0 {
        assert !Dicts.HasKey(t, k) by {
          forall i | 0 <= i < |t| ensures t[i].0 != k {
            assert t[i] == e[i + 1];
          }
        }
      } else {
        assert Dicts.HasKey(e, k) <==> Dicts.HasKey(t, k) by {
          forall i | 0 <= i < |t| ensures t[i] == e[i + 1] {
          }
        }
      }
    }
  }

  /**
   * `_apply_auth`'s value: the bare token for a header apiKey, else
   * `f"{scheme or 'Bearer'} {token}".strip()`.
   */
  function AuthValue(auth: AuthStrategy, token: string): (v: string)
    ensures auth.kind == ApiKeyHeader ==> v == token
    ensures auth.kind != ApiKeyHeader && !Truthy(auth.scheme) && Tight(token) ==> v == "Bearer " + token
    ensures auth.kind != ApiKeyHeader && Truthy(auth.scheme) && Tight(auth.scheme.value) && Tight(token) ==>
      v == auth.scheme.value + " " + token
  {
    if auth.kind == ApiKeyHeader then token
    else
      var scheme := Or(auth.scheme, "Bearer");
      BearerTight(token);
      if Tight(token) && Tight(scheme) then JoinTight(scheme, token); Strip(scheme + " " + token)
      else Strip(scheme + " " + token)
  }

  lemma BearerTight(token: string)
    ensures Tight("Bearer") && "Bearer" + " " + token == "Bearer " + token
  {
  }

  /** Two tight words joined by a space are left alone by `strip()`. */
  lemma JoinTight(a: string, b: string)
    requires Tight(a) && Tight(b)
    ensures Strip(a + " " + b) == a + " " + b
  {
    var s := a + " " + b;
    assert s[0] == a[0] && s[|s| - 1] == b[|b| - 1];
    StripNoop(s);
  }

  /** The value under a configured header: `f"{scheme_override or ''} {token}".strip()`. */
  function OverrideValue(scheme: Option<string>, token: string): (v: string)
    ensures !Truthy(scheme) ==> v == Strip(token)
    ensures Truthy(scheme) && Tight(scheme.value) && Tight(token) ==> v == scheme.value + " " + token
  {
    var s := Or(scheme, "") + " " + token;
    if !Truthy(scheme) then
      assert s == " " + token + "";
      StripSurrounding(" ", token, "");
      Strip(s)
    else if Tight(scheme.value) && Tight(token) then JoinTight(scheme.value, token); Strip(s)
    else Strip(s)
  }

  /**
   * The auth header `request` sets, if any: only with `auth` and a non-empty
   * token; a configured header wins, else the loaded spec's strategy, else
   * the unknown strategy (`Authorization: Bearer`).
   */
  function AuthEntry(c: Client, auth: bool): (r: Option<(string, string)>)
    ensures r.None? <==> !auth || !Truthy(c.token)
    ensures r.Some? && Truthy(c.headerOverride) ==>
      r.value == (c.headerOverride.value, OverrideValue(c.schemeOverride, c.token.value))
    ensures r.Some? && !Truthy(c.headerOverride) && c.loaded.Some? ==>
      r.value == (c.loaded.value.auth.header, AuthValue(c.loaded.value.auth, c.token.value))
    ensures r.Some? && !Truthy(c.headerOverride) && c.loaded.None? && Tight(c.token.value) ==>
      r.value == ("Authorization", "Bearer " + c.token.value)
  {
    if !auth || !Truthy(c.token) then None
    else if Truthy(c.headerOverride) then
      Some((c.headerOverride.value, OverrideValue(c.schemeOverride, c.token.value)))
    else
      var strategy := if c.loaded.Some? then c.loaded.value.auth else Unknown;
      assert c.loaded.None? ==> Tight("Bearer") && "Bearer" + " " + c.token.value == "Bearer " + c.token.value;
      Some((strategy.header, AuthValue(strategy, c.token.value)))
  }

  /** `req_headers`: the defaults, updated by the caller's headers, then the auth header. */
  function RequestHeaders(c: Client, headers: Dict<string>, auth: bool): Dict<string> {
    var h := Update(c.defaultHeaders, headers);
    match AuthEntry(c, auth)
    case None => h
    case Some((k, v)) => Dicts.Put(h, k, v)
  }

  /** Header precedence in `request`: auth header over caller headers over default headers. */
  lemma HeaderPrecedence(c: Client, headers: Dict<string>, auth: bool, k: string)
    requires Dicts.DistinctKeys(headers)
    ensures Dicts.Get(RequestHeaders(c, headers, auth), k) ==
      if AuthEntry(c, auth).Some? && AuthEntry(c, auth).value.0 == k then Some(AuthEntry(c, auth).value.1)
      else if Dicts.HasKey(headers, k) then Dicts.Get(headers, k)
      else Dicts.Get(c.defaultHeaders, k)
  {
    UpdateGet(c.defaultHeaders, headers, k);
    match AuthEntry(c, auth)
    case None =>
    case Some((a, v)) => Dicts.GetPut(Update(c.defaultHeaders, headers), a, v, k);
  }

  /** `request` up to the network call. */
  function Request(c: Client, verb: string, path: string, query: Dict<Json>, body: Body, headers: Dict<string>, auth: bool)
    : (r: (Client, Result<Prepared, Failure>))
    ensures r.1 == Err(BodyConflict) <==>
      body.content.Some? && (body.json.Some? || body.data.Some? || body.files.Some?)
    ensures r.1.Err? ==> r.1.error == BodyConflict || r.1.error == LoadFailed(c.openapiUrl)
    ensures r.1.Ok? ==>
      && r.1.value.verb == Upper(verb)
      && r.1.value.query == query
      && r.1.value.body == body
      && r.0 == BuildUrl(c, path).0
      && Ok(r.1.value.url) == BuildUrl(c, path).1
      && r.1.value.headers == RequestHeaders(r.0, headers, auth)
  {
    if body.content.Some? && (body.json.Some? || body.data.Some? || body.files.Some?) then
      (c, Err(BodyConflict))
    else
      var (c1, u) := BuildUrl(c, path);
      match u
      case Ok(url) => (c1, Ok(Prepared(Upper(verb), url, query, body, RequestHeaders(c1, headers, auth))))
      case Err(e) => (c1, Err(e))
  }

  // ---------------------------------------------------------------------
  // request_operation: parameter routing
  // ---------------------------------------------------------------------

  /** A parameter's `name` and `in`, when both are strings. */
  function Declared(p: Json): Option<(string, string)> {
    match (StrField(p, "name"), StrField(p, "in"))
    case (Some(name), Some(loc)) => Some((name, loc))
    case _ => None
  }

  /** `bool(p.get("required", False))`. */
  predicate Required(p: Json) {
    p.JObj? && TruthyField(p.fields, "required")
  }

  /** The location of the first declaration named `k`, if any. */
  function FirstLoc(ps: seq<Json>, k: string): Option<string>
    decreases |ps|
  {
    if |ps| == 0 then None
    else match Declared(ps[0])
      case Some((name, loc)) => if name == k then Some(loc) else FirstLoc(ps[1..], k)
      case None => FirstLoc(ps[1..], k)
  }

  /** `spec_param_names`: the names of the declarations with a string name and location. */
  function SpecParamNames(ps: seq<Json>): set<string>
    decreases |ps|
  {
    if |ps| == 0 then {}
    else match Declared(ps[0])
      case Some((name, _)) => {name} + SpecParamNames(ps[1..])
      case None => SpecParamNames(ps[1..])
  }

  lemma {:induction false} SpecParamNamesFirstLoc(ps: seq<Json>, k: string)
    ensures k in SpecParamNames(ps) <==> FirstLoc(ps, k).Some?
    decreases |ps|
  {
    if |ps| > 0 {
      SpecParamNamesFirstLoc(ps[1..], k);
    }
  }

  /** The routing state: the path so far, the query, the header parameters, and the params not yet popped. */
  datatype Routed = Routed(path: string, query: Dict<Json>, headers: Dict<string>, remaining: Dict<Json>)

  function Start(path: string, params: Dict<Json>): Routed {
    Routed(path, [], [], params)
  }

  /** Where a popped value goes: the path, the query, the headers, or nowhere. */
  function Place(st: Routed, name: string, loc: string, v: Json): (r: Routed)
    ensures r.remaining == st.remaining
    ensures loc != "path" ==> r.path == st.path
    ensures loc != "query" ==> r.query == st.query
    ensures loc != "header" ==> r.headers == st.headers
  {
    if loc == "path" then st.(path := Replace(st.path, Placeholder(name), Quote(PyStr(v))))
    else if loc == "query" then st.(query := Dicts.Put(st.query, name, v))
    else if loc == "header" then st.(headers := Dicts.Put(st.headers, name, PyStr(v)))
    else st
  }

  /**
   * The second loop over `op.parameters`. A declaration whose name is not
   * among the remaining params is skipped, unless it is a required path
   * parameter, which raises. As written, a name popped by an earlier
   * declaration counts as missing too; with `tolerant`, a name already
   * popped (`consumed`) is skipped instead.
   */
  function Route(ps: seq<Json>, st: Routed, consumed: set<string>, tolerant: bool): (r: Result<Routed, Failure>)
    ensures r.Err? ==> r.error.MissingPathParam?
    decreases |ps|
  {
    if |ps| == 0 then Ok(st)
    else match Declared(ps[0])
      case None => Route(ps[1..], st, consumed, tolerant)
      case Some((name, loc)) =>
        if !Dicts.HasKey(st.remaining, name) then
          if Required(ps[0]) && loc == "path" && !(tolerant && name in consumed) then Err(MissingPathParam(name))
          else Route(ps[1..], st, consumed, tolerant)
        else
          var v := Dicts.Get(st.remaining, name).value;
          var popped := st.(remaining := Dicts.Remove(st.remaining, name));
          Route(ps[1..], Place(popped, name, loc, v), consumed + {name}, tolerant)
  }

  /**
   * A path parameter cuts the path at each `{name}` and joins the pieces
   * with the quoted value, which holds no `/`, `{` or `}`: every other part
   * of the path is kept and no segment is added.
   */
  lemma PathSubstitution(st: Routed, name: string, v: Json)
    ensures var q := Quote(PyStr(v));
      && (forall i | 0 <= i < |q| :: q[i] != '/' && q[i] != '{' && q[i] != '}')
      && exists pieces: seq<string> ::
        && Join(pieces, Placeholder(name)) == st.path
        && Place(st, name, "path", v).path == Join(pieces, q)
  {
    var pat := Placeholder(name);
    var q := Quote(PyStr(v));
    var pieces := SplitStr(st.path, pat, []);
    EncodedSafe(q);
    ReplaceIsSplitJoin(st.path, pat, q, []);
    SplitStrJoin(st.path, pat, []);
    assert [] + st.path == st.path;
    assert [] + Replace(st.path, pat, q) == Replace(st.path, pat, q);
  }

  /** A required path parameter whose name the caller did not pass. */
  predicate MissingRequired(p: Json, params: Dict<Json>) {
    match Declared(p)
    case Some((name, loc)) => loc == "path" && Required(p) && !Dicts.HasKey(params, name)
    case None => false
  }

  /**
   * Each key ends where its first declaration sends it: the query, the
   * headers (stringified), or nowhere; an undeclared key stays among the
   * remaining params.
   */
  lemma {:induction false} RouteGets(ps: seq<Json>, st: Routed, consumed: set<string>, tolerant: bool, k: string)
    requires Route(ps, st, consumed, tolerant).Ok?
    ensures var out := Route(ps, st, consumed, tolerant).value;
      && Dicts.Get(out.query, k) ==
        (if FirstLoc(ps, k) == Some("query") && Dicts.HasKey(st.remaining, k) then Dicts.Get(st.remaining, k)
         else Dicts.Get(st.query, k))
      && Dicts.Get(out.headers, k) ==
        (if FirstLoc(ps, k) == Some("header") && Dicts.HasKey(st.remaining, k) then Some(PyStr(Dicts.Get(st.remaining, k).value))
         else Dicts.Get(st.headers, k))
      && Dicts.Get(out.remaining, k) == (if FirstLoc(ps, k).Some? then None else Dicts.Get(st.remaining, k))
    decreases |ps|
  {
    if |ps| > 0 {
      match Declared(ps[0])
      case None =>
        RouteGets(ps[1..], st, consumed, tolerant, k);
      case Some((name, loc)) =>
        if !Dicts.HasKey(st.remaining, name) {
          RouteGets(ps[1..], st, consumed, tolerant, k);
        } else {
          var v := Dicts.Get(st.remaining, name).value;
          var popped := st.(remaining := Dicts.Remove(st.remaining, name));
          var next := Place(popped, name, loc, v);
          RouteGets(ps[1..], next, consumed + {name}, tolerant, k);
          Dicts.GetRemove(st.remaining, name, k);
          Dicts.GetPut(st.query, name, v, k);
          Dicts.GetPut(st.headers, name, PyStr(v), k);
        }
    }
  }

  /**
   * With tolerant routing, the loop raises exactly when some required path
   * parameter was not passed by the caller. `params` are the caller's
   * params: each is still remaining or already popped.
   */
  lemma {:induction false} RouteFailsIff(ps: seq<Json>, st: Routed, consumed: set<string>, params: Dict<Json>)
    requires forall n :: Dicts.HasKey(params, n) <==> Dicts.HasKey(st.remaining, n) || n in consumed
    ensures Route(ps, st, consumed, true).Err? <==> exists i | 0 <= i < |ps| :: MissingRequired(ps[i], params)
    decreases |ps|
  {
    if |ps| > 0 {
      var rest := ps[1..];
      assert (exists i | 0 <= i < |ps| :: MissingRequired(ps[i], params))
        <==> MissingRequired(ps[0], params) || exists i | 0 <= i < |rest| :: MissingRequired(rest[i], params) by {
        assert forall i | 0 <= i < |rest| :: rest[i] == ps[i + 1];
      }
      match Declared(ps[0])
      case None =>
        RouteFailsIff(rest, st, consumed, params);
      case Some((name, loc)) =>
        if !Dicts.HasKey(st.remaining, name) {
          RouteFailsIff(rest, st, consumed, params);
        } else {
          var v := Dicts.Get(st.remaining, name).value;
          var popped := st.(remaining := Dicts.Remove(st.remaining, name));
          var next := Place(popped, name, loc, v);
          forall n ensures Dicts.HasKey(params, n) <==> Dicts.HasKey(next.remaining, n) || n in consumed + {name} {
            Dicts.GetRemove(st.remaining, name, n);
          }
          RouteFailsIff(rest, next, consumed + {name}, params);
        }
    }
  }

  /** The last loop: every leftover param not named in the spec goes to the query. */
  function Leftovers(remaining: Dict<Json>, names: set<string>, query: Dict<Json>): Dict<Json>
    decreases |remaining|
  {
    if |remaining| == 0 then query
    else if remaining[0].0 in names then Leftovers(remaining[1..], names, query)
    else Leftovers(remaining[1..], names, Dicts.Put(query, remaining[0].0, remaining[0].1))
  }

  lemma {:induction false} LeftoversGet(remaining: Dict<Json>, names: set<string>, query: Dict<Json>, k: string)
    requires Dicts.DistinctKeys(remaining)
    ensures Dicts.Get(Leftovers(remaining, names, query), k) ==
      if Dicts.HasKey(remaining, k) && k !in names then Dicts.Get(remaining, k) else Dicts.Get(query, k)
    decreases |remaining|
  {
    if |remaining| > 0 {
      var t := remaining[1..];
      assert Dicts.DistinctKeys(t) by {
        forall a, b | 0 <= a < b < |t| ensures t[a].0 != t[b].0 {
          assert t[a] == remaining[a + 1] && t[b] == remaining[b + 1];
        }
      }
      assert forall i | 0 <= i < |t| :: t[i] == remaining[i + 1];
      if remaining[0].0 == k {
        assert !Dicts.HasKey(t, k) by {
          forall i | 0 <= i < |t| ensures t[i].0 != k {
            assert t[i] == remaining[i + 1];
          }
        }
      }
      if remaining[0].0 in names {
        LeftoversGet(t, names, query, k);
      } else {
        LeftoversGet(t, names, Dicts.Put(query, remaining[0].0, remaining[0].1), k);
        Dicts.GetPut(query, remaining[0].0, remaining[0].1, k);
      }
    }
  }

  /** The outgoing path, query and headers of `request_operation`, with tolerant or as-written routing. */
  datatype Outgoing = Outgoing(path: string, query: Dict<Json>, headers: Dict<string>)

  function RouteOperation(op: Operation, params: Dict<Json>, headers: Dict<string>, tolerant: bool)
    : (r: Result<Outgoing, Failure>)
    ensures r.Err? <==> Route(op.parameters, Start(op.path, params), {}, tolerant).Err?
    ensures r.Err? ==> r.error.MissingPathParam?
  {
    match Route(op.parameters, Start(op.path, params), {}, tolerant)
    case Err(e) => Err(e)
    case Ok(out) =>
      Ok(Outgoing(out.path, Leftovers(out.remaining, SpecParamNames(op.parameters), out.query), Update(headers, out.headers)))
  }

  /**
   * Where each of the caller's params ends up: query-declared and
   * undeclared ones in the query with their value, header-declared ones
   * stringified in the headers over the caller's headers; path-declared
   * and other-located ones nowhere in the query.
   */
  lemma RoutingSound(op: Operation, params: Dict<Json>, headers: Dict<string>, tolerant: bool, k: string)
    requires Dicts.DistinctKeys(params)
    requires RouteOperation(op, params, headers, tolerant).Ok?
    ensures var out := RouteOperation(op, params, headers, tolerant).value;
      var first := FirstLoc(op.parameters, k);
      && Dicts.Get(out.query, k) == (if first.None? || first == Some("query") then Dicts.Get(params, k) else None)
      && Dicts.Get(out.headers, k) ==
        (if first == Some("header") && Dicts.HasKey(params, k) then Some(PyStr(Dicts.Get(params, k).value))
         else Dicts.Get(headers, k))
  {
    var st := Start(op.path, params);
    var out := Route(op.parameters, st, {}, tolerant).value;
    RouteGets(op.parameters, st, {}, tolerant, k);
    RouteRemainingDistinct(op.parameters, st, {}, tolerant);
    LeftoversGet(out.remaining, SpecParamNames(op.parameters), out.query, k);
    SpecParamNamesFirstLoc(op.parameters, k);
    RoutedHeadersDistinct(op.parameters, st, {}, tolerant);
    UpdateGet(headers, out.headers, k);
    assert Dicts.HasKey(out.remaining, k) <==> Dicts.Get(out.remaining, k).Some?;
  }

  /** Routing only pops params and only assigns header keys, so both stay distinct. */
  lemma {:induction false} RouteRemainingDistinct(ps: seq<Json>, st: Routed, consumed: set<string>, tolerant: bool)
    requires Dicts.DistinctKeys(st.remaining)
    requires Route(ps, st, consumed, tolerant).Ok?
    ensures Dicts.DistinctKeys(Route(ps, st, consumed, tolerant).value.remaining)
    decreases |ps|
  {
    if |ps| > 0 {
      match Declared(ps[0])
      case None =>
        RouteRemainingDistinct(ps[1..], st, consumed, tolerant);
      case Some((name, loc)) =>
        if !Dicts.HasKey(st.remaining, name) {
          RouteRemainingDistinct(ps[1..], st, consumed, tolerant);
        } else {
          var v := Dicts.Get(st.remaining, name).value;
          var popped := st.(remaining := Dicts.Remove(st.remaining, name));
          Dicts.FilterDistinct((e: (string, Json)) => e.0 != name, st.remaining);
          RouteRemainingDistinct(ps[1..], Place(popped, name, loc, v), consumed + {name}, tolerant);
        }
    }
  }

  lemma {:induction false} RoutedHeadersDistinct(ps: seq<Json>, st: Routed, consumed: set<string>, tolerant: bool)
    requires Dicts.DistinctKeys(st.headers)
    requires Route(ps, st, consumed, tolerant).Ok?
    ensures Dicts.DistinctKeys(Route(ps, st, consumed, tolerant).value.headers)
    decreases |ps|
  {
    if |ps| > 0 {
      match Declared(ps[0])
      case None =>
        RoutedHeadersDistinct(ps[1..], st, consumed, tolerant);
      case Some((name, loc)) =>
        if !Dicts.HasKey(st.remaining, name) {
          RoutedHeadersDistinct(ps[1..], st, consumed, tolerant);
        } else {
          var v := Dicts.Get(st.remaining, name).value;
          var popped := st.(remaining := Dicts.Remove(st.remaining, name));
          Dicts.PutDistinct(st.headers, name, PyStr(v));
          RoutedHeadersDistinct(ps[1..], Place(popped, name, loc, v), consumed + {name}, tolerant);
        }
    }
  }

  /** With tolerant routing, `request_operation` raises a missing path param exactly when the caller left a required one out. */
  lemma MissingPathIff(op: Operation, params: Dict<Json>, headers: Dict<string>)
    ensures RouteOperation(op, params, headers, true).Err? <==>
      exists i | 0 <= i < |op.parameters| :: MissingRequired(op.parameters[i], params)
  {
    RouteFailsIff(op.parameters, Start(op.path, params), {}, params);
  }

  /** No two declarations with a string name and location share the name. */
  predicate DistinctDeclared(ps: seq<Json>) {
    forall i, j | 0 <= i < j < |ps| && Declared(ps[i]).Some? && Declared(ps[j]).Some? ::
      Declared(ps[i]).value.0 != Declared(ps[j]).value.0
  }

  /** When no name is declared twice, tolerant routing is routing as written. */
  lemma {:induction false} RouteAgrees(ps: seq<Json>, st: Routed, consumed: set<string>)
    requires DistinctDeclared(ps)
    requires forall i | 0 <= i < |ps| && Declared(ps[i]).Some? :: Declared(ps[i]).value.0 !in consumed
    ensures Route(ps, st, consumed, false) == Route(ps, st, consumed, true)
    decreases |ps|
  {
    if |ps| > 0 {
      var rest := ps[1..];
      assert forall i | 0 <= i < |rest| :: rest[i] == ps[i + 1];
      assert DistinctDeclared(rest);
      match Declared(ps[0])
      case None =>
        RouteAgrees(rest, st, consumed);
      case Some((name, loc)) =>
        assert name !in consumed;
        if !Dicts.HasKey(st.remaining, name) {
          RouteAgrees(rest, st, consumed);
        } else {
          var v := Dicts.Get(st.remaining, name).value;
          var popped := st.(remaining := Dicts.Remove(st.remaining, name));
          assert forall i | 0 <= i < |rest| && Declared(rest[i]).Some? :: Declared(rest[i]).value.0 != name;
          RouteAgrees(rest, Place(popped, name, loc, v), consumed + {name});
        }
    }
  }

  /** A required path parameter `id`, as a path item or an operation declares it. */
  const PathId: Json := JObj([("name", JStr("id")), ("in", JStr("path")), ("required", JBool(true))])

  /**
   * As written, a path parameter declared both on the path item and on the
   * operation is reported missing although the caller passed it: the first
   * declaration pops it, the second no longer finds it. Tolerant routing
   * substitutes it once.
   */
  lemma DuplicatePathParam(o: RawOp, v: Json)
    requires ListField(o.item, "parameters") == [PathId]
    requires ListField(o.op, "parameters") == [PathId]
    ensures Parameters(o) == [PathId, PathId]
    ensures Route(Parameters(o), Start(o.path, [("id", v)]), {}, false) == Err(MissingPathParam("id"))
    ensures Route(Parameters(o), Start(o.path, [("id", v)]), {}, true).Ok?
  {
    var two := [PathId, PathId];
    assert [PathId] + [PathId] == two && two[1..] == [PathId] && [PathId][1..] == [];
    assert Sorting.Filter(IsDict, [PathId]) == [PathId];
    assert Sorting.Filter(IsDict, two) == two;
    var params := [("id", v)];
    assert params[0].0 == "id";
    assert Dicts.HasKey(params, "id");
    SecondFindsItMissing(two, Start(o.path, params));
    RouteFailsIff(two, Start(o.path, params), {}, params);
    assert !MissingRequired(two[0], params) && !MissingRequired(two[1], params);
  }

  /** Two declarations of one required path name: the second one no longer finds the popped param. */
  lemma SecondFindsItMissing(ps: seq<Json>, st: Routed)
    requires |ps| == 2 && ps[0] == ps[1] && Declared(ps[0]).Some? && Declared(ps[0]).value.1 == "path"
    requires Required(ps[0]) && Dicts.HasKey(st.remaining, Declared(ps[0]).value.0)
    ensures Route(ps, st, {}, false) == Err(MissingPathParam(Declared(ps[0]).value.0))
  {
    var name := Declared(ps[0]).value.0;
    var v := Dicts.Get(st.remaining, name).value;
    var next := Place(st.(remaining := Dicts.Remove(st.remaining, name)), name, "path", v);
    assert Route(ps, st, {}, false) == Route(ps[1..], next, {name}, false);
    assert ps[1..][0] == ps[0];
    assert !Dicts.HasKey(next.remaining, name);
  }

  // ---------------------------------------------------------------------
  // request_operation
  // ---------------------------------------------------------------------

  /**
   * `request_operation` up to the network call: find the operation, refuse
   * a protected one without a token, route the params, then `request`.
   */
  function RequestOperation(c: Client, id: string, params: Dict<Json>, body: Body, headers: Dict<string>, auth: bool)
    : (r: (Client, Result<Prepared, Failure>))
    ensures r.1 == Err(OperationNotFound(id)) <==>
      LoadSpec(c).1.Ok? && FindOperation(LoadSpec(c).1.value.operations, id).None?
    ensures r.1 == Err(AuthRequired(id)) <==>
      && LoadSpec(c).1.Ok?
      && FindOperation(LoadSpec(c).1.value.operations, id).Some?
      && FindOperation(LoadSpec(c).1.value.operations, id).value.requiresAuth
      && auth && !Truthy(c.token)
    ensures r.1.Ok? ==>
      && LoadSpec(c).1.Ok?
      && FindOperation(LoadSpec(c).1.value.operations, id).Some?
      && var op := FindOperation(LoadSpec(c).1.value.operations, id).value;
         && RouteOperation(op, params, headers, false).Ok?
         && var out := RouteOperation(op, params, headers, false).value;
            r == Request(LoadSpec(c).0, op.verb, out.path, out.query, body, out.headers, auth)
  {
    var (c1, s) := LoadSpec(c);
    match s
    case Err(e) => (c1, Err(e))
    case Ok(spec) =>
      match FindOperation(spec.operations, id)
      case None => (c1, Err(OperationNotFound(id)))
      case Some(op) =>
        if op.requiresAuth && auth && !Truthy(c1.token) then (c1, Err(AuthRequired(id)))
        else
          match RouteOperation(op, params, headers, false)
          case Err(e) => (c1, Err(e))
          case Ok(out) => Request(c1, op.verb, out.path, out.query, body, out.headers, auth)
  }

  // ---------------------------------------------------------------------
  // OperationsProxy
  // ---------------------------------------------------------------------

  /** `_mapping().get(name)`, with the operation it leads to. */
  function FindByPythonName(ops: seq<Operation>, name: string): (r: Option<Operation>)
    ensures r.Some? ==> r.value in ops && r.value.pythonName == name
    ensures r.None? <==> forall i | 0 <= i < |ops| :: ops[i].pythonName != name
    decreases |ops|
  {
    if |ops| == 0 then None
    else if ops[0].pythonName == name then Some(ops[0])
    else
      var r := FindByPythonName(ops[1..], name);
      assert forall i | 1 <= i < |ops| :: ops[i] == ops[1..][i - 1];
      r
  }

  /** With distinct Python names, every operation is reached under its own name. */
  lemma {:induction false} FindOwnPythonName(ops: seq<Operation>, i: nat)
    requires i < |ops|
    requires forall a, b | 0 <= a < b < |ops| :: ops[a].pythonName != ops[b].pythonName
    ensures FindByPythonName(ops, ops[i].pythonName) == Some(ops[i])
    decreases i
  {
    if i > 0 {
      var t := ops[1..];
      assert forall a, b | 0 <= a < b < |t| :: t[a].pythonName != t[b].pythonName by {
        forall a, b | 0 <= a < b < |t| ensures t[a].pythonName != t[b].pythonName {
          assert t[a] == ops[a + 1] && t[b] == ops[b + 1];
        }
      }
      assert ops[0].pythonName != ops[i].pythonName;
      assert t[i - 1] == ops[i];
      FindOwnPythonName(t, i - 1);
    }
  }

  /**
   * `client.ops.<name>(params=..., **kwargs)` up to `call_operation`: the
   * operation id and the params it is called with. An unknown name (or an
   * empty id) is an `AttributeError`; `params=` together with keyword
   * params is a `TypeError`; keyword params alone stand in for `params`.
   */
  function ProxyCall(c: Client, name: string, params: Option<Dict<Json>>, kwargs: Dict<Json>)
    : (r: (Client, Result<(string, Dict<Json>), Failure>))
    ensures r.1 == Err(TypeError) <==>
      && LoadSpec(c).1.Ok?
      && FindByPythonName(LoadSpec(c).1.value.operations, name).Some?
      && FindByPythonName(LoadSpec(c).1.value.operations, name).value.operationId != []
      && params.Some? && kwargs != []
    ensures r.1.Ok? ==>
      && LoadSpec(c).1.Ok?
      && FindByPythonName(LoadSpec(c).1.value.operations, name).Some?
      && r.1.value.0 == FindByPythonName(LoadSpec(c).1.value.operations, name).value.operationId
      && r.1.value.0 != []
      && (params.None? || kwargs == [])
      && (params.None? ==> r.1.value.1 == kwargs)
      && (params.Some? ==> r.1.value.1 == params.value)
  {
    var (c1, s) := LoadSpec(c);
    match s
    case Err(e) => (c1, Err(e))
    case Ok(spec) =>
      match FindByPythonName(spec.operations, name)
      case None => (c1, Err(Failure.AttributeError(name)))
      case Some(op) =>
        if op.operationId == [] then (c1, Err(Failure.AttributeError(name)))
        else if params.Some? && kwargs != [] then (c1, Err(TypeError))
        else (c1, Ok((op.operationId, if params.Some? then params.value else kwargs)))
  }
}
