/**
 * OpenAPI document digestion (openapi.py): the base URL, the auth
 * strategy, the operation table `parse_spec` builds, and the URL finder
 * used on login responses. The document is a decoded JSON value; the
 * origin of the document's own URL (what `urlsplit`/`urlunsplit` compute
 * in `_extract_origin`) is passed in.
 */
module OpenApi {
  import opened Wrappers
  import opened Strs
  import opened Sorting
  import opened Identifiers
  import opened Json

  type Fields = seq<(string, Json)>

  /** The exception the code raises when a truthy non-dict value is used as a dict. */
  datatype Raised = AttributeError(attribute: string)

  /** `HTTP_METHODS`. */
  const HttpMethods: set<string> := {"get", "post", "put", "patch", "delete", "head", "options", "trace"}

  // ---------------------------------------------------------------------
  // Python's str() of a decoded JSON value
  // ---------------------------------------------------------------------

  /** `str(v)` for a JSON scalar; containers use `repr` of their items. */
  function PyStr(v: Json): string
    decreases v, 1
  {
    match v
    case JStr(s) => s
    case _ => PyRepr(v)
  }

  /** `repr(v)`: strings are single-quoted, lists and dicts are bracketed. */
  function PyRepr(v: Json): string
    decreases v, 0
  {
    match v
    case JNull => "None"
    case JBool(b) => if b then "True" else "False"
    case JNum(n) => IntToString(n)
    case JStr(s) => "'" + s + "'"
    case JArr(items) => "[" + Join(seq(|items|, i requires 0 <= i < |items| => PyRepr(items[i])), ", ") + "]"
    case JObj(fields) =>
      "{" + Join(seq(|fields|, i requires 0 <= i < |fields| => "'" + fields[i].0 + "': " + PyRepr(fields[i].1)), ", ") + "}"
  }

  /** `obj.get(key)` on a dict's members, as a list when it is one, else `[]`. */
  function ListField(fields: Fields, key: string): seq<Json> {
    match Lookup(fields, key)
    case Some(JArr(items)) => items
    case _ => []
  }

  /** `obj.get(key)` when it is a dict. */
  function DictField(fields: Fields, key: string): Option<Fields> {
    match Lookup(fields, key)
    case Some(JObj(f)) => Some(f)
    case _ => None
  }

  /** `bool(obj.get(key))`; an absent key is `None`, which is false. */
  predicate TruthyField(fields: Fields, key: string) {
    match Lookup(fields, key)
    case Some(v) => AsBool(v)
    case None => false
  }

  // ---------------------------------------------------------------------
  // _substitute_server_variables
  // ---------------------------------------------------------------------

  /** A server variable's `default`, unless it is missing, `None`, or the variable is not a dict. */
  function Default(variable: Json): Option<Json> {
    match variable
    case JObj(f) =>
      (match Lookup(f, "default")
       case Some(JNull) => None
       case d => d)
    case _ => None
  }

  /** `"{" + name + "}"`. */
  function Placeholder(name: string): (p: string)
    ensures |p| >= 2
  {
    "{" + name + "}"
  }

  /** One pass of the loop: replace `{name}` by `str(default)`, or skip. */
  function SubstituteOne(url: string, variable: (string, Json)): string {
    match Default(variable.1)
    case Some(d) => Replace(url, Placeholder(variable.0), PyStr(d))
    case None => url
  }

  /** The loop over `variables.items()`, in document order. */
  function SubstituteEach(url: string, variables: Fields): string
    decreases |variables|
  {
    if |variables| == 0 then url
    else SubstituteEach(SubstituteOne(url, variables[0]), variables[1..])
  }

  /**
   * `_substitute_server_variables(url, variables)`: a falsy `variables`
   * leaves the URL alone; a truthy non-dict has no `.items()`.
   */
  function SubstituteServerVariables(url: string, variables: Option<Json>): (r: Result<string, Raised>)
    ensures r.Err? <==> variables.Some? && AsBool(variables.value) && !variables.value.JObj?
    ensures variables.None? || !AsBool(variables.value) ==> r == Ok(url)
  {
    match variables
    case None => Ok(url)
    case Some(v) =>
      if !AsBool(v) then Ok(url)
      else if v.JObj? then Ok(SubstituteEach(url, v.fields))
      else Err(AttributeError("items"))
  }

  predicate HasDefault(variable: (string, Json)) {
    Default(variable.1).Some?
  }

  /** Variables without a usable default play no part: the result is that of the others alone. */
  lemma {:induction false} SubstituteIgnoresNoDefault(url: string, variables: Fields)
    ensures SubstituteEach(url, variables) == SubstituteEach(url, Filter(HasDefault, variables))
    decreases |variables|
  {
    if |variables| > 0 {
      SubstituteIgnoresNoDefault(SubstituteOne(url, variables[0]), variables[1..]);
      if !HasDefault(variables[0]) {
        SubstituteIgnoresNoDefault(url, variables[1..]);
      } else {
        var f := Filter(HasDefault, variables);
        assert f[0] == variables[0] && f[1..] == Filter(HasDefault, variables[1..]);
      }
    }
  }

  /** With no usable default at all, the URL comes back unchanged. */
  lemma SubstituteNoDefaults(url: string, variables: Fields)
    requires forall i | 0 <= i < |variables| :: Default(variables[i].1).None?
    ensures SubstituteEach(url, variables) == url
  {
    SubstituteIgnoresNoDefault(url, variables);
    if Filter(HasDefault, variables) != [] {
      var f := Filter(HasDefault, variables);
      FilterMembers(HasDefault, variables, f[0]);
    }
  }

  /**
   * A single variable with a default: the text between the occurrences
   * of `{name}` is kept as it is, and every occurrence becomes the default.
   */
  lemma SubstituteSingle(url: string, name: string, variable: Json)
    requires Default(variable).Some?
    ensures exists pieces: seq<string> | |pieces| >= 1 ::
      && url == Join(pieces, Placeholder(name))
      && SubstituteEach(url, [(name, variable)]) == Join(pieces, PyStr(Default(variable).value))
  {
    var p := Placeholder(name);
    var pieces := SplitStr(url, p, []);
    SplitStrJoin(url, p, []);
    ReplaceIsSplitJoin(url, p, PyStr(Default(variable).value), []);
    assert [] + url == url;
    assert SubstituteEach(url, [(name, variable)]) == SubstituteOne(url, (name, variable));
    assert [] + Replace(url, p, PyStr(Default(variable).value)) == Replace(url, p, PyStr(Default(variable).value));
  }

  // ---------------------------------------------------------------------
  // derive_base_url
  // ---------------------------------------------------------------------

  /** The first server's `url` and `variables`, when `servers` is a non-empty list starting with such a dict. */
  function FirstServer(raw: Fields): Option<(string, Option<Json>)> {
    match Lookup(raw, "servers")
    case Some(JArr(servers)) =>
      if |servers| > 0 && servers[0].JObj? then
        match StrField(servers[0], "url")
        case Some(u) => Some((u, Get(servers[0], "variables")))
        case None => None
      else None
    case _ => None
  }

  /** `r` is `s` with its trailing `/` characters removed: `s.rstrip("/")`. */
  predicate SlashStripped(r: string, s: string) {
    && |r| <= |s|
    && s[..|r|] == r
    && (forall i | |r| <= i < |s| :: s[i] == '/')
    && (|r| > 0 ==> r[|r| - 1] != '/')
  }

  lemma RStripSlash(s: string)
    ensures SlashStripped(RStripChar(s, '/'), s)
  {
  }

  /** `derive_base_url(openapi_url, raw)` given `origin = _extract_origin(openapi_url)`. */
  function DeriveBaseUrl(origin: string, raw: Fields): (r: Result<string, Raised>)
    ensures r.Ok? ==> |r.value| == 0 || r.value[|r.value| - 1] != '/'
    ensures r.Err? <==>
      FirstServer(raw).Some? && SubstituteServerVariables(FirstServer(raw).value.0, FirstServer(raw).value.1).Err?
  {
    match FirstServer(raw)
    case None => Ok(RStripChar(origin, '/'))
    case Some((u, variables)) =>
      var url :- SubstituteServerVariables(u, variables);
      if StartsWith(url, "/") then Ok(RStripChar(origin + url, '/'))
      else if ContainsStr(url, "://") then Ok(RStripChar(url, '/'))
      else Ok(RStripChar(origin, '/'))
  }

  /**
   * Where the base URL comes from: a server URL starting with `/` is
   * appended to the origin, one containing `://` is used alone, anything
   * else (or no usable server) falls back to the origin; trailing `/`
   * are always dropped.
   */
  lemma DeriveBaseUrlSource(origin: string, raw: Fields)
    requires DeriveBaseUrl(origin, raw).Ok?
    ensures var r := DeriveBaseUrl(origin, raw).value;
      match FirstServer(raw)
      case None => SlashStripped(r, origin)
      case Some((u, variables)) =>
        var url := SubstituteServerVariables(u, variables).value;
        if StartsWith(url, "/") then SlashStripped(r, origin + url)
        else if ContainsStr(url, "://") then SlashStripped(r, url)
        else SlashStripped(r, origin)
  {
    match FirstServer(raw)
    case None => RStripSlash(origin);
    case Some((u, variables)) =>
      var url := SubstituteServerVariables(u, variables).value;
      RStripSlash(origin + url);
      RStripSlash(url);
      RStripSlash(origin);
  }

  // ---------------------------------------------------------------------
  // detect_auth_strategy
  // ---------------------------------------------------------------------

  datatype AuthKind = HttpBearer | ApiKeyHeader | UnknownAuth

  /** `AuthStrategy`: the kind, the header the credential goes in, and the scheme word. */
  datatype AuthStrategy = AuthStrategy(kind: AuthKind, header: string, scheme: Option<string>)

  /** `type == "http"` and `str(scheme).lower() == "bearer"`. */
  predicate IsBearerScheme(s: Json) {
    && s.JObj?
    && Get(s, "type") == Some(JStr("http"))
    && Lower(PyStr(Get(s, "scheme").GetOr(JNull))) == "bearer"
  }

  /** `type == "apiKey"`, `in == "header"` and a string `name`. */
  predicate IsApiKeyHeader(s: Json) {
    && s.JObj?
    && Get(s, "type") == Some(JStr("apiKey"))
    && Get(s, "in") == Some(JStr("header"))
    && StrField(s, "name").Some?
  }

  /** The first loop: is any scheme a bearer one? */
  function ScanBearer(schemes: Fields): (r: bool)
    ensures r <==> exists i | 0 <= i < |schemes| :: IsBearerScheme(schemes[i].1)
    decreases |schemes|
  {
    if |schemes| == 0 then false
    else if IsBearerScheme(schemes[0].1) then true
    else
      var r := ScanBearer(schemes[1..]);
      assert forall i | 1 <= i < |schemes| :: schemes[i] == schemes[1..][i - 1];
      r
  }

  /** The second loop: the header name of the first header apiKey scheme. */
  function ScanApiKey(schemes: Fields): (r: Option<string>)
    ensures r.None? <==> forall i | 0 <= i < |schemes| :: !IsApiKeyHeader(schemes[i].1)
    ensures r.Some? ==> exists i | 0 <= i < |schemes| ::
      && IsApiKeyHeader(schemes[i].1)
      && StrField(schemes[i].1, "name") == r
      && forall j | 0 <= j < i :: !IsApiKeyHeader(schemes[j].1)
    decreases |schemes|
  {
    if |schemes| == 0 then None
    else if IsApiKeyHeader(schemes[0].1) then StrField(schemes[0].1, "name")
    else
      var r := ScanApiKey(schemes[1..]);
      assert forall i | 1 <= i < |schemes| :: schemes[i] == schemes[1..][i - 1];
      r
  }

  const Unknown := AuthStrategy(UnknownAuth, "Authorization", Some("Bearer"))

  /** The choice among the `securitySchemes` members. */
  function ChooseAuth(schemes: Fields): (r: AuthStrategy)
    ensures r.kind == HttpBearer <==> exists i | 0 <= i < |schemes| :: IsBearerScheme(schemes[i].1)
    ensures r.kind == HttpBearer ==> r == AuthStrategy(HttpBearer, "Authorization", Some("Bearer"))
    ensures r.kind == ApiKeyHeader <==>
      && (forall i | 0 <= i < |schemes| :: !IsBearerScheme(schemes[i].1))
      && (exists i | 0 <= i < |schemes| :: IsApiKeyHeader(schemes[i].1))
    ensures r.kind == ApiKeyHeader ==> r.scheme.None? && exists i | 0 <= i < |schemes| ::
      && IsApiKeyHeader(schemes[i].1)
      && StrField(schemes[i].1, "name") == Some(r.header)
      && forall j | 0 <= j < i :: !IsApiKeyHeader(schemes[j].1)
    ensures r.kind == UnknownAuth ==> r == Unknown
  {
    if ScanBearer(schemes) then AuthStrategy(HttpBearer, "Authorization", Some("Bearer"))
    else match ScanApiKey(schemes)
      case Some(name) => AuthStrategy(ApiKeyHeader, name, None)
      case None => Unknown
  }

  /**
   * `detect_auth_strategy(raw)`: `(raw.get("components") or {})` fails on
   * a truthy non-dict; a `securitySchemes` that is not a dict counts as empty.
   */
  function DetectAuthStrategy(raw: Fields): (r: Result<AuthStrategy, Raised>)
    ensures r.Err? <==> match Lookup(raw, "components")
      case Some(c) => AsBool(c) && !c.JObj?
      case None => false
    ensures r.Ok? && DictField(raw, "components").Some? ==>
      r.value == ChooseAuth(DictField(DictField(raw, "components").value, "securitySchemes").GetOr([]))
    ensures r.Ok? && DictField(raw, "components").None? ==> r.value == Unknown
  {
    match Lookup(raw, "components")
    case Some(c) =>
      if AsBool(c) && !c.JObj? then Err(AttributeError("get"))
      else if c.JObj? then Ok(ChooseAuth(DictField(c.fields, "securitySchemes").GetOr([])))
      else Ok(ChooseAuth([]))
    case None => Ok(ChooseAuth([]))
  }

  // ---------------------------------------------------------------------
  // iter_operations
  // ---------------------------------------------------------------------

  /** One `(path, method, path_item, operation)` tuple; `verb` is the lowercased method. */
  datatype RawOp = RawOp(path: string, verb: string, item: Fields, op: Fields)

  /** The operations of one path item, in member order. */
  function OpsOfItem(path: string, item: Fields, members: Fields): (r: seq<RawOp>)
    ensures forall o | o in r :: o.path == path && o.item == item && o.verb in HttpMethods
    ensures forall o | o in r :: exists j | 0 <= j < |members| ::
      Lower(members[j].0) == o.verb && members[j].1 == JObj(o.op)
    ensures forall j | 0 <= j < |members| :: Lower(members[j].0) in HttpMethods && members[j].1.JObj? ==>
      RawOp(path, Lower(members[j].0), item, members[j].1.fields) in r
    decreases |members|
  {
    if |members| == 0 then []
    else
      var (m, op) := members[0];
      var rest := OpsOfItem(path, item, members[1..]);
      assert forall j | 1 <= j < |members| :: members[j] == members[1..][j - 1];
      if Lower(m) in HttpMethods && op.JObj? then [RawOp(path, Lower(m), item, op.fields)] + rest
      else rest
  }

  /** The operations of every path item, path by path. */
  function OpsOfPaths(paths: Fields): (r: seq<RawOp>)
    ensures forall o | o in r :: o.verb in HttpMethods
    ensures forall o | o in r :: exists i | 0 <= i < |paths| ::
      paths[i] == (o.path, JObj(o.item)) && o in OpsOfItem(o.path, o.item, o.item)
    ensures forall i | 0 <= i < |paths| :: paths[i].1.JObj? ==>
      forall o | o in OpsOfItem(paths[i].0, paths[i].1.fields, paths[i].1.fields) :: o in r
    decreases |paths|
  {
    if |paths| == 0 then []
    else
      var (p, item) := paths[0];
      var rest := OpsOfPaths(paths[1..]);
      assert forall i | 1 <= i < |paths| :: paths[i] == paths[1..][i - 1];
      if item.JObj? then OpsOfItem(p, item.fields, item.fields) + rest else rest
  }

  /** `iter_operations(raw)`: a `paths` that is missing, falsy or not a dict yields nothing. */
  function IterOperations(raw: Fields): seq<RawOp> {
    OpsOfPaths(DictField(raw, "paths").GetOr([]))
  }

  /**
   * An operation is enumerated exactly when its path item is a dict
   * under `paths`, its key lowercases to an HTTP method, and its value is
   * a dict; the method is reported lowercased.
   */
  lemma IterOperationsMembers(raw: Fields, o: RawOp)
    ensures o in IterOperations(raw) <==>
      && o.verb in HttpMethods
      && (exists i | 0 <= i < |DictField(raw, "paths").GetOr([])| ::
            DictField(raw, "paths").GetOr([])[i] == (o.path, JObj(o.item)))
      && (exists j | 0 <= j < |o.item| :: Lower(o.item[j].0) == o.verb && o.item[j].1 == JObj(o.op))
  {
    var paths := DictField(raw, "paths").GetOr([]);
    if o in IterOperations(raw) {
      var i :| 0 <= i < |paths| && paths[i] == (o.path, JObj(o.item)) && o in OpsOfItem(o.path, o.item, o.item);
    }
    if && o.verb in HttpMethods
       && (exists i | 0 <= i < |paths| :: paths[i] == (o.path, JObj(o.item)))
       && (exists j | 0 <= j < |o.item| :: Lower(o.item[j].0) == o.verb && o.item[j].1 == JObj(o.op))
    {
      var i :| 0 <= i < |paths| && paths[i] == (o.path, JObj(o.item));
      var j :| 0 <= j < |o.item| && Lower(o.item[j].0) == o.verb && o.item[j].1 == JObj(o.op);
      assert RawOp(o.path, Lower(o.item[j].0), o.item, o.item[j].1.fields) == o;
    }
  }

  // ---------------------------------------------------------------------
  // parse_spec
  // ---------------------------------------------------------------------

  /** `OpenAPIOperation`; `parameters` holds the dict entries, `requestBody` the dict body if any. */
  datatype Operation = Operation(
    operationId: string,
    pythonName: string,
    verb: string,
    path: string,
    summary: Option<string>,
    description: Option<string>,
    parameters: seq<Json>,
    requestBody: Option<Json>,
    requiresAuth: bool,
    deprecated: bool)

  /** `OpenAPISpec`: the operations in insertion order, keyed by their distinct ids. */
  datatype Spec = Spec(openapiUrl: string, baseUrl: string, auth: AuthStrategy, operations: seq<Operation>)

  /** The id an operation asks for: its own non-blank `operationId`, else `"{method}_{path}"`, stripped. */
  function BaseId(o: RawOp): string {
    match StrField(JObj(o.op), "operationId")
    case Some(id) => if AllSpace(id) then Strip(o.verb + "_" + o.path) else Strip(id)
    case None => Strip(o.verb + "_" + o.path)
  }

  predicate IsDict(v: Json) {
    v.JObj?
  }

  /** `[p for p in (path_params + op_params) if isinstance(p, dict)]`. */
  function Parameters(o: RawOp): (r: seq<Json>)
    ensures forall p | p in r :: p.JObj?
  {
    Filter(IsDict, ListField(o.item, "parameters") + ListField(o.op, "parameters"))
  }

  /**
   * `bool(security)`, where `security` is the operation's own value when
   * the key is present (even `[]` or `null`) and the document's otherwise.
   */
  predicate RequiresAuth(op: Fields, globalSecurity: Option<Json>) {
    match Lookup(op, "security")
    case Some(own) => AsBool(own)
    case None => globalSecurity.Some? && AsBool(globalSecurity.value)
  }

  /** The record built for one enumerated operation, given its settled id and Python name. */
  function MakeOperation(o: RawOp, id: string, py: string, globalSecurity: Option<Json>): (r: Operation)
    ensures r.operationId == id && r.pythonName == py && r.verb == o.verb && r.path == o.path
  {
    Operation(
      id, py, o.verb, o.path,
      StrField(JObj(o.op), "summary"),
      StrField(JObj(o.op), "description"),
      Parameters(o),
      match Lookup(o.op, "requestBody") case Some(JObj(b)) => Some(JObj(b)) case _ => None,
      RequiresAuth(o.op, globalSecurity),
      match Lookup(o.op, "deprecated") case Some(d) => AsBool(d) case None => false)
  }

  /** The Python name derived from a settled id, before it is made unique. */
  function PythonBase(id: string): (r: string)
    ensures Identifier(r)
  {
    LowerIdentifier(Sanitize(id));
    Lower(Sanitize(id))
  }

  /** No entry occurs twice. */
  predicate Distinct(names: seq<string>) {
    forall i, j | 0 <= i < j < |names| :: names[i] != names[j]
  }

  /** The entries of a list, as a set. */
  function Elems(names: seq<string>): set<string> {
    set x | x in names
  }

  /**
   * The uniqueness loop of `parse_spec`, for one kind of name: each
   * requested name in turn gets `FreshName` against everything handed out
   * before it. Ids and Python names use separate `used` sets, so they can
   * be assigned one kind after the other.
   */
  function AssignNames(bases: seq<string>, used: set<string>): (r: seq<string>)
    ensures |r| == |bases|
    ensures forall i | 0 <= i < |r| :: r[i] !in used
    decreases |bases|
  {
    if |bases| == 0 then []
    else
      var name := FreshName(bases[0], used);
      [name] + AssignNames(bases[1..], used + {name})
  }

  /** No name is handed out twice. */
  lemma {:induction false} AssignNamesDistinct(bases: seq<string>, used: set<string>)
    ensures Distinct(AssignNames(bases, used))
    decreases |bases|
  {
    if |bases| > 0 {
      var name := FreshName(bases[0], used);
      var rest := AssignNames(bases[1..], used + {name});
      AssignNamesDistinct(bases[1..], used + {name});
      var r := AssignNames(bases, used);
      assert r == [name] + rest;
      forall i, j | 0 <= i < j < |r| ensures r[i] != r[j] {
        assert r[j] == rest[j - 1];
        if i > 0 {
          assert r[i] == rest[i - 1];
        } else {
          assert rest[j - 1] !in used + {name};
        }
      }
    }
  }

  /** Each name is the fresh choice against the initial set and every earlier name. */
  lemma {:induction false} AssignNamesEach(bases: seq<string>, used: set<string>)
    ensures forall i | 0 <= i < |bases| ::
      AssignNames(bases, used)[i] == FreshName(bases[i], used + Elems(AssignNames(bases, used)[..i]))
    decreases |bases|
  {
    if |bases| > 0 {
      var name := FreshName(bases[0], used);
      var rest := AssignNames(bases[1..], used + {name});
      AssignNamesEach(bases[1..], used + {name});
      var r := AssignNames(bases, used);
      assert r == [name] + rest;
      forall i | 0 <= i < |bases| ensures r[i] == FreshName(bases[i], used + Elems(r[..i])) {
        if i == 0 {
          assert r[..0] == [];
          assert Elems(r[..0]) == {};
          assert used + Elems(r[..0]) == used;
        } else {
          assert r[i] == rest[i - 1] && bases[i] == bases[1..][i - 1];
          assert r[..i] == [name] + rest[..i - 1];
          assert Elems(r[..i]) == {name} + Elems(rest[..i - 1]);
          assert used + Elems(r[..i]) == used + {name} + Elems(rest[..i - 1]);
          assert rest[i - 1] == FreshName(bases[1..][i - 1], used + {name} + Elems(rest[..i - 1]));
        }
      }
    }
  }

  /** The ids the operations ask for, in enumeration order. */
  function BaseIds(raws: seq<RawOp>): (r: seq<string>)
    ensures |r| == |raws| && forall i | 0 <= i < |raws| :: r[i] == BaseId(raws[i])
  {
    seq(|raws|, i requires 0 <= i < |raws| => BaseId(raws[i]))
  }

  /** The Python names the settled ids ask for. */
  function PythonBases(ids: seq<string>): (r: seq<string>)
    ensures |r| == |ids| && forall i | 0 <= i < |ids| :: r[i] == PythonBase(ids[i])
  {
    seq(|ids|, i requires 0 <= i < |ids| => PythonBase(ids[i]))
  }

  /** The operation table `parse_spec` builds from the enumerated operations. */
  function Build(raws: seq<RawOp>, globalSecurity: Option<Json>): (r: seq<Operation>)
    ensures |r| == |raws|
  {
    var ids := AssignNames(BaseIds(raws), {});
    var names := AssignNames(PythonBases(ids), {});
    seq(|raws|, i requires 0 <= i < |raws| => MakeOperation(raws[i], ids[i], names[i], globalSecurity))
  }

  /** `parse_spec(openapi_url, raw)`, given the origin of `openapi_url`. */
  function ParseSpec(openapiUrl: string, origin: string, raw: Fields): (r: Result<Spec, Raised>)
    ensures r.Err? <==> DeriveBaseUrl(origin, raw).Err? || DetectAuthStrategy(raw).Err?
    ensures r.Ok? ==> |r.value.operations| == |IterOperations(raw)|
    ensures r.Ok? ==> forall i | 0 <= i < |r.value.operations| ::
      var (o, x) := (r.value.operations[i], IterOperations(raw)[i]);
      && o.verb == x.verb && o.path == x.path
      && o.parameters == Parameters(x)
      && o.requiresAuth == RequiresAuth(x.op, Lookup(raw, "security"))
  {
    var base :- DeriveBaseUrl(origin, raw);
    var auth :- DetectAuthStrategy(raw);
    Ok(Spec(openapiUrl, base, auth, Build(IterOperations(raw), Lookup(raw, "security"))))
  }

  function Ids(ops: seq<Operation>): (r: seq<string>)
    ensures |r| == |ops| && forall i | 0 <= i < |ops| :: r[i] == ops[i].operationId
  {
    seq(|ops|, i requires 0 <= i < |ops| => ops[i].operationId)
  }

  function PythonNames(ops: seq<Operation>): (r: seq<string>)
    ensures |r| == |ops| && forall i | 0 <= i < |ops| :: r[i] == ops[i].pythonName
  {
    seq(|ops|, i requires 0 <= i < |ops| => ops[i].pythonName)
  }

  /** The ids and names of the table are the two `AssignNames` passes. */
  lemma BuildLists(raws: seq<RawOp>, globalSecurity: Option<Json>)
    ensures Ids(Build(raws, globalSecurity)) == AssignNames(BaseIds(raws), {})
    ensures PythonNames(Build(raws, globalSecurity)) == AssignNames(PythonBases(Ids(Build(raws, globalSecurity))), {})
  {
  }

  /**
   * Operation ids are pairwise distinct, and each is the requested id
   * when still free, otherwise its first free `_2`, `_3`, ... variant,
   * given the ids of the operations enumerated before it.
   */
  lemma BuildIds(raws: seq<RawOp>, globalSecurity: Option<Json>)
    ensures Distinct(Ids(Build(raws, globalSecurity)))
    ensures forall i | 0 <= i < |raws| ::
      Ids(Build(raws, globalSecurity))[i] == FreshName(BaseId(raws[i]), Elems(Ids(Build(raws, globalSecurity))[..i]))
  {
    BuildLists(raws, globalSecurity);
    AssignNamesDistinct(BaseIds(raws), {});
    AssignNamesEach(BaseIds(raws), {});
    assert forall x: set<string> :: {} + x == x;
  }

  /**
   * Python names are pairwise distinct identifiers, each the lowercased
   * sanitized id when still free, otherwise its first free numbered variant.
   */
  lemma BuildPythonNames(raws: seq<RawOp>, globalSecurity: Option<Json>)
    ensures Distinct(PythonNames(Build(raws, globalSecurity)))
    ensures forall i | 0 <= i < |raws| ::
      PythonNames(Build(raws, globalSecurity))[i]
        == FreshName(PythonBase(Ids(Build(raws, globalSecurity))[i]), Elems(PythonNames(Build(raws, globalSecurity))[..i]))
  {
    var ids := Ids(Build(raws, globalSecurity));
    var names := PythonNames(Build(raws, globalSecurity));
    BuildLists(raws, globalSecurity);
    AssignNamesDistinct(PythonBases(ids), {});
    AssignNamesEach(PythonBases(ids), {});
    assert forall x: set<string> :: {} + x == x;
  }

  /** Every Python name is an identifier. */
  lemma BuildPythonIdentifiers(raws: seq<RawOp>, globalSecurity: Option<Json>)
    ensures forall i | 0 <= i < |raws| :: Identifier(Build(raws, globalSecurity)[i].pythonName)
  {
    var ops := Build(raws, globalSecurity);
    BuildLists(raws, globalSecurity);
    var names := PythonNames(ops);
    AssignNamesIdentifiers(PythonBases(Ids(ops)), {});
    forall i | 0 <= i < |raws| ensures Identifier(ops[i].pythonName) {
      assert ops[i].pythonName == names[i];
    }
  }

  /** Fresh choices for identifiers are identifiers. */
  lemma {:induction false} AssignNamesIdentifiers(bases: seq<string>, used: set<string>)
    requires forall i | 0 <= i < |bases| :: Identifier(bases[i])
    ensures forall i | 0 <= i < |bases| :: Identifier(AssignNames(bases, used)[i])
    decreases |bases|
  {
    if |bases| > 0 {
      var name := FreshName(bases[0], used);
      FreshIdentifier(bases[0], used);
      AssignNamesIdentifiers(bases[1..], used + {name});
      var rest := AssignNames(bases[1..], used + {name});
      assert AssignNames(bases, used) == [name] + rest;
      assert forall i | 1 <= i < |bases| :: AssignNames(bases, used)[i] == rest[i - 1];
    }
  }

  /** An operation with a non-blank `operationId` asks for it stripped; a missing or blank one asks for `"{method}_{path}"`. */
  lemma BaseIdChoice(o: RawOp)
    ensures var id := StrField(JObj(o.op), "operationId");
      BaseId(o) == if id.Some? && !AllSpace(id.value) then Strip(id.value) else Strip(o.verb + "_" + o.path)
  {
  }

  /** `spec.get(operation_id)`: `None` where Python raises `KeyError`. */
  function FindOperation(ops: seq<Operation>, id: string): (r: Option<Operation>)
    ensures r.Some? ==> r.value in ops && r.value.operationId == id
    ensures r.None? <==> forall i | 0 <= i < |ops| :: ops[i].operationId != id
    decreases |ops|
  {
    if |ops| == 0 then None
    else if ops[0].operationId == id then Some(ops[0])
    else
      var r := FindOperation(ops[1..], id);
      assert forall i | 1 <= i < |ops| :: ops[i] == ops[1..][i - 1];
      r
  }

  /** With distinct ids, every operation of the table is found under its own id. */
  lemma {:induction false} FindOwnOperation(ops: seq<Operation>, i: nat)
    requires i < |ops|
    requires forall a, b | 0 <= a < b < |ops| :: ops[a].operationId != ops[b].operationId
    ensures FindOperation(ops, ops[i].operationId) == Some(ops[i])
    decreases i
  {
    if i > 0 {
      var t := ops[1..];
      assert forall a, b | 0 <= a < b < |t| :: t[a].operationId != t[b].operationId by {
        forall a, b | 0 <= a < b < |t| ensures t[a].operationId != t[b].operationId {
          assert t[a] == ops[a + 1] && t[b] == ops[b + 1];
        }
      }
      assert ops[0].operationId != ops[i].operationId;
      assert t[i - 1] == ops[i];
      FindOwnOperation(t, i - 1);
    }
  }

  // ---------------------------------------------------------------------
  // extract_first_url
  // ---------------------------------------------------------------------

  predicate IsHttpUrl(s: string) {
    StartsWith(s, "http://") || StartsWith(s, "https://")
  }

  /** The keys tried first in a dict, in order. */
  const PreferredKeys: seq<string> := ["url", "authUrl", "auth_url", "authorizationUrl", "authorization_url", "loginUrl", "login_url"]

  /** Some string anywhere in `v` is an http(s) URL. */
  predicate HasUrl(v: Json)
    decreases v
  {
    match v
    case JStr(s) => IsHttpUrl(s)
    case JArr(items) => exists i | 0 <= i < |items| :: HasUrl(items[i])
    case JObj(fields) => exists i | 0 <= i < |fields| :: HasUrl(fields[i].1)
    case _ => false
  }

  /** The string `s` occurs somewhere in `v`. */
  predicate Occurs(v: Json, s: string)
    decreases v
  {
    match v
    case JStr(t) => t == s
    case JArr(items) => exists i | 0 <= i < |items| :: Occurs(items[i], s)
    case JObj(fields) => exists i | 0 <= i < |fields| :: Occurs(fields[i].1, s)
    case _ => false
  }

  /** The position of `key` among the members, or -1. */
  function KeyIndex(fields: Fields, key: string): (i: int)
    ensures -1 <= i < |fields|
    ensures i >= 0 ==> fields[i].0 == key
    ensures Lookup(fields, key) == if i >= 0 then Some(fields[i].1) else None
    decreases |fields|
  {
    if |fields| == 0 then -1
    else if fields[0].0 == key then 0
    else
      var j := KeyIndex(fields[1..], key);
      if j < 0 then -1 else j + 1
  }

  /** `extract_first_url(value)`. */
  function ExtractFirstUrl(v: Json): Option<string>
    decreases v, 2, 0
  {
    match v
    case JStr(s) => if IsHttpUrl(s) then Some(s) else None
    case JArr(items) => FirstInItems(items, 0)
    case JObj(fields) =>
      (match FirstPreferred(fields, 0)
       case Some(u) => Some(u)
       case None => FirstInValues(fields, 0))
    case _ => None
  }

  /** The list loop, from position `i`. */
  function FirstInItems(items: seq<Json>, i: nat): Option<string>
    requires i <= |items|
    decreases JArr(items), 0, |items| - i
  {
    if i == |items| then None
    else match ExtractFirstUrl(items[i])
      case Some(u) => Some(u)
      case None => FirstInItems(items, i + 1)
  }

  /** The loop over the preferred keys, from the `k`-th. */
  function FirstPreferred(fields: Fields, k: nat): Option<string>
    requires k <= |PreferredKeys|
    decreases JObj(fields), 1, |PreferredKeys| - k
  {
    if k == |PreferredKeys| then None
    else
      var i := KeyIndex(fields, PreferredKeys[k]);
      if i < 0 then FirstPreferred(fields, k + 1)
      else match ExtractFirstUrl(fields[i].1)
        case Some(u) => Some(u)
        case None => FirstPreferred(fields, k + 1)
  }

  /** The loop over every value, from position `i`. */
  function FirstInValues(fields: Fields, i: nat): Option<string>
    requires i <= |fields|
    decreases JObj(fields), 0, |fields| - i
  {
    if i == |fields| then None
    else match ExtractFirstUrl(fields[i].1)
      case Some(u) => Some(u)
      case None => FirstInValues(fields, i + 1)
  }

  /** A URL that occurs in `v` makes `v` hold a URL. */
  lemma {:induction false} OccursHasUrl(v: Json, s: string)
    requires Occurs(v, s) && IsHttpUrl(s)
    ensures HasUrl(v)
    decreases v
  {
    match v
    case JStr(_) =>
    case JArr(items) =>
      var i :| 0 <= i < |items| && Occurs(items[i], s);
      OccursHasUrl(items[i], s);
    case JObj(fields) =>
      var i :| 0 <= i < |fields| && Occurs(fields[i].1, s);
      OccursHasUrl(fields[i].1, s);
  }

  /**
   * `extract_first_url` finds something exactly when some string in the
   * value is an http(s) URL, and what it returns is such a string.
   */
  lemma {:induction false} ExtractFirstUrlFinds(v: Json)
    ensures ExtractFirstUrl(v).Some? <==> HasUrl(v)
    ensures ExtractFirstUrl(v).Some? ==> IsHttpUrl(ExtractFirstUrl(v).value) && Occurs(v, ExtractFirstUrl(v).value)
    decreases v, 2, 0
  {
    match v
    case JStr(_) =>
    case JArr(items) => FirstInItemsFinds(items, 0);
    case JObj(fields) =>
      FirstPreferredSound(fields, 0);
      FirstInValuesFinds(fields, 0);
      var u := FirstPreferred(fields, 0);
      if u.Some? {
        var i :| 0 <= i < |fields| && Occurs(fields[i].1, u.value);
        OccursHasUrl(fields[i].1, u.value);
      }
    case _ =>
  }

  lemma {:induction false} FirstInItemsFinds(items: seq<Json>, i: nat)
    requires i <= |items|
    ensures FirstInItems(items, i).Some? <==> exists j | i <= j < |items| :: HasUrl(items[j])
    ensures FirstInItems(items, i).Some? ==>
      IsHttpUrl(FirstInItems(items, i).value) && exists j | i <= j < |items| :: Occurs(items[j], FirstInItems(items, i).value)
    decreases JArr(items), 0, |items| - i
  {
    if i < |items| {
      ExtractFirstUrlFinds(items[i]);
      FirstInItemsFinds(items, i + 1);
    }
  }

  lemma {:induction false} FirstInValuesFinds(fields: Fields, i: nat)
    requires i <= |fields|
    ensures FirstInValues(fields, i).Some? <==> exists j | i <= j < |fields| :: HasUrl(fields[j].1)
    ensures FirstInValues(fields, i).Some? ==>
      IsHttpUrl(FirstInValues(fields, i).value) && exists j | i <= j < |fields| :: Occurs(fields[j].1, FirstInValues(fields, i).value)
    decreases JObj(fields), 0, |fields| - i
  {
    if i < |fields| {
      ExtractFirstUrlFinds(fields[i].1);
      FirstInValuesFinds(fields, i + 1);
    }
  }

  lemma {:induction false} FirstPreferredSound(fields: Fields, k: nat)
    requires k <= |PreferredKeys|
    ensures FirstPreferred(fields, k).Some? ==>
      IsHttpUrl(FirstPreferred(fields, k).value) && exists j | 0 <= j < |fields| :: Occurs(fields[j].1, FirstPreferred(fields, k).value)
    decreases JObj(fields), 1, |PreferredKeys| - k
  {
    if k < |PreferredKeys| {
      var i := KeyIndex(fields, PreferredKeys[k]);
      FirstPreferredSound(fields, k + 1);
      if i >= 0 {
        ExtractFirstUrlFinds(fields[i].1);
      }
    }
  }

  /**
   * In a dict, a preferred key whose value holds a URL wins over every
   * other member, and the earliest such preferred key wins among them.
   */
  lemma {:induction false} ExtractPrefersKeys(fields: Fields, k: nat)
    requires k < |PreferredKeys|
    requires Lookup(fields, PreferredKeys[k]).Some? && HasUrl(Lookup(fields, PreferredKeys[k]).value)
    requires forall m | 0 <= m < k :: !(Lookup(fields, PreferredKeys[m]).Some? && HasUrl(Lookup(fields, PreferredKeys[m]).value))
    ensures ExtractFirstUrl(JObj(fields)) == ExtractFirstUrl(Lookup(fields, PreferredKeys[k]).value)
  {
    PreferredSkips(fields, 0, k);
    var i := KeyIndex(fields, PreferredKeys[k]);
    ExtractFirstUrlFinds(fields[i].1);
  }

  lemma {:induction false} PreferredSkips(fields: Fields, m: nat, k: nat)
    requires m <= k < |PreferredKeys|
    requires forall n | m <= n < k :: !(Lookup(fields, PreferredKeys[n]).Some? && HasUrl(Lookup(fields, PreferredKeys[n]).value))
    ensures FirstPreferred(fields, m) == FirstPreferred(fields, k)
    decreases k - m
  {
    if m < k {
      var i := KeyIndex(fields, PreferredKeys[m]);
      if i >= 0 {
        ExtractFirstUrlFinds(fields[i].1);
      }
      PreferredSkips(fields, m + 1, k);
    }
  }

  /** In a list, the first item holding a URL supplies it. */
  lemma ExtractFirstItem(items: seq<Json>, i: nat)
    requires i < |items| && HasUrl(items[i])
    requires forall j | 0 <= j < i :: !HasUrl(items[j])
    ensures ExtractFirstUrl(JArr(items)) == ExtractFirstUrl(items[i])
  {
    ItemsSkip(items, 0, i);
    ExtractFirstUrlFinds(items[i]);
  }

  lemma {:induction false} ItemsSkip(items: seq<Json>, m: nat, i: nat)
    requires m <= i < |items|
    requires forall j | m <= j < i :: !HasUrl(items[j])
    ensures FirstInItems(items, m) == FirstInItems(items, i)
    decreases i - m
  {
    if m < i {
      ExtractFirstUrlFinds(items[m]);
      ItemsSkip(items, m + 1, i);
    }
  }
}
