/**
 * JSON values as `json.loads` hands them to the parsers of release
 * payloads and OpenAPI documents. Numbers are integers only; an object
 * is its list of members in document order.
 */
module Json {
  import opened Wrappers
  import opened Strs

  datatype Json =
    | JNull
    | JBool(b: bool)
    | JNum(n: int)
    | JStr(s: string)
    | JArr(items: seq<Json>)
    | JObj(fields: seq<(string, Json)>)

  /** The value bound to `key`: the first binding, which for a decoded object is the only one. */
  function Lookup(fields: seq<(string, Json)>, key: string): Option<Json>
    decreases |fields|
  {
    if |fields| == 0 then None
    else if fields[0].0 == key then Some(fields[0].1)
    else Lookup(fields[1..], key)
  }

  /** A key is found exactly when some member carries it, and what is found is bound to it. */
  lemma {:induction false} LookupFound(fields: seq<(string, Json)>, key: string)
    ensures Lookup(fields, key).Some? <==> exists i | 0 <= i < |fields| :: fields[i].0 == key
    ensures Lookup(fields, key).Some? ==> (key, Lookup(fields, key).value) in fields
    decreases |fields|
  {
    if |fields| > 0 && fields[0].0 != key {
      LookupFound(fields[1..], key);
      assert forall i | 1 <= i < |fields| :: fields[i] == fields[1..][i - 1];
    }
  }

  /** `obj.get(key)`: `None` when `j` is not a dict or has no such key. */
  function Get(j: Json, key: string): Option<Json> {
    if j.JObj? then Lookup(j.fields, key) else None
  }

  /** `key in obj` for a dict. */
  predicate Has(j: Json, key: string) {
    Get(j, key).Some?
  }

  /** `obj.get(key)` when it `isinstance(..., str)`. */
  function StrField(j: Json, key: string): Option<string> {
    match Get(j, key)
    case Some(JStr(s)) => Some(s)
    case _ => None
  }

  /** `s.strip() or None`: the stripped text when something is left. */
  function NonBlank(s: string): (r: Option<string>)
    ensures r.Some? ==> r.value != [] && Strip(r.value) == r.value
    ensures r.Some? <==> !AllSpace(s)
    ensures r.Some? ==> r.value == Strip(s)
  {
    StripEmpty(s);
    StripIdempotent(s);
    if Strip(s) == [] then None else Some(Strip(s))
  }

  /**
   * `v.strip() if isinstance(v, str) and v.strip() else None` for the
   * field `key`.
   */
  function CleanField(j: Json, key: string): Option<string> {
    match StrField(j, key)
    case Some(s) => NonBlank(s)
    case None => None
  }

  /** Python's `bool(value)` on a decoded JSON value. */
  predicate AsBool(j: Json) {
    match j
    case JNull => false
    case JBool(b) => b
    case JNum(n) => n != 0
    case JStr(s) => s != []
    case JArr(items) => items != []
    case JObj(fields) => fields != []
  }

  /** A well-formed object, as decoding produces it: no key is bound twice. */
  predicate UniqueKeys(fields: seq<(string, Json)>) {
    forall i, j | 0 <= i < j < |fields| :: fields[i].0 != fields[j].0
  }

  /** In an object without repeated keys, a member is found under its own key. */
  lemma {:induction false} LookupMember(fields: seq<(string, Json)>, i: nat)
    requires UniqueKeys(fields) && i < |fields|
    ensures Lookup(fields, fields[i].0) == Some(fields[i].1)
    decreases |fields|
  {
    if i > 0 {
      assert fields[0].0 != fields[i].0;
      var t := fields[1..];
      assert UniqueKeys(t) by {
        forall a, b | 0 <= a < b < |t| ensures t[a].0 != t[b].0 {
          assert t[a] == fields[a + 1] && t[b] == fields[b + 1];
        }
      }
      assert t[i - 1] == fields[i];
      LookupMember(t, i - 1);
    }
  }

  /** A key bound in the first part of a member list is looked up there; otherwise in the second. */
  lemma {:induction false} LookupAppend(a: seq<(string, Json)>, b: seq<(string, Json)>, key: string)
    ensures Lookup(a + b, key) == if Lookup(a, key).Some? then Lookup(a, key) else Lookup(b, key)
    decreases |a|
  {
    if |a| > 0 {
      assert (a + b)[0] == a[0];
      assert (a + b)[1..] == a[1..] + b;
      LookupAppend(a[1..], b, key);
    } else {
      assert a + b == b;
    }
  }

  lemma LookupCons(k: string, v: Json, rest: seq<(string, Json)>, key: string)
    ensures Lookup([(k, v)] + rest, key) == if k == key then Some(v) else Lookup(rest, key)
  {
    assert ([(k, v)] + rest)[1..] == rest;
  }
}
