/**
 * Version requirements (local_skills.py:108-110 and 185-295): a
 * specifier is a list of tokens separated by whitespace or commas; caret
 * and tilde tokens expand into a lower and an upper bound; every other
 * token is a comparator `[op] version`, or `latest` / `*`; a version
 * satisfies a specifier when it satisfies every token.
 */
module Specifiers {
  import opened Wrappers
  import opened Strs
  import opened Versions
  import opened Errors

  /** `normalize_requirement`: the stripped text, or `latest` when there is none. */
  function NormalizeRequirement(value: Option<string>): (r: string)
    ensures r != [] && Strip(r) == r
    ensures value.Some? && !AllSpace(value.value) ==> r == Strip(value.value)
    ensures value.None? || AllSpace(value.value) ==> r == "latest"
  {
    LatestStripped();
    match value
    case None => "latest"
    case Some(v) =>
      var raw := Strip(v);
      StripIdempotent(v);
      StripEmpty(v);
      if raw == [] then "latest" else raw
  }

  /** A requirement with no surrounding whitespace is kept as it is. */
  lemma NormalizeKeeps(s: string)
    requires |s| > 0 && !IsSpace(s[0]) && !IsSpace(s[|s| - 1])
    ensures NormalizeRequirement(Some(s)) == s
  {
    StripNoop(s);
  }

  /** A no-break space alone is a blank requirement, as `str.strip` sees it. */
  lemma NoBreakSpaceIsLatest()
    ensures NormalizeRequirement(Some("\U{A0}")) == "latest"
  {
    var s := "\U{A0}";
    assert IsSpace(s[0]);
    assert AllSpace(s);
  }

  /** The default requirement is already stripped. */
  lemma LatestStripped()
    ensures Strip("latest") == "latest"
  {
    var s := "latest";
    assert s[0] == 'l' && s[|s| - 1] == 't';
    StripNoop(s);
  }

  // ---------------------------------------------------------------------
  // The comparator pattern ^(>=|<=|>|<|==|=)?\s*([0-9A-Za-z][0-9A-Za-z.\-+]*)$
  // ---------------------------------------------------------------------

  datatype Op = Ge | Le | Gt | Lt | EqEq | Eq

  function OpText(op: Op): string {
    match op
    case Ge => ">="
    case Le => "<="
    case Gt => ">"
    case Lt => "<"
    case EqEq => "=="
    case Eq => "="
  }

  /** The operator alternatives, in the order the pattern tries them. */
  const Ops: seq<Op> := [Ge, Le, Gt, Lt, EqEq, Eq]

  predicate RhsChar(c: char) {
    IsAlnum(c) || c == '.' || c == '-' || c == '+'
  }

  /** The version group `[0-9A-Za-z][0-9A-Za-z.\-+]*`, matched to the end of the string. */
  predicate IsRhs(s: string) {
    |s| > 0 && IsAlnum(s[0]) && forall i | 0 <= i < |s| :: RhsChar(s[i])
  }

  /** A successful match: the operator group (absent when it did not take part) and the version. */
  datatype Comparator = Comparator(op: Option<Op>, rhs: string)

  function OptText(op: Option<Op>): string {
    match op
    case None => ""
    case Some(o) => OpText(o)
  }

  /** `s` is the operator text, some whitespace, then the version, and nothing else. */
  predicate Shaped(s: string, c: Comparator) {
    var n := |OptText(c.op)|;
    IsRhs(c.rhs) && n + |c.rhs| <= |s| && s[..n] == OptText(c.op)
    && AllSpace(s[n..|s| - |c.rhs|]) && s[|s| - |c.rhs|..] == c.rhs
  }

  /** Operator text, whitespace and a version, put together, have the comparator's shape. */
  lemma JoinedShape(s: string, op: Option<Op>, w: string, rhs: string)
    requires s == OptText(op) + w + rhs && AllSpace(w) && IsRhs(rhs)
    ensures Shaped(s, Comparator(op, rhs))
  {
    var n := |OptText(op)|;
    assert s[..n] == OptText(op);
    assert s[n..|s| - |rhs|] == w;
    assert s[|s| - |rhs|..] == rhs;
  }

  /** What follows the operator is whitespace `rest[..m]`, then the version `rest[m..]`. */
  lemma SplitShape(s: string, op: Option<Op>, rest: string, m: nat)
    requires StartsWith(s, OptText(op)) && rest == s[|OptText(op)|..] && m <= |rest|
    requires AllSpace(rest[..m]) && IsRhs(rest[m..])
    ensures Shaped(s, Comparator(op, rest[m..]))
  {
    SliceJoin(rest, m);
    SliceJoin(s, |OptText(op)|);
    JoinedShape(s, op, rest[..m], rest[m..]);
  }

  lemma TrimmedShape(s: string, op: Option<Op>)
    requires StartsWith(s, OptText(op)) && IsRhs(TrimLeft(s[|OptText(op)|..]))
    ensures Shaped(s, Comparator(op, TrimLeft(s[|OptText(op)|..])))
  {
    var rest := s[|OptText(op)|..];
    TrimLeftRemoved(rest);
    SplitShape(s, op, rest, |rest| - |TrimLeft(rest)|);
  }

  /** Tries the operator alternatives `ops` in turn, then the pattern without an operator. */
  function MatchFrom(s: string, ops: seq<Op>): Option<Comparator> {
    if |ops| == 0 then
      if IsRhs(TrimLeft(s)) then Some(Comparator(None, TrimLeft(s))) else None
    else
      var p := OpText(ops[0]);
      if StartsWith(s, p) && IsRhs(TrimLeft(s[|p|..])) then Some(Comparator(Some(ops[0]), TrimLeft(s[|p|..])))
      else MatchFrom(s, ops[1..])
  }

  lemma {:induction false} MatchFromShaped(s: string, ops: seq<Op>)
    requires MatchFrom(s, ops).Some?
    ensures Shaped(s, MatchFrom(s, ops).value)
  {
    if |ops| == 0 {
      assert s[|OptText(None)|..] == s;
      TrimmedShape(s, None);
    } else if StartsWith(s, OpText(ops[0])) && IsRhs(TrimLeft(s[|OpText(ops[0])|..])) {
      TrimmedShape(s, Some(ops[0]));
    } else {
      MatchFromShaped(s, ops[1..]);
    }
  }

  /** `_COMPARATOR_RE.match(s)` on a stripped token. */
  function MatchComparator(s: string): Option<Comparator> {
    MatchFrom(s, Ops)
  }

  /** A match splits the token into the operator, whitespace and a version of the pattern's version group. */
  lemma MatchComparatorShaped(s: string)
    requires MatchComparator(s).Some?
    ensures Shaped(s, MatchComparator(s).value)
  {
    MatchFromShaped(s, Ops);
  }

  lemma SkipOp(s: string, ops: seq<Op>)
    requires |ops| > 0 && |s| > 0 && s[0] != OpText(ops[0])[0]
    ensures MatchFrom(s, ops) == MatchFrom(s, ops[1..])
  {
    var p := OpText(ops[0]);
    assert !StartsWith(s, p) by {
      if |p| <= |s| {
        assert s[..|p|][0] == s[0];
      }
    }
  }

  lemma SkipSecond(s: string, ops: seq<Op>)
    requires |ops| > 0 && |OpText(ops[0])| == 2 && |s| > 1 && s[1] != OpText(ops[0])[1]
    ensures MatchFrom(s, ops) == MatchFrom(s, ops[1..])
  {
    var p := OpText(ops[0]);
    assert !StartsWith(s, p) by {
      assert s[..2][1] == s[1];
    }
  }

  lemma RhsTrimmed(w: string, rhs: string)
    requires AllSpace(w) && IsRhs(rhs)
    ensures TrimLeft(w + rhs) == rhs
  {
    TrimLeftSpacePrefix(w, rhs);
    AlnumNotSpace(rhs[0]);
  }

  lemma TakeOp(s: string, ops: seq<Op>, w: string, rhs: string)
    requires |ops| > 0 && AllSpace(w) && IsRhs(rhs) && s == OpText(ops[0]) + w + rhs
    ensures MatchFrom(s, ops) == Some(Comparator(Some(ops[0]), rhs))
  {
    var n := |OpText(ops[0])|;
    assert s[..n] == OpText(ops[0]);
    assert s[n..] == w + rhs;
    RhsTrimmed(w, rhs);
  }

  /** Whitespace and letters or digits never begin an operator. */
  lemma NotOpStart(c: char, op: Op)
    requires IsSpace(c) || IsAlnum(c)
    ensures c != OpText(op)[0]
  {
  }

  /** `s` is whitespace followed by a version: no operator alternative can start it. */
  lemma {:induction false} NoOperatorStart(w: string, rhs: string, ops: seq<Op>)
    requires AllSpace(w) && IsRhs(rhs)
    ensures MatchFrom(w + rhs, ops) == Some(Comparator(None, rhs))
    decreases |ops|
  {
    var s := w + rhs;
    RhsTrimmed(w, rhs);
    if |ops| > 0 {
      var c := if |w| > 0 then w[0] else rhs[0];
      assert s[0] == c;
      NotOpStart(c, ops[0]);
      SkipOp(s, ops);
      NoOperatorStart(w, rhs, ops[1..]);
    }
  }

  /** The pattern reads an operator, whitespace and a version back. */
  lemma MatchComparatorOp(op: Op, w: string, rhs: string)
    requires AllSpace(w) && IsRhs(rhs)
    ensures MatchComparator(OpText(op) + w + rhs) == Some(Comparator(Some(op), rhs))
  {
    var s := OpText(op) + w + rhs;
    var n := |OpText(op)|;
    assert s[0] == OpText(op)[0];
    assert s[n] == (if |w| > 0 then w[0] else rhs[0]);
    var o1 := Ops[1..];
    var o2 := o1[1..];
    var o3 := o2[1..];
    var o4 := o3[1..];
    var o5 := o4[1..];
    match op {
      case Ge =>
        TakeOp(s, Ops, w, rhs);
      case Le =>
        SkipOp(s, Ops);
        TakeOp(s, o1, w, rhs);
      case Gt =>
        SkipSecond(s, Ops);
        SkipOp(s, o1);
        TakeOp(s, o2, w, rhs);
      case Lt =>
        SkipOp(s, Ops);
        SkipSecond(s, o1);
        SkipOp(s, o2);
        TakeOp(s, o3, w, rhs);
      case EqEq =>
        SkipOp(s, Ops);
        SkipOp(s, o1);
        SkipOp(s, o2);
        SkipOp(s, o3);
        TakeOp(s, o4, w, rhs);
      case Eq =>
        SkipOp(s, Ops);
        SkipOp(s, o1);
        SkipOp(s, o2);
        SkipOp(s, o3);
        SkipSecond(s, o4);
        TakeOp(s, o5, w, rhs);
    }
  }

  /** Without an operator the pattern reads whitespace and a version, and the operator group is absent. */
  lemma MatchComparatorBare(w: string, rhs: string)
    requires AllSpace(w) && IsRhs(rhs)
    ensures MatchComparator(w + rhs) == Some(Comparator(None, rhs))
  {
    NoOperatorStart(w, rhs, Ops);
  }

  // ---------------------------------------------------------------------
  // Caret and tilde expansion, and the token list
  // ---------------------------------------------------------------------

  /** `f"{a}.{b}.{c}"` for a numeric core. */
  function CoreText(core: seq<nat>): string {
    Join(NumStrings(core), ".")
  }

  /**
   * The first three core numbers of the base after the `^` or `~`, or the
   * error the token raises when the base does not parse.
   */
  function BaseCore(token: string): (r: Result<seq<nat>, Error>)
    ensures r.Ok? ==> |r.value| == 3
    ensures r.Err? ==> r.error == InvalidRequirement(token)
  {
    var base := Strip(if |token| == 0 then [] else token[1..]);
    match SplitVersion(base)
    case None => Err(InvalidRequirement(token))
    case Some(v) => Ok(v.core[..3])
  }

  /** The exclusive upper bound of `^M.m.p`. */
  function CaretUpper(b: seq<nat>): (u: seq<nat>)
    requires |b| == 3
    ensures |u| == 3
  {
    if b[0] > 0 then [b[0] + 1, 0, 0]
    else if b[1] > 0 then [0, b[1] + 1, 0]
    else [0, 0, b[2] + 1]
  }

  /** The exclusive upper bound of `~M.m.p`. */
  function TildeUpper(b: seq<nat>): (u: seq<nat>)
    requires |b| == 3
    ensures |u| == 3
  {
    [b[0], b[1] + 1, 0]
  }

  /** `_expand_caret`, with the `ValueError` turned into the error `_split_specifier` raises. */
  function ExpandCaret(token: string): (r: Result<seq<string>, Error>)
    ensures r.Err? <==> BaseCore(token).Err?
    ensures r.Err? ==> r.error.InvalidRequirement?
  {
    var b :- BaseCore(token);
    Ok([">=" + CoreText(b), "<" + CoreText(CaretUpper(b))])
  }

  /** `_expand_tilde`, likewise. */
  function ExpandTilde(token: string): (r: Result<seq<string>, Error>)
    ensures r.Err? <==> BaseCore(token).Err?
    ensures r.Err? ==> r.error.InvalidRequirement?
  {
    var b :- BaseCore(token);
    Ok([">=" + CoreText(b), "<" + CoreText(TildeUpper(b))])
  }

  predicate Expands(token: string) {
    StartsWith(token, "^") || StartsWith(token, "~")
  }

  /** One token of the specifier: carets and tildes expand, anything else stays as it is. */
  function ExpandToken(token: string): (r: Result<seq<string>, Error>)
    ensures !Expands(token) ==> r == Ok([token])
    ensures r.Ok? ==> |r.value| > 0
    ensures r.Err? ==> r.error.InvalidRequirement?
  {
    if StartsWith(token, "^") then ExpandCaret(token)
    else if StartsWith(token, "~") then ExpandTilde(token)
    else Ok([token])
  }

  /** The expansion loop of `_split_specifier`: the first failing token raises. */
  function ExpandTokens(tokens: seq<string>): (r: Result<seq<string>, Error>)
    ensures r.Ok? ==> |r.value| >= |tokens|
    ensures r.Err? ==> r.error.InvalidRequirement?
  {
    if |tokens| == 0 then Ok([])
    else
      var first :- ExpandToken(tokens[0]);
      var rest :- ExpandTokens(tokens[1..]);
      Ok(first + rest)
  }

  /** Tokens without a leading `^` or `~` pass through unchanged. */
  lemma {:induction false} ExpandTokensPlain(tokens: seq<string>)
    requires forall i | 0 <= i < |tokens| :: !Expands(tokens[i])
    ensures ExpandTokens(tokens) == Ok(tokens)
  {
    if |tokens| > 0 {
      ExpandTokensPlain(tokens[1..]);
      assert tokens == [tokens[0]] + tokens[1..];
    }
  }

  /** The token list of a word list: `["latest"]` when there are no words. */
  function TokensOf(words: seq<string>): (r: Result<seq<string>, Error>)
    ensures r.Err? ==> r.error.InvalidRequirement?
  {
    if words == [] then Ok(["latest"]) else ExpandTokens(words)
  }

  /** `_split_specifier`. */
  function SplitSpecifier(spec: string): (r: Result<seq<string>, Error>)
    ensures r.Ok? ==> |r.value| > 0
    ensures r.Err? ==> r.error.InvalidRequirement?
  {
    var s := Strip(spec);
    if s == [] then Ok(["latest"])
    else TokensOf(SplitWhitespace(MapChar(s, ',', ' ')))
  }

  // ---------------------------------------------------------------------
  // Matching a version against a specifier
  // ---------------------------------------------------------------------

  function OpHolds(op: Op, c: int): bool {
    match op
    case Eq => c == 0
    case EqEq => c == 0
    case Gt => c > 0
    case Ge => c >= 0
    case Lt => c < 0
    case Le => c <= 0
  }

  /** `latest` and `*` in any letter case. */
  predicate IsWildcard(token: string) {
    IsWildcardText(Strip(token))
  }

  predicate IsWildcardText(t: string) {
    Lower(t) == "latest" || Lower(t) == "*"
  }

  /** The body of the loop in `version_satisfies`, on the stripped token. */
  predicate TokenHolds(version: string, token: string) {
    Holds(version, Strip(token))
  }

  /** A wildcard holds; a token that does not match the pattern fails; otherwise the operator decides. */
  predicate Holds(version: string, t: string) {
    IsWildcardText(t)
    || match MatchComparator(t)
       case None => false
       case Some(c) => OpHolds(c.op.GetOr(Eq), CompareVersions(version, c.rhs))
  }

  predicate AllHold(version: string, tokens: seq<string>) {
    forall i | 0 <= i < |tokens| :: TokenHolds(version, tokens[i])
  }

  /** `version_satisfies`: every token holds; a bad caret or tilde base raises first. */
  function VersionSatisfies(version: string, spec: string): (r: Result<bool, Error>)
    ensures r.Err? <==> SplitSpecifier(spec).Err?
    ensures r.Err? ==> r.error.InvalidRequirement?
  {
    var tokens :- SplitSpecifier(spec);
    Ok(AllHold(version, tokens))
  }

  /** A version satisfies a specifier exactly when every expanded token holds. */
  lemma VersionSatisfiesMeaning(version: string, spec: string)
    requires SplitSpecifier(spec).Ok?
    ensures VersionSatisfies(version, spec).Ok?
    ensures VersionSatisfies(version, spec).value
      <==> forall t | t in SplitSpecifier(spec).value :: TokenHolds(version, t)
  {
    var tokens := SplitSpecifier(spec).value;
    if !AllHold(version, tokens) {
      var i :| 0 <= i < |tokens| && !TokenHolds(version, tokens[i]);
      assert tokens[i] in tokens;
    }
  }

  /** `_extract_exact_version`: the version of a lone `=`/`==`/bare comparator, if that is all there is. */
  function ExtractExactVersion(spec: string): (r: Result<Option<string>, Error>)
    ensures r.Err? <==> SplitSpecifier(spec).Err?
    ensures r.Ok? && r.value.Some? ==> IsRhs(r.value.value)
  {
    var tokens :- SplitSpecifier(spec);
    if |tokens| != 1 then Ok(None) else Ok(PinOf(Strip(tokens[0])))
  }

  /** The pinned version of one stripped token. */
  function PinOf(token: string): (r: Option<string>)
    ensures r.Some? ==> IsRhs(r.value)
  {
    if token == [] || IsWildcardText(token) then None
    else if StartsWith(token, "^") || StartsWith(token, "~") || StartsWith(token, ">") || StartsWith(token, "<") then None
    else
      match MatchComparator(token)
      case None => None
      case Some(c) =>
        MatchComparatorShaped(token);
        if c.op.GetOr(Eq) == Eq || c.op.GetOr(Eq) == EqEq then Some(c.rhs) else None
  }

  // ---------------------------------------------------------------------
  // Properties
  // ---------------------------------------------------------------------

  /** Normalising twice is normalising once. */
  lemma NormalizeIdempotent(value: Option<string>)
    ensures NormalizeRequirement(Some(NormalizeRequirement(value))) == NormalizeRequirement(value)
  {
    var r := NormalizeRequirement(value);
    StripEmpty(r);
  }

  lemma MapCharConcat(a: string, b: string)
    ensures MapChar(a + b, ',', ' ') == MapChar(a, ',', ' ') + MapChar(b, ',', ' ')
  {
  }

  lemma MapCharNoComma(s: string)
    requires ',' !in s
    ensures MapChar(s, ',', ' ') == s
  {
  }

  /** The token list depends only on the words of the specifier once commas become spaces. */
  lemma SplitSpecifierWords(spec: string)
    ensures SplitSpecifier(spec) == TokensOf(SplitWhitespace(MapChar(spec, ',', ' ')))
  {
    var l, r := StripParts(spec);
    var x := Strip(spec);
    MapCharConcat(l + x, r);
    MapCharConcat(l, x);
    MapCharNoComma(l);
    MapCharNoComma(r);
    assert MapChar(spec, ',', ' ') == l + MapChar(x, ',', ' ') + r;
    SplitWhitespaceSurrounding(l, MapChar(x, ',', ' '), r);
    if x == [] {
      assert MapChar(x, ',', ' ') == [];
      assert SplitWhitespace([]) == [];
    }
  }

  /** Commas separate tokens exactly as whitespace does. */
  lemma CommasAreWhitespace(a: string, b: string)
    ensures SplitSpecifier(a + "," + b) == SplitSpecifier(a + " " + b)
  {
    SplitSpecifierWords(a + "," + b);
    SplitSpecifierWords(a + " " + b);
    CommaMapsToSpace(a, b);
  }

  lemma CommaMapsToSpace(a: string, b: string)
    ensures MapChar(a + "," + b, ',', ' ') == MapChar(a + " " + b, ',', ' ')
  {
    var p := MapChar(a + "," + b, ',', ' ');
    var q := MapChar(a + " " + b, ',', ' ');
    forall i | 0 <= i < |p| ensures p[i] == q[i] {
      if i < |a| {
        assert (a + "," + b)[i] == a[i] == (a + " " + b)[i];
      } else if i > |a| {
        assert (a + "," + b)[i] == b[i - |a| - 1] == (a + " " + b)[i];
      }
    }
  }

  /** Both token lists, or the first error. */
  function Concat(x: Result<seq<string>, Error>, y: Result<seq<string>, Error>): Result<seq<string>, Error> {
    match x
    case Err(e) => Err(e)
    case Ok(p) =>
      match y
      case Err(e) => Err(e)
      case Ok(q) => Ok(p + q)
  }

  lemma ConcatAssoc(x: Result<seq<string>, Error>, y: Result<seq<string>, Error>, z: Result<seq<string>, Error>)
    ensures Concat(x, Concat(y, z)) == Concat(Concat(x, y), z)
  {
    if x.Ok? && y.Ok? && z.Ok? {
      assert x.value + (y.value + z.value) == (x.value + y.value) + z.value;
    }
  }

  lemma ExpandTokensUnfold(tokens: seq<string>)
    requires |tokens| > 0
    ensures ExpandTokens(tokens) == Concat(ExpandToken(tokens[0]), ExpandTokens(tokens[1..]))
  {
  }

  /** Expanding a concatenation expands each part, and the first failure wins. */
  lemma {:induction false} ExpandTokensConcat(a: seq<string>, b: seq<string>)
    ensures ExpandTokens(a + b) == Concat(ExpandTokens(a), ExpandTokens(b))
  {
    if |a| == 0 {
      assert a + b == b;
      if ExpandTokens(b).Ok? {
        assert [] + ExpandTokens(b).value == ExpandTokens(b).value;
      }
    } else {
      assert (a + b)[0] == a[0];
      assert (a + b)[1..] == a[1..] + b;
      ExpandTokensUnfold(a + b);
      ExpandTokensUnfold(a);
      ExpandTokensConcat(a[1..], b);
      ConcatAssoc(ExpandToken(a[0]), ExpandTokens(a[1..]), ExpandTokens(b));
    }
  }

  lemma LatestHolds(version: string)
    ensures TokenHolds(version, "latest")
  {
    LatestText("latest");
  }

  lemma LatestText(t: string)
    requires t == "latest"
    ensures Strip(t) == t && IsWildcardText(t)
  {
    LatestStrip(t);
    LatestLower(t);
  }

  lemma LatestStrip(t: string)
    requires t == "latest"
    ensures Strip(t) == t
  {
    assert t[0] == 'l' && t[|t| - 1] == 't';
    StripNoop(t);
  }

  lemma LatestLower(t: string)
    requires t == "latest"
    ensures Lower(t) == t
  {
  }

  lemma AllHoldConcat(version: string, a: seq<string>, b: seq<string>)
    ensures AllHold(version, a + b) <==> AllHold(version, a) && AllHold(version, b)
  {
    if AllHold(version, a) && AllHold(version, b) {
      forall i | 0 <= i < |a + b| ensures TokenHolds(version, (a + b)[i]) {
        if i >= |a| {
          assert (a + b)[i] == b[i - |a|];
        }
      }
    }
    if AllHold(version, a + b) {
      forall i | 0 <= i < |a| ensures TokenHolds(version, a[i]) {
        assert (a + b)[i] == a[i];
      }
      forall i | 0 <= i < |b| ensures TokenHolds(version, b[i]) {
        assert (a + b)[|a| + i] == b[i];
      }
    }
  }

  /** Satisfying the token lists of two word lists, one after the other. */
  lemma TokensOfConcat(version: string, wa: seq<string>, wb: seq<string>)
    requires TokensOf(wa).Ok? && TokensOf(wb).Ok?
    ensures TokensOf(wa + wb).Ok?
    ensures AllHold(version, TokensOf(wa + wb).value)
        <==> AllHold(version, TokensOf(wa).value) && AllHold(version, TokensOf(wb).value)
  {
    LatestHolds(version);
    if wa == [] {
      assert wa + wb == wb;
    } else if wb == [] {
      assert wa + wb == wa;
    } else {
      ExpandTokensConcat(wa, wb);
      assert TokensOf(wa + wb) == Concat(TokensOf(wa), TokensOf(wb));
      AllHoldConcat(version, TokensOf(wa).value, TokensOf(wb).value);
    }
  }

  /** The result of matching `version` against the tokens of a word list. */
  function HoldsFor(version: string, words: seq<string>): Result<bool, Error> {
    match TokensOf(words)
    case Err(e) => Err(e)
    case Ok(t) => Ok(AllHold(version, t))
  }

  lemma VersionSatisfiesWords(version: string, spec: string)
    ensures VersionSatisfies(version, spec) == HoldsFor(version, SplitWhitespace(MapChar(spec, ',', ' ')))
  {
    SplitSpecifierWords(spec);
  }

  lemma WordsOfJoin(a: string, b: string)
    ensures SplitWhitespace(MapChar(a + " " + b, ',', ' '))
         == SplitWhitespace(MapChar(a, ',', ' ')) + SplitWhitespace(MapChar(b, ',', ' '))
  {
    MapCharConcat(a + " ", b);
    MapCharConcat(a, " ");
    assert MapChar(" ", ',', ' ') == " ";
    SplitWhitespaceConcat(MapChar(a, ',', ' '), MapChar(b, ',', ' '));
  }

  /**
   * Joining two specifiers with a space is their conjunction; an error
   * in the first, and then in the second, takes precedence.
   */
  lemma SatisfiesConjunction(version: string, a: string, b: string)
    ensures VersionSatisfies(version, a).Err? ==> VersionSatisfies(version, a + " " + b) == VersionSatisfies(version, a)
    ensures VersionSatisfies(version, a).Ok? && VersionSatisfies(version, b).Err?
      ==> VersionSatisfies(version, a + " " + b) == VersionSatisfies(version, b)
    ensures VersionSatisfies(version, a).Ok? && VersionSatisfies(version, b).Ok?
      ==> VersionSatisfies(version, a + " " + b) == Ok(VersionSatisfies(version, a).value && VersionSatisfies(version, b).value)
  {
    var wa := SplitWhitespace(MapChar(a, ',', ' '));
    var wb := SplitWhitespace(MapChar(b, ',', ' '));
    VersionSatisfiesWords(version, a);
    VersionSatisfiesWords(version, b);
    VersionSatisfiesWords(version, a + " " + b);
    WordsOfJoin(a, b);
    HoldsForConcat(version, wa, wb);
  }

  lemma HoldsForConcat(version: string, wa: seq<string>, wb: seq<string>)
    ensures HoldsFor(version, wa).Err? ==> HoldsFor(version, wa + wb) == HoldsFor(version, wa)
    ensures HoldsFor(version, wa).Ok? && HoldsFor(version, wb).Err? ==> HoldsFor(version, wa + wb) == HoldsFor(version, wb)
    ensures HoldsFor(version, wa).Ok? && HoldsFor(version, wb).Ok?
      ==> HoldsFor(version, wa + wb) == Ok(HoldsFor(version, wa).value && HoldsFor(version, wb).value)
  {
    if wa == [] {
      assert wa + wb == wb;
      LatestHolds(version);
    } else if wb == [] {
      assert wa + wb == wa;
      LatestHolds(version);
    } else {
      ExpandTokensConcat(wa, wb);
      if TokensOf(wa).Ok? && TokensOf(wb).Ok? {
        TokensOfConcat(version, wa, wb);
      }
    }
  }

  lemma WildcardChar(c: char)
    requires LowerChar(c) in {'l', 'a', 't', 'e', 's', '*'}
    ensures !IsSpace(c) && c != ',' && c != '^' && c != '~'
  {
  }

  lemma WildcardChars(t: string)
    requires IsWildcardText(t)
    ensures |t| > 0 && NoSpace(t) && ',' !in t && !Expands(t)
  {
    var l := Lower(t);
    assert |t| == |l| > 0;
    forall i | 0 <= i < |t| ensures !IsSpace(t[i]) && t[i] != ',' && t[i] != '^' && t[i] != '~' {
      assert l[i] == LowerChar(t[i]);
      assert l[i] in l;
      assert l[i] in "latest" || l[i] in "*";
      WildcardChar(t[i]);
    }
    assert ',' !in t;
    assert t[0] != '^' && t[0] != '~';
  }

  /** A specifier without surrounding whitespace is split as it stands. */
  lemma SplitSpecifierClean(t: string)
    requires |t| > 0 && NoSpace(t)
    ensures SplitSpecifier(t) == TokensOf(SplitWhitespace(MapChar(t, ',', ' ')))
  {
    StripNoop(t);
  }

  /** A word without whitespace or commas is the only word, and it is expanded on its own. */
  lemma OneWord(t: string)
    requires |t| > 0 && NoSpace(t) && ',' !in t
    ensures TokensOf(SplitWhitespace(MapChar(t, ',', ' '))) == ExpandToken(t)
  {
    MapCharNoComma(t);
    SplitWhitespaceWord(t);
    ExpandTokensUnfold([t]);
    assert [t][1..] == [];
    assert ExpandTokens([]) == Ok([]);
    if ExpandToken(t).Ok? {
      assert ExpandToken(t).value + [] == ExpandToken(t).value;
    }
  }

  /** A single clean token is the whole specifier. */
  lemma SingleToken(t: string)
    requires |t| > 0 && NoSpace(t) && ',' !in t
    ensures SplitSpecifier(t) == ExpandToken(t)
  {
    SplitSpecifierClean(t);
    OneWord(t);
  }

  /** `latest` and `*`, in any letter case and with any surrounding whitespace, accept every version. */
  lemma WildcardAcceptsAll(version: string, spec: string)
    requires IsWildcard(spec)
    ensures VersionSatisfies(version, spec) == Ok(true)
  {
    WildcardTokens(spec);
    SatisfiesSingle(version, spec, Strip(spec));
    WildcardTokenHolds(version, spec);
  }

  lemma WildcardTokens(spec: string)
    requires IsWildcard(spec)
    ensures SplitSpecifier(spec) == Ok([Strip(spec)])
  {
    var t := Strip(spec);
    WildcardChars(t);
    OneWord(t);
  }

  /** A specifier that is one token holds exactly when that token does. */
  lemma SatisfiesSingle(version: string, spec: string, t: string)
    requires SplitSpecifier(spec) == Ok([t])
    ensures VersionSatisfies(version, spec) == Ok(TokenHolds(version, t))
  {
    AllHoldOne(version, [t]);
  }

  lemma AllHoldOne(version: string, tokens: seq<string>)
    requires |tokens| == 1
    ensures AllHold(version, tokens) == TokenHolds(version, tokens[0])
  {
    if TokenHolds(version, tokens[0]) {
      forall i | 0 <= i < |tokens| ensures TokenHolds(version, tokens[i]) {
        assert i == 0;
      }
    }
  }

  lemma WildcardTokenHolds(version: string, spec: string)
    requires IsWildcard(spec)
    ensures TokenHolds(version, Strip(spec))
  {
    StripIdempotent(spec);
  }

  lemma RhsClean(rhs: string)
    requires IsRhs(rhs)
    ensures NoSpace(rhs) && ',' !in rhs && !Expands(rhs)
  {
    assert RhsChar(rhs[0]);
    forall i | 0 <= i < |rhs| ensures !IsSpace(rhs[i]) && rhs[i] != ',' {
      assert RhsChar(rhs[i]);
    }
  }

  lemma OperatorText(t: string)
    requires |t| > 0 && (t[0] == '>' || t[0] == '<' || t[0] == '=')
    ensures !IsWildcardText(t) && !Expands(t)
  {
    assert Lower(t)[0] == LowerChar(t[0]) == t[0];
  }

  lemma OpRhsClean(op: Op, rhs: string)
    requires IsRhs(rhs)
    ensures var t := OpText(op) + rhs;
      |t| > 0 && NoSpace(t) && ',' !in t && !Expands(t) && !IsWildcardText(t)
  {
    var t := OpText(op) + rhs;
    RhsClean(rhs);
    NoSpaceConcat(OpText(op), rhs);
    assert t[0] == OpText(op)[0];
    OperatorText(t);
  }

  lemma TokenHoldsClean(version: string, t: string)
    requires |t| > 0 && NoSpace(t)
    ensures TokenHolds(version, t) == Holds(version, t)
  {
    var u := Strip(t);
    StripNoop(t);
    if Holds(version, u) {
      assert Holds(version, t);
    }
    if Holds(version, t) {
      assert Holds(version, u);
    }
  }

  /** A matched, non-wildcard token holds exactly when its operator accepts the comparison. */
  lemma HoldsOfMatch(version: string, t: string, c: Comparator)
    requires !IsWildcardText(t) && MatchComparator(t) == Some(c)
    ensures Holds(version, t) == OpHolds(c.op.GetOr(Eq), CompareVersions(version, c.rhs))
  {
  }

  /** A comparator token holds exactly when its operator accepts the comparison. */
  lemma TokenHoldsOp(version: string, op: Op, rhs: string)
    requires IsRhs(rhs)
    ensures TokenHolds(version, OpText(op) + rhs) == OpHolds(op, CompareVersions(version, rhs))
  {
    var t := OpText(op) + rhs;
    OpTokenMatch(op, rhs, t);
    TokenHoldsClean(version, t);
    HoldsOfOp(version, t, op, rhs);
  }

  lemma HoldsOfOp(version: string, t: string, op: Op, rhs: string)
    requires !IsWildcardText(t) && MatchComparator(t) == Some(Comparator(Some(op), rhs))
    ensures Holds(version, t) == OpHolds(op, CompareVersions(version, rhs))
  {
    HoldsOfMatch(version, t, Comparator(Some(op), rhs));
  }

  /** `OP v` is a clean token that the pattern reads back as operator `OP` and version `v`. */
  lemma OpTokenMatch(op: Op, rhs: string, t: string)
    requires IsRhs(rhs) && t == OpText(op) + rhs
    ensures |t| > 0 && NoSpace(t) && !IsWildcardText(t)
    ensures MatchComparator(t) == Some(Comparator(Some(op), rhs))
  {
    OpRhsClean(op, rhs);
    assert t == OpText(op) + "" + rhs;
    MatchComparatorOp(op, "", rhs);
  }

  /** `OP v` as a whole specifier is the comparison it names. */
  lemma SatisfiesOp(version: string, op: Op, rhs: string)
    requires IsRhs(rhs)
    ensures VersionSatisfies(version, OpText(op) + rhs) == Ok(OpHolds(op, CompareVersions(version, rhs)))
  {
    OpRhsClean(op, rhs);
    SingleToken(OpText(op) + rhs);
    SatisfiesSingle(version, OpText(op) + rhs, OpText(op) + rhs);
    TokenHoldsOp(version, op, rhs);
  }

  /** A bare version means `=`: it holds exactly when the versions compare equal. */
  lemma MissingOperatorIsEquals(version: string, rhs: string)
    requires IsRhs(rhs) && !IsWildcardText(rhs)
    ensures VersionSatisfies(version, rhs) == Ok(CompareVersions(version, rhs) == 0)
    ensures VersionSatisfies(version, OpText(Eq) + rhs) == Ok(CompareVersions(version, rhs) == 0)
  {
    BareSatisfies(version, rhs);
    EqSatisfies(version, rhs);
  }

  lemma EqSatisfies(version: string, rhs: string)
    requires IsRhs(rhs)
    ensures VersionSatisfies(version, OpText(Eq) + rhs) == Ok(CompareVersions(version, rhs) == 0)
  {
    var c := CompareVersions(version, rhs);
    SatisfiesOp(version, Eq, rhs);
    assert OpHolds(Eq, c) == (c == 0);
  }

  lemma BareSatisfies(version: string, rhs: string)
    requires IsRhs(rhs) && !IsWildcardText(rhs)
    ensures VersionSatisfies(version, rhs) == Ok(CompareVersions(version, rhs) == 0)
  {
    RhsClean(rhs);
    SingleToken(rhs);
    SatisfiesSingle(version, rhs, rhs);
    BareHolds(version, rhs);
  }

  lemma BareHolds(version: string, rhs: string)
    requires IsRhs(rhs) && !IsWildcardText(rhs)
    ensures TokenHolds(version, rhs) == (CompareVersions(version, rhs) == 0)
  {
    assert TokenHolds(version, rhs) == Holds(version, rhs) by {
      RhsClean(rhs);
      TokenHoldsClean(version, rhs);
    }
    assert Holds(version, rhs) == OpHolds(Eq, CompareVersions(version, rhs)) by {
      MatchComparatorWord(rhs);
      HoldsOfMatch(version, rhs, Comparator(None, rhs));
    }
  }

  lemma MatchComparatorWord(rhs: string)
    requires IsRhs(rhs)
    ensures MatchComparator(rhs) == Some(Comparator(None, rhs))
  {
    assert "" + rhs == rhs;
    MatchComparatorBare("", rhs);
  }

  /** A token the pattern rejects makes the whole specifier false. */
  lemma UnmatchedTokenFails(version: string, t: string)
    requires |t| > 0 && NoSpace(t) && ',' !in t && !Expands(t)
    requires !IsWildcardText(t) && MatchComparator(t).None?
    ensures VersionSatisfies(version, t) == Ok(false)
  {
    SingleToken(t);
    SatisfiesSingle(version, t, t);
    TokenHoldsClean(version, t);
  }

  // ---------------------------------------------------------------------
  // Exact pins
  // ---------------------------------------------------------------------

  /** Whenever an exact version is extracted, satisfying the specifier means comparing equal to it. */
  lemma ExactPinMeaning(version: string, spec: string, v: string)
    requires ExtractExactVersion(spec) == Ok(Some(v))
    ensures VersionSatisfies(version, spec) == Ok(CompareVersions(version, v) == 0)
  {
    var t := PinnedToken(spec, v);
    SatisfiesSingle(version, spec, t);
    PinHolds(version, Strip(t), v);
  }

  /** A specifier with an exact version is one token, and that token pins the version. */
  lemma PinnedToken(spec: string, v: string) returns (t: string)
    requires ExtractExactVersion(spec) == Ok(Some(v))
    ensures SplitSpecifier(spec) == Ok([t]) && PinOf(Strip(t)) == Some(v)
  {
    var tokens := SplitSpecifier(spec).value;
    assert |tokens| == 1 && PinOf(Strip(tokens[0])) == Some(v);
    t := tokens[0];
    Singleton(tokens);
  }

  lemma Singleton(tokens: seq<string>)
    requires |tokens| == 1
    ensures tokens == [tokens[0]]
  {
  }

  lemma PinHolds(version: string, token: string, v: string)
    requires PinOf(token) == Some(v)
    ensures Holds(version, token) == (CompareVersions(version, v) == 0)
  {
    var c := PinMatch(token, v);
    HoldsComparator(version, token, c);
  }

  /** A token that is not a wildcard holds exactly when the comparator it matches holds. */
  lemma HoldsComparator(version: string, t: string, c: Comparator)
    requires !IsWildcardText(t) && MatchComparator(t) == Some(c)
    ensures Holds(version, t) == OpHolds(c.op.GetOr(Eq), CompareVersions(version, c.rhs))
  {
  }

  /** A token that pins `v` is a non-wildcard `=`/`==`/bare comparator on `v`. */
  lemma PinMatch(token: string, v: string) returns (c: Comparator)
    requires PinOf(token) == Some(v)
    ensures !IsWildcardText(token) && MatchComparator(token) == Some(c)
    ensures c.rhs == v && (c.op.GetOr(Eq) == Eq || c.op.GetOr(Eq) == EqEq)
  {
    c := MatchComparator(token).value;
  }

  lemma ExtractClean(t: string)
    requires |t| > 0 && NoSpace(t) && SplitSpecifier(t) == Ok([t])
    ensures ExtractExactVersion(t) == Ok(PinOf(t))
  {
    assert [t][0] == t;
    StripNoop(t);
  }

  lemma PinOfOp(op: Op, rhs: string)
    requires IsRhs(rhs)
    ensures PinOf(OpText(op) + rhs) == if op == Eq || op == EqEq then Some(rhs) else None
  {
    var t := OpText(op) + rhs;
    OpRhsClean(op, rhs);
    assert t[0] == OpText(op)[0];
    MatchComparatorOp(op, "", rhs);
    assert OpText(op) + "" + rhs == t;
  }

  /** `=v` and `==v` pin `v`; the other operators pin nothing. */
  lemma ExactPinOfOp(op: Op, rhs: string)
    requires IsRhs(rhs)
    ensures ExtractExactVersion(OpText(op) + rhs) == Ok(if op == Eq || op == EqEq then Some(rhs) else None)
  {
    var t := OpText(op) + rhs;
    OpRhsClean(op, rhs);
    SingleToken(t);
    ExtractClean(t);
    PinOfOp(op, rhs);
  }

  /** A bare version pins itself. */
  lemma ExactPinBare(rhs: string)
    requires IsRhs(rhs) && !IsWildcardText(rhs)
    ensures ExtractExactVersion(rhs) == Ok(Some(rhs))
  {
    RhsClean(rhs);
    SingleToken(rhs);
    ExtractClean(rhs);
    MatchComparatorWord(rhs);
  }

  /** A specifier of several tokens pins nothing. */
  lemma NoPinForSeveral(spec: string)
    requires SplitSpecifier(spec).Ok? && |SplitSpecifier(spec).value| != 1
    ensures ExtractExactVersion(spec) == Ok(None)
  {
  }

  // ---------------------------------------------------------------------
  // What caret and tilde ranges admit
  // ---------------------------------------------------------------------

  lemma CoreTextRhs(core: seq<nat>)
    requires |core| >= 1
    ensures IsRhs(CoreText(core)) && !IsWildcardText(CoreText(core))
  {
    var ns := NumStrings(core);
    var t := CoreText(core);
    NumStringsDigits(core);
    RenderCoreFacts(core);
    forall i | 0 <= i < |t| ensures RhsChar(t[i]) {
      JoinMember(ns, ".", t[i]);
      if t[i] != '.' {
        var k :| 0 <= k < |ns| && t[i] in ns[k];
        assert AllDigits(ns[k]);
        var j :| 0 <= j < |ns[k]| && ns[k][j] == t[i];
      }
    }
    assert t[0] == ns[0][0] by {
      if |ns| > 1 {
        JoinCons(ns[0], ns[1..], ".");
        assert [ns[0]] + ns[1..] == ns;
      }
    }
    assert AllDigits(ns[0]);
    assert Lower(t)[0] == LowerChar(t[0]) == t[0];
  }

  lemma RenderRelease(core: seq<nat>)
    requires |core| >= 1
    ensures Render(Version(core, None)) == CoreText(core)
  {
    assert CoreText(core) + "" == CoreText(core);
  }

  /** Rendered three-number releases compare as their cores do. */
  lemma CompareCoreTexts(x: seq<nat>, b: seq<nat>)
    requires |x| == 3 && |b| == 3
    ensures CompareVersions(CoreText(x), CoreText(b)) == CompareCore(x, b)
  {
    RenderRelease(x);
    RenderRelease(b);
    ParseRender(Version(x, None));
    ParseRender(Version(b, None));
  }

  /** Python's tuple comparison on three numbers. */
  lemma CompareCore3(a: seq<nat>, b: seq<nat>)
    requires |a| == 3 && |b| == 3
    ensures CompareCore(a, b) ==
      if a[0] != b[0] then CompareNat(a[0], b[0])
      else if a[1] != b[1] then CompareNat(a[1], b[1])
      else CompareNat(a[2], b[2])
  {
    var a1, b1 := a[1..], b[1..];
    var a2, b2 := a1[1..], b1[1..];
    assert a1[0] == a[1] && b1[0] == b[1] && a2[0] == a[2] && b2[0] == b[2];
    assert CompareCore(a2[1..], b2[1..]) == 0;
    assert CompareCore(a2, b2) == CompareNat(a[2], b[2]);
    assert CompareCore(a1, b1) == if a[1] != b[1] then CompareNat(a[1], b[1]) else CompareCore(a2, b2);
  }

  /** The base of a caret or tilde token: its first three core numbers; a prerelease is dropped. */
  lemma BaseOfRendered(v: Version)
    requires Renderable(v)
    ensures BaseCore("^" + Render(v)) == Ok(Pad(v.core)[..3])
    ensures BaseCore("~" + Render(v)) == Ok(Pad(v.core)[..3])
  {
    BaseAfter('^', v);
    BaseAfter('~', v);
  }

  /** Whatever the prefix character, the base after it is the rendered version. */
  lemma BaseAfter(c: char, v: Version)
    requires Renderable(v)
    ensures BaseCore([c] + Render(v)) == Ok(Pad(v.core)[..3])
  {
    var r := Render(v);
    ParseRender(v);
    RenderClean(v);
    assert ([c] + r)[1..] == r;
    StripNoop(r);
  }

  lemma RenderClean(v: Version)
    requires Renderable(v)
    ensures |Render(v)| > 0 && NoSpace(Render(v))
  {
    RenderCoreFacts(v.core);
    var main := Join(NumStrings(v.core), ".");
    match v.pre {
      case None =>
        assert Render(v) == main;
      case Some(ids) =>
        RenderPreFacts(ids);
        NoSpaceConcat(main, ['-']);
        NoSpaceConcat(main + ['-'], Join(ids, "."));
        assert Render(v) == main + ['-'] + Join(ids, ".");
    }
  }

  /** A prerelease on the base of `^` or `~` does not change the expansion. */
  lemma PrereleaseBaseDropped(core: seq<nat>, ids: seq<string>)
    requires Renderable(Version(core, Some(ids)))
    ensures ExpandCaret("^" + Render(Version(core, Some(ids)))) == ExpandCaret("^" + Render(Version(core, None)))
    ensures ExpandTilde("~" + Render(Version(core, Some(ids)))) == ExpandTilde("~" + Render(Version(core, None)))
  {
    BaseOfRendered(Version(core, Some(ids)));
    BaseOfRendered(Version(core, None));
  }

  /** A caret or tilde whose base does not parse raises, naming the token. */
  lemma BadBaseRaises(version: string, token: string)
    requires |token| > 0 && NoSpace(token) && ',' !in token && Expands(token)
    requires !Parses(token[1..])
    ensures VersionSatisfies(version, token) == Err(InvalidRequirement(token))
    ensures ExtractExactVersion(token) == Err(InvalidRequirement(token))
  {
    SingleToken(token);
    BaseCoreBad(token);
  }

  lemma BaseCoreBad(token: string)
    requires |token| > 0 && NoSpace(token) && !Parses(token[1..])
    ensures BaseCore(token) == Err(InvalidRequirement(token))
  {
    var rest := token[1..];
    assert NoSpace(rest);
    StripNoop(rest);
  }

  /** `x` lies in the range `^b` stands for: at least `b`, and the leftmost non-zero part of `b` is kept. */
  predicate CaretCompatible(x: seq<nat>, b: seq<nat>)
    requires |x| == 3 && |b| == 3
  {
    CompareCore(x, b) >= 0
    && if b[0] > 0 then x[0] == b[0]
       else if b[1] > 0 then x[0] == 0 && x[1] == b[1]
       else x[0] == 0 && x[1] == 0 && x[2] == b[2]
  }

  /** `x` lies in the range `~b` stands for: at least `b`, with the same major and minor parts. */
  predicate TildeCompatible(x: seq<nat>, b: seq<nat>)
    requires |x| == 3 && |b| == 3
  {
    CompareCore(x, b) >= 0 && x[0] == b[0] && x[1] == b[1]
  }

  lemma TwoTokens(version: string, spec: string, t1: string, t2: string)
    requires SplitSpecifier(spec) == Ok([t1, t2])
    ensures VersionSatisfies(version, spec) == Ok(TokenHolds(version, t1) && TokenHolds(version, t2))
  {
    var ts := [t1, t2];
    assert AllHold(version, ts) <==> TokenHolds(version, t1) && TokenHolds(version, t2) by {
      assert ts[0] == t1 && ts[1] == t2;
    }
    assert VersionSatisfies(version, spec) == Ok(AllHold(version, ts));
  }

  lemma BoundTokens(x: seq<nat>, lo: seq<nat>, hi: seq<nat>)
    requires |x| == 3 && |lo| == 3 && |hi| == 3
    ensures TokenHolds(CoreText(x), ">=" + CoreText(lo)) == (CompareCore(x, lo) >= 0)
    ensures TokenHolds(CoreText(x), "<" + CoreText(hi)) == (CompareCore(x, hi) < 0)
  {
    CoreToken(x, Ge, lo);
    CoreToken(x, Lt, hi);
  }

  /** A comparator token against a three-number bound is the tuple comparison. */
  lemma CoreToken(x: seq<nat>, op: Op, b: seq<nat>)
    requires |x| == 3 && |b| == 3
    ensures TokenHolds(CoreText(x), OpText(op) + CoreText(b)) == OpHolds(op, CompareCore(x, b))
  {
    CoreTextRhs(b);
    TokenHoldsOp(CoreText(x), op, CoreText(b));
    CompareCoreTexts(x, b);
  }

  lemma PrefixedCore(c: char, b: seq<nat>)
    requires |b| == 3 && (c == '^' || c == '~')
    ensures var t := [c] + CoreText(b); |t| > 0 && NoSpace(t) && ',' !in t && Expands(t)
    ensures BaseCore([c] + CoreText(b)) == Ok(b)
  {
    PrefixedShape(c, b);
    PrefixedBase(c, b);
  }

  lemma PrefixedShape(c: char, b: seq<nat>)
    requires |b| == 3 && (c == '^' || c == '~')
    ensures var t := [c] + CoreText(b); |t| > 0 && NoSpace(t) && ',' !in t && Expands(t)
  {
    var t := [c] + CoreText(b);
    CoreTextRhs(b);
    RhsClean(CoreText(b));
    NoSpaceConcat([c], CoreText(b));
    assert t[..1] == [c];
  }

  lemma PrefixedBase(c: char, b: seq<nat>)
    requires |b| == 3
    ensures BaseCore([c] + CoreText(b)) == Ok(b)
  {
    RenderRelease(b);
    BaseAfter(c, Version(b, None));
    assert Pad(b) == b && b[..3] == b;
  }

  lemma CaretTokens(b: seq<nat>)
    requires |b| == 3
    ensures SplitSpecifier("^" + CoreText(b)) == Ok([">=" + CoreText(b), "<" + CoreText(CaretUpper(b))])
  {
    PrefixedCore('^', b);
    SingleToken("^" + CoreText(b));
  }

  lemma TildeTokens(b: seq<nat>)
    requires |b| == 3
    ensures SplitSpecifier("~" + CoreText(b)) == Ok([">=" + CoreText(b), "<" + CoreText(TildeUpper(b))])
  {
    PrefixedCore('~', b);
    SingleToken("~" + CoreText(b));
  }

  /** Caret compatibility is the range from `b` up to, not including, its caret bound. */
  lemma CaretRange(x: seq<nat>, b: seq<nat>)
    requires |x| == 3 && |b| == 3
    ensures CaretCompatible(x, b) == (CompareCore(x, b) >= 0 && CompareCore(x, CaretUpper(b)) < 0)
  {
    CompareCore3(x, b);
    CompareCore3(x, CaretUpper(b));
  }

  /** Tilde compatibility is the range from `b` up to, not including, its tilde bound. */
  lemma TildeRange(x: seq<nat>, b: seq<nat>)
    requires |x| == 3 && |b| == 3
    ensures TildeCompatible(x, b) == (CompareCore(x, b) >= 0 && CompareCore(x, TildeUpper(b)) < 0)
  {
    CompareCore3(x, b);
    CompareCore3(x, TildeUpper(b));
  }

  /** A specifier that expands to `>=lo,<hi` holds on a three-number release exactly in that range. */
  lemma BoundedMeaning(x: seq<nat>, spec: string, lo: seq<nat>, hi: seq<nat>)
    requires |x| == 3 && |lo| == 3 && |hi| == 3
    requires SplitSpecifier(spec) == Ok([">=" + CoreText(lo), "<" + CoreText(hi)])
    ensures VersionSatisfies(CoreText(x), spec) == Ok(CompareCore(x, lo) >= 0 && CompareCore(x, hi) < 0)
  {
    TwoTokens(CoreText(x), spec, ">=" + CoreText(lo), "<" + CoreText(hi));
    BoundTokens(x, lo, hi);
  }

  /** `^b` admits exactly the three-number releases caret-compatible with `b`. */
  lemma CaretMeaning(x: seq<nat>, b: seq<nat>)
    requires |x| == 3 && |b| == 3
    ensures VersionSatisfies(CoreText(x), "^" + CoreText(b)) == Ok(CaretCompatible(x, b))
  {
    CaretTokens(b);
    BoundedMeaning(x, "^" + CoreText(b), b, CaretUpper(b));
    CaretRange(x, b);
  }

  /** `~b` admits exactly the three-number releases tilde-compatible with `b`. */
  lemma TildeMeaning(x: seq<nat>, b: seq<nat>)
    requires |x| == 3 && |b| == 3
    ensures VersionSatisfies(CoreText(x), "~" + CoreText(b)) == Ok(TildeCompatible(x, b))
  {
    TildeTokens(b);
    BoundedMeaning(x, "~" + CoreText(b), b, TildeUpper(b));
    TildeRange(x, b);
  }
}
