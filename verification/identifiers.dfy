/**
 * The identifiers the OpenAPI layer invents: `_sanitize_identifier`
 * (openapi.py:15-23), which turns an operation id into a Python method
 * name, and the `_2`, `_3`, ... probing that `parse_spec` uses to keep
 * operation ids and method names unique (openapi.py:162-175).
 */
module Identifiers {
  import opened Strs

  // ---------------------------------------------------------------------
  // What a sanitized identifier looks like
  // ---------------------------------------------------------------------

  /** A character of the regular-expression class `[0-9A-Za-z_]`. */
  predicate WordChar(c: char) {
    IsAlnum(c) || c == '_'
  }

  predicate AllWord(s: string) {
    forall i | 0 <= i < |s| :: WordChar(s[i])
  }

  /** No `__` anywhere in `s`. */
  predicate NoDouble(s: string) {
    forall i | 0 <= i < |s| - 1 :: !(s[i] == '_' && s[i + 1] == '_')
  }

  /**
   * A name `_sanitize_identifier` can return: non-empty, made of
   * `[0-9A-Za-z_]`, no leading, trailing or doubled underscore, and no
   * leading digit.
   */
  predicate Identifier(s: string) {
    && |s| > 0
    && AllWord(s)
    && NoDouble(s)
    && s[0] != '_'
    && s[|s| - 1] != '_'
    && !IsDigit(s[0])
  }

  /** The letters and digits of `s`, in order: what sanitizing never loses. */
  function Alnums(s: string): string
    decreases |s|
  {
    if |s| == 0 then []
    else (if IsAlnum(s[0]) then [s[0]] else []) + Alnums(s[1..])
  }

  lemma {:induction false} AlnumsAppend(a: string, b: string)
    ensures Alnums(a + b) == Alnums(a) + Alnums(b)
    decreases |a|
  {
    if |a| == 0 {
      assert a + b == b;
    } else {
      assert (a + b)[0] == a[0];
      assert (a + b)[1..] == a[1..] + b;
      AlnumsAppend(a[1..], b);
    }
  }

  lemma AlnumsCons(c: char, s: string)
    ensures Alnums([c] + s) == (if IsAlnum(c) then [c] else []) + Alnums(s)
  {
    assert ([c] + s)[1..] == s;
  }

  /** A string without letters or digits contributes nothing. */
  lemma {:induction false} AlnumsNone(s: string)
    requires forall i | 0 <= i < |s| :: !IsAlnum(s[i])
    ensures Alnums(s) == []
    decreases |s|
  {
    if |s| > 0 {
      AlnumsNone(s[1..]);
    }
  }

  // ---------------------------------------------------------------------
  // The three rewriting steps
  // ---------------------------------------------------------------------

  /**
   * `re.sub(r"[^0-9A-Za-z_]+", "_", s)`: every maximal run of other
   * characters becomes one `_`. `inRun` says the previous character
   * already started such a run.
   */
  function SubNonWord(s: string, inRun: bool): (r: string)
    ensures AllWord(r)
    decreases |s|
  {
    if |s| == 0 then []
    else if WordChar(s[0]) then [s[0]] + SubNonWord(s[1..], false)
    else if inRun then SubNonWord(s[1..], true)
    else "_" + SubNonWord(s[1..], true)
  }

  /**
   * `re.sub(r"_{2,}", "_", s)`: every run of underscores becomes one.
   * `prev` says the previous character was an underscore.
   */
  function Collapse(s: string, prev: bool): (r: string)
    ensures NoDouble(r)
    ensures prev && |r| > 0 ==> r[0] != '_'
    ensures forall c | c in r :: c in s
    decreases |s|
  {
    if |s| == 0 then []
    else if s[0] == '_' then
      if prev then Collapse(s[1..], true) else "_" + Collapse(s[1..], true)
    else [s[0]] + Collapse(s[1..], false)
  }

  /** `s.strip("_")`. */
  function StripUnderscore(s: string): (r: string) {
    LStripChar(RStripChar(s, '_'), '_')
  }

  // ---------------------------------------------------------------------
  // _sanitize_identifier
  // ---------------------------------------------------------------------

  /** The string the three steps leave before the `op` fallbacks apply. */
  function Cleaned(s: string): string {
    StripUnderscore(Collapse(SubNonWord(Strip(s), false), false))
  }

  /** The shape the rewriting steps leave: word characters, no `__`, no `_` at either end. */
  predicate Tidy(t: string) {
    AllWord(t) && NoDouble(t) && (|t| > 0 ==> t[0] != '_' && t[|t| - 1] != '_')
  }

  /** The `"op"` and `"op_"` fallbacks of `_sanitize_identifier`. */
  function Fallback(t: string): (r: string)
    requires Tidy(t)
    ensures Identifier(r)
  {
    if t == [] then "op"
    else if IsDigit(t[0]) then
      OpPrefixIdentifier(t);
      "op_" + t
    else t
  }

  lemma OpPrefixIdentifier(t: string)
    requires Tidy(t) && |t| > 0 && IsDigit(t[0])
    ensures Identifier("op_" + t)
  {
    var s := "op_" + t;
    forall i | 0 <= i < |s| ensures WordChar(s[i]) && (i < |s| - 1 ==> !(s[i] == '_' && s[i + 1] == '_')) {
      if i >= 3 {
        assert s[i] == t[i - 3];
        if i < |s| - 1 {
          assert s[i + 1] == t[i - 2];
        }
      }
    }
    assert s[|s| - 1] == t[|t| - 1];
  }

  /** `_sanitize_identifier(s)`. */
  function Sanitize(s: string): (r: string)
    ensures Identifier(r)
  {
    CleanedShape(s);
    Fallback(Cleaned(s))
  }

  /** What the rewriting steps guarantee before the fallbacks. */
  lemma CleanedShape(s: string)
    ensures Tidy(Cleaned(s))
  {
    var u := Collapse(SubNonWord(Strip(s), false), false);
    CollapsedWords(SubNonWord(Strip(s), false));
    StripUnderscoreTidy(u);
  }

  /** Collapsing a string of word characters leaves word characters. */
  lemma CollapsedWords(w: string)
    requires AllWord(w)
    ensures AllWord(Collapse(w, false))
  {
    var u := Collapse(w, false);
    forall i | 0 <= i < |u| ensures WordChar(u[i]) {
      assert u[i] in u;
    }
  }

  /** `strip("_")` of word characters without `__` is tidy. */
  lemma StripUnderscoreTidy(u: string)
    requires AllWord(u) && NoDouble(u)
    ensures Tidy(StripUnderscore(u))
  {
    var v := RStripChar(u, '_');
    var t := LStripChar(v, '_');
    SliceTidy(u, 0, |v|);
    SliceTidy(v, |v| - |t|, |v|);
    if |t| > 0 {
      assert t[|t| - 1] == v[|v| - 1];
    }
  }

  /** A piece of a string of word characters without `__` is one too. */
  lemma SliceTidy(u: string, a: nat, b: nat)
    requires a <= b <= |u|
    requires AllWord(u) && NoDouble(u)
    ensures AllWord(u[a..b]) && NoDouble(u[a..b])
  {
    var t := u[a..b];
    forall i | 0 <= i < |t| - 1 ensures !(t[i] == '_' && t[i + 1] == '_') {
      assert t[i] == u[a + i] && t[i + 1] == u[a + i + 1];
    }
  }

  /** Sanitizing keeps every letter and digit, in order, adding `op` in front only when needed. */
  lemma SanitizeAlnums(s: string)
    ensures var a := Alnums(s);
      Alnums(Sanitize(s)) == if a == [] || IsDigit(a[0]) then "op" + a else a
  {
    CleanedAlnums(s);
    CleanedShape(s);
    FallbackAlnums(Cleaned(s));
  }

  lemma FallbackAlnums(t: string)
    requires Tidy(t)
    ensures var a := Alnums(t);
      Alnums(Fallback(t)) == if a == [] || IsDigit(a[0]) then "op" + a else a
  {
    if t != [] {
      AlnumsCons(t[0], t[1..]);
      assert t == [t[0]] + t[1..];
      if IsDigit(t[0]) {
        AlnumsAppend("op_", t);
        assert Alnums("op_") == "op" by {
          AlnumsCons('o', "p_");
          AlnumsCons('p', "_");
          AlnumsCons('_', "");
        }
      }
    } else {
      assert Alnums("op") == "op" by {
        AlnumsCons('o', "p");
        AlnumsCons('p', "");
      }
    }
  }

  lemma CleanedAlnums(s: string)
    ensures Alnums(Cleaned(s)) == Alnums(s)
  {
    var l, r := StripParts(s);
    AlnumsAppend(l + Strip(s), r);
    AlnumsAppend(l, Strip(s));
    SpaceNotAlnum(l);
    SpaceNotAlnum(r);
    AlnumsNone(l);
    AlnumsNone(r);
    var w := SubNonWord(Strip(s), false);
    SubNonWordAlnums(Strip(s), false);
    var u := Collapse(w, false);
    CollapseAlnums(w, false);
    StripUnderscoreAlnums(u);
  }

  lemma SpaceNotAlnum(s: string)
    requires AllSpace(s)
    ensures forall i | 0 <= i < |s| :: !IsAlnum(s[i])
  {
  }

  lemma {:induction false} SubNonWordAlnums(s: string, inRun: bool)
    ensures Alnums(SubNonWord(s, inRun)) == Alnums(s)
    decreases |s|
  {
    if |s| > 0 {
      AlnumsCons(s[0], s[1..]);
      assert s == [s[0]] + s[1..];
      if WordChar(s[0]) {
        SubNonWordAlnums(s[1..], false);
        AlnumsCons(s[0], SubNonWord(s[1..], false));
      } else {
        SubNonWordAlnums(s[1..], true);
        AlnumsCons('_', SubNonWord(s[1..], true));
      }
    }
  }

  lemma {:induction false} CollapseAlnums(s: string, prev: bool)
    ensures Alnums(Collapse(s, prev)) == Alnums(s)
    decreases |s|
  {
    if |s| > 0 {
      AlnumsCons(s[0], s[1..]);
      assert s == [s[0]] + s[1..];
      if s[0] == '_' {
        CollapseAlnums(s[1..], true);
        AlnumsCons('_', Collapse(s[1..], true));
      } else {
        CollapseAlnums(s[1..], false);
        AlnumsCons(s[0], Collapse(s[1..], false));
      }
    }
  }

  lemma StripUnderscoreAlnums(s: string)
    ensures Alnums(StripUnderscore(s)) == Alnums(s)
  {
    RStripAlnums(s);
    LStripAlnums(RStripChar(s, '_'));
  }

  /** `rstrip("_")` removes no letter or digit. */
  lemma RStripAlnums(s: string)
    ensures Alnums(RStripChar(s, '_')) == Alnums(s)
  {
    var v := RStripChar(s, '_');
    SliceJoin(s, |v|);
    AlnumsAppend(v, s[|v|..]);
    AlnumsNone(s[|v|..]);
  }

  /** `lstrip("_")` removes no letter or digit. */
  lemma LStripAlnums(v: string)
    ensures Alnums(LStripChar(v, '_')) == Alnums(v)
  {
    var t := LStripChar(v, '_');
    SliceJoin(v, |v| - |t|);
    AlnumsAppend(v[..|v| - |t|], t);
    AlnumsNone(v[..|v| - |t|]);
  }

  // ---------------------------------------------------------------------
  // Identifiers are exactly the fixed points
  // ---------------------------------------------------------------------

  lemma {:induction false} SubNonWordKeeps(s: string, inRun: bool)
    requires AllWord(s)
    ensures SubNonWord(s, inRun) == s
    decreases |s|
  {
    if |s| > 0 {
      SubNonWordKeeps(s[1..], false);
    }
  }

  lemma {:induction false} CollapseKeeps(s: string, prev: bool)
    requires NoDouble(s)
    requires prev && |s| > 0 ==> s[0] != '_'
    ensures Collapse(s, prev) == s
    decreases |s|
  {
    if |s| > 0 {
      CollapseKeeps(s[1..], s[0] == '_');
    }
  }

  /** A string is left as it is by `_sanitize_identifier` exactly when it is an identifier. */
  lemma SanitizeFixed(s: string)
    ensures Sanitize(s) == s <==> Identifier(s)
  {
    if Identifier(s) {
      assert !IsSpace(s[0]) && !IsSpace(s[|s| - 1]);
      StripNoop(s);
      SubNonWordKeeps(s, false);
      CollapseKeeps(s, false);
    }
  }

  /** Sanitizing twice is sanitizing once. */
  lemma SanitizeIdempotent(s: string)
    ensures Sanitize(Sanitize(s)) == Sanitize(s)
  {
    SanitizeFixed(Sanitize(s));
  }

  /** `.lower()` keeps a sanitized name an identifier. */
  lemma LowerIdentifier(s: string)
    requires Identifier(s)
    ensures Identifier(Lower(s))
  {
    var l := Lower(s);
    forall i | 0 <= i < |s| ensures WordChar(l[i]) && (l[i] == '_' <==> s[i] == '_') {
    }
  }

  // ---------------------------------------------------------------------
  // Unique names: base, base_2, base_3, ...
  // ---------------------------------------------------------------------

  /** `f"{base}_{k}"`. */
  function Suffixed(base: string, k: nat): string {
    base + "_" + NatToString(k)
  }

  lemma SuffixedInjective(base: string, j: nat, k: nat)
    requires Suffixed(base, j) == Suffixed(base, k)
    ensures j == k
  {
    var a := Suffixed(base, j);
    assert a[|base| + 1..] == NatToString(j);
    assert Suffixed(base, k)[|base| + 1..] == NatToString(k);
    NatToStringInjective(j, k);
  }

  /** A suffixed identifier is still an identifier. */
  lemma SuffixedIdentifier(base: string, k: nat)
    requires Identifier(base)
    ensures Identifier(Suffixed(base, k))
  {
    var d := NatToString(k);
    var s := Suffixed(base, k);
    forall i | 0 <= i < |s| ensures WordChar(s[i]) && (i < |s| - 1 ==> !(s[i] == '_' && s[i + 1] == '_')) {
      if i < |base| {
        assert s[i] == base[i];
        if i + 1 < |base| {
          assert s[i + 1] == base[i + 1];
        }
      } else if i > |base| {
        assert s[i] == d[i - |base| - 1];
        if i + 1 < |s| {
          assert s[i + 1] == d[i - |base|];
        }
      } else {
        assert s[i + 1] == d[0];
      }
    }
    assert s[|s| - 1] == d[|d| - 1];
  }

  /** The suffixed names `base_2` ... `base_{n-1}`. */
  function SuffixedUpTo(base: string, n: nat): set<string>
    decreases n
  {
    if n <= 2 then {} else SuffixedUpTo(base, n - 1) + {Suffixed(base, n - 1)}
  }

  lemma {:induction false} SuffixedUpToMembers(base: string, n: nat, x: string)
    requires x in SuffixedUpTo(base, n)
    ensures exists k | 2 <= k < n :: x == Suffixed(base, k)
    decreases n
  {
    if x != Suffixed(base, n - 1) {
      SuffixedUpToMembers(base, n - 1, x);
    }
  }

  lemma {:induction false} SuffixedUpToSize(base: string, n: nat)
    ensures |SuffixedUpTo(base, n)| == if n <= 2 then 0 else n - 2
    decreases n
  {
    if n > 2 {
      SuffixedUpToSize(base, n - 1);
      if Suffixed(base, n - 1) in SuffixedUpTo(base, n - 1) {
        SuffixedUpToMembers(base, n - 1, Suffixed(base, n - 1));
        var k :| 2 <= k < n - 1 && Suffixed(base, n - 1) == Suffixed(base, k);
        SuffixedInjective(base, n - 1, k);
      }
    }
  }

  lemma {:induction false} SuffixedUpToSubset(base: string, used: set<string>, n: nat)
    requires forall k | 2 <= k < n :: Suffixed(base, k) in used
    ensures SuffixedUpTo(base, n) <= used
    decreases n
  {
    if n > 2 {
      SuffixedUpToSubset(base, used, n - 1);
    }
  }

  /** Only `|used|` suffixes can be taken, so the probing stops. */
  lemma TakenBound(base: string, used: set<string>, n: nat)
    requires 2 <= n
    requires forall k | 2 <= k < n :: Suffixed(base, k) in used
    ensures n - 2 <= |used|
  {
    var s := SuffixedUpTo(base, n);
    SuffixedUpToSize(base, n);
    SuffixedUpToSubset(base, used, n);
    assert used == s + (used - s);
  }

  /** The `while name in used: name = f"{base}_{i}"; i += 1` probe, from `i`. */
  function Probe(base: string, used: set<string>, i: nat): (r: string)
    requires 2 <= i
    requires forall k | 2 <= k < i :: Suffixed(base, k) in used
    ensures r !in used
    decreases |used| + 2 - i
  {
    TakenBound(base, used, i);
    if Suffixed(base, i) in used then
      TakenBound(base, used, i + 1);
      Probe(base, used, i + 1)
    else Suffixed(base, i)
  }

  /** The probe stops at the first free suffix. */
  lemma {:induction false} ProbeFirstFree(base: string, used: set<string>, i: nat)
    requires 2 <= i
    requires forall k | 2 <= k < i :: Suffixed(base, k) in used
    ensures exists k | i <= k :: Probe(base, used, i) == Suffixed(base, k) && forall j | i <= j < k :: Suffixed(base, j) in used
    decreases |used| + 2 - i
  {
    TakenBound(base, used, i);
    if Suffixed(base, i) in used {
      TakenBound(base, used, i + 1);
      ProbeFirstFree(base, used, i + 1);
      var k :| i + 1 <= k && Probe(base, used, i + 1) == Suffixed(base, k) && forall j | i + 1 <= j < k :: Suffixed(base, j) in used;
      assert forall j | i <= j < k :: Suffixed(base, j) in used;
    } else {
      assert Probe(base, used, i) == Suffixed(base, i);
    }
  }

  /**
   * The name `parse_spec` settles on for `base` given the names already
   * `used`: `base` itself when it is free, otherwise the first free
   * `base_k` for k = 2, 3, ...
   */
  function FreshName(base: string, used: set<string>): (r: string)
    ensures r !in used
  {
    if base !in used then base else Probe(base, used, 2)
  }

  /** `FreshName` keeps a free name and otherwise picks the first free numbered variant. */
  lemma FreshNameFirstFree(base: string, used: set<string>)
    ensures FreshName(base, used) == base <==> base !in used
    ensures base in used ==> exists k | 2 <= k ::
      && FreshName(base, used) == Suffixed(base, k)
      && forall j | 2 <= j < k :: Suffixed(base, j) in used
  {
    if base in used {
      ProbeFirstFree(base, used, 2);
    }
  }

  /** A fresh name for an identifier is an identifier. */
  lemma FreshIdentifier(base: string, used: set<string>)
    requires Identifier(base)
    ensures Identifier(FreshName(base, used))
  {
    if base in used {
      FreshNameFirstFree(base, used);
      var k :| 2 <= k && FreshName(base, used) == Suffixed(base, k);
      SuffixedIdentifier(base, k);
    }
  }
}
