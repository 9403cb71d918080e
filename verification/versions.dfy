/**
 * Version strings and their ordering (`_split_version` and
 * `compare_versions` in local_skills.py). The ordering follows the
 * precedence rules of section 11 of Semantic Versioning 2.0.0 where both
 * sides parse, ignores build metadata as in section 10, pads short
 * numeric cores with zeros, accepts more than three core components, and
 * falls back to plain string comparison when either side does not parse.
 */
module Versions {
  import opened Wrappers
  import opened Strs

  /** A parsed version: the numeric core and, if a `-` was present, the prerelease identifiers. */
  datatype Version = Version(core: seq<nat>, pre: Option<seq<string>>)

  // ---------------------------------------------------------------------
  // Parsing
  // ---------------------------------------------------------------------

  /** Appends zeros until there are at least three components. */
  function Pad(nums: seq<nat>): (r: seq<nat>)
    ensures |r| == if |nums| < 3 then 3 else |nums|
    ensures r[..|nums|] == nums
    ensures forall i | |nums| <= i < |r| :: r[i] == 0
    decreases 3 - |nums|
  {
    if |nums| < 3 then
      var r := Pad(nums + [0]);
      assert r[..|nums|] == r[..|nums| + 1][..|nums|];
      r
    else nums
  }

  /** Drops the empty pieces, keeping the order of the others. */
  function NonEmpty(parts: seq<string>): (r: seq<string>)
    ensures forall i | 0 <= i < |r| :: r[i] != []
    ensures forall p | p in r :: p in parts
    ensures (forall i | 0 <= i < |parts| :: parts[i] != []) ==> r == parts
  {
    if |parts| == 0 then []
    else if parts[0] == [] then NonEmpty(parts[1..])
    else [parts[0]] + NonEmpty(parts[1..])
  }

  ghost predicate AllDigitParts(parts: seq<string>) {
    forall i | 0 <= i < |parts| :: AllDigits(parts[i])
  }

  /** `[int(p) for p in parts]`. */
  function Values(parts: seq<string>): (r: seq<nat>)
    requires AllDigitParts(parts)
    ensures |r| == |parts|
    ensures forall i | 0 <= i < |parts| :: r[i] == DigitsValue(parts[i])
  {
    if |parts| == 0 then [] else [DigitsValue(parts[0])] + Values(parts[1..])
  }

  /** The numeric core: every `.`-separated part must be a non-empty run of digits. */
  function ParseCore(main: string): (r: Option<seq<nat>>)
    ensures r.Some? <==> AllDigitParts(Split(main, '.'))
    ensures r.Some? ==> r.value == Pad(Values(Split(main, '.')))
  {
    var parts := Split(main, '.');
    if forall i | 0 <= i < |parts| :: AllDigits(parts[i]) then Some(Pad(Values(parts))) else None
  }

  /**
   * `_split_version`: `None` where the source raises `ValueError`.
   * Surrounding whitespace is stripped and everything from the first `+`
   * on is dropped before the rest is parsed.
   */
  function SplitVersion(s: string): (r: Option<Version>)
    ensures r.Some? ==> |r.value.core| >= 3
    ensures r.Some? && r.value.pre.Some? ==> forall i | 0 <= i < |r.value.pre.value| :: r.value.pre.value[i] != []
    ensures Strip(s) == [] ==> r == None
  {
    var raw := Strip(s);
    if raw == [] then None else ParseNoBuild(Before(raw, '+'))
  }

  /**
   * The text after the first `-` is the prerelease, split on `.` with
   * empty pieces removed; the text before it is the numeric core.
   */
  function ParseNoBuild(raw: string): (r: Option<Version>)
    ensures r.Some? ==> |r.value.core| >= 3
    ensures r.Some? && r.value.pre.Some? ==> forall i | 0 <= i < |r.value.pre.value| :: r.value.pre.value[i] != []
  {
    var pre := if '-' in raw then Some(NonEmpty(Split(After(raw, '-'), '.'))) else None;
    var core :- ParseCore(Before(raw, '-'));
    Some(Version(core, pre))
  }

  predicate Parses(s: string) {
    SplitVersion(s).Some?
  }

  // ---------------------------------------------------------------------
  // Comparison
  // ---------------------------------------------------------------------

  function CompareNat(a: nat, b: nat): (r: int)
    ensures r == (if a < b then -1 else if a > b then 1 else 0)
  {
    if a < b then -1 else if a > b then 1 else 0
  }

  /** Python's tuple comparison on the numeric cores. */
  function CompareCore(a: seq<nat>, b: seq<nat>): (r: int)
    ensures -1 <= r <= 1
    ensures r == 0 <==> a == b
    decreases |a|
  {
    if |a| == 0 && |b| == 0 then 0
    else if |a| == 0 then -1
    else if |b| == 0 then 1
    else if a[0] != b[0] then CompareNat(a[0], b[0])
    else
      var r := CompareCore(a[1..], b[1..]);
      assert r == 0 ==> a == [a[0]] + a[1..] == [b[0]] + b[1..] == b;
      r
  }

  /** One prerelease identifier against another: numbers numerically, below words; words by code point. */
  function CompareId(x: string, y: string): (r: int)
    ensures -1 <= r <= 1
    ensures AllDigits(x) && !AllDigits(y) ==> r == -1
    ensures !AllDigits(x) && AllDigits(y) ==> r == 1
  {
    if AllDigits(x) && AllDigits(y) then CompareNat(DigitsValue(x), DigitsValue(y))
    else if AllDigits(x) then -1
    else if AllDigits(y) then 1
    else LexCompare(x, y)
  }

  /** The prerelease loop: identifiers pairwise, and a proper prefix ranks lower. */
  function CompareIds(a: seq<string>, b: seq<string>): (r: int)
    ensures -1 <= r <= 1
    decreases |a|
  {
    if |a| == 0 && |b| == 0 then 0
    else if |a| == 0 then -1
    else if |b| == 0 then 1
    else
      var c := CompareId(a[0], b[0]);
      if c != 0 then c else CompareIds(a[1..], b[1..])
  }

  /** No prerelease ranks above any prerelease. */
  function ComparePre(a: Option<seq<string>>, b: Option<seq<string>>): (r: int)
    ensures -1 <= r <= 1
    ensures a.None? && b.Some? ==> r == 1
    ensures a.Some? && b.None? ==> r == -1
  {
    match (a, b)
    case (None, None) => 0
    case (None, Some(_)) => 1
    case (Some(_), None) => -1
    case (Some(x), Some(y)) => CompareIds(x, y)
  }

  function CompareParsed(a: Version, b: Version): (r: int)
    ensures -1 <= r <= 1
    ensures a.core != b.core ==> r == CompareCore(a.core, b.core)
    ensures a.core == b.core ==> r == ComparePre(a.pre, b.pre)
  {
    var c := CompareCore(a.core, b.core);
    if c != 0 then c else ComparePre(a.pre, b.pre)
  }

  /** `compare_versions`: parsed comparison, or string comparison if either side does not parse. */
  function CompareVersions(a: string, b: string): (r: int)
    ensures -1 <= r <= 1
    ensures Parses(a) && Parses(b) ==> r == CompareParsed(SplitVersion(a).value, SplitVersion(b).value)
    ensures !Parses(a) || !Parses(b) ==> r == LexCompare(a, b)
  {
    match (SplitVersion(a), SplitVersion(b))
    case (Some(va), Some(vb)) => CompareParsed(va, vb)
    case _ => LexCompare(a, b)
  }

  // ---------------------------------------------------------------------
  // The comparison is a preorder
  // ---------------------------------------------------------------------

  lemma CompareIdAntisymmetric(x: string, y: string)
    ensures CompareId(x, y) == -CompareId(y, x)
  {
    LexCompareAntisymmetric(x, y);
  }

  lemma CompareIdTransitive(x: string, y: string, z: string)
    requires CompareId(x, y) <= 0 && CompareId(y, z) <= 0
    ensures CompareId(x, z) <= 0
    ensures CompareId(x, y) < 0 || CompareId(y, z) < 0 ==> CompareId(x, z) < 0
  {
    if !AllDigits(x) && !AllDigits(y) && !AllDigits(z) {
      LexCompareTransitive(x, y, z);
    }
  }

  lemma {:induction false} CompareIdsAntisymmetric(a: seq<string>, b: seq<string>)
    ensures CompareIds(a, b) == -CompareIds(b, a)
    decreases |a|
  {
    if |a| > 0 && |b| > 0 {
      CompareIdAntisymmetric(a[0], b[0]);
      CompareIdsAntisymmetric(a[1..], b[1..]);
    }
  }

  lemma {:induction false} CompareIdsReflexive(a: seq<string>)
    ensures CompareIds(a, a) == 0
    decreases |a|
  {
    if |a| > 0 {
      CompareIdAntisymmetric(a[0], a[0]);
      CompareIdsReflexive(a[1..]);
    }
  }

  lemma {:induction false} CompareIdsTransitive(a: seq<string>, b: seq<string>, c: seq<string>)
    requires CompareIds(a, b) <= 0 && CompareIds(b, c) <= 0
    ensures CompareIds(a, c) <= 0
    ensures CompareIds(a, b) < 0 || CompareIds(b, c) < 0 ==> CompareIds(a, c) < 0
    decreases |a|
  {
    if |a| > 0 && |b| > 0 && |c| > 0 {
      var x, y, z := a[0], b[0], c[0];
      CompareIdAntisymmetric(x, y);
      CompareIdAntisymmetric(y, z);
      CompareIdAntisymmetric(x, z);
      if CompareId(x, y) == 0 && CompareId(y, z) == 0 {
        CompareIdTransitive(x, y, z);
        CompareIdTransitive(z, y, x);
        CompareIdsTransitive(a[1..], b[1..], c[1..]);
      } else {
        CompareIdTransitive(x, y, z);
      }
    }
  }

  lemma {:induction false} CompareCoreAntisymmetric(a: seq<nat>, b: seq<nat>)
    ensures CompareCore(a, b) == -CompareCore(b, a)
    decreases |a|
  {
    if |a| > 0 && |b| > 0 && a[0] == b[0] {
      CompareCoreAntisymmetric(a[1..], b[1..]);
    }
  }

  lemma {:induction false} CompareCoreTransitive(a: seq<nat>, b: seq<nat>, c: seq<nat>)
    requires CompareCore(a, b) <= 0 && CompareCore(b, c) <= 0
    ensures CompareCore(a, c) <= 0
    ensures CompareCore(a, b) < 0 || CompareCore(b, c) < 0 ==> CompareCore(a, c) < 0
    decreases |a|
  {
    if |a| > 0 && |b| > 0 && |c| > 0 && a[0] == b[0] && b[0] == c[0] {
      CompareCoreTransitive(a[1..], b[1..], c[1..]);
    }
  }

  lemma ComparePreAntisymmetric(a: Option<seq<string>>, b: Option<seq<string>>)
    ensures ComparePre(a, b) == -ComparePre(b, a)
  {
    if a.Some? && b.Some? {
      CompareIdsAntisymmetric(a.value, b.value);
    }
  }

  lemma ComparePreTransitive(a: Option<seq<string>>, b: Option<seq<string>>, c: Option<seq<string>>)
    requires ComparePre(a, b) <= 0 && ComparePre(b, c) <= 0
    ensures ComparePre(a, c) <= 0
    ensures ComparePre(a, b) < 0 || ComparePre(b, c) < 0 ==> ComparePre(a, c) < 0
  {
    if a.Some? && b.Some? && c.Some? {
      CompareIdsTransitive(a.value, b.value, c.value);
    }
  }

  lemma CompareParsedAntisymmetric(a: Version, b: Version)
    ensures CompareParsed(a, b) == -CompareParsed(b, a)
  {
    CompareCoreAntisymmetric(a.core, b.core);
    ComparePreAntisymmetric(a.pre, b.pre);
  }

  lemma CompareParsedTransitive(a: Version, b: Version, c: Version)
    requires CompareParsed(a, b) <= 0 && CompareParsed(b, c) <= 0
    ensures CompareParsed(a, c) <= 0
    ensures CompareParsed(a, b) < 0 || CompareParsed(b, c) < 0 ==> CompareParsed(a, c) < 0
  {
    if a.core == b.core && b.core == c.core {
      ComparePreTransitive(a.pre, b.pre, c.pre);
    } else {
      CompareCoreTransitive(a.core, b.core, c.core);
    }
  }

  /** `compare_versions(a, a) == 0`, parsed or not. */
  lemma CompareVersionsReflexive(a: string)
    ensures CompareVersions(a, a) == 0
  {
    if Parses(a) {
      CompareIdsReflexive(if SplitVersion(a).value.pre.Some? then SplitVersion(a).value.pre.value else []);
    }
  }

  /** `compare_versions(a, b) == -compare_versions(b, a)`, parsed or not. */
  lemma CompareVersionsAntisymmetric(a: string, b: string)
    ensures CompareVersions(a, b) == -CompareVersions(b, a)
  {
    if Parses(a) && Parses(b) {
      CompareParsedAntisymmetric(SplitVersion(a).value, SplitVersion(b).value);
    } else {
      LexCompareAntisymmetric(a, b);
    }
  }

  /**
   * Transitivity holds among versions that all parse, and among strings
   * none of which parses; across the two kinds it is not promised.
   */
  lemma CompareVersionsTransitive(a: string, b: string, c: string)
    requires (Parses(a) && Parses(b) && Parses(c)) || (!Parses(a) && !Parses(b) && !Parses(c))
    requires CompareVersions(a, b) <= 0 && CompareVersions(b, c) <= 0
    ensures CompareVersions(a, c) <= 0
    ensures CompareVersions(a, b) < 0 || CompareVersions(b, c) < 0 ==> CompareVersions(a, c) < 0
  {
    if Parses(a) {
      CompareParsedTransitive(SplitVersion(a).value, SplitVersion(b).value, SplitVersion(c).value);
    } else {
      LexCompareTransitive(a, b, c);
    }
  }

  /** Across parsed and unparsed strings the order can cycle: 10.0.0 < 1x < 9.0.0 < 10.0.0. */
  lemma MixedOrderCycles(a: string, b: string, c: string)
    requires a == "10.0.0" && b == "1x" && c == "9.0.0"
    ensures CompareVersions(a, b) == -1
    ensures CompareVersions(b, c) == -1
    ensures CompareVersions(c, a) == -1
  {
    OneXDoesNotParse();
    CycleStep1(a, b);
    CycleStep2(b, c);
    SmallVersionsParse();
    CycleStep3(c, a);
  }

  lemma CycleStep1(a: string, b: string)
    requires a == "10.0.0" && b == "1x" && !Parses(b)
    ensures CompareVersions(a, b) == -1
  {
    LexCycleStep1();
  }

  lemma LexCycleStep1()
    ensures LexCompare("10.0.0", "1x") == -1
  {
    assert LexCompare("10.0.0", "1x") == LexCompare("0.0.0", "x");
  }

  lemma CycleStep2(b: string, c: string)
    requires b == "1x" && c == "9.0.0" && !Parses(b)
    ensures CompareVersions(b, c) == -1
  {
    assert LexCompare("1x", "9.0.0") == -1;
  }

  lemma CycleStep3(c: string, a: string)
    requires SplitVersion(c) == Some(Version([9, 0, 0], None))
    requires SplitVersion(a) == Some(Version([10, 0, 0], None))
    ensures CompareVersions(c, a) == -1
  {
    CoreNineTen([9, 0, 0], [10, 0, 0]);
  }

  lemma CoreNineTen(x: seq<nat>, y: seq<nat>)
    requires x == [9, 0, 0] && y == [10, 0, 0]
    ensures CompareCore(x, y) == -1
  {
    assert x[0] != y[0];
  }

  lemma OneXDoesNotParse()
    ensures !Parses("1x")
  {
    assert Strip("1x") == "1x";
    assert Before("1x", '+') == "1x";
    assert Before("1x", '-') == "1x";
    assert Split("1x", '.') == ["1x"];
    assert !AllDigits("1x") by { assert !IsDigit("1x"[1]); }
  }

  lemma SmallVersionsParse()
    ensures SplitVersion("9.0.0") == Some(Version([9, 0, 0], None))
    ensures SplitVersion("10.0.0") == Some(Version([10, 0, 0], None))
  {
    RenderSmall();
    ParseRender(Version([9, 0, 0], None));
    ParseRender(Version([10, 0, 0], None));
    assert Pad([9, 0, 0]) == [9, 0, 0];
    assert Pad([10, 0, 0]) == [10, 0, 0];
  }

  lemma RenderSmall()
    ensures Render(Version([9, 0, 0], None)) == "9.0.0"
    ensures Render(Version([10, 0, 0], None)) == "10.0.0"
  {
    assert NatToString(1) == "1";
    assert NatToString(0) == "0";
    assert NatToString(9) == "9";
    assert NatToString(10) == "10";
    var n9 := NumStrings([9, 0, 0]);
    assert n9 == ["9", "0", "0"];
    assert n9[1..] == ["0", "0"];
    assert n9[1..][1..] == ["0"];
    var n10 := NumStrings([10, 0, 0]);
    assert n10 == ["10", "0", "0"];
    assert n10[1..] == ["0", "0"];
    assert n10[1..][1..] == ["0"];
  }

  // ---------------------------------------------------------------------
  // Rendering, and what parsing ignores
  // ---------------------------------------------------------------------

  /** `str(n)` of each component. */
  function NumStrings(core: seq<nat>): (r: seq<string>)
    ensures |r| == |core|
    ensures forall i | 0 <= i < |core| :: r[i] == NatToString(core[i])
  {
    if |core| == 0 then [] else [NatToString(core[0])] + NumStrings(core[1..])
  }

  /** A prerelease identifier that survives a render/parse round trip. */
  predicate WellFormedId(x: string) {
    |x| > 0 && '.' !in x && '+' !in x && NoSpace(x)
  }

  predicate Renderable(v: Version) {
    |v.core| >= 1 && (v.pre.Some? ==> forall i | 0 <= i < |v.pre.value| :: WellFormedId(v.pre.value[i]))
  }

  /** The canonical text of a version: `1.2.3`, `1.2.3-rc.1`. */
  function Render(v: Version): string {
    Join(NumStrings(v.core), ".") + match v.pre case None => "" case Some(ids) => "-" + Join(ids, ".")
  }

  lemma {:induction false} NumStringsDigits(core: seq<nat>)
    ensures AllDigitParts(NumStrings(core))
    ensures forall i | 0 <= i < |core| :: '.' !in NumStrings(core)[i] && '-' !in NumStrings(core)[i]
    ensures Values(NumStrings(core)) == core
  {
    var ns := NumStrings(core);
    forall i | 0 <= i < |core| ensures '.' !in ns[i] && '-' !in ns[i] && DigitsValue(ns[i]) == core[i] {
      NatToStringRoundTrip(core[i]);
    }
  }

  /** Every character of a join comes from the separator or from one of the pieces. */
  lemma {:induction false} JoinMember(parts: seq<string>, sep: string, c: char)
    requires c in Join(parts, sep)
    ensures c in sep || exists i :: 0 <= i < |parts| && c in parts[i]
    decreases |parts|
  {
    if |parts| > 1 {
      var rest := Join(parts[1..], sep);
      assert Join(parts, sep) == parts[0] + sep + rest;
      if c !in parts[0] && c !in sep {
        JoinMember(parts[1..], sep, c);
        var i :| 0 <= i < |parts| - 1 && c in parts[1..][i];
        assert c in parts[i + 1];
      }
    }
  }

  lemma JoinAvoids(parts: seq<string>, sep: string, c: char)
    requires c !in sep && forall i | 0 <= i < |parts| :: c !in parts[i]
    ensures c !in Join(parts, sep)
  {
    if c in Join(parts, sep) {
      JoinMember(parts, sep, c);
    }
  }

  lemma JoinNoSpace(parts: seq<string>, sep: string)
    requires NoSpace(sep) && forall i | 0 <= i < |parts| :: NoSpace(parts[i])
    ensures NoSpace(Join(parts, sep))
  {
    var j := Join(parts, sep);
    forall k | 0 <= k < |j| ensures !IsSpace(j[k]) {
      JoinMember(parts, sep, j[k]);
    }
  }

  lemma JoinNonEmpty(parts: seq<string>, sep: string)
    requires |parts| >= 1 && |parts[0]| > 0
    ensures |Join(parts, sep)| > 0
  {
  }

  lemma NoSpaceConcat(a: string, b: string)
    requires NoSpace(a) && NoSpace(b)
    ensures NoSpace(a + b)
  {
    forall k | 0 <= k < |a + b| ensures !IsSpace((a + b)[k]) {
      if k >= |a| { assert (a + b)[k] == b[k - |a|]; }
    }
  }

  /** The rendered core: non-empty, free of whitespace, `-` and `+`, and it parses back. */
  lemma RenderCoreFacts(core: seq<nat>)
    requires |core| >= 1
    ensures var main := Join(NumStrings(core), ".");
      |main| > 0 && NoSpace(main) && '-' !in main && '+' !in main && ParseCore(main) == Some(Pad(core))
  {
    var ns := NumStrings(core);
    NumStringsDigits(core);
    forall i | 0 <= i < |ns| ensures NoSpace(ns[i]) && '+' !in ns[i] {
      assert AllDigits(ns[i]);
    }
    JoinAvoids(ns, ".", '-');
    JoinAvoids(ns, ".", '+');
    JoinNoSpace(ns, ".");
    JoinNonEmpty(ns, ".");
    SplitJoin(ns, '.');
  }

  /** The rendered prerelease: free of whitespace and `+`, and its pieces split back. */
  lemma RenderPreFacts(ids: seq<string>)
    requires forall i | 0 <= i < |ids| :: WellFormedId(ids[i])
    ensures var tail := Join(ids, ".");
      NoSpace(tail) && '+' !in tail && NonEmpty(Split(tail, '.')) == ids
  {
    forall i | 0 <= i < |ids| ensures NoSpace(ids[i]) && '+' !in ids[i] && '.' !in ids[i] {
      assert WellFormedId(ids[i]);
    }
    JoinAvoids(ids, ".", '+');
    JoinNoSpace(ids, ".");
    if |ids| == 0 {
      assert Split(Join(ids, "."), '.') == [[]];
    } else {
      SplitJoin(ids, '.');
    }
  }

  /** A clean string (no whitespace, no `+`) is parsed as it stands. */
  lemma SplitVersionClean(s: string)
    requires |s| > 0 && NoSpace(s) && '+' !in s
    ensures SplitVersion(s) == ParseNoBuild(s)
  {
    StripNoop(s);
    BeforeAfter(s, '+');
  }

  /**
   * Parsing a rendered version gives it back, with the core padded to
   * three components.
   */
  lemma ParseRender(v: Version)
    requires Renderable(v)
    ensures SplitVersion(Render(v)) == Some(Version(Pad(v.core), v.pre))
  {
    var main := Join(NumStrings(v.core), ".");
    RenderCoreFacts(v.core);
    match v.pre {
      case None =>
        assert Render(v) == main;
        SplitVersionClean(main);
        BeforeAfter(main, '-');
      case Some(ids) =>
        var tail := Join(ids, ".");
        RenderPreFacts(ids);
        var s := main + ['-'] + tail;
        assert Render(v) == s;
        NoSpaceConcat(main, ['-']);
        NoSpaceConcat(main + ['-'], tail);
        SplitVersionClean(s);
        BeforeAfterJoin(main, '-', tail);
        assert '-' in s;
    }
  }

  /** Surrounding whitespace does not change the parse. */
  lemma SplitVersionSurrounding(l: string, s: string, r: string)
    requires AllSpace(l) && AllSpace(r)
    ensures SplitVersion(l + s + r) == SplitVersion(s)
  {
    StripSurrounding(l, s, r);
  }

  /** Stripping `s + "+" + b` where `s` is already stripped keeps `s + "+"` intact. */
  lemma StripBuild(s: string, b: string)
    requires |s| > 0 && !IsSpace(s[0])
    ensures Strip(s + "+" + b) == s + "+" + TrimRight(b)
  {
    var p := s + "+";
    var t := s + "+" + b;
    assert t == p + b;
    assert t[0] == s[0];
    assert TrimLeft(t) == t;
    assert p[|p| - 1] == '+';
    assert TrimRight(p) == p;
    TrimRightPrepend(p, b);
    assert TrimRight(p + b) == p + TrimRight(b) by {
      if TrimRight(b) == [] {
        assert p + TrimRight(b) == p;
      }
    }
  }

  /** `+build` metadata does not change the parse. */
  lemma SplitVersionBuild(s: string, build: string)
    requires |s| > 0 && Strip(s) == s && '+' !in s
    ensures SplitVersion(s + "+" + build) == SplitVersion(s)
  {
    assert !IsSpace(Strip(s)[0]);
    StripBuild(s, build);
    BeforeAfterJoin(s, '+', TrimRight(build));
    BeforeAfter(s, '+');
  }

  /** Short cores are padded with zeros: `1.2` is `1.2.0`. */
  lemma PaddingIgnored(core: seq<nat>, pre: Option<seq<string>>)
    requires Renderable(Version(core, pre)) && |core| < 3
    ensures CompareVersions(Render(Version(core, pre)), Render(Version(core + [0], pre))) == 0
  {
    var v := Version(core, pre);
    var w := Version(core + [0], pre);
    ParseRender(v);
    ParseRender(w);
    assert Pad(core) == Pad(core + [0]);
    CompareIdsReflexive(if pre.Some? then pre.value else []);
  }

  /** With equal cores, a release ranks above any prerelease. */
  lemma ReleaseAbovePrerelease(core: seq<nat>, ids: seq<string>)
    ensures CompareParsed(Version(core, None), Version(core, Some(ids))) == 1
  {
  }

  /** Numeric identifiers compare as numbers, and below alphanumeric ones. */
  lemma NumericIdentifiers(x: string, y: string)
    requires AllDigits(x)
    ensures AllDigits(y) ==> CompareId(x, y) == CompareNat(DigitsValue(x), DigitsValue(y))
    ensures !AllDigits(y) ==> CompareId(x, y) == -1
  {
  }

  /** A prerelease that is a proper prefix of another ranks lower. */
  lemma {:induction false} PrefixPrereleaseLower(p: seq<string>, q: seq<string>)
    requires |q| > 0
    ensures CompareIds(p, p + q) == -1
    decreases |p|
  {
    if |p| > 0 {
      CompareIdAntisymmetric(p[0], p[0]);
      assert (p + q)[1..] == p[1..] + q;
      PrefixPrereleaseLower(p[1..], q);
    }
  }
}
