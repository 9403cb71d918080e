/**
 * The handful of Python `str` operations the source relies on, over
 * `string` (= `seq<char>`): `strip`, `split`, `replace`, `lower`,
 * `isdigit`, `int(...)`, `str(int)` and the lexicographic `<` on strings.
 * Digits and case are the ASCII ones; white space is Python's.
 */
module Strs {

  // ---------------------------------------------------------------------
  // Character classes
  // ---------------------------------------------------------------------

  /**
   * The characters for which Python's `str.isspace()` holds, which are
   * also the ones `str.strip()`, `str.split()` and the regular-expression
   * class `\s` treat as white space: the ASCII ones and the Unicode
   * separators of bidirectional class WS, B or S.
   */
  predicate IsSpace(c: char) {
    || c == ' ' || (9 <= c as int <= 13) || (28 <= c as int <= 31)
    || c as int == 0x85 || c as int == 0xA0 || c as int == 0x1680
    || (0x2000 <= c as int <= 0x200A)
    || c as int == 0x2028 || c as int == 0x2029 || c as int == 0x202F
    || c as int == 0x205F || c as int == 0x3000
  }

  predicate AllSpace(s: string) {
    forall i :: 0 <= i < |s| ==> IsSpace(s[i])
  }

  predicate NoSpace(s: string) {
    forall i :: 0 <= i < |s| ==> !IsSpace(s[i])
  }

  predicate IsDigit(c: char) {
    '0' <= c <= '9'
  }

  predicate IsAlpha(c: char) {
    ('a' <= c <= 'z') || ('A' <= c <= 'Z')
  }

  predicate IsAlnum(c: char) {
    IsDigit(c) || IsAlpha(c)
  }

  /** Letters and digits are never white space. */
  lemma AlnumNotSpace(c: char)
    requires IsAlnum(c)
    ensures !IsSpace(c)
  {
  }

  /** Python's `s.isdigit()`: non-empty and made of digits only. */
  predicate AllDigits(s: string) {
    |s| > 0 && forall i :: 0 <= i < |s| ==> IsDigit(s[i])
  }

  // ---------------------------------------------------------------------
  // Prefixes and substrings
  // ---------------------------------------------------------------------

  predicate StartsWith(s: string, p: string) {
    |p| <= |s| && s[..|p|] == p
  }

  predicate EndsWith(s: string, p: string) {
    |p| <= |s| && s[|s| - |p|..] == p
  }

  /** Python's `sub in s` for strings. */
  predicate ContainsStr(s: string, sub: string)
    decreases |s|
  {
    StartsWith(s, sub) || (|s| > 0 && ContainsStr(s[1..], sub))
  }

  // ---------------------------------------------------------------------
  // strip()
  // ---------------------------------------------------------------------

  /** Python's `s.lstrip()`. */
  function TrimLeft(s: string): (r: string)
    ensures |r| <= |s| && r == s[|s| - |r|..]
    ensures |r| > 0 ==> !IsSpace(r[0])
    decreases |s|
  {
    if |s| > 0 && IsSpace(s[0]) then TrimLeft(s[1..]) else s
  }

  /** Python's `s.rstrip()`. */
  function TrimRight(s: string): (r: string)
    ensures |r| <= |s| && r == s[..|r|]
    ensures |r| > 0 ==> !IsSpace(r[|r| - 1])
    decreases |s|
  {
    if |s| > 0 && IsSpace(s[|s| - 1]) then TrimRight(s[..|s| - 1]) else s
  }

  /** Python's `s.strip()`. */
  function Strip(s: string): (r: string)
    ensures |r| <= |s|
    ensures |r| > 0 ==> !IsSpace(r[0]) && !IsSpace(r[|r| - 1])
  {
    var t := TrimLeft(s);
    assert |TrimRight(t)| > 0 ==> TrimRight(t)[0] == t[0];
    TrimRight(t)
  }

  lemma {:induction false} TrimLeftEmpty(s: string)
    ensures TrimLeft(s) == [] <==> AllSpace(s)
    decreases |s|
  {
    if |s| > 0 {
      TrimLeftEmpty(s[1..]);
      if AllSpace(s) {
        assert AllSpace(s[1..]) by {
          forall i | 0 <= i < |s| - 1 ensures IsSpace(s[1..][i]) {
            assert s[1..][i] == s[i + 1];
          }
        }
      }
    }
  }

  lemma {:induction false} TrimRightEmpty(s: string)
    ensures TrimRight(s) == [] <==> AllSpace(s)
    decreases |s|
  {
    if |s| > 0 {
      TrimRightEmpty(s[..|s| - 1]);
    }
  }

  /** Leading whitespace is invisible to `lstrip`. */
  lemma {:induction false} TrimLeftSpacePrefix(w: string, x: string)
    requires AllSpace(w)
    ensures TrimLeft(w + x) == TrimLeft(x)
    decreases |w|
  {
    if |w| > 0 {
      assert (w + x)[1..] == w[1..] + x;
      TrimLeftSpacePrefix(w[1..], x);
    } else {
      assert w + x == x;
    }
  }

  /** Trailing whitespace is invisible to `rstrip`. */
  lemma {:induction false} TrimRightSpaceSuffix(x: string, w: string)
    requires AllSpace(w)
    ensures TrimRight(x + w) == TrimRight(x)
    decreases |w|
  {
    if |w| > 0 {
      assert (x + w)[..|x + w| - 1] == x + w[..|w| - 1];
      TrimRightSpaceSuffix(x, w[..|w| - 1]);
    } else {
      assert x + w == x;
    }
  }

  /** `lstrip` of a concatenation: it only reaches into `r` when `x` is all whitespace. */
  lemma {:induction false} TrimLeftAppend(x: string, r: string)
    ensures TrimLeft(x + r) == if TrimLeft(x) == [] then TrimLeft(r) else TrimLeft(x) + r
    decreases |x|
  {
    if |x| == 0 {
      assert x + r == r;
    } else if IsSpace(x[0]) {
      assert (x + r)[1..] == x[1..] + r;
      TrimLeftAppend(x[1..], r);
    }
  }

  /** `rstrip` of a concatenation: it only reaches into `l` when `x` is all whitespace. */
  lemma {:induction false} TrimRightPrepend(l: string, x: string)
    ensures TrimRight(l + x) == if TrimRight(x) == [] then TrimRight(l) else l + TrimRight(x)
    decreases |x|
  {
    if |x| == 0 {
      assert l + x == l;
    } else if IsSpace(x[|x| - 1]) {
      assert (l + x)[..|l + x| - 1] == l + x[..|x| - 1];
      TrimRightPrepend(l, x[..|x| - 1]);
    }
  }

  /** Surrounding whitespace never changes the stripped string. */
  lemma StripSurrounding(l: string, x: string, r: string)
    requires AllSpace(l) && AllSpace(r)
    ensures Strip(l + x + r) == Strip(x)
  {
    assert l + x + r == l + (x + r);
    TrimLeftSpacePrefix(l, x + r);
    TrimLeftAppend(x, r);
    if TrimLeft(x) == [] {
      TrimLeftEmpty(r);
      TrimLeftEmpty(TrimLeft(r));
    } else {
      TrimRightSpaceSuffix(TrimLeft(x), r);
    }
  }

  /** A string that neither starts nor ends with whitespace is its own strip. */
  lemma StripNoop(s: string)
    requires |s| == 0 || (!IsSpace(s[0]) && !IsSpace(s[|s| - 1]))
    ensures Strip(s) == s
  {
  }

  /** What `lstrip()` removes is whitespace. */
  lemma {:induction false} TrimLeftRemoved(s: string)
    ensures AllSpace(s[..|s| - |TrimLeft(s)|])
    decreases |s|
  {
    if |s| > 0 && IsSpace(s[0]) {
      TrimLeftRemoved(s[1..]);
      assert s[..|s| - |TrimLeft(s)|] == [s[0]] + s[1..][..|s| - 1 - |TrimLeft(s)|];
    }
  }

  /** What `rstrip()` removes is whitespace. */
  lemma {:induction false} TrimRightRemoved(s: string)
    ensures AllSpace(s[|TrimRight(s)|..])
    decreases |s|
  {
    if |s| > 0 && IsSpace(s[|s| - 1]) {
      TrimRightRemoved(s[..|s| - 1]);
      assert s[|TrimRight(s)|..] == s[..|s| - 1][|TrimRight(s)|..] + [s[|s| - 1]];
    }
  }

  /** Cutting a string anywhere and rejoining the halves gives it back. */
  lemma SliceJoin(s: string, k: nat)
    requires k <= |s|
    ensures s == s[..k] + s[k..]
  {
  }

  /** `s` is its strip with whitespace on either side. */
  lemma StripParts(s: string) returns (l: string, r: string)
    ensures AllSpace(l) && AllSpace(r) && s == l + Strip(s) + r
  {
    var t := TrimLeft(s);
    var u := TrimRight(t);
    TrimLeftRemoved(s);
    TrimRightRemoved(t);
    l := s[..|s| - |t|];
    r := t[|u|..];
    SliceJoin(s, |s| - |t|);
    SliceJoin(t, |u|);
    assert Strip(s) == u;
    assert s == l + (u + r);
    assert l + (u + r) == l + u + r;
  }

  /** Every character of `s.strip()` is a character of `s`. */
  lemma StripMember(s: string, c: char)
    requires c in Strip(s)
    ensures c in s
  {
    var l, r := StripParts(s);
    assert c in l + Strip(s) + r;
  }

  lemma StripIdempotent(s: string)
    ensures Strip(Strip(s)) == Strip(s)
  {
    StripNoop(Strip(s));
  }

  /** `s.strip()` is empty exactly when `s` is all whitespace. */
  lemma StripEmpty(s: string)
    ensures Strip(s) == [] <==> AllSpace(s)
  {
    TrimLeftEmpty(s);
    TrimRightEmpty(TrimLeft(s));
  }

  // ---------------------------------------------------------------------
  // One-character separators: split(c), split(c, 1), rfind(c), join
  // ---------------------------------------------------------------------

  /** Text before the first `c` (all of `s` when there is none). */
  function Before(s: string, c: char): (r: string)
    ensures c !in r
    decreases |s|
  {
    if |s| == 0 || s[0] == c then [] else [s[0]] + Before(s[1..], c)
  }

  /** Text after the first `c` (empty when there is none). */
  function After(s: string, c: char): string
    decreases |s|
  {
    if |s| == 0 then []
    else if s[0] == c then s[1..]
    else After(s[1..], c)
  }

  /** `s.split(c, 1)` splits at the first separator and loses nothing. */
  lemma {:induction false} BeforeAfter(s: string, c: char)
    ensures c in s ==> s == Before(s, c) + [c] + After(s, c)
    ensures c !in s ==> Before(s, c) == s && After(s, c) == []
    decreases |s|
  {
    if |s| > 0 && s[0] != c {
      BeforeAfter(s[1..], c);
      assert c in s <==> c in s[1..] by {
        assert s == [s[0]] + s[1..];
      }
    }
  }

  /** Splitting `p + c + t` at the first `c` recovers `p` and `t` when `p` has no `c`. */
  lemma {:induction false} BeforeAfterJoin(p: string, c: char, t: string)
    requires c !in p
    ensures Before(p + [c] + t, c) == p
    ensures After(p + [c] + t, c) == t
    decreases |p|
  {
    if |p| > 0 {
      assert (p + [c] + t)[1..] == p[1..] + [c] + t;
      BeforeAfterJoin(p[1..], c, t);
    }
  }

  /** Index of the last occurrence of `c`, or -1 (Python `s.rfind(c)`). */
  function RFind(s: string, c: char): (i: int)
    ensures -1 <= i < |s|
    ensures i >= 0 ==> s[i] == c
    ensures forall j :: i < j < |s| ==> s[j] != c
    decreases |s|
  {
    if |s| == 0 then -1
    else if s[|s| - 1] == c then |s| - 1
    else RFind(s[..|s| - 1], c)
  }

  /** Python's `s.split(c)` for a one-character separator. */
  function Split(s: string, c: char): (parts: seq<string>)
    ensures |parts| >= 1
    ensures forall k :: 0 <= k < |parts| ==> c !in parts[k]
    decreases |s|
  {
    if |s| == 0 then [[]]
    else
      var rest := Split(s[1..], c);
      if s[0] == c then [[]] + rest
      else [[s[0]] + rest[0]] + rest[1..]
  }

  /** `sep.join(parts)`. */
  function Join(parts: seq<string>, sep: string): string
    decreases |parts|
  {
    if |parts| == 0 then []
    else if |parts| == 1 then parts[0]
    else parts[0] + sep + Join(parts[1..], sep)
  }

  lemma JoinCons(x: string, rest: seq<string>, sep: string)
    requires |rest| >= 1
    ensures Join([x] + rest, sep) == x + sep + Join(rest, sep)
  {
    assert ([x] + rest)[1..] == rest;
  }

  lemma JoinPrependChar(a: char, x: string, rest: seq<string>, sep: string)
    ensures Join([[a] + x] + rest, sep) == [a] + Join([x] + rest, sep)
  {
    if |rest| >= 1 {
      JoinCons([a] + x, rest, sep);
      JoinCons(x, rest, sep);
    }
  }

  /** Splitting and re-joining on a separator character gives the string back. */
  lemma {:induction false} JoinSplit(s: string, c: char)
    ensures Join(Split(s, c), [c]) == s
    decreases |s|
  {
    if |s| > 0 {
      var rest := Split(s[1..], c);
      JoinSplit(s[1..], c);
      if s[0] == c {
        JoinCons([], rest, [c]);
      } else {
        JoinPrependChar(s[0], rest[0], rest[1..], [c]);
        assert [rest[0]] + rest[1..] == rest;
      }
    }
  }

  /** Splitting `p + t` where `p` has no separator glues `p` onto the first piece of `t`. */
  lemma {:induction false} SplitPrefix(p: string, t: string, c: char)
    requires c !in p
    ensures Split(p + t, c) == [p + Split(t, c)[0]] + Split(t, c)[1..]
    decreases |p|
  {
    if |p| == 0 {
      assert p + t == t;
      assert p + Split(t, c)[0] == Split(t, c)[0];
      assert [Split(t, c)[0]] + Split(t, c)[1..] == Split(t, c);
    } else {
      assert (p + t)[1..] == p[1..] + t;
      SplitPrefix(p[1..], t, c);
      assert [p[0]] + (p[1..] + Split(t, c)[0]) == p + Split(t, c)[0];
    }
  }

  /** Joining pieces free of the separator and splitting again gives the pieces back. */
  lemma {:induction false} SplitJoin(parts: seq<string>, c: char)
    requires |parts| >= 1
    requires forall k :: 0 <= k < |parts| ==> c !in parts[k]
    ensures Split(Join(parts, [c]), c) == parts
    decreases |parts|
  {
    if |parts| == 1 {
      SplitPrefix(parts[0], [], c);
      assert parts[0] + [] == parts[0];
    } else {
      var rest := parts[1..];
      SplitJoin(rest, c);
      var t := [c] + Join(rest, [c]);
      assert Join(parts, [c]) == parts[0] + t;
      assert t[1..] == Join(rest, [c]);
      SplitPrefix(parts[0], t, c);
      assert Split(t, c) == [[]] + rest;
      assert parts[0] + [] == parts[0];
      assert [parts[0]] + rest == parts;
    }
  }

  // ---------------------------------------------------------------------
  // split() with no argument
  // ---------------------------------------------------------------------

  /** The word being accumulated, as a list of zero or one words. */
  function Flush(cur: string): seq<string> {
    if cur == [] then [] else [cur]
  }

  /**
   * Scans `s` for maximal runs of non-whitespace; `cur` is the run read
   * so far.
   */
  function Words(s: string, cur: string): (words: seq<string>)
    requires NoSpace(cur)
    ensures forall k :: 0 <= k < |words| ==> |words[k]| > 0 && NoSpace(words[k])
    decreases |s|
  {
    if |s| == 0 then Flush(cur)
    else if IsSpace(s[0]) then Flush(cur) + Words(s[1..], [])
    else Words(s[1..], cur + [s[0]])
  }

  /** Python's `s.split()`: the maximal runs of non-whitespace characters. */
  function SplitWhitespace(s: string): (words: seq<string>)
    ensures forall k :: 0 <= k < |words| ==> |words[k]| > 0 && NoSpace(words[k])
  {
    Words(s, [])
  }

  lemma {:induction false} WordsAllSpace(w: string, cur: string)
    requires NoSpace(cur) && AllSpace(w)
    ensures Words(w, cur) == Flush(cur)
    decreases |w|
  {
    if |w| > 0 {
      WordsAllSpace(w[1..], []);
    }
  }

  /** Leading whitespace does not change `s.split()`. */
  lemma {:induction false} SplitWhitespaceLeading(w: string, x: string)
    requires AllSpace(w)
    ensures SplitWhitespace(w + x) == SplitWhitespace(x)
    decreases |w|
  {
    if |w| == 0 {
      assert w + x == x;
    } else {
      assert (w + x)[1..] == w[1..] + x;
      SplitWhitespaceLeading(w[1..], x);
    }
  }

  /** Words of `a + " " + b` when the scan of `a` starts with `cur` pending. */
  lemma {:induction false} WordsConcat(a: string, b: string, cur: string)
    requires NoSpace(cur)
    ensures Words(a + " " + b, cur) == Words(a, cur) + Words(b, [])
    decreases |a|
  {
    var s := a + " " + b;
    if |a| == 0 {
      assert s == " " + b;
      assert s[1..] == b;
    } else {
      assert s[0] == a[0];
      assert s[1..] == a[1..] + " " + b;
      if IsSpace(a[0]) {
        WordsConcat(a[1..], b, []);
      } else {
        WordsConcat(a[1..], b, cur + [a[0]]);
      }
    }
  }

  /** Splitting `a + " " + b` on whitespace splits `a` and `b` separately. */
  lemma SplitWhitespaceConcat(a: string, b: string)
    ensures SplitWhitespace(a + " " + b) == SplitWhitespace(a) + SplitWhitespace(b)
  {
    WordsConcat(a, b, []);
  }

  lemma {:induction false} WordsNoSpace(s: string, cur: string)
    requires NoSpace(cur) && NoSpace(s)
    ensures Words(s, cur) == Flush(cur + s)
    decreases |s|
  {
    if |s| == 0 {
      assert cur + s == cur;
    } else {
      assert (cur + [s[0]]) + s[1..] == cur + s;
      WordsNoSpace(s[1..], cur + [s[0]]);
    }
  }

  /** A string without whitespace is a single word (or none when empty). */
  lemma SplitWhitespaceWord(s: string)
    requires NoSpace(s)
    ensures SplitWhitespace(s) == if |s| == 0 then [] else [s]
  {
    WordsNoSpace(s, []);
    assert [] + s == s;
  }

  lemma SplitWhitespaceAllSpace(s: string)
    requires AllSpace(s)
    ensures SplitWhitespace(s) == []
  {
    WordsAllSpace(s, []);
  }

  /** Trailing whitespace does not change `s.split()`. */
  lemma {:induction false} WordsTrailing(x: string, w: string, cur: string)
    requires NoSpace(cur) && AllSpace(w)
    ensures Words(x + w, cur) == Words(x, cur)
    decreases |x|
  {
    if |x| == 0 {
      assert x + w == w;
      WordsAllSpace(w, cur);
    } else {
      assert (x + w)[1..] == x[1..] + w;
      if IsSpace(x[0]) {
        WordsTrailing(x[1..], w, []);
      } else {
        WordsTrailing(x[1..], w, cur + [x[0]]);
      }
    }
  }

  /** Whitespace around a string does not change its `split()`. */
  lemma SplitWhitespaceSurrounding(l: string, x: string, r: string)
    requires AllSpace(l) && AllSpace(r)
    ensures SplitWhitespace(l + x + r) == SplitWhitespace(x)
  {
    assert l + x + r == l + (x + r);
    SplitWhitespaceLeading(l, x + r);
    WordsTrailing(x, r, []);
  }

  // ---------------------------------------------------------------------
  // replace()
  // ---------------------------------------------------------------------

  /**
   * Python's `s.replace(pat, rep)`: every leftmost, non-overlapping
   * occurrence of `pat` is replaced, scanning left to right.
   */
  function Replace(s: string, pat: string, rep: string): string
    requires |pat| > 0
    decreases |s|
  {
    if |s| == 0 then []
    else if StartsWith(s, pat) then rep + Replace(s[|pat|..], pat, rep)
    else [s[0]] + Replace(s[1..], pat, rep)
  }

  /**
   * Python's `s.split(sep)` for a non-empty separator string: the pieces
   * between leftmost non-overlapping occurrences; `cur` is the piece
   * being accumulated.
   */
  function SplitStr(s: string, sep: string, cur: string): (parts: seq<string>)
    requires |sep| > 0
    ensures |parts| >= 1
    decreases |s|
  {
    if |s| == 0 then [cur]
    else if StartsWith(s, sep) then [cur] + SplitStr(s[|sep|..], sep, [])
    else SplitStr(s[1..], sep, cur + [s[0]])
  }

  /** `s.replace(pat, rep) == rep.join(s.split(pat))`, the defining identity of `str.replace`. */
  lemma {:induction false} ReplaceIsSplitJoin(s: string, pat: string, rep: string, cur: string)
    requires |pat| > 0
    ensures cur + Replace(s, pat, rep) == Join(SplitStr(s, pat, cur), rep)
    decreases |s|
  {
    if |s| == 0 {
      assert cur + [] == cur;
    } else if StartsWith(s, pat) {
      var rest := SplitStr(s[|pat|..], pat, []);
      ReplaceIsSplitJoin(s[|pat|..], pat, rep, []);
      assert [] + Replace(s[|pat|..], pat, rep) == Join(rest, rep);
      JoinCons(cur, rest, rep);
      assert cur + (rep + Replace(s[|pat|..], pat, rep)) == cur + rep + Join(rest, rep);
    } else {
      ReplaceIsSplitJoin(s[1..], pat, rep, cur + [s[0]]);
      assert cur + ([s[0]] + Replace(s[1..], pat, rep)) == (cur + [s[0]]) + Replace(s[1..], pat, rep);
    }
  }

  /** Re-joining the pieces with the separator itself restores the string. */
  lemma {:induction false} SplitStrJoin(s: string, sep: string, cur: string)
    requires |sep| > 0
    ensures Join(SplitStr(s, sep, cur), sep) == cur + s
    decreases |s|
  {
    if |s| == 0 {
      assert cur + s == cur;
    } else if StartsWith(s, sep) {
      var tail := s[|sep|..];
      SplitStrJoin(tail, sep, []);
      SplitStrJoinStep(s, sep, cur, SplitStr(tail, sep, []));
    } else {
      SplitStrJoin(s[1..], sep, cur + [s[0]]);
      assert (cur + [s[0]]) + s[1..] == cur + s;
    }
  }

  lemma SplitStrJoinStep(s: string, sep: string, cur: string, rest: seq<string>)
    requires |sep| > 0 && StartsWith(s, sep) && |rest| >= 1
    requires Join(rest, sep) == [] + s[|sep|..]
    ensures Join([cur] + rest, sep) == cur + s
  {
    JoinCons(cur, rest, sep);
    assert [] + s[|sep|..] == s[|sep|..];
    assert s == s[..|sep|] + s[|sep|..];
  }

  /** Replacing a substring that never occurs changes nothing. */
  lemma {:induction false} ReplaceAbsent(s: string, pat: string, rep: string)
    requires |pat| > 0
    requires !ContainsStr(s, pat)
    ensures Replace(s, pat, rep) == s
    decreases |s|
  {
    if |s| > 0 {
      ReplaceAbsent(s[1..], pat, rep);
      assert s == [s[0]] + s[1..];
    }
  }

  /** Python's `s.replace(",", " ")` on single characters. */
  function MapChar(s: string, from: char, to: char): (r: string)
    ensures |r| == |s|
    ensures forall i :: 0 <= i < |s| ==> r[i] == (if s[i] == from then to else s[i])
  {
    seq(|s|, i requires 0 <= i < |s| => if s[i] == from then to else s[i])
  }

  // ---------------------------------------------------------------------
  // lower(), rstrip(c), strip(c)
  // ---------------------------------------------------------------------

  function LowerChar(c: char): char {
    if 'A' <= c <= 'Z' then (c as int + 32) as char else c
  }

  /** Python's `s.lower()` on ASCII letters. */
  function Lower(s: string): (r: string)
    ensures |r| == |s|
    ensures forall i :: 0 <= i < |s| ==> r[i] == LowerChar(s[i])
  {
    seq(|s|, i requires 0 <= i < |s| => LowerChar(s[i]))
  }

  function UpperChar(c: char): char {
    if 'a' <= c <= 'z' then (c as int - 32) as char else c
  }

  /** Python's `s.upper()` on ASCII letters. */
  function Upper(s: string): (r: string)
    ensures |r| == |s|
    ensures forall i :: 0 <= i < |s| ==> r[i] == UpperChar(s[i])
  {
    seq(|s|, i requires 0 <= i < |s| => UpperChar(s[i]))
  }

  /** Python's `s.rstrip(c)`. */
  function RStripChar(s: string, c: char): (r: string)
    ensures |r| <= |s| && r == s[..|r|]
    ensures |r| > 0 ==> r[|r| - 1] != c
    ensures forall i :: |r| <= i < |s| ==> s[i] == c
    decreases |s|
  {
    if |s| > 0 && s[|s| - 1] == c then RStripChar(s[..|s| - 1], c) else s
  }

  /** Python's `s.lstrip(c)`. */
  function LStripChar(s: string, c: char): (r: string)
    ensures |r| <= |s| && r == s[|s| - |r|..]
    ensures |r| > 0 ==> r[0] != c
    ensures forall i :: 0 <= i < |s| - |r| ==> s[i] == c
    decreases |s|
  {
    if |s| > 0 && s[0] == c then LStripChar(s[1..], c) else s
  }

  // ---------------------------------------------------------------------
  // int() and str() on integers
  // ---------------------------------------------------------------------

  function DigitValue(c: char): nat
    requires IsDigit(c)
  {
    (c as int - '0' as int) as nat
  }

  function DigitChar(d: nat): (c: char)
    requires d < 10
    ensures IsDigit(c) && DigitValue(c) == d
  {
    ('0' as int + d) as char
  }

  /** Python's `int(s)` for a string of ASCII digits. */
  function DigitsValue(s: string): nat
    requires forall i :: 0 <= i < |s| ==> IsDigit(s[i])
    decreases |s|
  {
    if |s| == 0 then 0 else DigitsValue(s[..|s| - 1]) * 10 + DigitValue(s[|s| - 1])
  }

  /** Python's `str(n)` for a natural number. */
  function NatToString(n: nat): (s: string)
    ensures AllDigits(s)
    decreases n
  {
    if n < 10 then [DigitChar(n)] else NatToString(n / 10) + [DigitChar(n % 10)]
  }

  /** `int(str(n)) == n`. */
  lemma {:induction false} NatToStringRoundTrip(n: nat)
    ensures DigitsValue(NatToString(n)) == n
    decreases n
  {
    if n >= 10 {
      NatToStringRoundTrip(n / 10);
      var s := NatToString(n);
      assert s[..|s| - 1] == NatToString(n / 10);
    }
  }

  lemma NatToStringInjective(m: nat, n: nat)
    requires NatToString(m) == NatToString(n)
    ensures m == n
  {
    NatToStringRoundTrip(m);
    NatToStringRoundTrip(n);
  }

  /** Python's `str(i)` for any integer. */
  function IntToString(i: int): string {
    if i < 0 then "-" + NatToString(-i) else NatToString(i)
  }

  // ---------------------------------------------------------------------
  // Python's `<` on strings: lexicographic by code point
  // ---------------------------------------------------------------------

  /** -1, 0 or 1 as `a` sorts before, equal to, or after `b`. */
  function LexCompare(a: string, b: string): (r: int)
    ensures -1 <= r <= 1
    ensures r == 0 <==> a == b
    decreases |a|
  {
    if |a| == 0 && |b| == 0 then 0
    else if |a| == 0 then -1
    else if |b| == 0 then 1
    else if a[0] < b[0] then -1
    else if a[0] > b[0] then 1
    else
      var r := LexCompare(a[1..], b[1..]);
      assert r == 0 ==> a == [a[0]] + a[1..] == [b[0]] + b[1..] == b;
      r
  }

  lemma {:induction false} LexCompareAntisymmetric(a: string, b: string)
    ensures LexCompare(a, b) == -LexCompare(b, a)
    decreases |a|
  {
    if |a| > 0 && |b| > 0 && a[0] == b[0] {
      LexCompareAntisymmetric(a[1..], b[1..]);
    }
  }

  lemma {:induction false} LexCompareTransitive(a: string, b: string, c: string)
    requires LexCompare(a, b) <= 0 && LexCompare(b, c) <= 0
    ensures LexCompare(a, c) <= 0
    ensures LexCompare(a, b) < 0 || LexCompare(b, c) < 0 ==> LexCompare(a, c) < 0
    decreases |a|
  {
    if |a| > 0 && |b| > 0 && |c| > 0 && a[0] == b[0] && b[0] == c[0] {
      LexCompareTransitive(a[1..], b[1..], c[1..]);
    }
  }
}
