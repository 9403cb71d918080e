/**
 * The errors the dependency engine raises, as structured values instead
 * of exception messages, and the message matching the reconciler does on
 * them (the regular expressions at local_skills.py:233 and 947-954, and
 * the substring tests at 327-334).
 *
 * The matching is modelled on the shape of each message: the key and
 * version are the only variable text, and they are assumed not to
 * contain the fixed phrases themselves.
 */
module Errors {
  import opened Wrappers
  import opened Strs

  datatype Error =
      /** "Invalid skill identifier ... Expected <namespace>/<slug>." */
    | InvalidRef(value: string)
      /** "Specify version either as @<version> or --version, not both." */
    | BothVersionForms
      /** "Invalid version requirement: <token>" (a bad caret or tilde base). */
    | InvalidRequirement(token: string)
      /** "Dependency conflict for <key>: multiple exact versions requested (...)". */
    | Conflict(key: string, versions: set<string>)
      /** "Skill not found or not visible: <key>" (the release listing answered 404). */
    | NotFound(key: string)
      /** "No downloadable release found for <key> that satisfies constraints: ..." */
    | NoDownloadable(key: string)
      /** "No release found for <key> that satisfies constraints: ..." */
    | NoRelease(key: string)
      /** "Release <key>@<version> has no download URL." */
    | NoUrl(key: string, version: string)
      /** "Could not resolve dependency graph." with "Last error: ..." appended when there was one. */
    | Unresolved(last: Option<Error>)
      /** An archive entry whose name starts with "/". */
    | ArchiveAbsolute(name: string)
      /** An archive entry that resolves outside the unpack root. */
    | ArchiveInvalid(name: string)
      /** "Archive for <key>@<version> does not contain SKILL.md at root." */
    | NoSkillMd(key: string, version: string)
      /** The skills directory could not be created, or is not a directory. */
    | SkillsDirUnusable
      /** An `OSError` from a file operation the code does not guard; it is not a `SkilldockError`. */
    | FileSystem
      /** Python's `RecursionError`: the search nested deeper than the interpreter allows. It is not a `SkilldockError`. */
    | RecursionLimit
      /** Any other `SkilldockError`, such as an HTTP error or an API error envelope. */
    | Other(code: nat)

  // ---------------------------------------------------------------------
  // The character class [A-Za-z0-9._-] of the key patterns
  // ---------------------------------------------------------------------

  predicate KeyChar(c: char) {
    IsAlnum(c) || c == '.' || c == '_' || c == '-'
  }

  /** Length of the longest prefix made of key characters (a greedy `[A-Za-z0-9._-]+`). */
  function KeyRun(s: string): (n: nat)
    ensures n <= |s|
    ensures forall i | 0 <= i < n :: KeyChar(s[i])
    ensures n < |s| ==> !KeyChar(s[n])
    decreases |s|
  {
    if |s| > 0 && KeyChar(s[0]) then 1 + KeyRun(s[1..]) else 0
  }

  /** `<namespace>/<slug>` with both parts non-empty runs of key characters. */
  predicate PlainKey(k: string) {
    var n := KeyRun(k);
    0 < n < |k| && k[n] == '/' && 0 < KeyRun(k[n + 1..]) == |k| - n - 1
  }

  /**
   * What `\s*([A-Za-z0-9._-]+/[A-Za-z0-9._-]+)` captures at the start of
   * `s`; the capture ends at `CaptureEnd(s, key)`.
   */
  function CaptureKeyAt(s: string): Option<string> {
    CaptureIn(TrimLeft(s))
  }

  /** The capture once the leading whitespace is gone: two runs of key characters around a `/`. */
  function CaptureIn(t: string): Option<string> {
    var n := KeyRun(t);
    if n == 0 || n == |t| || t[n] != '/' then None
    else
      var m := KeyRun(t[n + 1..]);
      if m == 0 then None else Some(t[..n + 1 + m])
  }

  function CaptureEnd(s: string, key: string): int {
    |s| - |TrimLeft(s)| + |key|
  }

  /** A greedy run is unchanged by cutting the string anywhere after its end. */
  lemma {:induction false} KeyRunPrefix(s: string, p: nat)
    requires KeyRun(s) < p <= |s| || KeyRun(s) == p <= |s|
    ensures KeyRun(s[..p]) == KeyRun(s)
    decreases |s|
  {
    if |s| > 0 && KeyChar(s[0]) && p > 0 {
      assert s[..p][1..] == s[1..][..p - 1];
      KeyRunPrefix(s[1..], p - 1);
    }
  }

  // ---------------------------------------------------------------------
  // Attribution of a resolver failure to one direct key (947-955)
  // ---------------------------------------------------------------------

  /**
   * The key `Skill not found or not visible:\s*(KEY)` captures in the
   * message of `NotFound(k)`; the pattern is searched anywhere, so a key
   * with trailing text still yields its leading `<ns>/<slug>` part.
   */
  function NotFoundCapture(k: string): Option<string> {
    CaptureKeyAt(" " + k)
  }

  /**
   * The key `No release found for\s*(KEY)\s+that satisfies constraints:`
   * captures in the message of `NoRelease(k)`: the capture must be
   * followed by nothing but whitespace up to the fixed text.
   */
  function NoReleaseCapture(k: string): Option<string> {
    var s := " " + k;
    match CaptureKeyAt(s)
    case None => None
    case Some(key) =>
      var end := CaptureEnd(s, key);
      if 0 <= end <= |s| && AllSpace(s[end..]) then Some(key) else None
  }

  /**
   * The key the reconciler extracts from a failure: the not-found pattern
   * is tried first, then the no-release pattern, on the whole message,
   * which for `Unresolved` embeds the message of the last error.
   */
  function AttributedKey(e: Error): Option<string> {
    match e
    case NotFound(k) => NotFoundCapture(k)
    case NoRelease(k) => NoReleaseCapture(k)
    case Unresolved(Some(inner)) => AttributedKey(inner)
    case _ => None
  }

  /**
   * `_parse_missing_download_url_error`:
   * `Release\s+(KEY)@([^\s]+)\s+has no download URL\.?` on the message of
   * `NoUrl(k, v)`, giving the captured key and version.
   */
  function MissingUrlCapture(k: string, v: string): Option<(string, string)> {
    var s := " " + k + "@" + v;
    match CaptureKeyAt(s)
    case None => None
    case Some(key) =>
      var end := CaptureEnd(s, key);
      if 0 <= end < |s| && s[end] == '@' then
        var rest := s[end + 1..];
        var words := SplitWhitespace(rest);
        if |words| == 1 && StartsWith(rest, words[0]) then Some((key, words[0])) else None
      else None
  }

  function ParseMissingUrl(e: Error): Option<(string, string)> {
    match e
    case NoUrl(k, v) => MissingUrlCapture(k, v)
    case Unresolved(Some(inner)) => ParseMissingUrl(inner)
    case _ => None
  }

  /** The failures `except SkilldockError` catches: all but the recursion limit and file-system errors. */
  predicate IsSkilldockError(e: Error) {
    !e.RecursionLimit? && !e.FileSystem?
  }

  /** `_is_release_unavailable_error`: the failure says the release is missing, not broken. */
  predicate IsReleaseUnavailable(e: Error) {
    match e
    case NotFound(_) => true
    case NoRelease(_) => true
    case NoDownloadable(_) => true
    case NoUrl(_, _) => ParseMissingUrl(e).Some?
    case Unresolved(Some(inner)) => IsReleaseUnavailable(inner)
    case _ => false
  }

  // ---------------------------------------------------------------------
  // What the patterns recover from well-formed keys
  // ---------------------------------------------------------------------

  predicate KeyChars(s: string) {
    forall i | 0 <= i < |s| :: KeyChar(s[i])
  }

  lemma KeyCharNotSpace(c: char)
    requires KeyChar(c)
    ensures !IsSpace(c)
  {
  }

  lemma TrimOneSpace(t: string)
    requires |t| > 0 && !IsSpace(t[0])
    ensures TrimLeft(" " + t) == t
  {
    assert (" " + t)[1..] == t;
  }

  lemma CaptureFromRuns(s: string, t: string, n: nat, m: nat)
    requires TrimLeft(s) == t && KeyRun(t) == n && 0 < n < |t| && t[n] == '/'
    requires KeyRun(t[n + 1..]) == m > 0
    ensures CaptureKeyAt(s) == Some(t[..n + 1 + m])
  {
    CaptureInRuns(t, n, m);
  }

  lemma CaptureInRuns(t: string, n: nat, m: nat)
    requires KeyRun(t) == n && 0 < n < |t| && t[n] == '/'
    requires KeyRun(t[n + 1..]) == m > 0
    ensures CaptureIn(t) == Some(t[..n + 1 + m])
  {
  }

  lemma {:induction false} KeyRunAll(a: string, b: string)
    requires KeyChars(a)
    requires |b| == 0 || !KeyChar(b[0])
    ensures KeyRun(a + b) == |a|
    decreases |a|
  {
    if |a| > 0 {
      assert (a + b)[1..] == a[1..] + b;
      KeyRunAll(a[1..], b);
    } else {
      assert a + b == b;
    }
  }


  lemma PartsTrim(ns: string, slug: string, tail: string)
    requires |ns| > 0 && KeyChars(ns)
    ensures TrimLeft(" " + ns + "/" + slug + tail) == ns + "/" + slug + tail
  {
    var t := ns + "/" + slug + tail;
    assert t[0] == ns[0];
    KeyCharNotSpace(ns[0]);
    TrimOneSpace(t);
    assert " " + ns + "/" + slug + tail == " " + t;
  }

  lemma PartsFirstRun(ns: string, slug: string, tail: string)
    requires KeyChars(ns)
    ensures KeyRun(ns + "/" + slug + tail) == |ns|
  {
    var t := ns + "/" + slug + tail;
    assert t == ns + ("/" + slug + tail);
    KeyRunAll(ns, "/" + slug + tail);
  }

  lemma PartsSecondRun(ns: string, slug: string, tail: string)
    requires KeyChars(slug)
    requires |tail| == 0 || !KeyChar(tail[0])
    ensures KeyRun((ns + "/" + slug + tail)[|ns| + 1..]) == |slug|
  {
    var t := ns + "/" + slug + tail;
    assert t[|ns| + 1..] == slug + tail;
    KeyRunAll(slug, tail);
  }

  /** The pattern captures exactly `<ns>/<slug>` when a non-key character (or nothing) follows. */
  lemma CaptureKeyAtParts(ns: string, slug: string, tail: string)
    requires |ns| > 0 && |slug| > 0 && KeyChars(ns) && KeyChars(slug)
    requires |tail| == 0 || !KeyChar(tail[0])
    ensures CaptureKeyAt(" " + ns + "/" + slug + tail) == Some(ns + "/" + slug)
  {
    var t := ns + "/" + slug + tail;
    PartsTrim(ns, slug, tail);
    PartsFirstRun(ns, slug, tail);
    PartsSecondRun(ns, slug, tail);
    assert t[..|ns| + 1 + |slug|] == ns + "/" + slug;
    CaptureFromRuns(" " + ns + "/" + slug + tail, t, |ns|, |slug|);
  }

  /** A plain key splits into its two key-character runs. */
  lemma PlainKeyParts(k: string)
    requires PlainKey(k)
    ensures var n := KeyRun(k);
      k == k[..n] + "/" + k[n + 1..] && |k[..n]| > 0 && |k[n + 1..]| > 0 && KeyChars(k[..n]) && KeyChars(k[n + 1..])
  {
    var n := KeyRun(k);
    assert KeyRun(k[n + 1..]) == |k[n + 1..]|;
  }

  lemma CaptureKeyAtPlain(k: string, tail: string)
    requires PlainKey(k)
    requires |tail| == 0 || !KeyChar(tail[0])
    ensures CaptureKeyAt(" " + k + tail) == Some(k)
    ensures CaptureEnd(" " + k + tail, k) == 1 + |k|
  {
    PlainKeyParts(k);
    var n := KeyRun(k);
    var ns, slug := k[..n], k[n + 1..];
    CaptureKeyAtSplit(k, ns, slug, tail);
    CaptureEndSplit(k, ns, slug, tail);
  }

  lemma CaptureKeyAtSplit(k: string, ns: string, slug: string, tail: string)
    requires k == ns + "/" + slug
    requires |ns| > 0 && |slug| > 0 && KeyChars(ns) && KeyChars(slug)
    requires |tail| == 0 || !KeyChar(tail[0])
    ensures CaptureKeyAt(" " + k + tail) == Some(k)
  {
    var s := " " + k + tail;
    assert s == " " + ns + "/" + slug + tail;
    CaptureKeyAtParts(ns, slug, tail);
  }

  lemma CaptureEndSplit(k: string, ns: string, slug: string, tail: string)
    requires k == ns + "/" + slug
    requires |ns| > 0 && KeyChars(ns)
    ensures CaptureEnd(" " + k + tail, k) == 1 + |k|
  {
    PartsTrim(ns, slug, tail);
    assert " " + k + tail == " " + ns + "/" + slug + tail;
  }

  /** A plain `<ns>/<slug>` key is recovered from a not-found failure. */
  lemma NotFoundPlain(k: string)
    requires PlainKey(k)
    ensures AttributedKey(NotFound(k)) == Some(k)
  {
    NotFoundCapturePlain(k);
  }

  lemma NotFoundCapturePlain(k: string)
    requires PlainKey(k)
    ensures NotFoundCapture(k) == Some(k)
  {
    CaptureKeyAtPlain(k, []);
    assert " " + k + [] == " " + k;
  }

  lemma PlainFromRuns(key: string, n: nat, m: nat)
    requires KeyRun(key) == n && 0 < n && |key| == n + 1 + m && key[n] == '/'
    requires KeyRun(key[n + 1..]) == m > 0
    ensures PlainKey(key)
  {
  }

  lemma PlainOfPrefix(t: string, n: nat, m: nat)
    requires KeyRun(t) == n && 0 < n < |t| && t[n] == '/'
    requires KeyRun(t[n + 1..]) == m > 0
    ensures PlainKey(t[..n + 1 + m])
  {
    var key := t[..n + 1 + m];
    KeyRunPrefix(t, n + 1 + m);
    assert key[n + 1..] == t[n + 1..][..m];
    KeyRunPrefix(t[n + 1..], m);
    PlainFromRuns(key, n, m);
  }

  /** Whatever the pattern captures is a plain key. */
  lemma CaptureIsPlain(s: string)
    requires CaptureKeyAt(s).Some?
    ensures PlainKey(CaptureKeyAt(s).value)
  {
    CaptureInPlain(TrimLeft(s));
  }

  lemma CaptureInPlain(t: string)
    requires CaptureIn(t).Some?
    ensures PlainKey(CaptureIn(t).value)
  {
    var n := KeyRun(t);
    var m := KeyRun(t[n + 1..]);
    PlainOfPrefix(t, n, m);
  }

  /** A plain key is recovered from a no-release failure, and nothing else is. */
  lemma NoReleasePlain(k: string)
    ensures AttributedKey(NoRelease(k)) == Some(k) <==> PlainKey(k)
  {
    if PlainKey(k) {
      assert NoReleaseCapture(k) == Some(k) by {
        CaptureKeyAtPlain(k, []);
        assert " " + k + [] == " " + k;
        assert (" " + k)[1 + |k|..] == [];
      }
    } else if AttributedKey(NoRelease(k)) == Some(k) {
      assert CaptureKeyAt(" " + k) == Some(k);
      CaptureIsPlain(" " + k);
    }
  }

  lemma MissingUrlFromCapture(k: string, v: string)
    requires |v| > 0 && NoSpace(v)
    requires CaptureKeyAt(" " + k + "@" + v) == Some(k)
    requires CaptureEnd(" " + k + "@" + v, k) == 1 + |k|
    ensures MissingUrlCapture(k, v) == Some((k, v))
  {
    var s := " " + k + "@" + v;
    assert s[1 + |k|] == '@' && s[1 + |k| + 1..] == v;
    SplitWhitespaceWord(v);
    assert v[..|v|] == v;
  }

  /** A missing-download-URL failure for a plain key and a version without whitespace is recognised. */
  lemma MissingUrlPlain(k: string, v: string)
    requires PlainKey(k) && |v| > 0 && NoSpace(v)
    ensures ParseMissingUrl(NoUrl(k, v)) == Some((k, v))
    ensures IsReleaseUnavailable(NoUrl(k, v))
  {
    assert " " + k + "@" + v == " " + k + ("@" + v);
    CaptureKeyAtPlain(k, "@" + v);
    MissingUrlFromCapture(k, v);
  }
}
