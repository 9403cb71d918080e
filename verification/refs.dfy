/**
 * Skill identifiers: `parse_skill_ref` and the `<ns>/<slug>@<version>`
 * shorthand of `_split_install_skill_and_requirement`
 * (local_skills.py:25-32, 79-105).
 */
module Refs {
  import opened Wrappers
  import opened Strs
  import opened Errors

  /** `SkillRef`: a namespace and a slug; `key` is `<namespace>/<slug>`. */
  datatype SkillRef = SkillRef(namespace: string, slug: string) {
    function Key(): string {
      namespace + "/" + slug
    }
  }

  /** Non-empty, and neither starts nor ends with whitespace. */
  predicate Trimmed(s: string) {
    |s| > 0 && !IsSpace(s[0]) && !IsSpace(s[|s| - 1])
  }

  /** What `parse_skill_ref` can return: trimmed parts, no `/` in the namespace. */
  predicate WellFormed(r: SkillRef) {
    Trimmed(r.namespace) && Trimmed(r.slug) && '/' !in r.namespace
  }

  /**
   * `parse_skill_ref`: split the stripped text at the first `/` and strip
   * both halves; neither may be empty.
   */
  function ParseSkillRef(value: string): (r: Result<SkillRef, Error>)
    ensures r.Ok? ==> WellFormed(r.value)
    ensures r.Err? ==> r.error == InvalidRef(value)
  {
    var raw := Strip(value);
    if '/' !in raw then Err(InvalidRef(value))
    else
      var namespace := Strip(Before(raw, '/'));
      var slug := Strip(After(raw, '/'));
      if namespace == [] || slug == [] then Err(InvalidRef(value))
      else
        assert '/' !in namespace by {
          if '/' in namespace {
            StripMember(Before(raw, '/'), '/');
          }
        }
        Ok(SkillRef(namespace, slug))
  }

  lemma TrimmedStrip(s: string)
    requires Trimmed(s)
    ensures Strip(s) == s
  {
    StripNoop(s);
  }

  /** A well-formed reference is read back from its key. */
  lemma ParseKey(r: SkillRef)
    requires WellFormed(r)
    ensures ParseSkillRef(r.Key()) == Ok(r)
  {
    var k := r.Key();
    assert k == r.namespace + ['/'] + r.slug;
    assert k[0] == r.namespace[0] && k[|k| - 1] == r.slug[|r.slug| - 1];
    TrimmedStrip(k);
    BeforeAfterJoin(r.namespace, '/', r.slug);
    TrimmedStrip(r.namespace);
    TrimmedStrip(r.slug);
  }

  /** Parsing is canonical: the key of a parsed reference parses to the same reference. */
  lemma ParseCanonical(value: string)
    requires ParseSkillRef(value).Ok?
    ensures ParseSkillRef(ParseSkillRef(value).value.Key()) == ParseSkillRef(value)
  {
    ParseKey(ParseSkillRef(value).value);
  }

  /** Text without a `/` is never a reference. */
  lemma NoSlashRejected(value: string)
    requires '/' !in value
    ensures ParseSkillRef(value) == Err(InvalidRef(value))
  {
    if '/' in Strip(value) {
      StripMember(value, '/');
    }
  }

  // ---------------------------------------------------------------------
  // `install <ns>/<slug>@<requirement>`
  // ---------------------------------------------------------------------

  /** Python truthiness of an optional string. */
  predicate Truthy(s: Option<string>) {
    s.Some? && s.value != []
  }

  /**
   * `_split_install_skill_and_requirement`: a trailing `@<requirement>`
   * after a text containing `/` is split off, and may not be combined
   * with a separately given requirement; anything else passes through.
   */
  function SplitInstallSkill(skill: string, requirement: Option<string>): (r: Result<(string, Option<string>), Error>)
    ensures r.Ok? ==> Trimmed(r.value.0)
    ensures r.Err? ==> r.error == InvalidRef("") || (r.error == BothVersionForms && Truthy(requirement))
  {
    var value := Strip(skill);
    if value == [] then Err(InvalidRef(""))
    else
      match Shorthand(value)
      case Some((key, req)) => if Truthy(requirement) then Err(BothVersionForms) else Ok((key, Some(req)))
      case None => Ok((value, requirement))
  }

  /** The split at the last `@` of a stripped text, when a `/` comes before it and something after it. */
  function Shorthand(value: string): (r: Option<(string, string)>)
    ensures r.Some? ==> Trimmed(r.value.0) && '/' in r.value.0 && r.value.1 != []
  {
    var at := RFind(value, '@');
    if at > 0 && '/' in Strip(value[..at]) && Strip(value[at + 1..]) != [] then
      Some((Strip(value[..at]), Strip(value[at + 1..])))
    else None
  }

  lemma RFindAfter(s: string, t: string)
    requires '@' !in t
    ensures RFind(s + "@" + t, '@') == |s|
  {
    var u := s + "@" + t;
    var i := RFind(u, '@');
    assert u[|s|] == '@';
  }

  /**
   * `<key>@<version>` is split into the key and the requirement, and
   * refused when a requirement was also given separately.
   */
  lemma ShorthandSplit(key: string, req: string, requirement: Option<string>)
    requires Trimmed(key) && '/' in key && Trimmed(req) && '@' !in req
    ensures SplitInstallSkill(key + "@" + req, requirement)
      == if Truthy(requirement) then Err(BothVersionForms) else Ok((key, Some(req)))
  {
    var s := key + "@" + req;
    assert s[0] == key[0] && s[|s| - 1] == req[|req| - 1];
    TrimmedStrip(s);
    RFindAfter(key, req);
    assert s[..|key|] == key && s[|key| + 1..] == req;
    TrimmedStrip(key);
    TrimmedStrip(req);
  }

  /** Without an `@`, the skill is only stripped and the requirement passes through. */
  lemma NoShorthand(skill: string, requirement: Option<string>)
    requires '@' !in skill && !AllSpace(skill)
    ensures SplitInstallSkill(skill, requirement) == Ok((Strip(skill), requirement))
  {
    StripEmpty(skill);
    if '@' in Strip(skill) {
      StripMember(skill, '@');
    }
  }
}
