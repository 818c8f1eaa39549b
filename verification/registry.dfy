/** Repository resolution (convex/projects.ts, fetchGithubUrl inside
    researchDependencies): the npm registry document of a package is given
    as a value; the repository string is picked from it and rewritten by a
    fixed chain of prefix and suffix rules. */
module Registry {
  import opened Common

  /** A `repository` field of a registry document: absent, a plain string,
      or an object whose `url` may be absent. */
  datatype RepoField = NoRepo | RepoText(text: string) | RepoObject(url: Option<string>)

  /** The registry's answer for one package. `NotOk` stands for a failed
      request, a non-success status or an unreadable body (all caught).
      `latestRepository` is the repository field of the version named by the
      `latest` dist-tag (`NoRepo` when there is no such tag or version). */
  datatype RegistryReply =
    | NotOk
    | Document(latestRepository: RepoField, repository: RepoField)

  /** `latest?.repository?.url || data.repository?.url || data.repository`,
      kept only when it is a non-empty string: the latest version's
      `repository.url`, else the document's `repository.url`, else the
      document's `repository` itself, where an object without a url stops
      the chain without a string. */
  function RawRepoUrl(reply: RegistryReply): (raw: Option<string>)
    ensures raw.Some? ==> raw.value != ""
    ensures reply.NotOk? ==> raw.None?
    ensures reply.Document? ==>
      raw == AcceptRaw(OrChain(Candidates(reply.latestRepository, reply.repository)))
  {
    match reply
    case NotOk => None
    case Document(latest, top) =>
      var c, rest := Candidates(latest, top), [FieldUrl(top), FieldValue(top)];
      assert c[1..] == rest && rest[1..] == [FieldValue(top)];
      assert OrChain(rest) == if JsTruthy(FieldUrl(top)) then FieldUrl(top) else FieldValue(top);
      assert OrChain(c) == if JsTruthy(FieldUrl(latest)) then FieldUrl(latest) else OrChain(rest);
      if latest.RepoObject? && Truthy(latest.url) then latest.url
      else if top.RepoObject? && Truthy(top.url) then top.url
      else if top.RepoText? && top.text != "" then Some(top.text)
      else None
  }

  /** The JavaScript values the lookup meets: `undefined`, a string, or an
      object. */
  datatype JsValue = Undefined | JsString(s: string) | JsObject

  predicate JsTruthy(v: JsValue) {
    v.JsObject? || (v.JsString? && v.s != "")
  }

  /** `a || b || …`: the first truthy operand, or the last one when none is. */
  function OrChain(vs: seq<JsValue>): JsValue
    requires |vs| > 0
  {
    if |vs| == 1 || JsTruthy(vs[0]) then vs[0] else OrChain(vs[1..])
  }

  /** A `repository` field read as a value, and its `url` property. */
  function FieldValue(f: RepoField): JsValue {
    match f
    case NoRepo => Undefined
    case RepoText(text) => JsString(text)
    case RepoObject(_) => JsObject
  }

  function FieldUrl(f: RepoField): JsValue {
    if f.RepoObject? && f.url.Some? then JsString(f.url.value) else Undefined
  }

  /** The three operands of the lookup, in order. */
  function Candidates(latest: RepoField, top: RepoField): seq<JsValue> {
    [FieldUrl(latest), FieldUrl(top), FieldValue(top)]
  }

  /** `!repoUrlRaw || typeof repoUrlRaw !== "string"` rejects the value. */
  function AcceptRaw(v: JsValue): Option<string> {
    if v.JsString? && v.s != "" then Some(v.s) else None
  }

  /** Drops a leading "git+". */
  function StripGitPlus(s: string): string {
    if StartsWith(s, "git+") then s[4..] else s
  }

  /** Replaces a leading "git://" by "https://". */
  function RewriteGitScheme(s: string): string {
    if StartsWith(s, "git://") then "https://" + s[6..] else s
  }

  /** Replaces a leading "ssh://" by "https://". */
  function RewriteSshScheme(s: string): string {
    if StartsWith(s, "ssh://") then "https://" + s[6..] else s
  }

  /** Whether the shorthand rule fires: "git@github", one more character and
      "com:". The source's pattern leaves the dot before "com" unescaped, so
      that position accepts any character other than a line terminator. */
  predicate HasShorthandPrefix(s: string) {
    |s| >= 15 && s[..10] == "git@github" && !IsLineTerminator(s[10]) && s[11..15] == "com:"
  }

  /** Replaces the shorthand prefix by "https://github.com/". */
  function RewriteShorthand(s: string): string {
    if HasShorthandPrefix(s) then "https://github.com/" + s[15..] else s
  }

  /** The normalisation chain, then the removal of one trailing ".git". */
  function NormalizeRepoUrl(raw: string): string {
    var t := RewritePrefixes(raw);
    if EndsWith(t, ".git") then t[..|t| - 4] else t
  }

  /** The four prefix rules, in order. */
  function RewritePrefixes(raw: string): string {
    RewriteShorthand(RewriteSshScheme(RewriteGitScheme(StripGitPlus(raw))))
  }

  /** The resolved repository URL of a package, if any. */
  function FetchGithubUrl(reply: RegistryReply): (url: Option<string>)
    ensures url.Some? <==> RawRepoUrl(reply).Some?
  {
    match RawRepoUrl(reply)
    case None => None
    case Some(raw) => Some(NormalizeRepoUrl(raw))
  }

  /** The version-level URL takes precedence over the document-level one. */
  lemma LatestVersionFirst(latestUrl: string, top: RepoField)
    requires latestUrl != ""
    ensures FetchGithubUrl(Document(RepoObject(Some(latestUrl)), top)) == Some(NormalizeRepoUrl(latestUrl))
  {
  }

  /** A document whose repository is an object without a usable url, and
      whose latest version has none either, resolves to nothing. */
  lemma ObjectWithoutUrlUnresolved(latest: RepoField, url: Option<string>)
    requires !(latest.RepoObject? && Truthy(latest.url)) && !Truthy(url)
    ensures FetchGithubUrl(Document(latest, RepoObject(url))) == None
  {
  }

  /** A string whose `k`-th character differs from the prefix's does not start with it. */
  lemma DiffersAt(s: string, prefix: string, k: nat)
    requires k < |prefix| && k < |s| && s[k] != prefix[k]
    ensures !StartsWith(s, prefix)
  {
    if |prefix| <= |s| { assert s[..|prefix|][k] == s[k]; }
  }

  /** No prefix rule applies to a string that starts with 'h'. */
  lemma PrefixRulesSkipH(s: string)
    requires |s| > 0 && s[0] == 'h'
    ensures StripGitPlus(s) == s && RewriteGitScheme(s) == s && RewriteSshScheme(s) == s
    ensures RewriteShorthand(s) == s && RewritePrefixes(s) == s
  {
    DiffersAt(s, "git+", 0);
    DiffersAt(s, "git://", 0);
    DiffersAt(s, "ssh://", 0);
    if |s| >= 15 { assert s[..10][0] == 'h'; }
  }

  /** The suffix test looks only at the last four characters. */
  lemma EndsWithGitAppend(a: string, b: string)
    requires |b| >= 4
    ensures EndsWith(a + b, ".git") <==> EndsWith(b, ".git")
  {
    assert (a + b)[|a + b| - 4..] == b[|b| - 4..];
  }

  /** `git+https://<p>.git` becomes `https://<p>`. */
  lemma NormalizeGitPlusHttps(p: string)
    ensures NormalizeRepoUrl("git+https://" + p + ".git") == "https://" + p
  {
    var s := "https://" + p + ".git";
    var raw := "git+" + s;
    assert "git+https://" + p + ".git" == raw;
    assert raw[..4] == "git+" && raw[4..] == s;
    assert StripGitPlus(raw) == s;
    PrefixRulesSkipH(s);
    assert RewritePrefixes(raw) == s;
    assert s[|s| - 4..] == ".git";
    assert s[..|s| - 4] == "https://" + p;
  }

  /** `git://<p>` becomes `https://<p>` when `p` has no ".git" suffix. */
  lemma NormalizeGitScheme(p: string)
    requires !EndsWith(p, ".git")
    ensures NormalizeRepoUrl("git://" + p) == "https://" + p
  {
    var raw := "git://" + p;
    DiffersAt(raw, "git+", 3);
    assert raw[..6] == "git://";
    var s := "https://" + p;
    assert s == "https://" + p;
    PrefixRulesSkipH(s);
    if |p| >= 4 {
      EndsWithGitAppend("https://", p);
    } else {
      assert s[|s| - 4] == "https://"[4 + |p|] && s[|s| - 4] != '.';
      assert s[|s| - 4..][0] == s[|s| - 4];
    }
  }

  /** `git@github.com:<p>.git` becomes `https://github.com/<p>`. */
  lemma NormalizeShorthand(p: string)
    ensures NormalizeRepoUrl("git@github.com:" + p + ".git") == "https://github.com/" + p
  {
    var raw := "git@github.com:" + p + ".git";
    DiffersAt(raw, "git+", 3);
    DiffersAt(raw, "git://", 3);
    DiffersAt(raw, "ssh://", 0);
    assert raw[..10] == "git@github" && raw[10] == '.' && raw[11..15] == "com:";
    assert HasShorthandPrefix(raw);
    var s := "https://github.com/" + p + ".git";
    assert raw[15..] == p + ".git";
    assert s[|s| - 4..] == ".git";
    assert s[..|s| - 4] == "https://github.com/" + p;
  }

  /** The unescaped `.` in the shorthand pattern lets `git@githubXcom:`
      through as well. */
  lemma ShorthandDotMatchesAnyCharacter()
    ensures NormalizeRepoUrl("git@githubXcom:a/b") == "https://github.com/a/b"
  {
    var raw := "git@githubXcom:a/b";
    DiffersAt(raw, "git+", 3);
    DiffersAt(raw, "git://", 3);
    DiffersAt(raw, "ssh://", 0);
    assert raw[..10] == "git@github" && raw[11..15] == "com:";
    assert HasShorthandPrefix(raw);
    var s := "https://github.com/a/b";
    assert raw[15..] == "a/b";
    assert RewriteShorthand(raw) == s;
    assert RewritePrefixes(raw) == s;
    assert s[|s| - 4..][0] == s[|s| - 4] == '/';
    assert !EndsWith(s, ".git");
  }

  /** The shorthand rule applies only to the github host: a string with none
      of the four prefixes and no ".git" suffix is returned unchanged. */
  lemma NormalizeFixesOtherUrls(s: string)
    requires !StartsWith(s, "git+") && !StartsWith(s, "git://") && !StartsWith(s, "ssh://")
    requires !HasShorthandPrefix(s) && !EndsWith(s, ".git")
    ensures NormalizeRepoUrl(s) == s
  {
  }

  lemma GitlabShorthandUnchanged()
    ensures NormalizeRepoUrl("git@gitlab.com:a/b") == "git@gitlab.com:a/b"
  {
    var s := "git@gitlab.com:a/b";
    DiffersAt(s, "git+", 3);
    DiffersAt(s, "git://", 3);
    DiffersAt(s, "ssh://", 0);
    assert s[..10][7] == 'l';
    assert s[|s| - 4..][0] == s[|s| - 4] == ':';
  }

  /** Only one trailing ".git" is removed. */
  lemma NormalizeStripsOneGitSuffix(p: string)
    ensures NormalizeRepoUrl("https://" + p + ".git.git") == "https://" + p + ".git"
  {
    var s := "https://" + p + ".git.git";
    PrefixRulesSkipH(s);
    assert s[|s| - 4..] == ".git";
    assert s[..|s| - 4] == "https://" + p + ".git";
  }
}
