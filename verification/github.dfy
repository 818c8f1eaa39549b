/** GitHub side of the scrape (convex/projects.ts, parseGithub,
    fetchCommitContributors, fetchIssueCreators, fetchOrgPublicMembers and
    the member filter of processRepo). The HTTP replies are given as values;
    what is modelled is how each reply is turned into contributor records. */
module GitHub {
  import opened Common

  /** An HTTP request: `NotOk` for a non-success status, `Ok` with the
      decoded JSON array, or `Threw` when `fetch` or reading the body throws.
      The fetch functions catch nothing, so a `Threw` reaches processRepo. */
  datatype Reply<T> = NotOk | Ok(data: T) | Threw

  /** One user of a repository with the number of commits or issues credited
      to them. */
  datatype Contributor = Contributor(login: string, htmlUrl: string, count: nat)

  /** The part of a repository reference a scrape needs. */
  datatype RepoRef = RepoRef(owner: string, name: string)

  datatype ParsedUrl = Repo(ref: RepoRef) | MissingUrl | InvalidUrl(url: string)

  // ---------------------------------------------------------------------
  // parseGithub: the first case-insensitive "github.com/", then a lazily
  // matched owner up to a '/', then a lazily matched repository name up to
  // the end, a '.' or a '/'. The wildcard of the pattern matches every
  // character except a line terminator, and a failed attempt backtracks.
  // ---------------------------------------------------------------------

  /** Where the repository name that starts at `j` ends, if the name can be
      matched at all. */
  function RepoEnd(s: string, j: nat): (r: Option<nat>)
    requires j <= |s|
    decreases |s| - j
    ensures r.Some? ==> j <= r.value <= |s| && (r.value == |s| || s[r.value] == '.' || s[r.value] == '/')
    ensures r.Some? ==> forall m :: j <= m < r.value ==> s[m] != '.' && s[m] != '/' && !IsLineTerminator(s[m])
  {
    if j == |s| then Some(j)
    else if s[j] == '.' || s[j] == '/' then Some(j)
    else if IsLineTerminator(s[j]) then None
    else RepoEnd(s, j + 1)
  }

  /** The lazily matched owner that starts at `q`, currently extended to `a`:
      the shortest extension followed by '/' and a matchable name wins. */
  function MatchOwner(s: string, q: nat, a: nat): (r: Option<RepoRef>)
    requires q <= a <= |s|
    decreases |s| - a
  {
    if a == |s| then None
    else if s[a] == '/' && RepoEnd(s, a + 1).Some? then
      Some(RepoRef(s[q..a], s[a + 1..RepoEnd(s, a + 1).value]))
    else if IsLineTerminator(s[a]) then None
    else MatchOwner(s, q, a + 1)
  }

  /** The leftmost start position from which the whole pattern matches. */
  function MatchFrom(s: string, start: nat): (r: Option<RepoRef>)
    decreases |s| - start
  {
    if start + 11 > |s| then None
    else if MatchesAt(s, start, "github.com/") && MatchOwner(s, start + 11, start + 11).Some? then
      MatchOwner(s, start + 11, start + 11)
    else MatchFrom(s, start + 1)
  }

  /** `parseGithub`: a missing or empty URL and a URL the pattern does not
      match are the two errors. */
  function ParseGithub(url: Option<string>): (r: ParsedUrl)
    ensures r.MissingUrl? <==> !Truthy(url)
    ensures r.InvalidUrl? ==> r.url == url.value
  {
    if !Truthy(url) then MissingUrl
    else match MatchFrom(url.value, 0)
      case Some(ref) => Repo(ref)
      case None => InvalidUrl(url.value)
  }

  lemma {:induction false} RepoEndSkip(s: string, j: nat, e: nat)
    requires j <= e <= |s|
    requires forall m :: j <= m < e ==> s[m] != '.' && s[m] != '/' && !IsLineTerminator(s[m])
    requires e == |s| || s[e] == '.' || s[e] == '/'
    ensures RepoEnd(s, j) == Some(e)
    decreases e - j
  {
    if j < e {
      RepoEndSkip(s, j + 1, e);
    }
  }

  lemma {:induction false} MatchOwnerSkip(s: string, q: nat, a: nat, b: nat)
    requires q <= a <= b <= |s|
    requires forall m :: a <= m < b ==> s[m] != '/' && !IsLineTerminator(s[m])
    ensures MatchOwner(s, q, a) == MatchOwner(s, q, b)
    decreases b - a
  {
    if a < b {
      MatchOwnerSkip(s, q, a + 1, b);
    }
  }

  lemma {:induction false} MatchFromSkip(s: string, a: nat, b: nat)
    requires a <= b
    requires forall m :: a <= m < b ==> !MatchesAt(s, m, "github.com/")
    ensures MatchFrom(s, a) == MatchFrom(s, b)
    decreases b - a
  {
    if a < b {
      MatchFromSkip(s, a + 1, b);
      if a + 11 > |s| {
        if b + 11 <= |s| { assert false; }
      }
    }
  }

  /** No match of the host can start on a character other than 'g' or 'G'. */
  lemma NoHostAt(s: string, m: nat)
    requires m < |s| && LowerAscii(s[m]) != 'g'
    ensures !MatchesAt(s, m, "github.com/")
  {
    assert "github.com/"[0] == 'g';
    assert LowerAscii(s[m + 0]) != "github.com/"[0];
  }

  /** The owner and name that follow the host at `q`, given where the owner
      ends (`b`) and where the name ends (`e`). */
  lemma MatchAfterHost(s: string, q: nat, b: nat, e: nat)
    requires q <= b < e <= |s|
    requires forall m :: q <= m < b ==> s[m] != '/' && !IsLineTerminator(s[m])
    requires s[b] == '/'
    requires forall m :: b + 1 <= m < e ==> s[m] != '.' && s[m] != '/' && !IsLineTerminator(s[m])
    requires e == |s| || s[e] == '.' || s[e] == '/'
    ensures MatchOwner(s, q, q) == Some(RepoRef(s[q..b], s[b + 1..e]))
  {
    MatchOwnerSkip(s, q, q, b);
    RepoEndSkip(s, b + 1, e);
  }

  /** A URL that starts with "https://github.com/", given where the owner
      ends (`b`) and where the name ends (`e`). */
  lemma ParseHttpsGithub(s: string, b: nat, e: nat)
    requires 19 <= b < e <= |s| && s[..19] == "https://github.com/"
    requires forall m :: 19 <= m < b ==> s[m] != '/' && !IsLineTerminator(s[m])
    requires s[b] == '/'
    requires forall m :: b + 1 <= m < e ==> s[m] != '.' && s[m] != '/' && !IsLineTerminator(s[m])
    requires e == |s| || s[e] == '.' || s[e] == '/'
    ensures ParseGithub(Some(s)) == Repo(RepoRef(s[19..b], s[b + 1..e]))
  {
    HttpsGithubHost(s);
    MatchAfterHost(s, 19, b, e);
  }

  /** In such a URL the host is first matched at index 8. */
  lemma HttpsGithubHost(s: string)
    requires |s| >= 19 && s[..19] == "https://github.com/"
    ensures MatchFrom(s, 0) == MatchFrom(s, 8)
    ensures MatchesAt(s, 8, "github.com/")
  {
    assert forall m :: 0 <= m < 19 ==> s[m] == s[..19][m];
    forall m | 0 <= m < 8 ensures !MatchesAt(s, m, "github.com/") {
      NoHostAt(s, m);
    }
    MatchFromSkip(s, 0, 8);
  }

  /** A canonical repository page URL yields its owner and name, whatever
      follows the name after a '.' or a '/'. */
  lemma ParseCanonicalUrl(owner: string, name: string, rest: string)
    requires forall m :: 0 <= m < |owner| ==> owner[m] != '/' && !IsLineTerminator(owner[m])
    requires forall m :: 0 <= m < |name| ==> name[m] != '.' && name[m] != '/' && !IsLineTerminator(name[m])
    requires rest == [] || rest[0] == '.' || rest[0] == '/'
    ensures ParseGithub(Some("https://github.com/" + owner + "/" + name + rest)) == Repo(RepoRef(owner, name))
  {
    var s := "https://github.com/" + owner + "/" + name + rest;
    var b := 19 + |owner|;
    var e := b + 1 + |name|;
    assert forall m :: 19 <= m < b ==> s[m] == owner[m - 19];
    assert s[b] == '/';
    assert forall m :: b + 1 <= m < e ==> s[m] == name[m - b - 1];
    assert e < |s| ==> s[e] == rest[0];
    assert s[..19] == "https://github.com/";
    ParseHttpsGithub(s, b, e);
    assert s[19..b] == owner && s[b + 1..e] == name;
  }

  /** A URL with no "github.com/" in any letter case is rejected. */
  lemma NonGithubUrlInvalid(url: string)
    requires url != ""
    requires forall m :: !MatchesAt(url, m, "github.com/")
    ensures ParseGithub(Some(url)) == InvalidUrl(url)
  {
    MatchFromSkip(url, 0, |url|);
  }

  /** The leftmost "github.com/" (in any letter case) decides: when the
      owner and name can be matched after it, they are the result, whatever
      later occurrences of the host follow. */
  lemma ParseLeftmost(s: string, p: nat, b: nat, e: nat)
    requires MatchesAt(s, p, "github.com/") && forall m :: 0 <= m < p ==> !MatchesAt(s, m, "github.com/")
    requires p + 11 <= b < e <= |s|
    requires forall m :: p + 11 <= m < b ==> s[m] != '/' && !IsLineTerminator(s[m])
    requires s[b] == '/'
    requires forall m :: b + 1 <= m < e ==> s[m] != '.' && s[m] != '/' && !IsLineTerminator(s[m])
    requires e == |s| || s[e] == '.' || s[e] == '/'
    ensures ParseGithub(Some(s)) == Repo(RepoRef(s[p + 11..b], s[b + 1..e]))
  {
    MatchFromSkip(s, 0, p);
    MatchAfterHost(s, p + 11, b, e);
  }

  /** Two URLs that differ only in letter case, and only up to the end of the
      first "github.com/", parse alike: both are accepted with the same owner
      and name, or both rejected. The host and whatever precedes it are
      matched case-insensitively, and owner and name are read afterwards. */
  lemma ParseIgnoresHostCase(s: string, t: string, p: nat)
    requires |s| == |t|
    requires MatchesAt(s, p, "github.com/") && forall m :: 0 <= m < p ==> !MatchesAt(s, m, "github.com/")
    requires forall k :: 0 <= k < |s| ==> LowerAscii(s[k]) == LowerAscii(t[k])
    requires forall k :: p + 11 <= k < |s| ==> s[k] == t[k]
    ensures ParseGithub(Some(s)).Repo? <==> ParseGithub(Some(t)).Repo?
    ensures ParseGithub(Some(s)).Repo? ==> ParseGithub(Some(s)) == ParseGithub(Some(t))
  {
    MatchFromCase(s, t, p, 0);
  }

  lemma {:induction false} MatchFromCase(s: string, t: string, p: nat, start: nat)
    requires |s| == |t|
    requires forall m :: 0 <= m < p ==> !MatchesAt(s, m, "github.com/")
    requires forall k :: 0 <= k < |s| ==> LowerAscii(s[k]) == LowerAscii(t[k])
    requires forall k :: p + 11 <= k < |s| ==> s[k] == t[k]
    ensures MatchFrom(s, start) == MatchFrom(t, start)
    decreases |s| - start
  {
    if start + 11 <= |s| {
      assert MatchesAt(s, start, "github.com/") == MatchesAt(t, start, "github.com/");
      if MatchesAt(s, start, "github.com/") {
        MatchOwnerSame(s, t, start + 11, start + 11);
      }
      MatchFromCase(s, t, p, start + 1);
    }
  }

  /** Owner and name matching reads nothing before `q`. */
  lemma {:induction false} MatchOwnerSame(s: string, t: string, q: nat, a: nat)
    requires |s| == |t| && q <= a <= |s|
    requires forall k :: q <= k < |s| ==> s[k] == t[k]
    ensures MatchOwner(s, q, a) == MatchOwner(t, q, a)
    decreases |s| - a
  {
    if a < |s| {
      RepoEndSame(s, t, a + 1);
      assert s[q..a] == t[q..a];
      if RepoEnd(s, a + 1).Some? {
        assert s[a + 1..RepoEnd(s, a + 1).value] == t[a + 1..RepoEnd(t, a + 1).value];
      }
      MatchOwnerSame(s, t, q, a + 1);
    }
  }

  lemma {:induction false} RepoEndSame(s: string, t: string, j: nat)
    requires |s| == |t| && j <= |s|
    requires forall k :: j <= k < |s| ==> s[k] == t[k]
    ensures RepoEnd(s, j) == RepoEnd(t, j)
    decreases |s| - j
  {
    if j < |s| {
      RepoEndSame(s, t, j + 1);
    }
  }

  /** A URL in which no "github.com/" is followed by a further '/' has no
      repository part and is rejected with itself. */
  lemma HostWithoutRepoInvalid(url: string)
    requires url != ""
    requires forall m: nat, k :: MatchesAt(url, m, "github.com/") && m + 11 <= k < |url| ==> url[k] != '/'
    ensures ParseGithub(Some(url)) == InvalidUrl(url)
  {
    MatchFromNoRepo(url, 0);
  }

  lemma {:induction false} MatchFromNoRepo(s: string, start: nat)
    requires forall m: nat, k :: MatchesAt(s, m, "github.com/") && m + 11 <= k < |s| ==> s[k] != '/'
    ensures MatchFrom(s, start).None?
    decreases |s| - start
  {
    if start + 11 <= |s| {
      if MatchesAt(s, start, "github.com/") {
        MatchOwnerNoSlash(s, start + 11, start + 11);
      }
      MatchFromNoRepo(s, start + 1);
    }
  }

  lemma {:induction false} MatchOwnerNoSlash(s: string, q: nat, a: nat)
    requires q <= a <= |s|
    requires forall k :: a <= k < |s| ==> s[k] != '/'
    ensures MatchOwner(s, q, a).None?
    decreases |s| - a
  {
    if a < |s| {
      MatchOwnerNoSlash(s, q, a + 1);
    }
  }

  /** For instance, an organisation page is not a repository. */
  lemma OrgPageInvalid()
    ensures ParseGithub(Some("https://github.com/org")) == InvalidUrl("https://github.com/org")
  {
    var url := "https://github.com/org";
    forall m: nat, k | MatchesAt(url, m, "github.com/") && m + 11 <= k < |url| ensures url[k] != '/' {
      if m < 8 {
        NoHostAt(url, m);
      }
      assert url[19..] == "org";
      assert url[k] == url[19..][k - 19];
    }
    HostWithoutRepoInvalid(url);
  }

  // ---------------------------------------------------------------------
  // fetchCommitContributors
  // ---------------------------------------------------------------------

  /** One element of the contributors array; `None` for a null element.
      `contributions` is `None` when the field is absent. */
  datatype RawContributor = RawContributor(login: Option<string>, htmlUrl: string, contributions: Option<nat>)

  predicate HasLogin(u: Option<RawContributor>) {
    u.Some? && Truthy(u.value.login)
  }

  function AsContributor(u: RawContributor): Contributor
    requires Truthy(u.login)
  {
    Contributor(u.login.value, u.htmlUrl, u.contributions.OrElse(0))
  }

  /** Elements with a truthy login, in order, as contributor records. */
  function KeepContributors(data: seq<Option<RawContributor>>): seq<Contributor> {
    if data == [] then []
    else
      var last := data[|data| - 1];
      KeepContributors(data[..|data| - 1]) + if HasLogin(last) then [AsContributor(last.value)] else []
  }

  /** `fetchCommitContributors` on a request that did not throw: nothing on
      a non-success status. (processRepo stops before using a thrown one.) */
  function CommitContributors(reply: Reply<seq<Option<RawContributor>>>): seq<Contributor> {
    if reply.Ok? then KeepContributors(reply.data) else []
  }

  /** A record is kept exactly for each element with a login; its count is the
      element's contributions, or zero when absent. */
  lemma {:induction false} KeepContributorsSpec(data: seq<Option<RawContributor>>)
    ensures |KeepContributors(data)| <= |data|
    ensures forall c :: c in KeepContributors(data) <==>
      exists i :: 0 <= i < |data| && HasLogin(data[i]) && AsContributor(data[i].value) == c
    ensures forall c :: c in KeepContributors(data) ==> c.login != ""
  {
    if data != [] {
      var init, last := data[..|data| - 1], data[|data| - 1];
      KeepContributorsSpec(init);
      forall c | c in KeepContributors(data)
        ensures exists i :: 0 <= i < |data| && HasLogin(data[i]) && AsContributor(data[i].value) == c
      {
        if c in KeepContributors(init) {
          var i :| 0 <= i < |init| && HasLogin(init[i]) && AsContributor(init[i].value) == c;
          assert data[i] == init[i];
        } else {
          assert HasLogin(data[|data| - 1]);
        }
      }
      forall c | exists i :: 0 <= i < |data| && HasLogin(data[i]) && AsContributor(data[i].value) == c
        ensures c in KeepContributors(data)
      {
        var i :| 0 <= i < |data| && HasLogin(data[i]) && AsContributor(data[i].value) == c;
        if i < |init| {
          assert init[i] == data[i];
        }
      }
    }
  }

  // ---------------------------------------------------------------------
  // fetchIssueCreators
  // ---------------------------------------------------------------------

  /** The `user` of one issue: `None` when the element or its user is missing. */
  datatype IssueUser = IssueUser(login: Option<string>, htmlUrl: string)

  /** The login an issue is credited to, if it has a truthy one. */
  function Creator(it: Option<IssueUser>): Option<string> {
    if it.Some? && Truthy(it.value.login) then it.value.login else None
  }

  /** Where `login` sits in the tally, if present. */
  function LoginIndex(counts: seq<Contributor>, login: string): (r: Option<nat>)
    ensures r.Some? ==> r.value < |counts| && counts[r.value].login == login
    ensures r.None? ==> forall k :: 0 <= k < |counts| ==> counts[k].login != login
  {
    if counts == [] then None
    else if counts[|counts| - 1].login == login then Some(|counts| - 1)
    else LoginIndex(counts[..|counts| - 1], login)
  }

  /** One step of the tally: a new login enters with count one and its
      `html_url`; a known login has its count raised by one. */
  function Tally(counts: seq<Contributor>, it: Option<IssueUser>): seq<Contributor> {
    match Creator(it)
    case None => counts
    case Some(login) =>
      match LoginIndex(counts, login)
      case Some(k) => counts[k := counts[k].(count := counts[k].count + 1)]
      case None => counts + [Contributor(login, it.value.htmlUrl, 1)]
  }

  /** The tally over all issues, in order. */
  function CountCreators(issues: seq<Option<IssueUser>>): seq<Contributor> {
    if issues == [] then [] else Tally(CountCreators(issues[..|issues| - 1]), issues[|issues| - 1])
  }

  /** `fetchIssueCreators` as a specification, on a request that did not
      throw: nothing on a non-success status. */
  function IssueCreators(reply: Reply<seq<Option<IssueUser>>>): seq<Contributor> {
    if reply.Ok? then CountCreators(reply.data) else []
  }

  /** The loop of fetchIssueCreators. */
  method FetchIssueCreators(reply: Reply<seq<Option<IssueUser>>>) returns (creators: seq<Contributor>)
    ensures creators == IssueCreators(reply)
  {
    if !reply.Ok? {
      return [];
    }
    var issues := reply.data;
    var counts: seq<Contributor> := [];
    for i := 0 to |issues|
      invariant counts == CountCreators(issues[..i])
    {
      assert issues[..i + 1][..i] == issues[..i];
      var it := issues[i];
      if it.None? || !Truthy(it.value.login) {
        continue;
      }
      var key := it.value.login.value;
      var k := LoginIndex(counts, key);
      if k.None? {
        counts := counts + [Contributor(key, it.value.htmlUrl, 0)];
        k := Some(|counts| - 1);
      }
      counts := counts[k.value := counts[k.value].(count := counts[k.value].count + 1)];
    }
    assert issues[..|issues|] == issues;
    return counts;
  }

  /** How many issues are credited to `login`. */
  function IssuesBy(issues: seq<Option<IssueUser>>, login: string): nat {
    if issues == [] then 0
    else IssuesBy(issues[..|issues| - 1], login) + if Creator(issues[|issues| - 1]) == Some(login) then 1 else 0
  }

  /** How many issues have a creator at all. */
  function CreditedIssues(issues: seq<Option<IssueUser>>): nat {
    if issues == [] then 0
    else CreditedIssues(issues[..|issues| - 1]) + if Creator(issues[|issues| - 1]).Some? then 1 else 0
  }

  function SumCounts(cs: seq<Contributor>): nat {
    if cs == [] then 0 else SumCounts(cs[..|cs| - 1]) + cs[|cs| - 1].count
  }

  ghost predicate DistinctLogins(cs: seq<Contributor>) {
    forall i, j :: 0 <= i < j < |cs| ==> cs[i].login != cs[j].login
  }

  lemma {:induction false} SumCountsUpdate(cs: seq<Contributor>, k: nat, c: Contributor)
    requires k < |cs|
    ensures SumCounts(cs[k := c]) + cs[k].count == SumCounts(cs) + c.count
  {
    var init := cs[..|cs| - 1];
    if k == |cs| - 1 {
      assert cs[k := c][..|cs| - 1] == init;
    } else {
      assert cs[k := c][..|cs| - 1] == init[k := c];
      SumCountsUpdate(init, k, c);
    }
  }

  lemma SumCountsSnoc(cs: seq<Contributor>, c: Contributor)
    ensures SumCounts(cs + [c]) == SumCounts(cs) + c.count
  {
    assert (cs + [c])[..|cs|] == cs;
  }

  /** The tally credits each counted issue exactly once. */
  lemma {:induction false} CountCreatorsTotal(issues: seq<Option<IssueUser>>)
    ensures SumCounts(CountCreators(issues)) == CreditedIssues(issues)
  {
    if issues != [] {
      var init, it := issues[..|issues| - 1], issues[|issues| - 1];
      CountCreatorsTotal(init);
      var prev := CountCreators(init);
      match Creator(it)
      case None =>
      case Some(login) =>
        match LoginIndex(prev, login)
        case Some(k) =>
          SumCountsUpdate(prev, k, prev[k].(count := prev[k].count + 1));
        case None =>
          SumCountsSnoc(prev, Contributor(login, it.value.htmlUrl, 1));
    }
  }

  /** What one step of the tally does to the records it already holds. */
  lemma TallyStep(prev: seq<Contributor>, it: Option<IssueUser>)
    requires DistinctLogins(prev)
    ensures var r := Tally(prev, it);
      && |prev| <= |r| <= |prev| + 1
      && (forall k :: 0 <= k < |prev| ==>
            r[k].login == prev[k].login && r[k].htmlUrl == prev[k].htmlUrl &&
            r[k].count == prev[k].count + if Creator(it) == Some(prev[k].login) then 1 else 0)
      && (|r| == |prev| + 1 <==> Creator(it).Some? && forall k :: 0 <= k < |prev| ==> prev[k].login != Creator(it).value)
      && (|r| == |prev| + 1 ==> r[|prev|] == Contributor(Creator(it).value, it.value.htmlUrl, 1))
  {
  }

  /** Each creator appears once. */
  lemma {:induction false} CountCreatorsDistinct(issues: seq<Option<IssueUser>>)
    ensures DistinctLogins(CountCreators(issues))
  {
    if issues != [] {
      var init, it := issues[..|issues| - 1], issues[|issues| - 1];
      CountCreatorsDistinct(init);
      TallyStep(CountCreators(init), it);
    }
  }

  /** Each record counts exactly the issues of its login, and every login
      with an issue has a record. */
  lemma {:induction false} CountCreatorsCounts(issues: seq<Option<IssueUser>>)
    ensures forall k :: 0 <= k < |CountCreators(issues)| ==>
      var c := CountCreators(issues)[k];
      c.count == IssuesBy(issues, c.login) && c.count > 0
    ensures forall login :: IssuesBy(issues, login) > 0 ==>
      exists k :: 0 <= k < |CountCreators(issues)| && CountCreators(issues)[k].login == login
  {
    if issues != [] {
      var init, it := issues[..|issues| - 1], issues[|issues| - 1];
      CountCreatorsCounts(init);
      CountCreatorsDistinct(init);
      var prev := CountCreators(init);
      TallyStep(prev, it);
      var r := CountCreators(issues);
      forall login | IssuesBy(issues, login) > 0
        ensures exists k :: 0 <= k < |r| && r[k].login == login
      {
        if IssuesBy(init, login) > 0 {
          var k :| 0 <= k < |prev| && prev[k].login == login;
          assert r[k].login == login;
        } else if |r| == |prev| + 1 {
          assert r[|prev|].login == login;
        } else {
          var k :| 0 <= k < |prev| && prev[k].login == login;
          assert r[k].login == login;
        }
      }
    }
  }

  /** Issue `i` is the first one credited to `login`. */
  ghost predicate FirstIssueOf(issues: seq<Option<IssueUser>>, i: int, login: string) {
    && 0 <= i < |issues|
    && Creator(issues[i]) == Some(login)
    && forall j :: 0 <= j < i ==> Creator(issues[j]) != Some(login)
  }

  /** Each record keeps the `html_url` of its login's first issue. */
  lemma {:induction false} CountCreatorsFirstUrl(issues: seq<Option<IssueUser>>)
    ensures forall k :: 0 <= k < |CountCreators(issues)| ==>
      exists i :: FirstIssueOf(issues, i, CountCreators(issues)[k].login) &&
        issues[i].value.htmlUrl == CountCreators(issues)[k].htmlUrl
  {
    if issues != [] {
      var init, it := issues[..|issues| - 1], issues[|issues| - 1];
      CountCreatorsFirstUrl(init);
      CountCreatorsCounts(init);
      CountCreatorsDistinct(init);
      var prev := CountCreators(init);
      TallyStep(prev, it);
      var r := CountCreators(issues);
      forall k | 0 <= k < |r|
        ensures exists i :: FirstIssueOf(issues, i, r[k].login) && issues[i].value.htmlUrl == r[k].htmlUrl
      {
        if k < |prev| {
          var i :| FirstIssueOf(init, i, prev[k].login) && init[i].value.htmlUrl == prev[k].htmlUrl;
          assert forall j :: 0 <= j <= i ==> issues[j] == init[j];
          assert FirstIssueOf(issues, i, r[k].login);
        } else {
          var login := Creator(it).value;
          assert IssuesBy(init, login) == 0;
          IssuesByZero(init, login);
          assert forall j :: 0 <= j < |init| ==> issues[j] == init[j];
          assert FirstIssueOf(issues, |init|, login);
        }
      }
      assert forall k :: 0 <= k < |r| ==> exists i :: FirstIssueOf(issues, i, r[k].login) && issues[i].value.htmlUrl == r[k].htmlUrl;
    } else {
      assert CountCreators(issues) == [];
    }
  }

  /** A login with no credited issue is the creator of none of them. */
  lemma {:induction false} IssuesByZero(issues: seq<Option<IssueUser>>, login: string)
    requires IssuesBy(issues, login) == 0
    ensures forall j :: 0 <= j < |issues| ==> Creator(issues[j]) != Some(login)
  {
    if issues != [] {
      var init := issues[..|issues| - 1];
      IssuesByZero(init, login);
      assert forall j :: 0 <= j < |init| ==> issues[j] == init[j];
    }
  }

  // ---------------------------------------------------------------------
  // fetchOrgPublicMembers and the member filter of processRepo
  // ---------------------------------------------------------------------

  /** One element of the members array: null, or an object whose `login` is a
      string (`Some`) or something else (`None`). */
  datatype RawMember = NoMember | Member(login: Option<string>)

  function MemberLogin(u: RawMember): Option<string> {
    if u.Member? && Truthy(u.login) then u.login else None
  }

  function KeepMembers(data: seq<RawMember>): seq<string> {
    if data == [] then []
    else
      var last := MemberLogin(data[|data| - 1]);
      KeepMembers(data[..|data| - 1]) + if last.Some? then [last.value] else []
  }

  /** `fetchOrgPublicMembers` on a request that did not throw: nothing on a
      non-success status. */
  function OrgMembers(reply: Reply<seq<RawMember>>): seq<string> {
    if reply.Ok? then KeepMembers(reply.data) else []
  }

  /** The member list holds exactly the non-empty string logins. */
  lemma {:induction false} KeepMembersSpec(data: seq<RawMember>)
    ensures forall m :: m in KeepMembers(data) <==> exists i :: 0 <= i < |data| && MemberLogin(data[i]) == Some(m)
    ensures "" !in KeepMembers(data)
  {
    if data != [] {
      var init := data[..|data| - 1];
      KeepMembersSpec(init);
      forall m | m in KeepMembers(data) ensures exists i :: 0 <= i < |data| && MemberLogin(data[i]) == Some(m) {
        if m in KeepMembers(init) {
          var i :| 0 <= i < |init| && MemberLogin(init[i]) == Some(m);
          assert data[i] == init[i];
        } else {
          assert MemberLogin(data[|data| - 1]) == Some(m);
        }
      }
      forall m | exists i :: 0 <= i < |data| && MemberLogin(data[i]) == Some(m) ensures m in KeepMembers(data) {
        var i :| 0 <= i < |data| && MemberLogin(data[i]) == Some(m);
        if i < |init| { assert init[i] == data[i]; }
      }
    }
  }

  /** The records whose login is not a member, in order. */
  function WithoutMembers(cs: seq<Contributor>, members: seq<string>): (r: seq<Contributor>)
    ensures |r| <= |cs|
  {
    if cs == [] then []
    else
      var last := cs[|cs| - 1];
      WithoutMembers(cs[..|cs| - 1], members) + if last.login in members then [] else [last]
  }

  /** A record survives exactly when it is not a member's; nothing is dropped
      exactly when no record is a member's. */
  lemma {:induction false} WithoutMembersSpec(cs: seq<Contributor>, members: seq<string>)
    ensures forall c :: c in WithoutMembers(cs, members) <==> c in cs && c.login !in members
    ensures |WithoutMembers(cs, members)| == |cs| <==> forall c :: c in cs ==> c.login !in members
  {
    if cs != [] {
      var init, last := cs[..|cs| - 1], cs[|cs| - 1];
      assert cs == init + [last];
      WithoutMembersSpec(init, members);
      if last.login in members {
        assert |WithoutMembers(cs, members)| < |cs|;
      }
    }
  }

  /** The number of records the member filter removed from both lists. */
  function ExcludedCount(committers: seq<Contributor>, issuers: seq<Contributor>, members: seq<string>): nat {
    |committers| + |issuers| - (|WithoutMembers(committers, members)| + |WithoutMembers(issuers, members)|)
  }

  /** Whether processRepo writes the "exclude_org_members" log line. */
  predicate LogsExclusion(committers: seq<Contributor>, issuers: seq<Contributor>, members: seq<string>) {
    |members| > 0 && ExcludedCount(committers, issuers, members) > 0
  }

  /** The exclusion line is written exactly when some committer or issuer is
      an org member; the guard on an empty member list never changes that. */
  lemma LogsExclusionIffMemberFound(committers: seq<Contributor>, issuers: seq<Contributor>, members: seq<string>)
    ensures LogsExclusion(committers, issuers, members) <==>
      exists c :: (c in committers || c in issuers) && c.login in members
  {
    WithoutMembersSpec(committers, members);
    WithoutMembersSpec(issuers, members);
  }

  // ---------------------------------------------------------------------
  // What one repository contributes to the influence tables
  // ---------------------------------------------------------------------

  /** One merge call: credited commits and issues for one user. */
  datatype Delta = Delta(login: string, htmlUrl: string, commits: nat, issues: nat)

  function CommitDeltas(cs: seq<Contributor>): (ds: seq<Delta>)
    ensures |ds| == |cs|
    ensures forall i :: 0 <= i < |cs| ==> ds[i] == Delta(cs[i].login, cs[i].htmlUrl, cs[i].count, 0)
  {
    if cs == [] then [] else [Delta(cs[0].login, cs[0].htmlUrl, cs[0].count, 0)] + CommitDeltas(cs[1..])
  }

  function IssueDeltas(cs: seq<Contributor>): (ds: seq<Delta>)
    ensures |ds| == |cs|
    ensures forall i :: 0 <= i < |cs| ==> ds[i] == Delta(cs[i].login, cs[i].htmlUrl, 0, cs[i].count)
  {
    if cs == [] then [] else [Delta(cs[0].login, cs[0].htmlUrl, 0, cs[0].count)] + IssueDeltas(cs[1..])
  }

  /** The three replies processRepo waits for. */
  datatype RepoFetch = RepoFetch(
    members: Reply<seq<RawMember>>,
    contributors: Reply<seq<Option<RawContributor>>>,
    issues: Reply<seq<Option<IssueUser>>>)

  /** Whether one of the three requests threw, which rejects the
      `Promise.all` processRepo awaits. */
  predicate FetchThrew(f: RepoFetch) {
    f.members.Threw? || f.contributors.Threw? || f.issues.Threw?
  }

  /** The merges processRepo performs, in order: every non-member committer,
      then every non-member issue creator. */
  function RepoDeltas(f: RepoFetch): (ds: seq<Delta>)
    ensures forall d :: d in ds ==> d.login !in OrgMembers(f.members)
  {
    var members := OrgMembers(f.members);
    var committers := WithoutMembers(CommitContributors(f.contributors), members);
    var issuers := WithoutMembers(IssueCreators(f.issues), members);
    WithoutMembersSpec(CommitContributors(f.contributors), members);
    WithoutMembersSpec(IssueCreators(f.issues), members);
    CommitDeltas(committers) + IssueDeltas(issuers)
  }
}
