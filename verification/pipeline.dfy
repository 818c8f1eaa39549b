/** The three long-running steps of the pipeline (convex/projects.ts):
    researchDependencies, which turns a project's stored manifests into
    scored dependency rows; scrapeGithubWorkflow, which walks the qualifying
    repositories in order; and processRepo, which credits one repository's
    committers and issue creators. The tables are the objects they update;
    the npm registry, the model call, `JSON.parse` and the GitHub replies are
    parameters. */
module Pipeline {
  import opened Common
  import Manifests
  import Registry
  import Scoring
  import opened GitHub
  import opened Dependencies
  import opened Influence
  import opened Progress
  import opened Logs
  import opened Projects

  // ---------------------------------------------------------------------
  // processRepo
  // ---------------------------------------------------------------------

  /** The exclusion line processRepo writes when some committer or issue
      creator was an org member. */
  function ExclusionLogs(project: ProjectId, ref: RepoRef, f: RepoFetch): seq<LogEntry> {
    var members := OrgMembers(f.members);
    var committers := CommitContributors(f.contributors);
    var issuers := IssueCreators(f.issues);
    if LogsExclusion(committers, issuers, members)
    then [Info(project, ExcludedMembers(ExcludedCount(committers, issuers, members), ref.owner))]
    else []
  }

  /** The log lines processRepo writes, given the scrape row it reads back
      after its increment: the fetch line, the exclusion line, and the
      progress line (counters read as 0 when absent). */
  function RepoLogs(project: ProjectId, ref: RepoRef, f: RepoFetch, row: Option<ScrapeRow>): seq<LogEntry> {
    var processed := if row.Some? then row.value.processedRepos.OrElse(0) else 0;
    var total := if row.Some? then row.value.totalRepos.OrElse(0) else 0;
    [Info(project, FetchingRepo(ref.owner, ref.name))] + ExclusionLogs(project, ref, f)
    + [Info(project, ProcessedRepo(ref.owner, ref.name, processed, total))]
  }

  /** The first merge loop of processRepo: each committer's commit count,
      in order, into both tables. */
  method CreditCommitters(project: ProjectId, ref: RepoRef, committers: seq<Contributor>,
                          users: UserInfluenceTable, repos: RepoInfluenceTable)
    requires users.Valid() && repos.Valid()
    modifies users, repos
    ensures users.Valid() && repos.Valid()
    ensures users.rows == ApplyUserDeltas(old(users.rows), project, CommitDeltas(committers))
    ensures repos.rows == ApplyRepoDeltas(old(repos.rows), project, ref, CommitDeltas(committers))
  {
    ghost var ds := CommitDeltas(committers);
    for i := 0 to |committers|
      invariant users.Valid() && repos.Valid()
      invariant users.rows == ApplyUserDeltas(old(users.rows), project, ds[..i])
      invariant repos.rows == ApplyRepoDeltas(old(repos.rows), project, ref, ds[..i])
    {
      var c := committers[i];
      assert ds[..i + 1][..i] == ds[..i];
      users.MergeUser(project, c.login, c.htmlUrl, c.count, 0);
      repos.MergeRepoUser(project, c.login, ref.owner, ref.name, c.count, 0);
    }
    assert ds[..|committers|] == ds;
  }

  /** The second merge loop of processRepo: each issue creator's issue
      count, in order, into both tables. */
  method CreditIssuers(project: ProjectId, ref: RepoRef, issuers: seq<Contributor>,
                       users: UserInfluenceTable, repos: RepoInfluenceTable)
    requires users.Valid() && repos.Valid()
    modifies users, repos
    ensures users.Valid() && repos.Valid()
    ensures users.rows == ApplyUserDeltas(old(users.rows), project, IssueDeltas(issuers))
    ensures repos.rows == ApplyRepoDeltas(old(repos.rows), project, ref, IssueDeltas(issuers))
  {
    ghost var ds := IssueDeltas(issuers);
    for j := 0 to |issuers|
      invariant users.Valid() && repos.Valid()
      invariant users.rows == ApplyUserDeltas(old(users.rows), project, ds[..j])
      invariant repos.rows == ApplyRepoDeltas(old(repos.rows), project, ref, ds[..j])
    {
      var it := issuers[j];
      assert ds[..j + 1][..j] == ds[..j];
      users.MergeUser(project, it.login, it.htmlUrl, 0, it.count);
      repos.MergeRepoUser(project, it.login, ref.owner, ref.name, 0, it.count);
    }
    assert ds[..|issuers|] == ds;
  }

  /** processRepo, given the three GitHub replies. It completes (`ok`)
      unless one of the requests threw, in which case `Promise.all` rejects
      right after the first log line and nothing else is written. */
  method ProcessRepo(project: ProjectId, ref: RepoRef, f: RepoFetch,
                     users: UserInfluenceTable, repos: RepoInfluenceTable, scrapes: ScrapeTable, logs: LogTable)
    returns (ok: bool)
    requires users.Valid() && repos.Valid()
    modifies users, repos, scrapes, logs
    ensures users.Valid() && repos.Valid()
    ensures ok <==> !FetchThrew(f)
    ensures !ok ==>
      && users.rows == old(users.rows) && repos.rows == old(repos.rows) && scrapes.rows == old(scrapes.rows)
      && logs.entries == old(logs.entries) + [Info(project, FetchingRepo(ref.owner, ref.name))]
    ensures ok ==> users.rows == ApplyUserDeltas(old(users.rows), project, RepoDeltas(f))
    ensures ok ==> repos.rows == ApplyRepoDeltas(old(repos.rows), project, ref, RepoDeltas(f))
    ensures ok ==>
      scrapes.rows == if project in old(scrapes.rows) then old(scrapes.rows)[project := Incremented(old(scrapes.rows)[project])]
                      else old(scrapes.rows)
    ensures ok ==> logs.entries == old(logs.entries) + RepoLogs(project, ref, f, scrapes.Get(project))
  {
    logs.Append(Info(project, FetchingRepo(ref.owner, ref.name)));
    if FetchThrew(f) {
      return false;
    }
    var orgMembers := OrgMembers(f.members);
    var committers := CommitContributors(f.contributors);
    var issuers := FetchIssueCreators(f.issues);
    var filteredCommitters := WithoutMembers(committers, orgMembers);
    var filteredIssuers := WithoutMembers(issuers, orgMembers);
    if |orgMembers| > 0 {
      var excluded := |committers| + |issuers| - (|filteredCommitters| + |filteredIssuers|);
      if excluded > 0 {
        logs.Append(Info(project, ExcludedMembers(excluded, ref.owner)));
      }
    }
    ghost var opening := [Info(project, FetchingRepo(ref.owner, ref.name))] + ExclusionLogs(project, ref, f);
    assert logs.entries == old(logs.entries) + opening;
    CreditCommitters(project, ref, filteredCommitters, users, repos);
    CreditIssuers(project, ref, filteredIssuers, users, repos);
    ApplyUserDeltasAppend(old(users.rows), project, CommitDeltas(filteredCommitters), IssueDeltas(filteredIssuers));
    ApplyRepoDeltasAppend(old(repos.rows), project, ref, CommitDeltas(filteredCommitters), IssueDeltas(filteredIssuers));
    assert RepoDeltas(f) == CommitDeltas(filteredCommitters) + IssueDeltas(filteredIssuers);
    scrapes.Increment(project);
    var row := scrapes.Get(project);
    var processed := if row.Some? then row.value.processedRepos.OrElse(0) else 0;
    var total := if row.Some? then row.value.totalRepos.OrElse(0) else 0;
    logs.Append(Info(project, ProcessedRepo(ref.owner, ref.name, processed, total)));
    assert RepoLogs(project, ref, f, row) == opening + [Info(project, ProcessedRepo(ref.owner, ref.name, processed, total))];
    ghost var progress := [Info(project, ProcessedRepo(ref.owner, ref.name, processed, total))];
    assert logs.entries == old(logs.entries) + opening + progress;
    AppendAssociates(old(logs.entries), opening, progress);
    return true;
  }

  // ---------------------------------------------------------------------
  // scrapeGithubWorkflow
  // ---------------------------------------------------------------------

  /** A qualifying link whose URL parseGithub accepts. */
  predicate Parses(link: RepoLink) {
    ParseGithub(Some(link.githubUrl)).Repo?
  }

  predicate AllParse(links: seq<RepoLink>) {
    forall i :: 0 <= i < |links| ==> Parses(links[i])
  }

  /** A link that parses and whose repository's requests all return. */
  predicate Completes(link: RepoLink, fetch: RepoRef -> RepoFetch) {
    Parses(link) && !FetchThrew(fetch(ParseGithub(Some(link.githubUrl)).ref))
  }

  predicate AllComplete(links: seq<RepoLink>, fetch: RepoRef -> RepoFetch) {
    forall i :: 0 <= i < |links| ==> Completes(links[i], fetch)
  }

  /** The repositories of links that all parse, in order. */
  function RefsOf(links: seq<RepoLink>): (refs: seq<RepoRef>)
    requires AllParse(links)
    ensures |refs| == |links|
    ensures forall i :: 0 <= i < |links| ==> ParseGithub(Some(links[i].githubUrl)) == Repo(refs[i])
  {
    seq(|links|, i requires 0 <= i < |links| => ParseGithub(Some(links[i].githubUrl)).ref)
  }

  /** The user table after processing `refs` in order. */
  function UsersAfter(rows: seq<UserRow>, project: ProjectId, refs: seq<RepoRef>, fetch: RepoRef -> RepoFetch): seq<UserRow> {
    if refs == [] then rows
    else ApplyUserDeltas(UsersAfter(rows, project, refs[..|refs| - 1], fetch), project, RepoDeltas(fetch(refs[|refs| - 1])))
  }

  /** The per-repository table after processing `refs` in order. */
  function ReposAfter(rows: seq<RepoRow>, project: ProjectId, refs: seq<RepoRef>, fetch: RepoRef -> RepoFetch): seq<RepoRow> {
    if refs == [] then rows
    else
      var ref := refs[|refs| - 1];
      ApplyRepoDeltas(ReposAfter(rows, project, refs[..|refs| - 1], fetch), project, ref, RepoDeltas(fetch(ref)))
  }

  /** The row processRepo reads back after the k-th of n repositories. */
  function RunningRow(n: nat, k: nat): ScrapeRow {
    ScrapeRow(false, Some(n), Some(k), Some(RoundPercent(k, n)))
  }

  /** The log lines of processing `refs` in order, out of n repositories. */
  function ScrapeLogs(project: ProjectId, refs: seq<RepoRef>, fetch: RepoRef -> RepoFetch, n: nat): seq<LogEntry> {
    if refs == [] then []
    else
      var ref := refs[|refs| - 1];
      ScrapeLogs(project, refs[..|refs| - 1], fetch, n) + RepoLogs(project, ref, fetch(ref), Some(RunningRow(n, |refs|)))
  }

  datatype WorkflowOutcome =
    | ScrapeFinished
      /** parseGithub threw on the link at `index`; the workflow stops there. */
    | ScrapeAborted(index: nat, reason: ParsedUrl)
      /** A GitHub request for the repository of the link at `index` threw,
          so processRepo rejected; the workflow stops there. */
    | RepoFailed(index: nat, ref: RepoRef)

  /** One more parsed link extends the fold of each table and of the log. */
  lemma ScrapeStep(project: ProjectId, links: seq<RepoLink>, i: nat, fetch: RepoRef -> RepoFetch,
                   users: seq<UserRow>, repos: seq<RepoRow>)
    requires i < |links| && AllParse(links[..i]) && Parses(links[i])
    ensures AllParse(links[..i + 1])
    ensures var ref := ParseGithub(Some(links[i].githubUrl)).ref;
      var done := RefsOf(links[..i]);
      && RefsOf(links[..i + 1]) == done + [ref]
      && UsersAfter(users, project, done + [ref], fetch) == ApplyUserDeltas(UsersAfter(users, project, done, fetch), project, RepoDeltas(fetch(ref)))
      && ReposAfter(repos, project, done + [ref], fetch) == ApplyRepoDeltas(ReposAfter(repos, project, done, fetch), project, ref, RepoDeltas(fetch(ref)))
      && forall n: nat :: ScrapeLogs(project, done + [ref], fetch, n) ==
           ScrapeLogs(project, done, fetch, n) + RepoLogs(project, ref, fetch(ref), Some(RunningRow(n, i + 1)))
  {
    var ref := ParseGithub(Some(links[i].githubUrl)).ref;
    assert links[..i + 1] == links[..i] + [links[i]];
    var done := RefsOf(links[..i]);
    assert RefsOf(links[..i + 1]) == done + [ref];
    assert (done + [ref])[..i] == done;
  }

  /** One more completed link extends a completed prefix. */
  lemma CompleteStep(links: seq<RepoLink>, i: nat, fetch: RepoRef -> RepoFetch)
    requires i < |links| && AllComplete(links[..i], fetch) && Completes(links[i], fetch)
    ensures AllComplete(links[..i + 1], fetch)
  {
    assert links[..i + 1] == links[..i] + [links[i]];
  }

  /** The tables and the log once the first `k` links are processed, each
      starting from the given contents. */
  ghost predicate ScrapedUpTo(project: ProjectId, links: seq<RepoLink>, k: nat, fetch: RepoRef -> RepoFetch,
                              existing: Option<ScrapeRow>, users0: seq<UserRow>, repos0: seq<RepoRow>,
                              scrapes0: map<ProjectId, ScrapeRow>, logs0: seq<LogEntry>,
                              users: seq<UserRow>, repos: seq<RepoRow>, scrapes: map<ProjectId, ScrapeRow>, logs: seq<LogEntry>)
  {
    && k <= |links|
    && AllParse(links[..k])
    && AllComplete(links[..k], fetch)
    && users == UsersAfter(users0, project, RefsOf(links[..k]), fetch)
    && repos == ReposAfter(repos0, project, RefsOf(links[..k]), fetch)
    && scrapes == scrapes0[project := AfterIncrements(KnownRow(existing, |links|), k)]
    && logs == logs0 + ScrapeLogs(project, RefsOf(links[..k]), fetch, |links|)
  }

  /** Scraped state measured from the row the workflow wrote before its loop
      is the same state measured from the table as it was before that write. */
  lemma ScrapedFromKnown(project: ProjectId, links: seq<RepoLink>, k: nat, fetch: RepoRef -> RepoFetch,
                         existing: Option<ScrapeRow>, users0: seq<UserRow>, repos0: seq<RepoRow>,
                         scrapes0: map<ProjectId, ScrapeRow>, logs0: seq<LogEntry>,
                         users: seq<UserRow>, repos: seq<RepoRow>, scrapes: map<ProjectId, ScrapeRow>, logs: seq<LogEntry>)
    requires ScrapedUpTo(project, links, k, fetch, existing, users0, repos0, scrapes0[project := KnownRow(existing, |links|)],
                         logs0, users, repos, scrapes, logs)
    ensures ScrapedUpTo(project, links, k, fetch, existing, users0, repos0, scrapes0, logs0, users, repos, scrapes, logs)
  {
    MapUpdateTwice(scrapes0, project, KnownRow(existing, |links|), AfterIncrements(KnownRow(existing, |links|), k));
  }

  /** How the loop stopped early: at a link that does not parse, with the
      links before it processed; or at a repository whose requests threw,
      with the links before it processed and that repository's fetch line
      logged. */
  ghost predicate StoppedAt(project: ProjectId, links: seq<RepoLink>, fetch: RepoRef -> RepoFetch, outcome: WorkflowOutcome,
                            existing: Option<ScrapeRow>, users0: seq<UserRow>, repos0: seq<RepoRow>,
                            scrapes0: map<ProjectId, ScrapeRow>, logs0: seq<LogEntry>,
                            users: seq<UserRow>, repos: seq<RepoRow>, scrapes: map<ProjectId, ScrapeRow>, logs: seq<LogEntry>)
  {
    match outcome
    case ScrapeFinished => false
    case ScrapeAborted(i, reason) =>
      && i < |links|
      && reason == ParseGithub(Some(links[i].githubUrl)) && !reason.Repo?
      && ScrapedUpTo(project, links, i, fetch, existing, users0, repos0, scrapes0, logs0, users, repos, scrapes, logs)
    case RepoFailed(i, ref) =>
      && i < |links|
      && ParseGithub(Some(links[i].githubUrl)) == Repo(ref) && FetchThrew(fetch(ref))
      && |logs| > 0
      && logs[|logs| - 1] == Info(project, FetchingRepo(ref.owner, ref.name))
      && ScrapedUpTo(project, links, i, fetch, existing, users0, repos0, scrapes0, logs0, users, repos, scrapes, logs[..|logs| - 1])
  }

  /** StoppedAt, like ScrapedUpTo, can be measured from the table as it was
      before the workflow wrote its known row. */
  lemma StoppedFromKnown(project: ProjectId, links: seq<RepoLink>, fetch: RepoRef -> RepoFetch, outcome: WorkflowOutcome,
                         existing: Option<ScrapeRow>, users0: seq<UserRow>, repos0: seq<RepoRow>,
                         scrapes0: map<ProjectId, ScrapeRow>, logs0: seq<LogEntry>,
                         users: seq<UserRow>, repos: seq<RepoRow>, scrapes: map<ProjectId, ScrapeRow>, logs: seq<LogEntry>)
    requires StoppedAt(project, links, fetch, outcome, existing, users0, repos0, scrapes0[project := KnownRow(existing, |links|)],
                       logs0, users, repos, scrapes, logs)
    ensures StoppedAt(project, links, fetch, outcome, existing, users0, repos0, scrapes0, logs0, users, repos, scrapes, logs)
  {
    var kept := if outcome.RepoFailed? then logs[..|logs| - 1] else logs;
    ScrapedFromKnown(project, links, outcome.index, fetch, existing, users0, repos0, scrapes0, logs0,
                     users, repos, scrapes, kept);
  }

  /** One iteration of the workflow loop, once the link has parsed. */
  method ScrapeLink(project: ProjectId, links: seq<RepoLink>, i: nat, ref: RepoRef, fetch: RepoRef -> RepoFetch,
                    ghost existing: Option<ScrapeRow>, ghost users0: seq<UserRow>, ghost repos0: seq<RepoRow>,
                    ghost scrapes0: map<ProjectId, ScrapeRow>, ghost logs0: seq<LogEntry>,
                    users: UserInfluenceTable, repos: RepoInfluenceTable, scrapes: ScrapeTable, logs: LogTable)
    returns (ok: bool)
    requires users.Valid() && repos.Valid()
    requires i < |links| && ParseGithub(Some(links[i].githubUrl)) == Repo(ref)
    requires ScrapedUpTo(project, links, i, fetch, existing, users0, repos0, scrapes0, logs0,
                         users.rows, repos.rows, scrapes.rows, logs.entries)
    modifies users, repos, scrapes, logs
    ensures users.Valid() && repos.Valid()
    ensures ok <==> !FetchThrew(fetch(ref))
    ensures ok ==> ScrapedUpTo(project, links, i + 1, fetch, existing, users0, repos0, scrapes0, logs0,
                               users.rows, repos.rows, scrapes.rows, logs.entries)
    ensures !ok ==>
      && users.rows == old(users.rows) && repos.rows == old(repos.rows) && scrapes.rows == old(scrapes.rows)
      && logs.entries == old(logs.entries) + [Info(project, FetchingRepo(ref.owner, ref.name))]
  {
    ghost var before := (users.rows, repos.rows, scrapes.rows, logs.entries);
    ok := ProcessRepo(project, ref, fetch(ref), users, repos, scrapes, logs);
    if ok {
      ScrapedNext(project, links, i, ref, fetch, existing, users0, repos0, scrapes0, logs0,
                  before.0, before.1, before.2, before.3);
    }
  }

  /** What one processed repository does to the scraped state. */
  lemma ScrapedNext(project: ProjectId, links: seq<RepoLink>, i: nat, ref: RepoRef, fetch: RepoRef -> RepoFetch,
                    existing: Option<ScrapeRow>, users0: seq<UserRow>, repos0: seq<RepoRow>,
                    scrapes0: map<ProjectId, ScrapeRow>, logs0: seq<LogEntry>,
                    users: seq<UserRow>, repos: seq<RepoRow>, scrapes: map<ProjectId, ScrapeRow>, logs: seq<LogEntry>)
    requires i < |links| && ParseGithub(Some(links[i].githubUrl)) == Repo(ref)
    requires !FetchThrew(fetch(ref))
    requires ScrapedUpTo(project, links, i, fetch, existing, users0, repos0, scrapes0, logs0, users, repos, scrapes, logs)
    ensures project in scrapes
    ensures var next := Incremented(scrapes[project]);
      ScrapedUpTo(project, links, i + 1, fetch, existing, users0, repos0, scrapes0, logs0,
                  ApplyUserDeltas(users, project, RepoDeltas(fetch(ref))),
                  ApplyRepoDeltas(repos, project, ref, RepoDeltas(fetch(ref))),
                  scrapes[project := next],
                  logs + RepoLogs(project, ref, fetch(ref), Some(next)))
  {
    var n := |links|;
    var done := RefsOf(links[..i]);
    var ds := RepoDeltas(fetch(ref));
    ScrapeStep(project, links, i, fetch, users0, repos0);
    CompleteStep(links, i, fetch);
    assert RefsOf(links[..i + 1]) == done + [ref];
    IncrementsCount(existing, n, i + 1);
    var next := Incremented(scrapes[project]);
    assert next == AfterIncrements(KnownRow(existing, n), i + 1) == RunningRow(n, i + 1);
    MapUpdateTwice(scrapes0, project, AfterIncrements(KnownRow(existing, n), i), next);
    AppendAssociates(logs0, ScrapeLogs(project, done, fetch, n), RepoLogs(project, ref, fetch(ref), Some(next)));
  }

  /** The loop of scrapeGithubWorkflow: each link is parsed and its
      repository processed, in order, until a link fails to parse or a
      repository's requests throw. */
  method ProcessLinks(project: ProjectId, links: seq<RepoLink>, fetch: RepoRef -> RepoFetch, ghost existing: Option<ScrapeRow>,
                      users: UserInfluenceTable, repos: RepoInfluenceTable, scrapes: ScrapeTable, logs: LogTable)
    returns (outcome: WorkflowOutcome)
    requires users.Valid() && repos.Valid()
    requires project in scrapes.rows && scrapes.rows[project] == KnownRow(existing, |links|)
    modifies users, repos, scrapes, logs
    ensures users.Valid() && repos.Valid()
    ensures outcome.ScrapeFinished? <==> AllComplete(links, fetch)
    ensures outcome.ScrapeFinished? ==>
      ScrapedUpTo(project, links, |links|, fetch, existing, old(users.rows), old(repos.rows), old(scrapes.rows),
                  old(logs.entries), users.rows, repos.rows, scrapes.rows, logs.entries)
    ensures !outcome.ScrapeFinished? ==>
      StoppedAt(project, links, fetch, outcome, existing, old(users.rows), old(repos.rows), old(scrapes.rows),
                old(logs.entries), users.rows, repos.rows, scrapes.rows, logs.entries)
  {
    var n := |links|;
    assert old(scrapes.rows)[project := KnownRow(existing, n)] == old(scrapes.rows);
    for i := 0 to n
      invariant users.Valid() && repos.Valid()
      invariant ScrapedUpTo(project, links, i, fetch, existing, old(users.rows), old(repos.rows), old(scrapes.rows),
                            old(logs.entries), users.rows, repos.rows, scrapes.rows, logs.entries)
    {
      var parsed := ParseGithub(Some(links[i].githubUrl));
      if !parsed.Repo? {
        assert !Completes(links[i], fetch);
        return ScrapeAborted(i, parsed);
      }
      ghost var before := logs.entries;
      var ok := ScrapeLink(project, links, i, parsed.ref, fetch, existing, old(users.rows), old(repos.rows),
                           old(scrapes.rows), old(logs.entries), users, repos, scrapes, logs);
      if !ok {
        assert !Completes(links[i], fetch);
        assert logs.entries[..|logs.entries| - 1] == before;
        return RepoFailed(i, parsed.ref);
      }
    }
    WholePrefix(links);
    return ScrapeFinished;
  }

  /** scrapeGithubWorkflow, given the GitHub replies for each repository. */
  method ScrapeGithubWorkflow(project: ProjectId, deps: DependencyTable, fetch: RepoRef -> RepoFetch,
                              users: UserInfluenceTable, repos: RepoInfluenceTable, scrapes: ScrapeTable, logs: LogTable)
    returns (outcome: WorkflowOutcome)
    requires users.Valid() && repos.Valid()
    modifies users, repos, scrapes, logs
    ensures users.Valid() && repos.Valid()
    ensures outcome.ScrapeFinished? <==> AllComplete(deps.ListDepsWithGithub(project), fetch)
    ensures outcome.ScrapeFinished? ==>
      var links := deps.ListDepsWithGithub(project);
      var n := |links|;
      && users.rows == UsersAfter(old(users.rows), project, RefsOf(links), fetch)
      && repos.rows == ReposAfter(old(repos.rows), project, RefsOf(links), fetch)
      && scrapes.rows == old(scrapes.rows)[project := ScrapeRow(true, Some(n), Some(n), Some(100))]
      && logs.entries == old(logs.entries) + [Info(project, StartingScrape(n))]
                         + ScrapeLogs(project, RefsOf(links), fetch, n) + [Info(project, FinishedScrape(n))]
    ensures !outcome.ScrapeFinished? ==>
      var links := deps.ListDepsWithGithub(project);
      StoppedAt(project, links, fetch, outcome, old(scrapes.Get(project)), old(users.rows), old(repos.rows),
                old(scrapes.rows), old(logs.entries) + [Info(project, StartingScrape(|links|))],
                users.rows, repos.rows, scrapes.rows, logs.entries)
  {
    ghost var existing := scrapes.Get(project);
    scrapes.Upsert(project, false, Some(0), Some(0), Some(0));
    var links := deps.ListDepsWithGithub(project);
    var n := |links|;
    scrapes.Upsert(project, false, Some(n), Some(0), Some(if n == 0 then 100 else 0));
    logs.Append(Info(project, StartingScrape(n)));
    MapUpdateTwice(old(scrapes.rows), project, Upserted(existing, false, Some(0), Some(0), Some(0)), KnownRow(existing, n));
    ghost var known := scrapes.rows;
    outcome := ProcessLinks(project, links, fetch, existing, users, repos, scrapes, logs);
    if !outcome.ScrapeFinished? {
      StoppedFromKnown(project, links, fetch, outcome, existing, old(users.rows), old(repos.rows), old(scrapes.rows),
                       old(logs.entries) + [Info(project, StartingScrape(n))], users.rows, repos.rows, scrapes.rows, logs.entries);
      return;
    }
    MapUpdateTwice(old(scrapes.rows), project, KnownRow(existing, n), AfterIncrements(KnownRow(existing, n), n));
    WholePrefix(links);
    FinishedRow(existing, n);
    ghost var last := AfterIncrements(KnownRow(existing, n), n);
    scrapes.Upsert(project, true, None, Some(n), Some(100));
    MapUpdateTwice(old(scrapes.rows), project, last, ScrapeRow(true, Some(n), Some(n), Some(100)));
    logs.Append(Info(project, FinishedScrape(n)));
    return ScrapeFinished;
  }

  // ---------------------------------------------------------------------
  // researchDependencies
  // ---------------------------------------------------------------------

  /** The first content block of a completion. */
  datatype ContentBlock = ContentBlock(kind: string, text: Option<string>)

  /** What the model call yields: it throws (the SDK import, the client or
      the request), or it returns content blocks and maybe `output_text`. */
  datatype ModelReply =
    | CallFailed
    | Completion(first: Option<ContentBlock>, outputText: Option<string>)

  /** The text taken from a completion: the first block's text when it is a
      text block with a string, else `output_text` when it is a string, else
      the empty string. */
  function ReplyText(first: Option<ContentBlock>, outputText: Option<string>): (text: string)
    ensures first.Some? && first.value.kind == "text" && first.value.text.Some? ==> text == first.value.text.value
    ensures (first.None? || first.value.kind != "text" || first.value.text.None?) && outputText.Some? ==> text == outputText.value
    ensures (first.None? || first.value.kind != "text" || first.value.text.None?) && outputText.None? ==> text == ""
  {
    if first.Some? && first.value.kind == "text" && first.value.text.Some? then first.value.text.value
    else if outputText.Some? then outputText.value
    else ""
  }

  /** The manifests of the listed packages, as `JSON.parse` reads them. */
  function ManifestsOf(packages: seq<PackageRow>, read: string -> Manifests.Manifest): (ms: seq<Manifests.Manifest>)
    ensures |ms| == |packages|
    ensures forall i :: 0 <= i < |packages| ==> ms[i] == read(packages[i].content)
  {
    seq(|packages|, i requires 0 <= i < |packages| => read(packages[i].content))
  }

  /** depsWithMeta: each aggregated entry with the URL the registry resolves. */
  function WithMeta(entries: seq<Manifests.Entry>, registry: string -> Registry.RegistryReply): (deps: seq<NewDependency>)
    ensures |deps| == |entries|
    ensures forall i :: 0 <= i < |entries| ==>
      deps[i] == NewDependency(entries[i].0, entries[i].1, Registry.FetchGithubUrl(registry(entries[i].0)))
  {
    seq(|entries|, i requires 0 <= i < |entries| =>
      NewDependency(entries[i].0, entries[i].1, Registry.FetchGithubUrl(registry(entries[i].0))))
  }

  /** The dependencies researchDependencies stores for a package listing. */
  function Gathered(packages: seq<PackageRow>, read: string -> Manifests.Manifest,
                    registry: string -> Registry.RegistryReply): seq<NewDependency>
  {
    WithMeta(Manifests.FirstWins(Manifests.AllEntries(ManifestsOf(packages, read))), registry)
  }

  /** depNames: the names of the dependencies with a truthy URL, in order. */
  function AnalyzableNames(deps: seq<NewDependency>): seq<string> {
    if deps == [] then []
    else
      var last := deps[|deps| - 1];
      AnalyzableNames(deps[..|deps| - 1]) + if Truthy(last.githubUrl) then [last.packageName] else []
  }

  datatype ResearchOutcome = ProjectMissing | AnalysisFailed | AnalysisComplete

  /** researchDependencies. When the project is missing the first status
      update throws and nothing happens; otherwise the dependency rows are
      replaced, and a failed model call marks the project failed while a
      completion scores the rows and marks it complete (which starts the
      scrape workflow). */
  method ResearchDependencies(project: ProjectId, projects: ProjectTable, packages: PackageTable, deps: DependencyTable,
                              read: string -> Manifests.Manifest, registry: string -> Registry.RegistryReply,
                              reply: ModelReply, parse: string -> Scoring.Parsed)
    returns (outcome: ResearchOutcome)
    modifies projects, deps
    ensures outcome == ProjectMissing <==> project !in old(projects.status)
    ensures outcome == ProjectMissing ==> projects.status == old(projects.status) && deps.rows == old(deps.rows)
    ensures outcome != ProjectMissing ==>
      var gathered := Gathered(packages.ListProjectPackages(project), read, registry);
      var replaced := OtherRows(old(deps.rows), project) + NewRows(project, gathered);
      && (reply.CallFailed? ==>
            outcome == AnalysisFailed && projects.status == old(projects.status)[project := Failed] && deps.rows == replaced)
      && (reply.Completion? ==>
            var text := ReplyText(reply.first, reply.outputText);
            var scores := Scoring.ResponseScores(parse(Scoring.JsonText(text)), AnalyzableNames(gathered));
            && outcome == AnalysisComplete
            && projects.status == old(projects.status)[project := Complete]
            && deps.rows == Patched(replaced, project, scores))
  {
    var ok := projects.SetAnalysisStatus(project, Processing);
    if !ok {
      return ProjectMissing;
    }
    var packageRows := packages.ListProjectPackages(project);
    var depToVersion := Manifests.AggregateManifests(ManifestsOf(packageRows, read));
    var depsWithMeta := WithMeta(depToVersion, registry);
    deps.ReplaceForProject(project, depsWithMeta);
    if reply.CallFailed? {
      ok := projects.SetAnalysisStatus(project, Failed);
      MapUpdateTwice(old(projects.status), project, Processing, Failed);
      return AnalysisFailed;
    }
    var depNames := AnalyzableNames(depsWithMeta);
    var text := ReplyText(reply.first, reply.outputText);
    var jsonText := Scoring.JsonText(text);
    var scores := Scoring.ScoresFromResponse(parse(jsonText), depNames);
    deps.UpdateScores(project, scores);
    ok := projects.SetAnalysisStatus(project, Complete);
    MapUpdateTwice(old(projects.status), project, Processing, Complete);
    return AnalysisComplete;
  }
}
