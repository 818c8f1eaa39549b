/** The influence tables (convex/projects.ts, mergeUserInfluence,
    mergeRepoUserInfluence, listGithubInfluence, getGithubUserDetail). Both
    tables hold additive commit and issue counters under a key: a merge adds
    the deltas to the row with that key, or inserts a row holding the deltas.
    The per-user table also keeps the profile URL given when the row was
    inserted. Rows are kept in insertion order. */
module Influence {
  import opened Common
  import opened GitHub
  import Ranking

  /** A counter row: its key, what else was written on insertion, and the two counters. */
  datatype InfluenceRow<K, A> = InfluenceRow(key: K, extra: A, commits: nat, issues: nat)

  /** The key of `githubUserInfluence`. */
  datatype UserKey = UserKey(project: ProjectId, username: string)

  /** The key of `githubUserRepoInfluence`. */
  datatype RepoKey = RepoKey(project: ProjectId, owner: string, repo: string, username: string)

  type UserRow = InfluenceRow<UserKey, string>
  type RepoRow = InfluenceRow<RepoKey, ()>

  /** The first row with `key`. */
  function Find<K(==), A>(rows: seq<InfluenceRow<K, A>>, key: K): (r: Option<nat>)
    ensures r.Some? ==> r.value < |rows| && rows[r.value].key == key
    ensures r.Some? ==> forall j :: 0 <= j < r.value ==> rows[j].key != key
    ensures r.None? ==> forall j :: 0 <= j < |rows| ==> rows[j].key != key
  {
    if rows == [] then None
    else if rows[0].key == key then Some(0)
    else match Find(rows[1..], key)
      case Some(k) => Some(k + 1)
      case None => None
  }

  /** The additive upsert both merge mutations perform. */
  function Merge<K(==), A>(rows: seq<InfluenceRow<K, A>>, key: K, extra: A, commitsDelta: nat, issuesDelta: nat): seq<InfluenceRow<K, A>> {
    match Find(rows, key)
    case Some(k) => rows[k := rows[k].(commits := rows[k].commits + commitsDelta, issues := rows[k].issues + issuesDelta)]
    case None => rows + [InfluenceRow(key, extra, commitsDelta, issuesDelta)]
  }

  /** The counters stored under `key`, zero when there is no row. */
  function Totals<K(==), A>(rows: seq<InfluenceRow<K, A>>, key: K): (nat, nat) {
    match Find(rows, key)
    case Some(k) => (rows[k].commits, rows[k].issues)
    case None => (0, 0)
  }

  /** The whole row stored under `key`, if there is one. */
  function RowOf<K(==), A>(rows: seq<InfluenceRow<K, A>>, key: K): Option<InfluenceRow<K, A>> {
    match Find(rows, key)
    case Some(k) => Some(rows[k])
    case None => None
  }

  ghost predicate UniqueKeys<K, A>(rows: seq<InfluenceRow<K, A>>) {
    forall i, j :: 0 <= i < j < |rows| ==> rows[i].key != rows[j].key
  }

  /** A merge keeps keys unique, adds the deltas to its key's counters,
      leaves every other key's counters alone, and keeps the `extra` of an
      existing row; every other key's row, or its absence, is untouched. */
  lemma MergeSpec<K, A>(rows: seq<InfluenceRow<K, A>>, key: K, extra: A, dc: nat, di: nat, other: K)
    requires UniqueKeys(rows)
    ensures var merged := Merge(rows, key, extra, dc, di);
      && UniqueKeys(merged)
      && Totals(merged, key) == (Totals(rows, key).0 + dc, Totals(rows, key).1 + di)
      && (other != key ==> Totals(merged, other) == Totals(rows, other))
      && (other != key ==> RowOf(merged, other) == RowOf(rows, other))
      && Find(merged, key).Some?
      && merged[Find(merged, key).value].extra == (if Find(rows, key).Some? then rows[Find(rows, key).value].extra else extra)
  {
    var merged := Merge(rows, key, extra, dc, di);
    match Find(rows, key)
    case Some(k) =>
      FindUnique(merged, key, k);
      if other != key {
        match Find(rows, other)
        case Some(o) => FindUnique(merged, other, o);
        case None =>
      }
    case None =>
      FindUnique(merged, key, |rows|);
      if other != key {
        match Find(rows, other)
        case Some(o) => FindUnique(merged, other, o);
        case None =>
      }
  }

  /** Under unique keys the row holding `key` is the one Find returns. */
  lemma FindUnique<K, A>(rows: seq<InfluenceRow<K, A>>, key: K, k: nat)
    requires UniqueKeys(rows) && k < |rows| && rows[k].key == key
    ensures Find(rows, key) == Some(k)
  {
  }

  /** The same merge applied twice doubles its deltas. */
  lemma MergeTwiceDoubles<K, A>(rows: seq<InfluenceRow<K, A>>, key: K, extra: A, dc: nat, di: nat)
    requires UniqueKeys(rows)
    ensures var twice := Merge(Merge(rows, key, extra, dc, di), key, extra, dc, di);
      Totals(twice, key) == (Totals(rows, key).0 + 2 * dc, Totals(rows, key).1 + 2 * di)
  {
    MergeSpec(rows, key, extra, dc, di, key);
    MergeSpec(Merge(rows, key, extra, dc, di), key, extra, dc, di, key);
  }

  /** `githubUserInfluence`. */
  class UserInfluenceTable {
    var rows: seq<UserRow>

    ghost predicate Valid()
      reads this
    {
      UniqueKeys(rows)
    }

    constructor ()
      ensures Valid() && rows == []
    {
      rows := [];
    }

    /** mergeUserInfluence. */
    method MergeUser(project: ProjectId, username: string, htmlUrl: string, commitsDelta: nat, issuesDelta: nat)
      requires Valid()
      modifies this
      ensures Valid()
      ensures rows == Merge(old(rows), UserKey(project, username), htmlUrl, commitsDelta, issuesDelta)
    {
      MergeSpec(rows, UserKey(project, username), htmlUrl, commitsDelta, issuesDelta, UserKey(project, username));
      var existing := Find(rows, UserKey(project, username));
      if existing.Some? {
        var k := existing.value;
        rows := rows[k := rows[k].(commits := rows[k].commits + commitsDelta, issues := rows[k].issues + issuesDelta)];
      } else {
        rows := rows + [InfluenceRow(UserKey(project, username), htmlUrl, commitsDelta, issuesDelta)];
      }
    }

    /** listGithubInfluence. */
    function ListGithubInfluence(project: ProjectId): seq<UserRow>
      reads this
    {
      Ranking.SortDesc(UsersOf(rows, project), Weight)
    }
  }

  /** `githubUserRepoInfluence`. */
  class RepoInfluenceTable {
    var rows: seq<RepoRow>

    ghost predicate Valid()
      reads this
    {
      UniqueKeys(rows)
    }

    constructor ()
      ensures Valid() && rows == []
    {
      rows := [];
    }

    /** mergeRepoUserInfluence. */
    method MergeRepoUser(project: ProjectId, username: string, owner: string, repo: string, commitsDelta: nat, issuesDelta: nat)
      requires Valid()
      modifies this
      ensures Valid()
      ensures rows == Merge(old(rows), RepoKey(project, owner, repo, username), (), commitsDelta, issuesDelta)
    {
      var key := RepoKey(project, owner, repo, username);
      MergeSpec(rows, key, (), commitsDelta, issuesDelta, key);
      var existing := Find(rows, key);
      if existing.Some? {
        var k := existing.value;
        rows := rows[k := rows[k].(commits := rows[k].commits + commitsDelta, issues := rows[k].issues + issuesDelta)];
      } else {
        rows := rows + [InfluenceRow(key, (), commitsDelta, issuesDelta)];
      }
    }
  }

  /** The sort key of both influence listings: commits plus issues. */
  function Weight<K, A>(row: InfluenceRow<K, A>): real {
    (row.commits + row.issues) as real
  }

  /** The user rows of `project`, in stored order. */
  function UsersOf(rows: seq<UserRow>, project: ProjectId): seq<UserRow> {
    if rows == [] then []
    else UsersOf(rows[..|rows| - 1], project) + if rows[|rows| - 1].key.project == project then [rows[|rows| - 1]] else []
  }

  /** UsersOf keeps exactly the project's rows. */
  lemma {:induction false} UsersOfSpec(rows: seq<UserRow>, project: ProjectId)
    ensures forall r :: r in UsersOf(rows, project) <==> r in rows && r.key.project == project
  {
    if rows != [] {
      var init := rows[..|rows| - 1];
      UsersOfSpec(init, project);
      assert rows == init + [rows[|rows| - 1]];
    }
  }

  /** listGithubInfluence lists every row of the project and nothing else,
      heaviest first. */
  lemma InfluenceListingSpec(rows: seq<UserRow>, project: ProjectId)
    ensures var listed := Ranking.SortDesc(UsersOf(rows, project), Weight);
      && multiset(listed) == multiset(UsersOf(rows, project))
      && Ranking.SortedDesc(listed, Weight)
      && forall r :: r in listed <==> r in rows && r.key.project == project
  {
    var users := UsersOf(rows, project);
    Ranking.SortDescSpec(users, Weight);
    UsersOfSpec(rows, project);
    var listed := Ranking.SortDesc(users, Weight);
    forall r ensures r in listed <==> r in users {
      assert r in listed <==> r in multiset(listed);
      assert r in users <==> r in multiset(users);
    }
  }

  // ---------------------------------------------------------------------
  // What processRepo does to the two tables
  // ---------------------------------------------------------------------

  /** The user-table merges of a sequence of deltas, in order. */
  function ApplyUserDeltas(rows: seq<UserRow>, project: ProjectId, ds: seq<Delta>): seq<UserRow> {
    if ds == [] then rows
    else
      var d := ds[|ds| - 1];
      Merge(ApplyUserDeltas(rows, project, ds[..|ds| - 1]), UserKey(project, d.login), d.htmlUrl, d.commits, d.issues)
  }

  /** The repository-table merges of a sequence of deltas, in order. */
  function ApplyRepoDeltas(rows: seq<RepoRow>, project: ProjectId, ref: RepoRef, ds: seq<Delta>): seq<RepoRow> {
    if ds == [] then rows
    else
      var d := ds[|ds| - 1];
      Merge(ApplyRepoDeltas(rows, project, ref, ds[..|ds| - 1]), RepoKey(project, ref.owner, ref.name, d.login), (), d.commits, d.issues)
  }

  /** The commits and issues credited to `login` by a sequence of deltas. */
  function CreditOf(ds: seq<Delta>, login: string): (nat, nat) {
    if ds == [] then (0, 0)
    else
      var prev := CreditOf(ds[..|ds| - 1], login);
      var d := ds[|ds| - 1];
      if d.login == login then (prev.0 + d.commits, prev.1 + d.issues) else prev
  }

  /** After the merges each user of the project holds what it held plus its
      credit, and users of other projects are untouched. */
  lemma {:induction false} ApplyUserDeltasTotals(rows: seq<UserRow>, project: ProjectId, ds: seq<Delta>, key: UserKey)
    requires UniqueKeys(rows)
    ensures UniqueKeys(ApplyUserDeltas(rows, project, ds))
    ensures key.project == project ==>
      var c := CreditOf(ds, key.username);
      Totals(ApplyUserDeltas(rows, project, ds), key) == (Totals(rows, key).0 + c.0, Totals(rows, key).1 + c.1)
    ensures key.project != project ==> Totals(ApplyUserDeltas(rows, project, ds), key) == Totals(rows, key)
  {
    if ds != [] {
      var init, d := ds[..|ds| - 1], ds[|ds| - 1];
      ApplyUserDeltasTotals(rows, project, init, key);
      var prev, mkey := ApplyUserDeltas(rows, project, init), UserKey(project, d.login);
      assert key.project == project ==> (key == mkey <==> key.username == d.login);
      assert ds == init + [d];
      MergeCreditStep(prev, mkey, d.htmlUrl, init, d, key, key.username, key.project == project, Totals(rows, key));
      assert ApplyUserDeltas(rows, project, ds) == Merge(prev, mkey, d.htmlUrl, d.commits, d.issues);
    } else {
      assert CreditOf(ds, key.username) == (0, 0);
    }
  }

  /** The same for the per-repository rows of the processed repository. */
  lemma {:induction false} ApplyRepoDeltasTotals(rows: seq<RepoRow>, project: ProjectId, ref: RepoRef, ds: seq<Delta>, key: RepoKey)
    requires UniqueKeys(rows)
    ensures UniqueKeys(ApplyRepoDeltas(rows, project, ref, ds))
    ensures key.project == project && key.owner == ref.owner && key.repo == ref.name ==>
      var c := CreditOf(ds, key.username);
      Totals(ApplyRepoDeltas(rows, project, ref, ds), key) == (Totals(rows, key).0 + c.0, Totals(rows, key).1 + c.1)
    ensures !(key.project == project && key.owner == ref.owner && key.repo == ref.name) ==>
      Totals(ApplyRepoDeltas(rows, project, ref, ds), key) == Totals(rows, key)
  {
    if ds != [] {
      var init, d := ds[..|ds| - 1], ds[|ds| - 1];
      ApplyRepoDeltasTotals(rows, project, ref, init, key);
      var prev, mkey := ApplyRepoDeltas(rows, project, ref, init), RepoKey(project, ref.owner, ref.name, d.login);
      var inScope := key.project == project && key.owner == ref.owner && key.repo == ref.name;
      assert inScope ==> (key == mkey <==> key.username == d.login);
      assert ds == init + [d];
      MergeCreditStep(prev, mkey, (), init, d, key, key.username, inScope, Totals(rows, key));
      assert ApplyRepoDeltas(rows, project, ref, ds) == Merge(prev, mkey, (), d.commits, d.issues);
    } else {
      assert CreditOf(ds, key.username) == (0, 0);
    }
  }

  /** One merge adds the delta to the running credit of the user it names,
      for keys in the merged scope, and leaves every other key alone. */
  lemma MergeCreditStep<K, A>(prev: seq<InfluenceRow<K, A>>, mkey: K, extra: A, init: seq<Delta>, d: Delta,
                              key: K, username: string, inScope: bool, base: (nat, nat))
    requires UniqueKeys(prev)
    requires inScope ==> (key == mkey <==> username == d.login)
    requires !inScope ==> key != mkey
    requires var c := CreditOf(init, username);
      Totals(prev, key) == if inScope then (base.0 + c.0, base.1 + c.1) else base
    ensures UniqueKeys(Merge(prev, mkey, extra, d.commits, d.issues))
    ensures var c := CreditOf(init + [d], username);
      Totals(Merge(prev, mkey, extra, d.commits, d.issues), key) == if inScope then (base.0 + c.0, base.1 + c.1) else base
  {
    MergeSpec(prev, mkey, extra, d.commits, d.issues, key);
    assert (init + [d])[..|init|] == init;
  }

  /** Merging two runs of deltas is merging their concatenation. */
  lemma {:induction false} ApplyUserDeltasAppend(rows: seq<UserRow>, project: ProjectId, a: seq<Delta>, b: seq<Delta>)
    ensures ApplyUserDeltas(ApplyUserDeltas(rows, project, a), project, b) == ApplyUserDeltas(rows, project, a + b)
  {
    if b != [] {
      ApplyUserDeltasAppend(rows, project, a, b[..|b| - 1]);
      assert (a + b)[..|a + b| - 1] == a + b[..|b| - 1];
    } else {
      assert a + b == a;
    }
  }

  lemma {:induction false} ApplyRepoDeltasAppend(rows: seq<RepoRow>, project: ProjectId, ref: RepoRef, a: seq<Delta>, b: seq<Delta>)
    ensures ApplyRepoDeltas(ApplyRepoDeltas(rows, project, ref, a), project, ref, b) == ApplyRepoDeltas(rows, project, ref, a + b)
  {
    if b != [] {
      ApplyRepoDeltasAppend(rows, project, ref, a, b[..|b| - 1]);
      assert (a + b)[..|a + b| - 1] == a + b[..|b| - 1];
    } else {
      assert a + b == a;
    }
  }

  /** A user row no delta touches (another project's, or a login no delta
      names) is exactly as it was, and absent if it was absent. */
  lemma {:induction false} ApplyUserDeltasUntouched(rows: seq<UserRow>, project: ProjectId, ds: seq<Delta>, key: UserKey)
    requires UniqueKeys(rows)
    requires key.project != project || forall d :: d in ds ==> d.login != key.username
    ensures RowOf(ApplyUserDeltas(rows, project, ds), key) == RowOf(rows, key)
  {
    if ds != [] {
      var init, d := ds[..|ds| - 1], ds[|ds| - 1];
      assert d in ds;
      assert forall e :: e in init ==> e in ds;
      ApplyUserDeltasUntouched(rows, project, init, key);
      ApplyUserDeltasTotals(rows, project, init, key);
      MergeSpec(ApplyUserDeltas(rows, project, init), UserKey(project, d.login), d.htmlUrl, d.commits, d.issues, key);
    }
  }

  /** The same for the per-repository rows. */
  lemma {:induction false} ApplyRepoDeltasUntouched(rows: seq<RepoRow>, project: ProjectId, ref: RepoRef, ds: seq<Delta>, key: RepoKey)
    requires UniqueKeys(rows)
    requires !(key.project == project && key.owner == ref.owner && key.repo == ref.name) ||
      forall d :: d in ds ==> d.login != key.username
    ensures RowOf(ApplyRepoDeltas(rows, project, ref, ds), key) == RowOf(rows, key)
  {
    if ds != [] {
      var init, d := ds[..|ds| - 1], ds[|ds| - 1];
      assert d in ds;
      assert forall e :: e in init ==> e in ds;
      ApplyRepoDeltasUntouched(rows, project, ref, init, key);
      ApplyRepoDeltasTotals(rows, project, ref, init, key);
      MergeSpec(ApplyRepoDeltas(rows, project, ref, init), RepoKey(project, ref.owner, ref.name, d.login), (), d.commits, d.issues, key);
    }
  }

  /** A login no delta names is credited nothing. */
  lemma {:induction false} CreditOfAbsent(ds: seq<Delta>, login: string)
    requires forall d :: d in ds ==> d.login != login
    ensures CreditOf(ds, login) == (0, 0)
  {
    if ds != [] {
      CreditOfAbsent(ds[..|ds| - 1], login);
    }
  }

  /** A login no delta names keeps its counters, and its rows or their
      absence, in both tables. */
  lemma UncreditedUnchanged(users: seq<UserRow>, repos: seq<RepoRow>, project: ProjectId, ref: RepoRef, ds: seq<Delta>, login: string)
    requires UniqueKeys(users) && UniqueKeys(repos)
    requires forall d :: d in ds ==> d.login != login
    ensures Totals(ApplyUserDeltas(users, project, ds), UserKey(project, login)) == Totals(users, UserKey(project, login))
    ensures Totals(ApplyRepoDeltas(repos, project, ref, ds), RepoKey(project, ref.owner, ref.name, login)) ==
      Totals(repos, RepoKey(project, ref.owner, ref.name, login))
    ensures RowOf(ApplyUserDeltas(users, project, ds), UserKey(project, login)) == RowOf(users, UserKey(project, login))
    ensures RowOf(ApplyRepoDeltas(repos, project, ref, ds), RepoKey(project, ref.owner, ref.name, login)) ==
      RowOf(repos, RepoKey(project, ref.owner, ref.name, login))
  {
    ApplyUserDeltasUntouched(users, project, ds, UserKey(project, login));
    ApplyRepoDeltasUntouched(repos, project, ref, ds, RepoKey(project, ref.owner, ref.name, login));
    CreditOfAbsent(ds, login);
    ApplyUserDeltasTotals(users, project, ds, UserKey(project, login));
    ApplyRepoDeltasTotals(repos, project, ref, ds, RepoKey(project, ref.owner, ref.name, login));
  }

  /** Org exclusion: a member of the owning organisation gains nothing from
      processing a repository, in either table: its rows stay as they
      were, and no row for it appears. */
  lemma MemberGainsNothing(users: seq<UserRow>, repos: seq<RepoRow>, project: ProjectId, ref: RepoRef, f: RepoFetch, login: string)
    requires UniqueKeys(users) && UniqueKeys(repos)
    requires login in OrgMembers(f.members)
    ensures Totals(ApplyUserDeltas(users, project, RepoDeltas(f)), UserKey(project, login)) == Totals(users, UserKey(project, login))
    ensures Totals(ApplyRepoDeltas(repos, project, ref, RepoDeltas(f)), RepoKey(project, ref.owner, ref.name, login)) ==
      Totals(repos, RepoKey(project, ref.owner, ref.name, login))
    ensures RowOf(ApplyUserDeltas(users, project, RepoDeltas(f)), UserKey(project, login)) == RowOf(users, UserKey(project, login))
    ensures RowOf(ApplyRepoDeltas(repos, project, ref, RepoDeltas(f)), RepoKey(project, ref.owner, ref.name, login)) ==
      RowOf(repos, RepoKey(project, ref.owner, ref.name, login))
  {
    var ds := RepoDeltas(f);
    assert forall d :: d in ds ==> d.login != login;
    UncreditedUnchanged(users, repos, project, ref, ds, login);
  }

  // ---------------------------------------------------------------------
  // getGithubUserDetail
  // ---------------------------------------------------------------------

  /** One repository line of the detail view (the page URLs are left out). */
  datatype RepoLine = RepoLine(owner: string, repo: string, commits: nat, issues: nat)

  datatype UserDetail = UserDetail(
    username: string,
    htmlUrl: Option<string>,
    totalCommits: nat,
    totalIssues: nat,
    affectedRepos: nat,
    totalRelevantRepos: nat,
    repos: seq<RepoLine>)

  /** The per-repository rows of one user of one project, in stored order. */
  function LinesOf(rows: seq<RepoRow>, project: ProjectId, username: string): seq<RepoLine> {
    if rows == [] then []
    else
      var r := rows[|rows| - 1];
      LinesOf(rows[..|rows| - 1], project, username) +
        if r.key.project == project && r.key.username == username then [RepoLine(r.key.owner, r.key.repo, r.commits, r.issues)] else []
  }

  function LineWeight(l: RepoLine): real {
    (l.commits + l.issues) as real
  }

  /** getGithubUserDetail, given the length of the qualifying list. */
  function GetGithubUserDetail(users: seq<UserRow>, repos: seq<RepoRow>, project: ProjectId, username: string,
                               relevantRepos: nat): UserDetail
  {
    var lines := Ranking.SortDesc(LinesOf(repos, project, username), LineWeight);
    var agg := Find(users, UserKey(project, username));
    UserDetail(username,
      if agg.Some? then Some(users[agg.value].extra) else None,
      Totals(users, UserKey(project, username)).0,
      Totals(users, UserKey(project, username)).1,
      |lines|, relevantRepos, lines)
  }

  /** The detail view lists every repository row of the user, heaviest
      first, and reports the aggregate counters (zero without a row). */
  lemma UserDetailSpec(users: seq<UserRow>, repos: seq<RepoRow>, project: ProjectId, username: string, relevantRepos: nat)
    ensures var v := GetGithubUserDetail(users, repos, project, username, relevantRepos);
      && multiset(v.repos) == multiset(LinesOf(repos, project, username))
      && Ranking.SortedDesc(v.repos, LineWeight)
      && v.affectedRepos == |LinesOf(repos, project, username)|
      && (Find(users, UserKey(project, username)).None? ==> v.totalCommits == 0 && v.totalIssues == 0 && v.htmlUrl.None?)
  {
    Ranking.SortDescSpec(LinesOf(repos, project, username), LineWeight);
  }
}
