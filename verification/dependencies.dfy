/** The `projectDependencies` table (convex/projects.ts,
    upsertProjectDependencies, updateDependencyScores, getSignalCutoff,
    _listDepsWithGithub, listRelevantDependencies). Rows are kept in
    insertion order, which is the order a by-project query returns them in. */
module Dependencies {
  import opened Common
  import opened Scoring
  import Ranking

  /** The three numbers updateDependencyScores stores on a row. */
  datatype StoredScores = StoredScores(importance: real, niche: real, signal: real)

  datatype DependencyRow = DependencyRow(
    project: ProjectId,
    packageName: string,
    versionSpec: string,
    githubUrl: Option<string>,
    scores: Option<StoredScores>)

  /** One element of upsertProjectDependencies' `deps` argument. */
  datatype NewDependency = NewDependency(packageName: string, versionSpec: string, githubUrl: Option<string>)

  /** One element of the qualifying list. */
  datatype RepoLink = RepoLink(packageName: string, githubUrl: string)

  /** The rows of `project`, in stored order. */
  function RowsOf(rows: seq<DependencyRow>, project: ProjectId): seq<DependencyRow> {
    if rows == [] then []
    else RowsOf(rows[..|rows| - 1], project) + if rows[|rows| - 1].project == project then [rows[|rows| - 1]] else []
  }

  /** The rows of every other project, in stored order. */
  function OtherRows(rows: seq<DependencyRow>, project: ProjectId): seq<DependencyRow> {
    if rows == [] then []
    else OtherRows(rows[..|rows| - 1], project) + if rows[|rows| - 1].project != project then [rows[|rows| - 1]] else []
  }

  /** The rows inserted for `deps`, unscored. */
  function NewRows(project: ProjectId, deps: seq<NewDependency>): (r: seq<DependencyRow>)
    ensures |r| == |deps|
    ensures forall i :: 0 <= i < |deps| ==>
      r[i] == DependencyRow(project, deps[i].packageName, deps[i].versionSpec, deps[i].githubUrl, None)
  {
    seq(|deps|, i requires 0 <= i < |deps| =>
      DependencyRow(project, deps[i].packageName, deps[i].versionSpec, deps[i].githubUrl, None))
  }

  /** A row of `project` is scored when its name has an entry and it has a
      truthy URL; its scores are clamped and the signal is their product. */
  function PatchRow(row: DependencyRow, project: ProjectId, scores: map<string, Score>): DependencyRow {
    if row.project == project && row.packageName in scores && Truthy(row.githubUrl) then
      var s := scores[row.packageName];
      row.(scores := Some(StoredScores(Clamp(s.relevance), Clamp(s.niche), Signal(s.relevance, s.niche))))
    else row
  }

  function Patched(rows: seq<DependencyRow>, project: ProjectId, scores: map<string, Score>): (r: seq<DependencyRow>)
    ensures |r| == |rows|
    ensures forall i :: 0 <= i < |rows| ==> r[i] == PatchRow(rows[i], project, scores)
  {
    seq(|rows|, i requires 0 <= i < |rows| => PatchRow(rows[i], project, scores))
  }

  /** getSignalCutoff. */
  const SignalCutoff: real := 0.35

  /** A row that goes on to the GitHub scrape. */
  predicate Qualifies(row: DependencyRow) {
    Truthy(row.githubUrl) && row.scores.Some? && row.scores.value.signal >= SignalCutoff
  }

  /** The filter and projection of _listDepsWithGithub. */
  function Qualifying(rows: seq<DependencyRow>): seq<RepoLink> {
    if rows == [] then []
    else
      var last := rows[|rows| - 1];
      Qualifying(rows[..|rows| - 1]) + if Qualifies(last) then [RepoLink(last.packageName, last.githubUrl.value)] else []
  }

  /** The sort key of listRelevantDependencies: the signal, or -1 without one. */
  function SignalKey(row: DependencyRow): real {
    if row.scores.Some? then row.scores.value.signal else -1.0
  }

  /** Stored scores as updateDependencyScores writes them. */
  ghost predicate WellScored(row: DependencyRow) {
    row.scores.Some? ==>
      var s := row.scores.value;
      0.0 <= s.importance <= 1.0 && 0.0 <= s.niche <= 1.0 && s.signal == s.importance * s.niche
  }

  class DependencyTable {
    var rows: seq<DependencyRow>

    constructor ()
      ensures rows == []
    {
      rows := [];
    }

    /** upsertProjectDependencies: the project's rows are deleted, then one
        row per dependency is inserted, in order. */
    method ReplaceForProject(project: ProjectId, deps: seq<NewDependency>)
      modifies this
      ensures rows == OtherRows(old(rows), project) + NewRows(project, deps)
    {
      var kept: seq<DependencyRow> := [];
      for i := 0 to |rows|
        invariant kept == OtherRows(rows[..i], project)
      {
        assert rows[..i + 1][..i] == rows[..i];
        if rows[i].project != project {
          kept := kept + [rows[i]];
        }
      }
      assert rows[..|rows|] == rows;
      ghost var others := kept;
      rows := kept;
      for j := 0 to |deps|
        invariant rows == others + NewRows(project, deps[..j])
      {
        rows := rows + [DependencyRow(project, deps[j].packageName, deps[j].versionSpec, deps[j].githubUrl, None)];
      }
      assert deps[..|deps|] == deps;
    }

    /** updateDependencyScores. */
    method UpdateScores(project: ProjectId, scores: map<string, Score>)
      modifies this
      ensures rows == Patched(old(rows), project, scores)
    {
      ghost var before := rows;
      for i := 0 to |rows|
        invariant |rows| == |before|
        invariant forall k :: 0 <= k < i ==> rows[k] == PatchRow(before[k], project, scores)
        invariant forall k :: i <= k < |rows| ==> rows[k] == before[k]
      {
        var row := rows[i];
        if row.project != project {
          continue;
        }
        if row.packageName !in scores || !Truthy(row.githubUrl) {
          continue;
        }
        var s := scores[row.packageName];
        var importance := MinReal(1.0, MaxReal(0.0, s.relevance));
        var nicheScore := MinReal(1.0, MaxReal(0.0, s.niche));
        var signal := importance * nicheScore;
        assert importance == Clamp(s.relevance) && nicheScore == Clamp(s.niche);
        assert signal == Signal(s.relevance, s.niche);
        rows := rows[i := row.(scores := Some(StoredScores(importance, nicheScore, signal)))];
      }
    }

    /** _listDepsWithGithub. */
    function ListDepsWithGithub(project: ProjectId): seq<RepoLink>
      reads this
    {
      Qualifying(RowsOf(rows, project))
    }

    /** listRelevantDependencies. */
    function ListRelevantDependencies(project: ProjectId): seq<DependencyRow>
      reads this
    {
      Ranking.SortDesc(RowsOf(rows, project), SignalKey)
    }
  }

  lemma {:induction false} RowsOfAppend(a: seq<DependencyRow>, b: seq<DependencyRow>, project: ProjectId)
    ensures RowsOf(a + b, project) == RowsOf(a, project) + RowsOf(b, project)
    ensures OtherRows(a + b, project) == OtherRows(a, project) + OtherRows(b, project)
  {
    if b == [] {
      assert a + b == a;
    } else {
      assert (a + b)[..|a + b| - 1] == a + b[..|b| - 1];
      RowsOfAppend(a, b[..|b| - 1], project);
    }
  }

  lemma {:induction false} RowsOfNone(rows: seq<DependencyRow>, project: ProjectId)
    requires forall i :: 0 <= i < |rows| ==> rows[i].project != project
    ensures RowsOf(rows, project) == []
  {
    if rows != [] {
      RowsOfNone(rows[..|rows| - 1], project);
    }
  }

  lemma {:induction false} RowsOfAll(rows: seq<DependencyRow>, project: ProjectId)
    requires forall i :: 0 <= i < |rows| ==> rows[i].project == project
    ensures RowsOf(rows, project) == rows
    ensures OtherRows(rows, project) == []
  {
    if rows != [] {
      RowsOfAll(rows[..|rows| - 1], project);
    }
  }

  /** Rows of other projects are the ones kept by the delete loop. */
  lemma {:induction false} OtherRowsOf(rows: seq<DependencyRow>, project: ProjectId, other: ProjectId)
    requires other != project
    ensures RowsOf(OtherRows(rows, project), other) == RowsOf(rows, other)
    ensures RowsOf(OtherRows(rows, project), project) == []
  {
    if rows != [] {
      var init, last := rows[..|rows| - 1], rows[|rows| - 1];
      OtherRowsOf(init, project, other);
      var kept := if last.project != project then [last] else [];
      RowsOfAppend(OtherRows(init, project), kept, project);
      RowsOfAppend(OtherRows(init, project), kept, other);
      assert [last][..0] == [];
    }
  }

  /** After the replacement the project holds exactly the new rows, in the
      order given, and every other project's rows are as they were. */
  lemma ReplaceSpec(rows: seq<DependencyRow>, project: ProjectId, deps: seq<NewDependency>, other: ProjectId)
    requires other != project
    ensures RowsOf(OtherRows(rows, project) + NewRows(project, deps), project) == NewRows(project, deps)
    ensures RowsOf(OtherRows(rows, project) + NewRows(project, deps), other) == RowsOf(rows, other)
  {
    var inserted := NewRows(project, deps);
    RowsOfAppend(OtherRows(rows, project), inserted, project);
    RowsOfAppend(OtherRows(rows, project), inserted, other);
    OtherRowsOf(rows, project, other);
    RowsOfAll(inserted, project);
    RowsOfNone(inserted, other);
  }

  /** What the score patch does to one row: only a row of the project with a
      score entry and a URL changes, only its scores change, and they lie in
      [0, 1] with the signal the product of the other two. */
  lemma PatchRowSpec(row: DependencyRow, project: ProjectId, scores: map<string, Score>)
    ensures var r := PatchRow(row, project, scores);
      && r.project == row.project && r.packageName == row.packageName
      && r.versionSpec == row.versionSpec && r.githubUrl == row.githubUrl
      && (r != row ==> row.project == project && row.packageName in scores && Truthy(row.githubUrl))
      && (row.project == project && row.packageName in scores && Truthy(row.githubUrl) ==>
            r.scores.Some? && WellScored(r) &&
            r.scores.value.importance == Clamp(scores[row.packageName].relevance) &&
            r.scores.value.niche == Clamp(scores[row.packageName].niche))
      && (WellScored(row) ==> WellScored(r))
  {
  }

  /** A row qualifies only with a URL and a stored signal of at least the cutoff. */
  lemma {:induction false} QualifyingSpec(rows: seq<DependencyRow>)
    ensures forall l :: l in Qualifying(rows) <==>
      exists i :: 0 <= i < |rows| && Qualifies(rows[i]) && l == RepoLink(rows[i].packageName, rows[i].githubUrl.value)
    ensures forall l :: l in Qualifying(rows) ==> l.githubUrl != ""
  {
    if rows != [] {
      var init := rows[..|rows| - 1];
      QualifyingSpec(init);
      forall l | l in Qualifying(rows)
        ensures exists i :: 0 <= i < |rows| && Qualifies(rows[i]) && l == RepoLink(rows[i].packageName, rows[i].githubUrl.value)
      {
        if l in Qualifying(init) {
          var i :| 0 <= i < |init| && Qualifies(init[i]) && l == RepoLink(init[i].packageName, init[i].githubUrl.value);
          assert rows[i] == init[i];
        } else {
          assert Qualifies(rows[|rows| - 1]);
        }
      }
      forall l | exists i :: 0 <= i < |rows| && Qualifies(rows[i]) && l == RepoLink(rows[i].packageName, rows[i].githubUrl.value)
        ensures l in Qualifying(rows)
      {
        var i :| 0 <= i < |rows| && Qualifies(rows[i]) && l == RepoLink(rows[i].packageName, rows[i].githubUrl.value);
        if i < |init| { assert init[i] == rows[i]; }
      }
    }
  }

  /** The qualifying list keeps stored order. */
  lemma {:induction false} QualifyingAppend(a: seq<DependencyRow>, b: seq<DependencyRow>)
    ensures Qualifying(a + b) == Qualifying(a) + Qualifying(b)
  {
    if b == [] {
      assert a + b == a;
    } else {
      assert (a + b)[..|a + b| - 1] == a + b[..|b| - 1];
      QualifyingAppend(a, b[..|b| - 1]);
    }
  }

  /** Rows whose signals are all below the cutoff yield an empty list; in
      particular rows scored (0, 0) after a failed parse. */
  lemma {:induction false} BelowCutoffNothingQualifies(rows: seq<DependencyRow>)
    requires forall i :: 0 <= i < |rows| ==> rows[i].scores.None? || rows[i].scores.value.signal < SignalCutoff
    ensures Qualifying(rows) == []
  {
    if rows != [] {
      BelowCutoffNothingQualifies(rows[..|rows| - 1]);
    }
  }

  /** A stored signal is never negative, so it sorts above the -1 of a row without one. */
  lemma ScoredKeyNonNegative(row: DependencyRow)
    requires WellScored(row) && row.scores.Some?
    ensures SignalKey(row) >= 0.0
  {
    ProductInUnit(row.scores.value.importance, row.scores.value.niche);
  }

  /** In the relevance listing every scored row comes before every unscored one. */
  lemma UnscoredLast(rows: seq<DependencyRow>)
    requires forall i :: 0 <= i < |rows| ==> WellScored(rows[i])
    ensures var r := Ranking.SortDesc(rows, SignalKey);
      forall i, j :: 0 <= i < j < |r| && r[j].scores.Some? ==> r[i].scores.Some?
  {
    var r := Ranking.SortDesc(rows, SignalKey);
    Ranking.SortDescSpec(rows, SignalKey);
    forall j | 0 <= j < |r| ensures WellScored(r[j]) {
      assert r[j] in multiset(rows);
      var k :| 0 <= k < |rows| && rows[k] == r[j];
    }
    forall i, j | 0 <= i < j < |r| && r[j].scores.Some? ensures r[i].scores.Some? {
      ScoredKeyNonNegative(r[j]);
      assert SignalKey(r[i]) >= SignalKey(r[j]);
    }
  }
}
