/** The scrape log (convex/projects.ts, appendGithubLog, listGithubLogs):
    an append-only table read back newest first, at most 200 entries. */
module Logs {
  import opened Common

  /** The messages the pipeline writes, kept structured rather than as the
      formatted text. */
  datatype LogMessage =
    | FetchingRepo(owner: string, repo: string)
    | ExcludedMembers(excluded: nat, owner: string)
    | ProcessedRepo(owner: string, repo: string, processed: nat, total: nat)
    | StartingScrape(repos: nat)
    | FinishedScrape(repos: nat)

  datatype LogEntry = LogEntry(project: ProjectId, level: string, message: LogMessage, step: Option<string>)

  /** The `step` tag each message is written with. */
  function StepName(m: LogMessage): string {
    match m
    case FetchingRepo(_, _) => "fetch_repo"
    case ExcludedMembers(_, _) => "exclude_org_members"
    case ProcessedRepo(_, _, _, _) => "progress"
    case StartingScrape(_) => "start"
    case FinishedScrape(_) => "done"
  }

  /** Every entry the pipeline writes is at level "info" with its step tag. */
  function Info(project: ProjectId, m: LogMessage): LogEntry {
    LogEntry(project, "info", m, Some(StepName(m)))
  }

  /** The size of the page listGithubLogs returns. */
  const PageSize: nat := 200

  /** The entries of `project`, oldest first. */
  function EntriesOf(entries: seq<LogEntry>, project: ProjectId): seq<LogEntry> {
    if entries == [] then []
    else EntriesOf(entries[..|entries| - 1], project) + if entries[|entries| - 1].project == project then [entries[|entries| - 1]] else []
  }

  /** The page listGithubLogs returns: newest first, at most PageSize. */
  function NewestPage(entries: seq<LogEntry>, project: ProjectId): seq<LogEntry> {
    Take(Reverse(EntriesOf(entries, project)), PageSize)
  }

  class LogTable {
    var entries: seq<LogEntry>

    constructor ()
      ensures entries == []
    {
      entries := [];
    }

    /** appendGithubLog. */
    method Append(e: LogEntry)
      modifies this
      ensures entries == old(entries) + [e]
    {
      entries := entries + [e];
    }

    /** listGithubLogs. */
    function ListGithubLogs(project: ProjectId): seq<LogEntry>
      reads this
    {
      NewestPage(entries, project)
    }
  }

  /** A page holds at most PageSize entries, all of the project, and shows
      every entry when there are few enough. */
  lemma {:induction false} NewestPageSpec(entries: seq<LogEntry>, project: ProjectId)
    ensures |NewestPage(entries, project)| <= PageSize
    ensures forall e :: e in NewestPage(entries, project) ==> e.project == project && e in entries
    ensures |EntriesOf(entries, project)| <= PageSize ==> |NewestPage(entries, project)| == |EntriesOf(entries, project)|
  {
    EntriesOfSpec(entries, project);
    var all := Reverse(EntriesOf(entries, project));
    forall e | e in NewestPage(entries, project) ensures e.project == project && e in entries {
      var i :| 0 <= i < |NewestPage(entries, project)| && NewestPage(entries, project)[i] == e;
      assert e == all[i];
      assert e in EntriesOf(entries, project);
    }
  }

  lemma {:induction false} EntriesOfSpec(entries: seq<LogEntry>, project: ProjectId)
    ensures forall e :: e in EntriesOf(entries, project) <==> e in entries && e.project == project
  {
    if entries != [] {
      var init := entries[..|entries| - 1];
      EntriesOfSpec(init, project);
      assert entries == init + [entries[|entries| - 1]];
    }
  }

  /** A new entry of the project heads its page, followed by the previous
      page without its oldest entry when the page was full. */
  lemma AppendHeadsPage(entries: seq<LogEntry>, e: LogEntry)
    ensures var before := NewestPage(entries, e.project);
      NewestPage(entries + [e], e.project) == [e] + Take(before, PageSize - 1)
  {
    var p := e.project;
    assert (entries + [e])[..|entries|] == entries;
    var earlier := EntriesOf(entries, p);
    assert EntriesOf(entries + [e], p) == earlier + [e];
    var rev := Reverse(earlier + [e]);
    assert rev == [e] + Reverse(earlier) by {
      assert (earlier + [e])[..|earlier|] == earlier;
    }
    var r := Reverse(earlier);
    if |r| >= PageSize {
      assert Take(rev, PageSize) == [e] + r[..PageSize - 1];
      assert Take(r, PageSize)[..PageSize - 1] == r[..PageSize - 1];
    } else {
      assert Take(rev, PageSize) == rev;
    }
  }

  /** Entries of another project leave a page unchanged. */
  lemma AppendOtherProject(entries: seq<LogEntry>, e: LogEntry, project: ProjectId)
    requires e.project != project
    ensures NewestPage(entries + [e], project) == NewestPage(entries, project)
  {
    assert (entries + [e])[..|entries|] == entries;
  }
}
