/** Projects and their stored manifests (convex/projects.ts,
    setAnalysisStatus, listProjectPackages). */
module Projects {
  import opened Common

  datatype AnalysisStatus = Pending | Processing | Complete | Failed

  /** The analysis status of each existing project. */
  class ProjectTable {
    var status: map<ProjectId, AnalysisStatus>

    constructor ()
      ensures status == map[]
    {
      status := map[];
    }

    /** setAnalysisStatus. `ok` is false where the mutation throws
        "Project not found", and then nothing changes. */
    method SetAnalysisStatus(project: ProjectId, s: AnalysisStatus) returns (ok: bool)
      modifies this
      ensures ok <==> project in old(status)
      ensures status == if ok then old(status)[project := s] else old(status)
    {
      if project !in status {
        return false;
      }
      status := status[project := s];
      return true;
    }
  }

  /** A stored package.json. */
  datatype PackageRow = PackageRow(project: ProjectId, name: string, content: string)

  /** The packages of `project`, oldest first. */
  function PackagesOf(rows: seq<PackageRow>, project: ProjectId): seq<PackageRow> {
    if rows == [] then []
    else PackagesOf(rows[..|rows| - 1], project) + if rows[|rows| - 1].project == project then [rows[|rows| - 1]] else []
  }

  /** The `projectPackages` table, in insertion order. */
  class PackageTable {
    var rows: seq<PackageRow>

    constructor ()
      ensures rows == []
    {
      rows := [];
    }

    /** listProjectPackages: newest first. */
    function ListProjectPackages(project: ProjectId): seq<PackageRow>
      reads this
    {
      Reverse(PackagesOf(rows, project))
    }
  }

  /** The package stored last heads the listing, followed by the earlier ones
      newest first; packages of other projects do not show. */
  lemma ListingNewestFirst(rows: seq<PackageRow>, p: PackageRow)
    ensures Reverse(PackagesOf(rows + [p], p.project)) == [p] + Reverse(PackagesOf(rows, p.project))
  {
    assert (rows + [p])[..|rows|] == rows;
    var earlier := PackagesOf(rows, p.project);
    assert (earlier + [p])[..|earlier|] == earlier;
  }

  lemma ListingOtherProject(rows: seq<PackageRow>, p: PackageRow, project: ProjectId)
    requires p.project != project
    ensures PackagesOf(rows + [p], project) == PackagesOf(rows, project)
  {
    assert (rows + [p])[..|rows|] == rows;
  }
}
