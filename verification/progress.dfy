/** Scrape progress (convex/projects.ts, upsertGithubScrape,
    incrementGithubProcessed, getGithubScrape): one row per project that
    says whether the scrape finished, how many repositories it covers, how
    many are done and the rounded percentage. */
module Progress {
  import opened Common

  /** A `githubScrapes` document; absent optional fields are `None`. */
  datatype ScrapeRow = ScrapeRow(
    finished: bool,
    totalRepos: Option<nat>,
    processedRepos: Option<nat>,
    percent: Option<nat>)

  /** `Math.round(processed / Math.max(1, total) * 100)`, computed exactly
      on integers; RoundPercentNearest states what it computes. */
  function RoundPercent(processed: nat, total: nat): nat {
    var m := Max(1, total);
    (200 * processed + m) / (2 * m)
  }

  /** The percentage is the nearest integer to `100 processed / max(1, total)`,
      halves rounding up as `Math.round` does. */
  lemma RoundPercentNearest(processed: nat, total: nat)
    ensures var m := Max(1, total) as real;
      var r := RoundPercent(processed, total) as real;
      r - 0.5 <= 100.0 * processed as real / m < r + 0.5
  {
    RoundPercentBounds(processed, Max(1, total), RoundPercent(processed, total));
  }

  /** The integer bounds of a floor division, read as a rounding of reals. */
  lemma RoundPercentBounds(p: nat, m: nat, r: nat)
    requires m >= 1 && r == (200 * p + m) / (2 * m)
    ensures r as real - 0.5 <= 100.0 * p as real / m as real < r as real + 0.5
  {
    FloorBounds(200 * p + m, 2 * m);
    var mr: int := m * r;
    var e: int := 200 * p - 2 * mr;
    MulAsReal(m, r);
    RealRounding(p as real, m as real, r as real, e as real);
  }

  /** A distance `e` below `m` between `200 p` and `2 m r` puts `r` within a
      half of `100 p / m`. */
  lemma RealRounding(p: real, m: real, r: real, e: real)
    requires m > 0.0 && -m <= e < m && e == 200.0 * p - 2.0 * (m * r)
    ensures r - 0.5 <= 100.0 * p / m < r + 0.5
  {
    var x := 100.0 * p / m;
    DivTimes(100.0 * p, m);
    var y := x - r;
    assert y * m == x * m - r * m;
    assert 2.0 * (y * m) == e;
    ScaleBack(y, m);
  }

  lemma DivTimes(a: real, c: real)
    requires c > 0.0
    ensures a / c * c == a
  {
  }

  lemma MulAsReal(a: int, b: int)
    ensures (a * b) as real == a as real * b as real
  {
  }

  lemma FloorBounds(q: nat, d: nat)
    requires d > 0
    ensures d * (q / d) <= q < d * (q / d) + d
  {
  }

  /** Dividing an inequality by a positive factor. */
  lemma ScaleBack(y: real, c: real)
    requires c > 0.0 && -0.5 * c <= y * c < 0.5 * c
    ensures -0.5 <= y < 0.5
  {
  }

  /** Every repository processed gives one hundred percent. */
  lemma PercentOfAll(n: nat)
    requires n > 0
    ensures RoundPercent(n, n) == 100
  {
    var d := 2 * n;
    assert d * 100 <= 200 * n + n < d * 100 + d;
    DivUnique(200 * n + n, d, 100);
  }

  /** The quotient is the one multiple that brackets the dividend. */
  lemma DivUnique(q: nat, d: nat, r: nat)
    requires d > 0 && d * r <= q < d * r + d
    ensures q / d == r
  {
    FloorBounds(q, d);
    var k := q / d;
    if k < r {
      MulMonotone(d, k + 1, r);
    } else if k > r {
      MulMonotone(d, r + 1, k);
    }
  }

  lemma MulMonotone(d: nat, x: nat, y: nat)
    requires x <= y
    ensures d * x <= d * y
  {
  }

  /** Integer division by a positive divisor keeps order. */
  lemma DivMonotone(a: nat, b: nat, d: nat)
    requires a <= b && d > 0
    ensures a / d <= b / d
  {
    FloorBounds(a, d);
    FloorBounds(b, d);
    if a / d > b / d {
      MulMonotone(d, b / d + 1, a / d);
    }
  }

  /** No repositories at all is reported as `processed` hundred percent. */
  lemma PercentOfNone(p: nat)
    ensures RoundPercent(p, 0) == 100 * p
  {
    assert (200 * p + 1) / 2 == 100 * p;
  }

  /** The percentage grows with the processed count ... */
  lemma PercentMonotone(p: nat, q: nat, total: nat)
    requires p <= q
    ensures RoundPercent(p, total) <= RoundPercent(q, total)
  {
    var m := Max(1, total);
    DivMonotone(200 * p + m, 200 * q + m, 2 * m);
  }

  /** ... and stays within a hundred while the count does not exceed the total ... */
  lemma PercentAtMostHundred(p: nat, total: nat)
    requires p <= total
    ensures RoundPercent(p, total) <= 100
  {
    if total == 0 {
      PercentOfNone(p);
    } else {
      PercentMonotone(p, total, total);
      PercentOfAll(total);
    }
  }

  /** ... but nothing caps it when the count runs past the total. */
  lemma PercentNotCapped()
    ensures RoundPercent(3, 2) == 150
  {
  }

  /** The row upsertGithubScrape leaves: a new row takes the arguments as
      given; an existing row keeps each field whose argument is absent. */
  function Upserted(existing: Option<ScrapeRow>, finished: bool,
                    totalRepos: Option<nat>, processedRepos: Option<nat>, percent: Option<nat>): ScrapeRow
  {
    match existing
    case None => ScrapeRow(finished, totalRepos, processedRepos, percent)
    case Some(row) =>
      ScrapeRow(finished,
        if totalRepos.Some? then totalRepos else row.totalRepos,
        if processedRepos.Some? then processedRepos else row.processedRepos,
        if percent.Some? then percent else row.percent)
  }

  /** The row incrementGithubProcessed leaves: one more repository done and
      the percentage recomputed against the total (zero when unknown). */
  function Incremented(row: ScrapeRow): ScrapeRow {
    var next := row.processedRepos.OrElse(0) + 1;
    row.(processedRepos := Some(next), percent := Some(RoundPercent(next, row.totalRepos.OrElse(0))))
  }

  /** Repeating an upsert changes nothing more. */
  lemma UpsertIdempotent(existing: Option<ScrapeRow>, finished: bool,
                         totalRepos: Option<nat>, processedRepos: Option<nat>, percent: Option<nat>)
    ensures var once := Upserted(existing, finished, totalRepos, processedRepos, percent);
      Upserted(Some(once), finished, totalRepos, processedRepos, percent) == once
  {
  }

  /** An upsert with every optional field absent only sets `finished`. */
  lemma UpsertOnlyFinished(existing: ScrapeRow, finished: bool)
    ensures Upserted(Some(existing), finished, None, None, None) == existing.(finished := finished)
  {
  }

  /** The row the workflow writes once the number `n` of repositories is
      known, whatever was stored before: nothing done yet, and a hundred
      percent exactly when there is nothing to do. */
  function KnownRow(existing: Option<ScrapeRow>, n: nat): ScrapeRow {
    var started := Upserted(existing, false, Some(0), Some(0), Some(0));
    Upserted(Some(started), false, Some(n), Some(0), Some(if n == 0 then 100 else 0))
  }

  lemma KnownRowSpec(existing: Option<ScrapeRow>, n: nat)
    ensures KnownRow(existing, n) == ScrapeRow(false, Some(n), Some(0), Some(if n == 0 then 100 else 0))
    ensures KnownRow(existing, n).percent == Some(100) <==> n == 0
  {
  }

  /** `k` increments after the known row leave `k` repositories processed
      and the percentage of `k` out of `n`. */
  function AfterIncrements(row: ScrapeRow, k: nat): ScrapeRow {
    if k == 0 then row else Incremented(AfterIncrements(row, k - 1))
  }

  lemma {:induction false} IncrementsCount(existing: Option<ScrapeRow>, n: nat, k: nat)
    requires k > 0
    ensures AfterIncrements(KnownRow(existing, n), k) ==
      ScrapeRow(false, Some(n), Some(k), Some(RoundPercent(k, n)))
  {
    KnownRowSpec(existing, n);
    if k > 1 {
      IncrementsCount(existing, n, k - 1);
    }
  }

  /** Once every repository is processed the running row already reads a
      hundred percent. */
  lemma AllProcessedIsComplete(existing: Option<ScrapeRow>, n: nat)
    requires n > 0
    ensures AfterIncrements(KnownRow(existing, n), n).percent == Some(100)
  {
    IncrementsCount(existing, n, n);
    PercentOfAll(n);
  }

  /** The closing upsert keeps the stored total and reports everything done. */
  lemma FinalRowKeepsTotal(row: ScrapeRow, n: nat)
    ensures Upserted(Some(row), true, None, Some(n), Some(100)) ==
      ScrapeRow(true, row.totalRepos, Some(n), Some(100))
  {
  }

  /** The row the workflow leaves after all n repositories: finished, n of n,
      a hundred percent, whatever was stored before it started. */
  lemma FinishedRow(existing: Option<ScrapeRow>, n: nat)
    ensures Upserted(Some(AfterIncrements(KnownRow(existing, n), n)), true, None, Some(n), Some(100)) ==
      ScrapeRow(true, Some(n), Some(n), Some(100))
  {
    KnownRowSpec(existing, n);
    if n > 0 {
      IncrementsCount(existing, n, n);
    }
  }

  /** The `githubScrapes` table: at most one row per project. */
  class ScrapeTable {
    var rows: map<ProjectId, ScrapeRow>

    constructor ()
      ensures rows == map[]
    {
      rows := map[];
    }

    /** getGithubScrape. */
    function Get(project: ProjectId): (r: Option<ScrapeRow>)
      reads this
      ensures r.Some? <==> project in rows
      ensures r.Some? ==> r.value == rows[project]
    {
      if project in rows then Some(rows[project]) else None
    }

    /** upsertGithubScrape. */
    method Upsert(project: ProjectId, finished: bool,
                  totalRepos: Option<nat>, processedRepos: Option<nat>, percent: Option<nat>)
      modifies this
      ensures rows == old(rows)[project := Upserted(old(Get(project)), finished, totalRepos, processedRepos, percent)]
    {
      var existing := Get(project);
      if existing.Some? {
        var row := existing.value;
        rows := rows[project := ScrapeRow(finished,
          if totalRepos.Some? then totalRepos else row.totalRepos,
          if processedRepos.Some? then processedRepos else row.processedRepos,
          if percent.Some? then percent else row.percent)];
      } else {
        rows := rows[project := ScrapeRow(finished, totalRepos, processedRepos, percent)];
      }
    }

    /** incrementGithubProcessed: nothing happens when the project has no row. */
    method Increment(project: ProjectId)
      modifies this
      ensures project !in old(rows) ==> rows == old(rows)
      ensures project in old(rows) ==> rows == old(rows)[project := Incremented(old(rows)[project])]
    {
      if project !in rows {
        return;
      }
      var existing := rows[project];
      var total := existing.totalRepos.OrElse(0);
      var nextProcessed := existing.processedRepos.OrElse(0) + 1;
      var percent := (200 * nextProcessed + Max(1, total)) / (2 * Max(1, total));
      rows := rows[project := existing.(processedRepos := Some(nextProcessed), percent := Some(percent))];
    }
  }
}
