# Dependency-influence pipeline, modelled in Dafny

This project models the back end of a tool. The tool reads a project's
`package.json` manifests and asks a language model how relevant and how niche
each dependency is. It keeps the dependencies that clear a signal cutoff, then
walks their GitHub repositories. For each repository it credits committers and
issue creators, leaving out members of the owning organisation, and records the
credit in per-user and per-repository influence tables. Every piece is in
`convex/projects.ts`.

The model is one Dafny module per concern:

- `Common`: JavaScript string helpers and small sequence lemmas.
- `Manifests`: aggregating manifests, first version wins.
- `Registry`: resolving and normalising the npm repository URL.
- `Scoring`: `extractJson`, the score loop and the clamp/signal arithmetic.
- `Dependencies`: the `projectDependencies` table and the cutoff filter.
- `GitHub`: `parseGithub`, shaping the GitHub replies, the org-member filter.
- `Influence`: the two influence tables and the detail view.
- `Progress`: the `githubScrapes` row and its percentage.
- `Logs`: the scrape log.
- `Projects`: analysis status and stored packages.
- `Ranking`: the stable descending sort behind the read-side listings.
- `Pipeline`: `researchDependencies`, `scrapeGithubWorkflow` and `processRepo`
  as methods over the tables.

Tables whose documents are updated in place are classes:

- `DependencyTable`, `UserInfluenceTable`, `RepoInfluenceTable`, `ScrapeTable`,
  `LogTable`, `ProjectTable` and `PackageTable`;
- each has `modifies` clauses on its mutations and `reads` clauses on its queries.

The loops of the source are `for` loops proved against recursive
specification functions:

- the manifest loop, the score loop, the issue-count loop;
- the delete/insert and patch loops;
- the two merge loops and the workflow loop.

Network replies, the model's reply and `JSON.parse` results are parameters:

- a registry reply per package name;
- a `RepoFetch` of three GitHub replies per repository;
- a `ModelReply`;
- a parse function from text to `Parsed`.

## Model

| member | source | states |
|---|---|---|
| Manifests.AggregateManifests | convex/projects.ts:126-142 | the manifest loop yields the first-wins list of all entries of all manifests, in order |
| Manifests.AddEntries | convex/projects.ts:136-138 | adding one manifest's entries extends the first-wins list of everything seen so far |
| Manifests.AggregateSpec | convex/projects.ts:126-142 | the aggregated names are exactly the names of all parsed manifests, each once, each mapped to the version of its first occurrence |
| Manifests.UnparseableSkipped | convex/projects.ts:128-141 | a manifest that fails to parse contributes nothing |
| Manifests.FirstManifestWins | convex/projects.ts:126-142 | a name in the first manifest keeps that manifest's version, whatever later manifests say |
| Manifests.FirstVersionPrefix | convex/projects.ts:137 | later entries never change the version already recorded for a name |
| Manifests.AllEntriesSnoc | convex/projects.ts:133-135 | a manifest contributes `dependencies` then `devDependencies`; an unparseable one contributes nothing |
| Registry.FetchGithubUrl | convex/projects.ts:145-170 | a URL is produced exactly when a non-empty repository string is found |
| Registry.RawRepoUrl | convex/projects.ts:152-158 | a failed lookup yields nothing; on a document the candidate is the first truthy of the latest version's `repository.url`, the document's `repository.url` and the document's `repository` (the last one whatever it is), and it is kept only when it is a non-empty string |
| Registry.LatestVersionFirst | convex/projects.ts:154-158 | the latest version's repository URL takes precedence over the top-level repository |
| Registry.ObjectWithoutUrlUnresolved | convex/projects.ts:157-158 | a top-level repository object without a URL resolves to nothing |
| Registry.PrefixRulesSkipH | convex/projects.ts:160-164 | no prefix rule touches a URL starting with `h` |
| Registry.NormalizeGitPlusHttps | convex/projects.ts:160-165 | `git+https://P.git` becomes `https://P` |
| Registry.NormalizeGitScheme | convex/projects.ts:160-165 | `git://P` becomes `https://P` when P has no `.git` suffix |
| Registry.NormalizeShorthand | convex/projects.ts:160-165 | `git@github.com:P.git` becomes `https://github.com/P` |
| Registry.GitlabShorthandUnchanged | convex/projects.ts:164 | the shorthand rewrite does not apply to another host's `git@` prefix |
| Registry.ShorthandDotMatchesAnyCharacter | convex/projects.ts:164 | the `.` of the shorthand pattern is unescaped, so it matches any character |
| Registry.NormalizeFixesOtherUrls | convex/projects.ts:160-165 | a URL no rule matches is returned unchanged |
| Registry.NormalizeStripsOneGitSuffix | convex/projects.ts:165 | only one trailing `.git` is removed |
| Scoring.Trim | convex/projects.ts:228 | the result is a slice of the input with only white space outside it and no white space at either end |
| Scoring.ExtractJsonFenced | convex/projects.ts:225-229 | with a ```json fence, the result is the trimmed text between the first tag and the first ``` after it |
| Scoring.ExtractJsonBraces | convex/projects.ts:230-234 | without a fence, the result is the slice from the first `{` to the last `}` |
| Scoring.ExtractJsonNothing | convex/projects.ts:235-238 | without a fence or a brace pair the result is nothing and the raw reply is parsed |
| Scoring.ScoresFromResponse | convex/projects.ts:239-259 | the score loop's result equals the specification of the parse outcome |
| Scoring.ObjectScoresKeys | convex/projects.ts:243-252 | a name is scored exactly when one of its entries has numeric relevance and niche |
| Scoring.ObjectScoresEntry | convex/projects.ts:243-252 | a NaN entry is omitted rather than zeroed; a numeric entry stores its clamped pair |
| Scoring.ResponseScoresInRange | convex/projects.ts:247-250 | every stored relevance and niche lies in [0, 1] |
| Scoring.ParseFailureZeroes | convex/projects.ts:254-259 | after a parse failure every analysable name, and only those, is scored (0, 0) |
| Scoring.Clamp | convex/projects.ts:419-420 | a clamped value lies in [0, 1] and equals its input inside that range |
| Scoring.SignalInUnit | convex/projects.ts:419-421 | the signal lies in [0, 1] and does not exceed either clamped factor |
| Dependencies.DependencyTable.ReplaceForProject | convex/projects.ts:377-393 | the project's rows are deleted and one unscored row per dependency appended, in order |
| Dependencies.ReplaceSpec | convex/projects.ts:377-393 | afterwards the project holds exactly the new rows; other projects keep theirs |
| Dependencies.DependencyTable.UpdateScores | convex/projects.ts:407-427 | each row is replaced by its patched form and nothing else changes |
| Dependencies.PatchRowSpec | convex/projects.ts:413-427 | only a row of the project with a score and a URL changes, only in its scores, which are clamped with signal their product |
| Dependencies.QualifyingSpec | convex/projects.ts:552-559 | a link is listed exactly when some row has a URL and a signal of at least 0.35; no listed URL is empty |
| Dependencies.QualifyingAppend | convex/projects.ts:552-559 | the filter keeps stored order |
| Dependencies.BelowCutoffNothingQualifies | convex/projects.ts:465 | rows whose signals are all below the cutoff yield an empty list |
| Dependencies.UnscoredLast | convex/projects.ts:453 | in the relevance listing every scored row precedes every unscored one |
| GitHub.ParseGithub | convex/projects.ts:530-536 | a missing or empty URL throws "Missing GitHub URL"; a failure to match throws with the URL itself |
| GitHub.ParseCanonicalUrl | convex/projects.ts:530-536 | `https://github.com/O/N…` parses to owner O and repository N when N stops at `.`, `/` or the end |
| GitHub.NonGithubUrlInvalid | convex/projects.ts:533-534 | a URL that nowhere contains `github.com/` is rejected with itself |
| GitHub.ParseIgnoresHostCase | convex/projects.ts:533 | any two URLs that differ only in the letter case of the text up to and including their first `github.com/` are both accepted with the same owner and name, or both rejected |
| GitHub.ParseLeftmost | convex/projects.ts:533 | for any URL, when an owner without `/` and a name without `.` or `/` ending at `.`, `/` or the end follow the leftmost `github.com/`, they are the result, whatever later text holds |
| GitHub.HostWithoutRepoInvalid | convex/projects.ts:533-534 | a URL in which no `github.com/` is followed by a further `/` is rejected with itself |
| GitHub.OrgPageInvalid | convex/projects.ts:533-534 | `https://github.com/org`, an organisation page, is rejected |
| GitHub.KeepContributorsSpec | convex/projects.ts:579-585 | the shaped contributors are exactly the entries with a login, never more than the reply holds |
| GitHub.FetchIssueCreators | convex/projects.ts:589-621 | the counting loop yields the specification of the reply (nothing on a non-success status) |
| GitHub.CountCreatorsTotal | convex/projects.ts:607-619 | the counts sum to the number of issues with a creator login |
| GitHub.CountCreatorsDistinct | convex/projects.ts:607-619 | each login appears once |
| GitHub.CountCreatorsCounts | convex/projects.ts:607-619 | each count is that login's number of issues, and every creator appears |
| GitHub.CountCreatorsFirstUrl | convex/projects.ts:614-615 | each creator carries the profile URL of its first issue |
| GitHub.KeepMembersSpec | convex/projects.ts:639-641 | the member list is exactly the truthy logins of the reply |
| GitHub.WithoutMembers | convex/projects.ts:669-672 | filtering never lengthens the list |
| GitHub.WithoutMembersSpec | convex/projects.ts:669-672 | exactly the non-members are kept; nothing is dropped exactly when no one is a member |
| GitHub.LogsExclusionIffMemberFound | convex/projects.ts:675-688 | the exclusion line is written exactly when some committer or issue creator is a member |
| GitHub.CommitDeltas | convex/projects.ts:689-709 | each committer gets one delta of (count, 0) |
| GitHub.IssueDeltas | convex/projects.ts:710-730 | each issue creator gets one delta of (0, count) |
| GitHub.RepoDeltas | convex/projects.ts:669-730 | no delta names an org member |
| Influence.MergeSpec | convex/projects.ts:1034-1054 | a merge adds the deltas to its key's counters, keeps an existing row's URL, keeps keys unique, and leaves every other key's row (or its absence) exactly as it was |
| Influence.MergeTwiceDoubles | convex/projects.ts:1034-1054 | the same merge applied twice doubles its deltas |
| Influence.UserInfluenceTable.MergeUser | convex/projects.ts:1034-1054 | mergeUserInfluence performs the additive upsert on the (project, username) table |
| Influence.RepoInfluenceTable.MergeRepoUser | convex/projects.ts:757-783 | mergeRepoUserInfluence performs the additive upsert on the (project, owner, repo, username) table |
| Influence.ApplyUserDeltasTotals | convex/projects.ts:689-730 | after processing a repository each user of the project holds their old counters plus their credited commits and issues |
| Influence.ApplyRepoDeltasTotals | convex/projects.ts:689-730 | the same for the per-repository rows of that repository; other repositories are untouched |
| Influence.ApplyUserDeltasUntouched | convex/projects.ts:689-730 | a user row no delta names, or of another project, stays exactly as it was, and no row for it appears |
| Influence.ApplyRepoDeltasUntouched | convex/projects.ts:689-730 | the same for the per-repository rows |
| Influence.UncreditedUnchanged | convex/projects.ts:689-730 | a login no delta names keeps its counters and its rows, or their absence, in both tables |
| Influence.MemberGainsNothing | convex/projects.ts:669-730 | an org member's counters and rows do not change in either table, and no row for it appears |
| Influence.InfluenceListingSpec | convex/projects.ts:940-946 | the listing holds every row of the project and nothing else, heaviest first |
| Influence.UserDetailSpec | convex/projects.ts:829-879 | the detail lists every repository row of the user, heaviest first, and reports zero counters without an aggregate row |
| Logs.LogTable.Append | convex/projects.ts:992-999 | appendGithubLog adds one entry at the end |
| Logs.NewestPageSpec | convex/projects.ts:1015-1021 | a page holds at most 200 entries, all of the project, and every entry when there are few enough |
| Logs.AppendHeadsPage | convex/projects.ts:1015-1021 | a new entry heads its project's page, followed by the previous page less its oldest entry when full |
| Logs.AppendOtherProject | convex/projects.ts:1015-1021 | another project's entries do not change a page |
| Progress.RoundPercentNearest | convex/projects.ts:894 | the percentage is the nearest integer to 100·processed / max(1, total), halves rounding up |
| Progress.PercentMonotone | convex/projects.ts:894 | the percentage grows with the processed count |
| Progress.PercentAtMostHundred | convex/projects.ts:894 | while processed does not exceed the total the percentage is at most 100 |
| Progress.PercentNotCapped | convex/projects.ts:894 | past the total nothing caps it (3 of 2 is 150) |
| Progress.PercentOfNone | convex/projects.ts:894 | with no total, processed counts as hundreds |
| Progress.ScrapeTable.Get | convex/projects.ts:918-923 | the row of the project, if any |
| Progress.ScrapeTable.Upsert | convex/projects.ts:959-980 | upsertGithubScrape writes the upserted row and touches no other project |
| Progress.UpsertOnlyFinished | convex/projects.ts:964-970 | absent fields keep their stored values |
| Progress.UpsertIdempotent | convex/projects.ts:959-980 | repeating an upsert changes nothing more |
| Progress.ScrapeTable.Increment | convex/projects.ts:886-899 | nothing happens without a row; otherwise processed grows by one and the percentage is recomputed |
| Progress.KnownRowSpec | convex/projects.ts:477-496 | the N-known row reads 0 of N, and 100 percent exactly when N is 0 |
| Progress.IncrementsCount | convex/projects.ts:505-512 | after k repositories the row reads k of N with the percentage of k out of N |
| Progress.AllProcessedIsComplete | convex/projects.ts:505-512 | once all N > 0 repositories are processed the running row already reads 100 percent |
| Progress.FinalRowKeepsTotal | convex/projects.ts:515-520 | the closing upsert keeps the stored total and reports finished, N processed, 100 percent |
| Progress.FinishedRow | convex/projects.ts:477-520 | after the workflow the row reads finished, N of N, 100 percent, whatever was stored before |
| Projects.ProjectTable.SetAnalysisStatus | convex/projects.ts:357-362 | a missing project fails and changes nothing; otherwise its status is set |
| Projects.ListingNewestFirst | convex/projects.ts:297-303 | the latest package heads the listing, followed by the earlier ones newest first |
| Projects.ListingOtherProject | convex/projects.ts:297-303 | other projects' packages do not show |
| Ranking.SortDescSpec | convex/projects.ts:453 | the sort yields a permutation in descending key order |
| Ranking.SortDescStable | convex/projects.ts:453 | rows with equal keys keep their stored order |
| Pipeline.ProcessRepo | convex/projects.ts:648-744 | it fails exactly when one of the three GitHub requests threw, having written only the fetch line; otherwise both tables receive the commit merges then the issue merges of the non-members, the scrape row is incremented, and the fetch, exclusion and progress lines are logged |
| Pipeline.ScrapeLink | convex/projects.ts:505-512 | one loop iteration either completes its repository, advancing the scraped state by it, or fails exactly when its requests threw, leaving the tables as they were |
| Pipeline.ProcessLinks | convex/projects.ts:505-512 | the links are processed in order; the loop finishes exactly when every link parses and its requests return, and otherwise stops at the first link that does not parse or whose requests throw, with the state of the links before it |
| Pipeline.ScrapedNext | convex/projects.ts:505-512 | one processed repository advances the tables, the row and the log by that repository |
| Pipeline.ScrapeGithubWorkflow | convex/projects.ts:475-527 | on success each table is the fold of all qualifying repositories, the row reads finished with N of N at 100 percent, and the log is start, per-repository lines, done; a link that does not parse or a repository whose requests throw stops it with the state of the links before it (plus that repository's fetch line) |
| Pipeline.ReplyText | convex/projects.ts:216-222 | the first block's text when it is a text block, else `output_text`, else empty |
| Pipeline.WithMeta | convex/projects.ts:172-179 | each aggregated entry keeps its name and version and carries its resolved URL |
| Pipeline.ResearchDependencies | convex/projects.ts:103-283 | a missing project changes nothing; otherwise the rows are replaced by the aggregated dependencies, then a failed model call marks the project failed and a completion scores the rows and marks it complete |

## Left out

- The network: npm registry lookups, GitHub REST calls and the model call.
  Their results are parameters (`RegistryReply`, `RepoFetch`, `ModelReply`).
  A registry request that throws is caught and is `NotOk`. A GitHub request
  that throws is `Threw`: processRepo then fails, and the workflow stops.
- The request details: the model's prompt and settings, the GitHub token
  header and the `per_page` limits.
- `JSON.parse` is an input function, both on stored manifests and on the
  model's reply. Object key order and `Number()` conversion are taken as given.
  A NaN is `None`.
- Concurrency: the `Promise.all` fan-out over packages and over the three
  GitHub requests is sequential here.
- Workflow durability: the workflow manager's journaling, retries and resume
  are not modelled. `workflow.start` after a completed analysis is not
  modelled either.
- Floating point: scores are `real`. The percentage is the exact integer
  `(200p + m) / (2m)`, the rounding `Math.round` performs on exact values.
- JavaScript objects used as dictionaries:
  - `Object.values` lists integer-like keys first, but issue creators here
    keep first-seen order;
  - prototype keys such as `constructor` are treated as ordinary logins.
- Dependencies.PatchRow: the score lookup by package name is a `map`
  lookup. In the source, a dependency named after a prototype key such as
  `constructor` that the scores do not list finds an inherited function
  there. It is then stored with NaN scores. The model leaves such a row
  unscored.
- Formatted log text: messages are kept structured.
- The page URLs built in the detail view and the `_creationTime`/`_id`
  fields are not modelled.
- Document order: each table's stored order stands for the order of its
  index scans.
- The `.unique()` lookup: it throws on duplicates. The tables keep their keys
  unique as an invariant, so it cannot throw here.
- listProjects, getProject, createProject, addProjectPackage,
  startDependencyAnalysis and the getSignalCutoff query are not modelled.
  They only insert, read or schedule, with no logic beyond the validators.
  The cutoff itself is `SignalCutoff`.
- The argument validators of the Convex functions and `console.error` are not
  modelled.
- Scoring.Signal: it carries no contract of its own. Its bounds are stated in
  `Scoring.SignalInUnit`.
- Progress.RoundPercent: it carries no contract of its own. Its meaning is
  stated in `Progress.RoundPercentNearest` and the lemmas after it.
- Pipeline.ResearchDependencies: only the model call is taken to fail. A
  failure while loading packages or writing rows is not modelled.

