/** Manifest aggregation (convex/projects.ts, researchDependencies): every
    stored package.json of a project contributes its `dependencies` and then
    its `devDependencies`; the first version seen for a name wins, and a
    manifest that does not parse is skipped. The accumulator is a JavaScript
    `Map`, which remembers insertion order, so it is modelled as a sequence
    of (name, version) entries whose names are distinct. */
module Manifests {
  import opened Common

  /** A (package name, version spec) pair. */
  type Entry = (string, string)

  /** A stored manifest as `JSON.parse` sees it: either it fails to parse or
      it yields the entries of its two dependency maps, in object order
      (a missing map is the empty sequence). */
  datatype Manifest =
    | Unparseable
    | Parsed(dependencies: seq<Entry>, devDependencies: seq<Entry>)

  /** The entries one manifest contributes: dependencies before devDependencies. */
  function ManifestEntries(m: Manifest): seq<Entry> {
    match m
    case Unparseable => []
    case Parsed(deps, devDeps) => deps + devDeps
  }

  /** All entries of all manifests, manifests in the order given. */
  function AllEntries(ms: seq<Manifest>): seq<Entry> {
    if ms == [] then [] else AllEntries(ms[..|ms| - 1]) + ManifestEntries(ms[|ms| - 1])
  }

  function Names(s: seq<Entry>): set<string> {
    set i | 0 <= i < |s| :: s[i].0
  }

  ghost predicate DistinctNames(s: seq<Entry>) {
    forall i, j :: 0 <= i < j < |s| ==> s[i].0 != s[j].0
  }

  /** What the aggregation loop accumulates: an entry is kept exactly when
      its name is not yet present. */
  function FirstWins(s: seq<Entry>): seq<Entry> {
    if s == [] then []
    else
      var prev := FirstWins(s[..|s| - 1]);
      if s[|s| - 1].0 in Names(prev) then prev else prev + [s[|s| - 1]]
  }

  /** Reference definition, scanning from the front: the version of the
      first entry that carries `name`. */
  function FirstVersion(s: seq<Entry>, name: string): string
    requires name in Names(s)
  {
    if s[0].0 == name then s[0].1
    else
      assert name in Names(s[1..]) by {
        var i :| 0 <= i < |s| && s[i].0 == name;
        assert s[1..][i - 1].0 == name;
      }
      FirstVersion(s[1..], name)
  }

  /** The aggregation loop of researchDependencies. */
  method AggregateManifests(ms: seq<Manifest>) returns (depToVersion: seq<Entry>)
    ensures depToVersion == FirstWins(AllEntries(ms))
  {
    depToVersion := [];
    for i := 0 to |ms|
      invariant depToVersion == FirstWins(AllEntries(ms[..i]))
    {
      AllEntriesSnoc(ms, i);
      match ms[i]
      case Unparseable =>
        // malformed manifests are ignored
      case Parsed(deps, devDeps) =>
        depToVersion := AddEntries(AllEntries(ms[..i]), depToVersion, deps + devDeps);
    }
    assert ms[..|ms|] == ms;
  }

  /** The inner loop: each entry is set only when its name is not yet present. */
  method AddEntries(ghost seen: seq<Entry>, acc: seq<Entry>, all: seq<Entry>) returns (r: seq<Entry>)
    requires acc == FirstWins(seen)
    ensures r == FirstWins(seen + all)
  {
    r := acc;
    assert seen + all[..0] == seen;
    for j := 0 to |all|
      invariant r == FirstWins(seen + all[..j])
    {
      var (name, version) := all[j];
      assert seen + all[..j + 1] == (seen + all[..j]) + [all[j]];
      FirstWinsSnoc(seen + all[..j], all[j]);
      if name !in Names(r) {
        r := r + [(name, version)];
      }
    }
    assert all[..|all|] == all;
  }

  lemma AllEntriesSnoc(ms: seq<Manifest>, i: nat)
    requires i < |ms|
    ensures AllEntries(ms[..i + 1]) == AllEntries(ms[..i]) + ManifestEntries(ms[i])
    ensures ms[i].Unparseable? ==> AllEntries(ms[..i + 1]) == AllEntries(ms[..i])
  {
    assert ms[..i + 1][..i] == ms[..i];
  }

  lemma FirstWinsSnoc(s: seq<Entry>, e: Entry)
    ensures FirstWins(s + [e]) ==
      if e.0 in Names(FirstWins(s)) then FirstWins(s) else FirstWins(s) + [e]
  {
    assert (s + [e])[..|s|] == s;
  }

  lemma NamesAppend(a: seq<Entry>, b: seq<Entry>)
    ensures Names(a + b) == Names(a) + Names(b)
  {
    forall n | n in Names(a + b) ensures n in Names(a) + Names(b) {
      var i :| 0 <= i < |a + b| && (a + b)[i].0 == n;
      if i < |a| { assert a[i].0 == n; } else { assert b[i - |a|].0 == n; }
    }
    forall n | n in Names(a) ensures n in Names(a + b) {
      var i :| 0 <= i < |a| && a[i].0 == n;
      assert (a + b)[i].0 == n;
    }
    forall n | n in Names(b) ensures n in Names(a + b) {
      var i :| 0 <= i < |b| && b[i].0 == n;
      assert (a + b)[|a| + i].0 == n;
    }
  }

  lemma {:induction false} FirstWinsNames(s: seq<Entry>)
    ensures Names(FirstWins(s)) == Names(s)
  {
    if s != [] {
      var init := s[..|s| - 1];
      assert s == init + [s[|s| - 1]];
      FirstWinsNames(init);
      NamesAppend(init, [s[|s| - 1]]);
      NamesAppend(FirstWins(init), [s[|s| - 1]]);
    }
  }

  lemma {:induction false} FirstWinsDistinct(s: seq<Entry>)
    ensures DistinctNames(FirstWins(s))
  {
    if s != [] {
      var init := s[..|s| - 1];
      FirstWinsDistinct(init);
      var prev := FirstWins(init);
      if s[|s| - 1].0 !in Names(prev) {
        var r := prev + [s[|s| - 1]];
        forall i, j | 0 <= i < j < |r| ensures r[i].0 != r[j].0 {
          if j == |prev| {
            assert prev[i].0 in Names(prev);
          }
        }
      }
    }
  }

  /** A name already present in `a` keeps its first version however the sequence continues. */
  lemma {:induction false} FirstVersionPrefix(a: seq<Entry>, b: seq<Entry>, name: string)
    requires name in Names(a)
    ensures name in Names(a + b)
    ensures FirstVersion(a + b, name) == FirstVersion(a, name)
  {
    NamesAppend(a, b);
    if a[0].0 != name {
      assert name in Names(a[1..]) by {
        var i :| 0 <= i < |a| && a[i].0 == name;
        assert a[1..][i - 1].0 == name;
      }
      assert (a + b)[1..] == a[1..] + b;
      FirstVersionPrefix(a[1..], b, name);
    }
  }

  /** A name that first appears in the last entry gets that entry's version. */
  lemma {:induction false} FirstVersionLast(a: seq<Entry>, e: Entry)
    requires e.0 !in Names(a)
    ensures e.0 in Names(a + [e])
    ensures FirstVersion(a + [e], e.0) == e.1
  {
    NamesAppend(a, [e]);
    assert [e][0].0 == e.0;
    if a != [] {
      assert a[0].0 in Names(a);
      assert (a + [e])[1..] == a[1..] + [e];
      assert a == [a[0]] + a[1..];
      NamesAppend([a[0]], a[1..]);
      FirstVersionLast(a[1..], e);
    }
  }

  /** Every kept entry carries the version its name first appeared with. */
  lemma {:induction false} FirstWinsVersions(s: seq<Entry>)
    ensures forall k :: 0 <= k < |FirstWins(s)| ==>
      FirstWins(s)[k].0 in Names(s) && FirstWins(s)[k].1 == FirstVersion(s, FirstWins(s)[k].0)
  {
    if s != [] {
      var init, last := s[..|s| - 1], s[|s| - 1];
      assert s == init + [last];
      FirstWinsVersions(init);
      FirstWinsNames(init);
      var prev := FirstWins(init);
      forall k | 0 <= k < |FirstWins(s)|
        ensures FirstWins(s)[k].0 in Names(s) && FirstWins(s)[k].1 == FirstVersion(s, FirstWins(s)[k].0)
      {
        if k < |prev| {
          assert FirstWins(s)[k] == prev[k];
          FirstVersionPrefix(init, [last], prev[k].0);
        } else {
          assert FirstWins(s)[k] == last && last.0 !in Names(init);
          FirstVersionLast(init, last);
        }
      }
    }
  }

  lemma {:induction false} AllEntriesAppend(a: seq<Manifest>, b: seq<Manifest>)
    ensures AllEntries(a + b) == AllEntries(a) + AllEntries(b)
  {
    if b != [] {
      var init := b[..|b| - 1];
      assert (a + b)[..|a + b| - 1] == a + init;
      AllEntriesAppend(a, init);
    } else {
      assert a + b == a;
    }
  }

  /** The aggregate's names are exactly the names of all parseable
      manifests, each appears once, and each carries the version of its
      first occurrence (manifests in order, dependencies before
      devDependencies). */
  lemma AggregateSpec(ms: seq<Manifest>)
    ensures Names(FirstWins(AllEntries(ms))) == Names(AllEntries(ms))
    ensures DistinctNames(FirstWins(AllEntries(ms)))
    ensures forall k :: 0 <= k < |FirstWins(AllEntries(ms))| ==>
      var e := FirstWins(AllEntries(ms))[k];
      e.0 in Names(AllEntries(ms)) && e.1 == FirstVersion(AllEntries(ms), e.0)
  {
    FirstWinsNames(AllEntries(ms));
    FirstWinsDistinct(AllEntries(ms));
    FirstWinsVersions(AllEntries(ms));
  }

  /** Inserting a manifest that fails to parse anywhere changes nothing. */
  lemma UnparseableSkipped(x: seq<Manifest>, y: seq<Manifest>)
    ensures AllEntries(x + [Unparseable] + y) == AllEntries(x + y)
  {
    var xu := x + [Unparseable];
    assert xu[..|x|] == x;
    var ex := AllEntries(x);
    assert AllEntries(xu) == ex + [];
    assert ex + [] == ex;
    AllEntriesAppend(xu, y);
    AllEntriesAppend(x, y);
  }

  /** A name declared by the first manifest takes that manifest's version,
      whatever the later manifests say. */
  lemma FirstManifestWins(ms: seq<Manifest>, name: string)
    requires |ms| > 0 && name in Names(ManifestEntries(ms[0]))
    ensures name in Names(AllEntries(ms))
    ensures FirstVersion(AllEntries(ms), name) == FirstVersion(ManifestEntries(ms[0]), name)
  {
    assert ms == [ms[0]] + ms[1..];
    AllEntriesAppend([ms[0]], ms[1..]);
    assert [ms[0]][..0] == [];
    assert AllEntries([ms[0]]) == ManifestEntries(ms[0]);
    FirstVersionPrefix(ManifestEntries(ms[0]), AllEntries(ms[1..]), name);
  }
}
