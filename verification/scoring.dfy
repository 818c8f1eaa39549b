/** Relevance scoring (convex/projects.ts, researchDependencies and
    updateDependencyScores): the language model's reply text is narrowed to
    a JSON candidate, parsed (parsing is an input of the model), and turned
    into clamped (relevance, niche) pairs per package name. */
module Scoring {
  import opened Common

  /** The first index of `c`. */
  function IndexOf(s: string, c: char): (r: Option<nat>)
    ensures r.Some? ==> r.value < |s| && s[r.value] == c && forall j :: 0 <= j < r.value ==> s[j] != c
    ensures r.None? ==> forall j :: 0 <= j < |s| ==> s[j] != c
  {
    if s == [] then None
    else if s[0] == c then Some(0)
    else match IndexOf(s[1..], c)
      case None => None
      case Some(j) => Some(j + 1)
  }

  /** The last index of `c`. */
  function LastIndexOf(s: string, c: char): (r: Option<nat>)
    ensures r.Some? ==> r.value < |s| && s[r.value] == c && forall j :: r.value < j < |s| ==> s[j] != c
    ensures r.None? ==> forall j :: 0 <= j < |s| ==> s[j] != c
  {
    if s == [] then None
    else if s[|s| - 1] == c then Some(|s| - 1)
    else LastIndexOf(s[..|s| - 1], c)
  }

  /** The end of the run of white space that starts at `i`. */
  function SkipSpaceForward(s: string, i: nat): (j: nat)
    requires i <= |s|
    ensures i <= j <= |s|
    ensures forall k :: i <= k < j ==> IsJsSpace(s[k])
    ensures j == |s| || !IsJsSpace(s[j])
    decreases |s| - i
  {
    if i < |s| && IsJsSpace(s[i]) then SkipSpaceForward(s, i + 1) else i
  }

  /** The start of the run of white space that ends at `j`, not going below `lo`. */
  function SkipSpaceBackward(s: string, lo: nat, j: nat): (i: nat)
    requires lo <= j <= |s|
    ensures lo <= i <= j
    ensures forall k :: i <= k < j ==> IsJsSpace(s[k])
    ensures i == lo || !IsJsSpace(s[i - 1])
  {
    if j > lo && IsJsSpace(s[j - 1]) then SkipSpaceBackward(s, lo, j - 1) else j
  }

  /** `String.prototype.trim`: the longest slice without white space at either end. */
  function Trim(s: string): (r: string)
    ensures exists a, b :: 0 <= a <= b <= |s| && r == s[a..b] && IsSpaceBefore(s, a) && IsSpaceFrom(s, b)
    ensures r == [] || (!IsJsSpace(r[0]) && !IsJsSpace(r[|r| - 1]))
  {
    var a := SkipSpaceForward(s, 0);
    var b := SkipSpaceBackward(s, a, |s|);
    assert IsSpaceBefore(s, a) && IsSpaceFrom(s, b);
    s[a..b]
  }

  predicate IsSpaceBefore(s: string, a: nat)
    requires a <= |s|
  {
    forall k :: 0 <= k < a ==> IsJsSpace(s[k])
  }

  predicate IsSpaceFrom(s: string, b: nat)
    requires b <= |s|
  {
    forall k :: b <= k < |s| ==> IsJsSpace(s[k])
  }

  /** The slice from the first "{" to the last "}", when that "}" comes after the "{". */
  function BraceSlice(s: string): Option<string> {
    match (IndexOf(s, '{'), LastIndexOf(s, '}'))
    case (Some(a), Some(b)) => if b > a then Some(s[a..b + 1]) else None
    case _ => None
  }

  /** `extractJson`: the body of the first ```json fence (the tag matched
      case-insensitively, the body ending at the next ```), trimmed;
      otherwise the brace slice; otherwise nothing. Removing the opening tag
      and then the first ``` from the matched fence leaves exactly the text
      between them, because the fence ends at the first ``` after the tag. */
  function ExtractJson(s: string): Option<string> {
    match FindFrom(s, "```json", 0)
    case Some(i) =>
      (match FindFrom(s, "```", i + 7)
       case Some(k) => Some(Trim(s[i + 7..k]))
       case None => BraceSlice(s))
    case None => BraceSlice(s)
  }

  /** The text handed to the parser: the extracted candidate, or else the reply itself. */
  function JsonText(reply: string): string {
    ExtractJson(reply).OrElse(reply)
  }

  /** Whether `s` holds an opening tag at `i` followed later by a closing fence. */
  ghost predicate HasFence(s: string) {
    exists i, k :: MatchesAt(s, i, "```json") && i + 7 <= k && MatchesAt(s, k, "```")
  }

  /** With a fence whose tag is the first tag and whose closing ``` is the
      first after it, the result is the trimmed text in between. */
  lemma ExtractJsonFenced(s: string, i: nat, k: nat)
    requires MatchesAt(s, i, "```json") && forall j :: 0 <= j < i ==> !MatchesAt(s, j, "```json")
    requires i + 7 <= k && MatchesAt(s, k, "```") && forall j :: i + 7 <= j < k ==> !MatchesAt(s, j, "```")
    ensures ExtractJson(s) == Some(Trim(s[i + 7..k]))
  {
    var first := FindFrom(s, "```json", 0);
    assert first.Some? && first.value == i;
    var close := FindFrom(s, "```", i + 7);
    assert close.Some? && close.value == k;
  }

  /** Without a complete fence, the result is the slice from the first "{"
      to the last "}" when the latter comes after the former. */
  lemma ExtractJsonBraces(s: string, a: nat, b: nat)
    requires !HasFence(s)
    requires a < b < |s| && s[a] == '{' && s[b] == '}'
    requires forall j :: 0 <= j < a ==> s[j] != '{'
    requires forall j :: b < j < |s| ==> s[j] != '}'
    ensures ExtractJson(s) == Some(s[a..b + 1])
  {
    ExtractJsonNoFence(s);
    assert IndexOf(s, '{') == Some(a);
    assert LastIndexOf(s, '}') == Some(b);
  }

  /** Without a complete fence, and with no "{" before a later "}", the
      result is nothing, so the caller parses the raw text. */
  lemma ExtractJsonNothing(s: string)
    requires !HasFence(s)
    requires forall a, b :: 0 <= a < b < |s| && s[a] == '{' ==> s[b] != '}'
    ensures ExtractJson(s) == None
    ensures JsonText(s) == s
  {
    ExtractJsonNoFence(s);
    var a, b := IndexOf(s, '{'), LastIndexOf(s, '}');
    if a.Some? && b.Some? {
      assert b.value <= a.value;
    }
  }

  lemma ExtractJsonNoFence(s: string)
    requires !HasFence(s)
    ensures ExtractJson(s) == BraceSlice(s)
  {
    match FindFrom(s, "```json", 0)
    case None =>
    case Some(i) =>
      assert FindFrom(s, "```", i + 7).None?;
  }

  // ---- Scores -------------------------------------------------------------

  /** A clamped (relevance, niche) pair. */
  datatype Score = Score(relevance: real, niche: real)

  /** `Number(v?.relevance)` and `Number(v?.niche)` of one reply entry;
      `None` stands for NaN. */
  datatype ScoreField = ScoreField(relevance: Option<real>, niche: Option<real>)

  /** The outcome of `JSON.parse` on the candidate text: a failure, a value
      that is not an object (so nothing is scored), or an object's entries
      in order. */
  datatype Parsed =
    | ParseFailure
    | NotAnObject
    | ParsedObject(entries: seq<(string, ScoreField)>)

  function MinReal(a: real, b: real): real { if a <= b then a else b }
  function MaxReal(a: real, b: real): real { if a <= b then b else a }

  /** `Math.min(1, Math.max(0, x))`. */
  function Clamp(x: real): (r: real)
    ensures 0.0 <= r <= 1.0
    ensures 0.0 <= x <= 1.0 ==> r == x
    ensures x <= 0.0 ==> r == 0.0
    ensures 1.0 <= x ==> r == 1.0
  {
    MinReal(1.0, MaxReal(0.0, x))
  }

  /** The composite signal of a pair of raw scores. */
  function Signal(relevance: real, niche: real): real {
    Clamp(relevance) * Clamp(niche)
  }

  /** The signal lies in [0, 1] and never exceeds either clamped score. */
  lemma SignalInUnit(relevance: real, niche: real)
    ensures 0.0 <= Signal(relevance, niche) <= 1.0
    ensures Signal(relevance, niche) <= Clamp(relevance) && Signal(relevance, niche) <= Clamp(niche)
  {
    var a, b := Clamp(relevance), Clamp(niche);
    ProductInUnit(a, b);
    calc {
      Signal(relevance, niche);
    ==
      a * b;
    <=
      b;
    ==
      Clamp(niche);
    }
    calc {
      Signal(relevance, niche);
    ==
      a * b;
    <=
      a;
    ==
      Clamp(relevance);
    }
  }

  lemma ProductInUnit(a: real, b: real)
    requires 0.0 <= a <= 1.0 && 0.0 <= b <= 1.0
    ensures 0.0 <= a * b <= 1.0 && a * b <= a && a * b <= b
  {
    MulNonNegative(a, b);
    MulNonNegative(a, 1.0 - b);
    MulNonNegative(1.0 - a, b);
    assert a * (1.0 - b) == a - a * b;
    assert (1.0 - a) * b == b - a * b;
  }

  lemma MulNonNegative(x: real, y: real)
    requires 0.0 <= x && 0.0 <= y
    ensures 0.0 <= x * y
  {
  }

  /** Clamping twice is clamping once. */
  lemma ClampIdempotent(x: real)
    ensures Clamp(Clamp(x)) == Clamp(x)
  {
  }

  predicate Numeric(f: ScoreField) {
    f.relevance.Some? && f.niche.Some?
  }

  /** What the loop over the parsed object's entries accumulates: a numeric
      entry sets its name's clamped pair, a NaN entry is passed over. */
  function ObjectScores(entries: seq<(string, ScoreField)>): map<string, Score> {
    if entries == [] then map[]
    else
      var prev := ObjectScores(entries[..|entries| - 1]);
      var (name, f) := entries[|entries| - 1];
      if Numeric(f) then prev[name := Score(Clamp(f.relevance.value), Clamp(f.niche.value))] else prev
  }

  /** The scores handed to updateDependencyScores. A failed parse scores
      every analysable name (0, 0). */
  function ResponseScores(parsed: Parsed, depNames: seq<string>): map<string, Score> {
    match parsed
    case ParseFailure => map n | n in depNames :: Score(0.0, 0.0)
    case NotAnObject => map[]
    case ParsedObject(entries) => ObjectScores(entries)
  }

  /** The try/catch around `JSON.parse` and the loop that builds `scores`. */
  method ScoresFromResponse(parsed: Parsed, depNames: seq<string>) returns (scores: map<string, Score>)
    ensures scores == ResponseScores(parsed, depNames)
  {
    scores := map[];
    match parsed
    case ParseFailure =>
      scores := map n | n in depNames :: Score(0.0, 0.0);
    case NotAnObject =>
    case ParsedObject(entries) =>
      for i := 0 to |entries|
        invariant scores == ObjectScores(entries[..i])
      {
        assert entries[..i + 1][..i] == entries[..i];
        var (name, f) := entries[i];
        if f.relevance.Some? && f.niche.Some? {
          scores := scores[name := Score(Clamp(f.relevance.value), Clamp(f.niche.value))];
        }
      }
      assert entries[..|entries|] == entries;
  }

  /** Every stored pair lies in [0, 1]. */
  lemma {:induction false} ObjectScoresInRange(entries: seq<(string, ScoreField)>)
    ensures forall n :: n in ObjectScores(entries) ==>
      0.0 <= ObjectScores(entries)[n].relevance <= 1.0 && 0.0 <= ObjectScores(entries)[n].niche <= 1.0
  {
    if entries != [] {
      ObjectScoresInRange(entries[..|entries| - 1]);
    }
  }

  lemma ResponseScoresInRange(parsed: Parsed, depNames: seq<string>)
    ensures forall n :: n in ResponseScores(parsed, depNames) ==>
      0.0 <= ResponseScores(parsed, depNames)[n].relevance <= 1.0 &&
      0.0 <= ResponseScores(parsed, depNames)[n].niche <= 1.0
  {
    if parsed.ParsedObject? {
      ObjectScoresInRange(parsed.entries);
    }
  }

  /** A name is scored exactly when some entry for it is numeric. */
  lemma {:induction false} ObjectScoresKeys(entries: seq<(string, ScoreField)>, name: string)
    ensures name in ObjectScores(entries) <==>
      exists i :: 0 <= i < |entries| && entries[i].0 == name && Numeric(entries[i].1)
  {
    if entries != [] {
      var init := entries[..|entries| - 1];
      ObjectScoresKeys(init, name);
      if exists i :: 0 <= i < |init| && init[i].0 == name && Numeric(init[i].1) {
        var i :| 0 <= i < |init| && init[i].0 == name && Numeric(init[i].1);
        assert entries[i] == init[i];
      }
      if exists i :: 0 <= i < |entries| && entries[i].0 == name && Numeric(entries[i].1) {
        var i :| 0 <= i < |entries| && entries[i].0 == name && Numeric(entries[i].1);
        if i < |init| { assert init[i] == entries[i]; }
      }
    }
  }

  /** For a name carried by exactly one entry (object keys are unique): a NaN
      value leaves it unscored rather than zeroed, a numeric one stores the
      clamped pair. */
  lemma {:induction false} ObjectScoresEntry(entries: seq<(string, ScoreField)>, i: nat)
    requires i < |entries|
    requires forall j :: 0 <= j < |entries| && j != i ==> entries[j].0 != entries[i].0
    ensures entries[i].0 in ObjectScores(entries) <==> Numeric(entries[i].1)
    ensures Numeric(entries[i].1) ==>
      ObjectScores(entries)[entries[i].0] ==
        Score(Clamp(entries[i].1.relevance.value), Clamp(entries[i].1.niche.value))
  {
    var init := entries[..|entries| - 1];
    if i < |init| {
      forall j | 0 <= j < |init| && j != i ensures init[j].0 != init[i].0 {
        assert init[j] == entries[j];
      }
      ObjectScoresEntry(init, i);
    } else {
      ObjectScoresKeys(init, entries[i].0);
      forall j | 0 <= j < |init| ensures init[j].0 != entries[i].0 {
        assert init[j] == entries[j];
      }
    }
  }

  /** A failed parse scores every analysable name (0, 0) and nothing else. */
  lemma ParseFailureZeroes(depNames: seq<string>)
    ensures ResponseScores(ParseFailure, depNames).Keys == set n | n in depNames
    ensures forall n :: n in depNames ==> ResponseScores(ParseFailure, depNames)[n] == Score(0.0, 0.0)
  {
  }
}
