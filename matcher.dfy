/**
 * The position matcher of the report builder: whitespace normalisation, the
 * containment score between two position labels, and the choice of the
 * active appointment that fills a canonical position (exact label, then
 * normalised label, then best containment score above 0.8).
 *
 * Scores are tenths: 10, 9, 8 and 0 stand for 1.0, 0.9, 0.8 and 0, so the
 * acceptance test `score > 0.8` is `score > 8`.
 */
module Matcher {
  import opened Wrappers
  import opened Text
  import opened Cells

  /** One active appointment taken from the roster: who, which position label (trimmed), and when. */
  datatype Appointment = Appointment(name: Cell, position: string, period: string)

  /**
   * `str.replace(/\s+/g, '').trim()`: the label with all of its whitespace
   * removed. Deleting every whitespace run already leaves nothing for
   * `trim()` to strip (see NormalizeIsReplaceThenTrim).
   */
  function Normalize(s: string): (r: string)
    ensures forall i :: 0 <= i < |r| ==> r[i] !in JS_SPACE
  {
    Without(s, JS_SPACE)
  }

  /** The source's two steps, removal of whitespace runs and then `trim()`, give the same label. */
  lemma NormalizeIsReplaceThenTrim(s: string)
    ensures Trim(Without(s, JS_SPACE), JS_SPACE) == Normalize(s)
  {
    WithoutAbsent(Without(s, JS_SPACE), JS_SPACE);
    TrimTrimmed(Without(s, JS_SPACE), JS_SPACE);
  }

  /** Normalising twice changes nothing more than normalising once. */
  lemma NormalizeIdempotent(s: string)
    ensures Normalize(Normalize(s)) == Normalize(s)
  {
    WithoutAbsent(Normalize(s), JS_SPACE);
  }

  /** `calculateSimilarity(s1, s2)` in tenths: equality, then `n2` contains `n1`, then `n1` contains `n2`. */
  function Similarity(a: string, b: string): (score: int)
    ensures score == 0 || score == 8 || score == 9 || score == 10
  {
    var n1 := Normalize(a);
    var n2 := Normalize(b);
    if n1 == n2 then 10
    else if Contains(n2, n1) then 9
    else if Contains(n1, n2) then 8
    else 0
  }

  /** A label is as similar as can be to itself. */
  lemma SimilaritySelf(s: string)
    ensures Similarity(s, s) == 10
  {
  }

  lemma ContainsLength(s: string, p: string)
    requires Contains(s, p)
    ensures |p| <= |s|
  {
  }

  /** Two strings that contain each other are equal. */
  lemma MutualContainment(s: string, p: string)
    requires Contains(s, p) && Contains(p, s)
    ensures s == p
  {
    var i :| 0 <= i <= |s| - |p| && OccursAt(s, p, i);
    assert |s| == |p|;
    assert s[0..|p|] == s;
  }

  /**
   * The score is directional: when the second label properly contains the
   * first after normalisation, the pair scores 0.9 one way and 0.8 the other.
   */
  lemma SimilarityAsymmetric(a: string, b: string)
    requires Normalize(a) != Normalize(b) && Contains(Normalize(b), Normalize(a))
    ensures Similarity(a, b) == 9 && Similarity(b, a) == 8
  {
    if Contains(Normalize(a), Normalize(b)) {
      MutualContainment(Normalize(a), Normalize(b));
    }
  }

  /** The score passes the `> 0.8` bar exactly when the candidate's label contains the target's, after normalisation. */
  lemma SimilarityAccepts(target: string, candidate: string)
    ensures Similarity(target, candidate) > 8 <==> Contains(Normalize(candidate), Normalize(target))
  {
    if Normalize(target) == Normalize(candidate) {
      ContainsSelf(Normalize(target));
    }
  }

  /** Test of the first `find`: the appointment's label equals the target exactly. */
  function SamePosition(target: string): Appointment -> bool {
    (a: Appointment) => a.position == target
  }

  /** Test of the second `find`: the labels agree once normalised. */
  function SameNormalized(target: string): Appointment -> bool {
    (a: Appointment) => Normalize(a.position) == Normalize(target)
  }

  /** Test that picks the fuzzy winner: the candidate reaches the given score. */
  function Scores(target: string, score: int): Appointment -> bool {
    (a: Appointment) => Similarity(target, a.position) == score
  }

  /** The score of every appointment of `list` against `target`, in list order. */
  function ScoresOf(target: string, list: seq<Appointment>): (scores: seq<int>)
    ensures |scores| == |list|
    ensures forall j :: 0 <= j < |list| ==> scores[j] == Similarity(target, list[j].position)
  {
    seq(|list|, j requires 0 <= j < |list| => Similarity(target, list[j].position))
  }

  /** The largest of the first `n` scores, 0 when `n` is 0. */
  function MaxUpTo(xs: seq<int>, n: nat): (m: int)
    requires n <= |xs|
    ensures 0 <= m
    ensures forall j :: 0 <= j < n ==> xs[j] <= m
    ensures 0 < n && (forall j :: 0 <= j < n ==> 0 <= xs[j]) ==> exists j :: 0 <= j < n && xs[j] == m
  {
    if n == 0 then 0
    else
      var rest := MaxUpTo(xs, n - 1);
      if xs[n - 1] > rest then xs[n - 1] else rest
  }

  /** The highest score any appointment of `list` reaches against `target`. */
  function MaxScore(target: string, list: seq<Appointment>): int {
    MaxUpTo(ScoresOf(target, list), |list|)
  }

  /**
   * The position of the appointment `findBestMatch` returns, or None for
   * `null`: the first exact label, else the first label equal after
   * normalisation, else the first appointment reaching the maximal score,
   * provided that score exceeds 0.8.
   */
  function MatchIndex(target: string, list: seq<Appointment>): (r: Option<nat>)
    ensures r.Some? ==> r.value < |list|
  {
    var exact := Find(list, SamePosition(target));
    if exact.Some? then exact
    else
      var normalized := Find(list, SameNormalized(target));
      if normalized.Some? then normalized
      else if MaxScore(target, list) > 8 then Find(list, Scores(target, MaxScore(target, list)))
      else None
  }

  /** The appointment at an optional position. */
  function At(list: seq<Appointment>, k: Option<nat>): Option<Appointment>
    requires k.Some? ==> k.value < |list|
  {
    if k.Some? then Some(list[k.value]) else None
  }

  /**
   * `findBestMatch(targetPos, activeList)`: two searches, then a pass that
   * keeps the first candidate with a strictly higher score than any before it.
   */
  method FindBestMatch(target: string, list: seq<Appointment>) returns (r: Option<Appointment>)
    ensures r == At(list, MatchIndex(target, list))
  {
    var exact := Find(list, SamePosition(target));
    if exact.Some? {
      return Some(list[exact.value]);
    }
    var normalized := Find(list, SameNormalized(target));
    if normalized.Some? {
      return Some(list[normalized.value]);
    }
    var best, bestScore := BestCandidate(target, list);
    if bestScore > 8 {
      FindIsFirst(list, Scores(target, bestScore), best.value);
      r := Some(list[best.value]);
    } else {
      r := None;
    }
  }

  /**
   * The `forEach` pass of `findBestMatch`: the first appointment whose score
   * is strictly higher than every score before it and at least every score
   * after it, together with that score; None and 0 when every score is 0.
   */
  method BestCandidate(target: string, list: seq<Appointment>) returns (best: Option<nat>, bestScore: int)
    ensures bestScore == MaxScore(target, list)
    ensures best.None? <==> bestScore == 0
    ensures best.Some? ==> best.value < |list| && ScoresOf(target, list)[best.value] == bestScore
    ensures best.Some? ==> forall j :: 0 <= j < best.value ==> ScoresOf(target, list)[j] < bestScore
  {
    bestScore := 0;
    best := None;
    ghost var scores := ScoresOf(target, list);
    for i := 0 to |list|
      invariant bestScore == MaxUpTo(scores, i)
      invariant best.None? <==> bestScore == 0
      invariant best.Some? ==> best.value < i && scores[best.value] == bestScore
      invariant best.Some? ==> forall j :: 0 <= j < best.value ==> scores[j] < bestScore
    {
      var score := Similarity(target, list[i].position);
      assert score == scores[i];
      if score > bestScore {
        bestScore := score;
        best := Some(i);
      }
    }
  }

  /** A label that matches exactly wins over every other candidate, wherever it stands in the list. */
  lemma ExactMatchWins(target: string, list: seq<Appointment>, k: nat)
    requires k < |list| && list[k].position == target
    requires forall j :: 0 <= j < k ==> list[j].position != target
    ensures MatchIndex(target, list) == Some(k)
  {
    FindIsFirst(list, SamePosition(target), k);
  }

  /** Without an exact label, the first label equal after normalisation wins before any scoring. */
  lemma NormalizedMatchWins(target: string, list: seq<Appointment>, k: nat)
    requires forall j :: 0 <= j < |list| ==> list[j].position != target
    requires k < |list| && Normalize(list[k].position) == Normalize(target)
    requires forall j :: 0 <= j < k ==> Normalize(list[j].position) != Normalize(target)
    ensures MatchIndex(target, list) == Some(k)
  {
    FindIsFirst(list, SameNormalized(target), k);
  }

  /**
   * When neither search succeeds, the fuzzy pass returns the first candidate
   * whose normalised label contains the normalised target: no candidate then
   * scores 1.0, so the maximum is 0.9 exactly when such a candidate exists,
   * and a best score of 0.8 (the target merely contains the candidate) is
   * rejected.
   */
  lemma FuzzyMatchIsFirstContaining(target: string, list: seq<Appointment>, k: nat)
    requires forall j :: 0 <= j < |list| ==> Normalize(list[j].position) != Normalize(target)
    requires k < |list| && Contains(Normalize(list[k].position), Normalize(target))
    requires forall j :: 0 <= j < k ==> !Contains(Normalize(list[j].position), Normalize(target))
    ensures MatchIndex(target, list) == Some(k)
  {
    assert Find(list, SamePosition(target)) == None;
    assert Find(list, SameNormalized(target)) == None;
    forall j | 0 <= j < |list|
      ensures Similarity(target, list[j].position) <= 9
    {
    }
    assert Similarity(target, list[k].position) == 9;
    var m := MaxScore(target, list);
    assert m == 9;
    forall j | 0 <= j < k
      ensures Similarity(target, list[j].position) != 9
    {
      SimilarityAccepts(target, list[j].position);
    }
    FindIsFirst(list, Scores(target, 9), k);
  }

  /**
   * `findBestMatch` finds an appointment exactly when some active label
   * contains the target once both are normalised; otherwise it returns null.
   */
  lemma MatchFoundIff(target: string, list: seq<Appointment>)
    ensures MatchIndex(target, list).Some? <==>
            exists j :: 0 <= j < |list| && Contains(Normalize(list[j].position), Normalize(target))
  {
    var exact := Find(list, SamePosition(target));
    var normalized := Find(list, SameNormalized(target));
    if exact.Some? {
      ContainsSelf(Normalize(target));
      assert Contains(Normalize(list[exact.value].position), Normalize(target));
    } else if normalized.Some? {
      ContainsSelf(Normalize(target));
      assert Contains(Normalize(list[normalized.value].position), Normalize(target));
    } else {
      forall j | 0 <= j < |list|
        ensures Similarity(target, list[j].position) > 8 <==> Contains(Normalize(list[j].position), Normalize(target))
      {
        SimilarityAccepts(target, list[j].position);
      }
    }
  }

  /**
   * An empty target is contained in every label, so `findBestMatch('', list)`
   * hands back the first appointment of any non-empty list whose labels are
   * not blank: a canonical position without a label is given someone.
   */
  lemma EmptyTargetTakesFirst(target: string, list: seq<Appointment>)
    requires Normalize(target) == []
    requires list != []
    requires forall j :: 0 <= j < |list| ==> Normalize(list[j].position) != []
    ensures MatchIndex(target, list) == Some(0)
  {
    ContainsEmpty(Normalize(list[0].position));
    FuzzyMatchIsFirstContaining(target, list, 0);
  }
}
