/**
 * The recommendations of the analytics view: every category scored below 60,
 * or below 75 when its weight exceeds 0.15, becomes a recommendation whose
 * impact is its weight times the distance to the threshold; the list is sorted
 * by impact, largest first (a stable sort), and the first five are shown.
 *
 * Impacts are in hundredths of a point, so `weight * (60 - score) > 5` is
 * `Weight(c) * (60 - score) > 500`.
 */
module Recommendations {
  import opened Text
  import opened Taxonomy

  const MaxShown: nat := 5

  datatype Priority = High | Medium

  datatype Recommendation = Recommendation(category: Category, score: int, impact: int,
                                           priority: Priority, suggestion: string)

  function FocusSuggestion(c: Category): string {
    "Focus on improving " + Lower(Name(c)) + " as it significantly " + "impacts the overall assessment."
  }

  function EnhanceSuggestion(c: Category): string {
    "Enhance " + Lower(Name(c)) + " skills to reach the next " + "performance level."
  }

  /** The rule for one category and its score. */
  function Recommend(c: Category, score: int): Option<Recommendation> {
    if score < 60 then
      var impact := Weight(c) * (60 - score);
      Some(Recommendation(c, score, impact, if impact > 500 then High else Medium, FocusSuggestion(c)))
    else if score < 75 && Weight(c) > 15 then
      Some(Recommendation(c, score, Weight(c) * (75 - score), Medium, EnhanceSuggestion(c)))
    else None
  }

  /**
   * Which categories get a recommendation: every one below 60, and between 60 and 74 only
   * the two heavy ones, technical and communication skills. A recommendation describes its
   * category and score and has a positive impact.
   */
  lemma RecommendedExactly(c: Category, score: int)
    ensures Recommend(c, score).Some? <==>
              score < 60 || (score < 75 && (c == TechnicalSkills || c == CommunicationSkills))
    ensures Recommend(c, score).Some? ==>
              var r := Recommend(c, score).value;
              r.category == c && r.score == score && r.impact > 0
  {
    WeightOrder(c);
  }

  /** The score below which each category's recommendation is high priority. */
  function HighPriorityBelow(c: Category): int {
    match c
    case TechnicalSkills => 44
    case CommunicationSkills => 35
    case BehavioralSkills => 27
    case StrengthsWeaknesses => 10
    case CulturalFit => 10
    case CriticalThinking => 10
    case DecisionMaking => -40
  }

  /**
   * High priority, per category: a recommendation is high priority exactly when the score is
   * below the category's threshold, so decision making is never high priority for a score
   * in 0..100, and nothing scored 60 or more is.
   */
  lemma HighPriorityExactly(c: Category, score: int)
    ensures (Recommend(c, score).Some? && Recommend(c, score).value.priority == High)
              <==> score < HighPriorityBelow(c)
    ensures HighPriorityBelow(c) <= 60
  {
    if score < 60 {
      var d := 60 - score;
      match c
      case TechnicalSkills => assert 30 * d > 500 <==> d >= 17;
      case CommunicationSkills => assert 20 * d > 500 <==> d >= 26;
      case BehavioralSkills => assert 15 * d > 500 <==> d >= 34;
      case StrengthsWeaknesses => assert 10 * d > 500 <==> d >= 51;
      case CulturalFit => assert 10 * d > 500 <==> d >= 51;
      case CriticalThinking => assert 10 * d > 500 <==> d >= 51;
      case DecisionMaking => assert 5 * d > 500 <==> d >= 101;
    }
  }

  /** What `f` makes of each element of `s`, in order, skipping those it makes nothing of. */
  function Collect<T, U>(f: T -> Option<U>, s: seq<T>): seq<U> {
    if s == [] then []
    else
      Collect(f, s[..|s| - 1]) +
        match f(s[|s| - 1])
        case Some(r) => [r]
        case None => []
  }

  /** An item is collected exactly when `f` makes it of some element. */
  lemma CollectedExactly<T, U>(f: T -> Option<U>, s: seq<T>, r: U)
    ensures r in Collect(f, s) <==> exists i :: 0 <= i < |s| && f(s[i]) == Some(r)
  {
    if r in Collect(f, s) {
      CollectedFrom(f, s, r);
    }
    if exists i :: 0 <= i < |s| && f(s[i]) == Some(r) {
      var i :| 0 <= i < |s| && f(s[i]) == Some(r);
      CollectedOf(f, s, i, r);
    }
  }

  lemma {:induction false} CollectedFrom<T, U>(f: T -> Option<U>, s: seq<T>, r: U)
    requires r in Collect(f, s)
    ensures exists i :: 0 <= i < |s| && f(s[i]) == Some(r)
  {
    var n := |s| - 1;
    var init := s[..n];
    if r in Collect(f, init) {
      CollectedFrom(f, init, r);
      var i :| 0 <= i < |init| && f(init[i]) == Some(r);
      assert s[i] == init[i];
    } else {
      assert f(s[n]) == Some(r);
    }
  }

  lemma {:induction false} CollectedOf<T, U>(f: T -> Option<U>, s: seq<T>, i: nat, r: U)
    requires i < |s| && f(s[i]) == Some(r)
    ensures r in Collect(f, s)
  {
    var n := |s| - 1;
    if i < n {
      var init := s[..n];
      assert init[i] == s[i];
      CollectedOf(f, init, i, r);
    }
  }

  /** The rule applied to one `(category, score)` entry of the scores. */
  function Rule(entry: (Category, int)): Option<Recommendation> {
    Recommend(entry.0, entry.1)
  }

  /** The recommendations in the order the categories are visited. */
  function Candidates(scores: seq<(Category, int)>): seq<Recommendation> {
    Collect(Rule, scores)
  }

  /** A recommendation is among the candidates exactly when some entry's score triggers it. */
  lemma CandidatesAreRecommended(scores: seq<(Category, int)>, r: Recommendation)
    ensures r in Candidates(scores) <==>
              exists i :: 0 <= i < |scores| && Recommend(scores[i].0, scores[i].1) == Some(r)
  {
    CollectedExactly(Rule, scores, r);
  }

  // ---------------------------------------------------------------------
  // sort(key=impact, reverse=True): a stable sort, largest impact first
  // ---------------------------------------------------------------------

  predicate SortedByImpact(s: seq<Recommendation>) {
    forall i, j :: 0 <= i < j < |s| ==> s[i].impact >= s[j].impact
  }

  /** Puts `x` before the first element whose impact does not exceed its own. */
  function Insert(x: Recommendation, t: seq<Recommendation>): seq<Recommendation> {
    if t == [] || x.impact >= t[0].impact then [x] + t else [t[0]] + Insert(x, t[1..])
  }

  function SortByImpact(s: seq<Recommendation>): seq<Recommendation> {
    if s == [] then [] else Insert(s[0], SortByImpact(s[1..]))
  }

  /** The elements of impact `v`, in order. */
  function WithImpact(s: seq<Recommendation>, v: int): seq<Recommendation> {
    if s == [] then [] else (if s[0].impact == v then [s[0]] else []) + WithImpact(s[1..], v)
  }

  /** Putting an element no smaller than all of a sorted list in front keeps it sorted. */
  lemma ConsSorted(y: Recommendation, s: seq<Recommendation>)
    requires SortedByImpact(s)
    requires forall k :: 0 <= k < |s| ==> s[k].impact <= y.impact
    ensures SortedByImpact([y] + s)
  {
    var r := [y] + s;
    forall i, j | 0 <= i < j < |r| ensures r[i].impact >= r[j].impact {
      assert r[j] == s[j - 1];
      if i > 0 {
        assert r[i] == s[i - 1];
      }
    }
  }

  /** Inserting adds `x` and loses nothing. */
  lemma {:induction false} InsertPermutes(x: Recommendation, t: seq<Recommendation>)
    ensures multiset(Insert(x, t)) == multiset([x] + t)
  {
    if t != [] && x.impact < t[0].impact {
      InsertPermutes(x, t[1..]);
      assert t == [t[0]] + t[1..];
    }
  }

  lemma {:induction false} InsertFacts(x: Recommendation, t: seq<Recommendation>)
    requires SortedByImpact(t)
    ensures multiset(Insert(x, t)) == multiset([x] + t)
    ensures SortedByImpact(Insert(x, t))
  {
    InsertPermutes(x, t);
    if t == [] || x.impact >= t[0].impact {
      ConsSorted(x, t);
    } else {
      var y, tl := t[0], t[1..];
      var rest := Insert(x, tl);
      assert SortedByImpact(tl);
      InsertFacts(x, tl);
      assert Insert(x, t) == [y] + rest;
      forall k | 0 <= k < |rest| ensures rest[k].impact <= y.impact {
        assert rest[k] in multiset([x] + tl);
        if rest[k] != x {
          assert rest[k] in tl;
          var m :| 0 <= m < |tl| && tl[m] == rest[k];
          assert t[m + 1] == rest[k];
        }
      }
      ConsSorted(y, rest);
    }
  }

  /** The elements of impact `v` of `[e] + s`. */
  lemma WithImpactCons(e: Recommendation, s: seq<Recommendation>, v: int)
    ensures WithImpact([e] + s, v) == (if e.impact == v then [e] else []) + WithImpact(s, v)
  {
    assert ([e] + s)[1..] == s;
  }

  /** Inserting keeps the relative order of equal impacts, with `x` ahead of its equals. */
  lemma {:induction false} InsertStable(x: Recommendation, t: seq<Recommendation>, v: int)
    ensures WithImpact(Insert(x, t), v) == WithImpact([x] + t, v)
  {
    if t != [] && x.impact < t[0].impact {
      var y, rest := t[0], t[1..];
      var ex := if x.impact == v then [x] else [];
      var ey := if y.impact == v then [y] else [];
      var w := WithImpact(rest, v);
      calc {
        WithImpact(Insert(x, t), v);
        == { assert Insert(x, t) == [y] + Insert(x, rest); WithImpactCons(y, Insert(x, rest), v); }
        ey + WithImpact(Insert(x, rest), v);
        == { InsertStable(x, rest, v); }
        ey + WithImpact([x] + rest, v);
        == { WithImpactCons(x, rest, v); }
        ey + (ex + w);
        == { SwapEmpty(ey, ex, w); }
        ex + (ey + w);
        == { WithImpactCons(y, rest, v); assert t == [y] + rest; }
        ex + WithImpact(t, v);
        == { WithImpactCons(x, t, v); }
        WithImpact([x] + t, v);
      }
    }
  }

  lemma SwapEmpty(a: seq<Recommendation>, b: seq<Recommendation>, w: seq<Recommendation>)
    requires a == [] || b == []
    ensures a + (b + w) == b + (a + w)
  {
    if a == [] {
      assert a + (b + w) == b + w == b + (a + w);
    } else {
      assert a + (b + w) == a + w == b + (a + w);
    }
  }

  /** The sort orders by impact, largest first. */
  lemma {:induction false} SortSorted(s: seq<Recommendation>)
    ensures SortedByImpact(SortByImpact(s))
    ensures multiset(SortByImpact(s)) == multiset(s)
  {
    if s != [] {
      SortSorted(s[1..]);
      InsertFacts(s[0], SortByImpact(s[1..]));
      assert s == [s[0]] + s[1..];
    }
  }

  /** The sort is stable: recommendations of equal impact stay in the order they were made. */
  lemma {:induction false} SortStable(s: seq<Recommendation>, v: int)
    ensures WithImpact(SortByImpact(s), v) == WithImpact(s, v)
  {
    if s != [] {
      SortStable(s[1..], v);
      InsertStable(s[0], SortByImpact(s[1..]), v);
      WithImpactCons(s[0], SortByImpact(s[1..]), v);
      WithImpactCons(s[0], s[1..], v);
      assert s == [s[0]] + s[1..];
    }
  }

  /** The first `k` of a sorted list have at least the impact of any left out. */
  lemma TopDominatesRest(sorted: seq<Recommendation>, k: nat)
    requires SortedByImpact(sorted) && k <= |sorted|
    ensures forall r, q :: r in sorted[..k] && q in multiset(sorted) - multiset(sorted[..k]) ==>
              q.impact <= r.impact
  {
    var top, rest := sorted[..k], sorted[k..];
    LeftOutIsRest(sorted, k);
    forall r, q | r in top && q in multiset(sorted) - multiset(top) ensures q.impact <= r.impact {
      assert q in rest;
      var i :| 0 <= i < k && top[i] == r;
      var m :| 0 <= m < |rest| && rest[m] == q;
      assert sorted[i] == r && sorted[k + m] == q;
    }
  }

  /** What the first `k` leave out of a list is the rest of it. */
  lemma LeftOutIsRest(s: seq<Recommendation>, k: nat)
    requires k <= |s|
    ensures multiset(s) - multiset(s[..k]) == multiset(s[k..])
  {
    assert s == s[..k] + s[k..];
  }

  /** `s[:k]`. */
  function Take(s: seq<Recommendation>, k: nat): (r: seq<Recommendation>)
    ensures |r| == if |s| < k then |s| else k
    ensures r == s[..|r|]
  {
    if |s| <= k then s else s[..k]
  }

  /** The `for` loop that appends each recommendation the rule makes. */
  method CollectRecommendations(scores: seq<(Category, int)>) returns (recommendations: seq<Recommendation>)
    ensures recommendations == Candidates(scores)
  {
    recommendations := [];
    for i := 0 to |scores|
      invariant recommendations == Candidates(scores[..i])
    {
      assert scores[..i + 1][..i] == scores[..i];
      var (c, score) := scores[i];
      match Recommend(c, score)
      case Some(r) => recommendations := recommendations + [r];
      case None =>
    }
    assert scores[..|scores|] == scores;
  }

  /**
   * Collects the recommendations, sorts them by impact, largest first, and keeps the
   * first five: those shown are a sorted sub-multiset of the candidates, and none left
   * out has a larger impact than one shown.
   */
  method BuildRecommendations(scores: seq<(Category, int)>) returns (shown: seq<Recommendation>)
    ensures shown == Take(SortByImpact(Candidates(scores)), MaxShown)
    ensures |shown| == if |Candidates(scores)| < MaxShown then |Candidates(scores)| else MaxShown
    ensures SortedByImpact(shown)
    ensures multiset(shown) <= multiset(Candidates(scores))
    ensures forall r, q :: r in shown && q in multiset(Candidates(scores)) - multiset(shown) ==>
              q.impact <= r.impact
  {
    var recommendations := CollectRecommendations(scores);
    ghost var made := recommendations;
    recommendations := SortByImpact(recommendations);
    shown := Take(recommendations, MaxShown);
    TopOfSorted(made, shown);
  }

  /** The facts about the first five of the sorted candidates. */
  lemma TopOfSorted(made: seq<Recommendation>, shown: seq<Recommendation>)
    requires shown == Take(SortByImpact(made), MaxShown)
    ensures |shown| == if |made| < MaxShown then |made| else MaxShown
    ensures SortedByImpact(shown)
    ensures multiset(shown) <= multiset(made)
    ensures forall r, q :: r in shown && q in multiset(made) - multiset(shown) ==> q.impact <= r.impact
  {
    var sorted := SortByImpact(made);
    SortSorted(made);
    var k := |shown|;
    assert shown == sorted[..k];
    assert k == if |made| < MaxShown then |made| else MaxShown by {
      assert |multiset(sorted)| == |multiset(made)|;
    }
    PrefixSorted(sorted, k);
    LeftOutIsRest(sorted, k);
    TopDominatesRest(sorted, k);
  }

  /** A prefix of a sorted list is sorted. */
  lemma PrefixSorted(s: seq<Recommendation>, k: nat)
    requires SortedByImpact(s) && k <= |s|
    ensures SortedByImpact(s[..k])
  {
    forall i, j | 0 <= i < j < k ensures s[..k][i].impact >= s[..k][j].impact {
      assert s[..k][i] == s[i] && s[..k][j] == s[j];
    }
  }
}
