/**
 * The fixed assessment taxonomy shared by both applications: seven categories,
 * each with a display name and a weight, and the sidebar's re-weighting, which
 * builds a dictionary of slider values and divides it by its total.
 *
 * Weights are held exactly, as whole hundredths (0.30 is 30).
 */
module Taxonomy {

  datatype Category =
    | TechnicalSkills
    | CommunicationSkills
    | BehavioralSkills
    | StrengthsWeaknesses
    | CulturalFit
    | CriticalThinking
    | DecisionMaking

  /** The categories in the order the dictionary lists them. */
  const Categories: seq<Category> := [TechnicalSkills, CommunicationSkills, BehavioralSkills,
                                      StrengthsWeaknesses, CulturalFit, CriticalThinking, DecisionMaking]

  function Name(c: Category): string {
    match c
    case TechnicalSkills => "Technical Skills"
    case CommunicationSkills => "Communication Skills"
    case BehavioralSkills => "Behavioral & Soft Skills"
    case StrengthsWeaknesses => "Strengths & Weaknesses"
    case CulturalFit => "Cultural Fit & Attitude"
    case CriticalThinking => "Problem-Solving & Critical Thinking"
    case DecisionMaking => "Decision-Making Ability"
  }

  /** The weight in hundredths. */
  function Weight(c: Category): nat {
    match c
    case TechnicalSkills => 30
    case CommunicationSkills => 20
    case BehavioralSkills => 15
    case StrengthsWeaknesses => 10
    case CulturalFit => 10
    case CriticalThinking => 10
    case DecisionMaking => 5
  }

  function WeightSum(cs: seq<Category>): nat {
    if cs == [] then 0 else Weight(cs[0]) + WeightSum(cs[1..])
  }

  /** Every category is listed exactly once. */
  lemma CategoriesListedOnce(c: Category)
    ensures c in Categories
    ensures forall i, j :: 0 <= i < j < |Categories| ==> Categories[i] != Categories[j]
  {
  }

  /** The weights make up the whole score. */
  lemma WeightsSumToOne()
    ensures WeightSum(Categories) == 100
  {
    assert Categories[1..][1..][1..][1..][1..][1..][1..] == [];
  }

  /** Technical skills weigh the most, decision making the least. */
  lemma WeightOrder(c: Category)
    ensures Weight(DecisionMaking) <= Weight(c) <= Weight(TechnicalSkills)
    ensures 0 < Weight(c)
  {
  }

  // ---------------------------------------------------------------------
  // Sidebar re-weighting
  // ---------------------------------------------------------------------

  /** `sum(d.values())` over the keys in dictionary order. */
  function SumOver(m: map<Category, real>, cs: seq<Category>): real
    requires forall i :: 0 <= i < |cs| ==> cs[i] in m
  {
    if cs == [] then 0.0 else m[cs[0]] + SumOver(m, cs[1..])
  }

  /** The sum of `f` over `cs`. */
  function SumOf(f: Category -> real, cs: seq<Category>): real {
    if cs == [] then 0.0 else f(cs[0]) + SumOf(f, cs[1..])
  }

  /** The slider total the sidebar divides by. */
  function SliderTotal(slider: Category -> real): real {
    SumOf(slider, Categories)
  }

  /** A dictionary holding `f`'s values sums as `f` does. */
  lemma {:induction false} SumOverIsSumOf(m: map<Category, real>, f: Category -> real, cs: seq<Category>)
    requires forall i :: 0 <= i < |cs| ==> cs[i] in m && m[cs[i]] == f(cs[i])
    ensures SumOver(m, cs) == SumOf(f, cs)
  {
    if cs != [] {
      SumOverIsSumOf(m, f, cs[1..]);
    }
  }

  /** Dividing every term by `t` divides the sum by it. */
  lemma {:induction false} SumOverScaled(m: map<Category, real>, n: map<Category, real>, cs: seq<Category>, t: real)
    requires t != 0.0
    requires forall i :: 0 <= i < |cs| ==> cs[i] in m && cs[i] in n && n[cs[i]] == m[cs[i]] / t
    ensures SumOver(n, cs) == SumOver(m, cs) / t
  {
    if cs != [] {
      SumOverScaled(m, n, cs[1..], t);
      var a, b := m[cs[0]], SumOver(m, cs[1..]);
      assert a / t + b / t == (a + b) / t;
    }
  }

  /** Where `c` sits in the dictionary. */
  function Index(c: Category): (j: nat)
    ensures j < |Categories| && Categories[j] == c
  {
    match c
    case TechnicalSkills => 0
    case CommunicationSkills => 1
    case BehavioralSkills => 2
    case StrengthsWeaknesses => 3
    case CulturalFit => 4
    case CriticalThinking => 5
    case DecisionMaking => 6
  }

  /** Fills `custom_weights` with one slider value per category, in dictionary order. */
  method ReadSliders(slider: Category -> real) returns (weights: map<Category, real>)
    ensures forall c :: c in weights && weights[c] == slider(c)
    ensures SumOver(weights, Categories) == SliderTotal(slider)
  {
    weights := map[];
    for i := 0 to |Categories|
      invariant forall j :: 0 <= j < i ==> Categories[j] in weights && weights[Categories[j]] == slider(Categories[j])
    {
      weights := weights[Categories[i] := slider(Categories[i])];
    }
    forall c ensures c in weights && weights[c] == slider(c) {
      var j := Index(c);
    }
    SumOverIsSumOf(weights, slider, Categories);
  }

  /** Divides every entry of `weights` by `total`, one key at a time. */
  method DivideAll(weights: map<Category, real>, total: real) returns (divided: map<Category, real>)
    requires total != 0.0
    requires forall c :: c in weights
    ensures forall c :: c in divided && divided[c] == weights[c] / total
    ensures SumOver(divided, Categories) == SumOver(weights, Categories) / total
  {
    CategoriesListedOnce(TechnicalSkills);
    divided := weights;
    for i := 0 to |Categories|
      invariant forall c :: c in divided
      invariant forall j :: 0 <= j < |Categories| ==>
                  divided[Categories[j]] == if j < i then weights[Categories[j]] / total else weights[Categories[j]]
    {
      var c := Categories[i];
      divided := divided[c := divided[c] / total];
    }
    forall c ensures divided[c] == weights[c] / total {
      var j := Index(c);
    }
    SumOverScaled(weights, divided, Categories, total);
  }

  /**
   * Builds `custom_weights` from the sliders, then, when the total is positive,
   * divides every entry by it in place; otherwise the slider values stay as they are.
   */
  method NormaliseWeights(slider: Category -> real) returns (weights: map<Category, real>)
    ensures forall c :: c in weights
    ensures SliderTotal(slider) > 0.0 ==> forall c :: weights[c] == slider(c) / SliderTotal(slider)
    ensures SliderTotal(slider) <= 0.0 ==> forall c :: weights[c] == slider(c)
    ensures SliderTotal(slider) > 0.0 ==> SumOver(weights, Categories) == 1.0
  {
    weights := ReadSliders(slider);
    var total := SumOver(weights, Categories);
    if total > 0.0 {
      weights := DivideAll(weights, total);
      assert total / total == 1.0;
    }
  }

  /** Normalising keeps the sliders' proportions: each pair of weights has the sliders' ratio. */
  lemma NormalisedRatios(slider: Category -> real, weights: map<Category, real>, a: Category, b: Category)
    requires SliderTotal(slider) > 0.0
    requires a in weights && b in weights
    requires weights[a] == slider(a) / SliderTotal(slider) && weights[b] == slider(b) / SliderTotal(slider)
    ensures weights[a] * slider(b) == weights[b] * slider(a)
  {
    CrossRatio(slider(a), slider(b), SliderTotal(slider));
  }

  lemma CrossRatio(x: real, y: real, t: real)
    requires t != 0.0
    ensures (x / t) * y == (y / t) * x
  {
    assert (x / t) * y == x * y / t;
    assert (y / t) * x == x * y / t;
  }

  /** The sliders' initial positions, the taxonomy weights, already total 1. */
  function DefaultSlider(c: Category): real {
    Weight(c) as real / 100.0
  }

  /** So the sidebar leaves untouched sliders where they are. */
  lemma DefaultsAreNormalised()
    ensures SliderTotal(DefaultSlider) == 1.0
    ensures forall c :: DefaultSlider(c) / SliderTotal(DefaultSlider) == DefaultSlider(c)
  {
    DefaultSum(Categories);
    WeightsSumToOne();
  }

  lemma {:induction false} DefaultSum(cs: seq<Category>)
    ensures SumOf(DefaultSlider, cs) == WeightSum(cs) as real / 100.0
  {
    if cs != [] {
      DefaultSum(cs[1..]);
    }
  }
}
