/**
 * The fuzzy matcher the resolver calls, `rapidfuzz.process.extractOne`.
 * Its scorer (WRatio) is a foreign library and stays abstract: any function
 * from (query, choice) to a real score between 0 and 100.  What is modelled is the
 * selection rule: the first choice, in list order, whose score is the
 * largest.
 */
module Fuzzy {

  /** A similarity score as the scorer reports it (a float in 0..100). */
  type Percent = r: real | 0.0 <= r <= 100.0

  /** The scorer `extractOne` applies to the query and each choice. */
  type Scorer = (string, string) -> Percent

  /** `b` is the first position of `choices` whose score is the maximum. */
  ghost predicate IsFirstBest(scorer: Scorer, query: string, choices: seq<string>, b: nat) {
    && b < |choices|
    && (forall i :: 0 <= i < |choices| ==> scorer(query, choices[i]) <= scorer(query, choices[b]))
    && (forall i :: 0 <= i < b ==> scorer(query, choices[i]) < scorer(query, choices[b]))
  }

  /** The position of the choice `extractOne` returns for a nonempty list:
      it keeps the current best and replaces it only by a strictly higher
      score, so ties go to the earliest choice. */
  function BestIndex(scorer: Scorer, query: string, choices: seq<string>): (k: nat)
    requires |choices| > 0
    ensures k < |choices|
    ensures forall i :: 0 <= i < |choices| ==> scorer(query, choices[i]) <= scorer(query, choices[k])
    ensures forall i :: 0 <= i < k ==> scorer(query, choices[i]) < scorer(query, choices[k])
    decreases |choices|
  {
    if |choices| == 1 then 0
    else
      var k := BestIndex(scorer, query, choices[..|choices| - 1]);
      if scorer(query, choices[|choices| - 1]) > scorer(query, choices[k]) then |choices| - 1 else k
  }

  /** The first best choice is unique, so the selection is exactly it. */
  lemma BestIndexIsFirstBest(scorer: Scorer, query: string, choices: seq<string>, b: nat)
    requires |choices| > 0
    ensures IsFirstBest(scorer, query, choices, b) <==> b == BestIndex(scorer, query, choices)
  {
  }
}
