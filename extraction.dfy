/**
 * The entity extractor: the relation "<e1> is past <e2>" / "<e1> is near
 * <e2>" read out of a stored answer, rendered either for one target entity
 * during a location query (`extract_location_info`) or as the two facts
 * written when an answer is learnt (the rendering part of
 * `extract_and_store_entities`).
 */
module Extraction {
  import opened Wrappers
  import opened Text
  import opened Patterns

  /** The two entity names of the first match of the relation pattern for
      `verb` in `answer`, each group stripped of surrounding whitespace. */
  function Relation(answer: string, verb: string): (p: Option<(string, string)>)
    ensures p.Some? ==> Trimmed(p.value.0) && Trimmed(p.value.1)
  {
    match SearchRelation(answer, verb)
    case None => None
    case Some((g1, g2)) => Some((Strip(g1), Strip(g2)))
  }

  /** A rendered fact sentence is ABOUT `target`: it starts with the target's
      name (compared in lower case) followed by one of the three connectives. */
  predicate Describes(sentence: string, target: string) {
    var n := |target|;
    && n <= |sentence|
    && Lower(sentence[..n]) == Lower(target)
    && (|| StartsWith(sentence[n..], " is past ")
        || StartsWith(sentence[n..], " is before ")
        || StartsWith(sentence[n..], " is near "))
  }

  /** One pattern's contribution to `extract_location_info`: the sentence
      about `target` when the target is one of the two names (the first name
      is compared first), or None when it is neither. */
  function RenderFor(pair: Option<(string, string)>, target: string, forward: string, backward: string): (r: Option<string>)
    requires forward == " is past " || forward == " is near "
    requires backward == " is before " || backward == " is near "
    ensures r.Some? ==> Describes(r.value, target)
  {
    match pair
    case None => None
    case Some((e1, e2)) =>
      if Lower(e1) == Lower(target) then
        var s := e1 + forward + e2;
        assert s[..|e1|] == e1 && s[|e1|..] == forward + e2;
        assert |e1| == |target|;
        Some(s)
      else if Lower(e2) == Lower(target) then
        var s := target + backward + e1;
        assert s[..|target|] == target && s[|target|..] == backward + e1;
        Some(s)
      else
        None
  }

  /** `pair` names `target` (in lower case) as one of its two entities. */
  predicate Names(pair: Option<(string, string)>, target: string) {
    pair.Some? && (Lower(pair.value.0) == Lower(target) || Lower(pair.value.1) == Lower(target))
  }

  /** `extract_location_info(question, answer, target)`: the "past" pattern is
      tried first; when it matches but names neither entity as the target, the
      "near" pattern is tried.  The question is not consulted. */
  function ExtractLocationInfo(question: string, answer: string, target: string): (r: Option<string>)
    // "past", target is the first name: the fact in the first name's own casing
    ensures var p := Relation(answer, "past");
      p.Some? && Lower(p.value.0) == Lower(target) ==>
        r == Some(p.value.0 + " is past " + p.value.1)
    // "past", target is only the second name: the inverse fact, in the target's casing
    ensures var p := Relation(answer, "past");
      p.Some? && Lower(p.value.0) != Lower(target) && Lower(p.value.1) == Lower(target) ==>
        r == Some(target + " is before " + p.value.0)
    // "past" does not name the target: whatever "near" gives
    ensures var p, q := Relation(answer, "past"), Relation(answer, "near");
      !Names(p, target) && q.Some? && Lower(q.value.0) == Lower(target) ==>
        r == Some(q.value.0 + " is near " + q.value.1)
    ensures var p, q := Relation(answer, "past"), Relation(answer, "near");
      !Names(p, target) && q.Some? && Lower(q.value.0) != Lower(target) && Lower(q.value.1) == Lower(target) ==>
        r == Some(target + " is near " + q.value.0)
    // nothing at all exactly when neither pattern names the target
    ensures r.None? <==> !Names(Relation(answer, "past"), target) && !Names(Relation(answer, "near"), target)
    // whatever is returned is a nonempty (so truthy) sentence about the target
    ensures r.Some? ==> Describes(r.value, target) && r.value != []
  {
    var viaPast := RenderFor(Relation(answer, "past"), target, " is past ", " is before ");
    if viaPast.Some? then viaPast
    else RenderFor(Relation(answer, "near"), target, " is near ", " is near ")
  }

  /** Two upserts in a row, `k1 := v1` and then `k2 := v2`: the second write
      wins when the keys coincide, and no other key changes. */
  function UpsertTwo(facts: map<string, string>, k1: string, v1: string, k2: string, v2: string): (r: map<string, string>)
    ensures r.Keys == facts.Keys + {k1, k2}
    ensures r[k2] == v2
    ensures k1 != k2 ==> r[k1] == v1
    ensures forall k :: k in facts && k != k1 && k != k2 ==> r[k] == facts[k]
  {
    facts[k1 := v1][k2 := v2]
  }

  /** The facts `extract_and_store_entities` leaves behind: the two upserts
      of the "past" pattern's names, first name first; the "near" pattern is
      not consulted. */
  function StoredFacts(facts: map<string, string>, answer: string): map<string, string>
  {
    match Relation(answer, "past")
    case None => facts
    case Some((e1, e2)) => UpsertTwo(facts, Lower(e1), e1 + " is past " + e2, Lower(e2), e2 + " is before " + e1)
  }

  /** Without a "past" match nothing is stored; with one, the second name's
      key ends with its "is before" sentence, the first name's key with its
      "is past" sentence unless the two keys coincide, and no other key
      changes. */
  lemma StoredFactsChanges(facts: map<string, string>, answer: string)
    ensures var r := StoredFacts(facts, answer);
      Relation(answer, "past").None? ==> r == facts
    ensures var r, p := StoredFacts(facts, answer), Relation(answer, "past");
      p.Some? ==>
        var k1, k2 := Lower(p.value.0), Lower(p.value.1);
        && r.Keys == facts.Keys + {k1, k2}
        && r[k2] == p.value.1 + " is before " + p.value.0
        && (k1 != k2 ==> r[k1] == p.value.0 + " is past " + p.value.1)
        && (forall k :: k in facts && k != k1 && k != k2 ==> r[k] == facts[k])
  {
  }

  /** Learning stores nothing for a "near" sentence, or for an answer with no
      relation at all: the "near" pattern is only read at question time. */
  lemma StoredFactsIgnoreNear(facts: map<string, string>, answer: string)
    requires !Contains(Lower(answer), "past")
    ensures StoredFacts(facts, answer) == facts
  {
    RelationHasVerb(answer, "past");
  }

  /** A relation is only read out of an answer that contains the verb. */
  lemma RelationHasVerb(answer: string, verb: string)
    ensures Relation(answer, verb).Some? ==> Contains(Lower(answer), verb)
  {
    if SearchRelation(answer, verb).Some? {
      SearchRelationHasVerb(answer, verb);
    }
  }

  /** The facts written at learning time are the sentences the on-demand
      extraction renders for the same entity, when the two names differ and
      the target is spelled as the second name itself. */
  lemma StoredFactsAgreeWithExtraction(facts: map<string, string>, question: string, answer: string, target: string)
    requires Relation(answer, "past").Some?
    requires var (e1, e2) := Relation(answer, "past").value;
      && Lower(e1) != Lower(e2)
      && (Lower(target) == Lower(e1) || target == e2)
    ensures Lower(target) in StoredFacts(facts, answer)
    ensures ExtractLocationInfo(question, answer, target) == Some(StoredFacts(facts, answer)[Lower(target)])
  {
  }

  lemma PastConnective(e1: string, e2: string)
    ensures e1 + " is " + "past" + " " + e2 == e1 + " is past " + e2
  {
    assert " is " + "past" + " " == " is past ";
  }

  lemma NearConnective(e1: string, e2: string)
    ensures e1 + " is " + "near" + " " + e2 == e1 + " is near " + e2
  {
    assert " is " + "near" + " " == " is near ";
  }

  /** The relation sentences the extractor renders, read back by `Relation`. */
  lemma RelationOfSentence(e1: string, verb: string, e2: string)
    requires IsName(e1) && IsName(e2) && NoTailIn(e2, verb)
    requires verb == "past" || verb == "near"
    ensures Relation(e1 + " is " + verb + " " + e2, verb) == Some((e1, e2))
  {
    RelationSentenceParses(e1, verb, e2);
    StripTrimmed(e1);
    StripTrimmed(e2);
  }

  /** Learning "<e1> is past <e2>" stores the "is past" sentence under the
      first name's key and the "is before" sentence under the second's. */
  lemma LearnedPastSentence(facts: map<string, string>, e1: string, e2: string)
    requires IsName(e1) && IsName(e2) && NoTailIn(e2, "past")
    ensures var r := StoredFacts(facts, e1 + " is past " + e2);
      && Lower(e1) in r && Lower(e2) in r
      && r[Lower(e2)] == e2 + " is before " + e1
      && (Lower(e1) != Lower(e2) ==> r[Lower(e1)] == e1 + " is past " + e2)
  {
    RelationOfSentence(e1, "past", e2);
    PastConnective(e1, e2);
  }

  /** A relation sentence read back for either of its entities. */
  lemma ExtractFromSentence(question: string, e1: string, verb: string, e2: string, target: string)
    requires IsName(e1) && IsName(e2) && NoTailIn(e2, verb)
    requires verb == "past" || (verb == "near" && !Names(Relation(e1 + " is near " + e2, "past"), target))
    requires Lower(target) == Lower(e1) || Lower(target) == Lower(e2)
    ensures var answer := e1 + " is " + verb + " " + e2;
      ExtractLocationInfo(question, answer, target) ==
        if Lower(target) == Lower(e1) then Some(e1 + " is " + verb + " " + e2)
        else if verb == "past" then Some(target + " is before " + e1)
        else Some(target + " is near " + e1)
  {
    RelationOfSentence(e1, verb, e2);
    if verb == "near" {
      NearConnective(e1, e2);
    } else {
      PastConnective(e1, e2);
    }
  }
}
