/**
 * The knowledge base of the chatbot: the `knowledge_base` collection of
 * question/answer pairs (`entries`, in the collection's iteration order) and
 * the `entity_relations` collection of location facts (`facts`, keyed by the
 * lower-cased entity name), with the three operations the HTTP layer calls:
 * `get_answer`, `add_knowledge` and `get_all_knowledge`.
 *
 * Each operation is a method of the class `KnowledgeBase` that is proved
 * equal to a pure function of the old state (`Resolve`, `Learn`,
 * `StoredFacts`); the properties of the service are lemmas about those
 * functions.
 */
module KnowledgeBase {
  import opened Wrappers
  import opened Text
  import opened Patterns
  import opened Fuzzy
  import opened Extraction

  /** A document of `knowledge_base` without its storage identifier. */
  datatype Entry = Entry(question: string, answer: string)

  /** A fuzzy score must be strictly above this to count as a direct match. */
  const Threshold: real := 70.0

  const AlreadyExists: string := "This question already exists!"
  const Learned: string := "Chatbot has learned a new answer!"

  /** No two entries share a question (what the check in `add_knowledge`
      keeps, in a sequential world). */
  ghost predicate UniqueQuestions(entries: seq<Entry>) {
    forall i, j :: 0 <= i < j < |entries| ==> entries[i].question != entries[j].question
  }

  /** Every fact is filed under a lower-case key. */
  ghost predicate LowerKeys(facts: map<string, string>) {
    forall k :: k in facts ==> Lower(k) == k
  }

  /** The candidate list `[doc["question"] for doc in collection.find()]`. */
  function Questions(entries: seq<Entry>): (qs: seq<string>)
    ensures |qs| == |entries|
    ensures forall i :: 0 <= i < |entries| ==> qs[i] == entries[i].question
  {
    seq(|entries|, i requires 0 <= i < |entries| => entries[i].question)
  }

  /** `collection.find_one({"question": question})`: the first entry whose
      question is exactly (case-sensitively) `question`. */
  function FindByQuestion(entries: seq<Entry>, question: string): (o: Option<nat>)
    ensures o.Some? ==> o.value < |entries| && entries[o.value].question == question
    ensures o.Some? ==> forall j :: 0 <= j < o.value ==> entries[j].question != question
    ensures o.None? <==> forall j :: 0 <= j < |entries| ==> entries[j].question != question
    decreases |entries|
  {
    if entries == [] then None
    else if entries[0].question == question then Some(0)
    else
      match FindByQuestion(entries[1..], question)
      case None => None
      case Some(i) => Some(i + 1)
  }

  /** Step 1 of `get_answer`: the answer of the best fuzzy candidate when its
      score is above the threshold.  It fires exactly when SOME stored
      question scores above 70; an empty store never matches. */
  function DirectMatch(entries: seq<Entry>, scorer: Scorer, question: string): (r: Option<string>)
    ensures r.Some? <==> exists i :: 0 <= i < |entries| && scorer(question, entries[i].question) > Threshold
  {
    var questions := Questions(entries);
    if |questions| == 0 then None
    else
      var best := BestIndex(scorer, question, questions);
      if scorer(question, questions[best]) > Threshold then
        var found := FindByQuestion(entries, questions[best]);
        assert entries[best].question == questions[best];
        Some(entries[found.value].answer)
      else
        None
  }

  /** The entity name of a "where is" question: group 1, stripped. */
  function WhereIsEntity(question: string): Option<string> {
    match MatchWhereIs(question)
    case None => None
    case Some(g) => Some(Strip(g))
  }

  /** The entry mentions the (lower-cased) entity in its question or answer,
      compared in lower case. */
  predicate Mentions(entry: Entry, key: string) {
    Contains(Lower(entry.question), key) || Contains(Lower(entry.answer), key)
  }

  /** What one entry contributes to the scan for entity `name`: its
      extraction, if it mentions the entity. */
  function LocationFrom(entry: Entry, key: string, name: string): Option<string> {
    if Mentions(entry, key) then ExtractLocationInfo(entry.question, entry.answer, name) else None
  }

  /** The first `f(x)` that is Some, for `x` in `xs` in order. */
  function FirstSome<T, U>(xs: seq<T>, f: T -> Option<U>): (r: Option<U>)
    ensures r.None? <==> forall i :: 0 <= i < |xs| ==> f(xs[i]).None?
    decreases |xs|
  {
    if xs == [] then None
    else if f(xs[0]).Some? then f(xs[0])
    else
      assert forall i :: 0 < i < |xs| ==> xs[1..][i - 1] == xs[i];
      FirstSome(xs[1..], f)
  }

  /** The first Some is that of the first element that has one. */
  lemma {:induction false} FirstSomeAt<T, U>(xs: seq<T>, f: T -> Option<U>, i: nat)
    requires i < |xs| && f(xs[i]).Some?
    requires forall j :: 0 <= j < i ==> f(xs[j]).None?
    ensures FirstSome(xs, f) == f(xs[i])
    decreases i
  {
    if i > 0 {
      assert xs[1..][i - 1] == xs[i];
      assert forall j :: 0 <= j < i - 1 ==> xs[1..][j] == xs[j + 1];
      FirstSomeAt(xs[1..], f, i - 1);
    }
  }

  /** The scan of step 2b: the extraction of the FIRST entry, in store order,
      that mentions the entity and yields one (see ScanEntriesFirst); None
      exactly when no entry does. */
  function ScanEntries(entries: seq<Entry>, key: string, name: string): (r: Option<string>)
    ensures r.None? <==> forall i :: 0 <= i < |entries| ==> LocationFrom(entries[i], key, name).None?
  {
    var from := (e: Entry) => LocationFrom(e, key, name);
    assert forall e :: from(e) == LocationFrom(e, key, name);
    FirstSome(entries, from)
  }

  /** The scan returns the extraction of the first entry that yields one. */
  lemma ScanEntriesFirst(entries: seq<Entry>, key: string, name: string, i: nat)
    requires i < |entries| && LocationFrom(entries[i], key, name).Some?
    requires forall j :: 0 <= j < i ==> LocationFrom(entries[j], key, name).None?
    ensures ScanEntries(entries, key, name) == LocationFrom(entries[i], key, name)
  {
    var from := (e: Entry) => LocationFrom(e, key, name);
    assert forall e :: from(e) == LocationFrom(e, key, name);
    FirstSomeAt(entries, from, i);
  }

  /** One step of the scan: the first entry's extraction if it has one, else
      the scan of the rest. */
  lemma ScanEntriesStep(entries: seq<Entry>, key: string, name: string)
    requires entries != []
    ensures var here := LocationFrom(entries[0], key, name);
      ScanEntries(entries, key, name) == if here.Some? then here else ScanEntries(entries[1..], key, name)
  {
    var from := (e: Entry) => LocationFrom(e, key, name);
    assert forall e :: from(e) == LocationFrom(e, key, name);
    assert FirstSome(entries, from) == if from(entries[0]).Some? then from(entries[0]) else FirstSome(entries[1..], from);
  }

  /** Appending an entry that yields a location to a store where none does
      makes the scan return that entry's extraction. */
  lemma ScanAppended(entries: seq<Entry>, entry: Entry, key: string, name: string)
    requires ScanEntries(entries, key, name).None?
    requires LocationFrom(entry, key, name).Some?
    ensures ScanEntries(entries + [entry], key, name) == LocationFrom(entry, key, name)
  {
    var grown := entries + [entry];
    assert grown[|entries|] == entry;
    assert forall i :: 0 <= i < |entries| ==> grown[i] == entries[i];
    ScanEntriesFirst(grown, key, name, |entries|);
  }

  /** The answer `get_answer` returns and the facts it leaves behind. */
  datatype Resolution = Resolution(answer: Option<string>, facts: map<string, string>)

  /** Step 2 of `get_answer` for the entity `name` of a "where is"
      question: the cached fact; else the first extraction from the entries,
      which is also stored as the fact. */
  function Locate(entries: seq<Entry>, facts: map<string, string>, name: string): Resolution {
    var key := Lower(name);
    if key in facts then Resolution(Some(facts[key]), facts)
    else
      match ScanEntries(entries, key, name)
      case None => Resolution(None, facts)
      case Some(info) => Resolution(Some(info), facts[key := info])
  }

  /** `get_answer(question)` as a function of the state: the direct fuzzy
      match, else the location lookup for a "where is" question. */
  function Resolve(entries: seq<Entry>, facts: map<string, string>, scorer: Scorer, question: string): Resolution {
    var direct := DirectMatch(entries, scorer, question);
    if direct.Some? then Resolution(direct, facts)
    else
      match WhereIsEntity(question)
      case None => Resolution(None, facts)
      case Some(name) => Locate(entries, facts, name)
  }

  /** The message `add_knowledge` returns and the state it leaves behind. */
  datatype Learning = Learning(message: string, entries: seq<Entry>, facts: map<string, string>)

  /** `add_knowledge(question, answer)` as a function of the state. */
  function Learn(entries: seq<Entry>, facts: map<string, string>, question: string, answer: string): Learning {
    if FindByQuestion(entries, question).Some? then Learning(AlreadyExists, entries, facts)
    else Learning(Learned, entries + [Entry(question, answer)], StoredFacts(facts, answer))
  }

  // ---------------------------------------------------------------------
  // The direct match

  /** When the direct match fires for the first best-scoring candidate `b`,
      the answer is that of the first entry `i` whose question is `b`'s. */
  lemma DirectMatchAnswer(entries: seq<Entry>, scorer: Scorer, question: string, b: nat, i: nat)
    requires IsFirstBest(scorer, question, Questions(entries), b)
    requires scorer(question, entries[b].question) > Threshold
    requires i <= b && entries[i].question == entries[b].question
    requires forall j :: 0 <= j < i ==> entries[j].question != entries[b].question
    ensures DirectMatch(entries, scorer, question) == Some(entries[i].answer)
  {
    BestIndexIsFirstBest(scorer, question, Questions(entries), b);
  }

  /** With unique questions the answer is that of the best candidate itself. */
  lemma DirectMatchUnique(entries: seq<Entry>, scorer: Scorer, question: string, b: nat)
    requires UniqueQuestions(entries)
    requires IsFirstBest(scorer, question, Questions(entries), b)
    requires scorer(question, entries[b].question) > Threshold
    ensures DirectMatch(entries, scorer, question) == Some(entries[b].answer)
  {
    DirectMatchAnswer(entries, scorer, question, b, b);
  }

  /** A question stored verbatim, which the scorer rates 100 against itself,
      is answered by the direct match, and by its own entry when no earlier
      question also reaches 100. */
  lemma ExactQuestionAnswered(entries: seq<Entry>, scorer: Scorer, i: nat)
    requires i < |entries| && scorer(entries[i].question, entries[i].question) == 100.0
    requires forall j :: 0 <= j < i ==> scorer(entries[i].question, entries[j].question) < 100.0
    ensures DirectMatch(entries, scorer, entries[i].question) == Some(entries[i].answer)
  {
    var q := entries[i].question;
    assert forall j :: 0 <= j < i ==> entries[j].question != q;
    assert IsFirstBest(scorer, q, Questions(entries), i);
    DirectMatchAnswer(entries, scorer, q, i, i);
  }

  // ---------------------------------------------------------------------
  // The resolver

  /** A direct match returns the stored answer and changes nothing. */
  lemma ResolveDirect(entries: seq<Entry>, facts: map<string, string>, scorer: Scorer, question: string)
    requires exists i :: 0 <= i < |entries| && scorer(question, entries[i].question) > Threshold
    ensures Resolve(entries, facts, scorer, question) == Resolution(DirectMatch(entries, scorer, question), facts)
    ensures Resolve(entries, facts, scorer, question).answer.Some?
  {
  }

  /** No direct match and no "where is" question: no answer, nothing changes. */
  lemma ResolveUnknown(entries: seq<Entry>, facts: map<string, string>, scorer: Scorer, question: string)
    requires forall i :: 0 <= i < |entries| ==> scorer(question, entries[i].question) <= Threshold
    requires MatchWhereIs(question).None?
    ensures Resolve(entries, facts, scorer, question) == Resolution(None, facts)
  {
  }

  /** A "where is" question that no stored question matches is answered by
      the location lookup for its stripped entity name. */
  lemma ResolveLocation(entries: seq<Entry>, facts: map<string, string>, scorer: Scorer, question: string, name: string)
    requires forall i :: 0 <= i < |entries| ==> scorer(question, entries[i].question) <= Threshold
    requires WhereIsEntity(question) == Some(name)
    ensures Resolve(entries, facts, scorer, question) == Locate(entries, facts, name)
  {
  }

  /** A cached fact for the entity is returned as is, and nothing changes. */
  lemma LocateCacheHit(entries: seq<Entry>, facts: map<string, string>, name: string)
    requires Lower(name) in facts
    ensures Locate(entries, facts, name) == Resolution(Some(facts[Lower(name)]), facts)
  {
  }

  /** On a cache miss the answer is the first entry's extraction (see
      ScanEntries) and is memoised under the entity key alone; when no entry
      yields one, nothing changes. */
  lemma LocateCacheMiss(entries: seq<Entry>, facts: map<string, string>, name: string)
    requires Lower(name) !in facts
    ensures var r, found := Locate(entries, facts, name), ScanEntries(entries, Lower(name), name);
      && r.answer == found
      && r.facts == (if found.Some? then facts[Lower(name) := found.value] else facts)
  {
  }

  /** The lookup never overwrites or removes a fact; at most the entity's
      key is added, and only together with an answer. */
  lemma LocateOnlyAddsEntityKey(entries: seq<Entry>, facts: map<string, string>, name: string)
    ensures var r := Locate(entries, facts, name);
      && (forall k :: k in facts ==> k in r.facts && r.facts[k] == facts[k])
      && (forall k :: k in r.facts && k !in facts ==> k == Lower(name) && r.answer == Some(r.facts[k]))
  {
  }

  /** Resolving never overwrites or removes a fact; at most the asked
      entity's key is added. */
  lemma ResolveOnlyAddsEntityKey(entries: seq<Entry>, facts: map<string, string>, scorer: Scorer, question: string)
    ensures var r := Resolve(entries, facts, scorer, question);
      && (forall k :: k in facts ==> k in r.facts && r.facts[k] == facts[k])
      && (forall k :: k in r.facts && k !in facts ==>
            WhereIsEntity(question).Some? && k == Lower(WhereIsEntity(question).value))
  {
    var name := WhereIsEntity(question);
    if DirectMatch(entries, scorer, question).None? && name.Some? {
      LocateOnlyAddsEntityKey(entries, facts, name.value);
    }
  }

  /** Looking the same entity up again gives the same answer and changes
      nothing: an answer found by scanning was memoised. */
  lemma LocateIdempotent(entries: seq<Entry>, facts: map<string, string>, name: string)
    ensures var r := Locate(entries, facts, name);
      Locate(entries, r.facts, name) == r
  {
  }

  /** Asking the same question again gives the same answer and changes
      nothing; the facts change only for a "where is" question that no
      stored question matches. */
  lemma ResolveIdempotent(entries: seq<Entry>, facts: map<string, string>, scorer: Scorer, question: string)
    ensures var r := Resolve(entries, facts, scorer, question);
      Resolve(entries, r.facts, scorer, question) == r
    ensures var r := Resolve(entries, facts, scorer, question);
      r.facts != facts ==> DirectMatch(entries, scorer, question).None? && WhereIsEntity(question).Some?
  {
    var name := WhereIsEntity(question);
    if DirectMatch(entries, scorer, question).None? && name.Some? {
      LocateIdempotent(entries, facts, name.value);
    }
  }

  /** Facts stay filed under lower-case keys. */
  lemma ResolveKeepsLowerKeys(entries: seq<Entry>, facts: map<string, string>, scorer: Scorer, question: string)
    requires LowerKeys(facts)
    ensures LowerKeys(Resolve(entries, facts, scorer, question).facts)
  {
    var name := WhereIsEntity(question);
    if DirectMatch(entries, scorer, question).None? && name.Some? {
      LocateOnlyAddsEntityKey(entries, facts, name.value);
      LowerIdempotent(name.value);
    }
  }

  // ---------------------------------------------------------------------
  // Learning

  /** A question already present (exact string equality) is refused and
      nothing changes; a new one is appended as exactly one entry and its
      "past" facts are stored. */
  lemma LearnOutcome(entries: seq<Entry>, facts: map<string, string>, question: string, answer: string)
    ensures var l := Learn(entries, facts, question, answer);
      (exists i :: 0 <= i < |entries| && entries[i].question == question) ==>
        l == Learning(AlreadyExists, entries, facts)
    ensures var l := Learn(entries, facts, question, answer);
      (forall i :: 0 <= i < |entries| ==> entries[i].question != question) ==>
        && l.message == Learned
        && |l.entries| == |entries| + 1
        && l.entries[..|entries|] == entries
        && l.entries[|entries|] == Entry(question, answer)
        && l.facts == StoredFacts(facts, answer)
  {
  }

  /** Number of entries with this exact question. */
  function CountQuestion(entries: seq<Entry>, question: string): (n: nat)
    ensures n == 0 <==> forall i :: 0 <= i < |entries| ==> entries[i].question != question
    decreases |entries|
  {
    if entries == [] then 0
    else
      var rest := CountQuestion(entries[..|entries| - 1], question);
      assert forall i :: 0 <= i < |entries| - 1 ==> entries[..|entries| - 1][i] == entries[i];
      rest + (if entries[|entries| - 1].question == question then 1 else 0)
  }

  /** Learning the same question twice: "learned", then "exists", exactly
      one entry for it, and the second call changes nothing, whatever
      answer it brings. */
  lemma LearnTwice(entries: seq<Entry>, facts: map<string, string>, question: string, answer1: string, answer2: string)
    requires forall i :: 0 <= i < |entries| ==> entries[i].question != question
    ensures var first := Learn(entries, facts, question, answer1);
      var second := Learn(first.entries, first.facts, question, answer2);
      && first.message == Learned
      && second == Learning(AlreadyExists, first.entries, first.facts)
      && CountQuestion(second.entries, question) == 1
  {
    var first := Learn(entries, facts, question, answer1);
    assert first.entries[..|entries|] == entries;
    assert first.entries[|entries|].question == question;
  }

  /** Learning keeps the questions unique: a question is appended only when
      no entry has it yet. */
  lemma LearnKeepsQuestionsUnique(entries: seq<Entry>, facts: map<string, string>, question: string, answer: string)
    requires UniqueQuestions(entries)
    ensures UniqueQuestions(Learn(entries, facts, question, answer).entries)
  {
    if FindByQuestion(entries, question).None? {
      var grown := entries + [Entry(question, answer)];
      assert forall i :: 0 <= i < |entries| ==> grown[i] == entries[i];
    }
  }

  /** The facts stored when learning are filed under lower-case keys. */
  lemma StoredFactsKeepLowerKeys(facts: map<string, string>, answer: string)
    requires LowerKeys(facts)
    ensures LowerKeys(StoredFacts(facts, answer))
  {
    StoredFactsChanges(facts, answer);
    match Relation(answer, "past")
    case None =>
    case Some((e1, e2)) =>
      LowerIdempotent(e1);
      LowerIdempotent(e2);
  }

  /** Learning keeps the fact keys lower case. */
  lemma LearnKeepsLowerKeys(entries: seq<Entry>, facts: map<string, string>, question: string, answer: string)
    requires LowerKeys(facts)
    ensures LowerKeys(Learn(entries, facts, question, answer).facts)
  {
    StoredFactsKeepLowerKeys(facts, answer);
  }

  // ---------------------------------------------------------------------
  // Learning, then asking "where is"

  /** After learning "<e1> is past <e2>" under a new question, "where is
      <name>", for a name equal to <e1> up to letter case, is answered
      "<e1> is past <e2>" from the stored facts, provided no stored question
      is a fuzzy match for the location question. */
  lemma LearnPastThenAskFirst(entries: seq<Entry>, facts: map<string, string>, scorer: Scorer,
                              question: string, e1: string, e2: string, name: string, prefix: string, rest: string)
    requires forall i :: 0 <= i < |entries| ==> entries[i].question != question
    requires IsName(e1) && IsName(e2) && NoTailIn(e2, "past") && Lower(e1) != Lower(e2)
    requires Lower(name) == Lower(e1)
    requires Lower(prefix) == "where is " && (rest == [] || !IsWordChar(rest[0]))
    requires var l := Learn(entries, facts, question, e1 + " is past " + e2);
      forall i :: 0 <= i < |l.entries| ==> scorer(prefix + name + rest, l.entries[i].question) <= Threshold
    ensures var l := Learn(entries, facts, question, e1 + " is past " + e2);
      Resolve(l.entries, l.facts, scorer, prefix + name + rest) == Resolution(Some(e1 + " is past " + e2), l.facts)
  {
    var l := Learn(entries, facts, question, e1 + " is past " + e2);
    var asked := prefix + name + rest;
    LearnedPastSentence(facts, e1, e2);
    assert l.facts == StoredFacts(facts, e1 + " is past " + e2);
    AskedName(prefix, e1, name, rest);
    ResolveLocation(l.entries, l.facts, scorer, asked, name);
    LocateCacheHit(l.entries, l.facts, name);
  }

  /** ... and "where is <name>", for a name equal to <e2> up to letter case,
      is answered "<e2> is before <e1>". */
  lemma LearnPastThenAskSecond(entries: seq<Entry>, facts: map<string, string>, scorer: Scorer,
                               question: string, e1: string, e2: string, name: string, prefix: string, rest: string)
    requires forall i :: 0 <= i < |entries| ==> entries[i].question != question
    requires IsName(e1) && IsName(e2) && NoTailIn(e2, "past")
    requires Lower(name) == Lower(e2)
    requires Lower(prefix) == "where is " && (rest == [] || !IsWordChar(rest[0]))
    requires var l := Learn(entries, facts, question, e1 + " is past " + e2);
      forall i :: 0 <= i < |l.entries| ==> scorer(prefix + name + rest, l.entries[i].question) <= Threshold
    ensures var l := Learn(entries, facts, question, e1 + " is past " + e2);
      Resolve(l.entries, l.facts, scorer, prefix + name + rest) == Resolution(Some(e2 + " is before " + e1), l.facts)
  {
    var l := Learn(entries, facts, question, e1 + " is past " + e2);
    var asked := prefix + name + rest;
    LearnedPastSentence(facts, e1, e2);
    assert l.facts == StoredFacts(facts, e1 + " is past " + e2);
    AskedName(prefix, e2, name, rest);
    ResolveLocation(l.entries, l.facts, scorer, asked, name);
    LocateCacheHit(l.entries, l.facts, name);
  }

  /** A "where is" question for a name equal to an entity name up to letter
      case yields exactly that name as the entity. */
  lemma AskedName(prefix: string, e: string, name: string, rest: string)
    requires IsName(e) && Lower(name) == Lower(e)
    requires Lower(prefix) == "where is " && (rest == [] || !IsWordChar(rest[0]))
    ensures WhereIsEntity(prefix + name + rest) == Some(name)
  {
    SameNameInAnyCase(e, name);
    WhereIsQuestionParses(prefix, name, rest);
    StripTrimmed(name);
  }

  /** A "near" sentence is not stored when learnt, but "where is <name>", for
      a name equal to <e1> up to letter case, is answered "<e1> is near <e2>"
      by scanning it (and memoised), provided no earlier entry yields a
      location for that name, no fact is cached for it and no stored question
      is a fuzzy match for the location question. */
  lemma LearnNearThenAskFirst(entries: seq<Entry>, facts: map<string, string>, scorer: Scorer,
                              question: string, e1: string, e2: string, name: string, prefix: string, rest: string)
    requires forall i :: 0 <= i < |entries| ==> entries[i].question != question
    requires IsName(e1) && IsName(e2) && NoTailIn(e2, "near")
    requires Relation(e1 + " is near " + e2, "past").None?
    requires Lower(name) == Lower(e1)
    requires Lower(name) !in facts && ScanEntries(entries, Lower(name), name).None?
    requires Lower(prefix) == "where is " && (rest == [] || !IsWordChar(rest[0]))
    requires var l := Learn(entries, facts, question, e1 + " is near " + e2);
      forall i :: 0 <= i < |l.entries| ==> scorer(prefix + name + rest, l.entries[i].question) <= Threshold
    ensures var l := Learn(entries, facts, question, e1 + " is near " + e2);
      && l.facts == facts
      && Resolve(l.entries, l.facts, scorer, prefix + name + rest) ==
           Resolution(Some(e1 + " is near " + e2), facts[Lower(name) := e1 + " is near " + e2])
  {
    var answer := e1 + " is near " + e2;
    var l := Learn(entries, facts, question, answer);
    var asked := prefix + name + rest;
    assert l.facts == facts;
    AskedName(prefix, e1, name, rest);
    ResolveLocation(l.entries, facts, scorer, asked, name);
    LocateCacheMiss(l.entries, facts, name);
    NearEntryLocatesFirst(question, e1, e2, name);
    assert l.entries == entries + [Entry(question, answer)];
    ScanAppended(entries, Entry(question, answer), Lower(name), name);
  }

  lemma AnswerMentions(question: string, answer: string, key: string)
    requires Contains(Lower(answer), key)
    ensures Mentions(Entry(question, answer), key)
  {
  }

  /** The entry holding "<e1> is near <e2>" mentions <e1> and locates it as
      the sentence itself, for <e1> spelled in any letter case. */
  lemma NearEntryLocatesFirst(question: string, e1: string, e2: string, name: string)
    requires IsName(e1) && IsName(e2) && NoTailIn(e2, "near")
    requires Lower(name) == Lower(e1)
    requires !Names(Relation(e1 + " is near " + e2, "past"), name)
    ensures LocationFrom(Entry(question, e1 + " is near " + e2), Lower(name), name) == Some(e1 + " is near " + e2)
  {
    NearSentenceMentionsFirst(question, e1, e2);
    NearSentenceLocatesFirst(question, e1, e2, name);
  }

  lemma NearSentenceMentionsFirst(question: string, e1: string, e2: string)
    ensures Mentions(Entry(question, e1 + " is near " + e2), Lower(e1))
  {
    var answer := e1 + " is near " + e2;
    assert answer == e1 + (" is near " + e2);
    ContainsLowerPrefix(e1, " is near " + e2);
    AnswerMentions(question, answer, Lower(e1));
  }

  lemma NearSentenceLocatesFirst(question: string, e1: string, e2: string, name: string)
    requires IsName(e1) && IsName(e2) && NoTailIn(e2, "near")
    requires Lower(name) == Lower(e1)
    requires !Names(Relation(e1 + " is near " + e2, "past"), name)
    ensures ExtractLocationInfo(question, e1 + " is near " + e2, name) == Some(e1 + " is near " + e2)
  {
    ExtractFromSentence(question, e1, "near", e2, name);
    NearConnective(e1, e2);
  }

  /** A "near" sentence is not stored when learnt, but "where is <name>", for
      a name equal to <e2> up to letter case, is answered "<name> is near
      <e1>" by scanning it (and memoised), provided no earlier entry yields a
      location for that name, no fact is cached for it and no stored question
      is a fuzzy match for the location question. */
  lemma LearnNearThenAskSecond(entries: seq<Entry>, facts: map<string, string>, scorer: Scorer,
                               question: string, e1: string, e2: string, name: string, prefix: string, rest: string)
    requires forall i :: 0 <= i < |entries| ==> entries[i].question != question
    requires IsName(e1) && IsName(e2) && NoTailIn(e2, "near") && Lower(e1) != Lower(e2)
    requires Relation(e1 + " is near " + e2, "past").None?
    requires Lower(name) == Lower(e2)
    requires Lower(name) !in facts && ScanEntries(entries, Lower(name), name).None?
    requires Lower(prefix) == "where is " && (rest == [] || !IsWordChar(rest[0]))
    requires var l := Learn(entries, facts, question, e1 + " is near " + e2);
      forall i :: 0 <= i < |l.entries| ==> scorer(prefix + name + rest, l.entries[i].question) <= Threshold
    ensures var l := Learn(entries, facts, question, e1 + " is near " + e2);
      && l.facts == facts
      && Resolve(l.entries, l.facts, scorer, prefix + name + rest) ==
           Resolution(Some(name + " is near " + e1), facts[Lower(name) := name + " is near " + e1])
  {
    var answer := e1 + " is near " + e2;
    var l := Learn(entries, facts, question, answer);
    var asked := prefix + name + rest;
    assert l.facts == facts;
    AskedName(prefix, e2, name, rest);
    ResolveLocation(l.entries, facts, scorer, asked, name);
    LocateCacheMiss(l.entries, facts, name);
    NearEntryLocatesSecond(question, e1, e2, name);
    assert l.entries == entries + [Entry(question, answer)];
    ScanAppended(entries, Entry(question, answer), Lower(name), name);
  }

  /** The entry holding "<e1> is near <e2>" mentions <e2> and locates it as
      "<name> is near <e1>", in the asker's spelling <name> of <e2>. */
  lemma NearEntryLocatesSecond(question: string, e1: string, e2: string, name: string)
    requires IsName(e1) && IsName(e2) && NoTailIn(e2, "near") && Lower(e1) != Lower(e2)
    requires Lower(name) == Lower(e2)
    requires !Names(Relation(e1 + " is near " + e2, "past"), name)
    ensures LocationFrom(Entry(question, e1 + " is near " + e2), Lower(name), name) == Some(name + " is near " + e1)
  {
    var answer := e1 + " is near " + e2;
    ContainsLowerSuffix(e1 + " is near ", e2);
    AnswerMentions(question, answer, Lower(e2));
    NearSentenceLocatesSecond(question, e1, e2, name);
  }

  lemma NearSentenceLocatesSecond(question: string, e1: string, e2: string, name: string)
    requires IsName(e1) && IsName(e2) && NoTailIn(e2, "near") && Lower(e1) != Lower(e2)
    requires Lower(name) == Lower(e2)
    requires !Names(Relation(e1 + " is near " + e2, "past"), name)
    ensures ExtractLocationInfo(question, e1 + " is near " + e2, name) == Some(name + " is near " + e1)
  {
    ExtractFromSentence(question, e1, "near", e2, name);
    NearConnective(e1, e2);
  }

  // ---------------------------------------------------------------------
  // The stored state and its operations

  class KnowledgeBase {
    /** `knowledge_base`, in iteration order. */
    var entries: seq<Entry>
    /** `entity_relations`: location sentence by lower-cased entity name. */
    var facts: map<string, string>

    ghost predicate Valid()
      reads this
    {
      UniqueQuestions(entries) && LowerKeys(facts)
    }

    /** Empty collections. */
    constructor ()
      ensures entries == [] && facts == map[] && Valid()
    {
      entries := [];
      facts := map[];
    }

    /** `get_answer(question)`. */
    method GetAnswer(scorer: Scorer, question: string) returns (answer: Option<string>)
      modifies this`facts
      ensures answer == Resolve(entries, old(facts), scorer, question).answer
      ensures facts == Resolve(entries, old(facts), scorer, question).facts
      ensures old(Valid()) ==> Valid()
      // with unique questions, a direct answer is the best candidate's own
      ensures old(Valid()) && DirectMatch(entries, scorer, question).Some? ==>
        |entries| > 0 && answer == Some(entries[BestIndex(scorer, question, Questions(entries))].answer)
    {
      if LowerKeys(facts) {
        ResolveKeepsLowerKeys(entries, facts, scorer, question);
      }
      var questions := Questions(entries);
      var bestMatch, score := "", 0.0;
      if questions != [] {
        var best := BestIndex(scorer, question, questions);
        bestMatch, score := questions[best], scorer(question, questions[best]);
      }
      if score > Threshold {
        var found := FindByQuestion(entries, bestMatch);
        answer := Some(entries[found.value].answer);
        assert DirectMatch(entries, scorer, question) == answer;
        ResolveDirect(entries, facts, scorer, question);
        if Valid() {
          var best := BestIndex(scorer, question, questions);
          BestIndexIsFirstBest(scorer, question, questions, best);
          DirectMatchUnique(entries, scorer, question, best);
        }
        return;
      }
      assert forall i :: 0 <= i < |entries| ==> scorer(question, entries[i].question) <= Threshold by {
        if questions != [] {
          assert forall i :: 0 <= i < |entries| ==> entries[i].question == questions[i];
        }
      }
      var location := MatchWhereIs(question);
      if location.None? {
        return None;
      }
      var entityName := Strip(location.value);
      ResolveLocation(entries, facts, scorer, question, entityName);
      var key := Lower(entityName);
      if key in facts {
        LocateCacheHit(entries, facts, entityName);
        return Some(facts[key]);
      }
      LocateCacheMiss(entries, facts, entityName);
      answer := FindLocation(key, entityName);
      if answer.Some? {
        facts := facts[key := answer.value];
      }
    }

    /** The loop of `get_answer` over the stored entries: the first entry
        that mentions the entity (in lower case) and yields a location
        sentence. */
    method FindLocation(key: string, entityName: string) returns (info: Option<string>)
      ensures info == ScanEntries(entries, key, entityName)
    {
      var stored := entries;
      var i := 0;
      while i < |stored|
        invariant 0 <= i <= |stored|
        invariant ScanEntries(stored, key, entityName) == ScanEntries(stored[i..], key, entityName)
      {
        var doc := stored[i];
        ScanEntriesStep(stored[i..], key, entityName);
        assert stored[i..][0] == doc && stored[i..][1..] == stored[i + 1..];
        if Mentions(doc, key) {
          var locationInfo := ExtractLocationInfo(doc.question, doc.answer, entityName);
          if locationInfo.Some? {
            return locationInfo;
          }
        }
        i := i + 1;
      }
      assert stored[i..] == [];
      return None;
    }

    /** `add_knowledge(question, answer)`. */
    method AddKnowledge(question: string, answer: string) returns (message: string)
      modifies this
      ensures Learning(message, entries, facts) == Learn(old(entries), old(facts), question, answer)
      ensures old(Valid()) ==> Valid()
    {
      if Valid() {
        LearnKeepsQuestionsUnique(entries, facts, question, answer);
        LearnKeepsLowerKeys(entries, facts, question, answer);
      }
      if FindByQuestion(entries, question).Some? {
        return AlreadyExists;
      }
      entries := entries + [Entry(question, answer)];
      ExtractAndStoreEntities(question, answer);
      return Learned;
    }

    /** `extract_and_store_entities(question, answer)`: two upserts for a
        "past" sentence, none otherwise. */
    method ExtractAndStoreEntities(question: string, answer: string)
      modifies this`facts
      ensures facts == StoredFacts(old(facts), answer)
    {
      var pastPattern := SearchRelation(answer, "past");
      if pastPattern.Some? {
        var entity1 := Strip(pastPattern.value.0);
        var entity2 := Strip(pastPattern.value.1);
        facts := facts[Lower(entity1) := entity1 + " is past " + entity2];
        facts := facts[Lower(entity2) := entity2 + " is before " + entity1];
      }
    }

    /** `get_all_knowledge()`: every entry, in store order. */
    method GetAllKnowledge() returns (items: seq<Entry>)
      ensures |items| == |entries|
      ensures forall i :: 0 <= i < |items| ==> items[i] == entries[i]
    {
      items := [];
      var i := 0;
      while i < |entries|
        invariant 0 <= i <= |entries|
        invariant items == entries[..i]
      {
        items := items + [entries[i]];
        i := i + 1;
      }
    }
  }
}
