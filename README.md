# Knowledge base of the moihub chatbot, in Dafny

This project models the knowledge base behind the chatbot (`chatbot/db.py`):
- a store of question/answer pairs (the `knowledge_base` collection) and a cache of location facts keyed by a lower-cased entity name (the `entity_relations` collection);
- `get_answer`: a fuzzy direct match; failing that, for a question "where is X", the cached fact for X, or else the first location sentence that can be extracted from a stored entry, which is then cached;
- `extract_location_info`: the "is past" / "is near" extractor;
- `add_knowledge` and `extract_and_store_entities`: learning a new pair and storing its "past" facts;
- `get_all_knowledge`: listing every entry.

Modules, one per concern:

- `Wrappers` (`wrappers.dfy`): `Option`.
- `Text` (`text.dfy`): the string primitives.
  - Python's whitespace set, shared by `\s` and `str.strip`.
  - The capture class `[a-zA-Z0-9\s]`.
  - `lower`, `strip` and the substring test `in`.
- `Patterns` (`patterns.dfy`): the three regular expressions as concrete matchers.
  - `where\s+is\s+(...)\??` is matched with `re.match`.
  - The relation patterns `(...)\s+is\s+past\s+(...)` and `(...)\s+is\s+near\s+(...)` are found with `re.search`.
  - A relation match never leaves a maximal run of class characters. The leftmost match therefore starts at the first run that holds one. The greedy first group ends at the last position from which the tail still matches, and the second group is the rest of the run.
- `Fuzzy` (`fuzzy.dfy`): the selection rule of `process.extractOne`, which picks the first candidate with the highest score. The scorer itself is a parameter.
- `Extraction` (`extraction.dfy`):
  - `extract_location_info`;
  - the two upserts of `extract_and_store_entities`, as a function of the facts.
- `KnowledgeBase` (`knowledge.dfy`):
  - Pure functions of the state: `Resolve` for `get_answer` and `Learn` for `add_knowledge`. The properties of the service are lemmas about these functions.
  - The class `KnowledgeBase`, which holds the two collections as fields `entries: seq<Entry>` and `facts: map<string, string>`. Its methods do what the Python functions do, step by step: the scan loop of `get_answer`, the two upserts, and the listing loop. Each method is proved to leave the result and the state that the pure functions prescribe.

The similarity scorer (`WRatio` in `rapidfuzz`) is a parameter `scorer: (string, string) -> Percent`, with a real score from 0.0 to 100.0, as `WRatio` returns a float. Every property of the direct match holds for every such scorer. The database is the object's state. The network, the environment file and the HTTP layer are not modelled.

Three behaviours of the code are easy to miss, and the model keeps them:
- Learning stores facts only for a "past" sentence (`chatbot/db.py:96-112`). A "near" sentence is not stored when learnt. It is found on demand by the scan of `get_answer` and cached then (`KnowledgeBase.LearnNearThenAskFirst`, `…Second`).
- When the "past" pattern matches but names neither entity as the target, `extract_location_info` does not stop: it goes on to the "near" pattern (`chatbot/db.py:59-77`).
- A question stored verbatim is answered with its own answer when every EARLIER stored question scores below 100 against it. `extractOne` keeps the first best candidate, and `find_one` looks up that candidate's question (`KnowledgeBase.ExactQuestionAnswered`).

A relation sentence "<e1> is <verb> <e2>" is read back as (e1, e2) when the tail `\s+is\s+<verb>\s+.` of the pattern cannot match inside " " + e2 (`Patterns.NoTailIn`). A single word always qualifies (`Patterns.WordNoTail`). Otherwise the greedy first group runs on into the second name. For example, "A is past B is past C" is read as ("A is past B", "C").

## Model

| member | source | states |
|---|---|---|
| Fuzzy.BestIndex | chatbot/db.py:23 | the chosen candidate has the maximal score and every earlier candidate scores strictly less (ties go to the first) |
| Fuzzy.BestIndexIsFirstBest | chatbot/db.py:23 | a position is the first best-scoring candidate exactly when it is the one chosen |
| KnowledgeBase.FindByQuestion | chatbot/db.py:26 | `find_one` by question: the first entry with exactly that question, and None exactly when no entry has it |
| KnowledgeBase.DirectMatch | chatbot/db.py:22-26 | the direct match fires exactly when some stored question scores strictly above 70, so an empty store (score 0) and a best score of exactly 70 never match |
| KnowledgeBase.DirectMatchAnswer | chatbot/db.py:23-26 | when the first best candidate scores above 70, the answer is that of the first entry holding that candidate's question |
| KnowledgeBase.DirectMatchUnique | chatbot/db.py:23-26 | when questions are unique, the answer is the best candidate's own |
| KnowledgeBase.ExactQuestionAnswered | chatbot/db.py:22-26 | a stored question that scores 100 against itself, while every earlier stored question scores below 100 against it, is answered with its own entry's answer (no uniqueness of questions needed) |
| KnowledgeBase.WhereIsEntity | chatbot/db.py:30-32 | the stripped group of a "where is" question; specified by `WhereIsQuestionParses` (and `MatchWhereIs`) |
| KnowledgeBase.Mentions | chatbot/db.py:41 | the entry's question or answer contains the lower-cased entity; specified by `NearEntryLocatesFirst` and `NearEntryLocatesSecond` |
| KnowledgeBase.LocationFrom | chatbot/db.py:41-43 | one iteration of the scan; specified by `ScanEntriesStep` and `ScanEntriesFirst` |
| KnowledgeBase.Locate | chatbot/db.py:32-51 | the cache lookup, then the scan and its memo; specified by `LocateCacheHit`, `LocateCacheMiss`, `LocateOnlyAddsEntityKey` and `LocateIdempotent` |
| KnowledgeBase.Resolve | chatbot/db.py:19-53 | `get_answer` as a function of the state; specified by `ResolveDirect`, `ResolveUnknown`, `ResolveLocation`, `ResolveOnlyAddsEntityKey`, `ResolveIdempotent` and `ResolveKeepsLowerKeys` |
| KnowledgeBase.Learn | chatbot/db.py:81-91 | `add_knowledge` as a function of the state; specified by `LearnOutcome`, `LearnTwice`, `LearnKeepsQuestionsUnique` and `LearnKeepsLowerKeys` |
| KnowledgeBase.ResolveDirect | chatbot/db.py:25-26 | a direct match returns an answer and leaves the facts unchanged |
| KnowledgeBase.ResolveUnknown | chatbot/db.py:30-53 | without a direct match and without a "where is" form, the answer is None and nothing changes |
| KnowledgeBase.ResolveLocation | chatbot/db.py:28-32 | without a direct match, a "where is" question is answered by the location lookup for its stripped group |
| KnowledgeBase.LocateCacheHit | chatbot/db.py:35-37 | a cached fact for the lower-cased entity is returned, and nothing changes |
| KnowledgeBase.LocateCacheMiss | chatbot/db.py:39-53 | with no cached fact, the answer is the scan's result; it is stored under the entity key only when there is one, and otherwise nothing changes |
| KnowledgeBase.ScanEntries | chatbot/db.py:40-51 | the scan finds nothing exactly when no entry both mentions the entity and yields an extraction |
| KnowledgeBase.ScanEntriesFirst | chatbot/db.py:40-51 | the scan returns the extraction of the first entry, in store order, that mentions the entity and yields one |
| KnowledgeBase.ScanEntriesStep | chatbot/db.py:40-51 | one iteration of the loop: the current entry's extraction if it has one, else the scan of the remaining entries |
| KnowledgeBase.ScanAppended | chatbot/db.py:40-51 | an appended entry that yields a location is found, when no earlier entry yields one |
| KnowledgeBase.LocateOnlyAddsEntityKey | chatbot/db.py:46-50 | the lookup never overwrites or removes a fact; the only key it can add is the entity's own, holding the returned answer |
| KnowledgeBase.ResolveOnlyAddsEntityKey | chatbot/db.py:19-53 | `get_answer` never overwrites or removes a fact; the only key it can add is the asked entity's |
| KnowledgeBase.LocateIdempotent | chatbot/db.py:35-51 | a second lookup of the same entity returns the same answer and changes nothing more (the answer was memoised) |
| KnowledgeBase.ResolveIdempotent | chatbot/db.py:19-53 | asking the same question twice gives the same answer, and the second call changes nothing; only a "where is" question without a direct match changes the facts |
| KnowledgeBase.ResolveKeepsLowerKeys | chatbot/db.py:46-48 | after `get_answer`, every fact is still filed under a lower-case key |
| KnowledgeBase.LearnOutcome | chatbot/db.py:81-91 | an existing question (exact equality) gives "This question already exists!" and no change; otherwise exactly one entry is appended at the end, "Chatbot has learned a new answer!" is returned, and the answer's facts are stored |
| KnowledgeBase.CountQuestion | chatbot/db.py:83 | the number of entries with a question is zero exactly when no entry has it |
| KnowledgeBase.LearnTwice | chatbot/db.py:81-91 | learning a new question twice gives "learned" and then "exists"; the second call changes nothing, whatever answer it brings, and exactly one entry holds the question |
| KnowledgeBase.LearnKeepsQuestionsUnique | chatbot/db.py:83-86 | learning keeps the stored questions pairwise distinct |
| KnowledgeBase.StoredFactsKeepLowerKeys | chatbot/db.py:102-112 | the learnt facts are filed under lower-case keys |
| KnowledgeBase.LearnKeepsLowerKeys | chatbot/db.py:81-91 | learning keeps every fact key lower case |
| KnowledgeBase.LearnPastThenAskFirst | chatbot/db.py:81-112 | for entity names e1 and e2 with distinct keys and no relation tail in e2: after learning "<e1> is past <e2>", "where is <name>" (the prefix in any letter case, an optional "?" after it) for any spelling <name> of e1 that has the same lower-case key is answered "<e1> is past <e2>" from the stored facts, and nothing changes |
| KnowledgeBase.LearnPastThenAskSecond | chatbot/db.py:81-112 | for entity names e1 and e2 with no relation tail in e2: after learning "<e1> is past <e2>", "where is <name>" for any spelling <name> of e2 with the same lower-case key is answered "<e2> is before <e1>" (the stored spelling) from the stored facts |
| KnowledgeBase.LearnNearThenAskFirst | chatbot/db.py:39-79 | learning "<e1> is near <e2>" stores no fact, and "where is <name>", for any spelling <name> of e1 with the same lower-case key, is then answered "<e1> is near <e2>" by the scan and memoised under that key |
| KnowledgeBase.LearnNearThenAskSecond | chatbot/db.py:39-79 | after learning "<e1> is near <e2>", "where is <name>", for any spelling <name> of e2 with the same lower-case key, is answered "<name> is near <e1>" (the asker's spelling) by the scan and memoised under that key |
| KnowledgeBase.NearEntryLocatesFirst | chatbot/db.py:41-75 | an entry holding "<e1> is near <e2>" mentions e1, and its extraction for any spelling of e1 is the sentence itself, whenever the "past" pattern does not name that target |
| KnowledgeBase.NearEntryLocatesSecond | chatbot/db.py:41-77 | an entry holding "<e1> is near <e2>" mentions e2, and its extraction for a spelling <name> of e2 is "<name> is near <e1>", whenever the "past" pattern does not name that target |
| KnowledgeBase.KnowledgeBase.GetAnswer | chatbot/db.py:19-53 | the answer and the new facts are those of `Resolve` on the old state; the entries are untouched, and the store invariant (unique questions, lower-case keys) is kept; in a valid store a direct answer is the answer of the best-scoring candidate's own entry |
| KnowledgeBase.KnowledgeBase.FindLocation | chatbot/db.py:40-51 | the loop over the entries returns exactly the scan's result |
| KnowledgeBase.KnowledgeBase.AddKnowledge | chatbot/db.py:81-91 | the message and the new entries and facts are those of `Learn` on the old state, and the store invariant is kept |
| KnowledgeBase.KnowledgeBase.ExtractAndStoreEntities | chatbot/db.py:93-112 | the facts become the two upserts of the "past" relation, or stay as they were |
| KnowledgeBase.KnowledgeBase.GetAllKnowledge | chatbot/db.py:114-120 | the listing has one item per entry, equal to it, in store order, and the store is not changed |
| Extraction.Relation | chatbot/db.py:58-61 | both group names of a relation found in the answer are stripped (no surrounding whitespace) |
| Extraction.RenderFor | chatbot/db.py:63-66 | a rendered fact starts with the target's name (case-insensitively) followed by " is past ", " is before " or " is near " |
| Extraction.ExtractLocationInfo | chatbot/db.py:55-79 | "past" is tried first: target = first name gives "e1 is past e2"; target = second name only gives "target is before e1". Failing that, "near" gives "e1 is near e2" or "target is near e1". Nothing exactly when neither pattern names the target; any result is a nonempty sentence about the target |
| Extraction.UpsertTwo | chatbot/db.py:102-112 | two upserts in a row: the keys are the old keys plus the two; the second write wins on a shared key; no other key changes |
| Extraction.StoredFacts | chatbot/db.py:93-112 | the facts after `extract_and_store_entities`; specified by `StoredFactsChanges`, `StoredFactsIgnoreNear`, `LearnedPastSentence` and `StoredFactsKeepLowerKeys` |
| Extraction.StoredFactsChanges | chatbot/db.py:93-112 | without a "past" match nothing is stored. With one, the second name's key holds "e2 is before e1"; the first name's key holds "e1 is past e2" unless the keys coincide; nothing else changes |
| Extraction.StoredFactsIgnoreNear | chatbot/db.py:95-97 | an answer not containing "past" (in any case), such as a "near" sentence, stores nothing |
| Extraction.RelationHasVerb | chatbot/db.py:58 | a relation is only found in an answer that contains the verb |
| Extraction.StoredFactsAgreeWithExtraction | chatbot/db.py:55-66 | for two distinct names, the fact stored when learning equals the sentence the on-demand extraction renders, for the first name in any letter case or for the second name spelled as in the sentence; for the second name in another spelling the on-demand "before" sentence keeps the asker's spelling (`chatbot/db.py:66`) while the stored one keeps the sentence's (`chatbot/db.py:110`) |
| Extraction.RelationOfSentence | chatbot/db.py:58-61 | for entity names e1 and e2 with no relation tail in e2, the sentence "<e1> is <verb> <e2>" is read back as the pair (e1, e2) |
| Extraction.LearnedPastSentence | chatbot/db.py:96-112 | for entity names e1 and e2 with no "past" tail in e2, learning "<e1> is past <e2>" files "e2 is before e1" under e2's key, and "e1 is past e2" under e1's key when the keys differ |
| Extraction.ExtractFromSentence | chatbot/db.py:55-79 | for entity names e1 and e2 with no relation tail in e2 (and, for "near", whenever the "past" pattern does not name the target), a relation sentence is extracted for either of its two entities, as the "past", "before" or "near" sentence |
| Patterns.MatchWhereIs | chatbot/db.py:30 | the group of a "where is" question is nonempty and consists of class characters |
| Patterns.WhereIsQuestionParses | chatbot/db.py:30-32 | "where is " in any letter case, followed by a name and anything that ends the class run (such as "?"), yields exactly that name |
| Patterns.LastTail | chatbot/db.py:58 | the greedy first group ends at the last position from which the rest of the pattern matches |
| Patterns.MatchRunFound | chatbot/db.py:58 | a run of class characters matches exactly when the tail can follow some nonempty first group |
| Patterns.MatchRunHasVerb | chatbot/db.py:58 | a matching run contains the verb |
| Patterns.SearchRelationHasVerb | chatbot/db.py:58 | `re.search` for a relation only succeeds on a string that contains the verb (in any case) |
| Patterns.RelationSentenceParses | chatbot/db.py:58 | for entity names e1 and e2, with no relation tail in e2, the search finds "<e1> is <verb> <e2>" with e1 and e2 as the groups |
| Patterns.WordNoTail | chatbot/db.py:58 | a single word (no blank in it) never holds a relation tail |
| Patterns.TailAtShift | chatbot/db.py:58 | a tail that matches from a position still matches in any suffix that keeps that position |
| Patterns.TailAt | chatbot/db.py:58 | the part `\s+is\s+VERB\s+.` of the pattern from a position; specified by `LastTail`, `TailAtShift`, `WordNoTail` and `TailHasVerb` |
| Patterns.MatchRun | chatbot/db.py:58-61 | the groups within one run of class characters; specified by `MatchRunFound`, `MatchRunHasVerb` and, for relation sentences, `LayoutMatchRun` |
| Patterns.SearchRelation | chatbot/db.py:58 | `re.search` for a relation pattern; specified by `SearchRelationHasVerb` and `RelationSentenceParses` |
| Text.Lower | chatbot/db.py:35 | `lower` keeps the length and leaves no upper-case letter; a string without upper-case letters is returned unchanged |
| Text.LowerAppend | chatbot/db.py:41 | lower-casing distributes over concatenation |
| Text.LowerIdempotent | chatbot/db.py:35 | a lower-cased key is left unchanged by lower-casing it again |
| Text.SkipSpaces | chatbot/db.py:30 | a greedy `\s*` stops at the first non-blank, and only blanks lie before it |
| Text.WordRunEnd | chatbot/db.py:30 | a greedy `[a-zA-Z0-9\s]*` stops at the first character outside the class |
| Text.Strip | chatbot/db.py:32 | the result of `strip` has no blank at either end |
| Text.StripRemovesBlanks | chatbot/db.py:32 | `strip` returns a slice of its argument, with only blanks before the slice and only blanks after it |
| Text.StripTrimmed | chatbot/db.py:60-61 | stripping a name that is already trimmed leaves it unchanged |
| Text.Contains | chatbot/db.py:41 | the substring test `needle in hay`; specified by `ContainsOccurs` |
| Text.IsSpace | chatbot/db.py:30 | Python's whitespace set for `\s` and `strip`; used by `SkipSpaces`, `Strip` and the matchers |
| Text.IsWordChar | chatbot/db.py:30 | the capture class `[a-zA-Z0-9\s]`; used by `WordRunEnd` and `SearchRelation` |
| Text.ContainsOccurs | chatbot/db.py:41 | `needle in hay` holds exactly when the needle occurs at some position of the hay |
| Text.ContainsLowerPrefix | chatbot/db.py:41 | the lower-cased start of a string is contained in the lower-cased string |
| Text.ContainsLowerSuffix | chatbot/db.py:41 | the lower-cased end of a string is contained in the lower-cased string |

## Left out

- The MongoDB connection, the environment file and the collection handles (`chatbot/db.py:1-17`). The two collections are the object's fields.
- The HTTP layer in `chatbot/chatbot.py`, with its checks for empty fields; `chatbot/db.py` accepts any strings.
- The similarity scorer: `WRatio` is a foreign library. The scorer is any function into the reals 0.0..100.0 (`WRatio` returns a float in that range), so no claim depends on how it computes its scores.
- Text.Lower: case conversion covers ASCII letters only. Python's `lower` and the `(?i)` flag also fold other letters; for example, U+212A (Kelvin sign) folds to "k".
- Text.IsWordChar: under `(?i)`, Python's `[a-z]` also matches a few non-ASCII letters (U+0130, U+0131, U+017F, U+212A). The class here is the ASCII one, plus Python's whitespace set.
- The `_id` field of the documents (`chatbot/db.py:118`). Entries carry only a question and an answer, so the projection in `get_all_knowledge` is the identity.
- The `"location" in entity_info` test (`chatbot/db.py:36`). Every fact this code writes has a location, so a fact document without one cannot arise here.
- Concurrency: there is a race between the existence check and the insertion (`chatbot/db.py:83-86`), and concurrent upserts of one fact can interleave. The model is sequential, and `KnowledgeBase.UniqueQuestions` holds only in that sequential world.
- Patterns.RelationSentenceParses: the read-back of a rendered sentence is proved when the relation tail cannot match inside the second name (`NoTailIn`). The first name can be any trimmed run of class characters. When the tail can match there, the greedy first group runs on into the second name; the matcher still applies, but no lemma states the groups.
- Extraction.RelationOfSentence: rests on Patterns.RelationSentenceParses, so it carries the same `NoTailIn` condition on the second name.
- Extraction.LearnedPastSentence: carries the same `NoTailIn` condition on the second name.
- Extraction.ExtractFromSentence: carries the same `NoTailIn` condition on the second name. For "near" it also requires that the "past" pattern does not name the target, exactly the case in which `chatbot/db.py:59-67` falls through to "near".
- KnowledgeBase.LearnPastThenAskFirst: carries the same `NoTailIn` condition on the second name. It requires distinct lower-case keys for the two names, since the second upsert overwrites the first on a shared key. It also requires that no stored question is a fuzzy match for the location question, as the direct match is tried first.
- KnowledgeBase.LearnPastThenAskSecond: carries the same `NoTailIn` condition on the second name, and requires that no stored question is a fuzzy match for the location question.
- KnowledgeBase.LearnNearThenAskFirst: carries the same `NoTailIn` condition on the second name. It requires that no fact is cached under the asked key, and that no earlier entry yields a location for the asked name, since the scan stops at the first. It also requires that no stored question is a fuzzy match for the location question. The sentence must hold no "past" relation, so that learning it stores nothing.
- KnowledgeBase.LearnNearThenAskSecond: the conditions of KnowledgeBase.LearnNearThenAskFirst, and also distinct lower-case keys for the two names, since otherwise the first name is matched first.
- KnowledgeBase.NearEntryLocatesFirst: the `NoTailIn` condition on the second name, and a "past" pattern that does not name the target.
- KnowledgeBase.NearEntryLocatesSecond: the `NoTailIn` condition on the second name, a "past" pattern that does not name the target, and distinct lower-case keys for the two names, since otherwise the first name is matched first.
- The `question` arguments of `extract_location_info` and `extract_and_store_entities` are accepted and ignored, as in the code.
