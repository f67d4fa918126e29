/**
 * The three regular expressions of the knowledge base, written out as
 * matchers over strings.
 *
 *   where\s+is\s+([a-zA-Z0-9\s]+)\??                       (re.match, (?i))
 *   ([a-zA-Z0-9\s]+)\s+is\s+past\s+([a-zA-Z0-9\s]+)        (re.search, (?i))
 *   ([a-zA-Z0-9\s]+)\s+is\s+near\s+([a-zA-Z0-9\s]+)        (re.search, (?i))
 *
 * Every character of a relation match (the captures, the whitespace, the
 * words "is" and the verb) belongs to the class [a-zA-Z0-9\s], so a match
 * never leaves one maximal run of such characters.  A leftmost search
 * therefore finds the first run that holds a match and starts the match at
 * the beginning of that run.  Inside the run, the greedy first group ends at
 * the LAST position from which the rest of the pattern still matches, and the
 * greedy second group runs to the end of the run.  The matchers below compute
 * exactly these groups, unstripped, as Python's `group(1)` and `group(2)`.
 */
module Patterns {
  import opened Wrappers
  import opened Text

  /** Group 1 of `where\s+is\s+([a-zA-Z0-9\s]+)\??` anchored at the start of
      `s`, or None when the question does not have that form. */
  function MatchWhereIs(s: string): (g: Option<string>)
    ensures g.Some? ==> g.value != [] && AllWordChars(g.value)
  {
    if !(MatchesAt(s, 0, "where") && 5 < |s| && IsSpace(s[5])) then None
    else
      var k := SkipSpaces(s, 5);
      if !(MatchesAt(s, k, "is") && k + 2 < |s| && IsSpace(s[k + 2])) then None
      else
        var p := k + 2;
        var q := SkipSpaces(s, p);
        if q < |s| && IsWordChar(s[q]) then
          // `\s+` takes the whole run of blanks, the group the word run after it
          Some(s[q..WordRunEnd(s, q)])
        else if q - p >= 2 then
          // only blanks follow: `\s+` gives its last blank back to the group
          Some(s[q - 1..q])
        else
          None
  }

  /** The part `\s+is\s+VERB\s+[a-zA-Z0-9\s]+` of a relation pattern matches
      the run `r` from position `j` on (every character of `r` is in the
      class, so the final group only needs one character to exist). */
  predicate TailAt(r: string, j: nat, verb: string) {
    j < |r| && IsSpace(r[j]) && IsPart(r, SkipSpaces(r, j), verb)
  }

  /** The part `is\s+VERB\s+.` of the tail, from `k` on. */
  predicate IsPart(r: string, k: nat, verb: string) {
    MatchesAt(r, k, "is") && k + 2 < |r| && IsSpace(r[k + 2]) && VerbPart(r, SkipSpaces(r, k + 2), verb)
  }

  /** The part `VERB\s+.` of the tail, from `m` on. */
  predicate VerbPart(r: string, m: nat, verb: string) {
    MatchesAt(r, m, verb) && m + |verb| + 1 < |r| && IsSpace(r[m + |verb|])
  }

  /** The largest `j` in 1..hi with `p(j)`, or None when there is none. */
  function LastWhere(p: nat -> bool, hi: nat): (o: Option<nat>)
    ensures o.Some? ==> 1 <= o.value <= hi && p(o.value)
    ensures o.Some? ==> forall j :: o.value < j <= hi ==> !p(j)
    ensures o.None? ==> forall j :: 1 <= j <= hi ==> !p(j)
    decreases hi
  {
    if hi == 0 then None
    else if p(hi) then Some(hi)
    else LastWhere(p, hi - 1)
  }

  /** The largest end `j` in 1..|r| of a nonempty first group that the tail
      can follow: the choice the greedy first group makes. */
  function LastTail(r: string, verb: string): (o: Option<nat>)
    ensures o.Some? ==> 1 <= o.value <= |r| && TailAt(r, o.value, verb)
    ensures o.Some? ==> forall j :: o.value < j <= |r| ==> !TailAt(r, j, verb)
    ensures o.None? ==> forall j :: 1 <= j <= |r| ==> !TailAt(r, j, verb)
  {
    var p := (j: nat) => TailAt(r, j, verb);
    assert forall j: nat :: p(j) == TailAt(r, j, verb);
    LastWhere(p, |r|)
  }

  /** A tail that matches from `j` also matches in any suffix that keeps
      position `j`: the tail looks only at what follows it. */
  lemma {:induction false} TailAtShift(r: string, d: nat, j: nat, verb: string)
    requires d <= j <= |r|
    ensures TailAt(r, j, verb) ==> TailAt(r[d..], j - d, verb)
  {
    if TailAt(r, j, verb) {
      var t, k := r[d..], SkipSpaces(r, j);
      IsPartShift(r, d, k, verb);
      SkipSpacesShift(r, d, j);
      assert t[j - d] == r[j];
      TailAtFrom(t, j - d, k - d, verb);
    }
  }

  lemma TailAtFrom(t: string, j: nat, k: nat, verb: string)
    requires j < |t| && IsSpace(t[j]) && SkipSpaces(t, j) == k && IsPart(t, k, verb)
    ensures TailAt(t, j, verb)
  {
  }

  lemma {:induction false} IsPartShift(r: string, d: nat, k: nat, verb: string)
    requires d <= k <= |r| && IsPart(r, k, verb)
    ensures IsPart(r[d..], k - d, verb)
  {
    var t, m := r[d..], SkipSpaces(r, k + 2);
    assert MatchesAt(t, k - d, "is") by {
      MatchesAtShift(r, d, k, "is");
    }
    assert VerbPart(t, m - d, verb) by {
      VerbPartShift(r, d, m, verb);
    }
    assert SkipSpaces(t, k - d + 2) == m - d by {
      SkipSpacesShift(r, d, k + 2);
    }
    assert IsSpace(t[k - d + 2]) by {
      assert t[k - d + 2] == r[k + 2];
    }
    IsPartFrom(t, k - d, m - d, verb);
  }

  lemma IsPartFrom(t: string, k: nat, m: nat, verb: string)
    requires MatchesAt(t, k, "is") && k + 2 < |t| && IsSpace(t[k + 2])
    requires SkipSpaces(t, k + 2) == m && VerbPart(t, m, verb)
    ensures IsPart(t, k, verb)
  {
  }

  lemma {:induction false} VerbPartShift(r: string, d: nat, m: nat, verb: string)
    requires d <= m <= |r| && VerbPart(r, m, verb)
    ensures VerbPart(r[d..], m - d, verb)
  {
    MatchesAtShift(r, d, m, verb);
    assert r[d..][m - d + |verb|] == r[m + |verb|];
  }

  lemma TailHasVerb(r: string, j: nat, verb: string)
    requires TailAt(r, j, verb)
    ensures Contains(Lower(r), verb)
  {
    var m := SkipSpaces(r, SkipSpaces(r, j) + 2);
    MatchesAtOccurs(r, m, verb);
    OccursContains(Lower(r), verb, m);
  }

  /** The two groups of a relation pattern matched against one whole run `r`
      of class characters. */
  function MatchRun(r: string, verb: string): (m: Option<(string, string)>)
  {
    match LastTail(r, verb)
    case None => None
    case Some(j) =>
      assert TailAt(r, j, verb);
      var k := SkipSpaces(r, j);
      var m := SkipSpaces(r, k + 2);
      var v := m + |verb|;
      var q := SkipSpaces(r, v);
      Some((r[..j], if q < |r| then r[q..] else r[|r| - 1..]))
  }

  /** A run matches exactly when the tail can follow some nonempty first
      group. */
  lemma MatchRunFound(r: string, verb: string)
    ensures MatchRun(r, verb).Some? <==> exists j :: 1 <= j <= |r| && TailAt(r, j, verb)
  {
  }

  /** A run only matches where the verb itself occurs (in any case). */
  lemma MatchRunHasVerb(r: string, verb: string)
    requires MatchRun(r, verb).Some?
    ensures Contains(Lower(r), verb)
  {
    TailHasVerb(r, LastTail(r, verb).value, verb);
  }

  lemma ContainsLowerSlice(s: string, a: nat, b: nat, needle: string)
    requires a <= b <= |s|
    requires Contains(Lower(s[a..b]), needle)
    ensures Contains(Lower(s), needle)
  {
    LowerSlice(s, a, b);
    ContainsSlice(Lower(s), a, b, needle);
  }

  /** What a slice contains, the whole string contains. */
  lemma ContainsSlice(s: string, a: nat, b: nat, needle: string)
    requires a <= b <= |s|
    requires Contains(s[a..b], needle)
    ensures Contains(s, needle)
  {
    ContainsOccurs(s[a..b], needle);
    var i: nat :| OccursAt(s[a..b], needle, i);
    OccursInSlice(s, a, b, needle, i);
    OccursContains(s, needle, a + i);
  }

  lemma OccursInSlice(s: string, a: nat, b: nat, needle: string, i: nat)
    requires a <= b <= |s| && OccursAt(s[a..b], needle, i)
    ensures OccursAt(s, needle, a + i)
  {
    var n := |needle|;
    forall k | 0 <= k < n ensures s[a + i..a + i + n][k] == needle[k] {
      assert s[a..b][i..i + n][k] == s[a..b][i + k] == s[a + i + k];
    }
    assert s[a + i..a + i + n] == needle;
  }

  /** `re.search` of `([a-zA-Z0-9\s]+)\s+is\s+VERB\s+([a-zA-Z0-9\s]+)` in
      `s`: the unstripped groups of the leftmost match, or None.  The match
      lies in the first run of class characters that holds one. */
  function SearchRelation(s: string, verb: string): (m: Option<(string, string)>)
    decreases |s|
  {
    if s == [] then None
    else if !IsWordChar(s[0]) then SearchRelation(s[1..], verb)
    else
      var n := WordRunEnd(s, 0);
      var m := MatchRun(s[..n], verb);
      if m.Some? then m else SearchRelation(s[n..], verb)
  }

  /** A relation is only ever found where the verb itself occurs (in any
      case): an answer without the word "past" has no "past" relation. */
  lemma {:induction false} SearchRelationHasVerb(s: string, verb: string)
    requires SearchRelation(s, verb).Some?
    ensures Contains(Lower(s), verb)
    decreases |s|
  {
    if !IsWordChar(s[0]) {
      SearchRelationHasVerb(s[1..], verb);
      assert s[1..|s|] == s[1..];
      ContainsLowerSlice(s, 1, |s|, verb);
    } else {
      var n := WordRunEnd(s, 0);
      if MatchRun(s[..n], verb).Some? {
        MatchRunHasVerb(s[..n], verb);
        ContainsLowerSlice(s, 0, n, verb);
      } else {
        SearchRelationHasVerb(s[n..], verb);
        assert s[n..|s|] == s[n..];
        ContainsLowerSlice(s, n, |s|, verb);
      }
    }
  }

  /** A single word: letters and digits, no blank. */
  predicate IsWord(s: string) {
    s != [] && forall i :: 0 <= i < |s| ==> IsWordChar(s[i]) && !IsSpace(s[i])
  }

  /** An entity name as the captures produce it after `strip`: class
      characters only, nonempty, no blank at either end. */
  predicate IsName(s: string) {
    s != [] && AllWordChars(s) && Trimmed(s)
  }

  /** No part `\s+is\s+VERB\s+.` of the relation pattern matches anywhere
      in `" " + e2`: placed after the verb, the second name gives the greedy
      first group no later place to stop. */
  predicate NoTailIn(e2: string, verb: string) {
    forall j: nat :: j <= |e2| ==> !TailAt(" " + e2, j, verb)
  }

  /** A single word, having no blank in it, never holds such a tail. */
  lemma WordNoTail(e2: string, verb: string)
    requires IsWord(e2)
    ensures NoTailIn(e2, verb)
  {
    var s := " " + e2;
    forall j: nat | j <= |e2| ensures !TailAt(s, j, verb) {
      if j == 0 {
        assert s[1] == e2[0];
        assert SkipSpaces(s, 0) == 1;
        if 3 < |s| {
          assert s[3] == e2[2];
        }
      } else {
        assert s[j] == e2[j - 1];
      }
    }
  }

  /** A string equal to an entity name up to letter case is an entity name:
      lower-casing changes only letters, and keeps them letters. */
  lemma SameNameInAnyCase(e: string, n: string)
    requires IsName(e) && Lower(n) == Lower(e)
    ensures IsName(n)
  {
    forall i | 0 <= i < |n| ensures IsWordChar(n[i]) && (IsSpace(n[i]) <==> IsSpace(e[i])) {
      assert LowerChar(n[i]) == Lower(n)[i] == Lower(e)[i] == LowerChar(e[i]);
    }
  }

  /** The character layout of "<e1> is <verb> <e2>". */
  predicate Layout(r: string, e1: string, verb: string, e2: string) {
    var n, v := |e1|, |e1| + 4 + |verb|;
    && |r| == v + 1 + |e2|
    && (forall i :: 0 <= i < n ==> r[i] == e1[i])
    && r[n] == ' ' && r[n + 1] == 'i' && r[n + 2] == 's' && r[n + 3] == ' '
    && (forall i :: 0 <= i < |verb| ==> r[n + 4 + i] == verb[i])
    && r[v] == ' '
    && (forall i :: 0 <= i < |e2| ==> r[v + 1 + i] == e2[i])
  }

  lemma SentenceLayout(e1: string, verb: string, e2: string)
    ensures Layout(e1 + " is " + verb + " " + e2, e1, verb, e2)
  {
  }

  lemma LayoutTail(r: string, e1: string, verb: string, e2: string)
    requires Layout(r, e1, verb, e2)
    requires e2 != [] && !IsSpace(e2[0])
    requires verb == "past" || verb == "near"
    ensures TailAt(r, |e1|, verb)
  {
    LayoutSkips(r, e1, verb, e2);
    LayoutWords(r, e1, verb, e2);
  }

  /** Where the three `\s+` of the tail stop in the layout. */
  lemma LayoutSkips(r: string, e1: string, verb: string, e2: string)
    requires Layout(r, e1, verb, e2)
    requires e2 != [] && !IsSpace(e2[0])
    requires verb == "past" || verb == "near"
    ensures var n, v := |e1|, |e1| + 4 + |verb|;
      && SkipSpaces(r, n) == n + 1
      && SkipSpaces(r, n + 3) == n + 4
      && SkipSpaces(r, v) == v + 1
  {
    var n, v := |e1|, |e1| + 4 + |verb|;
    assert r[n + 4] == verb[0];
    assert r[v + 1] == e2[0];
  }

  /** The word "is" and the verb stand where the layout puts them. */
  lemma LayoutWords(r: string, e1: string, verb: string, e2: string)
    requires Layout(r, e1, verb, e2)
    requires verb == "past" || verb == "near"
    ensures MatchesAt(r, |e1| + 1, "is") && MatchesAt(r, |e1| + 4, verb)
  {
    var n := |e1|;
    forall i | 0 <= i < |verb| ensures LowerChar(r[n + 4 + i]) == verb[i] {
      assert r[n + 4 + i] == verb[i];
    }
  }

  lemma LayoutNoLaterTail(r: string, e1: string, verb: string, e2: string, j: nat)
    requires Layout(r, e1, verb, e2) && IsName(e2) && NoTailIn(e2, verb)
    requires verb == "past" || verb == "near"
    requires |e1| < j <= |r|
    ensures !TailAt(r, j, verb)
  {
    var n, v := |e1|, |e1| + 4 + |verb|;
    if j == n + 3 {
      // the only later blank before the verb is followed by the verb, not "is"
      assert r[n + 4] == verb[0];
      assert SkipSpaces(r, j) == n + 4;
      assert LowerChar(r[n + 4]) != "is"[0];
    } else if j >= v {
      // from the blank behind the verb on, the run is " " + e2
      assert r[v..] == " " + e2;
      TailAtShift(r, v, j, verb);
    } else if j < |r| {
      NotBlankInLayout(r, e1, verb, e2, j);
    }
  }

  lemma NotBlankInLayout(r: string, e1: string, verb: string, e2: string, j: nat)
    requires Layout(r, e1, verb, e2)
    requires verb == "past" || verb == "near"
    requires |e1| < j < |e1| + 4 + |verb| && j != |e1| + 3
    ensures !IsSpace(r[j])
  {
    var n, v := |e1|, |e1| + 4 + |verb|;
    if j < n + 3 {
    } else {
      assert r[j] == verb[j - n - 4];
    }
  }

  lemma LayoutWordChars(r: string, e1: string, verb: string, e2: string)
    requires Layout(r, e1, verb, e2) && AllWordChars(e1) && IsName(e2)
    requires verb == "past" || verb == "near"
    ensures AllWordChars(r)
  {
    var n, v := |e1|, |e1| + 4 + |verb|;
    forall i | 0 <= i < |r| ensures IsWordChar(r[i]) {
      if i < n {
        assert r[i] == e1[i];
      } else if i < n + 4 {
      } else if i < v {
        assert r[i] == verb[i - n - 4];
      } else if i > v {
        assert r[i] == e2[i - v - 1];
      }
    }
  }

  lemma LayoutMatchRun(r: string, e1: string, verb: string, e2: string)
    requires Layout(r, e1, verb, e2) && IsName(e1) && IsName(e2) && NoTailIn(e2, verb)
    requires verb == "past" || verb == "near"
    ensures MatchRun(r, verb) == Some((e1, e2))
  {
    LayoutLastTail(r, e1, verb, e2);
    LayoutSkips(r, e1, verb, e2);
    LayoutGroups(r, e1, verb, e2);
    MatchRunGroups(r, verb, |e1|, |e1| + 4 + |verb|);
  }

  /** The groups of a run, once the greedy first group ends at `n` and the
      three `\s+` of the tail are single blanks ending the verb at `v`. */
  lemma MatchRunGroups(r: string, verb: string, n: nat, v: nat)
    requires LastTail(r, verb) == Some(n)
    requires SkipSpaces(r, n) == n + 1 && SkipSpaces(r, n + 3) == n + 4
    requires v == n + 4 + |verb| && v + 1 < |r| && SkipSpaces(r, v) == v + 1
    ensures MatchRun(r, verb) == Some((r[..n], r[v + 1..]))
  {
  }

  /** The greedy first group of the layout ends right after the first name. */
  lemma LayoutLastTail(r: string, e1: string, verb: string, e2: string)
    requires Layout(r, e1, verb, e2) && IsName(e1) && IsName(e2) && NoTailIn(e2, verb)
    requires verb == "past" || verb == "near"
    ensures LastTail(r, verb) == Some(|e1|)
  {
    var n := |e1|;
    LayoutTail(r, e1, verb, e2);
    forall j | n < j <= |r| ensures !TailAt(r, j, verb) {
      LayoutNoLaterTail(r, e1, verb, e2, j);
    }
    LastTailIs(r, verb, n);
  }

  /** The tail position that nothing after it beats is the greedy choice. */
  lemma LastTailIs(r: string, verb: string, n: nat)
    requires 1 <= n <= |r| && TailAt(r, n, verb)
    requires forall j :: n < j <= |r| ==> !TailAt(r, j, verb)
    ensures LastTail(r, verb) == Some(n)
  {
  }

  /** The two groups of the layout are the two names. */
  lemma LayoutGroups(r: string, e1: string, verb: string, e2: string)
    requires Layout(r, e1, verb, e2)
    ensures r[..|e1|] == e1 && r[|e1| + 5 + |verb|..] == e2
  {
  }

  /** The sentence "<e1> is <verb> <e2>" that the knowledge base itself
      renders is matched by the relation pattern of that verb, with the two
      names as the groups, when the tail of the pattern cannot match inside
      the second name. */
  lemma RelationSentenceParses(e1: string, verb: string, e2: string)
    requires IsName(e1) && IsName(e2) && NoTailIn(e2, verb)
    requires verb == "past" || verb == "near"
    ensures SearchRelation(e1 + " is " + verb + " " + e2, verb) == Some((e1, e2))
  {
    SentenceLayout(e1, verb, e2);
    LayoutSearch(e1 + " is " + verb + " " + e2, e1, verb, e2);
  }

  /** A string laid out as a relation sentence is one run, found whole. */
  lemma LayoutSearch(r: string, e1: string, verb: string, e2: string)
    requires Layout(r, e1, verb, e2) && IsName(e1) && IsName(e2) && NoTailIn(e2, verb)
    requires verb == "past" || verb == "near"
    ensures SearchRelation(r, verb) == Some((e1, e2))
  {
    LayoutWordChars(r, e1, verb, e2);
    LayoutMatchRun(r, e1, verb, e2);
    assert WordRunEnd(r, 0) == |r|;
    assert r[..|r|] == r;
  }

  lemma LowerWhereIs(prefix: string)
    requires Lower(prefix) == "where is "
    ensures |prefix| == 9 && MatchesAt(prefix, 0, "where") && MatchesAt(prefix, 6, "is")
    ensures prefix[5] == ' ' && prefix[8] == ' ' && !IsSpace(prefix[6])
  {
    LowerWhere(prefix);
    LowerIs(prefix);
    LowerBlanks(prefix);
  }

  lemma LowerWhere(prefix: string)
    requires Lower(prefix) == "where is "
    ensures MatchesAt(prefix, 0, "where")
  {
    assert forall i :: 0 <= i < 5 ==> Lower(prefix)[i] == "where"[i];
  }

  lemma LowerIs(prefix: string)
    requires Lower(prefix) == "where is "
    ensures MatchesAt(prefix, 6, "is") && !IsSpace(prefix[6])
  {
    assert Lower(prefix)[6] == 'i' && Lower(prefix)[7] == 's';
  }

  lemma LowerBlanks(prefix: string)
    requires Lower(prefix) == "where is "
    ensures prefix[5] == ' ' && prefix[8] == ' '
  {
    assert Lower(prefix)[5] == ' ' && Lower(prefix)[8] == ' ';
  }

  lemma WhereIsLayout(s: string, e: string)
    requires 9 + |e| <= |s| && MatchesAt(s, 0, "where") && MatchesAt(s, 6, "is")
    requires s[5] == ' ' && s[8] == ' ' && !IsSpace(s[6])
    requires s[9..9 + |e|] == e && e != [] && AllWordChars(e) && !IsSpace(e[0])
    requires 9 + |e| == |s| || !IsWordChar(s[9 + |e|])
    ensures MatchWhereIs(s) == Some(e)
  {
    assert s[9] == e[0];
    assert SkipSpaces(s, 5) == 6;
    assert SkipSpaces(s, 8) == 9;
    assert forall i :: 9 <= i < 9 + |e| ==> s[i] == e[i - 9];
    assert WordRunEnd(s, 9) == 9 + |e|;
  }

  /** A question "where is <e>" in any letter case, followed by anything that
      ends the run of class characters (such as "?"), yields `e` as the group. */
  lemma WhereIsQuestionParses(prefix: string, e: string, rest: string)
    requires Lower(prefix) == "where is "
    requires e != [] && AllWordChars(e) && !IsSpace(e[0])
    requires rest == [] || !IsWordChar(rest[0])
    ensures MatchWhereIs(prefix + e + rest) == Some(e)
  {
    var s := prefix + e + rest;
    LowerWhereIs(prefix);
    assert s[..9] == prefix;
    assert forall i :: 0 <= i < 9 ==> s[i] == prefix[i];
    assert s[9..9 + |e|] == e;
    assert 9 + |e| < |s| ==> s[9 + |e|] == rest[0];
    WhereIsLayout(s, e);
  }
}
