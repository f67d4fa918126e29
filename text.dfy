/**
 * The string primitives the knowledge base relies on: Python's whitespace
 * test (shared by the regular expression class `\s` and by `str.strip`),
 * the character class `[a-zA-Z0-9\s]` of the entity captures, `str.lower`,
 * `str.strip` and the substring test `needle in haystack`.
 *
 * Case conversion is ASCII only; see README for what that leaves out.
 */
module Text {

  /** Python's `str.isspace` for one character, the same set the `\s` class
      matches in a `str` pattern: the ASCII blanks (tab, line feed, vertical
      tab, form feed, carriage return, the four separators 0x1C-0x1F and
      space) and, beyond ASCII, the whitespace code points of the Basic
      Multilingual Plane (next line, no-break space, ogham space mark, the
      spaces 0x2000-0x200A, the line and paragraph separators, the narrow
      no-break space, the medium mathematical space and the ideographic
      space). */
  predicate IsSpace(c: char) {
    var n := c as int;
    || 0x09 <= n <= 0x0D
    || 0x1C <= n <= 0x20
    || (0x85 <= n && IsWideSpace(n))
  }

  predicate IsWideSpace(n: int) {
    || n == 0x85 || n == 0xA0 || n == 0x1680 || 0x2000 <= n <= 0x200A
    || n == 0x2028 || n == 0x2029 || n == 0x202F || n == 0x205F || n == 0x3000
  }

  /** The character class `[a-zA-Z0-9\s]` of the entity captures. */
  predicate IsWordChar(c: char) {
    'a' <= c <= 'z' || 'A' <= c <= 'Z' || '0' <= c <= '9' || IsSpace(c)
  }

  predicate AllSpace(s: string) {
    forall i :: 0 <= i < |s| ==> IsSpace(s[i])
  }

  predicate AllWordChars(s: string) {
    forall i :: 0 <= i < |s| ==> IsWordChar(s[i])
  }

  /** No whitespace at either end: what `strip` leaves. */
  predicate Trimmed(s: string) {
    s == [] || (!IsSpace(s[0]) && !IsSpace(s[|s| - 1]))
  }

  /** An upper-case ASCII letter. */
  predicate IsUpper(c: char) {
    'A' <= c <= 'Z'
  }

  /** No upper-case ASCII letter anywhere in `s`. */
  predicate NoUpper(s: string) {
    forall i :: 0 <= i < |s| ==> !IsUpper(s[i])
  }

  /** One character lower-cased: an upper-case letter becomes the lower-case
      letter at the same place in the alphabet, anything else is kept. */
  function LowerChar(c: char): (r: char)
    ensures !IsUpper(r)
    ensures IsUpper(c) ==> 'a' <= r <= 'z' && r as int - 'a' as int == c as int - 'A' as int
    ensures !IsUpper(c) ==> r == c
  {
    if 'A' <= c <= 'Z' then (c as int + 32) as char else c
  }

  /** `s.lower()`, character by character: the result has no upper-case
      letter left, and a string that has none is left as it is. */
  function Lower(s: string): (r: string)
    ensures |r| == |s|
    ensures forall i :: 0 <= i < |s| ==> r[i] == LowerChar(s[i])
    ensures NoUpper(r)
    ensures NoUpper(s) ==> r == s
  {
    seq(|s|, i requires 0 <= i < |s| => LowerChar(s[i]))
  }

  lemma {:induction false} LowerAppend(a: string, b: string)
    ensures Lower(a + b) == Lower(a) + Lower(b)
  {
    var l, r := Lower(a + b), Lower(a) + Lower(b);
    assert |l| == |r|;
    forall i | 0 <= i < |l| ensures l[i] == r[i] {
      if i < |a| {
        assert (a + b)[i] == a[i];
      } else {
        assert (a + b)[i] == b[i - |a|];
      }
    }
  }

  lemma LowerSlice(s: string, a: nat, b: nat)
    requires a <= b <= |s|
    ensures Lower(s[a..b]) == Lower(s)[a..b]
  {
    var t := s[a..b];
    var l, r := Lower(t), Lower(s)[a..b];
    assert |l| == |r|;
    forall i | 0 <= i < |l| ensures l[i] == r[i] {
      assert t[i] == s[a + i];
    }
  }

  lemma LowerIdempotent(s: string)
    ensures Lower(Lower(s)) == Lower(s)
  {
  }

  /** The first position at or after `k` that is not whitespace: where a
      greedy `\s*` starting at `k` stops (and where `lstrip` cuts). */
  function SkipSpaces(s: string, k: nat): (r: nat)
    requires k <= |s|
    ensures k <= r <= |s|
    ensures forall i :: k <= i < r ==> IsSpace(s[i])
    ensures r == |s| || !IsSpace(s[r])
    decreases |s| - k
  {
    if k < |s| && IsSpace(s[k]) then SkipSpaces(s, k + 1) else k
  }

  /** Skipping blanks in a suffix of `s` stops at the same place. */
  lemma {:induction false} SkipSpacesShift(s: string, d: nat, k: nat)
    requires d <= k <= |s|
    ensures SkipSpaces(s, k) == d + SkipSpaces(s[d..], k - d)
    decreases |s| - k
  {
    if k < |s| && IsSpace(s[k]) {
      assert s[d..][k - d] == s[k];
      SkipSpacesShift(s, d, k + 1);
    } else if k < |s| {
      assert s[d..][k - d] == s[k];
    }
  }

  /** The position where the trailing whitespace of `s[lo..hi]` begins
      (where `rstrip` cuts). */
  function BackSkipSpaces(s: string, lo: nat, hi: nat): (r: nat)
    requires lo <= hi <= |s|
    ensures lo <= r <= hi
    ensures forall i :: r <= i < hi ==> IsSpace(s[i])
    ensures r == lo || !IsSpace(s[r - 1])
    decreases hi - lo
  {
    if lo < hi && IsSpace(s[hi - 1]) then BackSkipSpaces(s, lo, hi - 1) else hi
  }

  /** `s.strip()`: the part of `s` between its leading and its trailing
      whitespace. */
  function Strip(s: string): (r: string)
    ensures Trimmed(r)
  {
    var i := SkipSpaces(s, 0);
    s[i..BackSkipSpaces(s, i, |s|)]
  }

  /** What `strip` removes is whitespace: the result is a slice of `s` with
      only blanks before it and only blanks after it. */
  lemma StripRemovesBlanks(s: string)
    ensures var i, j := SkipSpaces(s, 0), BackSkipSpaces(s, SkipSpaces(s, 0), |s|);
      && Strip(s) == s[i..j]
      && AllSpace(s[..i]) && AllSpace(s[j..])
  {
  }

  lemma StripTrimmed(s: string)
    requires Trimmed(s)
    ensures Strip(s) == s
  {
  }

  function StartsWith(s: string, prefix: string): (b: bool)
  {
    |prefix| <= |s| && s[..|prefix|] == prefix
  }

  /** `needle` occurs in `hay` starting at position `i`. */
  predicate OccursAt(hay: string, needle: string, i: nat) {
    i + |needle| <= |hay| && hay[i..i + |needle|] == needle
  }

  /** Python's `needle in hay` on strings. */
  predicate Contains(hay: string, needle: string)
    decreases |hay|
  {
    StartsWith(hay, needle) || (hay != [] && Contains(hay[1..], needle))
  }

  /** `needle in hay` holds exactly when `needle` occurs somewhere in `hay`
      (so the empty string is in every string). */
  lemma {:induction false} ContainsOccurs(hay: string, needle: string)
    ensures Contains(hay, needle) <==> exists i: nat :: OccursAt(hay, needle, i)
    decreases |hay|
  {
    if StartsWith(hay, needle) {
      assert OccursAt(hay, needle, 0);
    } else if hay != [] {
      ContainsOccurs(hay[1..], needle);
      forall i: nat | OccursAt(hay[1..], needle, i) ensures OccursAt(hay, needle, i + 1) {
        assert hay[1..][i..i + |needle|] == hay[i + 1..i + 1 + |needle|];
      }
      forall i: nat | OccursAt(hay, needle, i) ensures i > 0 && OccursAt(hay[1..], needle, i - 1) {
        assert hay[1..][i - 1..i - 1 + |needle|] == hay[i..i + |needle|];
      }
    }
  }

  lemma OccursContains(hay: string, needle: string, i: nat)
    requires OccursAt(hay, needle, i)
    ensures Contains(hay, needle)
  {
    ContainsOccurs(hay, needle);
  }

  /** The lower-cased suffix of a string occurs in the lower-cased string. */
  lemma ContainsLowerSuffix(a: string, b: string)
    ensures Contains(Lower(a + b), Lower(b))
  {
    LowerAppend(a, b);
    var l := Lower(a) + Lower(b);
    assert l[|a|..|a| + |b|] == Lower(b);
    OccursContains(Lower(a + b), Lower(b), |a|);
  }

  /** The lower-cased prefix of a string occurs in the lower-cased string. */
  lemma ContainsLowerPrefix(a: string, b: string)
    ensures Contains(Lower(a + b), Lower(a))
  {
    LowerAppend(a, b);
    var l := Lower(a) + Lower(b);
    assert l[0..|a|] == Lower(a);
    OccursContains(Lower(a + b), Lower(a), 0);
  }

  /** A case-insensitive match of the lower-case literal `lit` at position `k`
      of `s` (the `(?i)` flag, restricted to ASCII letters). */
  predicate MatchesAt(s: string, k: nat, lit: string) {
    k + |lit| <= |s| && forall i :: 0 <= i < |lit| ==> LowerChar(s[k + i]) == lit[i]
  }

  /** Matching a literal in a suffix of `s` is matching it in `s`. */
  lemma MatchesAtShift(s: string, d: nat, k: nat, lit: string)
    requires d <= k <= |s|
    ensures MatchesAt(s, k, lit) == MatchesAt(s[d..], k - d, lit)
  {
  }

  /** A case-insensitive match is an occurrence in the lower-cased string. */
  lemma MatchesAtOccurs(s: string, k: nat, lit: string)
    requires MatchesAt(s, k, lit)
    ensures OccursAt(Lower(s), lit, k)
  {
    assert Lower(s)[k..k + |lit|] == lit by {
      forall i | 0 <= i < |lit| ensures Lower(s)[k..k + |lit|][i] == lit[i] {
        assert Lower(s)[k..k + |lit|][i] == Lower(s)[k + i];
      }
    }
  }

  /** The end of the run of `[a-zA-Z0-9\s]` characters starting at `k`: where a
      greedy `[a-zA-Z0-9\s]*` starting at `k` stops. */
  function WordRunEnd(s: string, k: nat): (r: nat)
    requires k <= |s|
    ensures k <= r <= |s|
    ensures forall i :: k <= i < r ==> IsWordChar(s[i])
    ensures r == |s| || !IsWordChar(s[r])
    decreases |s| - k
  {
    if k < |s| && IsWordChar(s[k]) then WordRunEnd(s, k + 1) else k
  }
}
