/**
 * Character classes and the few string operations the label tools rely on:
 * `str.strip`, `str.strip(chars)`, deleting every character of a class
 * (`re.sub(r"[\s]+", "", t)`) and the leftmost occurrence of a literal
 * pattern (`re.search` on a pattern without metacharacters).
 */
module Text {
  import opened Wrappers

  /** The characters for which Python's `str.isspace()` holds; `\s` in a `str`
      regular expression and `str.strip()` without arguments use this class. */
  const Whitespace: set<char> := {
    '\t', '\n', '\U{0B}', '\U{0C}', '\r', '\U{1C}', '\U{1D}', '\U{1E}', '\U{1F}', ' ',
    '\U{85}', '\U{A0}', '\U{1680}',
    '\U{2000}', '\U{2001}', '\U{2002}', '\U{2003}', '\U{2004}', '\U{2005}',
    '\U{2006}', '\U{2007}', '\U{2008}', '\U{2009}', '\U{200A}',
    '\U{2028}', '\U{2029}', '\U{202F}', '\U{205F}', '\U{3000}'
  }

  predicate IsSpace(c: char) {
    c in Whitespace
  }

  /** Decimal digits: ASCII and fullwidth. */
  predicate IsDigit(c: char) {
    ('0' <= c <= '9') || ('\U{FF10}' <= c <= '\U{FF19}')
  }

  predicate NoSpace(s: string) {
    forall i :: 0 <= i < |s| ==> !IsSpace(s[i])
  }

  /** Number of consecutive characters of `s` from position `i` on that satisfy `p`. */
  function RunFrom(s: string, i: nat, p: char -> bool): (n: nat)
    requires i <= |s|
    decreases |s| - i
    ensures i + n <= |s|
    ensures forall k :: i <= k < i + n ==> p(s[k])
    ensures i + n < |s| ==> !p(s[i + n])
  {
    if i == |s| || !p(s[i]) then 0 else 1 + RunFrom(s, i + 1, p)
  }

  /** The run is exactly `n` long when `n` characters satisfy `p` and the next does not. */
  lemma RunExact(s: string, i: nat, n: nat, p: char -> bool)
    requires i + n <= |s|
    requires forall k :: i <= k < i + n ==> p(s[k])
    requires i + n == |s| || !p(s[i + n])
    ensures RunFrom(s, i, p) == n
  {
  }

  /** Number of leading characters of `s` that satisfy `p`. */
  function LeadingCount(s: string, p: char -> bool): (n: nat)
    ensures n <= |s|
    ensures forall i :: 0 <= i < n ==> p(s[i])
    ensures n < |s| ==> !p(s[n])
  {
    RunFrom(s, 0, p)
  }

  /** Number of trailing characters of `s` that satisfy `p`. */
  function TrailingCount(s: string, p: char -> bool): (n: nat)
    ensures n <= |s|
    ensures forall i :: |s| - n <= i < |s| ==> p(s[i])
    ensures n < |s| ==> !p(s[|s| - 1 - n])
  {
    if s == [] || !p(s[|s| - 1]) then 0 else 1 + TrailingCount(s[..|s| - 1], p)
  }

  /** `s.strip(chars)` where `p` is membership in `chars`: the longest middle part
      of `s` that neither starts nor ends with a character satisfying `p`, all the
      dropped characters at both ends satisfying `p`. */
  function StripBy(s: string, p: char -> bool): (r: string)
    ensures LeadingCount(s, p) + |r| <= |s|
    ensures r == s[LeadingCount(s, p)..LeadingCount(s, p) + |r|]
    ensures forall i :: LeadingCount(s, p) + |r| <= i < |s| ==> p(s[i])
    ensures r != [] ==> !p(r[0]) && !p(r[|r| - 1])
  {
    var t := s[LeadingCount(s, p)..];
    t[..|t| - TrailingCount(t, p)]
  }

  /** A string that neither starts nor ends with a character satisfying `p` is
      stripped to itself. */
  lemma StripByUnchanged(s: string, p: char -> bool)
    requires s == [] || (!p(s[0]) && !p(s[|s| - 1]))
    ensures StripBy(s, p) == s
  {
    assert LeadingCount(s, p) == 0;
    assert s[0..] == s;
    assert TrailingCount(s, p) == 0;
  }

  /** `s` with every character satisfying `p` deleted, the others kept in order. */
  function Without(s: string, p: char -> bool): (r: string)
    ensures |r| <= |s|
    ensures forall i :: 0 <= i < |r| ==> !p(r[i]) && r[i] in s
  {
    if s == [] then []
    else (if p(s[0]) then [] else [s[0]]) + Without(s[1..], p)
  }

  lemma {:induction false} WithoutAppend(a: string, b: string, p: char -> bool)
    ensures Without(a + b, p) == Without(a, p) + Without(b, p)
  {
    if a != [] {
      assert (a + b)[0] == a[0] && (a + b)[1..] == a[1..] + b;
      WithoutAppend(a[1..], b, p);
    } else {
      assert a + b == b;
    }
  }

  /** Deleting a class of characters from a string made only of that class leaves nothing. */
  lemma {:induction false} WithoutAll(s: string, p: char -> bool)
    requires forall i :: 0 <= i < |s| ==> p(s[i])
    ensures Without(s, p) == []
  {
    if s != [] {
      WithoutAll(s[1..], p);
    }
  }

  /** Deleting a class of characters from a string that holds none of them changes nothing. */
  lemma {:induction false} WithoutNone(s: string, p: char -> bool)
    requires forall i :: 0 <= i < |s| ==> !p(s[i])
    ensures Without(s, p) == s
  {
    if s != [] {
      WithoutNone(s[1..], p);
      assert s == [s[0]] + s[1..];
    }
  }

  /** Dropping a prefix made only of deleted characters does not change the result. */
  lemma WithoutDropPrefix(s: string, n: nat, p: char -> bool)
    requires n <= |s| && forall i :: 0 <= i < n ==> p(s[i])
    ensures Without(s[n..], p) == Without(s, p)
  {
    assert s == s[..n] + s[n..];
    WithoutAppend(s[..n], s[n..], p);
    WithoutAll(s[..n], p);
  }

  /** Dropping a suffix made only of deleted characters does not change the result. */
  lemma WithoutDropSuffix(s: string, n: nat, p: char -> bool)
    requires n <= |s| && forall i :: n <= i < |s| ==> p(s[i])
    ensures Without(s[..n], p) == Without(s, p)
  {
    assert s == s[..n] + s[n..];
    WithoutAppend(s[..n], s[n..], p);
    WithoutAll(s[n..], p);
  }

  /** Stripping a class of characters before deleting it changes nothing. */
  lemma WithoutStrip(s: string, p: char -> bool)
    ensures Without(StripBy(s, p), p) == Without(s, p)
  {
    var lead := LeadingCount(s, p);
    var t := StripBy(s, p);
    WithoutDropPrefix(s, lead, p);
    assert t == s[lead..][..|t|];
    WithoutDropSuffix(s[lead..], |t|, p);
  }

  predicate OccursAt(s: string, pat: string, i: nat) {
    i + |pat| <= |s| && s[i..i + |pat|] == pat
  }

  /** The leftmost position at or after `from` where `pat` occurs in `s`. */
  function IndexFrom(s: string, pat: string, from: nat): (r: Option<nat>)
    requires from <= |s|
    decreases |s| - from
    ensures r.Some? ==> from <= r.value && OccursAt(s, pat, r.value)
    ensures r.Some? ==> forall j :: from <= j < r.value ==> !OccursAt(s, pat, j)
    ensures r.None? ==> forall j: nat :: from <= j ==> !OccursAt(s, pat, j)
  {
    if OccursAt(s, pat, from) then Some(from)
    else if from == |s| then None
    else IndexFrom(s, pat, from + 1)
  }

  /** `re.search(pat, s)` for a literal pattern: the start of its leftmost occurrence. */
  function IndexOf(s: string, pat: string): (r: Option<nat>)
    ensures r.Some? <==> exists j: nat :: OccursAt(s, pat, j)
    ensures r.Some? ==> OccursAt(s, pat, r.value) && forall j: nat :: j < r.value ==> !OccursAt(s, pat, j)
  {
    IndexFrom(s, pat, 0)
  }

  predicate Contains(s: string, pat: string) {
    IndexOf(s, pat).Some?
  }
}
