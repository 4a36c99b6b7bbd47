/**
 * Text handling of `tools/assign_kie_from_labeltxt.py`: `normalize_text`, the
 * label test `is_key_label` and the inline fallback `extract_inline_value`.
 * Every label pattern of the assigner is a literal, so a regular-expression
 * search is the leftmost occurrence of the pattern (`Text.IndexOf`).
 */
module AssignText {
  import opened Wrappers
  import opened Text

  /** The characters that may close an enumeration marker: . 、 ) ） : ： */
  predicate IsMarkerPunct(c: char) {
    c in {'.', '、', ')', '）', ':', '：'}
  }

  /** Length of the match of `^\s*\d+\s*[.、)）:：]\s*` at the start of `t`, 0 when there
      is none. Digits, whitespace and the closing characters are disjoint classes, so
      every repetition is maximal and the match is unique. */
  function MarkerLength(t: string): (n: nat)
    ensures n <= |t|
  {
    var a := RunFrom(t, 0, IsSpace);
    var d := RunFrom(t, a, IsDigit);
    var b := RunFrom(t, a + d, IsSpace);
    if d == 0 || a + d + b == |t| || !IsMarkerPunct(t[a + d + b]) then 0
    else a + d + b + 1 + RunFrom(t, a + d + b + 1, IsSpace)
  }

  /** `normalize_text`: strip, drop one leading enumeration marker, delete all whitespace. */
  function NormalizeText(text: Option<string>): (r: string)
    ensures NoSpace(r)
    ensures text.None? ==> r == ""
  {
    match text
    case None => ""
    case Some(s) =>
      var t := StripBy(s, IsSpace);
      Without(t[MarkerLength(t)..], IsSpace)
  }

  predicate AllDigits(s: string) {
    forall i :: 0 <= i < |s| ==> IsDigit(s[i])
  }

  predicate AllSpace(s: string) {
    forall i :: 0 <= i < |s| ==> IsSpace(s[i])
  }

  /** `s` holds only digits in positions `i` up to `j`. */
  predicate DigitsBetween(s: string, i: nat, j: nat) {
    forall k :: i <= k < j <= |s| ==> IsDigit(s[k])
  }

  /** `s` holds only whitespace in positions `i` up to `j`. */
  predicate SpaceBetween(s: string, i: nat, j: nat) {
    forall k :: i <= k < j <= |s| ==> IsSpace(s[k])
  }

  /** `s` holds only whitespace from position `k` on. */
  predicate SpaceFrom(s: string, k: nat) {
    forall i :: k <= i < |s| ==> IsSpace(s[i])
  }

  /** The marker of a text that starts with digits, then whitespace, then a closing
      character runs up to the end of the whitespace after that character. */
  lemma MarkerAfterDigits(t: string, d: nat, e: nat)
    requires 0 < d <= e < |t| && IsMarkerPunct(t[e])
    requires DigitsBetween(t, 0, d) && SpaceBetween(t, d, e)
    ensures MarkerLength(t) == e + 1 + RunFrom(t, e + 1, IsSpace)
  {
    DigitRun(t, d, e);
    GapRun(t, d, e);
    MarkerOfRuns(t, d, e);
  }

  /** The text starts with no whitespace and with exactly `d` digits. */
  lemma DigitRun(t: string, d: nat, e: nat)
    requires 0 < d <= e < |t| && IsMarkerPunct(t[e])
    requires DigitsBetween(t, 0, d) && SpaceBetween(t, d, e)
    ensures RunFrom(t, 0, IsSpace) == 0 && RunFrom(t, 0, IsDigit) == d
  {
    DigitNotSpace(t[0]);
    RunExact(t, 0, 0, IsSpace);
    if d < e {
      SpaceNotDigit(t[d]);
    } else {
      MarkerNotDigit(t[d]);
    }
    RunExact(t, 0, d, IsDigit);
  }

  /** The whitespace after the digits runs up to the closing character. */
  lemma GapRun(t: string, d: nat, e: nat)
    requires d <= e < |t| && IsMarkerPunct(t[e]) && SpaceBetween(t, d, e)
    ensures RunFrom(t, d, IsSpace) == e - d
  {
    MarkerNotSpace(t[e]);
    RunExact(t, d, e - d, IsSpace);
  }

  /** The marker length read off the three runs that precede the closing character. */
  lemma MarkerOfRuns(t: string, d: nat, e: nat)
    requires 0 < d <= e < |t| && IsMarkerPunct(t[e])
    requires RunFrom(t, 0, IsSpace) == 0 && RunFrom(t, 0, IsDigit) == d
    requires RunFrom(t, d, IsSpace) == e - d
    ensures MarkerLength(t) == e + 1 + RunFrom(t, e + 1, IsSpace)
  {
  }

  /** A leading marker (whitespace, digits, whitespace, a closing character) is
      dropped, and only that one: whatever follows is kept apart from its whitespace,
      even when it starts with another marker. */
  lemma NormalizeDropsOneMarker(lead: string, digits: string, gap: string, c: char, rest: string)
    requires AllSpace(lead) && digits != [] && AllDigits(digits) && AllSpace(gap)
    requires IsMarkerPunct(c)
    ensures NormalizeText(Some(lead + digits + gap + [c] + rest)) == Without(rest, IsSpace)
  {
    var s := lead + digits + gap + [c] + rest;
    var a, d := |lead|, |lead| + |digits|;
    var e := d + |gap|;
    assert s[e] == c;
    assert s[e + 1..] == rest;
    forall i | 0 <= i < a
      ensures IsSpace(s[i])
    {
      assert s[i] == lead[i];
    }
    forall i | a <= i < d
      ensures IsDigit(s[i])
    {
      assert s[i] == digits[i - a];
    }
    forall i | d <= i < e
      ensures IsSpace(s[i])
    {
      assert s[i] == gap[i - d];
    }
    NormalizeAfterMarker(s, a, d, e);
  }

  /** The same for a marker with no whitespace around its digits. */
  lemma NormalizeDropsBareMarker(digits: string, c: char, rest: string)
    requires digits != [] && AllDigits(digits) && IsMarkerPunct(c)
    ensures NormalizeText(Some(digits + [c] + rest)) == Without(rest, IsSpace)
  {
    assert [] + digits + [] + [c] + rest == digits + [c] + rest;
    NormalizeDropsOneMarker([], digits, [], c, rest);
  }

  /** The same, stated on positions: whitespace before `a`, digits from `a` to `d`,
      whitespace from `d` to `e` and a closing character at `e`. */
  lemma NormalizeAfterMarker(s: string, a: nat, d: nat, e: nat)
    requires a < d <= e < |s| && IsMarkerPunct(s[e])
    requires SpaceBetween(s, 0, a) && DigitsBetween(s, a, d) && SpaceBetween(s, d, e)
    ensures NormalizeText(Some(s)) == Without(s[e + 1..], IsSpace)
  {
    var t, m := MarkerEnd(s, a, d, e);
    NormalizeStripped(s, t, m);
  }

  /** Where the marker of the stripped text ends, and what deleting whitespace from the
      rest gives. */
  lemma MarkerEnd(s: string, a: nat, d: nat, e: nat) returns (t: string, m: nat)
    requires a < d <= e < |s| && IsMarkerPunct(s[e])
    requires SpaceBetween(s, 0, a) && DigitsBetween(s, a, d) && SpaceBetween(s, d, e)
    ensures t == StripBy(s, IsSpace) && m == MarkerLength(t) && m <= |t|
    ensures Without(t[m..], IsSpace) == Without(s[e + 1..], IsSpace)
  {
    assert IsDigit(s[a]);
    var keep := StripKeepsHead(s, a, e);
    t := s[a..e + 1 + keep];
    m := MarkerInPrefix(s, a, d, e, keep);
  }

  /** Stripping keeps everything from the first digit up to the closing character and
      cuts what follows after `keep` characters, all those dropped being whitespace. */
  lemma StripKeepsHead(s: string, a: nat, e: nat) returns (keep: nat)
    requires a <= e < |s| && SpaceBetween(s, 0, a)
    requires !IsSpace(s[a]) && !IsSpace(s[e])
    ensures e + 1 + keep <= |s|
    ensures StripBy(s, IsSpace) == s[a..e + 1 + keep]
    ensures SpaceFrom(s, e + 1 + keep)
  {
    RunExact(s, 0, a, IsSpace);
    var t := StripBy(s, IsSpace);
    assert t == s[a..a + |t|];
    keep := a + |t| - e - 1;
  }

  /** The marker of the part of `s` that stripping keeps, and what is left after it. */
  lemma MarkerInPrefix(s: string, a: nat, d: nat, e: nat, keep: nat) returns (m: nat)
    requires a < d <= e < |s| && IsMarkerPunct(s[e])
    requires SpaceBetween(s, 0, a) && DigitsBetween(s, a, d) && SpaceBetween(s, d, e)
    requires e + 1 + keep <= |s| && SpaceFrom(s, e + 1 + keep)
    ensures m == MarkerLength(s[a..e + 1 + keep]) && m <= e + 1 + keep - a
    ensures Without(s[a..e + 1 + keep][m..], IsSpace) == Without(s[e + 1..], IsSpace)
  {
    var t := s[a..e + 1 + keep];
    MarkerOfPrefix(s, a, d, e, t);
    var r := RunFrom(t, e - a + 1, IsSpace);
    DropSpaceRuns(s, a, e, keep, r);
    m := e - a + 1 + r;
  }

  /** A part of `s` from the first digit to past the closing character has the marker
      read off `s`. */
  lemma MarkerOfPrefix(s: string, a: nat, d: nat, e: nat, t: string)
    requires a < d <= e < |s| && IsMarkerPunct(s[e])
    requires DigitsBetween(s, a, d) && SpaceBetween(s, d, e)
    requires e < a + |t| <= |s| && t == s[a..a + |t|]
    ensures MarkerLength(t) == e - a + 1 + RunFrom(t, e - a + 1, IsSpace)
  {
    forall i | 0 <= i < d - a
      ensures IsDigit(t[i])
    {
      assert t[i] == s[a + i];
    }
    forall i | d - a <= i < e - a
      ensures IsSpace(t[i])
    {
      assert t[i] == s[a + i];
    }
    assert t[e - a] == s[e];
    MarkerAfterDigits(t, d - a, e - a);
  }

  /** Deleting whitespace ignores the whitespace run after the marker and the
      whitespace that stripping cut off the end. */
  lemma DropSpaceRuns(s: string, a: nat, e: nat, keep: nat, r: nat)
    requires a <= e && e + 1 + keep <= |s| && SpaceFrom(s, e + 1 + keep)
    requires r == RunFrom(s[a..e + 1 + keep], e - a + 1, IsSpace)
    ensures Without(s[a..e + 1 + keep][e - a + 1 + r..], IsSpace) == Without(s[e + 1..], IsSpace)
  {
    var t := s[a..e + 1 + keep];
    var u := s[e + 1..];
    assert t[e - a + 1 + r..] == u[..keep][r..];
    forall i | 0 <= i < r
      ensures IsSpace(u[..keep][i])
    {
      assert u[..keep][i] == t[e - a + 1 + i];
    }
    forall i | keep <= i < |u|
      ensures IsSpace(u[i])
    {
      assert u[i] == s[e + 1 + i];
    }
    WithoutDropPrefix(u[..keep], r, IsSpace);
    WithoutDropSuffix(u, keep, IsSpace);
  }

  /** `normalize_text` read off the stripped text and its marker length. */
  lemma NormalizeStripped(s: string, t: string, m: nat)
    requires StripBy(s, IsSpace) == t && MarkerLength(t) == m
    ensures NormalizeText(Some(s)) == Without(t[m..], IsSpace)
  {
  }

  /** When the stripped text has no leading marker, normalising only deletes
      whitespace. */
  lemma NormalizeWithoutMarker(s: string)
    requires MarkerLength(StripBy(s, IsSpace)) == 0
    ensures NormalizeText(Some(s)) == Without(s, IsSpace)
  {
    var t := StripBy(s, IsSpace);
    assert t[0..] == t;
    WithoutStrip(s, IsSpace);
  }

  /** A number that is not followed by a closing character, as in "2020年", is no
      marker: normalising keeps it. */
  lemma NormalizeKeepsNumber(digits: string, c: char, rest: string)
    requires digits != [] && AllDigits(digits)
    requires !IsSpace(c) && !IsDigit(c) && !IsMarkerPunct(c)
    ensures NormalizeText(Some(digits + [c] + rest)) == Without(digits + [c] + rest, IsSpace)
  {
    var s := digits + [c] + rest;
    var d := |digits|;
    assert s[d] == c;
    assert IsDigit(s[0]) by { assert s[0] == digits[0]; }
    var keep := StripKeepsHead(s, 0, d);
    var t := s[0..d + 1 + keep];
    forall i | 0 <= i < d
      ensures IsDigit(t[i])
    {
      assert t[i] == digits[i];
    }
    assert t[d] == c;
    RunExact(t, 0, 0, IsSpace);
    RunExact(t, 0, d, IsDigit);
    RunExact(t, d, 0, IsSpace);
    NormalizeWithoutMarker(s);
  }

  /** Normalising twice is not normalising once: a text with two markers, such as
      "1.2.x", loses the first on the first pass and the second on the next one. */
  lemma NormalizeNotIdempotent(d1: string, c1: char, d2: string, c2: char, rest: string)
    requires d1 != [] && AllDigits(d1) && IsMarkerPunct(c1)
    requires d2 != [] && AllDigits(d2) && IsMarkerPunct(c2)
    requires NoSpace(rest)
    ensures NormalizeText(Some(d1 + [c1] + d2 + [c2] + rest)) == d2 + [c2] + rest
    ensures NormalizeText(Some(d2 + [c2] + rest)) == rest
    ensures NormalizeText(Some(NormalizeText(Some(d1 + [c1] + d2 + [c2] + rest))))
         != NormalizeText(Some(d1 + [c1] + d2 + [c2] + rest))
  {
    var once := d2 + [c2] + rest;
    assert d1 + [c1] + d2 + [c2] + rest == d1 + [c1] + once;
    NormalizeDropsBareMarker(d1, c1, once);
    MarkedNoSpace(d2, c2, rest);
    WithoutNone(once, IsSpace);
    NormalizeDropsBareMarker(d2, c2, rest);
    WithoutNone(rest, IsSpace);
  }

  /** Digits and closing characters are not whitespace. */
  lemma MarkedNoSpace(digits: string, c: char, rest: string)
    requires AllDigits(digits) && IsMarkerPunct(c) && NoSpace(rest)
    ensures NoSpace(digits + [c] + rest)
  {
    var s := digits + [c] + rest;
    forall i | 0 <= i < |s|
      ensures !IsSpace(s[i])
    {
      if i < |digits| {
        DigitNotSpace(digits[i]);
        assert s[i] == digits[i];
      } else if i == |digits| {
        assert s[i] == c;
      } else {
        assert s[i] == rest[i - |digits| - 1];
      }
    }
  }

  lemma DigitNotSpace(c: char)
    requires IsDigit(c)
    ensures !IsSpace(c)
  {
  }

  lemma SpaceNotDigit(c: char)
    requires IsSpace(c)
    ensures !IsDigit(c)
  {
  }

  lemma MarkerNotDigit(c: char)
    requires IsMarkerPunct(c)
    ensures !IsDigit(c)
  {
  }

  lemma MarkerNotSpace(c: char)
    requires IsMarkerPunct(c)
    ensures !IsSpace(c)
  {
  }

  lemma StripNoSpace(s: string, p: char -> bool)
    requires NoSpace(s)
    ensures NoSpace(StripBy(s, p))
  {
    var lead := LeadingCount(s, p);
    var r := StripBy(s, p);
    forall i | 0 <= i < |r|
      ensures !IsSpace(r[i])
    {
      assert r[i] == s[lead + i];
    }
  }

  /** `is_key_label` (and the test inside `match_label_boxes`): one of the patterns occurs
      in the normalised text. */
  predicate IsKeyLabel(text: Option<string>, patterns: seq<string>) {
    exists k :: 0 <= k < |patterns| && Contains(NormalizeText(text), patterns[k])
  }

  /** The characters `":：/\\-| "` that the inline value is trimmed of. */
  predicate IsSeparator(c: char) {
    c in {':', '：', '/', '\\', '-', '|', ' '}
  }

  /** `leftover.strip().strip(":：/\\-| ")`. */
  function Trim(s: string): (r: string)
    ensures NoSpace(s) ==> NoSpace(r)
    ensures r == [] || (!IsSeparator(r[0]) && !IsSeparator(r[|r| - 1]))
  {
    var t := StripBy(s, IsSpace);
    var r := StripBy(t, IsSeparator);
    assert NoSpace(s) ==> NoSpace(r) by {
      if NoSpace(s) {
        StripNoSpace(s, IsSpace);
        StripNoSpace(t, IsSeparator);
      }
    }
    r
  }

  /** The normalised text with the leftmost occurrence of `pat` removed, trimmed. */
  function CutOut(norm: string, pat: string): (r: string)
    requires Contains(norm, pat)
    ensures NoSpace(norm) ==> NoSpace(r)
    ensures r == [] || (!IsSeparator(r[0]) && !IsSeparator(r[|r| - 1]))
  {
    var i := IndexOf(norm, pat).value;
    var cut := norm[..i] + norm[i + |pat|..];
    assert NoSpace(norm) ==> NoSpace(cut) by {
      if NoSpace(norm) {
        forall j | 0 <= j < |cut|
          ensures !IsSpace(cut[j])
        {
          if j >= i {
            assert cut[j] == norm[j + |pat|];
          }
        }
      }
    }
    Trim(cut)
  }

  /** The loop of `extract_inline_value`: the first pattern, from position `from` on,
      that occurs in the normalised text. */
  function FirstMatchFrom(norm: string, patterns: seq<string>, from: nat): (r: Option<nat>)
    requires from <= |patterns|
    decreases |patterns| - from
    ensures r.Some? ==> from <= r.value < |patterns| && Contains(norm, patterns[r.value])
    ensures forall k :: from <= k < (if r.Some? then r.value else |patterns|) ==> !Contains(norm, patterns[k])
  {
    if from == |patterns| then None
    else if Contains(norm, patterns[from]) then Some(from)
    else FirstMatchFrom(norm, patterns, from + 1)
  }

  /** `extract_inline_value`: the inline value left in a label box's own text, or "" when
      none of the patterns occurs in it. */
  function ExtractInlineValue(text: Option<string>, patterns: seq<string>): (r: string)
    ensures NoSpace(r)
    ensures r == [] || (!IsSeparator(r[0]) && !IsSeparator(r[|r| - 1]))
    ensures !IsKeyLabel(text, patterns) ==> r == []
  {
    var norm := NormalizeText(text);
    match FirstMatchFrom(norm, patterns, 0)
    case None => ""
    case Some(j) => CutOut(norm, patterns[j])
  }

  /** The value is cut out at the first pattern, in list order, that occurs at all,
      at its leftmost occurrence (`CutOut`): the text before and after that span, trimmed. */
  lemma ExtractUsesFirstMatch(text: Option<string>, patterns: seq<string>, j: nat)
    requires j < |patterns| && Contains(NormalizeText(text), patterns[j])
    requires forall k :: 0 <= k < j ==> !Contains(NormalizeText(text), patterns[k])
    ensures ExtractInlineValue(text, patterns) == CutOut(NormalizeText(text), patterns[j])
  {
    FirstMatchIs(NormalizeText(text), patterns, 0, j);
  }

  lemma {:induction false} FirstMatchIs(norm: string, patterns: seq<string>, from: nat, j: nat)
    requires from <= j < |patterns| && Contains(norm, patterns[j])
    requires forall k :: from <= k < j ==> !Contains(norm, patterns[k])
    ensures FirstMatchFrom(norm, patterns, from) == Some(j)
    decreases j - from
  {
    if from < j {
      FirstMatchIs(norm, patterns, from + 1, j);
    }
  }
}
