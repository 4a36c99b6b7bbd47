/**
 * The report of `tools/check_kie_labels.py`: each reason of an image as the text
 * the checker appends, the distinct texts in sorted order, each translated by
 * its prefix, joined with a full-width comma after the image path and a tab.
 */
module CheckReport {
  import opened Wrappers
  import opened Lists
  import opened Records
  import opened CheckKie
  import opened CheckKieFile

  /** `f"{key_cls}"`: a JSON null key is written "None", like the key "None". */
  function KeyText(k: Option<string>): string {
    match k
    case None => "None"
    case Some(s) => s
  }

  /** The text the checker appends for a reason. */
  function ReasonText(r: Reason): string {
    match r
    case InvalidJson => "invalid_json"
    case InvalidKey(k) => "invalid_key:" + KeyText(k)
    case UnrecognizedValue(k) => "unrecognized_value:" + KeyText(k)
    case DuplicateKey(k) => "duplicate_key:" + KeyText(k)
    case DuplicateSame(k) => "duplicate_same:" + KeyText(k)
  }

  // ------------------------------------------------------------- sorted(set(...))

  /** Python's `a < b` on `str`: lexicographic by code point, a proper prefix first. */
  predicate Below(a: string, b: string) {
    if a == [] then b != []
    else if b == [] then false
    else if a[0] != b[0] then a[0] < b[0]
    else Below(a[1..], b[1..])
  }

  lemma {:induction false} BelowIrreflexive(a: string)
    ensures !Below(a, a)
  {
    if a != [] {
      BelowIrreflexive(a[1..]);
    }
  }

  lemma {:induction false} BelowTransitive(a: string, b: string, c: string)
    requires Below(a, b) && Below(b, c)
    ensures Below(a, c)
  {
    if a != [] && b != [] && c != [] && a[0] == b[0] && b[0] == c[0] {
      BelowTransitive(a[1..], b[1..], c[1..]);
    }
  }

  lemma {:induction false} BelowTotal(a: string, b: string)
    ensures a == b || Below(a, b) || Below(b, a)
  {
    if a != [] && b != [] && a[0] == b[0] {
      BelowTotal(a[1..], b[1..]);
      if a[1..] == b[1..] {
        assert a == [a[0]] + a[1..] && b == [b[0]] + b[1..];
      }
    }
  }

  predicate StrictlySorted(xs: seq<string>) {
    forall i, j :: 0 <= i < j < |xs| ==> Below(xs[i], xs[j])
  }

  /** `x` put into a sorted list of distinct texts, unless it is there already. */
  function InsertUnique(x: string, xs: seq<string>): (r: seq<string>)
    ensures |r| <= |xs| + 1
  {
    if xs == [] then [x]
    else if x == xs[0] then xs
    else if Below(x, xs[0]) then [x] + xs
    else [xs[0]] + InsertUnique(x, xs[1..])
  }

  lemma {:induction false} InsertUniqueIff(x: string, xs: seq<string>, y: string)
    ensures y in InsertUnique(x, xs) <==> y == x || y in xs
  {
    if xs != [] && x != xs[0] && !Below(x, xs[0]) {
      InsertUniqueIff(x, xs[1..], y);
      assert xs == [xs[0]] + xs[1..];
    }
  }

  lemma {:induction false} InsertUniqueSorted(x: string, xs: seq<string>)
    requires StrictlySorted(xs)
    ensures StrictlySorted(InsertUnique(x, xs))
  {
    if xs == [] {
    } else if x == xs[0] {
    } else if Below(x, xs[0]) {
      var r := [x] + xs;
      forall i, j | 0 <= i < j < |r|
        ensures Below(r[i], r[j])
      {
        if i == 0 && j > 1 {
          BelowTransitive(x, xs[0], xs[j - 1]);
        }
      }
    } else {
      var tail := xs[1..];
      assert StrictlySorted(tail);
      InsertUniqueSorted(x, tail);
      BelowTotal(x, xs[0]);
      var rest := InsertUnique(x, tail);
      var r := [xs[0]] + rest;
      forall i, j | 0 <= i < j < |r|
        ensures Below(r[i], r[j])
      {
        if i == 0 {
          InsertUniqueIff(x, tail, rest[j - 1]);
          if rest[j - 1] != x {
            var k :| 0 <= k < |tail| && tail[k] == rest[j - 1];
            assert xs[k + 1] == tail[k];
          }
        }
      }
    }
  }

  /** `sorted(set(texts))`, built one text at a time. */
  function SortedSet(texts: seq<string>): (r: seq<string>)
    ensures |r| <= |texts|
  {
    if texts == [] then [] else InsertUnique(texts[|texts| - 1], SortedSet(texts[..|texts| - 1]))
  }

  /** The sorted set holds each text once, in increasing order. */
  lemma {:induction false} SortedSetSpec(texts: seq<string>)
    ensures StrictlySorted(SortedSet(texts))
    ensures forall y :: y in SortedSet(texts) <==> y in texts
  {
    if texts != [] {
      var init := texts[..|texts| - 1];
      var last := texts[|texts| - 1];
      SortedSetSpec(init);
      InsertUniqueSorted(last, SortedSet(init));
      forall y
        ensures y in SortedSet(texts) <==> y in texts
      {
        InsertUniqueIff(last, SortedSet(init), y);
        assert texts == init + [last];
      }
    }
  }

  /** Two strictly sorted lists with the same elements are the same list: the sorted
      set does not depend on the order or the repetitions of the texts. */
  lemma {:induction false} StrictlySortedUnique(a: seq<string>, b: seq<string>)
    requires StrictlySorted(a) && StrictlySorted(b)
    requires forall y :: y in a <==> y in b
    ensures a == b
  {
    if b != [] {
      assert b[0] in b;
    }
    if a != [] {
      assert a[0] in b;
      assert b != [];
      assert b[0] in a;
      if a[0] != b[0] {
        var i :| 0 <= i < |b| && b[i] == a[0];
        var j :| 0 <= j < |a| && a[j] == b[0];
        BelowTransitive(a[0], b[0], a[0]);
        BelowIrreflexive(a[0]);
      }
      var ta, tb := a[1..], b[1..];
      forall y
        ensures y in ta <==> y in tb
      {
        if y in ta {
          var i :| 0 <= i < |ta| && ta[i] == y;
          assert a[i + 1] == y && y in a && y in b;
          BelowIrreflexive(y);
          assert y != a[0];
          var j :| 0 <= j < |b| && b[j] == y;
          assert j != 0;
          assert tb[j - 1] == y;
        }
        if y in tb {
          var i :| 0 <= i < |tb| && tb[i] == y;
          assert b[i + 1] == y && y in b && y in a;
          BelowIrreflexive(y);
          assert y != b[0];
          var j :| 0 <= j < |a| && a[j] == y;
          assert j != 0;
          assert ta[j - 1] == y;
        }
      }
      assert StrictlySorted(ta) && StrictlySorted(tb);
      StrictlySortedUnique(ta, tb);
      assert a == [a[0]] + ta && b == [b[0]] + tb;
    }
  }

  /** Sorting the set of the texts in any other order gives the same list. */
  lemma SortedSetSameElements(t1: seq<string>, t2: seq<string>)
    requires forall y :: y in t1 <==> y in t2
    ensures SortedSet(t1) == SortedSet(t2)
  {
    SortedSetSpec(t1);
    SortedSetSpec(t2);
    StrictlySortedUnique(SortedSet(t1), SortedSet(t2));
  }

  // ------------------------------------------------------------- the translation

  /** `r.split(":", 1)[1]`: what follows the first colon. */
  function AfterColon(r: string): string
    requires ':' in r
  {
    if r[0] == ':' then r[1..] else AfterColon(r[1..])
  }

  /** After a prefix whose only colon is its last character, `split` returns what
      follows the prefix. */
  lemma {:induction false} AfterColonOfPrefix(p: string, s: string)
    requires p != [] && p[|p| - 1] == ':' && ':' !in p[..|p| - 1]
    ensures ':' in p + s && AfterColon(p + s) == s
  {
    assert (p + s)[|p| - 1] == ':';
    if |p| == 1 {
      assert (p + s)[1..] == s;
    } else {
      assert p[0] in p[..|p| - 1];
      assert p[1..][..|p| - 2] == p[1..|p| - 1];
      assert ':' !in p[1..][..|p| - 2];
      AfterColonOfPrefix(p[1..], s);
      assert (p + s)[1..] == p[1..] + s;
    }
  }

  predicate StartsWith(r: string, p: string) {
    |p| <= |r| && r[..|p|] == p
  }

  /** The Chinese text printed for one reason text, chosen by its prefix. */
  function CnText(r: string): string {
    if StartsWith(r, "invalid_key:") then
      assert r[11] == ':';
      "不在关键词中:" + AfterColon(r)
    else if StartsWith(r, "duplicate_key:") then
      assert r[13] == ':';
      "重复标注:" + AfterColon(r)
    else if StartsWith(r, "duplicate_same:") then
      assert r[14] == ':';
      "重复同值(可清理):" + AfterColon(r)
    else if StartsWith(r, "unrecognized_value:") then
      assert r[18] == ':';
      "未识别:" + AfterColon(r)
    else r
  }

  /** The Chinese text of each kind of reason, stated on the reason itself. */
  function CnOf(r: Reason): string {
    match r
    case InvalidJson => "invalid_json"
    case InvalidKey(k) => "不在关键词中:" + KeyText(k)
    case DuplicateKey(k) => "重复标注:" + KeyText(k)
    case DuplicateSame(k) => "重复同值(可清理):" + KeyText(k)
    case UnrecognizedValue(k) => "未识别:" + KeyText(k)
  }

  /** Translating the text of a reason by its prefix gives the translation of the
      reason: no prefix shadows another, and the key is kept whole even when it
      holds a colon. */
  lemma CnTextOfReason(r: Reason)
    ensures CnText(ReasonText(r)) == CnOf(r)
  {
    var t := ReasonText(r);
    match r
    case InvalidJson =>
      assert !StartsWith(t, "invalid_key:") by { assert t[8] != 'k'; }
    case InvalidKey(k) =>
      assert ':' !in "invalid_key";
      AfterColonOfPrefix("invalid_key:", KeyText(k));
    case DuplicateKey(k) =>
      assert !StartsWith(t, "invalid_key:") by { assert t[0] != 'i'; }
      assert ':' !in "duplicate_key";
      AfterColonOfPrefix("duplicate_key:", KeyText(k));
    case DuplicateSame(k) =>
      assert !StartsWith(t, "invalid_key:") by { assert t[0] != 'i'; }
      assert !StartsWith(t, "duplicate_key:") by { assert t[10] != 'k'; }
      assert ':' !in "duplicate_same";
      AfterColonOfPrefix("duplicate_same:", KeyText(k));
    case UnrecognizedValue(k) =>
      assert !StartsWith(t, "invalid_key:") by { assert t[0] != 'i'; }
      assert !StartsWith(t, "duplicate_key:") by { assert t[0] != 'd'; }
      assert !StartsWith(t, "duplicate_same:") by { assert t[0] != 'd'; }
      assert ':' !in "unrecognized_value";
      AfterColonOfPrefix("unrecognized_value:", KeyText(k));
  }

  // ------------------------------------------------------------- the printed line

  /** `sep.join(parts)`. */
  function Join(parts: seq<string>, sep: string): (r: string)
    ensures parts == [] ==> r == []
    ensures |parts| == 1 ==> r == parts[0]
  {
    if parts == [] then []
    else if |parts| == 1 then parts[0]
    else Join(parts[..|parts| - 1], sep) + sep + parts[|parts| - 1]
  }

  /** The reasons of one image as printed: the sorted distinct texts, translated. */
  function ReasonsLine(reasons: seq<Reason>): seq<string> {
    Image(SortedSet(Image(reasons, ReasonText)), CnText)
  }

  /** The line printed for one report. */
  function ReportLine(rep: Report): string {
    rep.path + "\t" + Join(ReasonsLine(rep.reasons), "，")
  }

  /** The loop that builds `cn_reasons` for one image and prints it. */
  method RenderReport(rep: Report) returns (line: string)
    ensures line == ReportLine(rep)
  {
    var sorted := SortedSet(Image(rep.reasons, ReasonText));
    var cn: seq<string> := [];
    for i := 0 to |sorted|
      invariant cn == Image(sorted[..i], CnText)
    {
      PrefixStep(sorted, i);
      ImageAppend(sorted[..i], sorted[i], CnText);
      cn := cn + [CnText(sorted[i])];
    }
    assert sorted[..|sorted|] == sorted;
    line := rep.path + "\t" + Join(cn, "，");
  }

  /** The loop over `bad_images`. */
  method RenderReports(bad: seq<Report>) returns (lines: seq<string>)
    ensures lines == Image(bad, ReportLine)
  {
    lines := [];
    for i := 0 to |bad|
      invariant lines == Image(bad[..i], ReportLine)
    {
      var line := RenderReport(bad[i]);
      PrefixStep(bad, i);
      ImageAppend(bad[..i], bad[i], ReportLine);
      lines := lines + [line];
    }
    assert bad[..|bad|] == bad;
  }

  /** The printed reasons are the translations of the distinct reasons, each once and
      in the order of their texts; the order and repetitions of the reasons do not
      matter. */
  lemma ReasonsLineSpec(reasons: seq<Reason>, other: seq<Reason>)
    requires forall r :: r in reasons <==> r in other
    ensures ReasonsLine(reasons) == ReasonsLine(other)
    ensures forall r :: r in reasons ==> CnOf(r) in ReasonsLine(reasons)
  {
    var t1, t2 := Image(reasons, ReasonText), Image(other, ReasonText);
    forall y
      ensures y in t1 <==> y in t2
    {
      if y in t1 {
        var i :| 0 <= i < |t1| && t1[i] == y;
        assert reasons[i] in reasons && reasons[i] in other;
        var j :| 0 <= j < |other| && other[j] == reasons[i];
        assert t2[j] == y;
      }
      if y in t2 {
        var i :| 0 <= i < |t2| && t2[i] == y;
        assert other[i] in other && other[i] in reasons;
        var j :| 0 <= j < |reasons| && reasons[j] == other[i];
        assert t1[j] == y;
      }
    }
    SortedSetSameElements(t1, t2);
    SortedSetSpec(t1);
    forall r | r in reasons
      ensures CnOf(r) in ReasonsLine(reasons)
    {
      var i :| 0 <= i < |reasons| && reasons[i] == r;
      assert t1[i] == ReasonText(r) && t1[i] in t1;
      var s := SortedSet(t1);
      assert ReasonText(r) in s;
      var j :| 0 <= j < |s| && s[j] == ReasonText(r);
      CnTextOfReason(r);
      assert ReasonsLine(reasons)[j] == CnOf(r);
    }
  }

  /** A printed line splits at its first tab into the image path and the reasons. */
  lemma ReportLineSplits(rep: Report)
    requires '\t' !in rep.path
    ensures SplitAtTab(ReportLine(rep)) == Some((rep.path, Join(ReasonsLine(rep.reasons), "，")))
  {
    SplitAtTabOf(rep.path, Join(ReasonsLine(rep.reasons), "，"));
  }
}
