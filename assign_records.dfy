/**
 * The record loop of `tools/assign_kie_from_labeltxt.py`: for one image, find the
 * label box of every spec, pair it with the value boxes on its row to the right,
 * fall back to a value written inside the label box, and sort what was emitted by
 * position. `AssignFile` runs it over the lines of a label file.
 */
module AssignRecords {
  import opened Wrappers
  import opened Text
  import opened Lists
  import opened Sorting
  import opened Records
  import opened AssignText
  import opened AssignBoxes
  import opened AssignSpecs

  /** Every item has a polygon: `min` of the coordinates of an empty one raises. */
  predicate HasPoints(items: seq<Item>) {
    forall i :: 0 <= i < |items| ==> items[i].points != []
  }

  /** `[build_box(i, item) for i, item in enumerate(items)]`. */
  function BoxesOf(items: seq<Item>): (boxes: seq<Box>)
    requires HasPoints(items)
    ensures |boxes| == |items| && Indexed(boxes)
    ensures forall i :: 0 <= i < |boxes| ==> boxes[i].points == items[i].points && HeightOk(boxes[i])
  {
    seq(|items|, i requires 0 <= i < |items| => BuildBox(i, items[i]))
  }

  /** Each box sits at the position of its item: `idx` is its index in the record. */
  predicate Indexed(boxes: seq<Box>) {
    forall i :: 0 <= i < |boxes| ==> boxes[i].idx == i
  }

  function Rank(b: Box): int {
    b.idx
  }

  lemma IndexedIncreasing(boxes: seq<Box>)
    requires Indexed(boxes)
    ensures Increasing(boxes, Rank)
  {
  }

  /** `key_flags[b.idx]` holds whether `b` is a label of any spec. */
  predicate FlagsAgree(flags: map<nat, bool>, boxes: seq<Box>, all: seq<string>) {
    forall i :: 0 <= i < |boxes| ==> boxes[i].idx in flags && flags[boxes[i].idx] == IsKeyLabel(boxes[i].text, all)
  }

  /** `key_flags = {b.idx: is_key_label(b.text, all_label_patterns) for b in boxes}`. */
  method KeyFlags(boxes: seq<Box>, all: seq<string>) returns (flags: map<nat, bool>)
    requires Indexed(boxes)
    ensures FlagsAgree(flags, boxes, all)
    ensures forall k: nat :: k in flags <==> k < |boxes|
  {
    flags := map[];
    for i := 0 to |boxes|
      invariant forall k: nat :: k in flags <==> k < i
      invariant forall j :: 0 <= j < i ==> flags[j] == IsKeyLabel(boxes[j].text, all)
    {
      flags := flags[boxes[i].idx := IsKeyLabel(boxes[i].text, all)];
    }
  }

  /** The test of `match_label_boxes`: the normalised text contains one of the patterns. */
  function Matches(patterns: seq<string>): Box -> bool {
    (b: Box) => IsKeyLabel(b.text, patterns)
  }

  /** `match_label_boxes`: the boxes whose text matches, sorted into reading order. */
  method MatchLabelBoxes(boxes: seq<Box>, patterns: seq<string>) returns (matched: seq<Box>)
    ensures matched == SortBy(Filter(boxes, Matches(patterns)), ReadingKey)
  {
    matched := [];
    for i := 0 to |boxes|
      invariant matched == Filter(boxes[..i], Matches(patterns))
    {
      assert boxes[..i + 1][..i] == boxes[..i];
      if IsKeyLabel(boxes[i].text, patterns) {
        matched := matched + [boxes[i]];
      }
    }
    assert boxes[..|boxes|] == boxes;
    matched := SortBy(matched, ReadingKey);
  }

  /** `label_boxes[0]`, or `None` when no box matches (the spec is skipped). */
  function LabelOf(boxes: seq<Box>, patterns: seq<string>): Option<Box> {
    var matched := SortBy(Filter(boxes, Matches(patterns)), ReadingKey);
    if matched == [] then None else Some(matched[0])
  }

  /** There is a label exactly when some box matches. */
  lemma LabelExists(boxes: seq<Box>, patterns: seq<string>)
    ensures LabelOf(boxes, patterns).Some? <==>
              exists i :: 0 <= i < |boxes| && IsKeyLabel(boxes[i].text, patterns)
  {
    if i :| 0 <= i < |boxes| && IsKeyLabel(boxes[i].text, patterns) {
      assert Matches(patterns)(boxes[i]);
      FilterIff(boxes, Matches(patterns), boxes[i]);
    }
    var f := Filter(boxes, Matches(patterns));
    var matched := SortBy(f, ReadingKey);
    if matched != [] {
      assert matched[0] in multiset(f);
      FilterIff(boxes, Matches(patterns), matched[0]);
      var i :| 0 <= i < |boxes| && boxes[i] == matched[0];
    }
  }

  /** The label is the first matching box in stable reading order: its (cy, cx) is the
      least of all matching boxes, and among those with the same (cy, cx) it comes
      first in the record. */
  lemma LabelIsFirstInReadingOrder(boxes: seq<Box>, patterns: seq<string>, b: Box)
    requires Indexed(boxes) && LabelOf(boxes, patterns).Some?
    requires b in boxes && IsKeyLabel(b.text, patterns)
    ensures var labelBox := LabelOf(boxes, patterns).value;
            && labelBox in boxes && IsKeyLabel(labelBox.text, patterns)
            && KeyLe(ReadingKey(labelBox), ReadingKey(b))
            && (ReadingKey(b) == ReadingKey(labelBox) ==> labelBox.idx <= b.idx)
  {
    var m := Filter(boxes, Matches(patterns));
    var labelBox := LabelOf(boxes, patterns).value;
    SortByFirst(m, ReadingKey);
    assert Matches(patterns)(b);
    FilterIff(boxes, Matches(patterns), b);
    assert labelBox in multiset(m);
    FilterIff(boxes, Matches(patterns), labelBox);
    if ReadingKey(b) == ReadingKey(labelBox) {
      IndexedIncreasing(boxes);
      FilterIncreasing(boxes, Matches(patterns), Rank);
      WithKeyIncreasing(m, ReadingKey, ReadingKey(labelBox), Rank);
      WithKeyComplete(m, ReadingKey, b);
      IncreasingFirst(WithKey(m, ReadingKey, ReadingKey(labelBox)), Rank, b);
    }
  }

  /** The candidate test of the loop over `boxes` for one label. */
  predicate IsCandidate(b: Box, labelBox: Box, all: seq<string>, gap: real, ratio: real) {
    && b.idx != labelBox.idx
    && !IsKeyLabel(b.text, all)
    && b.cx > labelBox.maxx + gap
    && SameRow(labelBox, b, ratio)
  }

  function CandidateTest(labelBox: Box, all: seq<string>, gap: real, ratio: real): Box -> bool {
    (b: Box) => IsCandidate(b, labelBox, all, gap, ratio)
  }

  /** The candidates of a label, sorted by `cx`. */
  function Candidates(boxes: seq<Box>, labelBox: Box, all: seq<string>, gap: real, ratio: real): seq<Box> {
    SortBy(Filter(boxes, CandidateTest(labelBox, all, gap, ratio)), CxKey)
  }

  /** The candidate loop and `candidates.sort(key=lambda b: b.cx)`. */
  method CollectCandidates(boxes: seq<Box>, labelBox: Box, flags: map<nat, bool>, all: seq<string>, gap: real, ratio: real)
    returns (cands: seq<Box>)
    requires FlagsAgree(flags, boxes, all)
    ensures cands == Candidates(boxes, labelBox, all, gap, ratio)
  {
    cands := [];
    for i := 0 to |boxes|
      invariant cands == Filter(boxes[..i], CandidateTest(labelBox, all, gap, ratio))
    {
      assert boxes[..i + 1][..i] == boxes[..i];
      var b := boxes[i];
      var flagged := if b.idx in flags then flags[b.idx] else false;
      if b.idx == labelBox.idx {
      } else if flagged {
      } else if b.cx <= labelBox.maxx + gap {
      } else if SameRow(labelBox, b, ratio) {
        cands := cands + [b];
      }
    }
    assert boxes[..|boxes|] == boxes;
    cands := SortBy(cands, CxKey);
  }

  /** Exactly the boxes that pass the test are candidates, and they are in ascending
      `cx` order. */
  lemma CandidatesAreTheTestedBoxes(boxes: seq<Box>, labelBox: Box, all: seq<string>, gap: real, ratio: real, b: Box)
    ensures b in Candidates(boxes, labelBox, all, gap, ratio) <==> b in boxes && IsCandidate(b, labelBox, all, gap, ratio)
    ensures var c := Candidates(boxes, labelBox, all, gap, ratio);
            forall i, j :: 0 <= i < j < |c| ==> c[i].cx <= c[j].cx
  {
    var p := CandidateTest(labelBox, all, gap, ratio);
    var f := Filter(boxes, p);
    var c := Candidates(boxes, labelBox, all, gap, ratio);
    assert multiset(c) == multiset(f);
    FilterIff(boxes, p, b);
    if b in c {
      assert b in multiset(f);
    }
    if b in boxes && IsCandidate(b, labelBox, all, gap, ratio) {
      assert p(b);
      assert b in multiset(c);
    }
    forall i, j | 0 <= i < j < |c|
      ensures c[i].cx <= c[j].cx
    {
      assert KeyLe(CxKey(c[i]), CxKey(c[j]));
    }
  }

  /** No label box of any spec is ever a candidate. */
  lemma LabelNeverCandidate(b: Box, labelBox: Box, specs: seq<LabelSpec>, s: nat, gap: real, ratio: real)
    requires s < |specs| && IsKeyLabel(b.text, specs[s].patterns)
    ensures !IsCandidate(b, labelBox, AllPatterns(specs), gap, ratio)
  {
    KeyLabelOfSpec(b.text, specs, s);
  }

  /** A larger gap or a larger overlap ratio never adds a candidate. */
  lemma CandidatesMonotone(boxes: seq<Box>, labelBox: Box, all: seq<string>, gap1: real, gap2: real, r1: real, r2: real)
    requires gap1 <= gap2 && r1 <= r2
    ensures forall b :: b in Candidates(boxes, labelBox, all, gap2, r2) ==> b in Candidates(boxes, labelBox, all, gap1, r1)
    ensures |Candidates(boxes, labelBox, all, gap2, r2)| <= |Candidates(boxes, labelBox, all, gap1, r1)|
  {
    var p2 := CandidateTest(labelBox, all, gap2, r2);
    var p1 := CandidateTest(labelBox, all, gap1, r1);
    forall i | 0 <= i < |boxes| && p2(boxes[i])
      ensures p1(boxes[i])
    {
      SameRowMonotone(labelBox, boxes[i], r1, r2);
    }
    forall b | b in Candidates(boxes, labelBox, all, gap2, r2)
      ensures b in Candidates(boxes, labelBox, all, gap1, r1)
    {
      CandidatesAreTheTestedBoxes(boxes, labelBox, all, gap2, r2, b);
      CandidatesAreTheTestedBoxes(boxes, labelBox, all, gap1, r1, b);
      SameRowMonotone(labelBox, b, r1, r2);
    }
    FilterWeaker(boxes, p2, p1);
  }

  /** An emitted item: `{"transcription", "points", "difficult": False, "key_cls"}`. */
  function OutItem(text: Option<string>, points: seq<Point>, key: string): Item {
    Item(if text.Some? then Present(text.value) else Null, Absent, points, Present(false), Present(key))
  }

  /** Candidate `i` with key `i`, for as many as there are of both. */
  function Paired(cands: seq<Box>, keys: seq<string>): (r: seq<Item>)
    ensures |r| == if |cands| <= |keys| then |cands| else |keys|
  {
    var n := if |cands| <= |keys| then |cands| else |keys|;
    seq(n, i requires 0 <= i < n => OutItem(cands[i].text, cands[i].points, keys[i]))
  }

  /** What one spec emits for a record. */
  function SpecItems(boxes: seq<Box>, spec: LabelSpec, all: seq<string>, gap: real, ratio: real): seq<Item>
    requires spec.valueKeys != []
  {
    match LabelOf(boxes, spec.patterns)
    case None => []
    case Some(labelBox) =>
      var cands := Candidates(boxes, labelBox, all, gap, ratio);
      if cands != [] then Paired(cands, spec.valueKeys)
      else
        var inline := ExtractInlineValue(labelBox.text, spec.patterns);
        if inline != "" then [OutItem(Some(inline), labelBox.points, spec.valueKeys[0])] else []
  }

  /** A spec none of whose patterns occurs in any box is skipped: it emits nothing. */
  lemma SpecWithoutLabel(boxes: seq<Box>, spec: LabelSpec, all: seq<string>, gap: real, ratio: real)
    requires spec.valueKeys != []
    requires forall i :: 0 <= i < |boxes| ==> !IsKeyLabel(boxes[i].text, spec.patterns)
    ensures SpecItems(boxes, spec, all, gap, ratio) == []
  {
    LabelExists(boxes, spec.patterns);
  }

  /** With candidates, a spec emits one item per key while candidates last: item `i`
      has the text and polygon of the `i`-th candidate from the left and key `i`. */
  lemma SpecPairsCandidates(boxes: seq<Box>, spec: LabelSpec, all: seq<string>, gap: real, ratio: real)
    requires spec.valueKeys != [] && LabelOf(boxes, spec.patterns).Some?
    requires Candidates(boxes, LabelOf(boxes, spec.patterns).value, all, gap, ratio) != []
    ensures var cands := Candidates(boxes, LabelOf(boxes, spec.patterns).value, all, gap, ratio);
            var out := SpecItems(boxes, spec, all, gap, ratio);
            && |out| == (if |cands| <= |spec.valueKeys| then |cands| else |spec.valueKeys|)
            && forall i :: 0 <= i < |out| ==>
                 out[i].points == cands[i].points && out[i].keyCls == Present(spec.valueKeys[i])
                 && out[i].transcription == (if cands[i].text.Some? then Present(cands[i].text.value) else Null)
  {
  }

  /** Without candidates, a spec emits at most one item: the inline value of its label
      box, with the first key and the label's polygon, and only when that value is not
      empty. */
  lemma SpecFallsBackInline(boxes: seq<Box>, spec: LabelSpec, all: seq<string>, gap: real, ratio: real)
    requires spec.valueKeys != [] && LabelOf(boxes, spec.patterns).Some?
    requires Candidates(boxes, LabelOf(boxes, spec.patterns).value, all, gap, ratio) == []
    ensures var labelBox := LabelOf(boxes, spec.patterns).value;
            var out := SpecItems(boxes, spec, all, gap, ratio);
            var inline := ExtractInlineValue(labelBox.text, spec.patterns);
            && |out| <= 1
            && (out == [] <==> inline == "")
            && (out != [] ==>
                  && out[0].transcription == Present(inline)
                  && NoSpace(inline)
                  && out[0].points == labelBox.points
                  && out[0].keyCls == Present(spec.valueKeys[0]))
  {
  }

  /** The items of all specs, in table order; defined on the last spec, as the loop
      appends. */
  function Emitted(boxes: seq<Box>, specs: seq<LabelSpec>, all: seq<string>, gap: real, ratio: real): seq<Item>
    requires ValidSpecs(specs)
  {
    if specs == [] then []
    else
      var init := specs[..|specs| - 1];
      assert ValidSpecs(init) by {
        assert forall i :: 0 <= i < |init| ==> init[i] == specs[i];
      }
      Emitted(boxes, init, all, gap, ratio) + SpecItems(boxes, specs[|specs| - 1], all, gap, ratio)
  }

  /** An emitted item: not difficult, with a polygon, no `label`, and a key from the
      value keys of one of the specs. */
  predicate Assigned(it: Item, specs: seq<LabelSpec>) {
    && it.difficult == Present(false)
    && it.labelText == Absent
    && it.points != []
    && it.keyCls.Present?
    && exists s :: 0 <= s < |specs| && it.keyCls.value in specs[s].valueKeys
  }

  lemma SpecItemsAssigned(boxes: seq<Box>, specs: seq<LabelSpec>, s: nat, all: seq<string>, gap: real, ratio: real)
    requires ValidSpecs(specs) && s < |specs|
    requires forall i :: 0 <= i < |boxes| ==> boxes[i].points != []
    ensures forall it :: it in SpecItems(boxes, specs[s], all, gap, ratio) ==> Assigned(it, specs)
  {
    var spec := specs[s];
    match LabelOf(boxes, spec.patterns)
    case None =>
    case Some(labelBox) =>
      var cands := Candidates(boxes, labelBox, all, gap, ratio);
      if cands != [] {
        CandidatesHavePoints(boxes, labelBox, all, gap, ratio);
        PairedAssigned(cands, specs, s);
        assert SpecItems(boxes, spec, all, gap, ratio) == Paired(cands, spec.valueKeys);
      } else {
        LabelHasPoints(boxes, spec.patterns);
        var inline := ExtractInlineValue(labelBox.text, spec.patterns);
        assert SpecItems(boxes, spec, all, gap, ratio)
            == if inline != "" then [OutItem(Some(inline), labelBox.points, spec.valueKeys[0])] else [];
      }
  }

  lemma LabelHasPoints(boxes: seq<Box>, patterns: seq<string>)
    requires forall i :: 0 <= i < |boxes| ==> boxes[i].points != []
    ensures LabelOf(boxes, patterns).Some? ==> LabelOf(boxes, patterns).value.points != []
  {
    var m := SortBy(Filter(boxes, Matches(patterns)), ReadingKey);
    if m != [] {
      assert m[0] in multiset(Filter(boxes, Matches(patterns)));
      FilterIff(boxes, Matches(patterns), m[0]);
    }
  }

  lemma CandidatesHavePoints(boxes: seq<Box>, labelBox: Box, all: seq<string>, gap: real, ratio: real)
    requires forall i :: 0 <= i < |boxes| ==> boxes[i].points != []
    ensures var c := Candidates(boxes, labelBox, all, gap, ratio);
            forall i :: 0 <= i < |c| ==> c[i].points != []
  {
    var c := Candidates(boxes, labelBox, all, gap, ratio);
    var f := Filter(boxes, CandidateTest(labelBox, all, gap, ratio));
    forall i | 0 <= i < |c|
      ensures c[i].points != []
    {
      assert c[i] in multiset(f);
      FilterIff(boxes, CandidateTest(labelBox, all, gap, ratio), c[i]);
    }
  }

  lemma PairedAssigned(cands: seq<Box>, specs: seq<LabelSpec>, s: nat)
    requires s < |specs|
    requires forall i :: 0 <= i < |cands| ==> cands[i].points != []
    ensures forall it :: it in Paired(cands, specs[s].valueKeys) ==> Assigned(it, specs)
  {
    var out := Paired(cands, specs[s].valueKeys);
    forall it | it in out
      ensures Assigned(it, specs)
    {
      var i :| 0 <= i < |out| && out[i] == it;
      assert it.keyCls.value == specs[s].valueKeys[i];
    }
  }

  /** Every item the specs emit is an assigned item. */
  lemma {:induction false} EmittedAssigned(boxes: seq<Box>, specs: seq<LabelSpec>, n: nat, all: seq<string>, gap: real, ratio: real)
    requires ValidSpecs(specs) && n <= |specs|
    requires forall i :: 0 <= i < |boxes| ==> boxes[i].points != []
    ensures forall it :: it in Emitted(boxes, specs[..n], all, gap, ratio) ==> Assigned(it, specs)
  {
    if n > 0 {
      EmittedAssigned(boxes, specs, n - 1, all, gap, ratio);
      assert specs[..n][..n - 1] == specs[..n - 1];
      SpecItemsAssigned(boxes, specs, n - 1, all, gap, ratio);
    }
  }

  /** `(min(p[1] for p in points), min(p[0] for p in points))`: top edge, then left edge.
      Emitted items always carry a polygon; the empty one never gets here. */
  function PositionKey(it: Item): SortKey {
    if it.points == [] then SortKey(0.0, 0.0)
    else SortKey(Min(Ys(it.points)), Min(Xs(it.points)))
  }

  /** The output of one record. */
  function AssignedItems(items: seq<Item>, specs: seq<LabelSpec>, all: seq<string>, gap: real, ratio: real): seq<Item>
    requires HasPoints(items) && ValidSpecs(specs)
  {
    SortBy(Emitted(BoxesOf(items), specs, all, gap, ratio), PositionKey)
  }

  /** The output of a record is sorted by the top-left corner of each item's polygon,
      holds what the specs emitted, no more and no less, and only assigned items. */
  lemma AssignedItemsSorted(items: seq<Item>, specs: seq<LabelSpec>, all: seq<string>, gap: real, ratio: real)
    requires HasPoints(items) && ValidSpecs(specs)
    ensures var out := AssignedItems(items, specs, all, gap, ratio);
            && multiset(out) == multiset(Emitted(BoxesOf(items), specs, all, gap, ratio))
            && (forall it :: it in out ==> Assigned(it, specs))
            && SortedBy(out, PositionKey)
  {
    var boxes := BoxesOf(items);
    var e := Emitted(boxes, specs, all, gap, ratio);
    var out := AssignedItems(items, specs, all, gap, ratio);
    EmittedAssigned(boxes, specs, |specs|, all, gap, ratio);
    assert specs[..|specs|] == specs;
    forall it | it in out
      ensures Assigned(it, specs)
    {
      assert it in multiset(e);
    }
  }

  /** The loop over the specs for one record, then `out_items.sort(...)`. */
  method AssignRecord(items: seq<Item>, specs: seq<LabelSpec>, all: seq<string>, gap: real, ratio: real)
    returns (out: seq<Item>)
    requires HasPoints(items) && ValidSpecs(specs)
    ensures out == AssignedItems(items, specs, all, gap, ratio)
  {
    var boxes := BoxesOf(items);
    var flags := KeyFlags(boxes, all);
    var emitted: seq<Item> := [];
    for k := 0 to |specs|
      invariant emitted == Emitted(boxes, specs[..k], all, gap, ratio)
    {
      assert specs[..k + 1][..k] == specs[..k];
      var specItems := AssignSpec(boxes, specs[k], flags, all, gap, ratio);
      emitted := emitted + specItems;
    }
    assert specs[..|specs|] == specs;
    out := SortBy(emitted, PositionKey);
  }

  /** The body of the loop over the specs: find the label, collect its candidates,
      then pair them with the keys or fall back to the inline value. */
  method AssignSpec(boxes: seq<Box>, spec: LabelSpec, flags: map<nat, bool>, all: seq<string>, gap: real, ratio: real)
    returns (specItems: seq<Item>)
    requires spec.valueKeys != [] && FlagsAgree(flags, boxes, all)
    ensures specItems == SpecItems(boxes, spec, all, gap, ratio)
  {
    specItems := [];
    var labelBoxes := MatchLabelBoxes(boxes, spec.patterns);
    if labelBoxes != [] {
      var labelBox := labelBoxes[0];
      var cands := CollectCandidates(boxes, labelBox, flags, all, gap, ratio);
      var keys := spec.valueKeys;
      if cands != [] {
        specItems := PairCandidates(cands, keys);
      } else {
        var inline := ExtractInlineValue(labelBox.text, spec.patterns);
        if inline != "" {
          specItems := [OutItem(Some(inline), labelBox.points, keys[0])];
        }
      }
    }
  }

  /** `for i, key in enumerate(value_keys)`, stopping when the candidates run out. */
  method PairCandidates(cands: seq<Box>, keys: seq<string>) returns (out: seq<Item>)
    ensures out == Paired(cands, keys)
  {
    out := [];
    var i := 0;
    while i < |keys|
      invariant i <= |keys| && i <= |cands|
      invariant out == Paired(cands[..i], keys[..i])
    {
      if i >= |cands| {
        break;
      }
      out := out + [OutItem(cands[i].text, cands[i].points, keys[i])];
      i := i + 1;
    }
    assert Paired(cands[..i], keys[..i]) == Paired(cands, keys);
  }

  /** The command-line defaults of `--min_x_gap` and `--row_overlap`. */
  const DefaultMinXGap: real := 5.0
  const DefaultRowOverlap: real := 0.4

  /** Every decoded record has a polygon on each item. */
  predicate PointsEverywhere(lines: seq<string>, parse: Parser) {
    forall i :: 0 <= i < |lines| ==>
      (ReadLine(lines[i], parse).Decoded? ==> HasPoints(ReadLine(lines[i], parse).items))
  }

  /** The output file: one record per line that decodes, in order; blank lines, lines
      without a tab and undecodable lines are dropped. Defined on the last line. */
  function AssignLines(lines: seq<string>, parse: Parser, specs: seq<LabelSpec>, all: seq<string>, gap: real, ratio: real)
    : (r: seq<OutLine>)
    requires ValidSpecs(specs) && PointsEverywhere(lines, parse)
    ensures |r| <= |lines|
    ensures forall k :: 0 <= k < |r| ==> r[k].Record? && '\t' !in r[k].path
  {
    if lines == [] then []
    else
      var init := lines[..|lines| - 1];
      var line := lines[|lines| - 1];
      assert PointsEverywhere(init, parse) by {
        assert forall i :: 0 <= i < |init| ==> init[i] == lines[i];
      }
      var head := AssignLines(init, parse, specs, all, gap, ratio);
      match ReadLine(line, parse)
      case Decoded(path, items) => head + [Record(path, AssignedItems(items, specs, all, gap, ratio))]
      case _ => head
  }

  /** The record one line gives, if it decodes. */
  function LineOutput(line: string, parse: Parser, specs: seq<LabelSpec>, all: seq<string>, gap: real, ratio: real)
    : Option<OutLine>
    requires ValidSpecs(specs)
    requires ReadLine(line, parse).Decoded? ==> HasPoints(ReadLine(line, parse).items)
  {
    match ReadLine(line, parse)
    case Decoded(path, items) => Some(Record(path, AssignedItems(items, specs, all, gap, ratio)))
    case _ => None
  }

  /** A record is written exactly for each line that decodes: it carries that line's
      path and the items assigned from that line's boxes. */
  lemma AssignLinesIff(lines: seq<string>, parse: Parser, specs: seq<LabelSpec>, all: seq<string>,
                       gap: real, ratio: real, o: OutLine)
    requires ValidSpecs(specs) && PointsEverywhere(lines, parse)
    ensures o in AssignLines(lines, parse, specs, all, gap, ratio) <==>
              exists i :: 0 <= i < |lines| && ReadLine(lines[i], parse).Decoded?
                          && o == Record(ReadLine(lines[i], parse).path,
                                         AssignedItems(ReadLine(lines[i], parse).items, specs, all, gap, ratio))
  {
    var g := LineRecords(parse, specs, all, gap, ratio);
    AssignLinesFlat(lines, parse, specs, all, gap, ratio);
    FlatMapIff(lines, g, o);
    forall i | 0 <= i < |lines|
      ensures o in g(lines[i]) <==>
                ReadLine(lines[i], parse).Decoded?
                && o == Record(ReadLine(lines[i], parse).path,
                               AssignedItems(ReadLine(lines[i], parse).items, specs, all, gap, ratio))
    {
      assert g(lines[i]) == Listed(LineOutput(lines[i], parse, specs, all, gap, ratio));
    }
  }

  /** The records each line gives, for every line: none where the table or the line's
      boxes do not meet what assigning needs. */
  function LineRecords(parse: Parser, specs: seq<LabelSpec>, all: seq<string>, gap: real, ratio: real)
    : string -> seq<OutLine>
  {
    (line: string) =>
      if ValidSpecs(specs) && (ReadLine(line, parse).Decoded? ==> HasPoints(ReadLine(line, parse).items))
      then Listed(LineOutput(line, parse, specs, all, gap, ratio))
      else []
  }

  /** The output file is the records of its lines, in order. */
  lemma {:induction false} AssignLinesFlat(lines: seq<string>, parse: Parser, specs: seq<LabelSpec>, all: seq<string>,
                                           gap: real, ratio: real)
    requires ValidSpecs(specs) && PointsEverywhere(lines, parse)
    ensures AssignLines(lines, parse, specs, all, gap, ratio) == FlatMap(lines, LineRecords(parse, specs, all, gap, ratio))
  {
    if lines != [] {
      var n := |lines| - 1;
      AssignLinesLast(lines, parse, specs, all, gap, ratio);
      AssignLinesFlat(lines[..n], parse, specs, all, gap, ratio);
      assert LineRecords(parse, specs, all, gap, ratio)(lines[n])
          == Listed(LineOutput(lines[n], parse, specs, all, gap, ratio));
    }
  }

  /** The records of an optional record: none or its one value. */
  function Listed(x: Option<OutLine>): (r: seq<OutLine>)
    ensures forall y :: y in r <==> x == Some(y)
  {
    match x
    case Some(v) => [v]
    case None => []
  }

  /** One more line adds its record, if any, at the end. */
  lemma AssignLinesLast(lines: seq<string>, parse: Parser, specs: seq<LabelSpec>, all: seq<string>, gap: real, ratio: real)
    requires ValidSpecs(specs) && PointsEverywhere(lines, parse) && lines != []
    ensures PointsEverywhere(lines[..|lines| - 1], parse)
    ensures AssignLines(lines, parse, specs, all, gap, ratio)
         == AssignLines(lines[..|lines| - 1], parse, specs, all, gap, ratio)
            + Listed(LineOutput(lines[|lines| - 1], parse, specs, all, gap, ratio))
  {
    var init := lines[..|lines| - 1];
    assert forall i :: 0 <= i < |init| ==> init[i] == lines[i];
  }

  /** How many lines decode. */
  function DecodedCount(lines: seq<string>, parse: Parser): nat {
    if lines == [] then 0
    else DecodedCount(lines[..|lines| - 1], parse) + (if ReadLine(lines[|lines| - 1], parse).Decoded? then 1 else 0)
  }

  /** The records come in line order: there are as many as lines that decode, and the
      line with `k` decoded lines before it gives record `k`. */
  lemma AssignLinesInOrder(lines: seq<string>, parse: Parser, specs: seq<LabelSpec>, all: seq<string>,
                           gap: real, ratio: real)
    requires ValidSpecs(specs) && PointsEverywhere(lines, parse)
    ensures |AssignLines(lines, parse, specs, all, gap, ratio)| == DecodedCount(lines, parse)
    ensures forall i :: 0 <= i < |lines| && ReadLine(lines[i], parse).Decoded? ==>
              && DecodedCount(lines[..i], parse) < |AssignLines(lines, parse, specs, all, gap, ratio)|
              && AssignLines(lines, parse, specs, all, gap, ratio)[DecodedCount(lines[..i], parse)]
                 == Record(ReadLine(lines[i], parse).path,
                           AssignedItems(ReadLine(lines[i], parse).items, specs, all, gap, ratio))
  {
    AssignLinesCount(lines, parse, specs, all, gap, ratio);
    forall i | 0 <= i < |lines| && ReadLine(lines[i], parse).Decoded?
      ensures && DecodedCount(lines[..i], parse) < |AssignLines(lines, parse, specs, all, gap, ratio)|
              && AssignLines(lines, parse, specs, all, gap, ratio)[DecodedCount(lines[..i], parse)]
                 == Record(ReadLine(lines[i], parse).path,
                           AssignedItems(ReadLine(lines[i], parse).items, specs, all, gap, ratio))
    {
      AssignLinesRecordAt(lines, parse, specs, all, gap, ratio, i);
    }
  }

  /** The record of line `i` comes right after those of the lines before it. */
  lemma AssignLinesRecordAt(lines: seq<string>, parse: Parser, specs: seq<LabelSpec>, all: seq<string>,
                            gap: real, ratio: real, i: nat)
    requires ValidSpecs(specs) && PointsEverywhere(lines, parse)
    requires i < |lines| && ReadLine(lines[i], parse).Decoded?
    ensures DecodedCount(lines[..i], parse) < |AssignLines(lines, parse, specs, all, gap, ratio)|
    ensures AssignLines(lines, parse, specs, all, gap, ratio)[DecodedCount(lines[..i], parse)]
         == Record(ReadLine(lines[i], parse).path,
                   AssignedItems(ReadLine(lines[i], parse).items, specs, all, gap, ratio))
  {
    var g := LineRecords(parse, specs, all, gap, ratio);
    var pre := lines[..i];
    var rec := Record(ReadLine(lines[i], parse).path, AssignedItems(ReadLine(lines[i], parse).items, specs, all, gap, ratio));
    PointsPrefix(lines, parse, i);
    AssignLinesCount(pre, parse, specs, all, gap, ratio);
    AssignLinesFlat(pre, parse, specs, all, gap, ratio);
    AssignLinesFlat(lines, parse, specs, all, gap, ratio);
    LineRecordsOfDecoded(lines[i], parse, specs, all, gap, ratio);
    FlatMapSingleAt(lines, g, i, rec);
  }

  /** Every prefix of the lines has polygons everywhere too. */
  lemma PointsPrefix(lines: seq<string>, parse: Parser, n: nat)
    requires PointsEverywhere(lines, parse) && n <= |lines|
    ensures PointsEverywhere(lines[..n], parse)
  {
    assert forall j :: 0 <= j < n ==> lines[..n][j] == lines[j];
  }

  /** A decoded line gives exactly its record. */
  lemma LineRecordsOfDecoded(line: string, parse: Parser, specs: seq<LabelSpec>, all: seq<string>, gap: real, ratio: real)
    requires ValidSpecs(specs) && ReadLine(line, parse).Decoded? && HasPoints(ReadLine(line, parse).items)
    ensures LineRecords(parse, specs, all, gap, ratio)(line)
         == [Record(ReadLine(line, parse).path, AssignedItems(ReadLine(line, parse).items, specs, all, gap, ratio))]
  {
  }

  /** There are as many records as lines that decode. */
  lemma {:induction false} AssignLinesCount(lines: seq<string>, parse: Parser, specs: seq<LabelSpec>, all: seq<string>,
                                            gap: real, ratio: real)
    requires ValidSpecs(specs) && PointsEverywhere(lines, parse)
    ensures |AssignLines(lines, parse, specs, all, gap, ratio)| == DecodedCount(lines, parse)
  {
    if lines != [] {
      var n := |lines| - 1;
      AssignLinesLast(lines, parse, specs, all, gap, ratio);
      AssignLinesCount(lines[..n], parse, specs, all, gap, ratio);
      var last := LineOutput(lines[n], parse, specs, all, gap, ratio);
      assert |Listed(last)| == if ReadLine(lines[n], parse).Decoded? then 1 else 0;
    }
  }

  /** The compiled table, then the loop over the lines of the file. */
  method AssignFile(lines: seq<string>, parse: Parser, gap: real, ratio: real) returns (out: seq<OutLine>)
    requires PointsEverywhere(lines, parse)
    ensures ValidSpecs(Compile(LabelSpecs)) && out == AssignLines(lines, parse, Compile(LabelSpecs), AllPatterns(Compile(LabelSpecs)), gap, ratio)
  {
    LabelSpecsValid();
    var specs, all := CompileSpecs(LabelSpecs);
    out := [];
    for i := 0 to |lines|
      invariant PointsEverywhere(lines[..i], parse)
      invariant out == AssignLines(lines[..i], parse, specs, all, gap, ratio)
    {
      assert lines[..i + 1][..i] == lines[..i];
      assert PointsEverywhere(lines[..i + 1], parse) by {
        assert forall j :: 0 <= j <= i ==> lines[..i + 1][j] == lines[j];
      }
      match ReadLine(lines[i], parse)
      case Skipped =>
      case Undecodable(_) =>
      case Decoded(path, items) =>
        var record := AssignRecord(items, specs, all, gap, ratio);
        out := out + [Record(path, record)];
    }
    assert lines[..|lines|] == lines;
  }

  /** The tool run without `--min_x_gap` and `--row_overlap`. */
  method AssignFileWithDefaults(lines: seq<string>, parse: Parser) returns (out: seq<OutLine>)
    requires PointsEverywhere(lines, parse)
    ensures ValidSpecs(Compile(LabelSpecs))
    ensures out == AssignLines(lines, parse, Compile(LabelSpecs), AllPatterns(Compile(LabelSpecs)),
                               DefaultMinXGap, DefaultRowOverlap)
  {
    out := AssignFile(lines, parse, DefaultMinXGap, DefaultRowOverlap);
  }
}
