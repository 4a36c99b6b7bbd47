/**
 * `tools/fix_labeltxt_unrecognized.py`: for the displacement, emission standard
 * and passenger count fields, a value written as one of the dash-like marks
 * (including the CJK numeral 一) is rewritten as "-", in place, and the label
 * file is written back.
 */
module FixUnrecognized {
  import opened Wrappers
  import opened Text
  import opened Records
  import opened Lists

  const TargetKeys: set<string> := {"vc_displace", "vc_emission_standard", "vc_carrying_num"}

  const TargetTexts: set<string> := {"一", "—", "－", "–", "-"}

  /** `key_cls in TARGET_KEYS` and `text_val in TARGET_TEXTS`. A missing
      transcription reads as "" and a JSON null as "None", neither of them a target,
      so only a transcription that is present can match. */
  predicate IsPlaceholder(item: Item) {
    && KeyOf(item).Some? && KeyOf(item).value in TargetKeys
    && item.transcription.Present? && StripBy(item.transcription.value, IsSpace) in TargetTexts
  }

  /** The test as the tool writes it, on `str(item.get("transcription", "")).strip()`. */
  lemma PlaceholderText(item: Item)
    ensures IsPlaceholder(item) <==>
              KeyOf(item).Some? && KeyOf(item).value in TargetKeys && StrippedText(item) in TargetTexts
  {
    match item.transcription {
      case Absent =>
        StripByUnchanged("", IsSpace);
      case Null =>
        assert !IsSpace('N') && !IsSpace('e');
        StripByUnchanged("None", IsSpace);
        assert StrippedText(item) == "None";
      case Present(_) =>
    }
  }

  /** An item after the rewrite. */
  function FixedItem(item: Item): Item {
    if IsPlaceholder(item) then item.(transcription := Present("-")) else item
  }

  /** The body of the loop for one item. */
  method FixItem(item: Item) returns (fixed: Item)
    ensures fixed == FixedItem(item)
  {
    PlaceholderText(item);
    fixed := item;
    var key := KeyOf(item);
    if key.Some? && key.value in TargetKeys {
      var text := StrippedText(item);
      if text in TargetTexts {
        fixed := item.(transcription := Present("-"));
      }
    }
  }

  /** The loop over one image's items: each item dictionary is updated in place. */
  method FixItems(a: array<Item>)
    modifies a
    ensures forall i :: 0 <= i < a.Length ==> a[i] == FixedItem(old(a[i]))
  {
    ghost var orig := a[..];
    for i := 0 to a.Length
      invariant forall j :: 0 <= j < i ==> a[j] == FixedItem(orig[j])
      invariant forall j :: i <= j < a.Length ==> a[j] == orig[j]
    {
      a[i] := FixItem(a[i]);
    }
  }

  /** An item changes exactly when it has a target key and a dash-like text other
      than "-" itself, and then its transcription becomes "-". */
  lemma FixedChanges(item: Item)
    ensures FixedItem(item) != item <==> IsPlaceholder(item) && item.transcription != Present("-")
    ensures IsPlaceholder(item) ==> FixedItem(item).transcription == Present("-")
  {
  }

  /** No field but the transcription changes. */
  lemma FixedOnlyTranscription(item: Item)
    ensures FixedItem(item).(transcription := item.transcription) == item
    ensures FixedItem(item).transcription == item.transcription || FixedItem(item).transcription == Present("-")
  {
  }

  /** "-" is itself a dash-like text, so a second rewrite changes nothing. */
  lemma FixedIdempotent(item: Item)
    ensures FixedItem(FixedItem(item)) == FixedItem(item)
  {
    if IsPlaceholder(item) {
      var fixed := FixedItem(item);
      assert !IsSpace('-');
      StripByUnchanged("-", IsSpace);
    }
  }

  /** The items of one image after the rewrite. */
  function FixRecord(items: seq<Item>): seq<Item> {
    Image(items, FixedItem)
  }

  /** Rewriting an image twice is rewriting it once. */
  lemma FixRecordIdempotent(items: seq<Item>)
    ensures FixRecord(FixRecord(items)) == FixRecord(items)
  {
    forall i | 0 <= i < |items|
      ensures FixRecord(FixRecord(items))[i] == FixRecord(items)[i]
    {
      FixedIdempotent(items[i]);
    }
  }

  /** One image: its items are copied into an array, rewritten in place there, and
      read back for the output line. */
  method FixImage(items: seq<Item>) returns (fixed: seq<Item>)
    ensures fixed == FixRecord(items)
  {
    var a := new Item[|items|](j requires 0 <= j < |items| => items[j]);
    FixItems(a);
    fixed := a[..];
  }

  /** What one line contributes to the output: nothing for a blank line or one
      without a tab, the line as it was when its JSON does not decode, and the path
      with the rewritten items otherwise. */
  function FixLine(line: string, parse: Parser): seq<OutLine> {
    match ReadLine(line, parse)
    case Skipped => []
    case Undecodable(_) => [Verbatim(line)]
    case Decoded(path, items) => [Record(path, FixRecord(items))]
  }

  function FixLineIn(parse: Parser): string -> seq<OutLine> {
    line => FixLine(line, parse)
  }

  function FixLines(lines: seq<string>, parse: Parser): seq<OutLine> {
    FlatMap(lines, FixLineIn(parse))
  }

  /** The loop over the lines of the file. */
  method FixFile(lines: seq<string>, parse: Parser) returns (out: seq<OutLine>)
    ensures out == FixLines(lines, parse)
  {
    out := [];
    ghost var done: seq<string> := [];
    for i := 0 to |lines|
      invariant done == lines[..i]
      invariant out == FixLines(done, parse)
    {
      var line := lines[i];
      FlatMapAppend(done, line, FixLineIn(parse));
      match ReadLine(line, parse) {
        case Skipped =>
        case Undecodable(_) =>
          out := out + [Verbatim(line)];
        case Decoded(path, items) =>
          var fixed := FixImage(items);
          out := out + [Record(path, fixed)];
      }
      PrefixStep(lines, i);
      done := done + [line];
    }
    assert done == lines;
  }

  /** The output line a line gives. */
  predicate FixesLine(line: string, parse: Parser, out: OutLine) {
    match ReadLine(line, parse)
    case Skipped => false
    case Undecodable(_) => out == Verbatim(line)
    case Decoded(path, items) => out == Record(path, FixRecord(items))
  }

  /** The output holds one line per input line that is not blank and holds a tab:
      the line itself when its JSON does not decode, its rewritten image otherwise. */
  lemma FixLinesIff(lines: seq<string>, parse: Parser, out: OutLine)
    ensures out in FixLines(lines, parse) <==> exists i :: 0 <= i < |lines| && FixesLine(lines[i], parse, out)
  {
    FlatMapIff(lines, FixLineIn(parse), out);
    assert forall i :: 0 <= i < |lines| ==> (out in FixLineIn(parse)(lines[i]) <==> FixesLine(lines[i], parse, out));
  }
}
