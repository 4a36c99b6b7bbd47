/**
 * `filter_file` of `tools/filter_kie_labels.py`: every image of a label file keeps
 * only the items whose key is on the allow-list, and the file is written back.
 */
module FilterKie {
  import opened Wrappers
  import opened Records
  import opened Lists

  const KeepKeys: set<string> := {
    "vc_no", "vc_issue_date", "vc_manu_enterprise", "vc_brands", "vc_type",
    "vc_model_no", "vc_vin", "vc_color", "vc_engineno", "vc_fuel",
    "vc_displace", "vc_power", "vc_emission_standard", "vc_tyre_size", "vc_wheelbase",
    "vc_totalw", "vc_curbw", "vc_carrying_num", "vc_manu_date", "vc_manu_addr"
  }

  /** `key_cls in KEEP_KEYS`, with `key_cls` defaulting to "None" and a JSON null
      never on the list. */
  predicate Keeps(item: Item) {
    KeyOf(item).Some? && KeyOf(item).value in KeepKeys
  }

  function KeepTest(): Item -> bool {
    item => Keeps(item)
  }

  /** The items an image keeps, in their order. */
  function KeptItems(items: seq<Item>): seq<Item> {
    Filter(items, KeepTest())
  }

  /** The loop that builds `kept` for one image. */
  method KeepItems(items: seq<Item>) returns (kept: seq<Item>)
    ensures kept == KeptItems(items)
  {
    kept := [];
    for i := 0 to |items|
      invariant kept == Filter(items[..i], KeepTest())
    {
      PrefixStep(items, i);
      FilterAppend(items[..i], items[i], KeepTest());
      var key := KeyOf(items[i]);
      if key.Some? && key.value in KeepKeys {
        kept := kept + [items[i]];
      }
    }
    assert items[..|items|] == items;
  }

  /** An item is kept exactly when it is one of the image's items and its key is on
      the list. */
  lemma KeptIff(items: seq<Item>, item: Item)
    ensures item in KeptItems(items) <==> item in items && KeyOf(item).Some? && KeyOf(item).value in KeepKeys
  {
    FilterIff(items, KeepTest(), item);
  }

  /** The kept items are the image's items with some left out: none is moved. */
  lemma KeptSubsequence(items: seq<Item>)
    ensures IsSubsequence(KeptItems(items), items)
  {
    FilterSubsequence(items, KeepTest());
  }

  /** Filtering the output again changes nothing. */
  lemma KeptIdempotent(items: seq<Item>)
    ensures KeptItems(KeptItems(items)) == KeptItems(items)
  {
    FilterIdempotent(items, KeepTest());
  }

  /** An image whose items all have listed keys is left as it is. */
  lemma {:induction false} KeptAll(items: seq<Item>)
    requires forall i :: 0 <= i < |items| ==> Keeps(items[i])
    ensures KeptItems(items) == items
  {
    if items != [] {
      var init := items[..|items| - 1];
      KeptAll(init);
      assert items == init + [items[|items| - 1]];
    }
  }

  /** What one line contributes to `out_lines`: nothing for a blank line, a line
      without a tab or one whose JSON does not decode; otherwise its path and the
      kept items, even when none is kept. */
  function FilterLine(line: string, parse: Parser): seq<OutLine> {
    match ReadLine(line, parse)
    case Decoded(path, items) => [Record(path, KeptItems(items))]
    case _ => []
  }

  function FilterLineIn(parse: Parser): string -> seq<OutLine> {
    line => FilterLine(line, parse)
  }

  function FilterLines(lines: seq<string>, parse: Parser): seq<OutLine> {
    FlatMap(lines, FilterLineIn(parse))
  }

  /** `filter_file(path)`: `file` is the content of the path, `None` when it does
      not exist. Returns whether the file existed, and the lines written back. */
  method FilterFile(file: Option<seq<string>>, parse: Parser) returns (ok: bool, written: Option<seq<OutLine>>)
    ensures ok <==> file.Some?
    ensures written == if file.Some? then Some(FilterLines(file.value, parse)) else None
  {
    if file.None? {
      return false, None;
    }
    var lines := file.value;
    var out: seq<OutLine> := [];
    ghost var done: seq<string> := [];
    for i := 0 to |lines|
      invariant done == lines[..i]
      invariant out == FilterLines(done, parse)
    {
      var line := lines[i];
      FlatMapAppend(done, line, FilterLineIn(parse));
      match ReadLine(line, parse) {
        case Skipped =>
        case Undecodable(_) =>
        case Decoded(path, items) =>
          var kept := KeepItems(items);
          out := out + [Record(path, kept)];
      }
      PrefixStep(lines, i);
      done := done + [line];
    }
    assert done == lines;
    return true, Some(out);
  }

  /** The line a line gives to the filtered file. */
  predicate FiltersLine(line: string, parse: Parser, out: OutLine) {
    match ReadLine(line, parse)
    case Decoded(path, items) => out == Record(path, KeptItems(items))
    case _ => false
  }

  /** The filtered file holds exactly one line per line of the input that holds a tab
      and decodes, with the image path as it was (a path without a tab) and the kept
      items. */
  lemma FilterLinesIff(lines: seq<string>, parse: Parser, out: OutLine)
    ensures out in FilterLines(lines, parse) <==> exists i :: 0 <= i < |lines| && FiltersLine(lines[i], parse, out)
    ensures out in FilterLines(lines, parse) ==> out.Record? && '\t' !in out.path
  {
    FlatMapIff(lines, FilterLineIn(parse), out);
    assert forall i :: 0 <= i < |lines| ==> (out in FilterLineIn(parse)(lines[i]) <==> FiltersLine(lines[i], parse, out));
  }

  /** A decoded image with no listed key is written with an empty array. */
  lemma EmptyRecordKept(path: string, payload: string, parse: Parser)
    requires '\t' !in path && !IsBlank(path + "\t" + payload) && parse(payload).Some?
    requires forall i :: 0 <= i < |parse(payload).value| ==> !Keeps(parse(payload).value[i])
    ensures FilterLine(path + "\t" + payload, parse) == [Record(path, [])]
  {
    var line := path + "\t" + payload;
    assert line[|path|] == '\t';
    SplitAtTabOf(path, payload);
    var items := parse(payload).value;
    if KeptItems(items) != [] {
      var k := KeptItems(items)[0];
      FilterIff(items, KeepTest(), k);
    }
  }
}
