/**
 * `tools/fix_difficult_false.py`: every item whose `difficult` flag is exactly
 * `true` has it set to `false`, in place, the changes are counted, and every line
 * of the label file is written back, rewritten when it holds a tab and decodes and
 * unchanged otherwise.
 */
module FixDifficult {
  import opened Wrappers
  import opened Records
  import opened Lists

  /** `item.get("difficult") is True`: a missing flag, a null and `false` are not. */
  predicate IsDifficult(item: Item) {
    item.difficult == Present(true)
  }

  function DifficultTest(): Item -> bool {
    item => IsDifficult(item)
  }

  /** An item after the pass. */
  function Cleared(item: Item): (r: Item)
    ensures !IsDifficult(r)
    ensures r.(difficult := item.difficult) == item
    ensures r != item <==> IsDifficult(item)
  {
    if IsDifficult(item) then item.(difficult := Present(false)) else item
  }

  /** The items of one image after the pass, in their order. */
  function ClearedRecord(items: seq<Item>): seq<Item> {
    Image(items, Cleared)
  }

  /** How many items of an image have the flag set: what the pass adds to `changed`. */
  function CountDifficult(items: seq<Item>): nat {
    |Filter(items, DifficultTest())|
  }

  /** The loop over one image's items: each flag is cleared in place and counted. */
  method ClearItems(a: array<Item>) returns (changed: nat)
    modifies a
    ensures forall i :: 0 <= i < a.Length ==> a[i] == Cleared(old(a[i]))
    ensures changed == CountDifficult(old(a[..]))
  {
    ghost var orig := a[..];
    changed := 0;
    for i := 0 to a.Length
      invariant forall j :: 0 <= j < i ==> a[j] == Cleared(orig[j])
      invariant forall j :: i <= j < a.Length ==> a[j] == orig[j]
      invariant changed == CountDifficult(orig[..i])
    {
      PrefixStep(orig, i);
      FilterAppend(orig[..i], orig[i], DifficultTest());
      if a[i].difficult == Present(true) {
        a[i] := a[i].(difficult := Present(false));
        changed := changed + 1;
      }
    }
    assert orig[..a.Length] == orig;
  }

  /** One image: its items are copied into an array, cleared in place there, and
      read back for the output line. */
  method ClearImage(items: seq<Item>) returns (cleared: seq<Item>, changed: nat)
    ensures cleared == ClearedRecord(items)
    ensures changed == CountDifficult(items)
  {
    var a := new Item[|items|](j requires 0 <= j < |items| => items[j]);
    assert a[..] == items;
    changed := ClearItems(a);
    cleared := a[..];
  }

  /** The count is the number of items the pass changes: an item changes exactly
      when its flag is set, and then only its flag changes, to `false`. */
  lemma {:induction false} CountIsChanges(items: seq<Item>)
    ensures CountDifficult(items) == |Filter(items, (item: Item) => Cleared(item) != item)|
  {
    if items != [] {
      var init := items[..|items| - 1];
      CountIsChanges(init);
    }
  }

  /** After the pass no item of the image has the flag set. */
  lemma NoneDifficultAfter(items: seq<Item>)
    ensures CountDifficult(ClearedRecord(items)) == 0
  {
    var after := ClearedRecord(items);
    var left := Filter(after, DifficultTest());
    if left != [] {
      FilterIff(after, DifficultTest(), left[0]);
    }
  }

  /** A second pass over the image changes nothing and counts nothing. */
  lemma ClearedIdempotent(items: seq<Item>)
    ensures ClearedRecord(ClearedRecord(items)) == ClearedRecord(items)
    ensures CountDifficult(ClearedRecord(items)) == 0
  {
    NoneDifficultAfter(items);
  }

  /** What one line becomes: the line itself when it has no tab (an empty line
      included) or its JSON does not decode, otherwise its path with the cleared
      items. */
  function ClearLine(line: string, parse: Parser): (r: OutLine)
    ensures r.Verbatim? ==> r.text == line
    ensures r.Record? <==> '\t' in line && parse(SplitAtTab(line).value.1).Some?
    ensures r.Record? ==>
              && line == r.path + "\t" + SplitAtTab(line).value.1
              && '\t' !in r.path
              && r.items == ClearedRecord(parse(SplitAtTab(line).value.1).value)
  {
    match SplitAtTab(line)
    case None => Verbatim(line)
    case Some((path, payload)) =>
      match parse(payload)
      case None => Verbatim(line)
      case Some(items) => Record(path, ClearedRecord(items))
  }

  /** What one line adds to `changed`. */
  function LineChanged(line: string, parse: Parser): nat {
    match SplitAtTab(line)
    case None => 0
    case Some((_, payload)) =>
      match parse(payload)
      case None => 0
      case Some(items) => CountDifficult(items)
  }

  function ClearLineIn(parse: Parser): string -> OutLine {
    line => ClearLine(line, parse)
  }

  /** `updated_lines` after the lines. */
  function ClearLines(lines: seq<string>, parse: Parser): seq<OutLine> {
    Image(lines, ClearLineIn(parse))
  }

  /** `changed` after the lines. */
  function ChangedTotal(lines: seq<string>, parse: Parser): nat {
    if lines == [] then 0
    else ChangedTotal(lines[..|lines| - 1], parse) + LineChanged(lines[|lines| - 1], parse)
  }

  /** The loop over the lines of the file. */
  method ClearFile(lines: seq<string>, parse: Parser) returns (out: seq<OutLine>, changed: nat)
    ensures out == ClearLines(lines, parse)
    ensures changed == ChangedTotal(lines, parse)
  {
    out := [];
    changed := 0;
    ghost var done: seq<string> := [];
    for i := 0 to |lines|
      invariant done == lines[..i]
      invariant out == ClearLines(done, parse)
      invariant changed == ChangedTotal(done, parse)
    {
      var line := lines[i];
      ImageAppend(done, line, ClearLineIn(parse));
      assert (done + [line])[..|done|] == done;
      match SplitAtTab(line) {
        case None =>
          out := out + [Verbatim(line)];
        case Some((path, payload)) =>
          match parse(payload) {
            case None =>
              out := out + [Verbatim(line)];
            case Some(items) =>
              var cleared, n := ClearImage(items);
              out := out + [Record(path, cleared)];
              changed := changed + n;
          }
      }
      PrefixStep(lines, i);
      done := done + [line];
    }
    assert done == lines;
  }

  /** The pass reports no change for a file exactly when no line of it decodes to
      an image with a flag set. */
  lemma {:induction false} ChangedTotalCounts(lines: seq<string>, parse: Parser)
    ensures ChangedTotal(lines, parse) == 0 <==>
              forall i :: 0 <= i < |lines| ==> LineChanged(lines[i], parse) == 0
  {
    if lines != [] {
      var init := lines[..|lines| - 1];
      ChangedTotalCounts(init, parse);
      assert forall i :: 0 <= i < |init| ==> init[i] == lines[i];
    }
  }

  /** The items of every record the pass writes have no flag set, so a second pass
      over them counts nothing. */
  lemma SecondPassZero(lines: seq<string>, parse: Parser, i: int)
    requires 0 <= i < |lines| && ClearLines(lines, parse)[i].Record?
    ensures CountDifficult(ClearLines(lines, parse)[i].items) == 0
  {
    var line := lines[i];
    var items := parse(SplitAtTab(line).value.1).value;
    NoneDifficultAfter(items);
  }
}
