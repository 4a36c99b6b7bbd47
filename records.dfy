/**
 * The line-oriented label file that every tool reads and writes: one image per
 * line, `<image path><TAB><JSON array of annotation items>`. Decoding the JSON
 * text is a parameter (`Parser`); an item keeps the fields the tools look at.
 */
module Records {
  import opened Wrappers
  import opened Text

  /** A JSON object member as `dict.get` sees it: missing, `null`, or a value. */
  datatype Field<+T> = Absent | Null | Present(value: T)

  datatype Point = Point(x: real, y: real)

  /** One annotation item: `transcription`, `label` (here `labelText`), `points`, `difficult` and `key_cls`. */
  datatype Item = Item(
    transcription: Field<string>,
    labelText: Field<string>,
    points: seq<Point>,
    difficult: Field<bool>,
    keyCls: Field<string>)

  /** `json.loads` on the text after the tab: `None` when it raises. */
  type Parser = string -> Option<seq<Item>>

  /** A line as written back: the input line unchanged, or `path<TAB>json.dumps(items)`. */
  datatype OutLine = Verbatim(text: string) | Record(path: string, items: seq<Item>)

  /** `line.split("\t", 1)` when the line holds a tab. */
  function SplitAtTab(line: string): (r: Option<(string, string)>)
    ensures r.None? <==> '\t' !in line
    ensures r.Some? ==> '\t' !in r.value.0 && line == r.value.0 + "\t" + r.value.1
  {
    match IndexOf(line, "\t")
    case None =>
      assert '\t' !in line by {
        forall j | 0 <= j < |line|
          ensures line[j] != '\t'
        {
          assert !OccursAt(line, "\t", j);
          assert line[j..j + 1] == [line[j]];
        }
      }
      None
    case Some(i) =>
      assert '\t' !in line[..i] by {
        forall j | 0 <= j < i
          ensures line[j] != '\t'
        {
          assert !OccursAt(line, "\t", j);
          assert line[j..j + 1] == [line[j]];
        }
      }
      assert line[i..i + 1] == "\t";
      assert line == line[..i] + line[i..i + 1] + line[i + 1..];
      Some((line[..i], line[i + 1..]))
  }

  /** A line built as path, tab, rest splits back into the two when the path holds
      no tab. */
  lemma SplitAtTabOf(path: string, rest: string)
    requires '\t' !in path
    ensures SplitAtTab(path + "\t" + rest) == Some((path, rest))
  {
    var line := path + "\t" + rest;
    assert line[|path|] == '\t';
    var r := SplitAtTab(line);
    var (p, q) := r.value;
    assert p == line[..|p|] == path;
    assert q == line[|p| + 1..] == rest;
  }

  /** `not line.strip()`: the line is empty or only whitespace. */
  predicate IsBlank(line: string) {
    StripBy(line, IsSpace) == []
  }

  datatype LineRead = Skipped | Undecodable(path: string) | Decoded(path: string, items: seq<Item>)

  /** How the assigner, the checker, the filter and the placeholder fixer read a line:
      blank lines and lines without a tab are skipped, the rest split at the first
      tab and the text after it decoded. */
  function ReadLine(line: string, parse: Parser): (r: LineRead)
    ensures r.Skipped? <==> IsBlank(line) || '\t' !in line
    ensures !r.Skipped? ==> '\t' !in r.path
    ensures !r.Skipped? ==>
              exists payload ::
                && line == r.path + "\t" + payload
                && (r.Decoded? <==> parse(payload).Some?)
                && (r.Decoded? ==> parse(payload) == Some(r.items))
  {
    if IsBlank(line) then Skipped
    else match SplitAtTab(line)
      case None => Skipped
      case Some((path, payload)) =>
        match parse(payload)
        case None => Undecodable(path)
        case Some(items) => Decoded(path, items)
  }

  /** `item.get("key_cls", "None")`: a missing key reads as the text "None", a JSON
      null as Python's `None` (here `Wrappers.None`). */
  function KeyOf(item: Item): Option<string> {
    match item.keyCls
    case Absent => Some("None")
    case Null => None
    case Present(k) => Some(k)
  }

  /** `str(item.get("transcription", "")).strip()`: `str(None)` is "None". */
  function StrippedText(item: Item): (t: string)
    ensures item.transcription.Absent? ==> t == ""
    ensures item.transcription.Present? ==> t == StripBy(item.transcription.value, IsSpace)
  {
    var raw := match item.transcription
      case Absent => ""
      case Null => "None"
      case Present(s) => s;
    StripBy(raw, IsSpace)
  }
}
