/**
 * The file loop of `tools/check_kie_labels.py`: every line that holds a tab is an
 * image; an image whose JSON does not decode is reported as `invalid_json`, one
 * whose check finds reasons is reported with them, and with `--dedup` every
 * decoded image is written back with its repeated (key, text) pairs dropped.
 */
module CheckKieFile {
  import opened Wrappers
  import opened Records
  import opened Lists
  import opened CheckKie

  /** One entry of `bad_images`. */
  datatype Report = Report(path: string, reasons: seq<Reason>)

  /** What one line adds to `bad_images`. */
  function LineReport(line: string, parse: Parser, allowNone: bool, dedup: bool): seq<Report> {
    match ReadLine(line, parse)
    case Skipped => []
    case Undecodable(path) => [Report(path, [InvalidJson])]
    case Decoded(path, items) =>
      var reasons := Reasons(items, allowNone, dedup);
      if reasons == [] then [] else [Report(path, reasons)]
  }

  function LineReportIn(parse: Parser, allowNone: bool, dedup: bool): string -> seq<Report> {
    line => LineReport(line, parse, allowNone, dedup)
  }

  /** `bad_images` after the lines. */
  function BadImages(lines: seq<string>, parse: Parser, allowNone: bool, dedup: bool): seq<Report> {
    FlatMap(lines, LineReportIn(parse, allowNone, dedup))
  }

  /** What one line adds to `output_lines` under `--dedup`: its image with the kept
      items, when its JSON decodes. */
  function LineRewrite(line: string, parse: Parser): seq<OutLine> {
    match ReadLine(line, parse)
    case Decoded(path, items) => [Record(path, Dedup(items))]
    case _ => []
  }

  function LineRewriteIn(parse: Parser): string -> seq<OutLine> {
    line => LineRewrite(line, parse)
  }

  /** `output_lines` after the lines, under `--dedup`. */
  function Rewritten(lines: seq<string>, parse: Parser): seq<OutLine> {
    FlatMap(lines, LineRewriteIn(parse))
  }

  /** The loop over the lines: the reports, and the lines that replace the file
      when `--dedup` is given and there is at least one of them. */
  method CheckFile(lines: seq<string>, parse: Parser, allowNone: bool, dedup: bool)
    returns (bad: seq<Report>, rewrite: Option<seq<OutLine>>)
    ensures bad == BadImages(lines, parse, allowNone, dedup)
    ensures rewrite == if dedup && Rewritten(lines, parse) != [] then Some(Rewritten(lines, parse)) else None
  {
    bad := [];
    var out: seq<OutLine> := [];
    ghost var done: seq<string> := [];
    for i := 0 to |lines|
      invariant done == lines[..i]
      invariant bad == BadImages(done, parse, allowNone, dedup)
      invariant out == if dedup then Rewritten(done, parse) else []
    {
      var line := lines[i];
      FlatMapAppend(done, line, LineReportIn(parse, allowNone, dedup));
      FlatMapAppend(done, line, LineRewriteIn(parse));
      match ReadLine(line, parse) {
        case Skipped =>
        case Undecodable(path) =>
          bad := bad + [Report(path, [InvalidJson])];
        case Decoded(path, items) =>
          var reasons, kept := CheckRecord(items, allowNone, dedup);
          if reasons != [] {
            bad := bad + [Report(path, reasons)];
          }
          if dedup {
            out := out + [Record(path, kept)];
          }
      }
      PrefixStep(lines, i);
      done := done + [line];
    }
    assert done == lines;
    rewrite := if dedup && out != [] then Some(out) else None;
  }

  /** The report a line gives, stated case by case: none for a skipped line,
      `invalid_json` for one that does not decode, and the reasons of its check for
      one that does, when there are any. */
  predicate ReportsLine(line: string, parse: Parser, allowNone: bool, dedup: bool, rep: Report) {
    match ReadLine(line, parse)
    case Skipped => false
    case Undecodable(path) => rep == Report(path, [InvalidJson])
    case Decoded(path, items) =>
      rep == Report(path, Reasons(items, allowNone, dedup)) && rep.reasons != []
  }

  lemma LineReportIff(line: string, parse: Parser, allowNone: bool, dedup: bool, rep: Report)
    ensures rep in LineReport(line, parse, allowNone, dedup) <==> ReportsLine(line, parse, allowNone, dedup, rep)
  {
    match ReadLine(line, parse) {
      case Skipped =>
      case Undecodable(path) =>
      case Decoded(path, items) =>
        var reasons := Reasons(items, allowNone, dedup);
        assert LineReport(line, parse, allowNone, dedup) == if reasons == [] then [] else [Report(path, reasons)];
    }
  }

  /** An image is reported exactly when one of the lines reports it. */
  lemma ReportedIff(lines: seq<string>, parse: Parser, allowNone: bool, dedup: bool, rep: Report)
    ensures rep in BadImages(lines, parse, allowNone, dedup) <==>
              exists i :: 0 <= i < |lines| && ReportsLine(lines[i], parse, allowNone, dedup, rep)
  {
    FlatMapIff(lines, LineReportIn(parse, allowNone, dedup), rep);
    forall i | 0 <= i < |lines|
      ensures rep in LineReportIn(parse, allowNone, dedup)(lines[i]) <==> ReportsLine(lines[i], parse, allowNone, dedup, rep)
    {
      LineReportIff(lines[i], parse, allowNone, dedup, rep);
    }
  }

  /** Every report names a path without a tab and at least one reason. */
  lemma ReportsWellFormed(lines: seq<string>, parse: Parser, allowNone: bool, dedup: bool, rep: Report)
    requires rep in BadImages(lines, parse, allowNone, dedup)
    ensures rep.reasons != [] && '\t' !in rep.path
  {
    ReportedIff(lines, parse, allowNone, dedup, rep);
    var i :| 0 <= i < |lines| && ReportsLine(lines[i], parse, allowNone, dedup, rep);
  }

  /** The line a line gives to the written-back file: its image with the kept
      items, when its JSON decodes. */
  predicate RewritesLine(line: string, parse: Parser, out: OutLine) {
    match ReadLine(line, parse)
    case Decoded(path, items) => out == Record(path, Dedup(items))
    case _ => false
  }

  /** The file written back under `--dedup` holds one line per image whose JSON
      decodes, with its repeated pairs dropped; lines that are blank, have no tab or
      do not decode are not written back. */
  lemma RewrittenIff(lines: seq<string>, parse: Parser, out: OutLine)
    ensures out in Rewritten(lines, parse) <==> exists i :: 0 <= i < |lines| && RewritesLine(lines[i], parse, out)
  {
    FlatMapIff(lines, LineRewriteIn(parse), out);
    assert forall i :: 0 <= i < |lines| ==> (out in LineRewriteIn(parse)(lines[i]) <==> RewritesLine(lines[i], parse, out));
  }

  /** Checking the written-back items again, with or without `--dedup`, reports
      exactly what the check with `--dedup` reported, and a second dedup changes
      nothing. */
  lemma RecheckAfterDedup(items: seq<Item>, allowNone: bool, dedup: bool)
    ensures Reasons(Dedup(items), allowNone, dedup) == Reasons(items, allowNone, true)
    ensures Dedup(Dedup(items)) == Dedup(items)
  {
    DedupByIdempotent(items, EntryOf);
    assert Kept(Dedup(items), dedup) == Kept(items, true);
  }
}
