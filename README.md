# KIE label tools of POCRLabel, modelled in Dafny

This project models the command-line tools that post-process PPOCRLabel label files
for key information extraction (KIE) on Chinese vehicle certificates. A label file
has one image per line: the image path, a tab, then a JSON array of annotation
items. Each item has a `transcription`, a polygon `points`, a `difficult` flag and
a `key_cls` key.

- **The assigner** (`tools/assign_kie_from_labeltxt.py`) reads an OCR label file and
  writes a KIE label file. For every field of a fixed table it finds the label box
  (e.g. 发证日期) and takes the value boxes on the same row to its right. When there
  are none, it falls back to a value written inside the label box. The emitted items
  are sorted by position.
- **The checker** (`tools/check_kie_labels.py`) reports, per image:
  - keys outside an allow-list;
  - placeholder values;
  - keys given several different values;
  - keys given the same value twice.

  With `--dedup` it writes the file back with repeated (key, text) pairs dropped.
  The printed report translates each reason into Chinese.
- **The filter** (`tools/filter_kie_labels.py`) keeps only the items whose key is on
  an allow-list.
- **The placeholder fixer** (`tools/fix_labeltxt_unrecognized.py`) rewrites dash-like
  values of three fields as "-".
- **The flag clearer** (`tools/fix_difficult_false.py`) sets every `difficult` flag
  that is `true` to `false`, and counts the flags it cleared.

Modules:

- **Shared modules**
  - `Records` (records.dfy): the label-file format.
  - `Text` (text.dfy): Python's `str.strip`, whitespace deletion and literal search.
  - `Lists` (lists.dfy): filter, image and dedup loops as functions.
  - `Sorting` (sorting.dfy): Python's stable `list.sort`.
- **The assigner**
  - `AssignText` (assign_text.dfy);
  - `AssignBoxes` (assign_boxes.dfy);
  - `AssignSpecs` (assign_specs.dfy);
  - `AssignRecords` (assign_records.dfy).
- **The checker**
  - `CheckKie` (check_kie.dfy): one image;
  - `CheckKieFile` (check_kie_file.dfy): the file;
  - `CheckReport` (check_report.dfy): the printed report.
- **The other tools**
  - `FilterKie` (filter_kie.dfy);
  - `FixUnrecognized` (fix_unrecognized.dfy);
  - `FixDifficult` (fix_difficult.dfy).

Each loop of the tools is a method with its invariants. It is proved equal to a
function of its inputs, and the tools' promises are proved as lemmas about those
functions. Mutating a list of item dictionaries in place is an `array<Item>` updated
in place (`FixUnrecognized.FixItems`, `FixDifficult.ClearItems`).

Decoding JSON is a parameter `Parser` (`None` when `json.loads` raises). Writing
JSON is the `OutLine.Record(path, items)` value that `json.dumps` would serialise.

`normalize_text` is not idempotent, although it is easy to assume it is. A text
with two enumeration markers such as "1.2.x" becomes "2.x", and then "x"
(`AssignText.NormalizeNotIdempotent`). The model follows the code.

Some behaviours of the code are easy to miss; the model keeps them:

- The checker's `--dedup` rewrite keeps only the lines whose JSON decodes. Blank lines,
  lines without a tab and lines with invalid JSON are not written back
  (`CheckKieFile.RewrittenIff`).
- A JSON `null` key is a key of its own for the checker: it is not the key "None".
  It is still printed as "None".
- The flag clearer writes back every line: lines without a tab and lines that do not
  decode stay as they were. The other tools skip blank lines.

## Model

| member | source | states |
|---|---|---|
| Records.SplitAtTab | tools/assign_kie_from_labeltxt.py:185 | `line.split("\t", 1)`: none exactly when the line has no tab; otherwise a tab-free path and a rest that rebuild the line |
| Records.SplitAtTabOf | tools/filter_kie_labels.py:40 | a line built as path, tab and rest splits back into that path and that rest when the path has no tab |
| Records.ReadLine | tools/assign_kie_from_labeltxt.py:178-190 | a line is skipped exactly when it is blank or has no tab; otherwise its path is tab-free, it is `path + "\t" + payload`, and it decodes exactly when the parser accepts the payload |
| Records.StrippedText | tools/check_kie_labels.py:70 | `str(item.get("transcription", "")).strip()`: "" for a missing transcription, the stripped text for a present one |
| Text.StripBy | tools/assign_kie_from_labeltxt.py:27 | `str.strip`: the result is a middle slice of the input that neither starts nor ends with a stripped character, and only stripped characters were cut at either end |
| Text.StripByUnchanged | tools/fix_labeltxt_unrecognized.py:32 | a text whose ends are not whitespace strips to itself (used for "-" and "None") |
| Text.Without | tools/assign_kie_from_labeltxt.py:31 | `re.sub(r"[\s　]+", "", t)`: no whitespace is left, and every kept character comes from the input |
| Text.WithoutStrip | tools/assign_kie_from_labeltxt.py:27-31 | stripping before deleting all whitespace changes nothing |
| Text.IndexOf | tools/assign_kie_from_labeltxt.py:65 | `pat.search(norm)` for a literal pattern: found exactly when the pattern occurs, and at its leftmost occurrence |
| AssignText.NormalizeText | tools/assign_kie_from_labeltxt.py:24-32 | `normalize_text`: "" for `None`, and the result never contains whitespace |
| AssignText.NormalizeDropsOneMarker | tools/assign_kie_from_labeltxt.py:27-31 | a text made of whitespace, digits (at least one), whitespace, one of `.、)）:：` and a rest, that is, any text with a match of `^\s*\d+\s*[.、)）:：]`, loses exactly that marker: the rest is kept without its whitespace, even when it starts with another marker |
| AssignText.NormalizeAfterMarker | tools/assign_kie_from_labeltxt.py:27-31 | the same, stated on positions of the input: whitespace before `a`, digits from `a` to `d`, whitespace from `d` to `e`, the closing character at `e` |
| AssignText.NormalizeWithoutMarker | tools/assign_kie_from_labeltxt.py:27-31 | whenever the stripped text has no leading marker, normalising only deletes whitespace |
| AssignText.NormalizeKeepsNumber | tools/assign_kie_from_labeltxt.py:27-31 | digits followed by a character that is neither whitespace, a digit nor a closing character (as in "2020年") are no marker: normalising keeps them and only deletes whitespace |
| AssignText.NormalizeNotIdempotent | tools/assign_kie_from_labeltxt.py:24-32 | normalising "1.2.x"-shaped texts twice differs from normalising once |
| AssignText.Trim | tools/assign_kie_from_labeltxt.py:69-71 | `leftover.strip().strip(":：/\\-\| ")`: the result neither starts nor ends with a separator, and it has no whitespace if the input had none |
| AssignText.CutOut | tools/assign_kie_from_labeltxt.py:68-71 | the normalised text with the leftmost occurrence of the pattern removed, then trimmed: no whitespace and no separator at either end |
| AssignText.FirstMatchFrom | tools/assign_kie_from_labeltxt.py:64-66 | the loop over the patterns finds the first one, in list order, that occurs, and no earlier one occurs |
| AssignText.ExtractInlineValue | tools/assign_kie_from_labeltxt.py:61-73 | `extract_inline_value`: no whitespace, no separator at either end, and "" when no pattern matches |
| AssignText.ExtractUsesFirstMatch | tools/assign_kie_from_labeltxt.py:64-72 | the value is cut at the first pattern in list order that occurs, at its leftmost occurrence |
| AssignBoxes.Min | tools/assign_kie_from_labeltxt.py:40-41 | `min` of a non-empty list is one of its elements and at most each of them |
| AssignBoxes.Max | tools/assign_kie_from_labeltxt.py:40-41 | `max` of a non-empty list is one of its elements and at least each of them |
| AssignBoxes.BuildBox | tools/assign_kie_from_labeltxt.py:35-46 | `build_box` on a non-empty polygon: the envelope holds every point and is attained at each side; minx ≤ cx ≤ maxx, miny ≤ cy ≤ maxy, h = maxy − miny ≥ 0, w ≥ 0 |
| AssignBoxes.VerticalOverlap | tools/assign_kie_from_labeltxt.py:49-50 | the overlap is never negative |
| AssignBoxes.OverlapSymmetric | tools/assign_kie_from_labeltxt.py:49-50 | the overlap does not depend on the order of the boxes |
| AssignBoxes.OverlapBoundedByHeights | tools/assign_kie_from_labeltxt.py:49-50 | the overlap is at most the height of either box |
| AssignBoxes.SameRowSymmetric | tools/assign_kie_from_labeltxt.py:53-58 | `same_row(a, b, r) == same_row(b, a, r)` |
| AssignBoxes.SameRowMonotone | tools/assign_kie_from_labeltxt.py:53-58 | true at a ratio implies true at every smaller ratio |
| AssignBoxes.ZeroHeightNeverSameRow | tools/assign_kie_from_labeltxt.py:53-58 | a box of height zero is on no row with anything, so the 1.0 divisor never decides |
| AssignBoxes.SameRowAsProduct | tools/assign_kie_from_labeltxt.py:53-58 | the ratio test is: overlap > 0 and overlap ≥ ratio × the lower height |
| Sorting.SortBy | tools/assign_kie_from_labeltxt.py:173 | `list.sort(key=...)`: a permutation of the input, sorted by the key |
| Sorting.SortByStable | tools/assign_kie_from_labeltxt.py:173 | the sort is stable: the elements with any one key keep their input order |
| Sorting.SortByFirst | tools/assign_kie_from_labeltxt.py:173 | the first element of the sorted list has the least key, and is the earliest input element with that key |
| AssignSpecs.LabelSpecsValid | tools/assign_kie_from_labeltxt.py:115-158 | the table has 26 specs, each with at least one value key |
| AssignSpecs.CompileSpec | tools/assign_kie_from_labeltxt.py:163-164 | a compiled spec keeps its value keys and has one normalised (whitespace-free) pattern per pattern |
| AssignSpecs.Compile | tools/assign_kie_from_labeltxt.py:162-164 | one compiled spec per spec; every spec still has a value key |
| AssignSpecs.AllPatterns | tools/assign_kie_from_labeltxt.py:165 | `all_label_patterns` holds every pattern of every spec |
| AssignSpecs.CompileSpecs | tools/assign_kie_from_labeltxt.py:160-165 | the compile loop yields the compiled table and its pattern union |
| AssignSpecs.KeyLabelOfSpec | tools/assign_kie_from_labeltxt.py:80-82 | a text matching one spec's patterns is a label under the union of all patterns |
| AssignSpecs.AllPatternsOnly | tools/assign_kie_from_labeltxt.py:161-165 | a pattern is in `all_label_patterns` exactly when it is a pattern of some spec |
| AssignSpecs.KeyLabelOnlyOfSpec | tools/assign_kie_from_labeltxt.py:80-82 | a text that is a label under the union of all patterns matches the patterns of some spec |
| AssignRecords.BoxesOf | tools/assign_kie_from_labeltxt.py:191 | one box per item, `idx` its position, with the item's polygon and a non-negative height |
| AssignRecords.IndexedIncreasing | tools/assign_kie_from_labeltxt.py:191 | boxes built by `enumerate` are in increasing `idx` order |
| AssignRecords.KeyFlags | tools/assign_kie_from_labeltxt.py:192 | `key_flags` maps exactly the box indexes, each to whether the box is a label of any spec |
| AssignRecords.MatchLabelBoxes | tools/assign_kie_from_labeltxt.py:167-174 | the matching boxes in record order, then sorted by (cy, cx) |
| AssignRecords.LabelExists | tools/assign_kie_from_labeltxt.py:197-199 | a spec has a label box exactly when some box matches it |
| AssignRecords.SpecWithoutLabel | tools/assign_kie_from_labeltxt.py:196-199 | a spec none of whose patterns occurs in any box is skipped and emits no item |
| AssignRecords.LabelIsFirstInReadingOrder | tools/assign_kie_from_labeltxt.py:167-174 | the label box matches and has the least (cy, cx) of all matching boxes; on a tie it comes first in the record |
| AssignRecords.CollectCandidates | tools/assign_kie_from_labeltxt.py:201-211 | the candidate loop and sort yield the candidates |
| AssignRecords.CandidatesAreTheTestedBoxes | tools/assign_kie_from_labeltxt.py:202-211 | a box is a candidate exactly when it is not the label, not flagged, right of `maxx + gap` and on the label's row; candidates are in ascending cx |
| AssignRecords.LabelNeverCandidate | tools/assign_kie_from_labeltxt.py:205-206 | a box that is the label of any spec is never a candidate |
| AssignRecords.CandidatesMonotone | tools/assign_kie_from_labeltxt.py:207-209 | a larger gap or overlap ratio never adds a candidate |
| AssignRecords.Paired | tools/assign_kie_from_labeltxt.py:215-217 | min(\|candidates\|, \|keys\|) items |
| AssignRecords.SpecPairsCandidates | tools/assign_kie_from_labeltxt.py:213-226 | with candidates, item i has the text and polygon of candidate i and key i, for min(\|keys\|, \|candidates\|) items |
| AssignRecords.SpecFallsBackInline | tools/assign_kie_from_labeltxt.py:227-238 | without candidates, at most one item: the non-empty inline value, the label's polygon and the first key |
| AssignRecords.SpecItemsAssigned | tools/assign_kie_from_labeltxt.py:219-238 | every item a spec emits has `difficult` false, a polygon, and a key from some spec |
| AssignRecords.EmittedAssigned | tools/assign_kie_from_labeltxt.py:196-238 | every item the specs emit is such an item |
| AssignRecords.AssignedItemsSorted | tools/assign_kie_from_labeltxt.py:240-241 | the record's output is a permutation of what the specs emitted, sorted by (min y, min x), all of them assigned items |
| AssignRecords.AssignSpec | tools/assign_kie_from_labeltxt.py:196-238 | the body of the spec loop yields what the spec emits |
| AssignRecords.PairCandidates | tools/assign_kie_from_labeltxt.py:215-226 | the `enumerate(value_keys)` loop with its `break` yields the pairing |
| AssignRecords.AssignRecord | tools/assign_kie_from_labeltxt.py:191-241 | the record loop yields the sorted emitted items |
| AssignRecords.AssignLines | tools/assign_kie_from_labeltxt.py:176-244 | at most one output record per line, each a record with a tab-free path |
| AssignRecords.AssignLinesIff | tools/assign_kie_from_labeltxt.py:176-244 | a record is in the output exactly when some line decodes and the record is that line's path with the items assigned from that line |
| AssignRecords.AssignLinesInOrder | tools/assign_kie_from_labeltxt.py:176-244 | there are as many records as lines that decode, and a decoded line with `k` decoded lines before it gives record `k` |
| AssignRecords.AssignFile | tools/assign_kie_from_labeltxt.py:160-244 | compiling the table and looping over the lines yields the output records |
| AssignRecords.AssignFileWithDefaults | tools/assign_kie_from_labeltxt.py:99-102 | without `--min_x_gap` and `--row_overlap` the tool assigns with a gap of 5.0 and an overlap ratio of 0.4 |
| CheckKie.KeyOrder | tools/check_kie_labels.py:81-84 | the keys of `seen`, in insertion order, never include "None" |
| CheckKie.DedupKeepsFirstOccurrences | tools/check_kie_labels.py:71-76 | with `--dedup` the kept items are items of the image in their order, every (key, text) pair still occurs, no two kept items share a pair, every item whose pair is new at its place is kept, and every kept item is such a first occurrence |
| CheckKie.TextsOfIff | tools/check_kie_labels.py:85 | a text is in `seen[k]` exactly when the pair (k, text) occurs |
| CheckKie.CountOfPositive | tools/check_kie_labels.py:86 | a pair is counted exactly when its text is in `seen[k]` |
| CheckKie.CountOfDistinct | tools/check_kie_labels.py:86 | without repeated pairs, no pair is counted twice |
| CheckKie.KeyOrderIff | tools/check_kie_labels.py:81-84 | the keys of `seen` are exactly the keys other than "None" that occur |
| CheckKie.KeyOrderDistinct | tools/check_kie_labels.py:90 | each key of `seen` is visited once |
| CheckKie.AllItemReasonsIff | tools/check_kie_labels.py:79-88 | a per-item reason is reported exactly when some entry draws it |
| CheckKie.KeyReasonsIff | tools/check_kie_labels.py:90-97 | a per-key reason is reported exactly when some key of `seen` draws it |
| CheckKie.TextsOfKeyOccurs | tools/check_kie_labels.py:81-85 | a key with a recorded text occurs |
| CheckKie.KeyReasonOfVisited | tools/check_kie_labels.py:90-97 | a duplicate reason comes from the pass over `seen`, for its own key |
| CheckKie.DuplicateKeyReported | tools/check_kie_labels.py:90-92 | `duplicate_key:k` exactly when k is not "None" and has two or more different texts |
| CheckKie.DuplicateSameReported | tools/check_kie_labels.py:93-97 | `duplicate_same:k` exactly when k is not "None" and its only text occurs twice or more |
| CheckKie.DuplicateKindsExclusive | tools/check_kie_labels.py:90-97 | never both `duplicate_key:k` and `duplicate_same:k` |
| CheckKie.InvalidKeyReported | tools/check_kie_labels.py:79-80 | `invalid_key:k` exactly when k occurs, is not "None" and is not allowed |
| CheckKie.UnrecognizedReported | tools/check_kie_labels.py:87-88 | `unrecognized_value:k` exactly when k occurs with "待识别" or "" |
| CheckKie.DistinctNoDuplicateSame | tools/check_kie_labels.py:93-97 | entries that are never repeated draw no `duplicate_same` |
| CheckKie.ItemReasonNames | tools/check_kie_labels.py:79-88 | an entry draws only reasons about its own key |
| CheckKie.KeyReasonNames | tools/check_kie_labels.py:90-97 | the per-key pass draws only duplicate reasons about the visited key |
| CheckKie.NoKeyNotReported | tools/check_kie_labels.py:77-97 | when no entry has the key "None", no reason names it |
| CheckKie.ReachedIff | tools/check_kie_labels.py:68-78 | an entry reaches the checks exactly when some item has it and `--allow_none` does not skip it |
| CheckKie.ReachedDistinct | tools/check_kie_labels.py:71-76 | with `--dedup` the checked entries are all different, "None" keys included |
| CheckKie.DedupSilencesDuplicateSame | tools/check_kie_labels.py:71-76 | with `--dedup` no `duplicate_same` is reported |
| CheckKie.DedupKeepsDuplicateKey | tools/check_kie_labels.py:71-92 | `duplicate_key` is reported alike with and without `--dedup` |
| CheckKie.AllowNoneSilencesNone | tools/check_kie_labels.py:77-78 | with `--allow_none` no reason names the key "None" |
| CheckKie.ReachedFrom | tools/check_kie_labels.py:68-78 | every checked entry comes from an item that `--allow_none` does not skip |
| CheckKie.ReachedTo | tools/check_kie_labels.py:68-78 | every item's entry reaches the checks unless `--allow_none` skips it |
| CheckKie.ReachedKey | tools/check_kie_labels.py:68-78 | a key reaches the checks exactly when some item has it and it is not skipped |
| CheckKie.InvalidKeyOfItems | tools/check_kie_labels.py:69-80 | `invalid_key:k` exactly when some item has key k, which is neither "None" nor allowed |
| CheckKie.UnrecognizedOfItems | tools/check_kie_labels.py:68-88 | `unrecognized_value:k` exactly when some item with key k has a placeholder text and is not skipped |
| CheckKie.TalliedNoKey | tools/check_kie_labels.py:81 | an entry with key "None" leaves `seen` and `counts` alone |
| CheckKie.SoleText | tools/check_kie_labels.py:95-96 | with at most one text, checking `next(iter(vals))` is checking every text |
| CheckKie.SeenCountsKeys | tools/check_kie_labels.py:82-84 | `seen` and `counts` always have the same keys |
| CheckKie.TalliedOf | tools/check_kie_labels.py:81-86 | `seen` and `counts` hold, for each key other than "None", its texts and the count of every pair |
| CheckKie.SeenOfKeys | tools/check_kie_labels.py:82-84 | the keys of `seen` are those of the first-occurrence order |
| CheckKie.ScanEntry | tools/check_kie_labels.py:79-88 | one checked entry extends the reasons, `seen`, `counts` and the key order as the specification functions say |
| CheckKie.KeyPass | tools/check_kie_labels.py:90-97 | the pass over `seen` yields the per-key reasons |
| CheckKie.DedupItem | tools/check_kie_labels.py:71-76 | the dedup test is true exactly when the pair is new; `dedup_seen` and `dedup_items` are kept in step |
| CheckKie.ScanItem | tools/check_kie_labels.py:68-88 | one turn of the item loop keeps every loop variable equal to its specification |
| CheckKie.ScanItems | tools/check_kie_labels.py:68-88 | the item loop leaves every loop variable equal to its specification |
| CheckKie.CheckRecord | tools/check_kie_labels.py:63-97 | an image's reasons, and with `--dedup` its deduplicated items |
| CheckKieFile.CheckFile | tools/check_kie_labels.py:49-104 | the reports of all lines, and a rewrite only when `--dedup` is on and some record was produced (lines 121-124) |
| CheckKieFile.LineReportIff | tools/check_kie_labels.py:54-100 | one line's report: `invalid_json` when it does not decode, its reasons when there are any |
| CheckKieFile.ReportedIff | tools/check_kie_labels.py:52-100 | an image is reported exactly when its line does not decode or its reason list is non-empty |
| CheckKieFile.ReportsWellFormed | tools/check_kie_labels.py:56-100 | every report has a tab-free path and at least one reason |
| CheckKieFile.RewrittenIff | tools/check_kie_labels.py:101-104 | the rewrite holds one deduplicated record per line that decodes and nothing else |
| CheckKieFile.RecheckAfterDedup | tools/check_kie_labels.py:71-76 | checking the written-back items again reports what `--dedup` reported, and a second dedup changes nothing |
| CheckReport.BelowIrreflexive | tools/check_kie_labels.py:108 | Python's `str` order is irreflexive |
| CheckReport.BelowTransitive | tools/check_kie_labels.py:108 | and transitive |
| CheckReport.BelowTotal | tools/check_kie_labels.py:108 | and total |
| CheckReport.InsertUnique | tools/check_kie_labels.py:108 | inserting into a set list grows it by at most one |
| CheckReport.InsertUniqueIff | tools/check_kie_labels.py:108 | the insertion holds the new text and the old ones, nothing else |
| CheckReport.InsertUniqueSorted | tools/check_kie_labels.py:108 | the insertion keeps the list strictly sorted |
| CheckReport.SortedSet | tools/check_kie_labels.py:108 | `sorted(set(texts))` is no longer than the texts |
| CheckReport.SortedSetSpec | tools/check_kie_labels.py:108 | it is strictly sorted and holds exactly the texts |
| CheckReport.StrictlySortedUnique | tools/check_kie_labels.py:108 | two strictly sorted lists with the same elements are equal |
| CheckReport.SortedSetSameElements | tools/check_kie_labels.py:108 | the sorted set depends only on which texts occur |
| CheckReport.AfterColonOfPrefix | tools/check_kie_labels.py:110-116 | `r.split(":", 1)[1]` after a prefix ending in its only colon is the rest |
| CheckReport.CnTextOfReason | tools/check_kie_labels.py:109-118 | translating a reason's text by prefix gives its fixed Chinese label followed by the key; `invalid_json` is kept |
| CheckReport.Join | tools/check_kie_labels.py:119 | `sep.join`: "" for no parts, the part itself for one |
| CheckReport.RenderReport | tools/check_kie_labels.py:106-119 | the line printed for one report |
| CheckReport.RenderReports | tools/check_kie_labels.py:106-119 | one printed line per report, in order |
| CheckReport.ReasonsLineSpec | tools/check_kie_labels.py:108-118 | the printed reasons depend only on which reasons occur, and each occurring reason's label is printed |
| CheckReport.ReportLineSplits | tools/check_kie_labels.py:119 | a printed line splits at its first tab into the image path and the joined reasons |
| FilterKie.KeepItems | tools/filter_kie_labels.py:45-49 | the loop builds the kept items |
| FilterKie.KeptIff | tools/filter_kie_labels.py:46-49 | an item is kept exactly when it is in the image and its key (default "None") is on the list |
| FilterKie.KeptSubsequence | tools/filter_kie_labels.py:45-49 | the kept items keep their order |
| FilterKie.KeptIdempotent | tools/filter_kie_labels.py:45-50 | filtering again changes nothing |
| FilterKie.KeptAll | tools/filter_kie_labels.py:45-49 | an image whose keys are all listed is unchanged |
| FilterKie.FilterFile | tools/filter_kie_labels.py:29-54 | true and the filtered lines when the file exists, false and nothing written otherwise |
| FilterKie.FilterLinesIff | tools/filter_kie_labels.py:33-50 | one record per decoded line, with its path and kept items; blank, tabless and undecodable lines are dropped |
| FilterKie.EmptyRecordKept | tools/filter_kie_labels.py:40-50 | an image with no listed key is still written, with an empty array and its path |
| FixUnrecognized.PlaceholderText | tools/fix_labeltxt_unrecognized.py:29-33 | the placeholder test is the tool's test on `str(...).strip()`, with missing and null transcriptions never matching |
| FixUnrecognized.FixItem | tools/fix_labeltxt_unrecognized.py:30-34 | the loop body rewrites one item as specified |
| FixUnrecognized.FixItems | tools/fix_labeltxt_unrecognized.py:29-34 | the loop rewrites every array slot in place, and only as specified |
| FixUnrecognized.FixedChanges | tools/fix_labeltxt_unrecognized.py:31-34 | an item changes exactly when its key is a target, its stripped text is a placeholder, and its transcription is not exactly "-" (so " - " changes); a matched item ends with "-" |
| FixUnrecognized.FixedOnlyTranscription | tools/fix_labeltxt_unrecognized.py:34 | no field but the transcription changes |
| FixUnrecognized.FixedIdempotent | tools/fix_labeltxt_unrecognized.py:6 | rewriting an item twice is rewriting it once, "-" being a target text |
| FixUnrecognized.FixRecordIdempotent | tools/fix_labeltxt_unrecognized.py:29-34 | rewriting an image twice is rewriting it once |
| FixUnrecognized.FixImage | tools/fix_labeltxt_unrecognized.py:29-35 | the items written for one image are the rewritten items, one per item, in order |
| FixUnrecognized.FixFile | tools/fix_labeltxt_unrecognized.py:17-35 | the line loop yields the output lines |
| FixUnrecognized.FixLinesIff | tools/fix_labeltxt_unrecognized.py:19-35 | undecodable lines pass through verbatim, decoded ones are rewritten, blank and tabless lines are dropped |
| FixDifficult.Cleared | tools/fix_difficult_false.py:33-34 | after the pass an item's flag is not `true`, only the flag changed, and the item changed exactly when its flag was `true` |
| FixDifficult.ClearItems | tools/fix_difficult_false.py:32-35 | the loop clears every array slot in place, and the count is the number of flags that were `true` |
| FixDifficult.ClearImage | tools/fix_difficult_false.py:32-36 | the items written for one image, and the count it adds |
| FixDifficult.CountIsChanges | tools/fix_difficult_false.py:32-35 | the count is the number of items the pass changes |
| FixDifficult.NoneDifficultAfter | tools/fix_difficult_false.py:32-34 | after the pass no item of the image has the flag `true` |
| FixDifficult.ClearedIdempotent | tools/fix_difficult_false.py:32-35 | a second pass changes nothing and counts nothing |
| FixDifficult.ClearLine | tools/fix_difficult_false.py:20-36 | a line without a tab, or whose JSON does not decode, is kept verbatim; otherwise its path and the cleared items |
| FixDifficult.ClearFile | tools/fix_difficult_false.py:16-36 | one output line per input line, in order, and the total count |
| FixDifficult.ChangedTotalCounts | tools/fix_difficult_false.py:35 | the total is zero exactly when no line has a flag to clear |
| FixDifficult.SecondPassZero | tools/fix_difficult_false.py:32-36 | a second pass over any record the pass wrote counts nothing |

## Left out

- Reading and writing files is not modelled. Lines are given as a list of strings with their `\n` removed, and the output is a list of lines. The same goes for `argparse`, `print` and the `FileNotFoundError` raises. `filter_file`'s missing path is an `Option` argument.
- The flag clearer writes "\n" for an empty output. The text of the written file is not modelled.
- JSON is not modelled: `json.loads` is the `Parser` parameter and `json.dumps` the `OutLine.Record` value.
  - An item keeps only the fields the tools read.
  - A field is missing, `null` or a value of the expected type. Other JSON types, such as a non-string `key_cls` or a `difficult` of `1`, are not modelled.
  - A decoded payload that is not a list of objects makes the tools raise; it is not modelled.
- Floating point is not modelled. Coordinates are exact reals, so rounding in `(minx + maxx) / 2.0` and in the overlap ratio is ignored.
- Python's regular expressions are not modelled: every table pattern is a literal, so `search` is the leftmost occurrence.
- Text.IsDigit: it admits ASCII and fullwidth digits only, where Python's `\d` admits every Unicode decimal digit.
- AssignRecords.AssignLines: it requires every decoded item to have a non-empty polygon. On an empty one, `build_box` raises, and the model does not follow that path.
- AssignRecords.PositionKey has a branch for an empty polygon that emitted items never take.
- Nothing is claimed about a value box being used by one spec only. The same box can be emitted for two specs.
- Nothing is claimed about the allow-lists matching the keys the assigner emits. They do not: nine emitted keys are missing from both `ALLOWED_KEYS` (tools/check_kie_labels.py) and `KEEP_KEYS` (tools/filter_kie_labels.py). They are `vc_engine_model_no` (tools/assign_kie_from_labeltxt.py:126), `vc_fuel_consumption` (:134), `vc_overall_dimensions` (:138), `vc_tire_count` (:143), `vc_track` (:147), `vc_axle_load` (:150), `vc_axle_count` (:151), `vc_steering_type` (:152) and `vc_max_speed` (:156).
- CheckReport.KeyText: a JSON `null` key and the key "None" print the same, so the report cannot tell them apart. The model keeps them apart up to printing.
- `main` of the filter calls `filter_file` on `Label.txt` and on `Cache.cach`. Only one call is modelled, as the two are independent.
- `tools/fixdirection.py` is not part of this model. It decodes, transposes and re-encodes images through a foreign library.
