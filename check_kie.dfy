/**
 * The per-image check of `tools/check_kie_labels.py`: which keys are unknown or
 * unrecognised, which keys were given more than once, and, with `--dedup`, the
 * items left after dropping repeated (key, text) pairs.
 */
module CheckKie {
  import opened Wrappers
  import opened Records
  import opened Lists

  const AllowedKeys: set<string> := {
    "vc_no", "vc_issue_date", "vc_manu_enterprise", "vc_brands", "vc_type",
    "vc_model_no", "vc_vin", "vc_color", "vc_engineno", "vc_fuel",
    "vc_displace", "vc_power", "vc_emission_standard", "vc_tyre_size", "vc_wheelbase",
    "vc_totalw", "vc_curbw", "vc_carrying_num", "vc_manu_date", "vc_manu_addr"
  }

  const UnrecognizedTexts: set<string> := {"待识别", ""}

  /** The key "None", which the checker treats as "no key". A JSON null key is
      `Wrappers.None`, which is a different key. */
  const NoKey: Option<string> := Some("None")

  datatype Reason =
    | InvalidJson
    | InvalidKey(key: Option<string>)
    | UnrecognizedValue(key: Option<string>)
    | DuplicateKey(key: Option<string>)
    | DuplicateSame(key: Option<string>)

  /** The pair `(key_cls, text_val)` the checker reads off an item. */
  datatype Entry = Entry(key: Option<string>, text: string)

  function EntryOf(item: Item): Entry {
    Entry(KeyOf(item), StrippedText(item))
  }

  /** With `--dedup`, the items whose (key, text) pair did not occur earlier, in
      their order. */
  function Dedup(items: seq<Item>): seq<Item> {
    DedupBy(items, EntryOf)
  }

  /** With `--dedup`, the items written back are items of the image in their order,
      every (key, text) pair of the image still occurs among them, no two of them
      share a pair, and they are the first occurrences of their pairs: an item whose
      pair is new at its place is kept, and every item kept has a pair that is new at
      some place it occurs. */
  lemma DedupKeepsFirstOccurrences(items: seq<Item>)
    ensures IsSubsequence(Dedup(items), items)
    ensures forall e :: e in Image(Dedup(items), EntryOf) <==> e in Image(items, EntryOf)
    ensures Distinct(Image(Dedup(items), EntryOf))
    ensures forall i :: 0 <= i < |items| && EntryOf(items[i]) !in Image(items[..i], EntryOf) ==>
              items[i] in Dedup(items)
    ensures forall k :: 0 <= k < |Dedup(items)| ==>
              exists i :: 0 <= i < |items| && items[i] == Dedup(items)[k]
                       && EntryOf(items[i]) !in Image(items[..i], EntryOf)
  {
    DedupBySubsequence(items, EntryOf);
    DedupByCovers(items, EntryOf);
    DedupByImageDistinct(items, EntryOf);
    forall i | 0 <= i < |items| && EntryOf(items[i]) !in Image(items[..i], EntryOf)
      ensures items[i] in Dedup(items)
    {
      DedupByKeepsFirst(items, EntryOf, i);
    }
    forall k | 0 <= k < |Dedup(items)|
      ensures exists i :: 0 <= i < |items| && items[i] == Dedup(items)[k]
                       && EntryOf(items[i]) !in Image(items[..i], EntryOf)
    {
      DedupByOnlyFirst(items, EntryOf, k);
    }
  }

  /** Whether an entry goes on to the checks: with `--allow_none`, entries whose
      key is "None" are skipped. */
  function Checked(allowNone: bool): Entry -> bool {
    (e: Entry) => !(allowNone && e.key == NoKey)
  }

  /** The entries that reach the checks, in order: those of the items dedup keeps
      (of all items without `--dedup`) that pass `Checked`. */
  function Reached(items: seq<Item>, allowNone: bool, dedup: bool): seq<Entry> {
    Filter(Image(Kept(items, dedup), EntryOf), Checked(allowNone))
  }

  /** The items the loop goes on with after the dedup test. */
  function Kept(items: seq<Item>, dedup: bool): seq<Item> {
    if dedup then Dedup(items) else items
  }

  predicate Allowed(key: Option<string>) {
    key.Some? && key.value in AllowedKeys
  }

  /** The reasons one entry adds while the items are scanned. */
  function ItemReasons(e: Entry): seq<Reason> {
    (if e.key != NoKey && !Allowed(e.key) then [InvalidKey(e.key)] else [])
    + (if e.text in UnrecognizedTexts then [UnrecognizedValue(e.key)] else [])
  }

  function AllItemReasons(es: seq<Entry>): seq<Reason> {
    FlatMap(es, ItemReasons)
  }

  /** The keys other than "None", in the order they first occur: the key order of
      the `seen` dictionary. */
  function KeyOrder(es: seq<Entry>): (ks: seq<Option<string>>)
    ensures forall j :: 0 <= j < |ks| ==> ks[j] != NoKey
  {
    if es == [] then []
    else
      var ks := KeyOrder(es[..|es| - 1]);
      var k := es[|es| - 1].key;
      ks + (if k != NoKey && k !in ks then [k] else [])
  }

  /** `seen[k]`: the texts given for key `k`. */
  function TextsOf(es: seq<Entry>, k: Option<string>): set<string> {
    if es == [] then {}
    else
      var e := es[|es| - 1];
      TextsOf(es[..|es| - 1], k) + (if e.key == k then {e.text} else {})
  }

  /** `counts[k][t]`: how often the pair (k, t) occurs. */
  function CountOf(es: seq<Entry>, k: Option<string>, t: string): nat {
    if es == [] then 0
    else
      var e := es[|es| - 1];
      CountOf(es[..|es| - 1], k, t) + (if e.key == k && e.text == t then 1 else 0)
  }

  /** The reason, if any, reported for key `k` after the scan. */
  function KeyReason(es: seq<Entry>, k: Option<string>): seq<Reason> {
    var texts := TextsOf(es, k);
    if |texts| > 1 then [DuplicateKey(k)]
    else if exists t :: t in texts && CountOf(es, k, t) > 1 then [DuplicateSame(k)]
    else []
  }

  /** The per-key pass over the keys `ks` of `seen`. */
  function KeyReasons(es: seq<Entry>, ks: seq<Option<string>>): seq<Reason> {
    FlatMap(ks, KeyReasonIn(es))
  }

  function KeyReasonIn(es: seq<Entry>): Option<string> -> seq<Reason> {
    k => KeyReason(es, k)
  }

  /** The reasons for a list of checked entries, in the order they are appended. */
  function ReasonsOf(es: seq<Entry>): seq<Reason> {
    AllItemReasons(es) + KeyReasons(es, KeyOrder(es))
  }

  /** The reasons of one image. */
  function Reasons(items: seq<Item>, allowNone: bool, dedup: bool): seq<Reason> {
    ReasonsOf(Reached(items, allowNone, dedup))
  }

  // ------------------------------------------------------------- the scan, entry by entry

  /** A text is in `seen[k]` exactly when the pair (k, text) occurs. */
  lemma {:induction false} TextsOfIff(es: seq<Entry>, k: Option<string>, t: string)
    ensures t in TextsOf(es, k) <==> Entry(k, t) in es
  {
    if es != [] {
      var init := es[..|es| - 1];
      TextsOfIff(init, k, t);
      assert es == init + [es[|es| - 1]];
    }
  }

  /** A pair is counted exactly when its text is in `seen[k]`. */
  lemma {:induction false} CountOfPositive(es: seq<Entry>, k: Option<string>, t: string)
    ensures CountOf(es, k, t) > 0 <==> t in TextsOf(es, k)
  {
    if es != [] {
      CountOfPositive(es[..|es| - 1], k, t);
    }
  }

  /** Without repeated entries, no pair is counted twice. */
  lemma {:induction false} CountOfDistinct(es: seq<Entry>, k: Option<string>, t: string)
    requires Distinct(es)
    ensures CountOf(es, k, t) <= 1
  {
    if es != [] {
      var init := es[..|es| - 1];
      assert Distinct(init);
      CountOfDistinct(init, k, t);
      if es[|es| - 1] == Entry(k, t) {
        assert Entry(k, t) !in init by {
          forall i | 0 <= i < |init|
            ensures init[i] != Entry(k, t)
          {
            assert es[i] != es[|es| - 1];
          }
        }
        CountOfPositive(init, k, t);
        TextsOfIff(init, k, t);
      }
    }
  }

  /** The keys of `seen` are the keys other than "None" that occur. */
  lemma {:induction false} KeyOrderIff(es: seq<Entry>, k: Option<string>)
    ensures k in KeyOrder(es) <==> k != NoKey && exists i :: 0 <= i < |es| && es[i].key == k
  {
    if es != [] {
      var init := es[..|es| - 1];
      KeyOrderIff(init, k);
      if exists i :: 0 <= i < |es| && es[i].key == k {
        var i :| 0 <= i < |es| && es[i].key == k;
        if i < |init| {
          assert init[i].key == k;
        }
      }
      if exists i :: 0 <= i < |init| && init[i].key == k {
        var i :| 0 <= i < |init| && init[i].key == k;
        assert es[i].key == k;
      }
    }
  }

  /** Each key of `seen` is visited once. */
  lemma {:induction false} KeyOrderDistinct(es: seq<Entry>)
    ensures Distinct(KeyOrder(es))
  {
    if es != [] {
      KeyOrderDistinct(es[..|es| - 1]);
    }
  }

  lemma AllItemReasonsIff(es: seq<Entry>, r: Reason)
    ensures r in AllItemReasons(es) <==> exists i :: 0 <= i < |es| && r in ItemReasons(es[i])
  {
    FlatMapIff(es, ItemReasons, r);
  }

  lemma KeyReasonsIff(es: seq<Entry>, ks: seq<Option<string>>, r: Reason)
    ensures r in KeyReasons(es, ks) <==> exists j :: 0 <= j < |ks| && r in KeyReason(es, ks[j])
  {
    FlatMapIff(ks, KeyReasonIn(es), r);
  }

  /** A key with a text in `seen` is a key that occurs. */
  lemma TextsOfKeyOccurs(es: seq<Entry>, k: Option<string>, t: string)
    requires t in TextsOf(es, k)
    ensures exists i :: 0 <= i < |es| && es[i].key == k
  {
    TextsOfIff(es, k, t);
    var i :| 0 <= i < |es| && es[i] == Entry(k, t);
  }

  /** The reason the per-key pass gives for a key it visits. */
  lemma KeyReasonOfVisited(es: seq<Entry>, r: Reason)
    requires r.DuplicateKey? || r.DuplicateSame?
    ensures r in ReasonsOf(es) <==> r.key in KeyOrder(es) && r in KeyReason(es, r.key)
  {
    var ks := KeyOrder(es);
    AllItemReasonsIff(es, r);
    forall i | 0 <= i < |es|
      ensures r !in ItemReasons(es[i])
    {
      if r in ItemReasons(es[i]) {
        ItemReasonNames(es[i], r);
      }
    }
    assert r in ReasonsOf(es) <==> r in KeyReasons(es, ks);
    KeyReasonsIff(es, ks, r);
    if r in KeyReasons(es, ks) {
      var j :| 0 <= j < |ks| && r in KeyReason(es, ks[j]);
      KeyReasonNames(es, ks[j], r);
    }
    if r.key in ks {
      var j :| 0 <= j < |ks| && ks[j] == r.key;
    }
  }

  /** `duplicate_key:k` is reported exactly when key k, other than "None", was given
      two or more different texts. */
  lemma DuplicateKeyReported(es: seq<Entry>, k: Option<string>)
    ensures DuplicateKey(k) in ReasonsOf(es) <==> k != NoKey && |TextsOf(es, k)| > 1
  {
    KeyReasonOfVisited(es, DuplicateKey(k));
    KeyOrderIff(es, k);
    if |TextsOf(es, k)| > 1 {
      var t :| t in TextsOf(es, k);
      TextsOfKeyOccurs(es, k, t);
    }
  }

  /** `duplicate_same:k` is reported exactly when key k, other than "None", was given
      one text only, and more than once. */
  lemma DuplicateSameReported(es: seq<Entry>, k: Option<string>)
    ensures DuplicateSame(k) in ReasonsOf(es) <==>
              && k != NoKey && |TextsOf(es, k)| == 1
              && exists t :: t in TextsOf(es, k) && CountOf(es, k, t) > 1
  {
    KeyReasonOfVisited(es, DuplicateSame(k));
    KeyOrderIff(es, k);
    if exists t :: t in TextsOf(es, k) && CountOf(es, k, t) > 1 {
      var t :| t in TextsOf(es, k) && CountOf(es, k, t) > 1;
      TextsOfKeyOccurs(es, k, t);
      assert |TextsOf(es, k)| >= 1;
    }
  }

  /** A key is never reported both as given different texts and as given the same
      text twice. */
  lemma DuplicateKindsExclusive(es: seq<Entry>, k: Option<string>)
    ensures !(DuplicateKey(k) in ReasonsOf(es) && DuplicateSame(k) in ReasonsOf(es))
  {
    DuplicateKeyReported(es, k);
    DuplicateSameReported(es, k);
  }

  /** `invalid_key:k` is reported exactly when key k, other than "None", occurs and is
      not one of the allowed keys. */
  lemma InvalidKeyReported(es: seq<Entry>, k: Option<string>)
    ensures InvalidKey(k) in ReasonsOf(es) <==>
              k != NoKey && !Allowed(k) && exists i :: 0 <= i < |es| && es[i].key == k
  {
    AllItemReasonsIff(es, InvalidKey(k));
    KeyReasonsIff(es, KeyOrder(es), InvalidKey(k));
  }

  /** `unrecognized_value:k` is reported exactly when key k occurs with a placeholder
      text. */
  lemma UnrecognizedReported(es: seq<Entry>, k: Option<string>)
    ensures UnrecognizedValue(k) in ReasonsOf(es) <==>
              exists i :: 0 <= i < |es| && es[i].key == k && es[i].text in UnrecognizedTexts
  {
    AllItemReasonsIff(es, UnrecognizedValue(k));
    KeyReasonsIff(es, KeyOrder(es), UnrecognizedValue(k));
  }

  /** Entries that are not repeated never draw `duplicate_same`. */
  lemma DistinctNoDuplicateSame(es: seq<Entry>, k: Option<string>)
    requires Distinct(es)
    ensures DuplicateSame(k) !in ReasonsOf(es)
  {
    DuplicateSameReported(es, k);
    forall t | t in TextsOf(es, k)
      ensures CountOf(es, k, t) <= 1
    {
      CountOfDistinct(es, k, t);
    }
  }

  /** An entry draws only reasons about its own key. */
  lemma ItemReasonNames(e: Entry, r: Reason)
    requires r in ItemReasons(e)
    ensures r == InvalidKey(e.key) || r == UnrecognizedValue(e.key)
  {
  }

  /** The per-key pass draws only duplicate reasons about the key it visits. */
  lemma KeyReasonNames(es: seq<Entry>, k: Option<string>, r: Reason)
    requires r in KeyReason(es, k)
    ensures r == DuplicateKey(k) || r == DuplicateSame(k)
  {
  }

  /** When no entry has the key "None", no reason names it. */
  lemma NoKeyNotReported(es: seq<Entry>, r: Reason)
    requires forall i :: 0 <= i < |es| ==> es[i].key != NoKey
    requires r in ReasonsOf(es)
    ensures !r.InvalidJson? && r.key != NoKey
  {
    var ks := KeyOrder(es);
    if r in AllItemReasons(es) {
      AllItemReasonsIff(es, r);
      var i :| 0 <= i < |es| && r in ItemReasons(es[i]);
      ItemReasonNames(es[i], r);
    } else {
      KeyReasonsIff(es, ks, r);
      var j :| 0 <= j < |ks| && r in KeyReason(es, ks[j]);
      KeyReasonNames(es, ks[j], r);
    }
  }

  // ------------------------------------------------------------- from items to entries

  /** An entry reaches the checks exactly when some item has it and `--allow_none`
      does not skip it; dedup only drops repetitions. */
  lemma ReachedIff(items: seq<Item>, allowNone: bool, dedup: bool, e: Entry)
    ensures e in Reached(items, allowNone, dedup) <==>
              e in Image(items, EntryOf) && !(allowNone && e.key == NoKey)
  {
    DedupByCovers(items, EntryOf);
    var es := Image(Kept(items, dedup), EntryOf);
    assert e in Image(items, EntryOf) <==> e in es;
    FilterIff(es, Checked(allowNone), e);
  }

  /** With `--dedup`, the checked entries are all different. */
  lemma ReachedDistinct(items: seq<Item>, allowNone: bool)
    ensures Distinct(Reached(items, allowNone, true))
  {
    DedupByImageDistinct(items, EntryOf);
    FilterDistinct(Image(Dedup(items), EntryOf), Checked(allowNone));
  }

  /** With `--dedup`, `duplicate_same` is never reported. */
  lemma DedupSilencesDuplicateSame(items: seq<Item>, allowNone: bool, k: Option<string>)
    ensures DuplicateSame(k) !in Reasons(items, allowNone, true)
  {
    ReachedDistinct(items, allowNone);
    DistinctNoDuplicateSame(Reached(items, allowNone, true), k);
  }

  /** `--dedup` changes the texts recorded per key in no way, so `duplicate_key` is
      reported with and without it alike. */
  lemma DedupKeepsDuplicateKey(items: seq<Item>, allowNone: bool, k: Option<string>)
    ensures DuplicateKey(k) in Reasons(items, allowNone, true) <==>
              DuplicateKey(k) in Reasons(items, allowNone, false)
  {
    var a := Reached(items, allowNone, true);
    var b := Reached(items, allowNone, false);
    forall t
      ensures t in TextsOf(a, k) <==> t in TextsOf(b, k)
    {
      TextsOfIff(a, k, t);
      TextsOfIff(b, k, t);
      ReachedIff(items, allowNone, true, Entry(k, t));
      ReachedIff(items, allowNone, false, Entry(k, t));
    }
    assert TextsOf(a, k) == TextsOf(b, k);
    DuplicateKeyReported(a, k);
    DuplicateKeyReported(b, k);
  }

  /** With `--allow_none`, no reason names the key "None". */
  lemma AllowNoneSilencesNone(items: seq<Item>, dedup: bool, r: Reason)
    requires r in Reasons(items, true, dedup)
    ensures !r.InvalidJson? && r.key != NoKey
  {
    var es := Reached(items, true, dedup);
    forall i | 0 <= i < |es|
      ensures es[i].key != NoKey
    {
      ReachedIff(items, true, dedup, es[i]);
    }
    NoKeyNotReported(es, r);
  }

  /** A checked entry comes from some item. */
  lemma ReachedFrom(items: seq<Item>, allowNone: bool, dedup: bool, j: nat)
    requires j < |Reached(items, allowNone, dedup)|
    ensures var e := Reached(items, allowNone, dedup)[j];
            !(allowNone && e.key == NoKey) && exists i :: 0 <= i < |items| && EntryOf(items[i]) == e
  {
    var e := Reached(items, allowNone, dedup)[j];
    ReachedIff(items, allowNone, dedup, e);
    var i :| 0 <= i < |items| && Image(items, EntryOf)[i] == e;
  }

  /** The entry of every item reaches the checks unless `--allow_none` skips it. */
  lemma ReachedTo(items: seq<Item>, allowNone: bool, dedup: bool, i: nat)
    requires i < |items| && !(allowNone && EntryOf(items[i]).key == NoKey)
    ensures var es := Reached(items, allowNone, dedup);
            exists j :: 0 <= j < |es| && es[j] == EntryOf(items[i])
  {
    assert Image(items, EntryOf)[i] == EntryOf(items[i]);
    ReachedIff(items, allowNone, dedup, EntryOf(items[i]));
  }

  /** Some checked entry has key k exactly when some item has key k and
      `--allow_none` does not skip it. */
  lemma ReachedKey(items: seq<Item>, allowNone: bool, dedup: bool, k: Option<string>)
    ensures var es := Reached(items, allowNone, dedup);
            (exists j :: 0 <= j < |es| && es[j].key == k) <==>
            !(allowNone && k == NoKey) && exists i :: 0 <= i < |items| && KeyOf(items[i]) == k
  {
    var es := Reached(items, allowNone, dedup);
    if exists j :: 0 <= j < |es| && es[j].key == k {
      var j :| 0 <= j < |es| && es[j].key == k;
      ReachedFrom(items, allowNone, dedup, j);
      var i :| 0 <= i < |items| && EntryOf(items[i]) == es[j];
      assert EntryOf(items[i]).key == KeyOf(items[i]);
    }
    if !(allowNone && k == NoKey) && exists i :: 0 <= i < |items| && KeyOf(items[i]) == k {
      var i :| 0 <= i < |items| && KeyOf(items[i]) == k;
      assert EntryOf(items[i]).key == KeyOf(items[i]);
      ReachedTo(items, allowNone, dedup, i);
    }
  }

  /** `invalid_key:k` is reported exactly when some item has key k, which is neither
      "None" nor allowed. */
  lemma InvalidKeyOfItems(items: seq<Item>, allowNone: bool, dedup: bool, k: Option<string>)
    ensures InvalidKey(k) in Reasons(items, allowNone, dedup) <==>
              k != NoKey && !Allowed(k) && exists i :: 0 <= i < |items| && KeyOf(items[i]) == k
  {
    InvalidKeyReported(Reached(items, allowNone, dedup), k);
    ReachedKey(items, allowNone, dedup, k);
  }

  /** `unrecognized_value:k` is reported exactly when some item with key k has a
      placeholder text and `--allow_none` does not skip the key. */
  lemma UnrecognizedOfItems(items: seq<Item>, allowNone: bool, dedup: bool, k: Option<string>)
    ensures UnrecognizedValue(k) in Reasons(items, allowNone, dedup) <==>
              && !(allowNone && k == NoKey)
              && exists i :: 0 <= i < |items| && EntryOf(items[i]).key == k
                                              && EntryOf(items[i]).text in UnrecognizedTexts
  {
    var es := Reached(items, allowNone, dedup);
    UnrecognizedReported(es, k);
    if exists j :: 0 <= j < |es| && es[j].key == k && es[j].text in UnrecognizedTexts {
      var j :| 0 <= j < |es| && es[j].key == k && es[j].text in UnrecognizedTexts;
      ReachedFrom(items, allowNone, dedup, j);
    }
    if !(allowNone && k == NoKey) &&
       exists i :: 0 <= i < |items| && EntryOf(items[i]).key == k && EntryOf(items[i]).text in UnrecognizedTexts {
      var i :| 0 <= i < |items| && EntryOf(items[i]).key == k && EntryOf(items[i]).text in UnrecognizedTexts;
      ReachedTo(items, allowNone, dedup, i);
    }
  }

  // ------------------------------------------------------------- the scan as a loop

  /** One more item: its entry reaches the checks when dedup does not drop it and
      `--allow_none` does not skip it. */
  lemma ReachedAppend(done: seq<Item>, item: Item, allowNone: bool, dedup: bool)
    ensures var e := EntryOf(item);
            Reached(done + [item], allowNone, dedup)
            == Reached(done, allowNone, dedup)
               + (if (!dedup || e !in Image(done, EntryOf)) && !(allowNone && e.key == NoKey)
                  then [e] else [])
  {
    var e := EntryOf(item);
    var kept := Kept(done, dedup);
    KeptAppend(done, item, dedup);
    if !dedup || e !in Image(done, EntryOf) {
      assert Kept(done + [item], dedup) == kept + [item];
      FilterImageAppend(kept, item, EntryOf, Checked(allowNone));
    } else {
      assert Kept(done + [item], dedup) == kept;
    }
  }

  lemma KeptAppend(done: seq<Item>, item: Item, dedup: bool)
    ensures Kept(done + [item], dedup)
            == Kept(done, dedup) + (if !dedup || EntryOf(item) !in Image(done, EntryOf) then [item] else [])
  {
    DedupByAppend(done, item, EntryOf);
  }

  /** The specification functions one entry further on. */
  lemma ItemReasonsStep(es: seq<Entry>, e: Entry)
    ensures AllItemReasons(es + [e]) == AllItemReasons(es) + ItemReasons(e)
  {
    FlatMapAppend(es, e, ItemReasons);
  }

  lemma KeyOrderStep(es: seq<Entry>, e: Entry)
    ensures KeyOrder(es + [e]) == KeyOrder(es) + (if e.key != NoKey && e.key !in KeyOrder(es) then [e.key] else [])
  {
    assert (es + [e])[..|es|] == es;
  }

  lemma TextsStep(es: seq<Entry>, e: Entry, k: Option<string>)
    ensures TextsOf(es + [e], k) == TextsOf(es, k) + (if e.key == k then {e.text} else {})
  {
    assert (es + [e])[..|es|] == es;
  }

  lemma CountStep(es: seq<Entry>, e: Entry, k: Option<string>, t: string)
    ensures CountOf(es + [e], k, t) == CountOf(es, k, t) + (if e == Entry(k, t) then 1 else 0)
  {
    assert (es + [e])[..|es|] == es;
  }

  /** The keys of `seen` are those of `KeyOrder`. */
  ghost predicate SeenKeys(seen: map<Option<string>, set<string>>, es: seq<Entry>) {
    forall k :: k in seen <==> k in KeyOrder(es)
  }

  /** `seen[k]` holds the texts of key k. */
  ghost predicate SeenTexts(seen: map<Option<string>, set<string>>, es: seq<Entry>) {
    forall k :: k in seen ==> seen[k] == TextsOf(es, k)
  }

  /** `counts[k][t]` is how often (k, t) occurs, for each text t of `seen[k]`. */
  ghost predicate Counted(seen: map<Option<string>, set<string>>, counts: map<Option<string>, map<string, nat>>,
                          es: seq<Entry>)
  {
    && seen.Keys == counts.Keys
    && (forall k :: k in counts ==> counts[k].Keys == seen[k])
    && (forall k, t :: k in counts && t in counts[k] ==> counts[k][t] == CountOf(es, k, t))
  }

  /** `seen` and `counts` after scanning `es`: an entry for every key other than
      "None" that occurs, holding its texts and how often each was given. */
  ghost predicate Tallied(seen: map<Option<string>, set<string>>, counts: map<Option<string>, map<string, nat>>,
                          es: seq<Entry>)
  {
    SeenKeys(seen, es) && SeenTexts(seen, es) && Counted(seen, counts, es)
  }

  /** An entry whose key is "None" leaves `seen` and `counts` as they are. */
  lemma TalliedNoKey(seen: map<Option<string>, set<string>>, counts: map<Option<string>, map<string, nat>>,
                     es: seq<Entry>, e: Entry)
    requires Tallied(seen, counts, es) && e.key == NoKey
    ensures Tallied(seen, counts, es + [e])
  {
    KeyOrderStep(es, e);
    forall k | k in seen
      ensures seen[k] == TextsOf(es + [e], k)
    {
      TextsStep(es, e, k);
    }
    forall k, t | k in counts && t in counts[k]
      ensures counts[k][t] == CountOf(es + [e], k, t)
    {
      CountStep(es, e, k, t);
    }
  }

  /** A key not in `seen` has no texts and no counts yet. */
  lemma UnseenKey(es: seq<Entry>, k: Option<string>)
    requires k != NoKey && k !in KeyOrder(es)
    ensures TextsOf(es, k) == {} && forall t :: CountOf(es, k, t) == 0
  {
    KeyOrderIff(es, k);
    if t :| t in TextsOf(es, k) {
      TextsOfKeyOccurs(es, k, t);
    }
    forall t
      ensures CountOf(es, k, t) == 0
    {
      CountOfPositive(es, k, t);
    }
  }

  lemma SeenKeysStep(seen: map<Option<string>, set<string>>, es: seq<Entry>, e: Entry, texts: set<string>)
    requires SeenKeys(seen, es) && e.key != NoKey
    ensures SeenKeys(seen[e.key := texts], es + [e])
  {
    KeyOrderStep(es, e);
  }

  lemma SeenTextsStep(seen: map<Option<string>, set<string>>, es: seq<Entry>, e: Entry)
    requires SeenKeys(seen, es) && SeenTexts(seen, es) && e.key != NoKey
    ensures var texts := if e.key in seen then seen[e.key] else {};
            SeenTexts(seen[e.key := texts + {e.text}], es + [e])
  {
    if e.key !in seen {
      UnseenKey(es, e.key);
    }
    var texts := if e.key in seen then seen[e.key] else {};
    var seenAfter := seen[e.key := texts + {e.text}];
    forall k | k in seenAfter
      ensures seenAfter[k] == TextsOf(es + [e], k)
    {
      TextsStep(es, e, k);
    }
  }

  lemma CountedStep(seen: map<Option<string>, set<string>>, counts: map<Option<string>, map<string, nat>>,
                    es: seq<Entry>, e: Entry)
    requires Tallied(seen, counts, es) && e.key != NoKey
    ensures var texts := if e.key in seen then seen[e.key] else {};
            var c := if e.key in counts then counts[e.key] else map[];
            Counted(seen[e.key := texts + {e.text}],
                    counts[e.key := c[e.text := (if e.text in c then c[e.text] else 0) + 1]],
                    es + [e])
  {
    if e.key !in seen {
      UnseenKey(es, e.key);
    }
    var texts := if e.key in seen then seen[e.key] else {};
    var c := if e.key in counts then counts[e.key] else map[];
    var seenAfter := seen[e.key := texts + {e.text}];
    var countsAfter := counts[e.key := c[e.text := (if e.text in c then c[e.text] else 0) + 1]];
    forall k | k in countsAfter
      ensures countsAfter[k].Keys == seenAfter[k]
    {
    }
    forall k, t | k in countsAfter && t in countsAfter[k]
      ensures countsAfter[k][t] == CountOf(es + [e], k, t)
    {
      CountStep(es, e, k, t);
      if k == e.key && t == e.text && t !in c {
        CountOfPositive(es, k, t);
      }
    }
  }

  /** Adding an entry with a key other than "None" to `seen` and `counts`. */
  lemma TalliedStep(seen: map<Option<string>, set<string>>, counts: map<Option<string>, map<string, nat>>,
                    es: seq<Entry>, e: Entry)
    requires Tallied(seen, counts, es) && e.key != NoKey
    ensures var texts := if e.key in seen then seen[e.key] else {};
            var c := if e.key in counts then counts[e.key] else map[];
            Tallied(seen[e.key := texts + {e.text}],
                    counts[e.key := c[e.text := (if e.text in c then c[e.text] else 0) + 1]],
                    es + [e])
  {
    var texts := if e.key in seen then seen[e.key] else {};
    SeenKeysStep(seen, es, e, texts + {e.text});
    SeenTextsStep(seen, es, e);
    CountedStep(seen, counts, es, e);
  }

  /** With at most one text for key k, the per-key pass needs to look at that one text
      only (`next(iter(vals))`). */
  lemma SoleText(es: seq<Entry>, k: Option<string>, only: string)
    requires |TextsOf(es, k)| <= 1
    requires TextsOf(es, k) == {} || only in TextsOf(es, k)
    ensures (exists t :: t in TextsOf(es, k) && CountOf(es, k, t) > 1) <==>
            only in TextsOf(es, k) && CountOf(es, k, only) > 1
  {
    var texts := TextsOf(es, k);
    if only in texts {
      assert |texts - {only}| == 0;
      assert forall t :: t in texts ==> t == only;
    }
  }

  /** `seen` as the loop builds it: for each key other than "None", the set of its
      texts. */
  function SeenOf(es: seq<Entry>): map<Option<string>, set<string>> {
    if es == [] then map[]
    else
      var seen := SeenOf(es[..|es| - 1]);
      var e := es[|es| - 1];
      if e.key == NoKey then seen
      else seen[e.key := (if e.key in seen then seen[e.key] else {}) + {e.text}]
  }

  /** `counts` as the loop builds it: for each key other than "None", how often each
      of its texts was given. */
  function CountsOf(es: seq<Entry>): map<Option<string>, map<string, nat>> {
    if es == [] then map[]
    else
      var counts := CountsOf(es[..|es| - 1]);
      var e := es[|es| - 1];
      if e.key == NoKey then counts
      else
        var c := if e.key in counts then counts[e.key] else map[];
        counts[e.key := c[e.text := (if e.text in c then c[e.text] else 0) + 1]]
  }

  /** `seen` and `counts` have the same keys. */
  lemma {:induction false} SeenCountsKeys(es: seq<Entry>)
    ensures SeenOf(es).Keys == CountsOf(es).Keys
  {
    if es != [] {
      SeenCountsKeys(es[..|es| - 1]);
    }
  }

  /** The maps the loop builds hold what `Tallied` says: the keys that occur, their
      texts and the count of every pair. */
  lemma {:induction false} TalliedOf(es: seq<Entry>)
    ensures Tallied(SeenOf(es), CountsOf(es), es)
  {
    if es == [] {
    } else {
      var init := es[..|es| - 1];
      var e := es[|es| - 1];
      TalliedOf(init);
      assert es == init + [e];
      if e.key == NoKey {
        TalliedNoKey(SeenOf(init), CountsOf(init), init, e);
      } else {
        TalliedStep(SeenOf(init), CountsOf(init), init, e);
      }
    }
  }

  lemma TallyStep(es: seq<Entry>, e: Entry)
    ensures SeenOf(es + [e]) == (if e.key == NoKey then SeenOf(es)
              else SeenOf(es)[e.key := (if e.key in SeenOf(es) then SeenOf(es)[e.key] else {}) + {e.text}])
    ensures var counts := CountsOf(es);
            var c := if e.key in counts then counts[e.key] else map[];
            CountsOf(es + [e]) == (if e.key == NoKey then counts
              else counts[e.key := c[e.text := (if e.text in c then c[e.text] else 0) + 1]])
  {
    assert (es + [e])[..|es|] == es;
  }

  /** The state of the scan after the entries `es`. */
  ghost predicate Scanned(reasons: seq<Reason>, seen: map<Option<string>, set<string>>,
                          counts: map<Option<string>, map<string, nat>>, order: seq<Option<string>>,
                          es: seq<Entry>)
  {
    reasons == AllItemReasons(es) && order == KeyOrder(es) && seen == SeenOf(es) && counts == CountsOf(es)
  }

  /** The checks on one entry that reaches them: an unknown key or a placeholder text
      is reported, and the key's text and count are recorded. */
  method ScanEntry(ghost es: seq<Entry>, e: Entry, reasons: seq<Reason>,
                   seen: map<Option<string>, set<string>>, counts: map<Option<string>, map<string, nat>>,
                   order: seq<Option<string>>)
    returns (reasonsAfter: seq<Reason>, seenAfter: map<Option<string>, set<string>>,
             countsAfter: map<Option<string>, map<string, nat>>, orderAfter: seq<Option<string>>)
    requires Scanned(reasons, seen, counts, order, es)
    ensures Scanned(reasonsAfter, seenAfter, countsAfter, orderAfter, es + [e])
  {
    ItemReasonsStep(es, e);
    KeyOrderStep(es, e);
    TallyStep(es, e);
    SeenCountsKeys(es);
    SeenOfKeys(es, e.key);
    reasonsAfter, seenAfter, countsAfter, orderAfter := reasons, seen, counts, order;
    if e.key != NoKey && !Allowed(e.key) {
      reasonsAfter := reasonsAfter + [InvalidKey(e.key)];
    }
    if e.key != NoKey {
      if e.key !in seenAfter {
        seenAfter := seenAfter[e.key := {}];
        countsAfter := countsAfter[e.key := map[]];
        orderAfter := orderAfter + [e.key];
      }
      seenAfter := seenAfter[e.key := seenAfter[e.key] + {e.text}];
      var c := countsAfter[e.key];
      countsAfter := countsAfter[e.key := c[e.text := (if e.text in c then c[e.text] else 0) + 1]];
    }
    if e.text in UnrecognizedTexts {
      reasonsAfter := reasonsAfter + [UnrecognizedValue(e.key)];
    }
  }

  /** A key is in `seen` exactly when it is in the order of first occurrence. */
  lemma {:induction false} SeenOfKeys(es: seq<Entry>, k: Option<string>)
    ensures k in SeenOf(es) <==> k in KeyOrder(es)
  {
    if es != [] {
      var init := es[..|es| - 1];
      SeenOfKeys(init, k);
      KeyOrderStep(init, es[|es| - 1]);
      assert es == init + [es[|es| - 1]];
    }
  }

  lemma KeyReasonsStep(es: seq<Entry>, ks: seq<Option<string>>, j: nat)
    requires j < |ks|
    ensures KeyReasons(es, ks[..j + 1]) == KeyReasons(es, ks[..j]) + KeyReason(es, ks[j])
  {
    assert ks[..j + 1] == ks[..j] + [ks[j]];
    FlatMapAppend(ks[..j], ks[j], KeyReasonIn(es));
  }

  /** The pass over the keys of `seen`, in their order: a key with several texts is
      reported as `duplicate_key`, one with a single text given more than once as
      `duplicate_same`. */
  method KeyPass(ghost es: seq<Entry>, seen: map<Option<string>, set<string>>,
                 counts: map<Option<string>, map<string, nat>>, order: seq<Option<string>>)
    returns (found: seq<Reason>)
    requires order == KeyOrder(es) && seen == SeenOf(es) && counts == CountsOf(es)
    ensures found == KeyReasons(es, order)
  {
    TalliedOf(es);
    found := [];
    for j := 0 to |order|
      invariant found == KeyReasons(es, order[..j])
    {
      var k := order[j];
      var vals := seen[k];
      KeyReasonsStep(es, order, j);
      if |vals| > 1 {
        found := found + [DuplicateKey(k)];
      } else {
        var only := "";
        if vals != {} {
          only :| only in vals;
        }
        SoleText(es, k, only);
        if k in counts && only in counts[k] && counts[k][only] > 1 {
          found := found + [DuplicateSame(k)];
        }
      }
    }
    assert order[..|order|] == order;
  }

  /** With `--dedup`, after the items `done`: `dedup_items` and `dedup_seen`. */
  ghost predicate DedupState(done: seq<Item>, dedupSeen: set<Entry>, kept: seq<Item>) {
    && kept == Dedup(done)
    && forall x :: x in dedupSeen <==> x in Image(done, EntryOf)
  }

  /** With `--dedup`: whether the pair of `item` is new, and `dedup_seen` and
      `dedup_items` after it. */
  method DedupItem(ghost done: seq<Item>, item: Item, dedupSeen: set<Entry>, kept: seq<Item>)
    returns (isNew: bool, seenAfter: set<Entry>, keptAfter: seq<Item>)
    requires DedupState(done, dedupSeen, kept)
    ensures isNew <==> EntryOf(item) !in Image(done, EntryOf)
    ensures DedupState(done + [item], seenAfter, keptAfter)
  {
    var e := EntryOf(item);
    ImageAppend(done, item, EntryOf);
    DedupByAppend(done, item, EntryOf);
    isNew := e !in dedupSeen;
    if !isNew {
      seenAfter, keptAfter := dedupSeen, kept;
    } else {
      seenAfter := dedupSeen + {e};
      keptAfter := kept + [item];
    }
    forall x
      ensures x in seenAfter <==> x in Image(done, EntryOf) + [e]
    {
    }
  }

  /** The variables of the loop over one image's items. */
  datatype ScanState = ScanState(
    reasons: seq<Reason>,
    seen: map<Option<string>, set<string>>,
    counts: map<Option<string>, map<string, nat>>,
    order: seq<Option<string>>,
    dedupSeen: set<Entry>,
    dedupItems: seq<Item>)

  /** The loop variables after the items `done`. */
  ghost predicate ScannedItems(done: seq<Item>, allowNone: bool, dedup: bool, st: ScanState) {
    && Scanned(st.reasons, st.seen, st.counts, st.order, Reached(done, allowNone, dedup))
    && if dedup then DedupState(done, st.dedupSeen, st.dedupItems) else st.dedupItems == []
  }

  /** One turn of the loop: the dedup test, the `--allow_none` skip, then the checks. */
  method ScanItem(ghost done: seq<Item>, item: Item, allowNone: bool, dedup: bool, st: ScanState)
    returns (next: ScanState)
    requires ScannedItems(done, allowNone, dedup, st)
    ensures ScannedItems(done + [item], allowNone, dedup, next)
  {
    var e := EntryOf(item);
    ghost var es := Reached(done, allowNone, dedup);
    ghost var after := Reached(done + [item], allowNone, dedup);
    ReachedAppend(done, item, allowNone, dedup);
    var isNew := true;
    var dedupSeen, dedupItems := st.dedupSeen, st.dedupItems;
    if dedup {
      isNew, dedupSeen, dedupItems := DedupItem(done, item, st.dedupSeen, st.dedupItems);
    }
    var reasons, seen, counts, order := st.reasons, st.seen, st.counts, st.order;
    if isNew && !(e.key == NoKey && allowNone) {
      assert after == es + [e];
      reasons, seen, counts, order := ScanEntry(es, e, reasons, seen, counts, order);
    } else {
      assert after == es;
    }
    next := ScanState(reasons, seen, counts, order, dedupSeen, dedupItems);
  }

  lemma ScannedNothing(allowNone: bool, dedup: bool)
    ensures ScannedItems([], allowNone, dedup, ScanState([], map[], map[], [], {}, []))
  {
    assert Reached([], allowNone, dedup) == [];
  }

  /** The loop over the items of one image. */
  method ScanItems(items: seq<Item>, allowNone: bool, dedup: bool) returns (st: ScanState)
    ensures ScannedItems(items, allowNone, dedup, st)
  {
    st := ScanState([], map[], map[], [], {}, []);
    ScannedNothing(allowNone, dedup);
    ghost var done: seq<Item> := [];
    for n := 0 to |items|
      invariant done == items[..n]
      invariant ScannedItems(done, allowNone, dedup, st)
    {
      st := ScanItem(done, items[n], allowNone, dedup, st);
      PrefixStep(items, n);
      done := done + [items[n]];
    }
    assert done == items;
  }

  /** The checker's work on one image: the reasons it reports and, with `--dedup`,
      the items it writes back. */
  method CheckRecord(items: seq<Item>, allowNone: bool, dedup: bool) returns (reasons: seq<Reason>, kept: seq<Item>)
    ensures reasons == Reasons(items, allowNone, dedup)
    ensures kept == if dedup then Dedup(items) else []
  {
    var st := ScanItems(items, allowNone, dedup);
    var found := KeyPass(Reached(items, allowNone, dedup), st.seen, st.counts, st.order);
    reasons := st.reasons + found;
    kept := st.dedupItems;
  }
}
