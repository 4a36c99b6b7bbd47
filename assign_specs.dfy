/**
 * The label table of `tools/assign_kie_from_labeltxt.py`: for each field of a
 * vehicle certificate, the texts that mark its label box and the keys given to
 * the value boxes found to the right of that label, in order.
 */
module AssignSpecs {
  import opened Wrappers
  import opened Text
  import opened AssignText

  datatype LabelSpec = LabelSpec(patterns: seq<string>, valueKeys: seq<string>)

  /** The table, in its order. Every pattern is a literal text; the escaped
      parentheses of `轮距\(前/后\)` stand for literal parentheses. */
  const LabelSpecs: seq<LabelSpec> := [
    LabelSpec(["合格证编号"], ["vc_no"]),
    LabelSpec(["发证日期"], ["vc_issue_date"]),
    LabelSpec(["车辆制造企业名称"], ["vc_manu_enterprise"]),
    LabelSpec(["车辆品牌/车辆名称", "车辆品牌", "车辆名称"], ["vc_brands", "vc_type"]),
    LabelSpec(["车辆型号"], ["vc_model_no"]),
    LabelSpec(["车辆识别代号/车架号", "车架号"], ["vc_vin"]),
    LabelSpec(["车身颜色"], ["vc_color"]),
    LabelSpec(["发动机型号"], ["vc_engine_model_no"]),
    LabelSpec(["发动机号"], ["vc_engineno"]),
    LabelSpec(["燃料种类", "燃料类型"], ["vc_fuel"]),
    LabelSpec(["排量和功率", "排量/功率", "排量和功率（ml/kW）"], ["vc_displace", "vc_power"]),
    LabelSpec(["排放标准"], ["vc_emission_standard"]),
    LabelSpec(["油耗"], ["vc_fuel_consumption"]),
    LabelSpec(["外廓尺寸", "外阔尺寸"],
              ["vc_overall_dimensions", "vc_overall_dimensions", "vc_overall_dimensions"]),
    LabelSpec(["轮胎数"], ["vc_tire_count"]),
    LabelSpec(["轮胎规格"], ["vc_tyre_size"]),
    LabelSpec(["轮距", "轮距（前/后）", "轮距(前/后)"], ["vc_track", "vc_track"]),
    LabelSpec(["轴距"], ["vc_wheelbase"]),
    LabelSpec(["轴荷"], ["vc_axle_load"]),
    LabelSpec(["轴数"], ["vc_axle_count"]),
    LabelSpec(["转向形式"], ["vc_steering_type"]),
    LabelSpec(["总质量"], ["vc_totalw"]),
    LabelSpec(["整备质量"], ["vc_curbw"]),
    LabelSpec(["额定载客"], ["vc_carrying_num"]),
    LabelSpec(["最高设计车速"], ["vc_max_speed"]),
    LabelSpec(["车辆制造日期"], ["vc_manu_date"])
  ]

  /** Every spec names at least one value key (`value_keys[0]` is read for the inline value). */
  predicate ValidSpecs(specs: seq<LabelSpec>) {
    forall i :: 0 <= i < |specs| ==> specs[i].valueKeys != []
  }

  lemma LabelSpecsValid()
    ensures |LabelSpecs| == 26 && ValidSpecs(LabelSpecs)
  {
  }

  /** A spec with its patterns normalised, as the assigner searches for them. */
  function CompileSpec(spec: LabelSpec): (r: LabelSpec)
    ensures r.valueKeys == spec.valueKeys && |r.patterns| == |spec.patterns|
    ensures forall j :: 0 <= j < |r.patterns| ==> NoSpace(r.patterns[j])
  {
    LabelSpec(seq(|spec.patterns|, j requires 0 <= j < |spec.patterns| => NormalizeText(Some(spec.patterns[j]))),
              spec.valueKeys)
  }

  function Compile(specs: seq<LabelSpec>): (r: seq<LabelSpec>)
    ensures |r| == |specs|
    ensures ValidSpecs(specs) ==> ValidSpecs(r)
  {
    seq(|specs|, i requires 0 <= i < |specs| => CompileSpec(specs[i]))
  }

  /** Every pattern of every spec, in table order; defined on the last spec, as the
      loop extends the list. */
  function AllPatterns(specs: seq<LabelSpec>): (r: seq<string>)
    ensures forall i, j :: 0 <= i < |specs| && 0 <= j < |specs[i].patterns| ==> specs[i].patterns[j] in r
  {
    if specs == [] then []
    else
      var init := specs[..|specs| - 1];
      assert forall i :: 0 <= i < |init| ==> init[i] == specs[i];
      AllPatterns(init) + specs[|specs| - 1].patterns
  }

  /** The loop that compiles the table once, before any line is read. */
  method CompileSpecs(specs: seq<LabelSpec>) returns (compiled: seq<LabelSpec>, all: seq<string>)
    ensures compiled == Compile(specs) && all == AllPatterns(compiled)
  {
    compiled := [];
    all := [];
    for i := 0 to |specs|
      invariant compiled == Compile(specs[..i]) && all == AllPatterns(compiled)
    {
      var spec := CompileSpec(specs[i]);
      assert compiled + [spec] == Compile(specs[..i + 1]);
      compiled := compiled + [spec];
      all := all + spec.patterns;
    }
    assert specs[..|specs|] == specs;
  }

  /** A text that contains one of a spec's patterns is flagged as a label by the union
      of all patterns. */
  lemma KeyLabelOfSpec(text: Option<string>, specs: seq<LabelSpec>, s: nat)
    requires s < |specs| && IsKeyLabel(text, specs[s].patterns)
    ensures IsKeyLabel(text, AllPatterns(specs))
  {
    var all := AllPatterns(specs);
    var k :| 0 <= k < |specs[s].patterns| && Contains(NormalizeText(text), specs[s].patterns[k]);
    var m :| 0 <= m < |all| && all[m] == specs[s].patterns[k];
  }

  /** The union holds nothing but the specs' patterns. */
  lemma {:induction false} AllPatternsOnly(specs: seq<LabelSpec>, p: string)
    ensures p in AllPatterns(specs) <==>
              exists i, j :: 0 <= i < |specs| && 0 <= j < |specs[i].patterns| && specs[i].patterns[j] == p
  {
    if specs != [] {
      var init := specs[..|specs| - 1];
      var n := |specs| - 1;
      AllPatternsOnly(init, p);
      if p in AllPatterns(init) {
        var i, j :| 0 <= i < |init| && 0 <= j < |init[i].patterns| && init[i].patterns[j] == p;
        assert specs[i] == init[i];
      } else if p in specs[n].patterns {
        var j :| 0 <= j < |specs[n].patterns| && specs[n].patterns[j] == p;
      }
    }
  }

  /** A text flagged as a label by the union of all patterns contains a pattern of
      some spec. */
  lemma KeyLabelOnlyOfSpec(text: Option<string>, specs: seq<LabelSpec>)
    requires IsKeyLabel(text, AllPatterns(specs))
    ensures exists s :: 0 <= s < |specs| && IsKeyLabel(text, specs[s].patterns)
  {
    var all := AllPatterns(specs);
    var k :| 0 <= k < |all| && Contains(NormalizeText(text), all[k]);
    AllPatternsOnly(specs, all[k]);
    var s, j :| 0 <= s < |specs| && 0 <= j < |specs[s].patterns| && specs[s].patterns[j] == all[k];
    assert IsKeyLabel(text, specs[s].patterns);
  }
}
