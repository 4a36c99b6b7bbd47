/**
 * The box model of `tools/assign_kie_from_labeltxt.py`: a detected text region
 * with its polygon and the axis-aligned envelope derived from it, the vertical
 * overlap of two boxes and the same-row test built on it.
 * Coordinates are exact reals: only min, max, +, -, /2 and one ratio are used.
 */
module AssignBoxes {
  import opened Wrappers
  import opened Records
  import opened Sorting

  datatype Box = Box(
    idx: nat,
    text: Option<string>,
    points: seq<Point>,
    minx: real, miny: real, maxx: real, maxy: real,
    cx: real, cy: real,
    h: real, w: real)

  function Xs(points: seq<Point>): seq<real> {
    seq(|points|, i requires 0 <= i < |points| => points[i].x)
  }

  function Ys(points: seq<Point>): seq<real> {
    seq(|points|, i requires 0 <= i < |points| => points[i].y)
  }

  /** Python's `min` of a non-empty list of numbers. */
  function Min(xs: seq<real>): (m: real)
    requires xs != []
    ensures m in xs && forall i :: 0 <= i < |xs| ==> m <= xs[i]
  {
    if |xs| == 1 then xs[0]
    else
      var rest := Min(xs[1..]);
      if xs[0] <= rest then xs[0] else rest
  }

  /** Python's `max` of a non-empty list of numbers. */
  function Max(xs: seq<real>): (m: real)
    requires xs != []
    ensures m in xs && forall i :: 0 <= i < |xs| ==> xs[i] <= m
  {
    if |xs| == 1 then xs[0]
    else
      var rest := Max(xs[1..]);
      if rest <= xs[0] then xs[0] else rest
  }

  /** `item.get("transcription", item.get("label", ""))`; a JSON null is `None`. */
  function ItemText(item: Item): Option<string> {
    match item.transcription
    case Present(s) => Some(s)
    case Null => None
    case Absent =>
      match item.labelText
      case Present(s) => Some(s)
      case Null => None
      case Absent => Some("")
  }

  /** The derived fields of `b` are the envelope of its polygon, its centre and its size. */
  ghost predicate Envelope(b: Box) {
    && b.points != []
    && (forall p :: p in b.points ==> b.minx <= p.x <= b.maxx && b.miny <= p.y <= b.maxy)
    && (exists p :: p in b.points && p.x == b.minx)
    && (exists p :: p in b.points && p.x == b.maxx)
    && (exists p :: p in b.points && p.y == b.miny)
    && (exists p :: p in b.points && p.y == b.maxy)
    && b.cx == (b.minx + b.maxx) / 2.0 && b.cy == (b.miny + b.maxy) / 2.0
    && b.h == b.maxy - b.miny && b.w == b.maxx - b.minx
  }

  /** The height of a box is the non-negative extent of its envelope. */
  predicate HeightOk(b: Box) {
    0.0 <= b.h == b.maxy - b.miny
  }

  /** `build_box`: `min` of an empty coordinate list raises, so the polygon must not be empty. */
  function BuildBox(idx: nat, item: Item): (b: Box)
    requires item.points != []
    ensures b.idx == idx && b.text == ItemText(item) && b.points == item.points
    ensures Envelope(b) && HeightOk(b)
    ensures b.minx <= b.maxx && b.miny <= b.maxy && b.h >= 0.0 && b.w >= 0.0
    ensures b.minx <= b.cx <= b.maxx && b.miny <= b.cy <= b.maxy
  {
    var xs, ys := Xs(item.points), Ys(item.points);
    var minx, maxx := Min(xs), Max(xs);
    var miny, maxy := Min(ys), Max(ys);
    var b := Box(idx, ItemText(item), item.points, minx, miny, maxx, maxy,
                 (minx + maxx) / 2.0, (miny + maxy) / 2.0, maxy - miny, maxx - minx);
    assert forall p :: p in b.points ==> minx <= p.x <= maxx && miny <= p.y <= maxy by {
      forall p | p in b.points
        ensures minx <= p.x <= maxx && miny <= p.y <= maxy
      {
        var i :| 0 <= i < |item.points| && item.points[i] == p;
        assert xs[i] == p.x && ys[i] == p.y;
      }
    }
    assert exists p :: p in b.points && p.x == minx by {
      var i :| 0 <= i < |xs| && xs[i] == minx;
      assert item.points[i] in b.points;
    }
    assert exists p :: p in b.points && p.x == maxx by {
      var i :| 0 <= i < |xs| && xs[i] == maxx;
      assert item.points[i] in b.points;
    }
    assert exists p :: p in b.points && p.y == miny by {
      var i :| 0 <= i < |ys| && ys[i] == miny;
      assert item.points[i] in b.points;
    }
    assert exists p :: p in b.points && p.y == maxy by {
      var i :| 0 <= i < |ys| && ys[i] == maxy;
      assert item.points[i] in b.points;
    }
    assert xs[0] in xs && ys[0] in ys;
    b
  }

  /** `vertical_overlap`: length of the intersection of the two `[miny, maxy]` intervals, or 0. */
  function VerticalOverlap(a: Box, b: Box): (r: real)
    ensures r >= 0.0
  {
    var top := if a.maxy <= b.maxy then a.maxy else b.maxy;
    var bottom := if a.miny >= b.miny then a.miny else b.miny;
    if top - bottom > 0.0 then top - bottom else 0.0
  }

  function MinHeight(a: Box, b: Box): real {
    if a.h <= b.h then a.h else b.h
  }

  /** `same_row`: the boxes overlap vertically, by at least `ratio` of the lower height
      (1.0 standing in for a height that is not positive). */
  predicate SameRow(a: Box, b: Box, ratio: real) {
    var overlap := VerticalOverlap(a, b);
    if overlap <= 0.0 then false
    else
      var denom := if MinHeight(a, b) > 0.0 then MinHeight(a, b) else 1.0;
      overlap / denom >= ratio
  }

  /** `top_left_key`: reading order, top to bottom, then left to right. */
  function ReadingKey(b: Box): SortKey {
    SortKey(b.cy, b.cx)
  }

  /** The sort key `b.cx` of the candidate ranking. */
  function CxKey(b: Box): SortKey {
    SortKey(b.cx, 0.0)
  }

  lemma OverlapSymmetric(a: Box, b: Box)
    ensures VerticalOverlap(a, b) == VerticalOverlap(b, a)
  {
  }

  lemma SameRowSymmetric(a: Box, b: Box, ratio: real)
    ensures SameRow(a, b, ratio) == SameRow(b, a, ratio)
  {
    OverlapSymmetric(a, b);
  }

  /** The overlap never exceeds either box's height. */
  lemma OverlapBoundedByHeights(a: Box, b: Box)
    requires HeightOk(a) && HeightOk(b)
    ensures VerticalOverlap(a, b) <= a.h && VerticalOverlap(a, b) <= b.h
  {
  }

  /** A stricter ratio never puts more boxes on a row. */
  lemma SameRowMonotone(a: Box, b: Box, r1: real, r2: real)
    requires r1 <= r2 && SameRow(a, b, r2)
    ensures SameRow(a, b, r1)
  {
  }

  /** A box of height zero is on no row with anything: the 1.0 divisor never decides. */
  lemma ZeroHeightNeverSameRow(a: Box, b: Box, ratio: real)
    requires HeightOk(a) && HeightOk(b)
    requires a.h == 0.0 || b.h == 0.0
    ensures !SameRow(a, b, ratio) && !SameRow(b, a, ratio)
  {
    OverlapBoundedByHeights(a, b);
    OverlapSymmetric(a, b);
  }

  lemma DivAtLeast(x: real, d: real, r: real)
    requires d > 0.0
    ensures x / d >= r <==> x >= r * d
  {
    var q := x / d;
    assert q * d == x;
    if q >= r {
      assert (q - r) * d >= 0.0;
    } else {
      assert (r - q) * d > 0.0;
    }
  }

  /** The ratio test without the division: overlap positive and at least `ratio` times
      the lower height. */
  lemma SameRowAsProduct(a: Box, b: Box, ratio: real)
    requires HeightOk(a) && HeightOk(b)
    ensures SameRow(a, b, ratio) <==>
            VerticalOverlap(a, b) > 0.0 && VerticalOverlap(a, b) >= ratio * MinHeight(a, b)
  {
    var overlap := VerticalOverlap(a, b);
    if overlap > 0.0 {
      OverlapBoundedByHeights(a, b);
      var d := MinHeight(a, b);
      assert d > 0.0;
      DivAtLeast(overlap, d, ratio);
      assert SameRow(a, b, ratio) == (overlap / d >= ratio);
    }
  }
}
