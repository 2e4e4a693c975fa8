/**
 * The rough yardage estimate: an effective area in which the border counts
 * at 70% of its area times its yardage factor, turned into a low and a high
 * figure rounded to the nearest 50 yards.
 */
module Yardage {
  import opened Wrappers
  import opened PyNumbers
  import opened Border

  /** The border's share of the effective area. */
  function BorderShare(finishedArea: real, bodyArea: real, factor: real): real {
    Max(finishedArea - bodyArea, 0.0) * 0.7 * factor
  }

  /** The effective area of the estimate, `None` when the border is included
      in the finished size and leaves no body. */
  function EffectiveArea(w: real, h: real, border: BorderSpec, includesBorder: bool): (r: Option<real>)
    ensures border.kind == NoBorder || border.width <= 0.0 ==> r == Some(w * h)
    ensures r.None? <==> border.kind != NoBorder && border.width > 0.0 && includesBorder
                         && BodySize(w, h, border, true).None?
  {
    var b := border.width;
    var factor := border.yardageFactor;
    if border.kind == NoBorder || b <= 0.0 then Some(w * h)
    else if includesBorder then
      match BodySize(w, h, border, true)
      case None => None
      case Some(body) =>
        var bodyArea := body.0 * body.1;
        Some(bodyArea + BorderShare(w * h, bodyArea, factor))
    else
      var finished := AddBorder((w, h), b);
      var bodyArea := w * h;
      Some(bodyArea + BorderShare(finished.0 * finished.1, bodyArea, factor))
  }

  /** With a border inside the finished size, the effective area is the
      body's area plus the ring of border around it, `2b(w + h - 2b)`, at 70%
      of its area times the yardage factor. */
  lemma BorderInsideArea(w: real, h: real, border: BorderSpec)
    requires border.kind != NoBorder && border.width > 0.0
    requires EffectiveArea(w, h, border, true).Some?
    ensures var b := border.width;
            EffectiveArea(w, h, border, true).value
            == (w - 2.0 * b) * (h - 2.0 * b) + 2.0 * b * (w + h - 2.0 * b) * 0.7 * border.yardageFactor
  {
    var b, factor := border.width, border.yardageFactor;
    RingInside(w, h, b, factor);
    var bodyArea := (w - 2.0 * b) * (h - 2.0 * b);
    var share := BorderShare(w * h, bodyArea, factor);
    IncludedArea(w, h, border, (w - 2.0 * b, h - 2.0 * b));
    assert EffectiveArea(w, h, border, true).value == bodyArea + share;
    assert share == 2.0 * b * (w + h - 2.0 * b) * 0.7 * factor;
  }

  /** With a border added outside the body, the effective area is the body's
      area plus the ring of border around it, `2b(w + h + 2b)`, at 70% of its
      area times the yardage factor. */
  lemma BorderOutsideArea(w: real, h: real, border: BorderSpec)
    requires border.kind != NoBorder && border.width > 0.0 && w + h >= 0.0
    ensures EffectiveArea(w, h, border, false).Some?
    ensures var b := border.width;
            EffectiveArea(w, h, border, false).value
            == w * h + 2.0 * b * (w + h + 2.0 * b) * 0.7 * border.yardageFactor
  {
    var b, factor := border.width, border.yardageFactor;
    RingOutside(w, h, b, factor);
    var f := AddBorder((w, h), b);
    var share := BorderShare(f.0 * f.1, w * h, factor);
    assert EffectiveArea(w, h, border, false).value == w * h + share;
    assert share == 2.0 * b * (w + h + 2.0 * b) * 0.7 * factor;
  }

  /** The included case of `EffectiveArea` for a body that is left. */
  lemma IncludedArea(w: real, h: real, border: BorderSpec, body: (real, real))
    requires border.kind != NoBorder && border.width > 0.0
    requires BodySize(w, h, border, true) == Some(body)
    ensures EffectiveArea(w, h, border, true).Some?
    ensures EffectiveArea(w, h, border, true).value
            == body.0 * body.1 + BorderShare(w * h, body.0 * body.1, border.yardageFactor)
  {
  }

  /** The border's share inside a finished size that leaves a body. */
  lemma RingInside(w: real, h: real, b: real, factor: real)
    requires b > 0.0 && w - 2.0 * b > 0.0 && h - 2.0 * b > 0.0
    ensures BorderShare(w * h, (w - 2.0 * b) * (h - 2.0 * b), factor)
            == 2.0 * b * (w + h - 2.0 * b) * 0.7 * factor
  {
    var ring := 2.0 * b * (w + h - 2.0 * b);
    assert w * h - (w - 2.0 * b) * (h - 2.0 * b) == ring;
    assert w + h - 2.0 * b > 0.0;
    assert ring > 0.0;
  }

  /** The border's share when it is added around a body. */
  lemma RingOutside(w: real, h: real, b: real, factor: real)
    requires b > 0.0
    ensures w + h >= 0.0 ==>
              BorderShare(AddBorder((w, h), b).0 * AddBorder((w, h), b).1, w * h, factor)
              == 2.0 * b * (w + h + 2.0 * b) * 0.7 * factor
  {
    var ring := 2.0 * b * (w + h + 2.0 * b);
    assert (w + 2.0 * b) * (h + 2.0 * b) - w * h == ring;
    if w + h >= 0.0 {
      assert w + h + 2.0 * b > 0.0;
      assert ring > 0.0;
    }
  }

  /** A border added outside a body costs what the same border costs inside
      the finished size it makes. */
  lemma BorderOutsideSameCost(w: real, h: real, border: BorderSpec)
    requires w > 0.0 && h > 0.0 && Valid(border)
    ensures EffectiveArea(w, h, border, false)
            == EffectiveArea(AddBorder((w, h), border.width).0, AddBorder((w, h), border.width).1, border, true)
  {
    var f := AddBorder((w, h), border.width);
    if border.kind != NoBorder && border.width > 0.0 {
      OutsideAsInside(w, h, border);
    } else {
      assert border.width == 0.0;
      assert f.0 == w && f.1 == h;
      assert EffectiveArea(f.0, f.1, border, true) == EffectiveArea(w, h, border, true);
      assert EffectiveArea(w, h, border, true) == Some(w * h) == EffectiveArea(w, h, border, false);
    }
  }

  lemma OutsideAsInside(w: real, h: real, border: BorderSpec)
    requires w > 0.0 && h > 0.0 && border.kind != NoBorder && border.width > 0.0
    ensures EffectiveArea(w, h, border, false).Some?
    ensures EffectiveArea(AddBorder((w, h), border.width).0, AddBorder((w, h), border.width).1, border, true).Some?
    ensures EffectiveArea(w, h, border, false).value
            == EffectiveArea(AddBorder((w, h), border.width).0, AddBorder((w, h), border.width).1, border, true).value
  {
    var f := AddBorder((w, h), border.width);
    var share := BorderShare(f.0 * f.1, w * h, border.yardageFactor);
    assert EffectiveArea(w, h, border, false).value == w * h + share;
    BodySizeOfAddBorder((w, h), border);
    IncludedArea(f.0, f.1, border, (w, h));
  }

  /** Python's `round(x / 50) * 50`: the multiple of 50 nearest to `x`, ties to
      the even multiple of 50 (an even number of fifties). */
  function RoundToFifty(x: real): (r: int)
    ensures r % 50 == 0
    ensures x - 25.0 <= r as real <= x + 25.0
    ensures r as real == x - 25.0 || r as real == x + 25.0 ==> (r / 50) % 2 == 0
  {
    RoundHalfEven(x / 50.0) * 50
  }

  /** A larger amount never rounds to a smaller multiple of 50. */
  lemma RoundToFiftyMonotonic(x: real, y: real)
    requires x <= y
    ensures RoundToFifty(x) <= RoundToFifty(y)
  {
    RoundHalfEvenMonotonic(x / 50.0, y / 50.0);
  }

  /** The two results of `estimate_yardage_range`. */
  datatype Yardage = Range(low: int, high: int) | NotAvailable

  const LowRate: real := 0.35
  const HighRate: real := 0.55
  const LowFloor: int := 200
  const HighFloor: int := 300

  /** `estimate_yardage_range`: the rounded low and high figures, each raised
      to its floor, or "n/a" when the border is too large. */
  function EstimateYardage(w: real, h: real, border: BorderSpec, includesBorder: bool): (r: Yardage)
    ensures r.NotAvailable? <==> EffectiveArea(w, h, border, includesBorder).None?
    ensures r.Range? ==> r.low >= LowFloor && r.high >= HighFloor && r.low % 50 == 0 && r.high % 50 == 0
    ensures r.Range? ==>
              var a := EffectiveArea(w, h, border, includesBorder).value;
              && (r.low > LowFloor ==> a * LowRate - 25.0 <= r.low as real <= a * LowRate + 25.0)
              && (r.low == LowFloor ==> a * LowRate <= 225.0)
              && (r.high > HighFloor ==> a * HighRate - 25.0 <= r.high as real <= a * HighRate + 25.0)
              && (r.high == HighFloor ==> a * HighRate <= 325.0)
    ensures r.Range? ==>
              var a := EffectiveArea(w, h, border, includesBorder).value;
              && (r.low > LowFloor && (r.low as real == a * LowRate - 25.0 || r.low as real == a * LowRate + 25.0)
                  ==> (r.low / 50) % 2 == 0)
              && (r.high > HighFloor && (r.high as real == a * HighRate - 25.0 || r.high as real == a * HighRate + 25.0)
                  ==> (r.high / 50) % 2 == 0)
  {
    match EffectiveArea(w, h, border, includesBorder)
    case None => NotAvailable
    case Some(a) =>
      Range(MaxInt(RoundToFifty(a * LowRate), LowFloor), MaxInt(RoundToFifty(a * HighRate), HighFloor))
  }

  /** With a positive size and a border the program can build, the effective
      area is at least the body's own area and positive. */
  lemma EffectiveAreaPositive(w: real, h: real, border: BorderSpec, includesBorder: bool)
    requires w > 0.0 && h > 0.0 && Valid(border)
    requires EffectiveArea(w, h, border, includesBorder).Some?
    ensures EffectiveArea(w, h, border, includesBorder).value
            >= BodySize(w, h, border, includesBorder).value.0 * BodySize(w, h, border, includesBorder).value.1
    ensures EffectiveArea(w, h, border, includesBorder).value > 0.0
  {
    var body := BodySize(w, h, border, includesBorder).value;
    assert body.0 > 0.0 && body.1 > 0.0;
    PositiveProduct(body.0, body.1);
    var finished := AddBorder((w, h), border.width);
    var bodyArea := if includesBorder && border.kind != NoBorder then body.0 * body.1 else w * h;
    PositiveProduct(w, h);
    NonNegativeShare(if includesBorder then w * h else finished.0 * finished.1, bodyArea, border.yardageFactor);
  }

  lemma PositiveProduct(x: real, y: real)
    requires x > 0.0 && y > 0.0
    ensures x * y > 0.0
  {
  }

  lemma NonNegativeShare(finishedArea: real, bodyArea: real, factor: real)
    requires factor >= 0.0
    ensures BorderShare(finishedArea, bodyArea, factor) >= 0.0
  {
    var d := Max(finishedArea - bodyArea, 0.0);
    assert d * 0.7 >= 0.0;
    assert (d * 0.7) * factor >= 0.0;
  }

  /** The low figure never exceeds the high one. */
  lemma LowNotAboveHigh(w: real, h: real, border: BorderSpec, includesBorder: bool)
    requires EstimateYardage(w, h, border, includesBorder).Range?
    ensures EstimateYardage(w, h, border, includesBorder).low <= EstimateYardage(w, h, border, includesBorder).high
  {
    var a := EffectiveArea(w, h, border, includesBorder).value;
    if a >= 0.0 {
      assert a * LowRate <= a * HighRate;
      RoundToFiftyMonotonic(a * LowRate, a * HighRate);
    } else {
      assert a * LowRate < 0.0;
    }
  }

  /** "n/a" is given exactly when the border leaves no body inside the
      finished size. */
  lemma NotAvailableIffNoBody(w: real, h: real, border: BorderSpec, includesBorder: bool)
    requires Valid(border) && border.kind != NoBorder && border.width > 0.0
    ensures (EstimateYardage(w, h, border, includesBorder).NotAvailable?
             <==> BodySize(w, h, border, includesBorder).None?)
  {
  }

  /** Without a border, whether it is included makes no difference. */
  lemma NoBorderIgnoresFlag(w: real, h: real, border: BorderSpec)
    requires border.kind == NoBorder
    ensures EstimateYardage(w, h, border, true) == EstimateYardage(w, h, border, false)
  {
  }

  /** The throw preset with the default simple border added outside it:
      the finished blanket is 54 x 64, the effective area 3319.2 square
      inches, and the estimate 1150 to 1850 yards. */
  lemma ThrowWithSimpleBorder()
    ensures AddBorder((50.0, 60.0), 2.0) == (54.0, 64.0)
    ensures EffectiveArea(50.0, 60.0, BorderSpec(Simple, 2.0, 1.0, ""), false) == Some(3319.2)
    ensures EstimateYardage(50.0, 60.0, BorderSpec(Simple, 2.0, 1.0, ""), false) == Range(1150, 1850)
  {
    assert EffectiveArea(50.0, 60.0, BorderSpec(Simple, 2.0, 1.0, ""), false) == Some(3319.2);
    assert RoundHalfEven(3319.2 * LowRate / 50.0) == 23;
    assert RoundHalfEven(3319.2 * HighRate / 50.0) == 37;
  }

  /** A small body is raised to the floors: a 10 x 10 inch piece without a
      border gets 200 to 300 yards. */
  lemma SmallPieceFloors()
    ensures EstimateYardage(10.0, 10.0, BorderSpec(NoBorder, 0.0, 1.0, ""), false) == Range(200, 300)
  {
    assert RoundHalfEven(100.0 * LowRate / 50.0) == 1;
    assert RoundHalfEven(100.0 * HighRate / 50.0) == 1;
  }
}
