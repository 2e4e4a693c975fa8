/**
 * Granny-square planning: how many rounds a square of a given size takes,
 * and the grid of squares that covers a blanket body.
 */
module Granny {
  import opened Wrappers
  import opened PyNumbers
  import opened Border

  /** `estimate_granny_rounds`: about one round per inch, never fewer than two. */
  function Rounds(target: real): (r: int)
    ensures r >= 2
    ensures target <= 2.0 ==> r == 2
    ensures target > 2.0 ==> r as real - 0.5 <= target <= r as real + 0.5
    ensures target > 2.0 && (r as real == target - 0.5 || r as real == target + 0.5) ==> r % 2 == 0
  {
    if target <= 2.0 then 2
    else
      var rounds := RoundHalfEven(target);
      if rounds >= 2 then rounds else 2
  }

  /** Above two inches the lower clamp never takes effect: the count is the
      rounded size itself. */
  lemma RoundsAboveTwo(target: real)
    requires target > 2.0
    ensures Rounds(target) == RoundHalfEven(target)
  {
  }

  /** A larger square never needs fewer rounds. */
  lemma RoundsMonotonic(s: real, t: real)
    requires s <= t
    ensures Rounds(s) <= Rounds(t)
  {
    if s > 2.0 {
      RoundHalfEvenMonotonic(s, t);
    }
  }

  lemma RoundsExamples()
    ensures Rounds(1.5) == 2 && Rounds(2.0) == 2
    ensures Rounds(6.0) == 6 && Rounds(6.4) == 6 && Rounds(6.5) == 6 && Rounds(7.5) == 8
  {
    RoundHalfEvenUnique(6.0, 6);
    RoundHalfEvenUnique(6.4, 6);
    RoundHalfEvenUnique(6.5, 6);
    RoundHalfEvenUnique(7.5, 8);
  }

  /** The result of `estimate_square_layout`. */
  datatype Layout = Layout(across: int, down: int, total: int, width: real, height: real)

  /** `estimate_square_layout`: enough whole squares to cover each side (at
      least one), their count, and the size they assemble to. A zero square
      size is a division by zero in the program. */
  function SquareLayout(w: real, h: real, square: real): (l: Layout)
    requires square != 0.0
    ensures l.across >= 1 && l.down >= 1
    ensures l.total == l.across * l.down
    ensures l.width == l.across as real * square && l.height == l.down as real * square
    ensures w / square > 1.0 ==> (l.across as real) - 1.0 < w / square <= l.across as real
    ensures w / square <= 1.0 ==> l.across == 1
    ensures h / square > 1.0 ==> (l.down as real) - 1.0 < h / square <= l.down as real
    ensures h / square <= 1.0 ==> l.down == 1
  {
    var across := MaxInt(1, Ceil(w / square));
    var down := MaxInt(1, Ceil(h / square));
    Layout(across, down, across * down, across as real * square, down as real * square)
  }

  /** One side of the grid: `n` squares of size `s` are the fewest that
      reach length `x`. */
  lemma FewestThatCover(x: real, s: real, n: int)
    requires x > 0.0 && s > 0.0 && n >= 1
    requires x / s > 1.0 ==> (n as real) - 1.0 < x / s <= n as real
    requires x / s <= 1.0 ==> n == 1
    ensures x <= n as real * s
    ensures (n as real - 1.0) * s < x
  {
    var q := x / s;
    var k := n as real - 1.0;
    assert x == q * s;
    if q > 1.0 {
      assert q * s <= (n as real) * s;
      assert k * s < q * s;
      assert k * s < x;
    } else {
      assert q * s <= 1.0 * s;
      assert k == 0.0;
      assert k * s < x;
    }
  }

  /** For a positive body and square size, the assembled grid covers the body
      and one fewer row or column of squares would not. */
  lemma LayoutCoversBody(w: real, h: real, square: real)
    requires w > 0.0 && h > 0.0 && square > 0.0
    ensures SquareLayout(w, h, square).width >= w
    ensures SquareLayout(w, h, square).height >= h
    ensures (SquareLayout(w, h, square).across as real - 1.0) * square < w
    ensures (SquareLayout(w, h, square).down as real - 1.0) * square < h
  {
    var l := SquareLayout(w, h, square);
    FewestThatCover(w, square, l.across);
    FewestThatCover(h, square, l.down);
  }

  /** The layout part of `print_granny_blanket_plan`: the squares are laid
      out over the body left inside the border; `None` when the border is too
      large for the blanket. */
  function BlanketPlan(w: real, h: real, border: BorderSpec, includesBorder: bool, square: real): (r: Option<Layout>)
    requires square != 0.0
    ensures r.None? <==> BodySize(w, h, border, includesBorder).None?
    ensures r.Some? ==> r.value.across >= 1 && r.value.down >= 1 && r.value.total == r.value.across * r.value.down
    ensures r.Some? ==> r.value.width == r.value.across as real * square
                        && r.value.height == r.value.down as real * square
  {
    match BodySize(w, h, border, includesBorder)
    case None => None
    case Some(body) => Some(SquareLayout(body.0, body.1, square))
  }

  /** For a positive blanket size and square size, a plan covers the body left
      inside the border, and one fewer row or column of squares would not. */
  lemma PlanCoversBody(w: real, h: real, border: BorderSpec, includesBorder: bool, square: real)
    requires w > 0.0 && h > 0.0 && square > 0.0
    requires BlanketPlan(w, h, border, includesBorder, square).Some?
    ensures var plan := BlanketPlan(w, h, border, includesBorder, square).value;
            var body := BodySize(w, h, border, includesBorder).value;
            && plan.width >= body.0 && plan.height >= body.1
            && (plan.across as real - 1.0) * square < body.0
            && (plan.down as real - 1.0) * square < body.1
  {
    PlanIsLayout(w, h, border, includesBorder, square);
    var body := BodySize(w, h, border, includesBorder).value;
    LayoutCoversBody(body.0, body.1, square);
  }

  /** A plan for a positive size is the layout of a positive body. */
  lemma PlanIsLayout(w: real, h: real, border: BorderSpec, includesBorder: bool, square: real)
    requires w > 0.0 && h > 0.0 && square > 0.0
    requires BlanketPlan(w, h, border, includesBorder, square).Some?
    ensures BodySize(w, h, border, includesBorder).Some?
    ensures BodySize(w, h, border, includesBorder).value.0 > 0.0
    ensures BodySize(w, h, border, includesBorder).value.1 > 0.0
    ensures BlanketPlan(w, h, border, includesBorder, square).value
            == SquareLayout(BodySize(w, h, border, includesBorder).value.0,
                            BodySize(w, h, border, includesBorder).value.1, square)
  {
  }

  /** A 50 x 60 blanket whose size includes a 3 in border, in 6 in squares:
      the body is 44 x 54, laid out 8 across and 9 down, 72 squares
      assembling to 48 x 54. */
  lemma BlanketPlanExample()
    ensures BlanketPlan(50.0, 60.0, BorderSpec(Simple, 3.0, 1.0, ""), true, 6.0)
              == Some(Layout(8, 9, 72, 48.0, 54.0))
  {
    assert Ceil(44.0 / 6.0) == 8;
    assert Ceil(54.0 / 6.0) == 9;
  }
}
