/**
 * Border selection and geometry: the border styles on offer, the border
 * record built from the answers, and the body size left inside a border.
 */
module Border {
  import opened Wrappers
  import opened PyText
  import opened PyNumbers

  /** The border kinds; `Name` is the `type` string the program stores. */
  datatype BorderKind = NoBorder | Simple | Scallop | Picot | Ribbed | Custom {
    function Name(): string {
      match this
      case NoBorder => "none"
      case Simple => "simple"
      case Scallop => "scallop"
      case Picot => "picot"
      case Ribbed => "ribbed"
      case Custom => "custom"
    }
  }

  /** One row of the style table: kind, default width in inches, yardage factor. */
  datatype BorderStyle = BorderStyle(kind: BorderKind, defaultWidth: real, yardageFactor: real)

  /** `style_map` in `ask_border`: menu choice to style. */
  const StyleMap: map<string, BorderStyle> := map[
    "0" := BorderStyle(NoBorder, 0.0, 1.00),
    "1" := BorderStyle(Simple, 2.0, 1.00),
    "2" := BorderStyle(Scallop, 2.5, 1.12),
    "3" := BorderStyle(Picot, 1.5, 1.05),
    "4" := BorderStyle(Ribbed, 2.5, 1.15),
    "5" := BorderStyle(Custom, 2.0, 1.10)
  ]

  /** The border record: `type`, `border_in`, `yardage_factor`, `description`. */
  datatype BorderSpec = BorderSpec(kind: BorderKind, width: real, yardageFactor: real, description: string)

  /** What every border the program builds satisfies: "none" is always width 0
      and factor 1.0, widths are never negative, factors never below 1.0, and
      only a custom border carries a description. */
  predicate Valid(b: BorderSpec) {
    && (b.kind == NoBorder ==> b.width == 0.0 && b.yardageFactor == 1.0)
    && b.width >= 0.0
    && b.yardageFactor >= 1.0
    && (b.description != "" ==> b.kind == Custom)
  }

  /** The style chosen by one answer to the border menu, if it is a menu entry:
      the answers are the digits 0 to 5, with any surrounding whitespace. */
  function StyleFor(raw: string): (r: Option<BorderStyle>)
    ensures r.Some? <==> Lower(Strip(raw)) in {"0", "1", "2", "3", "4", "5"}
    ensures r.Some? ==> r.value.yardageFactor >= 1.0
    ensures r.Some? ==> (r.value.kind == NoBorder <==> r.value.defaultWidth == 0.0)
    ensures r.Some? ==> r.value.defaultWidth >= 0.0
  {
    var choice := Lower(Strip(raw));
    if choice in StyleMap then Some(StyleMap[choice]) else None
  }

  /** Worked examples: " 1 " is the simple border, "5" the custom one, and
      "6" is not on the menu. */
  lemma StyleForExamples()
    ensures StyleFor(" 1 ") == Some(BorderStyle(Simple, 2.0, 1.00))
    ensures StyleFor("5") == Some(BorderStyle(Custom, 2.0, 1.10))
    ensures StyleFor("6") == None
  {
    ExampleAnswersStripped();
    ExampleDigitsLower();
  }

  lemma ExampleAnswersStripped()
    ensures Strip(" 1 ") == "1" && Strip("5") == "5" && Strip("6") == "6"
  {
    assert LeadingSpaces(" 1 ") == 1 && TrailingSpaces(" 1 ") == 1;
    StripUnchanged("5");
    StripUnchanged("6");
  }

  lemma ExampleDigitsLower()
    ensures Lower("1") == "1" && Lower("5") == "5" && Lower("6") == "6"
  {
    LowerIdempotent("1");
    LowerIdempotent("5");
    LowerIdempotent("6");
  }

  /** One answer to the border-width question: empty takes the default,
      otherwise a positive number is required (`None`: the program asks again). */
  function WidthAnswer(raw: string, default: real): (r: Option<real>)
    ensures Strip(raw) == [] ==> r == Some(default)
    ensures Strip(raw) != [] && r.Some? ==> r.value > 0.0 && ParseReal(Strip(raw)) == Some(r.value)
    ensures Strip(raw) != [] && r.None? ==> ParseReal(Strip(raw)).None? || ParseReal(Strip(raw)).value <= 0.0
  {
    var custom := Strip(raw);
    if custom == [] then Some(default)
    else
      match ParseReal(custom)
      case Some(v) => if v <= 0.0 then None else Some(v)
      case None => None
  }

  /** The border `ask_border` returns for a style, the description typed for
      a custom border and the width accepted: a "none" border is normalised
      to width 0 and factor 1.0 whatever else was given. */
  function MakeBorder(style: BorderStyle, description: string, width: real): (b: BorderSpec)
    ensures b.kind == style.kind
    ensures style.kind == NoBorder ==> b == BorderSpec(NoBorder, 0.0, 1.0, "")
    ensures style.kind != NoBorder ==> b.width == width && b.yardageFactor == style.yardageFactor
    ensures b.description == if style.kind == Custom then Strip(description) else ""
    ensures style.yardageFactor >= 1.0 && width >= 0.0 ==> Valid(b)
  {
    if style.kind == NoBorder then BorderSpec(NoBorder, 0.0, 1.00, "")
    else BorderSpec(style.kind, width, style.yardageFactor,
                    if style.kind == Custom then Strip(description) else "")
  }

  /** Whatever the answers, a border built from a menu choice and an accepted
      width is valid. */
  lemma BorderFromAnswersValid(choice: string, description: string, widthRaw: string)
    requires StyleFor(choice).Some?
    requires WidthAnswer(widthRaw, StyleFor(choice).value.defaultWidth).Some?
    ensures Valid(MakeBorder(StyleFor(choice).value, description,
                             WidthAnswer(widthRaw, StyleFor(choice).value.defaultWidth).value))
  {
  }

  /** The finished size of a body with a border of width `b` added on every
      side: both sides grow by the same amount, and a border never makes the
      blanket smaller. */
  function AddBorder(body: (real, real), b: real): (r: (real, real))
    ensures r.0 - body.0 == r.1 - body.1
    ensures b >= 0.0 ==> r.0 >= body.0 && r.1 >= body.1
    ensures b > 0.0 ==> r.0 > body.0 && r.1 > body.1
  {
    (body.0 + 2.0 * b, body.1 + 2.0 * b)
  }

  /** `compute_body_size`: the finished size itself when the border is not
      included in it (or there is none); otherwise the finished size less
      the border on both sides, or `None` when that leaves no body. */
  function BodySize(w: real, h: real, border: BorderSpec, includesBorder: bool): (r: Option<(real, real)>)
    ensures !includesBorder || border.kind == NoBorder ==> r == Some((w, h))
    ensures includesBorder && border.kind != NoBorder ==>
              (r.None? <==> w <= 2.0 * border.width || h <= 2.0 * border.width)
    ensures includesBorder && border.kind != NoBorder && r.Some? ==>
              r.value.0 > 0.0 && r.value.1 > 0.0 && AddBorder(r.value, border.width) == (w, h)
  {
    if !includesBorder || border.kind == NoBorder then Some((w, h))
    else
      var b := border.width;
      var bodyW, bodyH := w - 2.0 * b, h - 2.0 * b;
      if bodyW <= 0.0 || bodyH <= 0.0 then None
      else Some((bodyW, bodyH))
  }

  /** Round trip: adding a border to a body and taking it off again gives the body back. */
  lemma BodySizeOfAddBorder(body: (real, real), border: BorderSpec)
    requires body.0 > 0.0 && body.1 > 0.0 && border.kind != NoBorder
    ensures BodySize(AddBorder(body, border.width).0, AddBorder(body, border.width).1, border, true) == Some(body)
  {
  }

  /** A body is never larger than the finished size it comes from. */
  lemma BodyWithinFinished(w: real, h: real, border: BorderSpec, includesBorder: bool)
    requires Valid(border)
    requires BodySize(w, h, border, includesBorder).Some?
    ensures BodySize(w, h, border, includesBorder).value.0 <= w
    ensures BodySize(w, h, border, includesBorder).value.1 <= h
  {
  }

  /** Worked examples: a 3 in border inside 50 x 60 leaves 44 x 54, a 30 in
      border leaves nothing, and without a border the size is kept whatever
      the flag says. */
  lemma BodySizeExamples()
    ensures BodySize(50.0, 60.0, BorderSpec(Simple, 3.0, 1.0, ""), true) == Some((44.0, 54.0))
    ensures BodySize(50.0, 60.0, BorderSpec(Simple, 30.0, 1.0, ""), true) == None
    ensures BodySize(50.0, 60.0, BorderSpec(NoBorder, 0.0, 1.0, ""), true) == Some((50.0, 60.0))
    ensures BodySize(50.0, 60.0, BorderSpec(NoBorder, 0.0, 1.0, ""), false) == Some((50.0, 60.0))
  {
  }
}
