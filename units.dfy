/**
 * Units and size input: conversion to inches, the size presets, the
 * free-form dimension parser and the preset-or-custom size selection.
 */
module Units {
  import opened Wrappers
  import opened PyText
  import opened PyNumbers

  /** The error `to_inches` raises for a unit it does not know. */
  datatype UnitError = UnsupportedUnit

  /** The unit tokens `to_inches` accepts. */
  const SupportedUnits: set<string> := {"in", "ft", "cm", "m"}

  /** `to_inches(value, unit)`. */
  function ToInches(value: real, unit: string): (r: Result<real, UnitError>)
    ensures r.Ok? <==> unit in SupportedUnits
    ensures r.Ok? ==> (r.value > 0.0 <==> value > 0.0)
    ensures r.Ok? ==> FromInches(r.value, unit) == value
  {
    if unit == "in" then Ok(value)
    else if unit == "ft" then Ok(value * 12.0)
    else if unit == "cm" then Ok(value / 2.54)
    else if unit == "m" then Ok((value * 100.0) / 2.54)
    else Err(UnsupportedUnit)
  }

  /** The inverse conversion, from inches back to `unit`, from the fixed
      ratios 1 ft = 12 in, 1 in = 2.54 cm and 1 m = 100 cm. */
  function FromInches(inches: real, unit: string): real
    requires unit in SupportedUnits
  {
    match unit
    case "in" => inches
    case "ft" => inches / 12.0
    case "cm" => inches * 2.54
    case _ => inches * 2.54 / 100.0
  }

  /** Converting back from inches returns what was converted. */
  lemma ToInchesRoundTrip(inches: real, unit: string)
    requires unit in SupportedUnits
    ensures ToInches(FromInches(inches, unit), unit) == Ok(inches)
  {
  }

  /** The units agree with each other: a metre is a hundred centimetres and
      a foot twelve inches. */
  lemma UnitsAgree(v: real)
    ensures ToInches(v, "m") == ToInches(v * 100.0, "cm")
    ensures ToInches(v, "ft") == ToInches(v * 12.0, "in")
  {
  }

  /** `SIZE_PRESETS`: blanket size name to (width, height) in inches. */
  const SizePresets: map<string, (int, int)> :=
    map["baby" := (30, 36), "throw" := (50, 60), "twin" := (66, 90), "queen" := (90, 100)]

  /** The separators `parse_dimensions` turns into spaces, in order. */
  const Separators: seq<string> := ["by", "x", ","]

  /** `t` after replacing each of the first `n` separators with a space, in order. */
  function Normalized(t: string, n: nat): string
    requires n <= |Separators|
  {
    if n == 0 then t
    else ReplaceAll(Normalized(t, n - 1), Separators[n - 1], " ")
  }

  /** The words `parse_dimensions` reads two numbers from. */
  function DimensionTokens(text: string): seq<string> {
    DropEmpty(Split(Normalized(Strip(Lower(text)), |Separators|)))
  }

  /** Two parsed numbers as a dimension pair, if both parsed and both are positive. */
  function PairOf(w: Option<real>, h: Option<real>): (r: Option<(real, real)>)
    ensures r.Some? <==> w.Some? && h.Some? && w.value > 0.0 && h.value > 0.0
    ensures r.Some? ==> r.value == (w.value, h.value)
  {
    if w.None? || h.None? then None
    else if w.value <= 0.0 || h.value <= 0.0 then None
    else Some((w.value, h.value))
  }

  /** `parse_dimensions(text)` as a value: the pair of the two numbers the
      text holds, or `None`. */
  function DimensionsOf(text: string): (r: Option<(real, real)>)
    ensures r.Some? ==> r.value.0 > 0.0 && r.value.1 > 0.0
    ensures r.Some? ==> |DimensionTokens(text)| == 2
                        && ParseReal(DimensionTokens(text)[0]) == Some(r.value.0)
                        && ParseReal(DimensionTokens(text)[1]) == Some(r.value.1)
  {
    var parts := DimensionTokens(text);
    if |parts| != 2 then None
    else PairOf(ParseReal(parts[0]), ParseReal(parts[1]))
  }

  /** `parse_dimensions`: lower-case and strip the text, turn every separator
      into a space one separator after another, split into words and read
      exactly two positive numbers. */
  method ParseDimensions(text: string) returns (r: Option<(real, real)>)
    ensures r == DimensionsOf(text)
    ensures r.Some? ==> r.value.0 > 0.0 && r.value.1 > 0.0
  {
    var t := Strip(Lower(text));
    ghost var t0 := t;
    for i := 0 to |Separators|
      invariant t == Normalized(t0, i)
    {
      t := ReplaceAll(t, Separators[i], " ");
    }
    var parts := DropEmpty(Split(t));
    assert parts == DimensionTokens(text);
    if |parts| != 2 {
      return None;
    }
    var w := ParseReal(parts[0]);
    var h := ParseReal(parts[1]);
    if w.None? || h.None? {
      return None;
    }
    if w.value <= 0.0 || h.value <= 0.0 {
      return None;
    }
    return Some((w.value, h.value));
  }

  /** `p` occurs nowhere in `s`. */
  predicate Absent(s: string, p: string) {
    forall i :: 0 <= i < |s| ==> !Occurs(s, p, i)
  }

  /** A word as a user would type one number: no whitespace, no capitals,
      and none of the separators. */
  predicate PlainToken(a: string) {
    a != [] && NoSpace(a) && NoUpper(a) && Absent(a, "by") && Absent(a, "x") && Absent(a, ",")
  }

  /** A plain token ahead of text that does not start with 'y' passes through
      a separator replacement unchanged. */
  lemma AroundToken(a: string, t: string, p: string)
    requires p == "by" || p == "x" || p == ","
    requires PlainToken(a)
    requires t == [] || t[0] != 'y'
    ensures ReplaceAll(a + t, p, " ") == a + ReplaceAll(t, p, " ")
  {
    forall i | 0 <= i < |a|
      ensures !Occurs(a + t, p, i)
    {
      OccursFirst(a + t, p, i);
      assert !Occurs(a, p, i);
      if i + |p| <= |a| {
        OccursPrefix(a, t, p, i);
      } else if t != [] {
        assert (a + t)[|a|] == t[0];
      }
    }
    ReplaceAllSkips(a, t, p, " ");
  }

  /** A plain token contains no separator, so replacing one leaves it as it is. */
  lemma TokenUnchanged(b: string, p: string)
    requires p == "by" || p == "x" || p == ","
    requires PlainToken(b)
    ensures ReplaceAll(b, p, " ") == b
  {
    ReplaceAllAbsent(b, p, " ");
  }

  /** Spaces followed by a plain token pass through a separator replacement. */
  lemma SpacesThenToken(g: string, b: string, p: string)
    requires p == "by" || p == "x" || p == ","
    requires forall i :: 0 <= i < |g| ==> g[i] == ' '
    requires PlainToken(b)
    ensures ReplaceAll(g + b, p, " ") == g + b
  {
    KeepAll(g, b, p, " ");
    TokenUnchanged(b, p);
  }

  /** The separator forms a user types between two numbers. */
  const SeparatorForms: set<string> := {"x", " x ", ",", " by "}

  /** The separator forms hold no capitals. */
  lemma SeparatorFormShape(m: string)
    requires m in SeparatorForms
    ensures NoUpper(m)
  {
  }

  /** The three separators are applied one after the other. */
  lemma NormalizedThree(t: string)
    ensures Normalized(t, |Separators|)
            == ReplaceAll(ReplaceAll(ReplaceAll(t, "by", " "), "x", " "), ",", " ")
  {
    assert Normalized(t, 1) == ReplaceAll(t, "by", " ");
    assert Normalized(t, 2) == ReplaceAll(ReplaceAll(t, "by", " "), "x", " ");
  }

  /** The text between two plain tokens, once its separators are spaces. */
  function Gap(m: string): string {
    if |m| == 1 then " " else "   "
  }

  /** Normalising `a + m + b` turns the separator form `m` into spaces. */
  lemma NormalizedPair(a: string, m: string, b: string)
    requires PlainToken(a) && PlainToken(b) && m in SeparatorForms
    ensures Normalized(a + m + b, |Separators|) == a + Gap(m) + b
  {
    if m == "x" {
      PairX(a, b);
    } else if m == "," {
      PairComma(a, b);
    } else if m == " x " {
      PairSpacedX(a, b);
    } else {
      PairBy(a, b);
    }
  }

  lemma PairX(a: string, b: string)
    requires PlainToken(a) && PlainToken(b)
    ensures Normalized(a + "x" + b, |Separators|) == a + " " + b
  {
    assert a + "x" + b == a + ("x" + b);
    NormalizedThree(a + ("x" + b));
    NormalizedX(a, b);
    assert a + " " + b == a + (" " + b);
  }

  lemma PairComma(a: string, b: string)
    requires PlainToken(a) && PlainToken(b)
    ensures Normalized(a + "," + b, |Separators|) == a + " " + b
  {
    assert a + "," + b == a + ("," + b);
    NormalizedThree(a + ("," + b));
    NormalizedComma(a, b);
    assert a + " " + b == a + (" " + b);
  }

  lemma PairSpacedX(a: string, b: string)
    requires PlainToken(a) && PlainToken(b)
    ensures Normalized(a + " x " + b, |Separators|) == a + "   " + b
  {
    assert a + " x " + b == a + (" x " + b);
    NormalizedThree(a + (" x " + b));
    NormalizedSpacedX(a, b);
    assert a + "   " + b == a + ("   " + b);
  }

  lemma PairBy(a: string, b: string)
    requires PlainToken(a) && PlainToken(b)
    ensures Normalized(a + " by " + b, |Separators|) == a + "   " + b
  {
    assert a + " by " + b == a + (" by " + b);
    NormalizedThree(a + (" by " + b));
    NormalizedBy(a, b);
    assert a + "   " + b == a + ("   " + b);
  }

  lemma NormalizedX(a: string, b: string)
    requires PlainToken(a) && PlainToken(b)
    ensures ReplaceAll(ReplaceAll(ReplaceAll(a + ("x" + b), "by", " "), "x", " "), ",", " ")
            == a + (" " + b)
  {
    var t := "x" + b;
    AroundToken(a, t, "by");
    KeepAll("x", b, "by", " ");
    TokenUnchanged(b, "by");
    var s1 := ReplaceAll(a + t, "by", " ");
    assert s1 == a + t;
    AroundToken(a, t, "x");
    StepReplace(b, "x", " ");
    TokenUnchanged(b, "x");
    var s2 := ReplaceAll(s1, "x", " ");
    assert s2 == a + (" " + b);
    AroundToken(a, " " + b, ",");
    SpacesThenToken(" ", b, ",");
  }

  lemma NormalizedComma(a: string, b: string)
    requires PlainToken(a) && PlainToken(b)
    ensures ReplaceAll(ReplaceAll(ReplaceAll(a + ("," + b), "by", " "), "x", " "), ",", " ")
            == a + (" " + b)
  {
    var t := "," + b;
    AroundToken(a, t, "by");
    KeepAll(",", b, "by", " ");
    TokenUnchanged(b, "by");
    var s1 := ReplaceAll(a + t, "by", " ");
    assert s1 == a + t;
    AroundToken(a, t, "x");
    KeepAll(",", b, "x", " ");
    TokenUnchanged(b, "x");
    var s2 := ReplaceAll(s1, "x", " ");
    assert s2 == a + t;
    AroundToken(a, t, ",");
    StepReplace(b, ",", " ");
    TokenUnchanged(b, ",");
  }

  lemma NormalizedSpacedX(a: string, b: string)
    requires PlainToken(a) && PlainToken(b)
    ensures ReplaceAll(ReplaceAll(ReplaceAll(a + (" x " + b), "by", " "), "x", " "), ",", " ")
            == a + ("   " + b)
  {
    var t := " x " + b;
    AroundToken(a, t, "by");
    KeepAll(" x ", b, "by", " ");
    TokenUnchanged(b, "by");
    var s1 := ReplaceAll(a + t, "by", " ");
    assert s1 == a + t;
    assert " " + "x" + " " + b == t;
    SpacedStep("x", a, b);
    var s2 := ReplaceAll(s1, "x", " ");
    assert s2 == a + ("   " + b);
    AroundToken(a, "   " + b, ",");
    SpacesThenToken("   ", b, ",");
  }

  /** A spaced separator between two plain tokens becomes three spaces. */
  lemma SpacedStep(p: string, a: string, b: string)
    requires p == "x" || p == "by"
    requires PlainToken(a) && PlainToken(b)
    ensures ReplaceAll(a + (" " + p + " " + b), p, " ") == a + ("   " + b)
  {
    AroundToken(a, " " + p + " " + b, p);
    SpacedInner(p, b);
  }

  /** A separator between single spaces, ahead of a plain token, becomes
      spaces: three in all for both `" x "` and `" by "`. */
  lemma SpacedInner(p: string, b: string)
    requires p == "x" || p == "by"
    requires PlainToken(b)
    ensures ReplaceAll(" " + p + " " + b, p, " ") == "   " + b
  {
    var u := " " + b;
    var v := p + u;
    assert " " + p + " " + b == " " + v;
    KeepAll(" ", v, p, " ");
    StepReplace(u, p, " ");
    SpacesThenToken(" ", b, p);
    assert " " + (" " + u) == "   " + b;
  }

  lemma NormalizedBy(a: string, b: string)
    requires PlainToken(a) && PlainToken(b)
    ensures ReplaceAll(ReplaceAll(ReplaceAll(a + (" by " + b), "by", " "), "x", " "), ",", " ")
            == a + ("   " + b)
  {
    assert " " + "by" + " " + b == " by " + b;
    SpacedStep("by", a, b);
    var g := "   " + b;
    var s1 := ReplaceAll(a + (" by " + b), "by", " ");
    assert s1 == a + g;
    AroundToken(a, g, "x");
    SpacesThenToken("   ", b, "x");
    var s2 := ReplaceAll(s1, "x", " ");
    assert s2 == a + g;
    AroundToken(a, g, ",");
    SpacesThenToken("   ", b, ",");
  }

  /** The words of `a + m + b` are `a` and `b`. */
  lemma TokensOfPair(a: string, m: string, b: string)
    requires PlainToken(a) && PlainToken(b) && m in SeparatorForms
    ensures DimensionTokens(a + m + b) == [a, b]
  {
    var s := a + m + b;
    SeparatorFormShape(m);
    NoUpperJoin(a, m);
    NoUpperJoin(a + m, b);
    LowerIdempotent(s);
    assert s[0] == a[0] && s[|s| - 1] == b[|b| - 1];
    StripUnchanged(s);
    NormalizedPair(a, m, b);
    SplitTwo(a, Gap(m), b);
    DropEmptyKeepsWords([a, b]);
  }

  /** Round trip: two plain tokens joined by any separator form parse back to
      the pair of their values, positive ones accepted and others refused. */
  lemma DimensionsOfPair(a: string, m: string, b: string)
    requires PlainToken(a) && PlainToken(b) && m in SeparatorForms
    ensures DimensionsOf(a + m + b) == PairOf(ParseReal(a), ParseReal(b))
  {
    TokensOfPair(a, m, b);
  }

  /** A non-empty word with no whitespace, capitals, 'x', ',' or "by" is a plain token. */
  lemma PlainTokenByChars(a: string)
    requires a != []
    requires forall i :: 0 <= i < |a| ==> !IsSpace(a[i]) && !IsUpper(a[i]) && a[i] != 'x' && a[i] != ','
    requires forall i :: 0 <= i < |a| - 1 ==> a[i] != 'b' || a[i + 1] != 'y'
    ensures PlainToken(a)
  {
    forall i | 0 <= i < |a|
      ensures !Occurs(a, "by", i) && !Occurs(a, "x", i) && !Occurs(a, ",", i)
    {
      OccursFirst(a, "by", i);
      OccursFirst(a, "x", i);
      OccursFirst(a, ",", i);
    }
  }

  /** A single plain token is one word, so it is not a dimension pair. */
  lemma DimensionsOfOne(a: string)
    requires PlainToken(a)
    ensures DimensionTokens(a) == [a]
    ensures DimensionsOf(a) == None
  {
    LowerIdempotent(a);
    StripUnchanged(a);
    assert Strip(Lower(a)) == a;
    NormalizedThree(a);
    TokenUnchanged(a, "by");
    TokenUnchanged(a, "x");
    TokenUnchanged(a, ",");
    assert Normalized(a, |Separators|) == a;
    SplitOne(a);
    DropEmptyKeepsWords([a]);
  }

  /** Cleaning up text that is already cleaned up changes nothing. */
  lemma CleanTwice(text: string)
    ensures Strip(Lower(Lower(Strip(text)))) == Strip(Lower(text))
  {
    StripLower(text);
    StripLower(Strip(text));
    LowerIdempotent(Strip(text));
  }

  /** Text is read the same way whatever its case and surrounding whitespace. */
  lemma DimensionsOfNormalises(text: string)
    ensures DimensionsOf(Lower(Strip(text))) == DimensionsOf(text)
  {
    CleanTwice(text);
    assert DimensionTokens(Lower(Strip(text))) == DimensionTokens(text);
  }

  /** The worked examples of `parse_dimensions`: the three separator styles
      give the same pair. */
  lemma ParseDimensionsAccepts()
    ensures DimensionsOf("52x68") == Some((52.0, 68.0))
    ensures DimensionsOf("52 by 68") == Some((52.0, 68.0))
    ensures DimensionsOf("52,68") == Some((52.0, 68.0))
  {
    ExampleTexts();
    Accepts52And68("52x68", "x");
    Accepts52And68("52 by 68", " by ");
    Accepts52And68("52,68", ",");
  }

  /** The example texts are 52 and 68 joined by separator forms. */
  lemma ExampleTexts()
    ensures "x" in SeparatorForms && "52x68" == "52" + "x" + "68"
    ensures " by " in SeparatorForms && "52 by 68" == "52" + " by " + "68"
    ensures "," in SeparatorForms && "52,68" == "52" + "," + "68"
  {
  }

  /** 52 and 68 joined by a separator form parse to that pair. */
  lemma Accepts52And68(text: string, m: string)
    requires m in SeparatorForms && text == "52" + m + "68"
    ensures DimensionsOf(text) == Some((52.0, 68.0))
  {
    Token52And68();
    DimensionsOfPair("52", m, "68");
  }

  lemma Token52And68()
    ensures PlainToken("52") && PlainToken("68")
    ensures PairOf(ParseReal("52"), ParseReal("68")) == Some((52.0, 68.0))
  {
    PlainTokenByChars("52");
    PlainTokenByChars("68");
    ParseDigits("52");
    assert "52"[..1] == "5";
    ParseDigits("68");
    assert "68"[..1] == "6";
  }

  /** The worked examples of `parse_dimensions`: one number, a word, a
      negative or a zero dimension are refused. */
  lemma ParseDimensionsRefuses()
    ensures DimensionsOf("52") == None
    ensures DimensionsOf("abc x 10") == None
    ensures DimensionsOf("-5x10") == None
    ensures DimensionsOf("0x10") == None
  {
    PlainTokenByChars("52");
    DimensionsOfOne("52");
    PlainTokenByChars("10");
    RefusesWord();
    RefusesNegative();
    RefusesZero();
  }

  lemma RefusesWord()
    ensures DimensionsOf("abc x 10") == None
  {
    PlainTokenByChars("abc");
    PlainTokenByChars("10");
    assert "abc"[0] == 'a';
    assert ParseReal("abc") == None;
    assert "abc x 10" == "abc" + " x " + "10";
    DimensionsOfPair("abc", " x ", "10");
  }

  lemma RefusesNegative()
    ensures DimensionsOf("-5x10") == None
  {
    PlainTokenByChars("-5");
    PlainTokenByChars("10");
    ParseNegative("5");
    assert "-" + "5" == "-5";
    assert "-5x10" == "-5" + "x" + "10";
    DimensionsOfPair("-5", "x", "10");
  }

  lemma RefusesZero()
    ensures DimensionsOf("0x10") == None
  {
    PlainTokenByChars("0");
    PlainTokenByChars("10");
    ParseDigits("0");
    assert "0x10" == "0" + "x" + "10";
    DimensionsOfPair("0", "x", "10");
  }

  /** Where a chosen size came from; its `Label` is the text the program shows. */
  datatype SizeSource = Preset(name: string) | Custom(unit: string)

  /** The label `ask_size_or_custom` returns with a size. */
  function Label(source: SizeSource): (l: string)
    ensures |l| >= 9 && l[..8] == (if source.Preset? then "preset (" else "custom (") && l[|l| - 1] == ')'
  {
    match source
    case Preset(name) => "preset (" + name + ")"
    case Custom(unit) => "custom (" + unit + ")"
  }

  /** A label tells which kind of choice it was from its first letter, and
      the preset name or the unit from the text in its parentheses. */
  lemma LabelParts(source: SizeSource)
    ensures Label(source)[0] == if source.Preset? then 'p' else 'c'
    ensures Label(source)[8..|Label(source)| - 1] == if source.Preset? then source.name else source.unit
  {
    var l := Label(source);
    var inner := if source.Preset? then source.name else source.unit;
    var head := if source.Preset? then "preset (" else "custom (";
    assert l == head + inner + ")";
    assert l[0] == head[0];
    assert l[8..|l| - 1] == inner;
  }

  /** Different sources never share a label. */
  lemma LabelIdentifiesSource(s: SizeSource, t: SizeSource)
    requires Label(s) == Label(t)
    ensures s == t
  {
    LabelParts(s);
    LabelParts(t);
  }

  /** A blanket size in inches and where it came from. */
  datatype SizeSelection = SizeSelection(width: real, height: real, source: SizeSource)

  /** What one answer to the size question gives: a size, nothing usable
      (the program asks again), or the error `to_inches` raises. */
  datatype SizeAnswer = Chosen(selection: SizeSelection) | Unrecognized | Failed(error: UnitError)

  /** One cleaned-up answer to `ask_size_or_custom`: a preset name wins;
      otherwise the text is parsed as custom dimensions in `unit` and
      converted to inches. */
  function SizeForEntry(entry: string, unit: string): (r: SizeAnswer)
    ensures entry in SizePresets ==>
              var (w, h) := SizePresets[entry];
              r == Chosen(SizeSelection(w as real, h as real, Preset(entry)))
    ensures r.Chosen? ==> r.selection.width > 0.0 && r.selection.height > 0.0
  {
    if entry in SizePresets then
      var (w, h) := SizePresets[entry];
      Chosen(SizeSelection(w as real, h as real, Preset(entry)))
    else
      var dims := DimensionsOf(entry);
      if dims.None? then Unrecognized
      else
        var wIn, hIn := ToInches(dims.value.0, unit), ToInches(dims.value.1, unit);
        if wIn.Ok? && hIn.Ok? then Chosen(SizeSelection(wIn.value, hIn.value, Custom(unit)))
        else Failed(UnsupportedUnit)
  }

  /** A custom answer: nothing usable exactly when the text is no dimension
      pair, the unit error exactly when it is one but the unit is unknown, and
      otherwise a size that converts back to the pair that was typed. */
  lemma SizeForEntryCustom(entry: string, unit: string)
    requires entry !in SizePresets
    ensures SizeForEntry(entry, unit).Unrecognized? <==> DimensionsOf(entry).None?
    ensures SizeForEntry(entry, unit).Failed? <==> DimensionsOf(entry).Some? && unit !in SupportedUnits
    ensures SizeForEntry(entry, unit).Chosen? ==>
              var sel := SizeForEntry(entry, unit).selection;
              && sel.source == Custom(unit) && unit in SupportedUnits
              && DimensionsOf(entry) == Some((FromInches(sel.width, unit), FromInches(sel.height, unit)))
  {
    var dims := DimensionsOf(entry);
    if dims.Some? {
      var wIn, hIn := ToInches(dims.value.0, unit), ToInches(dims.value.1, unit);
      assert wIn.Ok? ==> FromInches(wIn.value, unit) == dims.value.0;
      assert hIn.Ok? ==> FromInches(hIn.value, unit) == dims.value.1;
    }
  }

  /** `ask_size_or_custom` for one answer that is not a navigation answer
      (`ReadSentinel` gave it back as a `Value`): it is stripped and lower-cased
      first, so presets are found in any case and with any padding. Any other
      answer is asked again exactly when the typed text is no dimension pair,
      and a custom size converts back to the pair typed. */
  function SelectSize(raw: string, unit: string): (r: SizeAnswer)
    ensures var e := Lower(Strip(raw));
            e in SizePresets ==>
              r == Chosen(SizeSelection(SizePresets[e].0 as real, SizePresets[e].1 as real, Preset(e)))
    ensures r.Chosen? ==> r.selection.width > 0.0 && r.selection.height > 0.0
    ensures Lower(Strip(raw)) !in SizePresets ==> (r.Unrecognized? <==> DimensionsOf(raw).None?)
    ensures Lower(Strip(raw)) !in SizePresets ==> (r.Failed? <==> DimensionsOf(raw).Some? && unit !in SupportedUnits)
    ensures Lower(Strip(raw)) !in SizePresets && r.Chosen? ==>
              && r.selection.source == Custom(unit) && unit in SupportedUnits
              && DimensionsOf(raw) == Some((FromInches(r.selection.width, unit), FromInches(r.selection.height, unit)))
  {
    var e := Lower(Strip(raw));
    DimensionsOfNormalises(raw);
    if e in SizePresets then SizeForEntry(e, unit)
    else
      SizeForEntryCustom(e, unit);
      SizeForEntry(e, unit)
  }

  /** The answer is read the same way whatever its case and surrounding whitespace. */
  lemma SelectSizeNormalises(raw: string, unit: string)
    ensures SelectSize(Lower(Strip(raw)), unit) == SelectSize(raw, unit)
  {
    var e := Lower(Strip(raw));
    StripLower(raw);
    StripLower(Strip(raw));
    LowerIdempotent(Strip(raw));
    assert Lower(Strip(e)) == e;
  }

  /** Worked examples: a preset, a custom size in feet, a unit `to_inches`
      refuses, and a word that is neither. */
  lemma SelectSizeExamples()
    ensures SizeForEntry("throw", "cm") == Chosen(SizeSelection(50.0, 60.0, Preset("throw")))
    ensures SizeForEntry("4x5", "ft") == Chosen(SizeSelection(48.0, 60.0, Custom("ft")))
    ensures SizeForEntry("4x5", "yd") == Failed(UnsupportedUnit)
    ensures SizeForEntry("huge", "in") == Unrecognized
    ensures SelectSize(" Throw ", "in") == Chosen(SizeSelection(50.0, 60.0, Preset("throw")))
  {
    PaddedPreset();
    PresetExample();
    FeetExample();
    UnknownUnitExample();
    WordExample();
  }

  /** A padded, capitalised preset name is cleaned up to the name itself. */
  lemma PaddedPreset()
    ensures Lower(Strip(" Throw ")) == "throw"
  {
    assert LeadingSpaces(" Throw ") == 1 && TrailingSpaces(" Throw ") == 1;
    assert Strip(" Throw ") == "Throw";
    assert LowerChar('T') == 't';
    assert Lower("Throw") == "throw";
  }

  lemma PresetExample()
    ensures SizeForEntry("throw", "cm") == Chosen(SizeSelection(50.0, 60.0, Preset("throw")))
  {
    assert "throw" in SizePresets;
  }

  lemma FeetExample()
    ensures SizeForEntry("4x5", "ft") == Chosen(SizeSelection(48.0, 60.0, Custom("ft")))
  {
    FourByFive();
    assert "4x5" !in SizePresets;
  }

  lemma UnknownUnitExample()
    ensures SizeForEntry("4x5", "yd") == Failed(UnsupportedUnit)
  {
    FourByFive();
    assert "4x5" !in SizePresets;
  }

  lemma WordExample()
    ensures SizeForEntry("huge", "in") == Unrecognized
  {
    PlainTokenByChars("huge");
    DimensionsOfOne("huge");
    assert "huge" !in SizePresets;
  }

  lemma FourByFive()
    ensures DimensionsOf("4x5") == Some((4.0, 5.0))
  {
    Token4And5();
    assert "4x5" == "4" + "x" + "5";
    DimensionsOfPair("4", "x", "5");
  }

  lemma Token4And5()
    ensures PlainToken("4") && PlainToken("5")
    ensures PairOf(ParseReal("4"), ParseReal("5")) == Some((4.0, 5.0))
  {
    PlainTokenByChars("4");
    PlainTokenByChars("5");
    ParseDigits("4");
    assert "4"[..0] == "";
    ParseDigits("5");
    assert "5"[..0] == "";
  }
}
