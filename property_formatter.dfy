/**
  The inspector's value formatter (`GetPropertyValues`): it turns one property,
  given by its name and its value, into the line shown in the panel,
  `<name>␣␣␣␣␣<value>`, or rejects it as not displayable.
 */
module PropertyFormatter {
  import opened UStrings

  datatype Option<+T> = None | Some(value: T)

  /** `css::awt::FontSlant`. */
  datatype FontSlant = NoSlant | Oblique | Italic | DontKnow | ReverseOblique | ReverseItalic

  /**
    A property value as held in a `uno::Any`, one case per extraction the
    formatter tries, in the order it tries them. `OtherValue` stands for every
    value none of them extracts (void, structs, sequences, ...).
    A double is held as an exact real.
   */
  datatype Value =
    | BoolValue(b: bool)
    | StringValue(s: string)
    | SlantValue(slant: FontSlant)
    | LongValue(n: int)
    | DoubleValue(x: real)
    | ShortValue(n: int)
    | OtherValue

  /** The two `SvtLanguageOptions` switches the formatter consults. */
  datatype LanguageOptions = LanguageOptions(cjkFontEnabled: bool, ctlFontEnabled: bool)

  /** What separates a property's name from its value in a displayed line. */
  const Separator: string := "     "

  /** Asian properties are hidden when CJK fonts are enabled, complex ones when CTL fonts are. */
  predicate Hidden(name: string, lang: LanguageOptions) {
    (lang.cjkFontEnabled && Contains(name, "Asian")) || (lang.ctlFontEnabled && Contains(name, "Complex"))
  }

  /** Some branch of the formatter extracts this value. */
  predicate Displayable(value: Value) {
    !value.OtherValue? && value != StringValue("")
  }

  /**
    `GetPropertyValues`: the displayed line for property `name` with value
    `value`, or `None` when the property is hidden or its value is of no
    shape the formatter knows. The tests for "Color" and "Weight" look at the
    line built so far, name and separator, as the panel does.
   */
  function GetPropertyValues(name: string, value: Value, lang: LanguageOptions): (r: Option<string>)
    ensures r.None? <==> Hidden(name, lang) || !Displayable(value)
    ensures r.Some? ==> |r.value| >= |name + Separator| && r.value[..|name + Separator|] == name + Separator
  {
    if lang.cjkFontEnabled && Contains(name, "Asian") then None
    else if lang.ctlFontEnabled && Contains(name, "Complex") then None
    else
      var line := name + Separator;
      match value
      case BoolValue(b) => Some(line + (if b then "true" else "false"))
      case StringValue(s) => if s != "" then Some(line + s) else None
      case SlantValue(slant) => Some(line + (if slant == Italic then "italic" else "normal"))
      case LongValue(n) =>
        if Contains(line, "Color") then Some(line + "0x" + IntText(n, 16)) else Some(line + IntText(n, 10))
      case DoubleValue(x) =>
        if Contains(line, "Weight") then Some(line + (if x > 100.0 then "bold" else "normal"))
        else Some(line + HundredthsText(RoundHalfAway(x * 100.0)))
      case ShortValue(n) => Some(line + IntText(n, 10))
      case OtherValue => None
  }

  /** The part of a displayed line after the name and the separator. */
  function ShownValue(name: string, line: string): string
    requires |line| >= |name + Separator|
  {
    line[|name + Separator|..]
  }

  /**
    What each kind of value is displayed as, with the "Color" and "Weight"
    tests stated on the property's name: a boolean as true/false, a non-empty
    string as itself, a slant as italic exactly for ITALIC, an integer as hex
    after "0x" when the name mentions Color and as decimal otherwise, a weight
    as bold exactly above 100, any other double rounded to hundredths.
   */
  lemma DisplayedText(name: string, value: Value, lang: LanguageOptions)
    requires !Hidden(name, lang) && Displayable(value)
    ensures var r := GetPropertyValues(name, value, lang);
      r.Some? &&
      var shown := ShownValue(name, r.value);
      match value
      case BoolValue(b) => shown == (if b then "true" else "false")
      case StringValue(s) => shown == s
      case SlantValue(slant) => (shown == "italic" <==> slant == Italic) && (slant != Italic ==> shown == "normal")
      case LongValue(n) =>
        if Contains(name, "Color") then shown == "0x" + IntText(n, 16) else shown == IntText(n, 10)
      case DoubleValue(x) =>
        if Contains(name, "Weight") then (shown == "bold" <==> x > 100.0) && (x <= 100.0 ==> shown == "normal")
        else shown == HundredthsText(RoundHalfAway(x * 100.0))
      case ShortValue(n) => shown == IntText(n, 10)
      case OtherValue => false
  {
    assert forall c :: c in Separator ==> c == ' ';
    ContainsIgnoresPadding(name, "Color", Separator);
    ContainsIgnoresPadding(name, "Weight", Separator);
  }

  /**
    The integer shown for a `long` or `short` value reads back as that value:
    in hexadecimal after "0x" for colours, in decimal otherwise.
   */
  lemma IntegersReadBack(name: string, value: Value, lang: LanguageOptions)
    requires !Hidden(name, lang) && (value.LongValue? || value.ShortValue?)
    ensures var r := GetPropertyValues(name, value, lang);
      r.Some? &&
      var shown := ShownValue(name, r.value);
      if value.LongValue? && Contains(name, "Color") then
        |shown| >= 2 && shown[..2] == "0x" && ParseInt(shown[2..], 16) == value.n
      else
        ParseInt(shown, 10) == value.n
  {
    DisplayedText(name, value, lang);
    var shown := ShownValue(name, GetPropertyValues(name, value, lang).value);
    if value.LongValue? && Contains(name, "Color") {
      assert shown[2..] == IntText(value.n, 16);
      ParseIntText(value.n, 16);
    } else {
      ParseIntText(value.n, 10);
    }
  }

  /**
    A double that is not a weight is shown as a decimal that reads back as a
    whole number of hundredths within half a hundredth of the value.
   */
  lemma DecimalsReadBack(name: string, x: real, lang: LanguageOptions)
    requires !Hidden(name, lang) && !Contains(name, "Weight")
    ensures var r := GetPropertyValues(name, DoubleValue(x), lang);
      r.Some? &&
      var h := ParseHundredths(ShownValue(name, r.value));
      x * 100.0 - 1.0 / 2.0 <= h as real <= x * 100.0 + 1.0 / 2.0
  {
    assert forall c :: c in Separator ==> c == ' ';
    ContainsIgnoresPadding(name, "Weight", Separator);
    var line := name + Separator;
    var text := HundredthsText(RoundHalfAway(x * 100.0));
    assert GetPropertyValues(name, DoubleValue(x), lang) == Some(line + text);
    assert ShownValue(name, line + text) == text;
    ParseHundredthsText(RoundHalfAway(x * 100.0));
  }
}
