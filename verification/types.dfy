/** The formatter's options record, its defaults, and the merge of
    caller-supplied options over the defaults. */
module Types {
  import opened Absence

  /** The three border styles a rule may carry. */
  datatype Style = Solid | Dashed | NoBorder

  /** The CSS keyword a style is written as; `NoBorder` is still written out
      verbatim as "none". */
  function StyleName(s: Style): string {
    match s
    case Solid => "solid"
    case Dashed => "dashed"
    case NoBorder => "none"
  }

  /** Reads a CSS keyword back as one of the allowed styles. */
  function ParseStyle(name: string): (r: Maybe<Style>)
    ensures r.Given? <==> name in {"solid", "dashed", "none"}
    ensures r.Given? ==> StyleName(r.value) == name
  {
    if name == "solid" then Given(Solid)
    else if name == "dashed" then Given(Dashed)
    else if name == "none" then Given(NoBorder)
    else Missing
  }

  lemma StyleNameRoundTrip(s: Style)
    ensures ParseStyle(StyleName(s)) == Given(s)
  {
  }

  /** A fully resolved options record. */
  datatype FormatterOptions = FormatterOptions(
    generateToc: bool,
    centerHeaders: bool,
    addHrLines: bool,
    h1Style: Style,
    h1Thickness: string,
    h2Style: Style,
    h2Thickness: string)

  /** Options as a caller passes them: every field may be absent. */
  datatype PartialOptions = PartialOptions(
    generateToc: Maybe<bool>,
    centerHeaders: Maybe<bool>,
    addHrLines: Maybe<bool>,
    h1Style: Maybe<Style>,
    h1Thickness: Maybe<string>,
    h2Style: Maybe<Style>,
    h2Thickness: Maybe<string>)

  const DefaultOptions := FormatterOptions(true, true, true, Solid, "2px", Dashed, "1px")

  /** The empty options object `{}`. */
  const NoOptions := PartialOptions(Missing, Missing, Missing, Missing, Missing, Missing, Missing)

  /** The partial record that supplies every field of `o`. */
  function Supply(o: FormatterOptions): PartialOptions {
    PartialOptions(Given(o.generateToc), Given(o.centerHeaders), Given(o.addHrLines),
                   Given(o.h1Style), Given(o.h1Thickness), Given(o.h2Style), Given(o.h2Thickness))
  }

  /** One field of the spread: the supplied value, else the default. */
  function Spread<T>(supplied: Maybe<T>, default: T): T {
    match supplied
    case Given(v) => v
    case Missing => default
  }

  /** `{ ...defaultOptions, ...options }`: a field the caller supplies wins,
      an absent field keeps its default. */
  function Resolve(p: PartialOptions): (o: FormatterOptions)
    ensures p.generateToc.Given? ==> o.generateToc == p.generateToc.value
    ensures p.generateToc.Missing? ==> o.generateToc == DefaultOptions.generateToc
    ensures p.centerHeaders.Given? ==> o.centerHeaders == p.centerHeaders.value
    ensures p.centerHeaders.Missing? ==> o.centerHeaders == DefaultOptions.centerHeaders
    ensures p.addHrLines.Given? ==> o.addHrLines == p.addHrLines.value
    ensures p.addHrLines.Missing? ==> o.addHrLines == DefaultOptions.addHrLines
    ensures p.h1Style.Given? ==> o.h1Style == p.h1Style.value
    ensures p.h1Style.Missing? ==> o.h1Style == DefaultOptions.h1Style
    ensures p.h1Thickness.Given? ==> o.h1Thickness == p.h1Thickness.value
    ensures p.h1Thickness.Missing? ==> o.h1Thickness == DefaultOptions.h1Thickness
    ensures p.h2Style.Given? ==> o.h2Style == p.h2Style.value
    ensures p.h2Style.Missing? ==> o.h2Style == DefaultOptions.h2Style
    ensures p.h2Thickness.Given? ==> o.h2Thickness == p.h2Thickness.value
    ensures p.h2Thickness.Missing? ==> o.h2Thickness == DefaultOptions.h2Thickness
  {
    FormatterOptions(
      Spread(p.generateToc, DefaultOptions.generateToc),
      Spread(p.centerHeaders, DefaultOptions.centerHeaders),
      Spread(p.addHrLines, DefaultOptions.addHrLines),
      Spread(p.h1Style, DefaultOptions.h1Style),
      Spread(p.h1Thickness, DefaultOptions.h1Thickness),
      Spread(p.h2Style, DefaultOptions.h2Style),
      Spread(p.h2Thickness, DefaultOptions.h2Thickness))
  }

  /** The documented defaults: every switch on, h1 rules solid 2px, h2 rules
      dashed 1px. */
  lemma DefaultValues()
    ensures DefaultOptions.generateToc && DefaultOptions.centerHeaders && DefaultOptions.addHrLines
    ensures StyleName(DefaultOptions.h1Style) == "solid" && DefaultOptions.h1Thickness == "2px"
    ensures StyleName(DefaultOptions.h2Style) == "dashed" && DefaultOptions.h2Thickness == "1px"
  {
  }

  /** `new ReadmeFormatter()` and `new ReadmeFormatter({})` run with exactly
      the defaults. */
  lemma ResolveNothing()
    ensures Resolve(NoOptions) == DefaultOptions
  {
  }

  /** Supplying every field overrides every default: the merge gives back
      the caller's record unchanged. */
  lemma ResolveSupplied(o: FormatterOptions)
    ensures Resolve(Supply(o)) == o
  {
  }
}
