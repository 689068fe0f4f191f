/** The platform-neutral rich-text model (format/format.go): a message is a sequence of
    spans, each with a text, a set of format flags and two colours. */
module Format {
  import opened Bytes

  /** The format bit-set. Go declares it as `int`; 64 bits keep every value it can hold. */
  type Flags = bv64

  const None: Flags := 0
  const Bold: Flags := 1
  const Italic: Flags := 2
  const Underline: Flags := 4

  /** The three flags a rendered or parsed span can carry. */
  predicate IsFlag(f: Flags) { f == Bold || f == Italic || f == Underline }

  /** A colour is the IRC palette index plus one, so that 0 is the medium's default.
      Parsing an IRC colour code yields at most 99 + 1. */
  type Color = c: int | 0 <= c <= 100

  const Default: Color := 0
  const White: Color := 1
  const Black: Color := 2
  const Blue: Color := 3
  const Green: Color := 4
  const BrightRed: Color := 5
  const Red: Color := 6
  const Magenta: Color := 7
  const DarkYellow: Color := 8
  const Yellow: Color := 9
  const BrightGreen: Color := 10
  const Cyan: Color := 11
  const BrightCyan: Color := 12
  const BrightBlue: Color := 13
  const BrightMagenta: Color := 14
  const Grey: Color := 15
  const LightGrey: Color := 16
  const Gray: Color := Grey
  const LightGray: Color := LightGrey

  /** The named colours in declaration order. */
  const Named: seq<Color> := [White, Black, Blue, Green, BrightRed, Red, Magenta, DarkYellow,
                              Yellow, BrightGreen, Cyan, BrightCyan, BrightBlue, BrightMagenta,
                              Grey, LightGrey]

  /** A piece of text with a single format. */
  datatype Span = Span(text: seq<byte>, format: Flags, foreground: Color, background: Color)
  {
    /** The span has no formatting at all. */
    predicate IsZeroFormat()
    {
      format == None && foreground == Default && background == Default
    }

    /** The span has no colour. */
    predicate IsZeroColor()
    {
      foreground == Default && background == Default
    }
  }

  /** A message made of spans. */
  type FormattedString = seq<Span>

  /** Go's zero `Span`. */
  const ZeroSpan: Span := Span([], None, Default, Default)

  /** The texts of the spans, concatenated in order: the plain message. */
  function Texts(fs: FormattedString): (r: seq<byte>)
    ensures fs == [] ==> r == []
    ensures |fs| > 0 ==> |r| >= |fs[0].text|
  {
    if fs == [] then [] else fs[0].text + Texts(fs[1..])
  }

  lemma {:induction false} TextsAppend(a: FormattedString, b: FormattedString)
    ensures Texts(a + b) == Texts(a) + Texts(b)
    decreases |a|
  {
    if a == [] {
      assert a + b == b;
    } else {
      assert (a + b)[0] == a[0];
      assert (a + b)[1..] == a[1..] + b;
      TextsAppend(a[1..], b);
    }
  }

  /** The three flags are distinct single bits, so toggling one leaves the others alone. */
  lemma FlagsAreBits(f: Flags, g: Flags, h: Flags)
    requires IsFlag(g) && IsFlag(h) && g != h
    ensures g & h == None && g != None
    ensures (f ^ g) & h == f & h
    ensures (f ^ g) & g != f & g
    ensures f ^ g ^ g == f
  {
  }

  /** Each named colour is its IRC number plus one: White is IRC 0, LightGrey is IRC 15. */
  lemma NamedColorsOffsetByOne()
    ensures |Named| == 16
    ensures forall i :: 0 <= i < |Named| ==> Named[i] == i + 1
    ensures Gray == Grey && LightGray == LightGrey
  {
  }

  /** `IsZeroFormat` is "no format and no colour"; in particular it implies `IsZeroColor`. */
  lemma ZeroFormatIsNoFormatNoColor(s: Span)
    ensures s.IsZeroFormat() <==> s.format == None && s.IsZeroColor()
    ensures s.IsZeroFormat() ==> s.IsZeroColor()
  {
  }

  /** The zero span has no formatting. */
  lemma ZeroSpanHasNoFormat()
    ensures ZeroSpan.IsZeroFormat() && ZeroSpan.IsZeroColor() && ZeroSpan.text == []
  {
  }
}
