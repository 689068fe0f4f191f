/** The IRC renderer with its two colour-code defects repaired (see README, Findings),
    and the proof that parsing its output gives back every well-formed message whose
    adjacent spans differ in style. */
module IrcCorrected {
  import opened Bytes
  import opened Format
  import opened IrcFormat

  /** Two spans carry the same format and colours (their texts may differ). */
  predicate SameStyle(a: Span, b: Span)
  {
    a.format == b.format && a.foreground == b.foreground && a.background == b.background
  }

  /** No two neighbouring spans share a style; otherwise the renderer, which only
      writes what changed, glues their texts together. */
  ghost predicate AdjacentDistinct(fs: FormattedString)
  {
    forall i, j :: 0 <= i < j < |fs| && j == i + 1 ==> !SameStyle(fs[i], fs[j])
  }

  /** The colour code proper. It differs from the original in one case: when the
      foreground returns to Default while a background remains, the colours are first
      cleared by a bare \x03 and the background is then set again. */
  function BaseColorCode(last: Span, span: Span): seq<byte>
  {
    if span.IsZeroColor() && !last.IsZeroColor() then [ColorByte]
    else if span.foreground != last.foreground && span.foreground == Default then
      [ColorByte, ColorByte, Comma] + ColorSpecifier(span.background)
    else if span.foreground != last.foreground && span.background != last.background then
      [ColorByte] + ColorSpecifier(span.foreground) + [Comma] + ColorSpecifier(span.background)
    else if span.foreground != last.foreground then [ColorByte] + ColorSpecifier(span.foreground)
    else if span.background != last.background then [ColorByte, Comma] + ColorSpecifier(span.background)
    else []
  }

  /** The \x02\x02 guard, written after every colour code (not only the bare one) when
      the text would otherwise be read as part of the code. */
  function Guard(code: seq<byte>, text: seq<byte>): (g: seq<byte>)
    ensures g == [] || g == [BoldByte, BoldByte]
  {
    if code != [] && text != [] && !IsByteSafeAfterIncompleteColor(text[0]) then [BoldByte, BoldByte]
    else []
  }

  function CorrectedColorCodes(last: Span, span: Span): seq<byte>
  {
    BaseColorCode(last, span) + Guard(BaseColorCode(last, span), span.text)
  }

  /** One step of the corrected renderer; unlike the original it never panics. */
  function CorrectedStep(last: Span, span: Span): seq<byte>
  {
    if span.IsZeroFormat() && !last.IsZeroFormat() then [ResetByte] + span.text
    else Toggles(span.format, last.format) + (CorrectedColorCodes(last, span) + span.text)
  }

  function CorrectedFrom(last: Span, fs: FormattedString): seq<byte>
    decreases |fs|
  {
    if fs == [] then [] else CorrectedStep(last, fs[0]) + CorrectedFrom(fs[0], fs[1..])
  }

  /** The corrected `RenderIRC`. */
  function RenderCorrected(fs: FormattedString): seq<byte>
  {
    CorrectedFrom(ZeroSpan, fs)
  }

  // ---------------------------------------------------------------------------
  // How the parser reads each piece the renderer writes.

  /** The first control byte flushes the current span; after it the current text is empty. */
  lemma FlushFirst(d: seq<byte>, cur: Span, spans: seq<Span>)
    requires d != [] && IsControl(d[0])
    ensures ParseFrom(d, cur, spans) == ParseFrom(d, cur.(text := []), Flush(spans, cur))
  {
  }

  /** An optional format byte, read with an empty current text. */
  lemma ParseOptionalToggle(on: bool, c: byte, rest: seq<byte>, cur: Span, spans: seq<Span>)
    requires IsFormatByte(c) && cur.text == []
    ensures ParseFrom((if on then [c] else []) + rest, cur, spans)
         == ParseFrom(rest, if on then cur.(format := Toggled(cur.format, c)) else cur, spans)
  {
    if on {
      ParseFormatByte(c, rest, cur, spans);
    } else {
      assert [] + rest == rest;
    }
  }

  /** Applying the toggles for the bits in which two known-flag formats differ turns one
      into the other. */
  lemma ToggleBits(a: Flags, b: Flags)
    requires a <= 7 && b <= 7
    ensures var ch := a ^ b;
            var b1 := if ch & Bold != 0 then b ^ Bold else b;
            var b2 := if ch & Italic != 0 then b1 ^ Italic else b1;
            var b3 := if ch & Underline != 0 then b2 ^ Underline else b2;
            b3 == a
  {
  }

  /** The toggles are empty exactly when the formats agree. */
  lemma TogglesEmpty(a: Flags, b: Flags)
    requires a <= 7 && b <= 7
    ensures Toggles(a, b) == [] <==> a == b
  {
    var ch := a ^ b;
    if ch & Bold == 0 && ch & Italic == 0 && ch & Underline == 0 {
      assert ch == 0;
    }
  }

  /** The toggles bring the current format from `cur.format` to `a`. */
  lemma ParseToggles(a: Flags, rest: seq<byte>, cur: Span, spans: seq<Span>)
    requires a <= 7 && cur.format <= 7 && cur.text == []
    ensures ParseFrom(Toggles(a, cur.format) + rest, cur, spans) == ParseFrom(rest, cur.(format := a), spans)
  {
    var ch := a ^ cur.format;
    var tb: seq<byte> := if ch & Bold != 0 then [BoldByte] else [];
    var ti: seq<byte> := if ch & Italic != 0 then [ItalicByte] else [];
    var tu: seq<byte> := if ch & Underline != 0 then [UnderlineByte] else [];
    assert Toggles(a, cur.format) + rest == tb + (ti + (tu + rest));
    var c1 := if ch & Bold != 0 then cur.(format := cur.format ^ Bold) else cur;
    var c2 := if ch & Italic != 0 then c1.(format := c1.format ^ Italic) else c1;
    var c3 := if ch & Underline != 0 then c2.(format := c2.format ^ Underline) else c2;
    ParseOptionalToggle(ch & Bold != 0, BoldByte, ti + (tu + rest), cur, spans);
    ParseOptionalToggle(ch & Italic != 0, ItalicByte, tu + rest, c1, spans);
    ParseOptionalToggle(ch & Underline != 0, UnderlineByte, rest, c2, spans);
    ToggleBits(a, cur.format);
    assert c3 == cur.(format := a);
  }

  /** A byte that a colour code cannot swallow, or the end of the input. */
  predicate SafeStart(rest: seq<byte>)
  {
    rest == [] || IsByteSafeAfterIncompleteColor(rest[0])
  }

  /** A bare \x03 clears both colours. */
  lemma ParseBareCode(rest: seq<byte>, cur: Span, spans: seq<Span>)
    requires cur.text == [] && SafeStart(rest)
    ensures ParseFrom([ColorByte] + rest, cur, spans)
         == ParseFrom(rest, cur.(foreground := Default, background := Default), spans)
  {
    BareCodeMeaning(rest, cur);
    assert [] + rest == rest;
    ParseColorByteCleared([], rest, cur, spans);
  }

  lemma BareCodeMeaning(rest: seq<byte>, span: Span)
    requires SafeStart(rest)
    ensures ColorCodeLength([] + rest) == 0
    ensures ParseColorCode([] + rest, span).0 == span.(foreground := Default, background := Default)
  {
    assert [] + rest == rest;
    if rest != [] {
      SafeByteEndsColorCode(rest[0], rest[1..]);
      assert [rest[0]] + rest[1..] == rest;
    }
  }

  /** \x03 and a foreground sets only the foreground. */
  lemma ParseForegroundCode(fg: Color, rest: seq<byte>, cur: Span, spans: seq<Span>)
    requires fg != Default && cur.text == [] && SafeStart(rest)
    ensures ParseFrom([ColorByte] + ColorSpecifier(fg) + rest, cur, spans)
         == ParseFrom(rest, cur.(foreground := fg), spans)
  {
    var code := ColorSpecifier(fg);
    ForegroundCodeMeaning(fg, rest, cur);
    ParseColorByteCleared(code, rest, cur, spans);
    assert [ColorByte] + code + rest == [ColorByte] + (code + rest);
  }

  lemma ForegroundCodeMeaning(fg: Color, rest: seq<byte>, span: Span)
    requires fg != Default && SafeStart(rest)
    ensures ColorCodeLength(ColorSpecifier(fg) + rest) == |ColorSpecifier(fg)|
    ensures ParseColorCode(ColorSpecifier(fg) + rest, span).0 == span.(foreground := fg)
  {
    var code := ColorSpecifier(fg);
    var d := code + rest;
    assert d[..2] == code;
    assert DigitRun(d) == 2;
    assert !HasComma(d);
  }

  /** \x03, a comma and a background sets only the background. */
  lemma ParseBackgroundCode(bg: Color, rest: seq<byte>, cur: Span, spans: seq<Span>)
    requires cur.text == [] && SafeStart(rest)
    ensures ParseFrom([ColorByte, Comma] + ColorSpecifier(bg) + rest, cur, spans)
         == ParseFrom(rest, cur.(background := bg), spans)
  {
    var code := [Comma] + ColorSpecifier(bg);
    BackgroundCodeMeaning(bg, rest, cur);
    ParseColorByteCleared(code, rest, cur, spans);
    assert [ColorByte, Comma] + ColorSpecifier(bg) + rest == [ColorByte] + (code + rest);
  }

  lemma BackgroundCodeMeaning(bg: Color, rest: seq<byte>, span: Span)
    requires SafeStart(rest)
    ensures ColorCodeLength([Comma] + ColorSpecifier(bg) + rest) == 1 + |ColorSpecifier(bg)|
    ensures ParseColorCode([Comma] + ColorSpecifier(bg) + rest, span).0 == span.(background := bg)
  {
    var d := [Comma] + ColorSpecifier(bg) + rest;
    assert DigitRun(d) == 0 && HasComma(d);
    assert d[1..] == ColorSpecifier(bg) + rest;
    if bg != Default {
      assert d[1..][..2] == ColorSpecifier(bg);
    }
  }

  /** \x03 with both sides sets both colours. */
  lemma ParseBothCode(fg: Color, bg: Color, rest: seq<byte>, cur: Span, spans: seq<Span>)
    requires fg != Default && cur.text == [] && SafeStart(rest)
    ensures ParseFrom([ColorByte] + ColorSpecifier(fg) + [Comma] + ColorSpecifier(bg) + rest, cur, spans)
         == ParseFrom(rest, cur.(foreground := fg, background := bg), spans)
  {
    var code := ColorSpecifier(fg) + [Comma] + ColorSpecifier(bg);
    assert [ColorByte] + ColorSpecifier(fg) + [Comma] + ColorSpecifier(bg) + rest == [ColorByte] + (code + rest);
    ParseBothSpecifiers(fg, bg, rest, cur);
    ParseColorByteCleared(code, rest, cur, spans);
  }

  /** The guard \x02\x02 changes nothing. */
  lemma ParseGuard(rest: seq<byte>, cur: Span, spans: seq<Span>)
    requires cur.text == []
    ensures ParseFrom([BoldByte, BoldByte] + rest, cur, spans) == ParseFrom(rest, cur, spans)
  {
    assert [BoldByte, BoldByte] + rest == [BoldByte] + ([BoldByte] + rest);
    ParseToggleTwice(BoldByte, rest, cur, spans);
  }

  /** A format byte twice is no change. */
  lemma ParseToggleTwice(c: byte, rest: seq<byte>, cur: Span, spans: seq<Span>)
    requires IsFormatByte(c) && cur.text == []
    ensures ParseFrom([c] + ([c] + rest), cur, spans) == ParseFrom(rest, cur, spans)
  {
    ParseOptionalToggle(true, c, [c] + rest, cur, spans);
    ParseOptionalToggle(true, c, rest, cur.(format := Toggled(cur.format, c)), spans);
    ToggledTwice(cur.format, c);
    assert cur.(format := Toggled(Toggled(cur.format, c), c)) == cur;
  }

  lemma ToggledTwice(f: Flags, c: byte)
    requires IsFormatByte(c)
    ensures Toggled(Toggled(f, c), c) == f
  {
    var g := FlagOf(c);
    assert f ^ g ^ g == f;
  }

  /** The code without its guard, followed by a safe byte, sets exactly the colours of `span`. */
  lemma ParseBaseCode(last: Span, span: Span, rest: seq<byte>, cur: Span, spans: seq<Span>)
    requires cur.text == [] && SafeStart(rest)
    requires cur.foreground == last.foreground && cur.background == last.background
    ensures ParseFrom(BaseColorCode(last, span) + rest, cur, spans)
         == ParseFrom(rest, cur.(foreground := span.foreground, background := span.background), spans)
  {
    var target := cur.(foreground := span.foreground, background := span.background);
    var fg, bg := span.foreground, span.background;
    if span.IsZeroColor() && !last.IsZeroColor() {
      ParseBareCode(rest, cur, spans);
    } else if fg != last.foreground && fg == Default {
      var tail := [ColorByte, Comma] + ColorSpecifier(bg) + rest;
      assert BaseColorCode(last, span) + rest == [ColorByte] + tail;
      ParseBareCode(tail, cur, spans);
      var cleared := cur.(foreground := Default, background := Default);
      ParseBackgroundCode(bg, rest, cleared, spans);
      assert cleared.(background := bg) == target;
    } else if fg != last.foreground && bg != last.background {
      ParseBothCode(fg, bg, rest, cur, spans);
    } else if fg != last.foreground {
      ParseForegroundCode(fg, rest, cur, spans);
      assert cur.(foreground := fg) == target;
    } else if bg != last.background {
      ParseBackgroundCode(bg, rest, cur, spans);
      assert cur.(background := bg) == target;
    } else {
      assert [] + rest == rest;
      assert cur == target;
    }
  }

  /** The guarded colour code followed by the span's text. */
  lemma ParseColorCodes(last: Span, span: Span, more: seq<byte>, cur: Span, spans: seq<Span>)
    requires cur.text == [] && span.text != []
    requires cur.foreground == last.foreground && cur.background == last.background
    ensures ParseFrom(CorrectedColorCodes(last, span) + (span.text + more), cur, spans)
         == ParseFrom(span.text + more, cur.(foreground := span.foreground, background := span.background), spans)
  {
    var code := BaseColorCode(last, span);
    var g := Guard(code, span.text);
    var rest := span.text + more;
    assert CorrectedColorCodes(last, span) + rest == code + (g + rest);
    var target := cur.(foreground := span.foreground, background := span.background);
    if g == [] {
      assert g + rest == rest;
      if code != [] {
        assert rest[0] == span.text[0];
        ParseBaseCode(last, span, rest, cur, spans);
      } else {
        assert code + rest == rest;
        BaseColorCodeEmpty(last, span);
        assert cur == target;
      }
    } else {
      ParseBaseCode(last, span, g + rest, cur, spans);
      ParseGuard(rest, target, spans);
    }
  }

  /** The colour code is empty exactly when the colours agree. */
  lemma BaseColorCodeEmpty(last: Span, span: Span)
    ensures BaseColorCode(last, span) == [] <==>
            span.foreground == last.foreground && span.background == last.background
  {
  }

  /** Nothing is written before the text exactly when the styles agree. */
  lemma CorrectedStepIsText(last: Span, span: Span)
    requires last.format <= 7 && span.format <= 7
    ensures CorrectedStep(last, span) == span.text <==> SameStyle(last, span)
  {
    BaseColorCodeEmpty(last, span);
    TogglesEmpty(span.format, last.format);
    var codes := CorrectedColorCodes(last, span);
    if SameStyle(last, span) {
      assert codes == [];
      assert [] + ([] + span.text) == span.text;
    } else if span.IsZeroFormat() && !last.IsZeroFormat() {
      assert |CorrectedStep(last, span)| > |span.text|;
    } else {
      var t := Toggles(span.format, last.format);
      assert t != [] || BaseColorCode(last, span) != [];
      assert |CorrectedStep(last, span)| == |t| + |codes| + |span.text|;
    }
  }

  /** Parsing one step of a span whose style differs from its predecessor's. */
  lemma ParseStep(last: Span, span: Span, more: seq<byte>, spans: seq<Span>)
    requires last.format <= 7 && WellFormedSpan(span) && !SameStyle(last, span)
    ensures ParseFrom(CorrectedStep(last, span) + more, last, spans)
         == ParseFrom(more, span, Flush(spans, last))
  {
    if span.IsZeroFormat() && !last.IsZeroFormat() {
      ParseResetStep(last, span, more, spans);
    } else {
      var d := CorrectedStep(last, span) + more;
      CodedStepStartsWithControl(last, span, more);
      FlushFirst(d, last, spans);
      ParseCodedStep(last, span, more, last.(text := []), Flush(spans, last));
    }
  }

  /** A span without format after a formatted one: \x0f and the text. */
  lemma ParseResetStep(last: Span, span: Span, more: seq<byte>, spans: seq<Span>)
    requires WellFormedSpan(span) && span.IsZeroFormat() && !last.IsZeroFormat()
    ensures ParseFrom(CorrectedStep(last, span) + more, last, spans)
         == ParseFrom(more, span, Flush(spans, last))
  {
    assert CorrectedStep(last, span) + more == [ResetByte] + (span.text + more);
    ParseResetByte(span.text + more, last, spans);
    ParseTextFromEmpty(span.text, more, ZeroSpan, Flush(spans, last));
  }

  /** Otherwise a differing style makes the step start with a control byte. */
  lemma CodedStepStartsWithControl(last: Span, span: Span, more: seq<byte>)
    requires last.format <= 7 && WellFormedSpan(span) && !SameStyle(last, span)
    requires !(span.IsZeroFormat() && !last.IsZeroFormat())
    ensures var d := CorrectedStep(last, span) + more; d != [] && IsControl(d[0])
  {
    var step := CorrectedStep(last, span);
    StepHeadIsControl(last, span);
    assert (step + more)[0] == step[0];
  }

  lemma StepHeadIsControl(last: Span, span: Span)
    requires last.format <= 7 && span.format <= 7 && !SameStyle(last, span)
    requires !(span.IsZeroFormat() && !last.IsZeroFormat())
    ensures CorrectedStep(last, span) != [] && IsControl(CorrectedStep(last, span)[0])
  {
    var t := Toggles(span.format, last.format);
    var codes := CorrectedColorCodes(last, span);
    assert CorrectedStep(last, span) == t + (codes + span.text);
    TogglesEmpty(span.format, last.format);
    if t == [] {
      CodesHeadIsColor(last, span);
    }
  }

  lemma CodesHeadIsColor(last: Span, span: Span)
    requires span.foreground != last.foreground || span.background != last.background
    ensures CorrectedColorCodes(last, span) != [] && CorrectedColorCodes(last, span)[0] == ColorByte
  {
    BaseColorCodeEmpty(last, span);
    var code := BaseColorCode(last, span);
    assert code[0] == ColorByte;
    assert (code + Guard(code, span.text))[0] == code[0];
  }

  /** The toggles, the colour code and the text, read from the flushed state. */
  lemma ParseCodedStep(last: Span, span: Span, more: seq<byte>, cleared: Span, spans: seq<Span>)
    requires last.format <= 7 && WellFormedSpan(span)
    requires !(span.IsZeroFormat() && !last.IsZeroFormat())
    requires cleared == last.(text := [])
    ensures ParseFrom(CorrectedStep(last, span) + more, cleared, spans) == ParseFrom(more, span, spans)
  {
    var codes := CorrectedColorCodes(last, span);
    assert CorrectedStep(last, span) + more
        == Toggles(span.format, last.format) + (codes + (span.text + more));
    ParseToggles(span.format, codes + (span.text + more), cleared, spans);
    ParseCodesThenText(last, span, more, cleared.(format := span.format), spans);
  }

  /** The colour code and the text, read once the format is in place. */
  lemma ParseCodesThenText(last: Span, span: Span, more: seq<byte>, cur: Span, spans: seq<Span>)
    requires WellFormedSpan(span) && cur.text == [] && cur.format == span.format
    requires cur.foreground == last.foreground && cur.background == last.background
    ensures ParseFrom(CorrectedColorCodes(last, span) + (span.text + more), cur, spans)
         == ParseFrom(more, span, spans)
  {
    ParseColorCodes(last, span, more, cur, spans);
    var colored := cur.(foreground := span.foreground, background := span.background);
    ParseTextFromEmpty(span.text, more, colored, spans);
    assert colored.(text := span.text) == span;
  }

  /** The round-trip conditions pass from a message to its tail. */
  lemma TailConditions(fs: FormattedString)
    requires fs != [] && AllWellFormed(fs) && AdjacentDistinct(fs)
    ensures AllWellFormed(fs[1..]) && AdjacentDistinct(fs[1..])
    ensures fs[1..] == [] || !SameStyle(fs[0], fs[1..][0])
  {
    assert AllWellFormed(fs[1..]) by {
      forall k | 0 <= k < |fs[1..]| ensures WellFormedSpan(fs[1..][k]) {
        assert fs[1..][k] == fs[k + 1];
      }
    }
    assert AdjacentDistinct(fs[1..]) by {
      forall i, j | 0 <= i < j < |fs[1..]| && j == i + 1 ensures !SameStyle(fs[1..][i], fs[1..][j]) {
        assert fs[1..][i] == fs[i + 1] && fs[1..][j] == fs[j + 1];
      }
    }
    if fs[1..] != [] {
      assert fs[1..][0] == fs[1];
    }
  }

  /** Parsing what the corrected renderer writes after `last` yields the spans back. */
  lemma {:induction false} RoundTripFrom(last: Span, fs: FormattedString, spans: seq<Span>)
    requires last.format <= 7 && AllWellFormed(fs) && AdjacentDistinct(fs)
    requires fs == [] || last.text == [] || !SameStyle(last, fs[0])
    ensures ParseFrom(CorrectedFrom(last, fs), last, spans) == Flush(spans, last) + fs
    decreases |fs|
  {
    if fs == [] {
      assert Flush(spans, last) + [] == Flush(spans, last);
    } else {
      TailConditions(fs);
      RoundTripFrom(fs[0], fs[1..], Carried(spans, last, fs[0]));
      RoundTripStep(last, fs, spans);
    }
  }

  /** The spans emitted once `span` has been parsed after `last`: `last` is flushed
      unless `span` merely continues it. */
  function Carried(spans: seq<Span>, last: Span, span: Span): seq<Span>
  {
    if SameStyle(last, span) then spans else Flush(spans, last)
  }

  /** The inductive step of `RoundTripFrom`, given the claim for the tail. */
  lemma RoundTripStep(last: Span, fs: FormattedString, spans: seq<Span>)
    requires fs != [] && last.format <= 7 && WellFormedSpan(fs[0])
    requires last.text == [] || !SameStyle(last, fs[0])
    requires ParseFrom(CorrectedFrom(fs[0], fs[1..]), fs[0], Carried(spans, last, fs[0]))
          == Flush(Carried(spans, last, fs[0]), fs[0]) + fs[1..]
    ensures ParseFrom(CorrectedFrom(last, fs), last, spans) == Flush(spans, last) + fs
  {
    ParseFirstSpan(last, fs, spans);
    FlushCons(Carried(spans, last, fs[0]), fs[0], fs[1..]);
    assert [fs[0]] + fs[1..] == fs;
    if SameStyle(last, fs[0]) {
      assert Flush(spans, last) == spans;
    }
  }

  lemma FlushCons(spans: seq<Span>, span: Span, tail: seq<Span>)
    requires span.text != []
    ensures Flush(spans, span) + tail == spans + ([span] + tail)
  {
  }

  /** Parsing the rendering of `fs` after `last` reaches the state after its first span. */
  lemma ParseFirstSpan(last: Span, fs: FormattedString, spans: seq<Span>)
    requires fs != [] && last.format <= 7 && WellFormedSpan(fs[0])
    requires last.text == [] || !SameStyle(last, fs[0])
    ensures ParseFrom(CorrectedFrom(last, fs), last, spans)
         == ParseFrom(CorrectedFrom(fs[0], fs[1..]), fs[0], Carried(spans, last, fs[0]))
  {
    CorrectedFromCons(last, fs);
    StepThenText(last, fs[0], CorrectedFrom(fs[0], fs[1..]), spans);
  }

  lemma CorrectedFromCons(last: Span, fs: FormattedString)
    requires fs != []
    ensures CorrectedFrom(last, fs) == CorrectedStep(last, fs[0]) + CorrectedFrom(fs[0], fs[1..])
  {
  }

  /** Parsing one rendered span: the text extends an empty current span of the same
      style, or else the codes flush the previous span and the text starts a new one. */
  lemma StepThenText(last: Span, span: Span, more: seq<byte>, spans: seq<Span>)
    requires last.format <= 7 && WellFormedSpan(span)
    requires last.text == [] || !SameStyle(last, span)
    ensures ParseFrom(CorrectedStep(last, span) + more, last, spans)
         == ParseFrom(more, span, Carried(spans, last, span))
  {
    if SameStyle(last, span) {
      CorrectedStepIsText(last, span);
      ParseTextFromEmpty(span.text, more, last, spans);
      assert last.(text := span.text) == span;
    } else {
      ParseStep(last, span, more, spans);
    }
  }

  /** The corrected renderer and the parser are inverse on every message the parser
      could have produced with no two neighbouring spans alike. */
  lemma RoundTrip(fs: FormattedString)
    requires AllWellFormed(fs) && AdjacentDistinct(fs)
    ensures Parse(RenderCorrected(fs)) == fs
  {
    RoundTripFrom(ZeroSpan, fs, []);
    assert [] + fs == fs;
  }

  /** With `ParseIRC` as written, which re-encodes text bytes from 0x80 on, the same round
      trip holds exactly for messages whose texts are ASCII. */
  lemma RoundTripAsWritten(fs: FormattedString)
    requires AllWellFormed(fs) && AdjacentDistinct(fs)
    ensures ReencodeSpans(Parse(RenderCorrected(fs))) == fs <==> AsciiTexts(fs)
  {
    RoundTrip(fs);
    ReencodeSpansIdentity(fs);
  }

  /** Conversely, only well-formed messages can survive the round trip. */
  lemma RoundTripNeedsWellFormed(fs: FormattedString)
    requires Parse(RenderCorrected(fs)) == fs
    ensures AllWellFormed(fs)
  {
    ParseWellFormed(RenderCorrected(fs));
  }
}
