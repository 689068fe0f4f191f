/** The concrete cases of format/irc_test.go, proved about the model of format/irc.go.
    Each raw IRC line is written as its bytes; the Go literal is given above each lemma. */
module IrcVectors {
  import opened Bytes
  import opened Format
  import opened IrcFormat

  const Foo: seq<byte> := [0x66, 0x6F, 0x6F]        // "foo"
  const Bar: seq<byte> := [0x62, 0x61, 0x72]        // "bar"
  const Baz: seq<byte> := [0x62, 0x61, 0x7A]        // "baz"
  const OneBar: seq<byte> := [0x31, 0x62, 0x61, 0x72]   // "1bar"
  /** "ΨΩΔ" in UTF-8. */
  const Greek: seq<byte> := [0xCE, 0xA8, 0xCE, 0xA9, 0xCE, 0x94]
  /** "ΨΩΔ" with every byte written as `string(c)`. */
  const GreekReencoded: seq<byte> :=
    [0xC3, 0x8E, 0xC2, 0xA8, 0xC3, 0x8E, 0xC2, 0xA9, 0xC3, 0x8E, 0xC2, 0x94]
  /** "02,01": foreground IRC 2 (Blue), background IRC 1 (Black). */
  const BlueOnBlack: seq<byte> := [0x30, 0x32, 0x2C, 0x30, 0x31]

  const AllFlags: Flags := Bold | Italic | Underline

  // ---------------------------------------------------------------------------
  // One parser step each, with the resulting state passed in, so that a vector's
  // proof is a chain of small equations.

  lemma FormatStep(c: byte, rest: seq<byte>, current: Span, spans: seq<Span>, next: Span, spans': seq<Span>)
    requires IsFormatByte(c)
    requires next == Span([], Toggled(current.format, c), current.foreground, current.background)
    requires spans' == Flush(spans, current)
    ensures ParseFrom([c] + rest, current, spans) == ParseFrom(rest, next, spans')
  {
    ParseFormatByte(c, rest, current, spans);
  }

  lemma ResetStep(rest: seq<byte>, current: Span, spans: seq<Span>, spans': seq<Span>)
    requires spans' == Flush(spans, current)
    ensures ParseFrom([ResetByte] + rest, current, spans) == ParseFrom(rest, ZeroSpan, spans')
  {
    ParseResetByte(rest, current, spans);
  }

  /** A colour code followed by byte `b`, which cannot continue it: what the parser
      does depends on the code and `b` only. */
  lemma ColorStep(code: seq<byte>, b: byte, rest: seq<byte>, current: Span, spans: seq<Span>, next: Span, spans': seq<Span>)
    requires rest != [] && rest[0] == b && IsByteSafeAfterIncompleteColor(b)
    requires ColorCodeLength(code + [b]) == |code|
    requires ParseColorCode(code + [b], current.(text := [])).0 == next
    requires spans' == Flush(spans, current)
    ensures ParseFrom([ColorByte] + (code + rest), current, spans) == ParseFrom(rest, next, spans')
  {
    assert rest[..1] == [b];
    SafeLookahead(code, rest, current.(text := []));
    var d := [ColorByte] + (code + rest);
    assert d[1..] == code + rest;
    assert d[1 + |code|..] == rest;
    ParseFromControl(d, current, spans);
  }

  /** The colour code cannot reach past a byte that is neither a digit nor a comma. */
  lemma SafeLookahead(code: seq<byte>, rest: seq<byte>, span: Span)
    requires rest != [] && IsByteSafeAfterIncompleteColor(rest[0])
    ensures ParseColorCode(code + rest, span) == ParseColorCode(code + rest[..1], span)
  {
    var d1, d2 := code + rest, code + rest[..1];
    assert forall k :: 0 <= k <= |code| ==> d1[k] == d2[k];
    assert DigitRun(d1) == DigitRun(d2);
    if HasComma(d1) {
      var n1 := DigitRun(d1);
      assert DigitRun(d1[n1 + 1..]) == DigitRun(d2[n1 + 1..]);
    }
  }

  lemma TextStep(t: seq<byte>, rest: seq<byte>, current: Span, spans: seq<Span>)
    requires NoControls(t) && current.text == []
    ensures ParseFrom(t + rest, current, spans) == ParseFrom(rest, current.(text := t), spans)
  {
    ParseTextFromEmpty(t, rest, current, spans);
  }

  /** One renderer step for a span that is not a reset: toggles, colour codes, text. */
  lemma RenderCodedSpan(last: Span, span: Span, rest: FormattedString, toggles: seq<byte>, codes: seq<byte>)
    requires !(span.IsZeroFormat() && !last.IsZeroFormat())
    requires Toggles(span.format, last.format) == toggles
    requires ColorCodes(last, span) == Done(codes)
    ensures RenderFrom(last, [span] + rest) == Prepend(toggles + (codes + span.text), RenderFrom(span, rest))
  {
    assert ([span] + rest)[0] == span;
    assert ([span] + rest)[1..] == rest;
  }

  /** One renderer step for a span that drops all formatting: \x0f and the text. */
  lemma RenderResetSpan(last: Span, span: Span, rest: FormattedString)
    requires span.IsZeroFormat() && !last.IsZeroFormat()
    ensures RenderFrom(last, [span] + rest) == Prepend([ResetByte] + span.text, RenderFrom(span, rest))
  {
    assert ([span] + rest)[0] == span;
    assert ([span] + rest)[1..] == rest;
  }

  // ---------------------------------------------------------------------------
  // TestParseIRC (format/irc_test.go:10-64). Each vector is proved from a second lemma
  // that takes the successive tails of the line as parameters, one step per token.

  /** "" parses to no spans. */
  lemma ParseEmptyLine()
    ensures Parse([]) == []
  {
  }

  /** "foo" */
  lemma ParsePlainText()
    ensures Parse([0x66, 0x6F, 0x6F])
         == [Span(Foo, None, Default, Default)]
  {
    var r0 := Foo + [];
    assert [0x66, 0x6F, 0x6F] == r0;
    ParsePlainTextFrom(r0);
  }

  lemma ParsePlainTextFrom(r0: seq<byte>)
    requires r0 == Foo + []
    ensures ParseFrom(r0, ZeroSpan, []) == [Span(Foo, None, Default, Default)]
  {
    calc {
      ParseFrom(r0, ZeroSpan, []);
      { TextStep(Foo, [], ZeroSpan, []); }
      ParseFrom([], Span(Foo, None, Default, Default), []);
    }
  }

  /** "\x0302,01foo" */
  lemma ParseBothColors()
    ensures Parse([0x03, 0x30, 0x32, 0x2C, 0x30, 0x31, 0x66, 0x6F, 0x6F])
         == [Span(Foo, None, Blue, Black)]
  {
    var r1 := Foo + [];
    var r0 := [ColorByte] + ([0x30, 0x32, 0x2C, 0x30, 0x31] + r1);
    assert [0x03, 0x30, 0x32, 0x2C, 0x30, 0x31, 0x66, 0x6F, 0x6F] == r0;
    ParseBothColorsFrom(r0, r1);
  }

  lemma ParseBothColorsFrom(r0: seq<byte>, r1: seq<byte>)
    requires r0 == [ColorByte] + ([0x30, 0x32, 0x2C, 0x30, 0x31] + r1) && r1 == Foo + []
    ensures ParseFrom(r0, ZeroSpan, []) == [Span(Foo, None, Blue, Black)]
  {
    calc {
      ParseFrom(r0, ZeroSpan, []);
      { ColorStep([0x30, 0x32, 0x2C, 0x30, 0x31], 0x66, r1, ZeroSpan, [], Span([], None, Blue, Black), []); }
      ParseFrom(r1, Span([], None, Blue, Black), []);
      { TextStep(Foo, [], Span([], None, Blue, Black), []); }
      ParseFrom([], Span(Foo, None, Blue, Black), []);
    }
  }

  /** "\x0302,01foo\x03,bar": an empty background after the comma clears only the background. */
  lemma ParseBackgroundCleared()
    ensures Parse([0x03, 0x30, 0x32, 0x2C, 0x30, 0x31, 0x66, 0x6F, 0x6F, 0x03, 0x2C, 0x62, 0x61, 0x72])
         == [Span(Foo, None, Blue, Black), Span(Bar, None, Blue, Default)]
  {
    var r3 := Bar + [];
    var r2 := [ColorByte] + ([0x2C] + r3);
    var r1 := Foo + r2;
    var r0 := [ColorByte] + ([0x30, 0x32, 0x2C, 0x30, 0x31] + r1);
    assert [0x03, 0x30, 0x32, 0x2C, 0x30, 0x31, 0x66, 0x6F, 0x6F, 0x03, 0x2C, 0x62, 0x61, 0x72] == r0;
    ParseBackgroundClearedFrom(r0, r1, r2, r3);
  }

  lemma ParseBackgroundClearedFrom(r0: seq<byte>, r1: seq<byte>, r2: seq<byte>, r3: seq<byte>)
    requires r0 == [ColorByte] + ([0x30, 0x32, 0x2C, 0x30, 0x31] + r1) && r1 == Foo + r2 && r2 == [ColorByte] + ([0x2C] + r3)
    requires r3 == Bar + []
    ensures ParseFrom(r0, ZeroSpan, []) == [Span(Foo, None, Blue, Black), Span(Bar, None, Blue, Default)]
  {
    calc {
      ParseFrom(r0, ZeroSpan, []);
      { ColorStep([0x30, 0x32, 0x2C, 0x30, 0x31], 0x66, r1, ZeroSpan, [], Span([], None, Blue, Black), []); }
      ParseFrom(r1, Span([], None, Blue, Black), []);
      { TextStep(Foo, r2, Span([], None, Blue, Black), []); }
      ParseFrom(r2, Span(Foo, None, Blue, Black), []);
      { ColorStep([0x2C], 0x62, r3, Span(Foo, None, Blue, Black), [], Span([], None, Blue, Default), [Span(Foo, None, Blue, Black)]); }
      ParseFrom(r3, Span([], None, Blue, Default), [Span(Foo, None, Blue, Black)]);
      { TextStep(Bar, [], Span([], None, Blue, Default), [Span(Foo, None, Blue, Black)]); }
      ParseFrom([], Span(Bar, None, Blue, Default), [Span(Foo, None, Blue, Black)]);
    }
  }

  /** "\x0302,01foo\x03bar": a bare \x03 clears both colours. */
  lemma ParseBareColor()
    ensures Parse([0x03, 0x30, 0x32, 0x2C, 0x30, 0x31, 0x66, 0x6F, 0x6F, 0x03, 0x62, 0x61, 0x72])
         == [Span(Foo, None, Blue, Black), Span(Bar, None, Default, Default)]
  {
    var r3 := Bar + [];
    var r2 := [ColorByte] + ([] + r3);
    var r1 := Foo + r2;
    var r0 := [ColorByte] + ([0x30, 0x32, 0x2C, 0x30, 0x31] + r1);
    assert [0x03, 0x30, 0x32, 0x2C, 0x30, 0x31, 0x66, 0x6F, 0x6F, 0x03, 0x62, 0x61, 0x72] == r0;
    ParseBareColorFrom(r0, r1, r2, r3);
  }

  lemma ParseBareColorFrom(r0: seq<byte>, r1: seq<byte>, r2: seq<byte>, r3: seq<byte>)
    requires r0 == [ColorByte] + ([0x30, 0x32, 0x2C, 0x30, 0x31] + r1) && r1 == Foo + r2 && r2 == [ColorByte] + ([] + r3)
    requires r3 == Bar + []
    ensures ParseFrom(r0, ZeroSpan, []) == [Span(Foo, None, Blue, Black), Span(Bar, None, Default, Default)]
  {
    calc {
      ParseFrom(r0, ZeroSpan, []);
      { ColorStep([0x30, 0x32, 0x2C, 0x30, 0x31], 0x66, r1, ZeroSpan, [], Span([], None, Blue, Black), []); }
      ParseFrom(r1, Span([], None, Blue, Black), []);
      { TextStep(Foo, r2, Span([], None, Blue, Black), []); }
      ParseFrom(r2, Span(Foo, None, Blue, Black), []);
      { ColorStep([], 0x62, r3, Span(Foo, None, Blue, Black), [], ZeroSpan, [Span(Foo, None, Blue, Black)]); }
      ParseFrom(r3, ZeroSpan, [Span(Foo, None, Blue, Black)]);
      { TextStep(Bar, [], ZeroSpan, [Span(Foo, None, Blue, Black)]); }
      ParseFrom([], Span(Bar, None, Default, Default), [Span(Foo, None, Blue, Black)]);
    }
  }

  /** "\x0302,01foo\x0301bar": a foreground alone keeps the background. */
  lemma ParseForegroundOnly()
    ensures Parse([0x03, 0x30, 0x32, 0x2C, 0x30, 0x31, 0x66, 0x6F, 0x6F, 0x03, 0x30, 0x31, 0x62, 0x61, 0x72])
         == [Span(Foo, None, Blue, Black), Span(Bar, None, Black, Black)]
  {
    var r3 := Bar + [];
    var r2 := [ColorByte] + ([0x30, 0x31] + r3);
    var r1 := Foo + r2;
    var r0 := [ColorByte] + ([0x30, 0x32, 0x2C, 0x30, 0x31] + r1);
    assert [0x03, 0x30, 0x32, 0x2C, 0x30, 0x31, 0x66, 0x6F, 0x6F, 0x03, 0x30, 0x31, 0x62, 0x61, 0x72] == r0;
    ParseForegroundOnlyFrom(r0, r1, r2, r3);
  }

  lemma ParseForegroundOnlyFrom(r0: seq<byte>, r1: seq<byte>, r2: seq<byte>, r3: seq<byte>)
    requires r0 == [ColorByte] + ([0x30, 0x32, 0x2C, 0x30, 0x31] + r1) && r1 == Foo + r2 && r2 == [ColorByte] + ([0x30, 0x31] + r3)
    requires r3 == Bar + []
    ensures ParseFrom(r0, ZeroSpan, []) == [Span(Foo, None, Blue, Black), Span(Bar, None, Black, Black)]
  {
    calc {
      ParseFrom(r0, ZeroSpan, []);
      { ColorStep([0x30, 0x32, 0x2C, 0x30, 0x31], 0x66, r1, ZeroSpan, [], Span([], None, Blue, Black), []); }
      ParseFrom(r1, Span([], None, Blue, Black), []);
      { TextStep(Foo, r2, Span([], None, Blue, Black), []); }
      ParseFrom(r2, Span(Foo, None, Blue, Black), []);
      { ColorStep([0x30, 0x31], 0x62, r3, Span(Foo, None, Blue, Black), [], Span([], None, Black, Black), [Span(Foo, None, Blue, Black)]); }
      ParseFrom(r3, Span([], None, Black, Black), [Span(Foo, None, Blue, Black)]);
      { TextStep(Bar, [], Span([], None, Black, Black), [Span(Foo, None, Blue, Black)]); }
      ParseFrom([], Span(Bar, None, Black, Black), [Span(Foo, None, Blue, Black)]);
    }
  }

  /** "\x0302,01foo\x03,02bar": a background alone keeps the foreground. */
  lemma ParseBackgroundOnly()
    ensures Parse([0x03, 0x30, 0x32, 0x2C, 0x30, 0x31, 0x66, 0x6F, 0x6F, 0x03, 0x2C, 0x30, 0x32, 0x62, 0x61, 0x72])
         == [Span(Foo, None, Blue, Black), Span(Bar, None, Blue, Blue)]
  {
    var r3 := Bar + [];
    var r2 := [ColorByte] + ([0x2C, 0x30, 0x32] + r3);
    var r1 := Foo + r2;
    var r0 := [ColorByte] + ([0x30, 0x32, 0x2C, 0x30, 0x31] + r1);
    assert [0x03, 0x30, 0x32, 0x2C, 0x30, 0x31, 0x66, 0x6F, 0x6F, 0x03, 0x2C, 0x30, 0x32, 0x62, 0x61, 0x72] == r0;
    ParseBackgroundOnlyFrom(r0, r1, r2, r3);
  }

  lemma ParseBackgroundOnlyFrom(r0: seq<byte>, r1: seq<byte>, r2: seq<byte>, r3: seq<byte>)
    requires r0 == [ColorByte] + ([0x30, 0x32, 0x2C, 0x30, 0x31] + r1) && r1 == Foo + r2 && r2 == [ColorByte] + ([0x2C, 0x30, 0x32] + r3)
    requires r3 == Bar + []
    ensures ParseFrom(r0, ZeroSpan, []) == [Span(Foo, None, Blue, Black), Span(Bar, None, Blue, Blue)]
  {
    calc {
      ParseFrom(r0, ZeroSpan, []);
      { ColorStep([0x30, 0x32, 0x2C, 0x30, 0x31], 0x66, r1, ZeroSpan, [], Span([], None, Blue, Black), []); }
      ParseFrom(r1, Span([], None, Blue, Black), []);
      { TextStep(Foo, r2, Span([], None, Blue, Black), []); }
      ParseFrom(r2, Span(Foo, None, Blue, Black), []);
      { ColorStep([0x2C, 0x30, 0x32], 0x62, r3, Span(Foo, None, Blue, Black), [], Span([], None, Blue, Blue), [Span(Foo, None, Blue, Black)]); }
      ParseFrom(r3, Span([], None, Blue, Blue), [Span(Foo, None, Blue, Black)]);
      { TextStep(Bar, [], Span([], None, Blue, Blue), [Span(Foo, None, Blue, Black)]); }
      ParseFrom([], Span(Bar, None, Blue, Blue), [Span(Foo, None, Blue, Black)]);
    }
  }

  /** "\x02foo\x02bar\x02baz": each \x02 toggles bold. */
  lemma ParseBoldToggles()
    ensures Parse([0x02, 0x66, 0x6F, 0x6F, 0x02, 0x62, 0x61, 0x72, 0x02, 0x62, 0x61, 0x7A])
         == [Span(Foo, Bold, Default, Default), Span(Bar, None, Default, Default), Span(Baz, Bold, Default, Default)]
  {
    var r5 := Baz + [];
    var r4 := [BoldByte] + r5;
    var r3 := Bar + r4;
    var r2 := [BoldByte] + r3;
    var r1 := Foo + r2;
    var r0 := [BoldByte] + r1;
    assert [0x02, 0x66, 0x6F, 0x6F, 0x02, 0x62, 0x61, 0x72, 0x02, 0x62, 0x61, 0x7A] == r0;
    ParseBoldTogglesFrom(r0, r1, r2, r3, r4, r5);
  }

  lemma ParseBoldTogglesFrom(r0: seq<byte>, r1: seq<byte>, r2: seq<byte>, r3: seq<byte>, r4: seq<byte>, r5: seq<byte>)
    requires r0 == [BoldByte] + r1 && r1 == Foo + r2 && r2 == [BoldByte] + r3
    requires r3 == Bar + r4 && r4 == [BoldByte] + r5 && r5 == Baz + []
    ensures ParseFrom(r0, ZeroSpan, []) == [Span(Foo, Bold, Default, Default), Span(Bar, None, Default, Default), Span(Baz, Bold, Default, Default)]
  {
    calc {
      ParseFrom(r0, ZeroSpan, []);
      { FormatStep(BoldByte, r1, ZeroSpan, [], Span([], Bold, Default, Default), []); }
      ParseFrom(r1, Span([], Bold, Default, Default), []);
      { TextStep(Foo, r2, Span([], Bold, Default, Default), []); }
      ParseFrom(r2, Span(Foo, Bold, Default, Default), []);
      { FormatStep(BoldByte, r3, Span(Foo, Bold, Default, Default), [], ZeroSpan, [Span(Foo, Bold, Default, Default)]); }
      ParseFrom(r3, ZeroSpan, [Span(Foo, Bold, Default, Default)]);
      { TextStep(Bar, r4, ZeroSpan, [Span(Foo, Bold, Default, Default)]); }
      ParseFrom(r4, Span(Bar, None, Default, Default), [Span(Foo, Bold, Default, Default)]);
      { FormatStep(BoldByte, r5, Span(Bar, None, Default, Default), [Span(Foo, Bold, Default, Default)], Span([], Bold, Default, Default), [Span(Foo, Bold, Default, Default), Span(Bar, None, Default, Default)]); }
      ParseFrom(r5, Span([], Bold, Default, Default), [Span(Foo, Bold, Default, Default), Span(Bar, None, Default, Default)]);
      { TextStep(Baz, [], Span([], Bold, Default, Default), [Span(Foo, Bold, Default, Default), Span(Bar, None, Default, Default)]); }
      ParseFrom([], Span(Baz, Bold, Default, Default), [Span(Foo, Bold, Default, Default), Span(Bar, None, Default, Default)]);
    }
  }

  /** "\x1f\x02\x1dfoo\x0fbar": the three flags accumulate and \x0f clears them. */
  lemma ParseAllFlagsThenReset()
    ensures Parse([0x1F, 0x02, 0x1D, 0x66, 0x6F, 0x6F, 0x0F, 0x62, 0x61, 0x72])
         == [Span(Foo, AllFlags, Default, Default), Span(Bar, None, Default, Default)]
  {
    var r5 := Bar + [];
    var r4 := [ResetByte] + r5;
    var r3 := Foo + r4;
    var r2 := [ItalicByte] + r3;
    var r1 := [BoldByte] + r2;
    var r0 := [UnderlineByte] + r1;
    assert [0x1F, 0x02, 0x1D, 0x66, 0x6F, 0x6F, 0x0F, 0x62, 0x61, 0x72] == r0;
    ParseAllFlagsThenResetFrom(r0, r1, r2, r3, r4, r5);
  }

  lemma ParseAllFlagsThenResetFrom(r0: seq<byte>, r1: seq<byte>, r2: seq<byte>, r3: seq<byte>, r4: seq<byte>, r5: seq<byte>)
    requires r0 == [UnderlineByte] + r1 && r1 == [BoldByte] + r2 && r2 == [ItalicByte] + r3
    requires r3 == Foo + r4 && r4 == [ResetByte] + r5 && r5 == Bar + []
    ensures ParseFrom(r0, ZeroSpan, []) == [Span(Foo, AllFlags, Default, Default), Span(Bar, None, Default, Default)]
  {
    calc {
      ParseFrom(r0, ZeroSpan, []);
      { FormatStep(UnderlineByte, r1, ZeroSpan, [], Span([], Underline, Default, Default), []); }
      ParseFrom(r1, Span([], Underline, Default, Default), []);
      { FormatStep(BoldByte, r2, Span([], Underline, Default, Default), [], Span([], Bold | Underline, Default, Default), []); }
      ParseFrom(r2, Span([], Bold | Underline, Default, Default), []);
      { FormatStep(ItalicByte, r3, Span([], Bold | Underline, Default, Default), [], Span([], AllFlags, Default, Default), []); }
      ParseFrom(r3, Span([], AllFlags, Default, Default), []);
      { TextStep(Foo, r4, Span([], AllFlags, Default, Default), []); }
      ParseFrom(r4, Span(Foo, AllFlags, Default, Default), []);
      { ResetStep(r5, Span(Foo, AllFlags, Default, Default), [], [Span(Foo, AllFlags, Default, Default)]); }
      ParseFrom(r5, ZeroSpan, [Span(Foo, AllFlags, Default, Default)]);
      { TextStep(Bar, [], ZeroSpan, [Span(Foo, AllFlags, Default, Default)]); }
      ParseFrom([], Span(Bar, None, Default, Default), [Span(Foo, AllFlags, Default, Default)]);
    }
  }

  /** "\x1f\x02\x1d\x032,1foo\x0fbar": one-digit colours; \x0f clears flags and colours. */
  lemma ParseAllFlagsColorsThenReset()
    ensures Parse([0x1F, 0x02, 0x1D, 0x03, 0x32, 0x2C, 0x31, 0x66, 0x6F, 0x6F, 0x0F, 0x62, 0x61, 0x72])
         == [Span(Foo, AllFlags, Blue, Black), Span(Bar, None, Default, Default)]
  {
    var r6 := Bar + [];
    var r5 := [ResetByte] + r6;
    var r4 := Foo + r5;
    var r3 := [ColorByte] + ([0x32, 0x2C, 0x31] + r4);
    var r2 := [ItalicByte] + r3;
    var r1 := [BoldByte] + r2;
    var r0 := [UnderlineByte] + r1;
    assert [0x1F, 0x02, 0x1D, 0x03, 0x32, 0x2C, 0x31, 0x66, 0x6F, 0x6F, 0x0F, 0x62, 0x61, 0x72] == r0;
    ParseAllFlagsColorsThenResetFrom(r0, r1, r2, r3, r4, r5, r6);
  }

  lemma ParseAllFlagsColorsThenResetFrom(r0: seq<byte>, r1: seq<byte>, r2: seq<byte>, r3: seq<byte>, r4: seq<byte>, r5: seq<byte>, r6: seq<byte>)
    requires r0 == [UnderlineByte] + r1 && r1 == [BoldByte] + r2 && r2 == [ItalicByte] + r3
    requires r3 == [ColorByte] + ([0x32, 0x2C, 0x31] + r4) && r4 == Foo + r5 && r5 == [ResetByte] + r6
    requires r6 == Bar + []
    ensures ParseFrom(r0, ZeroSpan, []) == [Span(Foo, AllFlags, Blue, Black), Span(Bar, None, Default, Default)]
  {
    calc {
      ParseFrom(r0, ZeroSpan, []);
      { FormatStep(UnderlineByte, r1, ZeroSpan, [], Span([], Underline, Default, Default), []); }
      ParseFrom(r1, Span([], Underline, Default, Default), []);
      { FormatStep(BoldByte, r2, Span([], Underline, Default, Default), [], Span([], Bold | Underline, Default, Default), []); }
      ParseFrom(r2, Span([], Bold | Underline, Default, Default), []);
      { FormatStep(ItalicByte, r3, Span([], Bold | Underline, Default, Default), [], Span([], AllFlags, Default, Default), []); }
      ParseFrom(r3, Span([], AllFlags, Default, Default), []);
      { ColorStep([0x32, 0x2C, 0x31], 0x66, r4, Span([], AllFlags, Default, Default), [], Span([], AllFlags, Blue, Black), []); }
      ParseFrom(r4, Span([], AllFlags, Blue, Black), []);
      { TextStep(Foo, r5, Span([], AllFlags, Blue, Black), []); }
      ParseFrom(r5, Span(Foo, AllFlags, Blue, Black), []);
      { ResetStep(r6, Span(Foo, AllFlags, Blue, Black), [], [Span(Foo, AllFlags, Blue, Black)]); }
      ParseFrom(r6, ZeroSpan, [Span(Foo, AllFlags, Blue, Black)]);
      { TextStep(Bar, [], ZeroSpan, [Span(Foo, AllFlags, Blue, Black)]); }
      ParseFrom([], Span(Bar, None, Default, Default), [Span(Foo, AllFlags, Blue, Black)]);
    }
  }

  /** "\x1f\x02\x1d\x032,1foo\x03bar": a bare \x03 clears the colours and keeps the flags. */
  lemma ParseAllFlagsColorsThenBareColor()
    ensures Parse([0x1F, 0x02, 0x1D, 0x03, 0x32, 0x2C, 0x31, 0x66, 0x6F, 0x6F, 0x03, 0x62, 0x61, 0x72])
         == [Span(Foo, AllFlags, Blue, Black), Span(Bar, AllFlags, Default, Default)]
  {
    var r6 := Bar + [];
    var r5 := [ColorByte] + ([] + r6);
    var r4 := Foo + r5;
    var r3 := [ColorByte] + ([0x32, 0x2C, 0x31] + r4);
    var r2 := [ItalicByte] + r3;
    var r1 := [BoldByte] + r2;
    var r0 := [UnderlineByte] + r1;
    assert [0x1F, 0x02, 0x1D, 0x03, 0x32, 0x2C, 0x31, 0x66, 0x6F, 0x6F, 0x03, 0x62, 0x61, 0x72] == r0;
    ParseAllFlagsColorsThenBareColorFrom(r0, r1, r2, r3, r4, r5, r6);
  }

  lemma ParseAllFlagsColorsThenBareColorFrom(r0: seq<byte>, r1: seq<byte>, r2: seq<byte>, r3: seq<byte>, r4: seq<byte>, r5: seq<byte>, r6: seq<byte>)
    requires r0 == [UnderlineByte] + r1 && r1 == [BoldByte] + r2 && r2 == [ItalicByte] + r3
    requires r3 == [ColorByte] + ([0x32, 0x2C, 0x31] + r4) && r4 == Foo + r5 && r5 == [ColorByte] + ([] + r6)
    requires r6 == Bar + []
    ensures ParseFrom(r0, ZeroSpan, []) == [Span(Foo, AllFlags, Blue, Black), Span(Bar, AllFlags, Default, Default)]
  {
    calc {
      ParseFrom(r0, ZeroSpan, []);
      { FormatStep(UnderlineByte, r1, ZeroSpan, [], Span([], Underline, Default, Default), []); }
      ParseFrom(r1, Span([], Underline, Default, Default), []);
      { FormatStep(BoldByte, r2, Span([], Underline, Default, Default), [], Span([], Bold | Underline, Default, Default), []); }
      ParseFrom(r2, Span([], Bold | Underline, Default, Default), []);
      { FormatStep(ItalicByte, r3, Span([], Bold | Underline, Default, Default), [], Span([], AllFlags, Default, Default), []); }
      ParseFrom(r3, Span([], AllFlags, Default, Default), []);
      { ColorStep([0x32, 0x2C, 0x31], 0x66, r4, Span([], AllFlags, Default, Default), [], Span([], AllFlags, Blue, Black), []); }
      ParseFrom(r4, Span([], AllFlags, Blue, Black), []);
      { TextStep(Foo, r5, Span([], AllFlags, Blue, Black), []); }
      ParseFrom(r5, Span(Foo, AllFlags, Blue, Black), []);
      { ColorStep([], 0x62, r6, Span(Foo, AllFlags, Blue, Black), [], Span([], AllFlags, Default, Default), [Span(Foo, AllFlags, Blue, Black)]); }
      ParseFrom(r6, Span([], AllFlags, Default, Default), [Span(Foo, AllFlags, Blue, Black)]);
      { TextStep(Bar, [], Span([], AllFlags, Default, Default), [Span(Foo, AllFlags, Blue, Black)]); }
      ParseFrom([], Span(Bar, AllFlags, Default, Default), [Span(Foo, AllFlags, Blue, Black)]);
    }
  }

  /** "ΨΩΔ": the byte-copying parse keeps multi-byte text byte by byte, as the test expects. */
  lemma ParseMultiByteText()
    ensures Parse([0xCE, 0xA8, 0xCE, 0xA9, 0xCE, 0x94])
         == [Span(Greek, None, Default, Default)]
  {
    var r0 := Greek + [];
    assert [0xCE, 0xA8, 0xCE, 0xA9, 0xCE, 0x94] == r0;
    ParseMultiByteTextFrom(r0);
  }

  lemma ParseMultiByteTextFrom(r0: seq<byte>)
    requires r0 == Greek + []
    ensures ParseFrom(r0, ZeroSpan, []) == [Span(Greek, None, Default, Default)]
  {
    calc {
      ParseFrom(r0, ZeroSpan, []);
      { TextStep(Greek, [], ZeroSpan, []); }
      ParseFrom([], Span(Greek, None, Default, Default), []);
    }
  }

  /** "ΨΩΔ" through `ParseIRC` as written: each of the six bytes, all from 0x80 on, comes
      out as the two-byte encoding of that code point, so the span does not hold "ΨΩΔ" as
      the test expects. */
  lemma ParseMultiByteTextAsWritten()
    ensures ReencodeSpans(Parse([0xCE, 0xA8, 0xCE, 0xA9, 0xCE, 0x94]))
         == [Span(GreekReencoded, None, Default, Default)]
    ensures ReencodeSpans(Parse([0xCE, 0xA8, 0xCE, 0xA9, 0xCE, 0x94]))
         != [Span(Greek, None, Default, Default)]
  {
    ParseMultiByteText();
    GreekPairs();
  }

  lemma GreekPairs()
    ensures Reencode(Greek) == GreekReencoded
  {
    var t := Greek;
    assert RuneBytes(0xCE) == [0xC3, 0x8E];
    assert RuneBytes(0xA8) == [0xC2, 0xA8];
    assert RuneBytes(0xA9) == [0xC2, 0xA9];
    assert RuneBytes(0x94) == [0xC2, 0x94];
    assert Reencode(t[5..]) == [0xC2, 0x94];
    assert Reencode(t[4..]) == [0xC3, 0x8E, 0xC2, 0x94];
    assert Reencode(t[3..]) == [0xC2, 0xA9, 0xC3, 0x8E, 0xC2, 0x94];
    assert Reencode(t[2..]) == [0xC3, 0x8E, 0xC2, 0xA9, 0xC3, 0x8E, 0xC2, 0x94];
    assert Reencode(t[1..]) == [0xC2, 0xA8, 0xC3, 0x8E, 0xC2, 0xA9, 0xC3, 0x8E, 0xC2, 0x94];
  }

  // ---------------------------------------------------------------------------
  // The raw lines of TestRenderIRC (format/irc_test.go:66-127) that TestParseIRC does not
  // already have, parsed back: the round-trip half of that test.

  /** "\x0302,01foo\x0fbar" */
  lemma ParseColorsThenReset()
    ensures Parse([0x03, 0x30, 0x32, 0x2C, 0x30, 0x31, 0x66, 0x6F, 0x6F, 0x0F, 0x62, 0x61, 0x72])
         == [Span(Foo, None, Blue, Black), Span(Bar, None, Default, Default)]
  {
    var r3 := Bar + [];
    var r2 := [ResetByte] + r3;
    var r1 := Foo + r2;
    var r0 := [ColorByte] + ([0x30, 0x32, 0x2C, 0x30, 0x31] + r1);
    assert [0x03, 0x30, 0x32, 0x2C, 0x30, 0x31, 0x66, 0x6F, 0x6F, 0x0F, 0x62, 0x61, 0x72] == r0;
    ParseColorsThenResetFrom(r0, r1, r2, r3);
  }

  lemma ParseColorsThenResetFrom(r0: seq<byte>, r1: seq<byte>, r2: seq<byte>, r3: seq<byte>)
    requires r0 == [ColorByte] + ([0x30, 0x32, 0x2C, 0x30, 0x31] + r1) && r1 == Foo + r2 && r2 == [ResetByte] + r3
    requires r3 == Bar + []
    ensures ParseFrom(r0, ZeroSpan, []) == [Span(Foo, None, Blue, Black), Span(Bar, None, Default, Default)]
  {
    calc {
      ParseFrom(r0, ZeroSpan, []);
      { ColorStep([0x30, 0x32, 0x2C, 0x30, 0x31], 0x66, r1, ZeroSpan, [], Span([], None, Blue, Black), []); }
      ParseFrom(r1, Span([], None, Blue, Black), []);
      { TextStep(Foo, r2, Span([], None, Blue, Black), []); }
      ParseFrom(r2, Span(Foo, None, Blue, Black), []);
      { ResetStep(r3, Span(Foo, None, Blue, Black), [], [Span(Foo, None, Blue, Black)]); }
      ParseFrom(r3, ZeroSpan, [Span(Foo, None, Blue, Black)]);
      { TextStep(Bar, [], ZeroSpan, [Span(Foo, None, Blue, Black)]); }
      ParseFrom([], Span(Bar, None, Default, Default), [Span(Foo, None, Blue, Black)]);
    }
  }

  /** "\x02foo\x0fbar\x02baz" */
  lemma ParseBoldResetBold()
    ensures Parse([0x02, 0x66, 0x6F, 0x6F, 0x0F, 0x62, 0x61, 0x72, 0x02, 0x62, 0x61, 0x7A])
         == [Span(Foo, Bold, Default, Default), Span(Bar, None, Default, Default), Span(Baz, Bold, Default, Default)]
  {
    var r5 := Baz + [];
    var r4 := [BoldByte] + r5;
    var r3 := Bar + r4;
    var r2 := [ResetByte] + r3;
    var r1 := Foo + r2;
    var r0 := [BoldByte] + r1;
    assert [0x02, 0x66, 0x6F, 0x6F, 0x0F, 0x62, 0x61, 0x72, 0x02, 0x62, 0x61, 0x7A] == r0;
    ParseBoldResetBoldFrom(r0, r1, r2, r3, r4, r5);
  }

  lemma ParseBoldResetBoldFrom(r0: seq<byte>, r1: seq<byte>, r2: seq<byte>, r3: seq<byte>, r4: seq<byte>, r5: seq<byte>)
    requires r0 == [BoldByte] + r1 && r1 == Foo + r2 && r2 == [ResetByte] + r3
    requires r3 == Bar + r4 && r4 == [BoldByte] + r5 && r5 == Baz + []
    ensures ParseFrom(r0, ZeroSpan, []) == [Span(Foo, Bold, Default, Default), Span(Bar, None, Default, Default), Span(Baz, Bold, Default, Default)]
  {
    calc {
      ParseFrom(r0, ZeroSpan, []);
      { FormatStep(BoldByte, r1, ZeroSpan, [], Span([], Bold, Default, Default), []); }
      ParseFrom(r1, Span([], Bold, Default, Default), []);
      { TextStep(Foo, r2, Span([], Bold, Default, Default), []); }
      ParseFrom(r2, Span(Foo, Bold, Default, Default), []);
      { ResetStep(r3, Span(Foo, Bold, Default, Default), [], [Span(Foo, Bold, Default, Default)]); }
      ParseFrom(r3, ZeroSpan, [Span(Foo, Bold, Default, Default)]);
      { TextStep(Bar, r4, ZeroSpan, [Span(Foo, Bold, Default, Default)]); }
      ParseFrom(r4, Span(Bar, None, Default, Default), [Span(Foo, Bold, Default, Default)]);
      { FormatStep(BoldByte, r5, Span(Bar, None, Default, Default), [Span(Foo, Bold, Default, Default)], Span([], Bold, Default, Default), [Span(Foo, Bold, Default, Default), Span(Bar, None, Default, Default)]); }
      ParseFrom(r5, Span([], Bold, Default, Default), [Span(Foo, Bold, Default, Default), Span(Bar, None, Default, Default)]);
      { TextStep(Baz, [], Span([], Bold, Default, Default), [Span(Foo, Bold, Default, Default), Span(Bar, None, Default, Default)]); }
      ParseFrom([], Span(Baz, Bold, Default, Default), [Span(Foo, Bold, Default, Default), Span(Bar, None, Default, Default)]);
    }
  }

  /** "\x02\x1d\x1ffoo\x0fbar": the toggles in the order the renderer writes them. */
  lemma ParseRenderedFlagsThenReset()
    ensures Parse([0x02, 0x1D, 0x1F, 0x66, 0x6F, 0x6F, 0x0F, 0x62, 0x61, 0x72])
         == [Span(Foo, AllFlags, Default, Default), Span(Bar, None, Default, Default)]
  {
    var r5 := Bar + [];
    var r4 := [ResetByte] + r5;
    var r3 := Foo + r4;
    var r2 := [UnderlineByte] + r3;
    var r1 := [ItalicByte] + r2;
    var r0 := [BoldByte] + r1;
    assert [0x02, 0x1D, 0x1F, 0x66, 0x6F, 0x6F, 0x0F, 0x62, 0x61, 0x72] == r0;
    ParseRenderedFlagsThenResetFrom(r0, r1, r2, r3, r4, r5);
  }

  lemma ParseRenderedFlagsThenResetFrom(r0: seq<byte>, r1: seq<byte>, r2: seq<byte>, r3: seq<byte>, r4: seq<byte>, r5: seq<byte>)
    requires r0 == [BoldByte] + r1 && r1 == [ItalicByte] + r2 && r2 == [UnderlineByte] + r3
    requires r3 == Foo + r4 && r4 == [ResetByte] + r5 && r5 == Bar + []
    ensures ParseFrom(r0, ZeroSpan, []) == [Span(Foo, AllFlags, Default, Default), Span(Bar, None, Default, Default)]
  {
    calc {
      ParseFrom(r0, ZeroSpan, []);
      { FormatStep(BoldByte, r1, ZeroSpan, [], Span([], Bold, Default, Default), []); }
      ParseFrom(r1, Span([], Bold, Default, Default), []);
      { FormatStep(ItalicByte, r2, Span([], Bold, Default, Default), [], Span([], Bold | Italic, Default, Default), []); }
      ParseFrom(r2, Span([], Bold | Italic, Default, Default), []);
      { FormatStep(UnderlineByte, r3, Span([], Bold | Italic, Default, Default), [], Span([], AllFlags, Default, Default), []); }
      ParseFrom(r3, Span([], AllFlags, Default, Default), []);
      { TextStep(Foo, r4, Span([], AllFlags, Default, Default), []); }
      ParseFrom(r4, Span(Foo, AllFlags, Default, Default), []);
      { ResetStep(r5, Span(Foo, AllFlags, Default, Default), [], [Span(Foo, AllFlags, Default, Default)]); }
      ParseFrom(r5, ZeroSpan, [Span(Foo, AllFlags, Default, Default)]);
      { TextStep(Bar, [], ZeroSpan, [Span(Foo, AllFlags, Default, Default)]); }
      ParseFrom([], Span(Bar, None, Default, Default), [Span(Foo, AllFlags, Default, Default)]);
    }
  }

  /** "\x02\x1d\x1f\x0302,01foo\x0fbar" */
  lemma ParseRenderedFlagsColorsThenReset()
    ensures Parse([0x02, 0x1D, 0x1F, 0x03, 0x30, 0x32, 0x2C, 0x30, 0x31, 0x66, 0x6F, 0x6F, 0x0F, 0x62, 0x61, 0x72])
         == [Span(Foo, AllFlags, Blue, Black), Span(Bar, None, Default, Default)]
  {
    var r6 := Bar + [];
    var r5 := [ResetByte] + r6;
    var r4 := Foo + r5;
    var r3 := [ColorByte] + ([0x30, 0x32, 0x2C, 0x30, 0x31] + r4);
    var r2 := [UnderlineByte] + r3;
    var r1 := [ItalicByte] + r2;
    var r0 := [BoldByte] + r1;
    assert [0x02, 0x1D, 0x1F, 0x03, 0x30, 0x32, 0x2C, 0x30, 0x31, 0x66, 0x6F, 0x6F, 0x0F, 0x62, 0x61, 0x72] == r0;
    ParseRenderedFlagsColorsThenResetFrom(r0, r1, r2, r3, r4, r5, r6);
  }

  lemma ParseRenderedFlagsColorsThenResetFrom(r0: seq<byte>, r1: seq<byte>, r2: seq<byte>, r3: seq<byte>, r4: seq<byte>, r5: seq<byte>, r6: seq<byte>)
    requires r0 == [BoldByte] + r1 && r1 == [ItalicByte] + r2 && r2 == [UnderlineByte] + r3
    requires r3 == [ColorByte] + ([0x30, 0x32, 0x2C, 0x30, 0x31] + r4) && r4 == Foo + r5 && r5 == [ResetByte] + r6
    requires r6 == Bar + []
    ensures ParseFrom(r0, ZeroSpan, []) == [Span(Foo, AllFlags, Blue, Black), Span(Bar, None, Default, Default)]
  {
    calc {
      ParseFrom(r0, ZeroSpan, []);
      { FormatStep(BoldByte, r1, ZeroSpan, [], Span([], Bold, Default, Default), []); }
      ParseFrom(r1, Span([], Bold, Default, Default), []);
      { FormatStep(ItalicByte, r2, Span([], Bold, Default, Default), [], Span([], Bold | Italic, Default, Default), []); }
      ParseFrom(r2, Span([], Bold | Italic, Default, Default), []);
      { FormatStep(UnderlineByte, r3, Span([], Bold | Italic, Default, Default), [], Span([], AllFlags, Default, Default), []); }
      ParseFrom(r3, Span([], AllFlags, Default, Default), []);
      { ColorStep([0x30, 0x32, 0x2C, 0x30, 0x31], 0x66, r4, Span([], AllFlags, Default, Default), [], Span([], AllFlags, Blue, Black), []); }
      ParseFrom(r4, Span([], AllFlags, Blue, Black), []);
      { TextStep(Foo, r5, Span([], AllFlags, Blue, Black), []); }
      ParseFrom(r5, Span(Foo, AllFlags, Blue, Black), []);
      { ResetStep(r6, Span(Foo, AllFlags, Blue, Black), [], [Span(Foo, AllFlags, Blue, Black)]); }
      ParseFrom(r6, ZeroSpan, [Span(Foo, AllFlags, Blue, Black)]);
      { TextStep(Bar, [], ZeroSpan, [Span(Foo, AllFlags, Blue, Black)]); }
      ParseFrom([], Span(Bar, None, Default, Default), [Span(Foo, AllFlags, Blue, Black)]);
    }
  }

  /** "\x02\x1d\x1f\x0302,01foo\x03bar" */
  lemma ParseRenderedFlagsColorsThenBareColor()
    ensures Parse([0x02, 0x1D, 0x1F, 0x03, 0x30, 0x32, 0x2C, 0x30, 0x31, 0x66, 0x6F, 0x6F, 0x03, 0x62, 0x61, 0x72])
         == [Span(Foo, AllFlags, Blue, Black), Span(Bar, AllFlags, Default, Default)]
  {
    var r6 := Bar + [];
    var r5 := [ColorByte] + ([] + r6);
    var r4 := Foo + r5;
    var r3 := [ColorByte] + ([0x30, 0x32, 0x2C, 0x30, 0x31] + r4);
    var r2 := [UnderlineByte] + r3;
    var r1 := [ItalicByte] + r2;
    var r0 := [BoldByte] + r1;
    assert [0x02, 0x1D, 0x1F, 0x03, 0x30, 0x32, 0x2C, 0x30, 0x31, 0x66, 0x6F, 0x6F, 0x03, 0x62, 0x61, 0x72] == r0;
    ParseRenderedFlagsColorsThenBareColorFrom(r0, r1, r2, r3, r4, r5, r6);
  }

  lemma ParseRenderedFlagsColorsThenBareColorFrom(r0: seq<byte>, r1: seq<byte>, r2: seq<byte>, r3: seq<byte>, r4: seq<byte>, r5: seq<byte>, r6: seq<byte>)
    requires r0 == [BoldByte] + r1 && r1 == [ItalicByte] + r2 && r2 == [UnderlineByte] + r3
    requires r3 == [ColorByte] + ([0x30, 0x32, 0x2C, 0x30, 0x31] + r4) && r4 == Foo + r5 && r5 == [ColorByte] + ([] + r6)
    requires r6 == Bar + []
    ensures ParseFrom(r0, ZeroSpan, []) == [Span(Foo, AllFlags, Blue, Black), Span(Bar, AllFlags, Default, Default)]
  {
    calc {
      ParseFrom(r0, ZeroSpan, []);
      { FormatStep(BoldByte, r1, ZeroSpan, [], Span([], Bold, Default, Default), []); }
      ParseFrom(r1, Span([], Bold, Default, Default), []);
      { FormatStep(ItalicByte, r2, Span([], Bold, Default, Default), [], Span([], Bold | Italic, Default, Default), []); }
      ParseFrom(r2, Span([], Bold | Italic, Default, Default), []);
      { FormatStep(UnderlineByte, r3, Span([], Bold | Italic, Default, Default), [], Span([], AllFlags, Default, Default), []); }
      ParseFrom(r3, Span([], AllFlags, Default, Default), []);
      { ColorStep([0x30, 0x32, 0x2C, 0x30, 0x31], 0x66, r4, Span([], AllFlags, Default, Default), [], Span([], AllFlags, Blue, Black), []); }
      ParseFrom(r4, Span([], AllFlags, Blue, Black), []);
      { TextStep(Foo, r5, Span([], AllFlags, Blue, Black), []); }
      ParseFrom(r5, Span(Foo, AllFlags, Blue, Black), []);
      { ColorStep([], 0x62, r6, Span(Foo, AllFlags, Blue, Black), [], Span([], AllFlags, Default, Default), [Span(Foo, AllFlags, Blue, Black)]); }
      ParseFrom(r6, Span([], AllFlags, Default, Default), [Span(Foo, AllFlags, Blue, Black)]);
      { TextStep(Bar, [], Span([], AllFlags, Default, Default), [Span(Foo, AllFlags, Blue, Black)]); }
      ParseFrom([], Span(Bar, AllFlags, Default, Default), [Span(Foo, AllFlags, Blue, Black)]);
    }
  }

  /** "\x02\x0302,01foo\x03\x02\x021bar": the \x02\x02 guard keeps "1" out of the colour code. */
  lemma ParseGuardedDigit()
    ensures Parse([0x02, 0x03, 0x30, 0x32, 0x2C, 0x30, 0x31, 0x66, 0x6F, 0x6F, 0x03, 0x02, 0x02, 0x31, 0x62, 0x61, 0x72])
         == [Span(Foo, Bold, Blue, Black), Span(OneBar, Bold, Default, Default)]
  {
    var r6 := OneBar + [];
    var r5 := [BoldByte] + r6;
    var r4 := [BoldByte] + r5;
    var r3 := [ColorByte] + ([] + r4);
    var r2 := Foo + r3;
    var r1 := [ColorByte] + ([0x30, 0x32, 0x2C, 0x30, 0x31] + r2);
    var r0 := [BoldByte] + r1;
    assert [0x02, 0x03, 0x30, 0x32, 0x2C, 0x30, 0x31, 0x66, 0x6F, 0x6F, 0x03, 0x02, 0x02, 0x31, 0x62, 0x61, 0x72] == r0;
    ParseGuardedDigitFrom(r0, r1, r2, r3, r4, r5, r6);
  }

  lemma ParseGuardedDigitFrom(r0: seq<byte>, r1: seq<byte>, r2: seq<byte>, r3: seq<byte>, r4: seq<byte>, r5: seq<byte>, r6: seq<byte>)
    requires r0 == [BoldByte] + r1 && r1 == [ColorByte] + ([0x30, 0x32, 0x2C, 0x30, 0x31] + r2) && r2 == Foo + r3
    requires r3 == [ColorByte] + ([] + r4) && r4 == [BoldByte] + r5 && r5 == [BoldByte] + r6
    requires r6 == OneBar + []
    ensures ParseFrom(r0, ZeroSpan, []) == [Span(Foo, Bold, Blue, Black), Span(OneBar, Bold, Default, Default)]
  {
    calc {
      ParseFrom(r0, ZeroSpan, []);
      { FormatStep(BoldByte, r1, ZeroSpan, [], Span([], Bold, Default, Default), []); }
      ParseFrom(r1, Span([], Bold, Default, Default), []);
      { ColorStep([0x30, 0x32, 0x2C, 0x30, 0x31], 0x66, r2, Span([], Bold, Default, Default), [], Span([], Bold, Blue, Black), []); }
      ParseFrom(r2, Span([], Bold, Blue, Black), []);
      { TextStep(Foo, r3, Span([], Bold, Blue, Black), []); }
      ParseFrom(r3, Span(Foo, Bold, Blue, Black), []);
      { ColorStep([], 0x02, r4, Span(Foo, Bold, Blue, Black), [], Span([], Bold, Default, Default), [Span(Foo, Bold, Blue, Black)]); }
      ParseFrom(r4, Span([], Bold, Default, Default), [Span(Foo, Bold, Blue, Black)]);
      { FormatStep(BoldByte, r5, Span([], Bold, Default, Default), [Span(Foo, Bold, Blue, Black)], ZeroSpan, [Span(Foo, Bold, Blue, Black)]); }
      ParseFrom(r5, ZeroSpan, [Span(Foo, Bold, Blue, Black)]);
      { FormatStep(BoldByte, r6, ZeroSpan, [Span(Foo, Bold, Blue, Black)], Span([], Bold, Default, Default), [Span(Foo, Bold, Blue, Black)]); }
      ParseFrom(r6, Span([], Bold, Default, Default), [Span(Foo, Bold, Blue, Black)]);
      { TextStep(OneBar, [], Span([], Bold, Default, Default), [Span(Foo, Bold, Blue, Black)]); }
      ParseFrom([], Span(OneBar, Bold, Default, Default), [Span(Foo, Bold, Blue, Black)]);
    }
  }

  // ---------------------------------------------------------------------------
  // TestRenderIRC (format/irc_test.go:66-127): each structured message renders to its raw
  // line, and that line parses back to the message.

  /** No spans render to "". */
  lemma RenderEmpty()
    ensures Render([]) == Done([]) && Parse([]) == []
  {
    ParseEmptyLine();
  }

  /** "foo" */
  lemma RenderPlainText()
    ensures Render([Span(Foo, None, Default, Default)])
         == Done([0x66, 0x6F, 0x6F])
    ensures Parse([0x66, 0x6F, 0x6F]) == [Span(Foo, None, Default, Default)]
  {
    var s0 := Span(Foo, None, Default, Default);
    calc {
      Render([s0]);
      { assert [s0] == [s0] + []; }
      RenderFrom(ZeroSpan, [s0] + []);
      { RenderCodedSpan(ZeroSpan, s0, [], [], []); }
      Prepend([] + (([]) + Foo), RenderFrom(s0, []));
      Done(([] + (([]) + Foo)) + ([]));
      { assert ([] + (([]) + Foo)) + ([]) == [0x66, 0x6F, 0x6F]; }
      Done([0x66, 0x6F, 0x6F]);
    }
    ParsePlainText();
  }

  /** "\x0302,01foo" */
  lemma RenderBothColors()
    ensures Render([Span(Foo, None, Blue, Black)])
         == Done([0x03, 0x30, 0x32, 0x2C, 0x30, 0x31, 0x66, 0x6F, 0x6F])
    ensures Parse([0x03, 0x30, 0x32, 0x2C, 0x30, 0x31, 0x66, 0x6F, 0x6F]) == [Span(Foo, None, Blue, Black)]
  {
    var s0 := Span(Foo, None, Blue, Black);
    calc {
      Render([s0]);
      { assert [s0] == [s0] + []; }
      RenderFrom(ZeroSpan, [s0] + []);
      { RenderCodedSpan(ZeroSpan, s0, [], [], [ColorByte] + ColorSpecifier(Blue) + [Comma] + ColorSpecifier(Black)); }
      Prepend([] + (([ColorByte] + ColorSpecifier(Blue) + [Comma] + ColorSpecifier(Black)) + Foo), RenderFrom(s0, []));
      Done(([] + (([ColorByte] + ColorSpecifier(Blue) + [Comma] + ColorSpecifier(Black)) + Foo)) + ([]));
      { assert ColorSpecifier(Black) == [0x30, 0x31] && ColorSpecifier(Blue) == [0x30, 0x32]; assert ([] + (([ColorByte] + ColorSpecifier(Blue) + [Comma] + ColorSpecifier(Black)) + Foo)) + ([]) == [0x03, 0x30, 0x32, 0x2C, 0x30, 0x31, 0x66, 0x6F, 0x6F]; }
      Done([0x03, 0x30, 0x32, 0x2C, 0x30, 0x31, 0x66, 0x6F, 0x6F]);
    }
    ParseBothColors();
  }

  /** "\x0302,01foo\x03,bar" */
  lemma RenderBackgroundCleared()
    ensures Render([Span(Foo, None, Blue, Black), Span(Bar, None, Blue, Default)])
         == Done([0x03, 0x30, 0x32, 0x2C, 0x30, 0x31, 0x66, 0x6F, 0x6F, 0x03, 0x2C, 0x62, 0x61, 0x72])
    ensures Parse([0x03, 0x30, 0x32, 0x2C, 0x30, 0x31, 0x66, 0x6F, 0x6F, 0x03, 0x2C, 0x62, 0x61, 0x72]) == [Span(Foo, None, Blue, Black), Span(Bar, None, Blue, Default)]
  {
    var s0, s1 := Span(Foo, None, Blue, Black), Span(Bar, None, Blue, Default);
    calc {
      Render([s0, s1]);
      { assert [s0, s1] == [s0] + ([s1] + []); }
      RenderFrom(ZeroSpan, [s0] + ([s1] + []));
      { RenderCodedSpan(ZeroSpan, s0, [s1] + [], [], [ColorByte] + ColorSpecifier(Blue) + [Comma] + ColorSpecifier(Black)); }
      Prepend([] + (([ColorByte] + ColorSpecifier(Blue) + [Comma] + ColorSpecifier(Black)) + Foo), RenderFrom(s0, [s1] + []));
      { RenderCodedSpan(s0, s1, [], [], [ColorByte, Comma] + ColorSpecifier(Default)); }
      Prepend([] + (([ColorByte] + ColorSpecifier(Blue) + [Comma] + ColorSpecifier(Black)) + Foo), Prepend([] + (([ColorByte, Comma] + ColorSpecifier(Default)) + Bar), RenderFrom(s1, [])));
      Done(([] + (([ColorByte] + ColorSpecifier(Blue) + [Comma] + ColorSpecifier(Black)) + Foo)) + (([] + (([ColorByte, Comma] + ColorSpecifier(Default)) + Bar)) + ([])));
      { assert ColorSpecifier(Black) == [0x30, 0x31] && ColorSpecifier(Blue) == [0x30, 0x32]; assert ([] + (([ColorByte] + ColorSpecifier(Blue) + [Comma] + ColorSpecifier(Black)) + Foo)) + (([] + (([ColorByte, Comma] + ColorSpecifier(Default)) + Bar)) + ([])) == [0x03, 0x30, 0x32, 0x2C, 0x30, 0x31, 0x66, 0x6F, 0x6F, 0x03, 0x2C, 0x62, 0x61, 0x72]; }
      Done([0x03, 0x30, 0x32, 0x2C, 0x30, 0x31, 0x66, 0x6F, 0x6F, 0x03, 0x2C, 0x62, 0x61, 0x72]);
    }
    ParseBackgroundCleared();
  }

  /** "\x0302,01foo\x0fbar" */
  lemma RenderColorsThenReset()
    ensures Render([Span(Foo, None, Blue, Black), Span(Bar, None, Default, Default)])
         == Done([0x03, 0x30, 0x32, 0x2C, 0x30, 0x31, 0x66, 0x6F, 0x6F, 0x0F, 0x62, 0x61, 0x72])
    ensures Parse([0x03, 0x30, 0x32, 0x2C, 0x30, 0x31, 0x66, 0x6F, 0x6F, 0x0F, 0x62, 0x61, 0x72]) == [Span(Foo, None, Blue, Black), Span(Bar, None, Default, Default)]
  {
    var s0, s1 := Span(Foo, None, Blue, Black), Span(Bar, None, Default, Default);
    calc {
      Render([s0, s1]);
      { assert [s0, s1] == [s0] + ([s1] + []); }
      RenderFrom(ZeroSpan, [s0] + ([s1] + []));
      { RenderCodedSpan(ZeroSpan, s0, [s1] + [], [], [ColorByte] + ColorSpecifier(Blue) + [Comma] + ColorSpecifier(Black)); }
      Prepend([] + (([ColorByte] + ColorSpecifier(Blue) + [Comma] + ColorSpecifier(Black)) + Foo), RenderFrom(s0, [s1] + []));
      { RenderResetSpan(s0, s1, []); }
      Prepend([] + (([ColorByte] + ColorSpecifier(Blue) + [Comma] + ColorSpecifier(Black)) + Foo), Prepend([ResetByte] + Bar, RenderFrom(s1, [])));
      Done(([] + (([ColorByte] + ColorSpecifier(Blue) + [Comma] + ColorSpecifier(Black)) + Foo)) + (([ResetByte] + Bar) + ([])));
      { assert ColorSpecifier(Black) == [0x30, 0x31] && ColorSpecifier(Blue) == [0x30, 0x32]; assert ([] + (([ColorByte] + ColorSpecifier(Blue) + [Comma] + ColorSpecifier(Black)) + Foo)) + (([ResetByte] + Bar) + ([])) == [0x03, 0x30, 0x32, 0x2C, 0x30, 0x31, 0x66, 0x6F, 0x6F, 0x0F, 0x62, 0x61, 0x72]; }
      Done([0x03, 0x30, 0x32, 0x2C, 0x30, 0x31, 0x66, 0x6F, 0x6F, 0x0F, 0x62, 0x61, 0x72]);
    }
    ParseColorsThenReset();
  }

  /** "\x0302,01foo\x0301bar" */
  lemma RenderForegroundOnly()
    ensures Render([Span(Foo, None, Blue, Black), Span(Bar, None, Black, Black)])
         == Done([0x03, 0x30, 0x32, 0x2C, 0x30, 0x31, 0x66, 0x6F, 0x6F, 0x03, 0x30, 0x31, 0x62, 0x61, 0x72])
    ensures Parse([0x03, 0x30, 0x32, 0x2C, 0x30, 0x31, 0x66, 0x6F, 0x6F, 0x03, 0x30, 0x31, 0x62, 0x61, 0x72]) == [Span(Foo, None, Blue, Black), Span(Bar, None, Black, Black)]
  {
    var s0, s1 := Span(Foo, None, Blue, Black), Span(Bar, None, Black, Black);
    calc {
      Render([s0, s1]);
      { assert [s0, s1] == [s0] + ([s1] + []); }
      RenderFrom(ZeroSpan, [s0] + ([s1] + []));
      { RenderCodedSpan(ZeroSpan, s0, [s1] + [], [], [ColorByte] + ColorSpecifier(Blue) + [Comma] + ColorSpecifier(Black)); }
      Prepend([] + (([ColorByte] + ColorSpecifier(Blue) + [Comma] + ColorSpecifier(Black)) + Foo), RenderFrom(s0, [s1] + []));
      { RenderCodedSpan(s0, s1, [], [], [ColorByte] + ColorSpecifier(Black)); }
      Prepend([] + (([ColorByte] + ColorSpecifier(Blue) + [Comma] + ColorSpecifier(Black)) + Foo), Prepend([] + (([ColorByte] + ColorSpecifier(Black)) + Bar), RenderFrom(s1, [])));
      Done(([] + (([ColorByte] + ColorSpecifier(Blue) + [Comma] + ColorSpecifier(Black)) + Foo)) + (([] + (([ColorByte] + ColorSpecifier(Black)) + Bar)) + ([])));
      { assert ColorSpecifier(Black) == [0x30, 0x31] && ColorSpecifier(Blue) == [0x30, 0x32]; assert ([] + (([ColorByte] + ColorSpecifier(Blue) + [Comma] + ColorSpecifier(Black)) + Foo)) + (([] + (([ColorByte] + ColorSpecifier(Black)) + Bar)) + ([])) == [0x03, 0x30, 0x32, 0x2C, 0x30, 0x31, 0x66, 0x6F, 0x6F, 0x03, 0x30, 0x31, 0x62, 0x61, 0x72]; }
      Done([0x03, 0x30, 0x32, 0x2C, 0x30, 0x31, 0x66, 0x6F, 0x6F, 0x03, 0x30, 0x31, 0x62, 0x61, 0x72]);
    }
    ParseForegroundOnly();
  }

  /** "\x0302,01foo\x03,02bar" */
  lemma RenderBackgroundOnly()
    ensures Render([Span(Foo, None, Blue, Black), Span(Bar, None, Blue, Blue)])
         == Done([0x03, 0x30, 0x32, 0x2C, 0x30, 0x31, 0x66, 0x6F, 0x6F, 0x03, 0x2C, 0x30, 0x32, 0x62, 0x61, 0x72])
    ensures Parse([0x03, 0x30, 0x32, 0x2C, 0x30, 0x31, 0x66, 0x6F, 0x6F, 0x03, 0x2C, 0x30, 0x32, 0x62, 0x61, 0x72]) == [Span(Foo, None, Blue, Black), Span(Bar, None, Blue, Blue)]
  {
    var s0, s1 := Span(Foo, None, Blue, Black), Span(Bar, None, Blue, Blue);
    calc {
      Render([s0, s1]);
      { assert [s0, s1] == [s0] + ([s1] + []); }
      RenderFrom(ZeroSpan, [s0] + ([s1] + []));
      { RenderCodedSpan(ZeroSpan, s0, [s1] + [], [], [ColorByte] + ColorSpecifier(Blue) + [Comma] + ColorSpecifier(Black)); }
      Prepend([] + (([ColorByte] + ColorSpecifier(Blue) + [Comma] + ColorSpecifier(Black)) + Foo), RenderFrom(s0, [s1] + []));
      { RenderCodedSpan(s0, s1, [], [], [ColorByte, Comma] + ColorSpecifier(Blue)); }
      Prepend([] + (([ColorByte] + ColorSpecifier(Blue) + [Comma] + ColorSpecifier(Black)) + Foo), Prepend([] + (([ColorByte, Comma] + ColorSpecifier(Blue)) + Bar), RenderFrom(s1, [])));
      Done(([] + (([ColorByte] + ColorSpecifier(Blue) + [Comma] + ColorSpecifier(Black)) + Foo)) + (([] + (([ColorByte, Comma] + ColorSpecifier(Blue)) + Bar)) + ([])));
      { assert ColorSpecifier(Black) == [0x30, 0x31] && ColorSpecifier(Blue) == [0x30, 0x32]; assert ([] + (([ColorByte] + ColorSpecifier(Blue) + [Comma] + ColorSpecifier(Black)) + Foo)) + (([] + (([ColorByte, Comma] + ColorSpecifier(Blue)) + Bar)) + ([])) == [0x03, 0x30, 0x32, 0x2C, 0x30, 0x31, 0x66, 0x6F, 0x6F, 0x03, 0x2C, 0x30, 0x32, 0x62, 0x61, 0x72]; }
      Done([0x03, 0x30, 0x32, 0x2C, 0x30, 0x31, 0x66, 0x6F, 0x6F, 0x03, 0x2C, 0x30, 0x32, 0x62, 0x61, 0x72]);
    }
    ParseBackgroundOnly();
  }

  /** "\x02foo\x0fbar\x02baz" */
  lemma RenderBoldResetBold()
    ensures Render([Span(Foo, Bold, Default, Default), Span(Bar, None, Default, Default), Span(Baz, Bold, Default, Default)])
         == Done([0x02, 0x66, 0x6F, 0x6F, 0x0F, 0x62, 0x61, 0x72, 0x02, 0x62, 0x61, 0x7A])
    ensures Parse([0x02, 0x66, 0x6F, 0x6F, 0x0F, 0x62, 0x61, 0x72, 0x02, 0x62, 0x61, 0x7A]) == [Span(Foo, Bold, Default, Default), Span(Bar, None, Default, Default), Span(Baz, Bold, Default, Default)]
  {
    var s0, s1, s2 := Span(Foo, Bold, Default, Default), Span(Bar, None, Default, Default), Span(Baz, Bold, Default, Default);
    calc {
      Render([s0, s1, s2]);
      { assert [s0, s1, s2] == [s0] + ([s1] + ([s2] + [])); }
      RenderFrom(ZeroSpan, [s0] + ([s1] + ([s2] + [])));
      { RenderCodedSpan(ZeroSpan, s0, [s1] + ([s2] + []), [BoldByte], []); }
      Prepend([BoldByte] + (([]) + Foo), RenderFrom(s0, [s1] + ([s2] + [])));
      { RenderResetSpan(s0, s1, [s2] + []); }
      Prepend([BoldByte] + (([]) + Foo), Prepend([ResetByte] + Bar, RenderFrom(s1, [s2] + [])));
      { RenderCodedSpan(s1, s2, [], [BoldByte], []); }
      Prepend([BoldByte] + (([]) + Foo), Prepend([ResetByte] + Bar, Prepend([BoldByte] + (([]) + Baz), RenderFrom(s2, []))));
      Done(([BoldByte] + (([]) + Foo)) + (([ResetByte] + Bar) + (([BoldByte] + (([]) + Baz)) + ([]))));
      { assert ([BoldByte] + (([]) + Foo)) + (([ResetByte] + Bar) + (([BoldByte] + (([]) + Baz)) + ([]))) == [0x02, 0x66, 0x6F, 0x6F, 0x0F, 0x62, 0x61, 0x72, 0x02, 0x62, 0x61, 0x7A]; }
      Done([0x02, 0x66, 0x6F, 0x6F, 0x0F, 0x62, 0x61, 0x72, 0x02, 0x62, 0x61, 0x7A]);
    }
    ParseBoldResetBold();
  }

  /** "\x02\x1d\x1ffoo\x0fbar" */
  lemma RenderAllFlagsThenReset()
    ensures Render([Span(Foo, AllFlags, Default, Default), Span(Bar, None, Default, Default)])
         == Done([0x02, 0x1D, 0x1F, 0x66, 0x6F, 0x6F, 0x0F, 0x62, 0x61, 0x72])
    ensures Parse([0x02, 0x1D, 0x1F, 0x66, 0x6F, 0x6F, 0x0F, 0x62, 0x61, 0x72]) == [Span(Foo, AllFlags, Default, Default), Span(Bar, None, Default, Default)]
  {
    var s0, s1 := Span(Foo, AllFlags, Default, Default), Span(Bar, None, Default, Default);
    calc {
      Render([s0, s1]);
      { assert [s0, s1] == [s0] + ([s1] + []); }
      RenderFrom(ZeroSpan, [s0] + ([s1] + []));
      { RenderCodedSpan(ZeroSpan, s0, [s1] + [], [BoldByte, ItalicByte, UnderlineByte], []); }
      Prepend([BoldByte, ItalicByte, UnderlineByte] + (([]) + Foo), RenderFrom(s0, [s1] + []));
      { RenderResetSpan(s0, s1, []); }
      Prepend([BoldByte, ItalicByte, UnderlineByte] + (([]) + Foo), Prepend([ResetByte] + Bar, RenderFrom(s1, [])));
      Done(([BoldByte, ItalicByte, UnderlineByte] + (([]) + Foo)) + (([ResetByte] + Bar) + ([])));
      { assert ([BoldByte, ItalicByte, UnderlineByte] + (([]) + Foo)) + (([ResetByte] + Bar) + ([])) == [0x02, 0x1D, 0x1F, 0x66, 0x6F, 0x6F, 0x0F, 0x62, 0x61, 0x72]; }
      Done([0x02, 0x1D, 0x1F, 0x66, 0x6F, 0x6F, 0x0F, 0x62, 0x61, 0x72]);
    }
    ParseRenderedFlagsThenReset();
  }

  /** "\x02\x1d\x1f\x0302,01foo\x0fbar" */
  lemma RenderAllFlagsColorsThenReset()
    ensures Render([Span(Foo, AllFlags, Blue, Black), Span(Bar, None, Default, Default)])
         == Done([0x02, 0x1D, 0x1F, 0x03, 0x30, 0x32, 0x2C, 0x30, 0x31, 0x66, 0x6F, 0x6F, 0x0F, 0x62, 0x61, 0x72])
    ensures Parse([0x02, 0x1D, 0x1F, 0x03, 0x30, 0x32, 0x2C, 0x30, 0x31, 0x66, 0x6F, 0x6F, 0x0F, 0x62, 0x61, 0x72]) == [Span(Foo, AllFlags, Blue, Black), Span(Bar, None, Default, Default)]
  {
    var s0, s1 := Span(Foo, AllFlags, Blue, Black), Span(Bar, None, Default, Default);
    calc {
      Render([s0, s1]);
      { assert [s0, s1] == [s0] + ([s1] + []); }
      RenderFrom(ZeroSpan, [s0] + ([s1] + []));
      { RenderCodedSpan(ZeroSpan, s0, [s1] + [], [BoldByte, ItalicByte, UnderlineByte], [ColorByte] + ColorSpecifier(Blue) + [Comma] + ColorSpecifier(Black)); }
      Prepend([BoldByte, ItalicByte, UnderlineByte] + (([ColorByte] + ColorSpecifier(Blue) + [Comma] + ColorSpecifier(Black)) + Foo), RenderFrom(s0, [s1] + []));
      { RenderResetSpan(s0, s1, []); }
      Prepend([BoldByte, ItalicByte, UnderlineByte] + (([ColorByte] + ColorSpecifier(Blue) + [Comma] + ColorSpecifier(Black)) + Foo), Prepend([ResetByte] + Bar, RenderFrom(s1, [])));
      Done(([BoldByte, ItalicByte, UnderlineByte] + (([ColorByte] + ColorSpecifier(Blue) + [Comma] + ColorSpecifier(Black)) + Foo)) + (([ResetByte] + Bar) + ([])));
      { assert ColorSpecifier(Black) == [0x30, 0x31] && ColorSpecifier(Blue) == [0x30, 0x32]; assert ([BoldByte, ItalicByte, UnderlineByte] + (([ColorByte] + ColorSpecifier(Blue) + [Comma] + ColorSpecifier(Black)) + Foo)) + (([ResetByte] + Bar) + ([])) == [0x02, 0x1D, 0x1F, 0x03, 0x30, 0x32, 0x2C, 0x30, 0x31, 0x66, 0x6F, 0x6F, 0x0F, 0x62, 0x61, 0x72]; }
      Done([0x02, 0x1D, 0x1F, 0x03, 0x30, 0x32, 0x2C, 0x30, 0x31, 0x66, 0x6F, 0x6F, 0x0F, 0x62, 0x61, 0x72]);
    }
    ParseRenderedFlagsColorsThenReset();
  }

  /** "\x02\x1d\x1f\x0302,01foo\x03bar" */
  lemma RenderAllFlagsColorsThenBareColor()
    ensures Render([Span(Foo, AllFlags, Blue, Black), Span(Bar, AllFlags, Default, Default)])
         == Done([0x02, 0x1D, 0x1F, 0x03, 0x30, 0x32, 0x2C, 0x30, 0x31, 0x66, 0x6F, 0x6F, 0x03, 0x62, 0x61, 0x72])
    ensures Parse([0x02, 0x1D, 0x1F, 0x03, 0x30, 0x32, 0x2C, 0x30, 0x31, 0x66, 0x6F, 0x6F, 0x03, 0x62, 0x61, 0x72]) == [Span(Foo, AllFlags, Blue, Black), Span(Bar, AllFlags, Default, Default)]
  {
    var s0, s1 := Span(Foo, AllFlags, Blue, Black), Span(Bar, AllFlags, Default, Default);
    calc {
      Render([s0, s1]);
      { assert [s0, s1] == [s0] + ([s1] + []); }
      RenderFrom(ZeroSpan, [s0] + ([s1] + []));
      { RenderCodedSpan(ZeroSpan, s0, [s1] + [], [BoldByte, ItalicByte, UnderlineByte], [ColorByte] + ColorSpecifier(Blue) + [Comma] + ColorSpecifier(Black)); }
      Prepend([BoldByte, ItalicByte, UnderlineByte] + (([ColorByte] + ColorSpecifier(Blue) + [Comma] + ColorSpecifier(Black)) + Foo), RenderFrom(s0, [s1] + []));
      { RenderCodedSpan(s0, s1, [], [], [ColorByte]); }
      Prepend([BoldByte, ItalicByte, UnderlineByte] + (([ColorByte] + ColorSpecifier(Blue) + [Comma] + ColorSpecifier(Black)) + Foo), Prepend([] + (([ColorByte]) + Bar), RenderFrom(s1, [])));
      Done(([BoldByte, ItalicByte, UnderlineByte] + (([ColorByte] + ColorSpecifier(Blue) + [Comma] + ColorSpecifier(Black)) + Foo)) + (([] + (([ColorByte]) + Bar)) + ([])));
      { assert ColorSpecifier(Black) == [0x30, 0x31] && ColorSpecifier(Blue) == [0x30, 0x32]; assert ([BoldByte, ItalicByte, UnderlineByte] + (([ColorByte] + ColorSpecifier(Blue) + [Comma] + ColorSpecifier(Black)) + Foo)) + (([] + (([ColorByte]) + Bar)) + ([])) == [0x02, 0x1D, 0x1F, 0x03, 0x30, 0x32, 0x2C, 0x30, 0x31, 0x66, 0x6F, 0x6F, 0x03, 0x62, 0x61, 0x72]; }
      Done([0x02, 0x1D, 0x1F, 0x03, 0x30, 0x32, 0x2C, 0x30, 0x31, 0x66, 0x6F, 0x6F, 0x03, 0x62, 0x61, 0x72]);
    }
    ParseRenderedFlagsColorsThenBareColor();
  }

  /** "\x02\x0302,01foo\x03\x02\x021bar": a bare \x03 before a digit is guarded by \x02\x02. */
  lemma RenderGuardedDigit()
    ensures Render([Span(Foo, Bold, Blue, Black), Span(OneBar, Bold, Default, Default)])
         == Done([0x02, 0x03, 0x30, 0x32, 0x2C, 0x30, 0x31, 0x66, 0x6F, 0x6F, 0x03, 0x02, 0x02, 0x31, 0x62, 0x61, 0x72])
    ensures Parse([0x02, 0x03, 0x30, 0x32, 0x2C, 0x30, 0x31, 0x66, 0x6F, 0x6F, 0x03, 0x02, 0x02, 0x31, 0x62, 0x61, 0x72]) == [Span(Foo, Bold, Blue, Black), Span(OneBar, Bold, Default, Default)]
  {
    var s0, s1 := Span(Foo, Bold, Blue, Black), Span(OneBar, Bold, Default, Default);
    calc {
      Render([s0, s1]);
      { assert [s0, s1] == [s0] + ([s1] + []); }
      RenderFrom(ZeroSpan, [s0] + ([s1] + []));
      { RenderCodedSpan(ZeroSpan, s0, [s1] + [], [BoldByte], [ColorByte] + ColorSpecifier(Blue) + [Comma] + ColorSpecifier(Black)); }
      Prepend([BoldByte] + (([ColorByte] + ColorSpecifier(Blue) + [Comma] + ColorSpecifier(Black)) + Foo), RenderFrom(s0, [s1] + []));
      { RenderCodedSpan(s0, s1, [], [], [ColorByte, BoldByte, BoldByte]); }
      Prepend([BoldByte] + (([ColorByte] + ColorSpecifier(Blue) + [Comma] + ColorSpecifier(Black)) + Foo), Prepend([] + (([ColorByte, BoldByte, BoldByte]) + OneBar), RenderFrom(s1, [])));
      Done(([BoldByte] + (([ColorByte] + ColorSpecifier(Blue) + [Comma] + ColorSpecifier(Black)) + Foo)) + (([] + (([ColorByte, BoldByte, BoldByte]) + OneBar)) + ([])));
      { assert ColorSpecifier(Black) == [0x30, 0x31] && ColorSpecifier(Blue) == [0x30, 0x32]; assert ([BoldByte] + (([ColorByte] + ColorSpecifier(Blue) + [Comma] + ColorSpecifier(Black)) + Foo)) + (([] + (([ColorByte, BoldByte, BoldByte]) + OneBar)) + ([])) == [0x02, 0x03, 0x30, 0x32, 0x2C, 0x30, 0x31, 0x66, 0x6F, 0x6F, 0x03, 0x02, 0x02, 0x31, 0x62, 0x61, 0x72]; }
      Done([0x02, 0x03, 0x30, 0x32, 0x2C, 0x30, 0x31, 0x66, 0x6F, 0x6F, 0x03, 0x02, 0x02, 0x31, 0x62, 0x61, 0x72]);
    }
    ParseGuardedDigit();
  }

  /** "ΨΩΔ": written as it is, and read back by the byte-copying parse but not by
      `ParseIRC` as written. */
  lemma RenderMultiByteText()
    ensures Render([Span(Greek, None, Default, Default)])
         == Done([0xCE, 0xA8, 0xCE, 0xA9, 0xCE, 0x94])
    ensures Parse([0xCE, 0xA8, 0xCE, 0xA9, 0xCE, 0x94]) == [Span(Greek, None, Default, Default)]
    ensures ReencodeSpans(Parse([0xCE, 0xA8, 0xCE, 0xA9, 0xCE, 0x94]))
         != [Span(Greek, None, Default, Default)]
  {
    ParseMultiByteTextAsWritten();
    var s0 := Span(Greek, None, Default, Default);
    calc {
      Render([s0]);
      { assert [s0] == [s0] + []; }
      RenderFrom(ZeroSpan, [s0] + []);
      { RenderCodedSpan(ZeroSpan, s0, [], [], []); }
      Prepend([] + (([]) + Greek), RenderFrom(s0, []));
      Done(([] + (([]) + Greek)) + ([]));
      { assert ([] + (([]) + Greek)) + ([]) == [0xCE, 0xA8, 0xCE, 0xA9, 0xCE, 0x94]; }
      Done([0xCE, 0xA8, 0xCE, 0xA9, 0xCE, 0x94]);
    }
    ParseMultiByteText();
  }
}
