/** Two defects of `RenderIRC` (format/irc.go:120-139), each shown on a concrete message
    whose rendering the parser reads back differently, and the corrected renderer of
    module IrcCorrected shown to render the same messages faithfully. */
module IrcFindings {
  import opened Bytes
  import opened Format
  import opened IrcFormat
  import opened IrcCorrected
  import opened IrcVectors

  const CommaOneB: seq<byte> := [0x2C, 0x31, 0x62]   // ",1b"
  const B: seq<byte> := [0x62]                      // "b"

  // ---------------------------------------------------------------------------
  // Finding 1: the foreground returns to Default while a background stays.

  /** "\x0302foo\x03,01bar": the foreground survives the background-only code. */
  lemma ParseForegroundDropOutput()
    ensures Parse([0x03, 0x30, 0x32, 0x66, 0x6F, 0x6F, 0x03, 0x2C, 0x30, 0x31, 0x62, 0x61, 0x72])
         == [Span(Foo, None, Blue, Default), Span(Bar, None, Blue, Black)]
  {
    var r3 := Bar + [];
    var r2 := [ColorByte] + ([0x2C, 0x30, 0x31] + r3);
    var r1 := Foo + r2;
    var r0 := [ColorByte] + ([0x30, 0x32] + r1);
    assert [0x03, 0x30, 0x32, 0x66, 0x6F, 0x6F, 0x03, 0x2C, 0x30, 0x31, 0x62, 0x61, 0x72] == r0;
    ParseForegroundDropOutputFrom(r0, r1, r2, r3);
  }

  lemma ParseForegroundDropOutputFrom(r0: seq<byte>, r1: seq<byte>, r2: seq<byte>, r3: seq<byte>)
    requires r0 == [ColorByte] + ([0x30, 0x32] + r1) && r1 == Foo + r2 && r2 == [ColorByte] + ([0x2C, 0x30, 0x31] + r3)
    requires r3 == Bar + []
    ensures ParseFrom(r0, ZeroSpan, []) == [Span(Foo, None, Blue, Default), Span(Bar, None, Blue, Black)]
  {
    calc {
      ParseFrom(r0, ZeroSpan, []);
      { ColorStep([0x30, 0x32], 0x66, r1, ZeroSpan, [], Span([], None, Blue, Default), []); }
      ParseFrom(r1, Span([], None, Blue, Default), []);
      { TextStep(Foo, r2, Span([], None, Blue, Default), []); }
      ParseFrom(r2, Span(Foo, None, Blue, Default), []);
      { ColorStep([0x2C, 0x30, 0x31], 0x62, r3, Span(Foo, None, Blue, Default), [], Span([], None, Blue, Black), [Span(Foo, None, Blue, Default)]); }
      ParseFrom(r3, Span([], None, Blue, Black), [Span(Foo, None, Blue, Default)]);
      { TextStep(Bar, [], Span([], None, Blue, Black), [Span(Foo, None, Blue, Default)]); }
      ParseFrom([], Span(Bar, None, Blue, Black), [Span(Foo, None, Blue, Default)]);
    }
  }


  /** Finding 1, as written: the second span drops its foreground but keeps a background,
      the renderer writes "\x0302foo\x03,01bar", and the parser keeps the Blue foreground. */
  lemma ForegroundDropMisparsed()
    ensures Render([Span(Foo, None, Blue, Default), Span(Bar, None, Default, Black)])
         == Done([0x03, 0x30, 0x32, 0x66, 0x6F, 0x6F, 0x03, 0x2C, 0x30, 0x31, 0x62, 0x61, 0x72])
    ensures Parse([0x03, 0x30, 0x32, 0x66, 0x6F, 0x6F, 0x03, 0x2C, 0x30, 0x31, 0x62, 0x61, 0x72])
         == [Span(Foo, None, Blue, Default), Span(Bar, None, Blue, Black)]
    ensures Parse(Render([Span(Foo, None, Blue, Default), Span(Bar, None, Default, Black)]).value)
         != [Span(Foo, None, Blue, Default), Span(Bar, None, Default, Black)]
  {
    var s0, s1 := Span(Foo, None, Blue, Default), Span(Bar, None, Default, Black);
    calc {
      Render([s0, s1]);
      { assert [s0, s1] == [s0] + ([s1] + []); }
      RenderFrom(ZeroSpan, [s0] + ([s1] + []));
      { RenderCodedSpan(ZeroSpan, s0, [s1] + [], [], [ColorByte] + ColorSpecifier(Blue)); }
      Prepend([] + (([ColorByte] + ColorSpecifier(Blue)) + Foo), RenderFrom(s0, [s1] + []));
      { RenderCodedSpan(s0, s1, [], [], [ColorByte] + ColorSpecifier(Default) + [Comma] + ColorSpecifier(Black)); }
      Prepend([] + (([ColorByte] + ColorSpecifier(Blue)) + Foo), Prepend([] + (([ColorByte] + ColorSpecifier(Default) + [Comma] + ColorSpecifier(Black)) + Bar), RenderFrom(s1, [])));
      Done(([] + (([ColorByte] + ColorSpecifier(Blue)) + Foo)) + (([] + (([ColorByte] + ColorSpecifier(Default) + [Comma] + ColorSpecifier(Black)) + Bar)) + ([])));
      { assert ColorSpecifier(Black) == [0x30, 0x31] && ColorSpecifier(Blue) == [0x30, 0x32]; assert ([] + (([ColorByte] + ColorSpecifier(Blue)) + Foo)) + (([] + (([ColorByte] + ColorSpecifier(Default) + [Comma] + ColorSpecifier(Black)) + Bar)) + ([])) == [0x03, 0x30, 0x32, 0x66, 0x6F, 0x6F, 0x03, 0x2C, 0x30, 0x31, 0x62, 0x61, 0x72]; }
      Done([0x03, 0x30, 0x32, 0x66, 0x6F, 0x6F, 0x03, 0x2C, 0x30, 0x31, 0x62, 0x61, 0x72]);
    }
    ParseForegroundDropOutput();
  }

  /** Finding 1, corrected: the bare \x03 first clears both colours, then ",01" sets the
      background again, and the message survives the round trip. */
  lemma ForegroundDropCorrected()
    ensures RenderCorrected([Span(Foo, None, Blue, Default), Span(Bar, None, Default, Black)])
         == [0x03, 0x30, 0x32, 0x66, 0x6F, 0x6F, 0x03, 0x03, 0x2C, 0x30, 0x31, 0x62, 0x61, 0x72]
    ensures Parse(RenderCorrected([Span(Foo, None, Blue, Default), Span(Bar, None, Default, Black)]))
         == [Span(Foo, None, Blue, Default), Span(Bar, None, Default, Black)]
  {
    ForegroundDropCorrectedOutput();
    var s0, s1 := Span(Foo, None, Blue, Default), Span(Bar, None, Default, Black);
    NeighboursDistinct(s0, s1);
    RoundTrip([s0, s1]);
  }

  lemma ForegroundDropCorrectedOutput()
    ensures RenderCorrected([Span(Foo, None, Blue, Default), Span(Bar, None, Default, Black)])
         == [0x03, 0x30, 0x32, 0x66, 0x6F, 0x6F, 0x03, 0x03, 0x2C, 0x30, 0x31, 0x62, 0x61, 0x72]
  {
    BlueStep();
    BlackBackgroundStep();
    var a, b := [0x03, 0x30, 0x32] + Foo, [0x03, 0x03, 0x2C, 0x30, 0x31] + Bar;
    TwoSteps(ZeroSpan, Span(Foo, None, Blue, Default), Span(Bar, None, Default, Black), a, b);
    ForegroundDropCorrectedBytes(a, b);
  }

  lemma ForegroundDropCorrectedBytes(a: seq<byte>, b: seq<byte>)
    requires a == [0x03, 0x30, 0x32] + Foo && b == [0x03, 0x03, 0x2C, 0x30, 0x31] + Bar
    ensures a + b == [0x03, 0x30, 0x32, 0x66, 0x6F, 0x6F, 0x03, 0x03, 0x2C, 0x30, 0x31, 0x62, 0x61, 0x72]
  {
  }

  /** A two-span message is written as its two steps. */
  lemma TwoSteps(last: Span, s0: Span, s1: Span, a: seq<byte>, b: seq<byte>)
    requires CorrectedStep(last, s0) == a && CorrectedStep(s0, s1) == b
    ensures CorrectedFrom(last, [s0, s1]) == a + b
  {
    CorrectedFromCons(last, [s0, s1]);
    assert [s0, s1][1..] == [s1];
    CorrectedFromCons(s0, [s1]);
    assert [s1][1..] == [];
    assert b + [] == b;
  }

  /** The first span's codes: `\x0302`. */
  lemma BlueStep()
    ensures CorrectedStep(ZeroSpan, Span(Foo, None, Blue, Default)) == [0x03, 0x30, 0x32] + Foo
  {
    assert ColorSpecifier(Blue) == [0x30, 0x32];
    assert CorrectedStep(ZeroSpan, Span(Foo, None, Blue, Default)) == [] + (([ColorByte] + ColorSpecifier(Blue) + []) + Foo);
  }

  /** The second span's codes: a bare `\x03`, then `\x03,01`. */
  lemma BlackBackgroundStep()
    ensures CorrectedStep(Span(Foo, None, Blue, Default), Span(Bar, None, Default, Black))
         == [0x03, 0x03, 0x2C, 0x30, 0x31] + Bar
  {
    assert ColorSpecifier(Black) == [0x30, 0x31];
    assert CorrectedStep(Span(Foo, None, Blue, Default), Span(Bar, None, Default, Black))
        == [] + (([ColorByte, ColorByte, Comma] + ColorSpecifier(Black) + []) + Bar);
  }

  /** Two spans of different styles, as a message, satisfy `AdjacentDistinct`. */
  lemma NeighboursDistinct(a: Span, b: Span)
    requires !SameStyle(a, b)
    ensures AdjacentDistinct([a, b])
  {
  }

  // ---------------------------------------------------------------------------
  // Finding 2: the text after a colour code starts with a digit or a comma.

  /** "\x0304,1b": the text's ",1" is read as a background. */
  lemma ParseCommaAfterForegroundOutput()
    ensures Parse([0x03, 0x30, 0x34, 0x2C, 0x31, 0x62])
         == [Span(B, None, BrightRed, Black)]
  {
    var r1 := B + [];
    var r0 := [ColorByte] + ([0x30, 0x34, 0x2C, 0x31] + r1);
    assert [0x03, 0x30, 0x34, 0x2C, 0x31, 0x62] == r0;
    ParseCommaAfterForegroundOutputFrom(r0, r1);
  }

  lemma ParseCommaAfterForegroundOutputFrom(r0: seq<byte>, r1: seq<byte>)
    requires r0 == [ColorByte] + ([0x30, 0x34, 0x2C, 0x31] + r1) && r1 == B + []
    ensures ParseFrom(r0, ZeroSpan, []) == [Span(B, None, BrightRed, Black)]
  {
    calc {
      ParseFrom(r0, ZeroSpan, []);
      { ColorStep([0x30, 0x34, 0x2C, 0x31], 0x62, r1, ZeroSpan, [], Span([], None, BrightRed, Black), []); }
      ParseFrom(r1, Span([], None, BrightRed, Black), []);
      { TextStep(B, [], Span([], None, BrightRed, Black), []); }
      ParseFrom([], Span(B, None, BrightRed, Black), []);
    }
  }

  /** Finding 2, as written: a text starting with "," after a foreground code is read as
      part of the code: "\x0304" + ",1b" parses as a Black background and the text "b". */
  lemma CommaAfterForegroundMisparsed()
    ensures Render([Span(CommaOneB, None, BrightRed, Default)])
         == Done([0x03, 0x30, 0x34, 0x2C, 0x31, 0x62])
    ensures Parse([0x03, 0x30, 0x34, 0x2C, 0x31, 0x62]) == [Span(B, None, BrightRed, Black)]
    ensures Parse(Render([Span(CommaOneB, None, BrightRed, Default)]).value) != [Span(CommaOneB, None, BrightRed, Default)]
  {
    var s0 := Span(CommaOneB, None, BrightRed, Default);
    calc {
      Render([s0]);
      { assert [s0] == [s0] + []; }
      RenderFrom(ZeroSpan, [s0] + []);
      { RenderCodedSpan(ZeroSpan, s0, [], [], [ColorByte] + ColorSpecifier(BrightRed)); }
      Prepend([] + (([ColorByte] + ColorSpecifier(BrightRed)) + CommaOneB), RenderFrom(s0, []));
      Done(([] + (([ColorByte] + ColorSpecifier(BrightRed)) + CommaOneB)) + ([]));
      { assert ColorSpecifier(BrightRed) == [0x30, 0x34]; assert ([] + (([ColorByte] + ColorSpecifier(BrightRed)) + CommaOneB)) + ([]) == [0x03, 0x30, 0x34, 0x2C, 0x31, 0x62]; }
      Done([0x03, 0x30, 0x34, 0x2C, 0x31, 0x62]);
    }
    ParseCommaAfterForegroundOutput();
  }

  /** Finding 2, corrected: the \x02\x02 guard ends the code before ",1b". */
  lemma CommaAfterForegroundCorrected()
    ensures RenderCorrected([Span(CommaOneB, None, BrightRed, Default)])
         == [0x03, 0x30, 0x34, 0x02, 0x02, 0x2C, 0x31, 0x62]
    ensures Parse(RenderCorrected([Span(CommaOneB, None, BrightRed, Default)]))
         == [Span(CommaOneB, None, BrightRed, Default)]
  {
    var s0 := Span(CommaOneB, None, BrightRed, Default);
    calc {
      RenderCorrected([s0]);
      { CorrectedFromCons(ZeroSpan, [s0]); assert [s0][1..] == []; }
      CorrectedStep(ZeroSpan, s0) + [];
      { assert BaseColorCode(ZeroSpan, s0) == [ColorByte] + ColorSpecifier(BrightRed);
        assert Guard(BaseColorCode(ZeroSpan, s0), CommaOneB) == [BoldByte, BoldByte];
        assert CorrectedStep(ZeroSpan, s0) == [] + (([ColorByte] + ColorSpecifier(BrightRed) + [BoldByte, BoldByte]) + CommaOneB);
        assert ColorSpecifier(BrightRed) == [0x30, 0x34]; }
      [0x03, 0x30, 0x34, 0x02, 0x02, 0x2C, 0x31, 0x62];
    }
    RoundTrip([s0]);
  }

  // ---------------------------------------------------------------------------
  // Away from the two defects the original renderer is the corrected one, so the
  // round trip holds for it there.

  /** The colour step of span `span` after `last` is outside both defects: it does not
      drop the foreground while a background stays, and its text cannot be read as part
      of a colour code (the original guards the bare \x03 itself). */
  predicate Unaffected(last: Span, span: Span)
  {
    span.text != []
    && !(span.foreground != last.foreground && span.foreground == Default && span.background != Default)
    && (IsByteSafeAfterIncompleteColor(span.text[0])
        || (span.IsZeroColor() && !last.IsZeroColor())
        || (span.foreground == last.foreground && span.background == last.background))
  }

  lemma CorrectedCodesAgree(last: Span, span: Span)
    requires Unaffected(last, span)
    ensures ColorCodes(last, span) == Done(CorrectedColorCodes(last, span))
  {
    var base := BaseColorCode(last, span);
    if span.IsZeroColor() && !last.IsZeroColor() {
      assert base == [ColorByte];
      if !IsByteSafeAfterIncompleteColor(span.text[0]) {
        assert [ColorByte] + [BoldByte, BoldByte] == [ColorByte, BoldByte, BoldByte];
      } else {
        assert [ColorByte] + [] == [ColorByte];
      }
    } else if span.foreground == last.foreground && span.background == last.background {
      assert base == [] && Guard(base, span.text) == [];
      assert base + Guard(base, span.text) == [];
    } else {
      assert IsByteSafeAfterIncompleteColor(span.text[0]);
      assert Guard(base, span.text) == [];
      assert base + [] == base;
    }
  }

  lemma CorrectedStepAgrees(last: Span, span: Span)
    requires Unaffected(last, span)
    ensures RenderStep(last, span) == Done(CorrectedStep(last, span))
  {
    if !(span.IsZeroFormat() && !last.IsZeroFormat()) {
      CorrectedCodesAgree(last, span);
    }
  }

  /** Every step of the message, from `last` on, is unaffected. */
  predicate AllUnaffected(last: Span, fs: FormattedString)
    decreases |fs|
  {
    fs == [] || (Unaffected(last, fs[0]) && AllUnaffected(fs[0], fs[1..]))
  }

  lemma {:induction false} CorrectedFromAgrees(last: Span, fs: FormattedString)
    requires AllUnaffected(last, fs)
    ensures RenderFrom(last, fs) == Done(CorrectedFrom(last, fs))
    decreases |fs|
  {
    if fs != [] {
      CorrectedStepAgrees(last, fs[0]);
      CorrectedFromAgrees(fs[0], fs[1..]);
    }
  }

  /** On messages outside both defects `RenderIRC` does not panic, writes what the
      corrected renderer writes, and so reparses to the message it was given. */
  lemma RoundTripAwayFromDefects(fs: FormattedString)
    requires AllWellFormed(fs) && AdjacentDistinct(fs) && AllUnaffected(ZeroSpan, fs)
    ensures Render(fs) == Done(RenderCorrected(fs))
    ensures Parse(Render(fs).value) == fs
    ensures ReencodeSpans(Parse(Render(fs).value)) == fs <==> AsciiTexts(fs)
  {
    CorrectedFromAgrees(ZeroSpan, fs);
    RoundTrip(fs);
    RoundTripAsWritten(fs);
  }

  // ---------------------------------------------------------------------------
  // Why the round trip needs neighbouring spans to differ in style, even for what
  // `ParseIRC` itself returns.

  /** "foo\x02\x02bar": an empty bold stretch splits one style into two spans. */
  lemma ParseSplitsOneStyle()
    ensures Parse([0x66, 0x6F, 0x6F, 0x02, 0x02, 0x62, 0x61, 0x72])
         == [Span(Foo, None, Default, Default), Span(Bar, None, Default, Default)]
  {
    var r3 := Bar + [];
    var r2 := [BoldByte] + r3;
    var r1 := [BoldByte] + r2;
    var r0 := Foo + r1;
    assert [0x66, 0x6F, 0x6F, 0x02, 0x02, 0x62, 0x61, 0x72] == r0;
    ParseSplitsOneStyleFrom(r0, r1, r2, r3);
  }

  lemma ParseSplitsOneStyleFrom(r0: seq<byte>, r1: seq<byte>, r2: seq<byte>, r3: seq<byte>)
    requires r0 == Foo + r1 && r1 == [BoldByte] + r2 && r2 == [BoldByte] + r3
    requires r3 == Bar + []
    ensures ParseFrom(r0, ZeroSpan, []) == [Span(Foo, None, Default, Default), Span(Bar, None, Default, Default)]
  {
    calc {
      ParseFrom(r0, ZeroSpan, []);
      { TextStep(Foo, r1, ZeroSpan, []); }
      ParseFrom(r1, Span(Foo, None, Default, Default), []);
      { FormatStep(BoldByte, r2, Span(Foo, None, Default, Default), [], Span([], Bold, Default, Default), [Span(Foo, None, Default, Default)]); }
      ParseFrom(r2, Span([], Bold, Default, Default), [Span(Foo, None, Default, Default)]);
      { FormatStep(BoldByte, r3, Span([], Bold, Default, Default), [Span(Foo, None, Default, Default)], ZeroSpan, [Span(Foo, None, Default, Default)]); }
      ParseFrom(r3, ZeroSpan, [Span(Foo, None, Default, Default)]);
      { TextStep(Bar, [], ZeroSpan, [Span(Foo, None, Default, Default)]); }
      ParseFrom([], Span(Bar, None, Default, Default), [Span(Foo, None, Default, Default)]);
    }
  }

  /** The two spans of "foo\x02\x02bar" render as "foobar", which parses as one span. */
  lemma OneStyleNeighboursMerge()
    ensures Render([Span(Foo, None, Default, Default), Span(Bar, None, Default, Default)]) == Done(Foo + Bar)
    ensures Parse(Foo + Bar) == [Span(Foo + Bar, None, Default, Default)]
  {
    var s0, s1 := Span(Foo, None, Default, Default), Span(Bar, None, Default, Default);
    calc {
      Render([s0, s1]);
      { assert [s0, s1] == [s0] + ([s1] + []); }
      RenderFrom(ZeroSpan, [s0] + ([s1] + []));
      { RenderCodedSpan(ZeroSpan, s0, [s1] + [], [], []); }
      Prepend([] + ([] + Foo), RenderFrom(s0, [s1] + []));
      { RenderCodedSpan(s0, s1, [], [], []); }
      Prepend([] + ([] + Foo), Prepend([] + ([] + Bar), RenderFrom(s1, [])));
      { assert ([] + ([] + Foo)) + (([] + ([] + Bar)) + []) == Foo + Bar; }
      Done(Foo + Bar);
    }
    calc {
      Parse(Foo + Bar);
      { assert Foo + Bar == (Foo + Bar) + []; }
      ParseFrom((Foo + Bar) + [], ZeroSpan, []);
      { TextStep(Foo + Bar, [], ZeroSpan, []); }
      ParseFrom([], Span(Foo + Bar, None, Default, Default), []);
    }
  }
}
