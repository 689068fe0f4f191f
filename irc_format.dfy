/** The IRC control-code codec (format/irc.go): parsing a raw IRC line into spans and
    rendering spans back into control codes. */
module IrcFormat {
  import opened Bytes
  import opened Format

  const ColorByte: byte := 0x03
  const ResetByte: byte := 0x0F
  const BoldByte: byte := 0x02
  const UnderlineByte: byte := 0x1F
  const ItalicByte: byte := 0x1D
  const Comma: byte := 0x2C

  /** The keys of `ircFormatChars`. */
  predicate IsFormatByte(c: byte)
  {
    c == BoldByte || c == UnderlineByte || c == ItalicByte
  }

  /** `ircFormatChars`: the flag a format byte toggles. */
  function FlagOf(c: byte): (f: Flags)
    requires IsFormatByte(c)
    ensures IsFlag(f)
  {
    if c == BoldByte then Bold else if c == UnderlineByte then Underline else Italic
  }

  /** `Format ^= ircFormatChars[c]`: the format after the format byte `c`. */
  function Toggled(f: Flags, c: byte): Flags
    requires IsFormatByte(c)
  {
    f ^ FlagOf(c)
  }

  /** The bytes that end the current span. */
  predicate IsControl(c: byte)
  {
    IsFormatByte(c) || c == ColorByte || c == ResetByte
  }

  predicate NoControls(t: seq<byte>)
  {
    forall k :: 0 <= k < |t| ==> !IsControl(t[k])
  }

  // ---------------------------------------------------------------------------
  // The colour code that follows \x03, matched by the regular expression
  //   ([0-9]{0,2})(,([0-9]{0,2}))?
  // at the start of the remaining bytes (it always matches, possibly empty).

  /** `[0-9]{0,2}`: the number of leading digits, at most two. */
  function DigitRun(d: seq<byte>): (n: nat)
    ensures n <= 2 && n <= |d|
    ensures forall k :: 0 <= k < n ==> IsDigit(d[k])
    ensures n < 2 && n < |d| ==> !IsDigit(d[n])
  {
    if |d| >= 1 && IsDigit(d[0]) then (if |d| >= 2 && IsDigit(d[1]) then 2 else 1) else 0
  }

  /** `strconv.Atoi` of one or two decimal digits. */
  function DigitsValue(ds: seq<byte>): (v: int)
    requires 1 <= |ds| <= 2
    requires forall k :: 0 <= k < |ds| ==> IsDigit(ds[k])
    ensures 0 <= v <= 99
    ensures |ds| == 1 ==> v < 10
  {
    assert IsDigit(ds[0]) && IsDigit(ds[|ds| - 1]);
    if |ds| == 1 then ds[0] as int - 0x30
    else 10 * (ds[0] as int - 0x30) + (ds[1] as int - 0x30)
  }

  /** Whether a comma follows the foreground digits. */
  predicate HasComma(d: seq<byte>)
  {
    DigitRun(d) < |d| && d[DigitRun(d)] == Comma
  }

  /** Length of the whole match `colorCode[0]`. */
  function ColorCodeLength(d: seq<byte>): (n: nat)
    ensures n <= |d| && n <= 5
  {
    var n1 := DigitRun(d);
    if HasComma(d) then n1 + 1 + DigitRun(d[n1 + 1..]) else n1
  }

  /** `parseIRCColorCode`: the span with its colours updated, and the number of bytes
      the colour code occupies. Digits stand for the IRC index, stored plus one;
      absent digits give -1, stored as Default. */
  function ParseColorCode(d: seq<byte>, span: Span): (r: (Span, nat))
    ensures r.1 == ColorCodeLength(d)
    ensures r.0.text == span.text && r.0.format == span.format
  {
    var n1 := DigitRun(d);
    var fgSpecifier := if n1 == 0 then -1 else DigitsValue(d[..n1]);
    if HasComma(d) then
      var rest := d[n1 + 1..];
      var n2 := DigitRun(rest);
      var bgSpecifier := if n2 == 0 then -1 else DigitsValue(rest[..n2]);
      var withFg := if fgSpecifier != -1 then span.(foreground := fgSpecifier + 1) else span;
      (withFg.(background := bgSpecifier + 1), ColorCodeLength(d))
    else
      var withBg := if fgSpecifier == -1 then span.(background := Default) else span;
      (withBg.(foreground := fgSpecifier + 1), ColorCodeLength(d))
  }

  // ---------------------------------------------------------------------------
  // ParseIRC

  /** Append the current span unless its text is empty. */
  function Flush(spans: seq<Span>, current: Span): seq<Span>
  {
    if current.text != [] then spans + [current] else spans
  }

  /** What a control byte `c` does to the cleared current span, given the bytes `after`
      it: the new current span and how many of those bytes it consumes. */
  function ControlEffect(c: byte, after: seq<byte>, cleared: Span): (r: (Span, nat))
    requires IsControl(c)
    ensures r.1 <= |after| && r.0.text == cleared.text
  {
    if IsFormatByte(c) then (cleared.(format := Toggled(cleared.format, c)), 0)
    else if c == ResetByte then (cleared.(format := None, foreground := Default, background := Default), 0)
    else ParseColorCode(after, cleared)
  }

  /** The state machine of `ParseIRC` run over the bytes `d` that remain, from the
      current span `current` and the spans emitted so far. */
  function ParseFrom(d: seq<byte>, current: Span, spans: seq<Span>): seq<Span>
    decreases |d|
  {
    if d == [] then Flush(spans, current)
    else if !IsControl(d[0]) then ParseFrom(d[1..], current.(text := current.text + [d[0]]), spans)
    else
      var r := ControlEffect(d[0], d[1..], current.(text := []));
      ParseFrom(d[1 + r.1..], r.0, Flush(spans, current))
  }

  /** `ParseIRC` as its tests expect it to behave (format/irc_test.go): each text byte is
      copied into the current span as it is. */
  function Parse(s: seq<byte>): FormattedString
  {
    ParseFrom(s, ZeroSpan, [])
  }

  /** The spans with their texts passed through `Reencode`. */
  function ReencodeSpans(fs: FormattedString): (r: FormattedString)
    ensures |r| == |fs|
  {
    seq(|fs|, k requires 0 <= k < |fs| => fs[k].(text := Reencode(fs[k].text)))
  }

  /** Every span's text is ASCII. */
  predicate AsciiTexts(fs: FormattedString)
  {
    forall k :: 0 <= k < |fs| ==> Ascii(fs[k].text)
  }

  /** `ParseIRC` as written: a byte-wise loop that grows the current span by `string(c)`,
      flushes it at every control byte and skips the colour code after \x03. It gives the
      parse its tests expect with every text re-encoded, each byte from 0x80 on becoming
      two bytes; the byte-copying state it would have kept is carried alongside as ghost
      variables. */
  method ParseIRC(s: seq<byte>) returns (spans: FormattedString)
    ensures spans == ReencodeSpans(Parse(s))
  {
    spans := [];
    var current := ZeroSpan;
    ghost var kept, keptSpans := ZeroSpan, [];
    var i := 0;
    while i < |s|
      invariant 0 <= i <= |s|
      invariant ParseFrom(s[i..], kept, keptSpans) == Parse(s)
      invariant current == kept.(text := Reencode(kept.text))
      invariant spans == ReencodeSpans(keptSpans)
    {
      var c := s[i];
      if !IsControl(c) {
        ParseAtText(s, i, kept, keptSpans);
        ReencodeAppend(kept.text, [c]);
        current := current.(text := current.text + RuneBytes(c));
        kept := kept.(text := kept.text + [c]);
        i := i + 1;
        continue;
      }
      var next, n := ApplyControl(c, s[i + 1..], current.(text := []));
      assert current.(text := []) == kept.(text := []);
      ParseAtControl(s, i, kept, keptSpans, next, n);
      FlushReencoded(keptSpans, kept);
      if current.text != [] {
        spans := spans + [current];
      }
      current, i := next, i + 1 + n;
      kept, keptSpans := next, Flush(keptSpans, kept);
    }
    assert s[|s|..] == [];
    FlushReencoded(keptSpans, kept);
    if current.text != [] {
      spans := spans + [current];
    }
  }

  /** Flushing a span and re-encoding commute. */
  lemma FlushReencoded(fs: FormattedString, span: Span)
    ensures ReencodeSpans(Flush(fs, span))
         == if span.text == [] then ReencodeSpans(fs) else ReencodeSpans(fs) + [span.(text := Reencode(span.text))]
  {
    if span.text != [] {
      ReencodeSpansSnoc(fs, span);
    }
  }

  lemma ReencodeSpansSnoc(fs: FormattedString, span: Span)
    ensures ReencodeSpans(fs + [span]) == ReencodeSpans(fs) + [span.(text := Reencode(span.text))]
  {
  }

  /** `ParseFrom` at a text byte `s[i]`. */
  lemma ParseAtText(s: seq<byte>, i: nat, current: Span, spans: seq<Span>)
    requires i < |s| && !IsControl(s[i])
    ensures ParseFrom(s[i..], current, spans) == ParseFrom(s[i + 1..], current.(text := current.text + [s[i]]), spans)
  {
    assert s[i..][1..] == s[i + 1..];
    ParseFromText(s[i..], current, spans);
  }

  /** `ParseFrom` at a control byte `s[i]`. */
  lemma ParseAtControl(s: seq<byte>, i: nat, current: Span, spans: seq<Span>, next: Span, n: nat)
    requires i < |s| && IsControl(s[i])
    requires (next, n) == ControlEffect(s[i], s[i + 1..], current.(text := []))
    ensures i + 1 + n <= |s|
    ensures ParseFrom(s[i..], current, spans) == ParseFrom(s[i + 1 + n..], next, Flush(spans, current))
  {
    SliceAfter(s, i, 0);
    SliceAfter(s, i, n);
    ParseFromControl(s[i..], current, spans);
  }

  lemma SliceAfter(s: seq<byte>, i: nat, n: nat)
    requires i + 1 + n <= |s|
    ensures s[i..][1 + n..] == s[i + 1 + n..]
  {
  }

  /** The control-byte branch of the `ParseIRC` loop body, applied to the cleared span. */
  method ApplyControl(c: byte, after: seq<byte>, cleared: Span) returns (next: Span, n: nat)
    requires IsControl(c)
    ensures (next, n) == ControlEffect(c, after, cleared)
  {
    next, n := cleared, 0;
    if IsFormatByte(c) {
      next := next.(format := Toggled(next.format, c));
    } else if c == ResetByte {
      next := next.(format := None, foreground := Default, background := Default);
    } else {
      next, n := ParseColorCode(after, next).0, ParseColorCode(after, next).1;
    }
  }

  /** One text byte of `ParseFrom`. */
  lemma ParseFromText(d: seq<byte>, current: Span, spans: seq<Span>)
    requires d != [] && !IsControl(d[0])
    ensures ParseFrom(d, current, spans) == ParseFrom(d[1..], current.(text := current.text + [d[0]]), spans)
  {
  }

  /** One control byte of `ParseFrom`. */
  lemma ParseFromControl(d: seq<byte>, current: Span, spans: seq<Span>)
    requires d != [] && IsControl(d[0])
    ensures var r := ControlEffect(d[0], d[1..], current.(text := []));
            ParseFrom(d, current, spans) == ParseFrom(d[1 + r.1..], r.0, Flush(spans, current))
  {
  }

  // ---------------------------------------------------------------------------
  // What ParseIRC guarantees about its result.

  /** A span `ParseIRC` can produce: non-empty text free of control bytes, and only the
      three known flags. */
  predicate WellFormedSpan(s: Span)
  {
    s.text != [] && NoControls(s.text) && s.format <= 7
  }

  predicate AllWellFormed(fs: FormattedString)
  {
    forall k :: 0 <= k < |fs| ==> WellFormedSpan(fs[k])
  }

  lemma {:induction false} ParseFromWellFormed(d: seq<byte>, current: Span, spans: seq<Span>)
    requires AllWellFormed(spans)
    requires NoControls(current.text) && current.format <= 7
    ensures AllWellFormed(ParseFrom(d, current, spans))
    decreases |d|
  {
    if d != [] {
      if !IsControl(d[0]) {
        ParseFromWellFormed(d[1..], current.(text := current.text + [d[0]]), spans);
      } else {
        var r := ControlEffect(d[0], d[1..], current.(text := []));
        assert r.0.format <= 7 by {
          if IsFormatByte(d[0]) {
            assert r.0.format == Toggled(current.format, d[0]);
          }
        }
        ParseFromWellFormed(d[1 + r.1..], r.0, Flush(spans, current));
      }
    }
  }

  /** `ParseIRC` never emits a span with empty text or with control bytes in it. */
  lemma ParseWellFormed(s: seq<byte>)
    ensures AllWellFormed(Parse(s))
    ensures AllWellFormed(ReencodeSpans(Parse(s)))
  {
    ParseFromWellFormed(s, ZeroSpan, []);
    var fs := Parse(s);
    forall k | 0 <= k < |fs| ensures WellFormedSpan(ReencodeSpans(fs)[k]) {
      ReencodeNoControls(fs[k].text);
    }
  }

  /** Re-encoding text brings in no control byte, since every control byte is ASCII. */
  lemma ReencodeNoControls(t: seq<byte>)
    requires NoControls(t)
    ensures NoControls(Reencode(t))
  {
    var r := Reencode(t);
    forall k | 0 <= k < |r| ensures !IsControl(r[k]) {
      if IsControl(r[k]) {
        ReencodeAsciiBytes(t, r[k]);
      }
    }
  }

  /** An independent statement of which bytes are text: the input without the control
      bytes and without the colour code after each \x03. */
  function Plain(d: seq<byte>): (r: seq<byte>)
    ensures NoControls(r) && |r| <= |d|
    decreases |d|
  {
    if d == [] then []
    else if !IsControl(d[0]) then [d[0]] + Plain(d[1..])
    else if d[0] == ColorByte then Plain(d[1 + ColorCodeLength(d[1..])..])
    else Plain(d[1..])
  }

  /** `Plain` skips exactly the bytes the control byte at the head of `d` consumes. */
  lemma PlainSkipsControl(d: seq<byte>, cleared: Span)
    requires d != [] && IsControl(d[0])
    ensures Plain(d) == Plain(d[1 + ControlEffect(d[0], d[1..], cleared).1..])
  {
    if d[0] != ColorByte {
      assert d[1 + 0..] == d[1..];
    }
  }

  lemma {:induction false} ParseFromTexts(d: seq<byte>, current: Span, spans: seq<Span>)
    ensures Texts(ParseFrom(d, current, spans)) == Texts(spans) + current.text + Plain(d)
    decreases |d|
  {
    if d == [] {
      assert Texts(ParseFrom(d, current, spans)) == Texts(spans) + current.text + Plain(d) by {
        TextsAppend(spans, [current]);
        assert Texts([current]) == current.text;
      }
    } else if !IsControl(d[0]) {
      assert Texts(ParseFrom(d, current, spans)) == Texts(spans) + current.text + Plain(d) by {
        ParseFromTexts(d[1..], current.(text := current.text + [d[0]]), spans);
        TextStepTexts(d, current, spans);
      }
    } else {
      assert Texts(ParseFrom(d, current, spans)) == Texts(spans) + current.text + Plain(d) by {
        var r := ControlEffect(d[0], d[1..], current.(text := []));
        ParseFromTexts(d[1 + r.1..], r.0, Flush(spans, current));
        ControlStepTexts(d, current, spans);
      }
    }
  }

  /** The text-byte case of `ParseFromTexts`, given the claim for the rest. */
  lemma TextStepTexts(d: seq<byte>, current: Span, spans: seq<Span>)
    requires d != [] && !IsControl(d[0])
    requires var grown := current.(text := current.text + [d[0]]);
             Texts(ParseFrom(d[1..], grown, spans)) == Texts(spans) + grown.text + Plain(d[1..])
    ensures Texts(ParseFrom(d, current, spans)) == Texts(spans) + current.text + Plain(d)
  {
    ParseFromText(d, current, spans);
    assert Plain(d) == [d[0]] + Plain(d[1..]);
    AppendAssoc(Texts(spans), current.text, d[0], Plain(d[1..]));
  }

  lemma AppendAssoc(a: seq<byte>, b: seq<byte>, c: byte, rest: seq<byte>)
    ensures a + (b + [c]) + rest == a + b + ([c] + rest)
  {
  }

  /** The control-byte case of `ParseFromTexts`, given the claim for the rest. */
  lemma ControlStepTexts(d: seq<byte>, current: Span, spans: seq<Span>)
    requires d != [] && IsControl(d[0])
    requires var r := ControlEffect(d[0], d[1..], current.(text := []));
             Texts(ParseFrom(d[1 + r.1..], r.0, Flush(spans, current)))
               == Texts(Flush(spans, current)) + r.0.text + Plain(d[1 + r.1..])
    ensures Texts(ParseFrom(d, current, spans)) == Texts(spans) + current.text + Plain(d)
  {
    ParseFromControl(d, current, spans);
    FlushTexts(spans, current);
    PlainSkipsControl(d, current.(text := []));
    assert Texts(spans) + current.text + [] == Texts(spans) + current.text;
  }

  lemma FlushTexts(spans: seq<Span>, current: Span)
    ensures Texts(Flush(spans, current)) == Texts(spans) + current.text
  {
    TextsAppend(spans, [current]);
    assert Texts([current]) == current.text;
  }

  /** The span texts concatenated are the input with the control bytes and colour codes
      removed. */
  lemma ParseKeepsText(s: seq<byte>)
    ensures Texts(Parse(s)) == Plain(s)
    ensures Texts(ReencodeSpans(Parse(s))) == Reencode(Plain(s))
  {
    ParseFromTexts(s, ZeroSpan, []);
    TextsReencode(Parse(s));
  }

  /** Re-encoding the spans one by one re-encodes their concatenated texts. */
  lemma {:induction false} TextsReencode(fs: FormattedString)
    ensures Texts(ReencodeSpans(fs)) == Reencode(Texts(fs))
    decreases |fs|
  {
    if fs != [] {
      TextsReencode(fs[1..]);
      assert ReencodeSpans(fs)[1..] == ReencodeSpans(fs[1..]);
      ReencodeAppend(fs[0].text, Texts(fs[1..]));
    }
  }

  /** The spans' texts are all ASCII exactly when their concatenation is. */
  lemma {:induction false} AsciiTextsOfTexts(fs: FormattedString)
    ensures AsciiTexts(fs) <==> Ascii(Texts(fs))
    decreases |fs|
  {
    if fs != [] {
      AsciiTextsOfTexts(fs[1..]);
      var a, b := fs[0].text, Texts(fs[1..]);
      assert Ascii(a + b) <==> Ascii(a) && Ascii(b) by {
        assert forall k :: 0 <= k < |a| ==> (a + b)[k] == a[k];
        assert forall k :: 0 <= k < |b| ==> (a + b)[|a| + k] == b[k];
      }
      assert AsciiTexts(fs) <==> Ascii(a) && AsciiTexts(fs[1..]) by {
        assert forall k :: 1 <= k < |fs| ==> fs[k] == fs[1..][k - 1];
      }
    }
  }

  /** Re-encoding leaves the spans alone exactly when their texts are ASCII. */
  lemma ReencodeSpansIdentity(fs: FormattedString)
    ensures ReencodeSpans(fs) == fs <==> AsciiTexts(fs)
  {
    forall k | 0 <= k < |fs| {
      ReencodeIdentity(fs[k].text);
    }
    if ReencodeSpans(fs) == fs {
      forall k | 0 <= k < |fs| ensures Ascii(fs[k].text) {
        assert ReencodeSpans(fs)[k].text == fs[k].text;
      }
    }
  }

  /** The text `Parse` keeps is taken from the input. */
  lemma {:induction false} PlainFromInput(d: seq<byte>, b: byte)
    requires b in Plain(d)
    ensures b in d
    decreases |d|
  {
    if !IsControl(d[0]) {
      if b != d[0] {
        PlainFromInput(d[1..], b);
      }
    } else if d[0] == ColorByte {
      PlainFromInput(d[1 + ColorCodeLength(d[1..])..], b);
      assert d[1 + ColorCodeLength(d[1..])..] == d[1..][ColorCodeLength(d[1..])..];
    } else {
      PlainFromInput(d[1..], b);
    }
  }

  /** `ParseIRC` as written gives what its tests expect exactly when the text it keeps is
      ASCII; in particular on every ASCII line. */
  lemma AsWrittenAgreesOnAscii(s: seq<byte>)
    ensures ReencodeSpans(Parse(s)) == Parse(s) <==> Ascii(Plain(s))
    ensures Ascii(s) ==> ReencodeSpans(Parse(s)) == Parse(s)
  {
    ParseKeepsText(s);
    ReencodeSpansIdentity(Parse(s));
    AsciiTextsOfTexts(Parse(s));
    if Ascii(s) {
      forall k | 0 <= k < |Plain(s)| ensures Plain(s)[k] < 0x80 {
        PlainFromInput(s, Plain(s)[k]);
      }
    }
  }

  /** Text bytes only grow the current span. */
  lemma {:induction false} ParseText(t: seq<byte>, rest: seq<byte>, current: Span, spans: seq<Span>)
    requires NoControls(t)
    ensures ParseFrom(t + rest, current, spans) == ParseFrom(rest, current.(text := current.text + t), spans)
    decreases |t|
  {
    if t == [] {
      assert t + rest == rest;
      assert current.(text := current.text + t) == current;
    } else {
      assert (t + rest)[0] == t[0];
      assert (t + rest)[1..] == t[1..] + rest;
      assert current.text + [t[0]] + t[1..] == current.text + t;
      ParseText(t[1..], rest, current.(text := current.text + [t[0]]), spans);
    }
  }

  /** A format byte flushes the current span and toggles exactly its own flag. */
  lemma ParseFormatByte(c: byte, rest: seq<byte>, current: Span, spans: seq<Span>)
    requires IsFormatByte(c)
    ensures ParseFrom([c] + rest, current, spans)
         == ParseFrom(rest, current.(text := [], format := Toggled(current.format, c)), Flush(spans, current))
  {
    assert ([c] + rest)[1..] == rest;
    ParseFromControl([c] + rest, current, spans);
  }

  /** Toggling one flag leaves the other two as they were. */
  lemma FormatByteKeepsOthers(c: byte, f: Flags)
    requires IsFormatByte(c)
    ensures forall g :: IsFlag(g) && g != FlagOf(c) ==> Toggled(f, c) & g == f & g
  {
  }

  /** Text bytes read into an empty current span become its text. */
  lemma ParseTextFromEmpty(t: seq<byte>, rest: seq<byte>, current: Span, spans: seq<Span>)
    requires NoControls(t) && current.text == []
    ensures ParseFrom(t + rest, current, spans) == ParseFrom(rest, current.(text := t), spans)
  {
    ParseText(t, rest, current, spans);
    assert current.text + t == t;
  }

  /** The reset byte flushes the current span and clears format and both colours. */
  lemma ParseResetByte(rest: seq<byte>, current: Span, spans: seq<Span>)
    ensures ParseFrom([ResetByte] + rest, current, spans) == ParseFrom(rest, ZeroSpan, Flush(spans, current))
  {
    assert ([ResetByte] + rest)[1..] == rest;
  }

  /** The colour byte flushes the current span and applies the colour code after it. */
  lemma ParseColorByte(code: seq<byte>, rest: seq<byte>, current: Span, spans: seq<Span>)
    requires ColorCodeLength(code + rest) == |code|
    ensures ParseFrom([ColorByte] + code + rest, current, spans)
         == ParseFrom(rest, ParseColorCode(code + rest, current.(text := [])).0, Flush(spans, current))
  {
    var d := [ColorByte] + code + rest;
    assert d[1..] == code + rest;
    assert d[1 + |code|..] == rest;
  }

  /** The same, when the current span is already empty (so nothing is flushed). */
  lemma ParseColorByteCleared(code: seq<byte>, rest: seq<byte>, current: Span, spans: seq<Span>)
    requires current.text == [] && ColorCodeLength(code + rest) == |code|
    ensures ParseFrom([ColorByte] + (code + rest), current, spans)
         == ParseFrom(rest, ParseColorCode(code + rest, current).0, spans)
  {
    var d := [ColorByte] + (code + rest);
    assert d[1..] == code + rest;
    assert d[1 + |code|..] == rest;
    ParseFromControl(d, current, spans);
    assert current.(text := []) == current;
  }

  // ---------------------------------------------------------------------------
  // RenderIRC

  /** `colorToSpecifier`: nothing for Default, otherwise the IRC index as two digits. */
  function ColorSpecifier(c: Color): (r: seq<byte>)
    ensures c == Default <==> r == []
    ensures c != Default ==> |r| == 2 && IsDigit(r[0]) && IsDigit(r[1]) && DigitsValue(r) + 1 == c
  {
    if c == Default then [] else [(0x30 + (c - 1) / 10) as byte, (0x30 + (c - 1) % 10) as byte]
  }

  /** `isByteSafeAfterIncompleteColor`. */
  predicate IsByteSafeAfterIncompleteColor(c: byte)
  {
    !(IsDigit(c) || c == Comma)
  }

  /** A byte is safe after an incomplete colour code exactly when a colour code cannot
      start with it. */
  lemma SafeByteEndsColorCode(c: byte, rest: seq<byte>)
    ensures IsByteSafeAfterIncompleteColor(c) <==> ColorCodeLength([c] + rest) == 0
  {
  }

  /** The toggle bytes for the flags in which `a` and `b` differ: Bold, Italic, Underline. */
  function Toggles(a: Flags, b: Flags): (r: seq<byte>)
    ensures |r| <= 3
    ensures forall k :: 0 <= k < |r| ==> IsFormatByte(r[k])
  {
    var changes := a ^ b;
    (if changes & Bold != 0 then [BoldByte] else [])
    + (if changes & Italic != 0 then [ItalicByte] else [])
    + (if changes & Underline != 0 then [UnderlineByte] else [])
  }

  /** The colour part of one iteration of the `RenderIRC` loop: a bare \x03 (guarded by
      \x02\x02 before a digit or comma) when the colour is dropped, else the sides that
      changed; Panicked where Go indexes `span.Text[0]` of an empty text. */
  function ColorCodes(last: Span, span: Span): Outcome<seq<byte>>
  {
    if span.IsZeroColor() && !last.IsZeroColor() then
      if span.text == [] then Panicked
      else if !IsByteSafeAfterIncompleteColor(span.text[0]) then Done([ColorByte, BoldByte, BoldByte])
      else Done([ColorByte])
    else if span.foreground != last.foreground && span.background != last.background then
      Done([ColorByte] + ColorSpecifier(span.foreground) + [Comma] + ColorSpecifier(span.background))
    else if span.foreground != last.foreground then
      Done([ColorByte] + ColorSpecifier(span.foreground))
    else if span.background != last.background then
      Done([ColorByte, Comma] + ColorSpecifier(span.background))
    else Done([])
  }

  /** What one iteration of the `RenderIRC` loop appends for `span` after `last`. */
  function RenderStep(last: Span, span: Span): Outcome<seq<byte>>
  {
    if span.IsZeroFormat() && !last.IsZeroFormat() then Done([ResetByte] + span.text)
    else Prepend(Toggles(span.format, last.format), Prepend2(ColorCodes(last, span), span.text))
  }

  function Prepend2(r: Outcome<seq<byte>>, suffix: seq<byte>): Outcome<seq<byte>>
  {
    match r
    case Panicked => Panicked
    case Done(s) => Done(s + suffix)
  }

  /** The rest of the `RenderIRC` loop from the span rendered last. */
  function RenderFrom(last: Span, fs: FormattedString): Outcome<seq<byte>>
    decreases |fs|
  {
    if fs == [] then Done([])
    else
      match RenderStep(last, fs[0])
      case Panicked => Panicked
      case Done(out) => Prepend(out, RenderFrom(fs[0], fs[1..]))
  }

  lemma SeqAssoc3(a: seq<byte>, b: seq<byte>, c: seq<byte>, d: seq<byte>)
    ensures a + b + c + d == a + (b + (c + d))
  {
  }

  /** What `RenderIRC` (as written) returns; Panicked if it panics. */
  function Render(fs: FormattedString): Outcome<seq<byte>>
  {
    RenderFrom(ZeroSpan, fs)
  }

  /** `RenderIRC`: walks the spans, appending the codes that differ from the last span and
      then the text. */
  method RenderIRC(fs: FormattedString) returns (r: Outcome<seq<byte>>)
    ensures r == Render(fs)
  {
    var output: seq<byte> := [];
    var lastSpan := ZeroSpan;
    var i := 0;
    assert fs[0..] == fs;
    PrependAssoc([], [], Render(fs));
    while i < |fs|
      invariant 0 <= i <= |fs|
      invariant Prepend(output, RenderFrom(lastSpan, fs[i..])) == Render(fs)
    {
      var span := fs[i];
      assert fs[i..][0] == span && fs[i..][1..] == fs[i + 1..];
      var next := AppendSpan(output, lastSpan, span);
      if next.Panicked? {
        return Panicked;
      }
      PrependAssoc(output, RenderStep(lastSpan, span).value, RenderFrom(span, fs[i + 1..]));
      output := next.value;
      lastSpan := span;
      i := i + 1;
    }
    assert output + [] == output;
    r := Done(output);
  }

  /** The body of the `RenderIRC` loop: appends to `output` what `span` needs after `last`. */
  method AppendSpan(output: seq<byte>, last: Span, span: Span) returns (r: Outcome<seq<byte>>)
    ensures r == Prepend(output, RenderStep(last, span))
  {
    if span.IsZeroFormat() && !last.IsZeroFormat() {
      assert output + [ResetByte] + span.text == output + ([ResetByte] + span.text);
      return Done(output + [ResetByte] + span.text);
    }
    var toggled := AppendToggles(output, span.format ^ last.format);
    var colored := AppendColorCodes(toggled, last, span);
    if colored.Panicked? {
      return Panicked;
    }
    ghost var t, c := Toggles(span.format, last.format), ColorCodes(last, span).value;
    SeqAssoc3(output, t, c, span.text);
    r := Done(colored.value + span.text);
  }

  /** The format toggles of the `RenderIRC` loop body, for the bits of `formatChanges`. */
  method AppendToggles(output: seq<byte>, formatChanges: Flags) returns (out: seq<byte>)
    ensures out == output + Toggles(formatChanges, None)
  {
    out := output;
    if formatChanges & Bold != 0 {
      out := out + [BoldByte];
    }
    if formatChanges & Italic != 0 {
      out := out + [ItalicByte];
    }
    if formatChanges & Underline != 0 {
      out := out + [UnderlineByte];
    }
  }

  /** The colour codes of the `RenderIRC` loop body. */
  method AppendColorCodes(output: seq<byte>, last: Span, span: Span) returns (r: Outcome<seq<byte>>)
    ensures r == Prepend(output, ColorCodes(last, span))
  {
    var out := output;
    if span.IsZeroColor() && !last.IsZeroColor() {
      out := out + [ColorByte];
      if span.text == [] {
        assert ColorCodes(last, span) == Panicked;
        assert Prepend(output, ColorCodes(last, span)) == Panicked;
        return Panicked;
      }
      if !IsByteSafeAfterIncompleteColor(span.text[0]) {
        out := out + [BoldByte, BoldByte];
        assert out == output + [ColorByte, BoldByte, BoldByte];
      }
      assert Prepend(output, ColorCodes(last, span)) == Done(out);
    } else if span.foreground != last.foreground && span.background != last.background {
      out := out + [ColorByte] + ColorSpecifier(span.foreground) + [Comma] + ColorSpecifier(span.background);
      assert out == output + ([ColorByte] + ColorSpecifier(span.foreground) + [Comma] + ColorSpecifier(span.background));
    } else if span.foreground != last.foreground {
      out := out + [ColorByte] + ColorSpecifier(span.foreground);
      assert out == output + ([ColorByte] + ColorSpecifier(span.foreground));
    } else if span.background != last.background {
      out := out + [ColorByte, Comma] + ColorSpecifier(span.background);
      assert out == output + ([ColorByte, Comma] + ColorSpecifier(span.background));
    } else {
      assert out == output + [];
    }
    r := Done(out);
  }

  /** All span texts non-empty is enough for `RenderIRC` not to panic. */
  lemma {:induction false} RenderTotalOnNonEmptyTexts(last: Span, fs: FormattedString)
    requires forall k :: 0 <= k < |fs| ==> fs[k].text != []
    ensures RenderFrom(last, fs).Done?
    decreases |fs|
  {
    if fs != [] {
      RenderTotalOnNonEmptyTexts(fs[0], fs[1..]);
    }
  }

  /** The parser recovers both colours from the full form `fg,bg` of a colour code. */
  lemma ParseBothSpecifiers(fg: Color, bg: Color, rest: seq<byte>, span: Span)
    requires fg != Default
    requires bg == Default ==> rest == [] || !IsDigit(rest[0])
    ensures var code := ColorSpecifier(fg) + [Comma] + ColorSpecifier(bg);
            ColorCodeLength(code + rest) == |code| &&
            ParseColorCode(code + rest, span).0 == span.(foreground := fg, background := bg)
  {
    var code := ColorSpecifier(fg) + [Comma] + ColorSpecifier(bg);
    var d := code + rest;
    assert d[..2] == ColorSpecifier(fg);
    assert DigitRun(d) == 2;
    assert d[3..] == ColorSpecifier(bg) + rest;
    if bg != Default {
      assert d[3..][..2] == ColorSpecifier(bg);
    }
  }
}
