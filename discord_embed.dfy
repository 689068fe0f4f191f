/** `handleEmbed` (bot/discord.go): a Discord embed becomes a block of IRC lines, each led
    by a box-drawing glyph in the IRC colour nearest to the embed's colour. */
module DiscordEmbed {
  import opened Bytes
  import opened Format
  import IrcFormat
  import DiscordColor
  import DiscordClip

  const LeftBracket: byte := 0x5B
  const RightBracket: byte := 0x5D
  const LeftParen: byte := 0x28
  const RightParen: byte := 0x29
  const LessThan: byte := 0x3C
  const GreaterThan: byte := 0x3E

  // ---------------------------------------------------------------------------------------
  // linkRegex: \[([^][]+)\]\(([^()]+)\)  replaced by  "$1 <$2>"

  /** The first index from `i` on holding `a` or `b`, or `|s|` when there is none. */
  function RunEnd(s: seq<byte>, i: nat, a: byte, b: byte): (j: nat)
    requires i <= |s|
    ensures i <= j <= |s|
    ensures forall k :: i <= k < j ==> s[k] != a && s[k] != b
    ensures j < |s| ==> s[j] == a || s[j] == b
    decreases |s| - i
  {
    if i == |s| || s[i] == a || s[i] == b then i else RunEnd(s, i + 1, a, b)
  }

  /** Where the pattern matches at the start of `s`: `]` at `close`, `)` at `end`. */
  datatype LinkMatch = NoLink | Link(close: nat, end: nat)

  /** The pattern at the start of `s`. Neither group can hold the bytes that end it, so the
      greedy runs stop at the first such byte and a match, if any, is unique. */
  function LinkAt(s: seq<byte>): (m: LinkMatch)
    ensures m.Link? ==> 1 < m.close && m.close + 2 < m.end < |s|
  {
    if s == [] || s[0] != LeftBracket then NoLink
    else
      var close := RunEnd(s, 1, LeftBracket, RightBracket);
      if close == 1 || close + 1 >= |s| || s[close] != RightBracket || s[close + 1] != LeftParen then NoLink
      else
        var end := RunEnd(s, close + 2, LeftParen, RightParen);
        if end == close + 2 || end >= |s| || s[end] != RightParen then NoLink
        else Link(close, end)
  }

  /** `linkRegex.ReplaceAllString(s, "$1 <$2>")`: each markdown link `[text](url)`, leftmost
      first and not overlapping, becomes `text <url>`. */
  function RewriteLinks(s: seq<byte>): (r: seq<byte>)
    ensures |r| <= |s|
    ensures r == [] <==> s == []
    decreases |s|
  {
    if s == [] then []
    else
      match LinkAt(s)
      case NoLink => [s[0]] + RewriteLinks(s[1..])
      case Link(close, end) =>
        s[1..close] + [Space, LessThan] + s[close + 2..end] + [GreaterThan] + RewriteLinks(s[end + 1..])
  }

  /** Text without `[` has no link to rewrite. */
  lemma {:induction false} RewriteLinksNoBracket(s: seq<byte>)
    requires LeftBracket !in s
    ensures RewriteLinks(s) == s
    decreases |s|
  {
    if s != [] {
      RewriteLinksNoBracket(s[1..]);
      assert [s[0]] + s[1..] == s;
    }
  }

  /** The markdown link `[text](url)`. */
  function MarkdownLink(text: seq<byte>, url: seq<byte>): seq<byte>
  {
    [LeftBracket] + text + [RightBracket, LeftParen] + url + [RightParen]
  }

  /** A link `[text](url)` at the start becomes `text <url>`, and rewriting goes on after
      it. */
  lemma RewriteOneLink(text: seq<byte>, url: seq<byte>, rest: seq<byte>)
    requires text != [] && LeftBracket !in text && RightBracket !in text
    requires url != [] && LeftParen !in url && RightParen !in url
    ensures RewriteLinks(MarkdownLink(text, url) + rest) == text + [Space, LessThan] + url + [GreaterThan] + RewriteLinks(rest)
  {
    var s := MarkdownLink(text, url) + rest;
    var close := 1 + |text|;
    var end := close + 2 + |url|;
    LinkLayout(text, url, rest, s);
    LinkFound(s, close, end);
    RewriteAtLink(s, close, end, text, url, rest);
  }

  lemma RewriteAtLink(s: seq<byte>, close: nat, end: nat, text: seq<byte>, url: seq<byte>, rest: seq<byte>)
    requires LinkAt(s) == Link(close, end)
    requires s[1..close] == text && s[close + 2..end] == url && s[end + 1..] == rest
    ensures RewriteLinks(s) == text + [Space, LessThan] + url + [GreaterThan] + RewriteLinks(rest)
  {
  }

  lemma LinkLayout(text: seq<byte>, url: seq<byte>, rest: seq<byte>, s: seq<byte>)
    requires s == MarkdownLink(text, url) + rest
    ensures var close, end := 1 + |text|, 3 + |text| + |url|;
            |s| > end && s[0] == LeftBracket && s[close] == RightBracket && s[close + 1] == LeftParen
            && s[end] == RightParen
            && s[1..close] == text && s[close + 2..end] == url && s[end + 1..] == rest
  {
  }

  /** The pattern matches at the start of `s` with `]` at `close` and `)` at `end`. */
  lemma LinkFound(s: seq<byte>, close: nat, end: nat)
    requires 1 < close && close + 2 < end < |s|
    requires s[0] == LeftBracket && s[close] == RightBracket && s[close + 1] == LeftParen && s[end] == RightParen
    requires LeftBracket !in s[1..close] && RightBracket !in s[1..close]
    requires LeftParen !in s[close + 2..end] && RightParen !in s[close + 2..end]
    ensures LinkAt(s) == Link(close, end)
  {
    forall k | 1 <= k < close ensures s[k] != LeftBracket && s[k] != RightBracket {
      assert s[k] == s[1..close][k - 1];
    }
    forall k | close + 2 <= k < end ensures s[k] != LeftParen && s[k] != RightParen {
      assert s[k] == s[close + 2..end][k - close - 2];
    }
    RunEndAt(s, 1, LeftBracket, RightBracket, close);
    RunEndAt(s, close + 2, LeftParen, RightParen, end);
  }

  lemma {:induction false} RunEndAt(s: seq<byte>, i: nat, a: byte, b: byte, j: nat)
    requires i <= j < |s| && (s[j] == a || s[j] == b)
    requires forall k :: i <= k < j ==> s[k] != a && s[k] != b
    ensures RunEnd(s, i, a, b) == j
    decreases j - i
  {
    if i < j {
      RunEndAt(s, i + 1, a, b, j);
    }
  }

  // ---------------------------------------------------------------------------------------
  // The lines of an embed

  /** The parts of a `discord.MessageEmbed` the relay reads; `hasAuthor` is
      `e.Author != nil`. */
  datatype Embed = Embed(title: seq<byte>, description: seq<byte>, url: seq<byte>,
                         hasAuthor: bool, authorName: seq<byte>, authorUrl: seq<byte>, color: int)

  /** `" <url>"`, or nothing without a URL. */
  function UrlSuffix(url: seq<byte>): seq<byte>
  {
    if url == [] then [] else [Space, LessThan] + url + [GreaterThan]
  }

  /** The author line, when the author has a name, then the title and URL. */
  function Header(e: Embed): (r: seq<seq<byte>>)
    ensures 1 <= |r| <= 2 && r[|r| - 1] == e.title + UrlSuffix(e.url)
    ensures |r| == 2 <==> e.hasAuthor && e.authorName != []
    ensures |r| == 2 ==> r[0] == e.authorName + [Space, LessThan] + e.authorUrl + [GreaterThan]
  {
    (if e.hasAuthor && e.authorName != [] then [e.authorName + [Space, LessThan] + e.authorUrl + [GreaterThan]] else [])
    + [e.title + UrlSuffix(e.url)]
  }

  const FullMessageOpen: seq<byte> := Lit("[full message: ")

  /** The description's lines, clipped, or its first lines and `[full message: url]` when
      it is too long for IRC; the description is stored with `paste`. */
  function Body(description: seq<byte>, maxLines: int, paste: seq<byte> -> seq<byte>): (r: Outcome<seq<seq<byte>>>)
    ensures r.Panicked? <==> description != [] && maxLines < 1
    ensures r.Done? && description != [] ==> |r.value| <= maxLines
  {
    if description == [] then Done([])
    else
      var lines := DiscordClip.ClipLines(Split(description, Newline));
      DiscordClip.KeptLeavesRoom(lines, maxLines);
      if |lines| > maxLines || DiscordClip.Overlong(lines) then
        match DiscordClip.Kept(lines, maxLines)
        case Panicked => Panicked
        case Done(kept) => Done(kept + [PasteNotice(description, paste)])
      else Done(lines)
  }

  /** The paste notice of an embed's description. */
  function PasteNotice(description: seq<byte>, paste: seq<byte> -> seq<byte>): seq<byte>
  {
    FullMessageOpen + paste(description) + [RightBracket]
  }

  /** `out` holds at most `maxLines` lines: the first `min(maxLines - 1, |lines|)` of
      `lines`, then `notice`. */
  predicate PastedLines(out: seq<seq<byte>>, lines: seq<seq<byte>>, maxLines: int, notice: seq<byte>)
  {
    1 <= |out| <= maxLines
    && |out| - 1 == (if |lines| < maxLines - 1 then |lines| else maxLines - 1)
    && out[..|out| - 1] == lines[..|out| - 1]
    && out[|out| - 1] == notice
  }

  /** No description, no body lines. */
  lemma BodyEmpty(maxLines: int, paste: seq<byte> -> seq<byte>)
    ensures Body([], maxLines, paste) == Done([])
  {
  }

  /** A description that fits goes out as its clipped lines, all of them, in order. */
  lemma BodyWhole(description: seq<byte>, maxLines: int, paste: seq<byte> -> seq<byte>)
    requires description != []
    requires var lines := DiscordClip.ClipLines(Split(description, Newline));
             |lines| <= maxLines && !DiscordClip.Overlong(lines)
    ensures Body(description, maxLines, paste) == Done(DiscordClip.ClipLines(Split(description, Newline)))
  {
  }

  /** A description too long for IRC: its first clipped lines, then `[full message: url]`
      with the URL the paste sink names for the description. */
  lemma BodyPasted(description: seq<byte>, maxLines: int, paste: seq<byte> -> seq<byte>)
    requires description != [] && maxLines >= 1
    requires var lines := DiscordClip.ClipLines(Split(description, Newline));
             |lines| > maxLines || DiscordClip.Overlong(lines)
    ensures Body(description, maxLines, paste).Done?
    ensures PastedLines(Body(description, maxLines, paste).value, DiscordClip.ClipLines(Split(description, Newline)),
                        maxLines, PasteNotice(description, paste))
  {
    var lines := DiscordClip.ClipLines(Split(description, Newline));
    DiscordClip.KeptLeavesRoom(lines, maxLines);
    var kept := DiscordClip.Kept(lines, maxLines).value;
    var out := kept + [PasteNotice(description, paste)];
    assert Body(description, maxLines, paste) == Done(out);
    assert out[..|out| - 1] == kept;
  }

  /** `│` alone; `╽` opening, `┃` inside and `╿` closing a block of several lines. */
  function Glyph(i: nat, n: nat): (g: seq<byte>)
    ensures |g| == 3 && g[0] == 0xE2
  {
    if n == 1 then [0xE2, 0x94, 0x82]
    else if i == 0 then [0xE2, 0x95, 0xBD]
    else if i == n - 1 then [0xE2, 0x95, 0xBF]
    else [0xE2, 0x94, 0x83]
  }

  /** `%02d` of a byte. */
  function Decimal2(n: byte): (r: seq<byte>)
    ensures n < 100 ==> |r| == 2 && IsDigit(r[0]) && IsDigit(r[1])
                        && IrcFormat.DigitsValue(r) == n as int
  {
    if n < 100 then [(0x30 + n / 10) as byte, (0x30 + n % 10) as byte]
    else [(0x30 + n / 100) as byte, (0x30 + n / 10 % 10) as byte, (0x30 + n % 10) as byte]
  }

  /** `"\x03%02d%s\x03 %s"`: the glyph for line `i` of `n` in colour `code`, then the line
      in the default colour. */
  function Decorate(code: byte, i: nat, n: nat, line: seq<byte>): seq<byte>
  {
    [IrcFormat.ColorByte] + Decimal2(code) + Glyph(i, n) + [IrcFormat.ColorByte, Space] + line
  }

  /** Each of `lines` decorated with its place in the block. */
  function DecorateAll(code: byte, lines: seq<seq<byte>>): (r: seq<seq<byte>>)
    ensures |r| == |lines| && forall i :: 0 <= i < |r| ==> r[i] == Decorate(code, i, |lines|, lines[i])
  {
    seq(|lines|, i requires 0 <= i < |lines| => Decorate(code, i, |lines|, lines[i]))
  }

  /** `handleEmbed`: the lines handed to `incomingDiscord` for an embed, `paste` standing
      for the paste sink; an embed with neither title nor description is taken for a
      bare link and skipped. */
  function EmbedLines(e: Embed, maxLines: int, paste: seq<byte> -> seq<byte>): (r: Outcome<seq<seq<byte>>>)
    ensures r.Panicked? <==> e.description != [] && maxLines < 1
    ensures r.Done? && e.description != [] ==> |r.value| <= 2 + maxLines
    ensures r.Done? && (e.title != [] || e.description != []) ==>
              |r.value| == |Header(e)| + |Body(RewriteLinks(e.description), maxLines, paste).value|
  {
    if e.title == [] && e.description == [] then Done([])
    else
      var code := DiscordColor.ColorCode(e.color);
      match Body(RewriteLinks(e.description), maxLines, paste)
      case Panicked => Panicked
      case Done(body) => Done(DecorateAll(code, Header(e) + body))
  }

  /** An embed is sent as nothing exactly when it has neither a title nor a description. */
  lemma EmbedSkipped(e: Embed, maxLines: int, paste: seq<byte> -> seq<byte>)
    requires maxLines >= 1
    ensures EmbedLines(e, maxLines, paste).Done?
    ensures EmbedLines(e, maxLines, paste).value == [] <==> e.title == [] && e.description == []
  {
    var d := RewriteLinks(e.description);
    if d != [] {
      DiscordClip.KeptLeavesRoom(DiscordClip.ClipLines(Split(d, Newline)), maxLines);
    }
  }

  /** Every line of an embed reads back: ASCII `\x03`, two digits naming an IRC colour from
      2 to 15, a glyph that marks the line as the only one, the first, a middle or the last
      of the block, `\x03 `, then the header or body line in that place. */
  lemma EmbedLineLayout(e: Embed, maxLines: int, paste: seq<byte> -> seq<byte>, i: nat)
    requires EmbedLines(e, maxLines, paste).Done? && i < |EmbedLines(e, maxLines, paste).value|
    ensures var out := EmbedLines(e, maxLines, paste).value; var line, n := out[i], |out|;
            var lines := Header(e) + Body(RewriteLinks(e.description), maxLines, paste).value;
            n == |lines| && LaidOut(line, DiscordColor.ColorCode(e.color), i, n, lines[i])
  {
    var out := EmbedLines(e, maxLines, paste).value;
    var code := DiscordColor.ColorCode(e.color);
    var body := Body(RewriteLinks(e.description), maxLines, paste).value;
    var lines := Header(e) + body;
    assert out == DecorateAll(code, lines);
    DecorateLaidOut(code, i, |lines|, lines[i]);
  }

  /** `line` is `\x03`, the two digits of `code`, the glyph for line `i` of `n`, `\x03 `,
      then `text`. */
  predicate LaidOut(line: seq<byte>, code: byte, i: nat, n: nat, text: seq<byte>)
  {
    |line| >= 8 && line[0] == IrcFormat.ColorByte && line[6] == IrcFormat.ColorByte && line[7] == Space
    && IsDigit(line[1]) && IsDigit(line[2])
    && IrcFormat.DigitsValue(line[1..3]) == code as int
    && 2 <= IrcFormat.DigitsValue(line[1..3]) <= 15
    && line[3..6] == (if n == 1 then [0xE2, 0x94, 0x82]
                      else if i == 0 then [0xE2, 0x95, 0xBD]
                      else if i == n - 1 then [0xE2, 0x95, 0xBF]
                      else [0xE2, 0x94, 0x83])
    && line[8..] == text
  }

  lemma DecorateLaidOut(code: byte, i: nat, n: nat, text: seq<byte>)
    requires 2 <= code <= 15
    ensures LaidOut(Decorate(code, i, n, text), code, i, n, text)
  {
    var line := Decorate(code, i, n, text);
    assert line[1..3] == Decimal2(code);
    assert line[3..6] == Glyph(i, n);
    assert line[8..] == text;
  }

  /** What an IRC client makes of a decorated line: after the first `\x03` the two digits
      set the foreground to the chosen colour (stored plus one) and nothing else, and after
      the second `\x03` the space starts no colour code and sets both colours back to
      Default. */
  lemma DecoratedColors(code: byte, i: nat, n: nat, line: seq<byte>, span: Span)
    requires 2 <= code <= 15
    ensures var d := Decorate(code, i, n, line);
            IrcFormat.ParseColorCode(d[1..], span) == (span.(foreground := code as int + 1), 2)
            && IrcFormat.ParseColorCode(d[7..], span) == (span.(foreground := Default, background := Default), 0)
  {
    var d := Decorate(code, i, n, line);
    var digits := Decimal2(code);
    assert d[1..] == digits + Glyph(i, n) + [IrcFormat.ColorByte, Space] + line;
    assert d[1..][2] == 0xE2;
    assert IrcFormat.DigitRun(d[1..]) == 2;
    assert d[1..][..2] == digits;
    assert d[7..] == [Space] + line;
    assert IrcFormat.DigitRun(d[7..]) == 0;
  }
}
