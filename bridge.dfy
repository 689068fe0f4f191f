/** The routing table between IRC and Discord channels and the older IRC-to-Discord
    text conversion (bot/bridge.go). */
module Bridge {
  import opened Bytes
  import opened Rewrites
  import opened IrcFormat

  // ----- `fmtReplaceInPairs` -----

  /** Number of leftmost, non-overlapping occurrences of `f` in `s`. */
  function Count(s: seq<byte>, f: Find): nat
    decreases |s|
  {
    if |s| < |f| then 0
    else if s[..|f|] == f then 1 + Count(s[|f|..], f)
    else Count(s[1..], f)
  }

  /** Every occurrence of `find` becomes `replace`, and one more `replace` closes an odd
      count. */
  function InPairs(msg: seq<byte>, find: Find, replace: seq<byte>): seq<byte>
  {
    ReplaceAll(msg, find, replace) + (if Count(msg, find) % 2 == 1 then replace else [])
  }

  /** The scan of `fmtReplaceInPairs` has read `msg[..i]`, written `out` and seen `n`
      matches. */
  predicate Scanned(msg: seq<byte>, f: Find, replace: seq<byte>, i: nat, out: seq<byte>, n: nat)
  {
    i <= |msg| &&
    out + ReplaceAll(msg[i..], f, replace) == ReplaceAll(msg, f, replace) &&
    n + Count(msg[i..], f) == Count(msg, f)
  }

  /** A match at position `i`: `replace` is emitted and the match skipped. */
  lemma ScanMatch(msg: seq<byte>, f: Find, replace: seq<byte>, i: nat, out: seq<byte>, n: nat)
    requires Scanned(msg, f, replace, i, out, n) && OccursAt(msg, f, i)
    ensures Scanned(msg, f, replace, i + |f|, out + replace, n + 1)
  {
    var t := msg[i..];
    assert t[..|f|] == msg[i..i + |f|] && t[|f|..] == msg[i + |f|..];
  }

  /** No match at position `i`: the byte there is copied. */
  lemma ScanSkip(msg: seq<byte>, f: Find, replace: seq<byte>, i: nat, out: seq<byte>, n: nat)
    requires Scanned(msg, f, replace, i, out, n) && i < |msg| && !OccursAt(msg, f, i)
    ensures Scanned(msg, f, replace, i + 1, out + [msg[i]], n)
  {
    var t := msg[i..];
    assert t[0] == msg[i] && t[1..] == msg[i + 1..];
    if |t| < |f| {
      assert [t[0]] + t[1..] == t;
    } else {
      assert t[..|f|] == msg[i..i + |f|];
    }
  }

  /** The whole message read: `out` is the replaced message and `n` the match count. */
  lemma ScanDone(msg: seq<byte>, f: Find, replace: seq<byte>, out: seq<byte>, n: nat)
    requires Scanned(msg, f, replace, |msg|, out, n)
    ensures out == ReplaceAll(msg, f, replace) && n == Count(msg, f)
  {
    assert msg[|msg|..] == [];
    assert out + [] == out;
  }

  /** `fmtReplaceInPairs`: the callback flips `active` on each match, and a message left
      active gets a closing `replace`. */
  method ReplaceInPairs(msg: seq<byte>, find: Find, replace: seq<byte>) returns (r: seq<byte>)
    ensures r == InPairs(msg, find, replace)
  {
    var out: seq<byte> := [];
    var active := false;
    ghost var n := 0;
    var i := 0;
    assert msg[0..] == msg;
    while i < |msg|
      invariant Scanned(msg, find, replace, i, out, n)
      invariant active <==> n % 2 == 1
      decreases |msg| - i
    {
      if OccursAt(msg, find, i) {
        ScanMatch(msg, find, replace, i, out, n);
        out := out + replace;
        active := !active;
        n := n + 1;
        i := i + |find|;
      } else {
        ScanSkip(msg, find, replace, i, out, n);
        out := out + [msg[i]];
        i := i + 1;
      }
    }
    ScanDone(msg, find, replace, out, n);
    if active {
      out := out + replace;
    }
    r := out;
  }

  /** Appending one more single-byte marker adds one occurrence and one replacement. */
  lemma {:induction false} AppendMarker(s: seq<byte>, b: byte, replace: seq<byte>)
    ensures Count(s + [b], [b]) == Count(s, [b]) + 1
    ensures ReplaceAll(s + [b], [b], replace) == ReplaceAll(s, [b], replace) + replace
    decreases |s|
  {
    var f: Find := [b];
    if s == [] {
      assert [] + [b] == f;
      assert f[..1] == f && f[1..] == [];
    } else {
      var t := s + [b];
      assert t[1..] == s[1..] + [b];
      assert t[..1] == s[..1];
      if s[..1] == f {
        assert t[1..] == t[|f|..] && s[1..] == s[|f|..];
      }
      AppendMarker(s[1..], b, replace);
    }
  }

  /** For a one-byte marker, the closing `replace` is what an extra marker at the end of
      the message would produce: the markers out of `fmtReplaceInPairs` come in pairs. */
  lemma PairsClosed(msg: seq<byte>, b: byte, replace: seq<byte>)
    ensures var closed := if Count(msg, [b]) % 2 == 1 then msg + [b] else msg;
            InPairs(msg, [b], replace) == ReplaceAll(closed, [b], replace)
            && Count(closed, [b]) % 2 == 0
  {
    AppendMarker(msg, b, replace);
    if Count(msg, [b]) % 2 == 0 {
      assert ReplaceAll(msg, [b], replace) + [] == ReplaceAll(msg, [b], replace);
    }
  }

  /** A one-byte marker does not survive being replaced by text without it. */
  lemma {:induction false} ReplaceAllRemoves(s: seq<byte>, b: byte, replace: seq<byte>)
    requires b !in replace
    ensures b !in ReplaceAll(s, [b], replace)
    decreases |s|
  {
    if |s| >= 1 {
      if s[..1] == [b] {
        ReplaceAllRemoves(s[1..], b, replace);
      } else {
        assert s[..1] == [s[0]];
        ReplaceAllRemoves(s[1..], b, replace);
      }
    }
  }

  // ----- `specialIrc` -----

  /** `specialIrc.ReplaceAllString(msg, "")` with the pattern `\x0f|\x03[0-9]{0,2}` as
      written: a colour code loses only its foreground digits. */
  function StripSpecialAsWritten(s: seq<byte>): (r: seq<byte>)
    ensures ResetByte !in r && ColorByte !in r
    decreases |s|
  {
    if s == [] then []
    else if s[0] == ResetByte then StripSpecialAsWritten(s[1..])
    else if s[0] == ColorByte then StripSpecialAsWritten(s[1 + DigitRun(s[1..])..])
    else [s[0]] + StripSpecialAsWritten(s[1..])
  }

  /** The strip with colour codes taken whole, `,background` included, as the IRC
      parser in format/irc.go reads them. */
  function StripSpecial(s: seq<byte>): (r: seq<byte>)
    ensures ResetByte !in r && ColorByte !in r
    decreases |s|
  {
    if s == [] then []
    else if s[0] == ResetByte then StripSpecial(s[1..])
    else if s[0] == ColorByte then StripSpecial(s[1 + ColorCodeLength(s[1..])..])
    else [s[0]] + StripSpecial(s[1..])
  }

  /** Text without reset or colour bytes. */
  predicate Plain(s: seq<byte>)
  {
    ResetByte !in s && ColorByte !in s
  }

  lemma {:induction false} StripPlainPrefix(p: seq<byte>, t: seq<byte>)
    requires Plain(p)
    ensures StripSpecial(p + t) == p + StripSpecial(t)
    decreases |p|
  {
    if p != [] {
      var q := p + t;
      assert p[0] in p;
      assert q[0] == p[0] && q[1..] == p[1..] + t;
      assert StripSpecial(q) == [p[0]] + StripSpecial(q[1..]);
      assert Plain(p[1..]) by {
        assert forall x :: x in p[1..] ==> x in p;
      }
      StripPlainPrefix(p[1..], t);
      assert [p[0]] + p[1..] == p;
    } else {
      assert p + t == t;
    }
  }

  lemma {:induction false} StripAsWrittenPlainPrefix(p: seq<byte>, t: seq<byte>)
    requires Plain(p)
    ensures StripSpecialAsWritten(p + t) == p + StripSpecialAsWritten(t)
    decreases |p|
  {
    if p != [] {
      var q := p + t;
      assert p[0] in p;
      assert q[0] == p[0] && q[1..] == p[1..] + t;
      assert StripSpecialAsWritten(q) == [p[0]] + StripSpecialAsWritten(q[1..]);
      assert Plain(p[1..]) by {
        assert forall x :: x in p[1..] ==> x in p;
      }
      StripAsWrittenPlainPrefix(p[1..], t);
      assert [p[0]] + p[1..] == p;
    } else {
      assert p + t == t;
    }
  }

  /** Text without reset or colour bytes passes the strip unchanged. */
  lemma StripPlain(s: seq<byte>)
    requires Plain(s)
    ensures StripSpecial(s) == s && StripSpecialAsWritten(s) == s
  {
    StripPlainPrefix(s, []);
    StripAsWrittenPlainPrefix(s, []);
    assert s + [] == s;
  }

  /** One or two decimal digits. */
  predicate ColorDigits(d: seq<byte>)
  {
    1 <= |d| <= 2 && forall k :: 0 <= k < |d| ==> IsDigit(d[k])
  }

  /** Text that does not continue a run of colour digits. */
  predicate NoDigitAfter(d: seq<byte>, t: seq<byte>)
  {
    |d| == 2 || t == [] || !IsDigit(t[0])
  }

  /** As written, `\x03fg,bg` leaves `,bg` in the text. */
  lemma AsWrittenLeavesBackground(fg: seq<byte>, bg: seq<byte>, t: seq<byte>)
    requires ColorDigits(fg) && ColorDigits(bg)
    ensures StripSpecialAsWritten([ColorByte] + fg + [Comma] + bg + t)
              == [Comma] + bg + StripSpecialAsWritten(t)
  {
    var s := [ColorByte] + fg + [Comma] + bg + t;
    var d := s[1..];
    assert d == fg + [Comma] + bg + t;
    assert d[0] == fg[0];
    assert |fg| == 2 ==> d[1] == fg[1];
    assert |fg| == 1 ==> d[1] == Comma;
    assert DigitRun(d) == |fg|;
    assert s[1 + |fg|..] == [Comma] + bg + t;
    assert Plain([Comma] + bg) by {
      assert forall k :: 0 <= k < |bg| ==> bg[k] != ResetByte && bg[k] != ColorByte;
    }
    StripAsWrittenPlainPrefix([Comma] + bg, t);
  }

  /** The whole colour code, background included, is removed. */
  lemma StripRemovesBackground(fg: seq<byte>, bg: seq<byte>, t: seq<byte>)
    requires ColorDigits(fg) && ColorDigits(bg) && NoDigitAfter(bg, t)
    ensures StripSpecial([ColorByte] + fg + [Comma] + bg + t) == StripSpecial(t)
  {
    var s := [ColorByte] + fg + [Comma] + bg + t;
    var d := s[1..];
    assert d == fg + [Comma] + bg + t;
    assert d[0] == fg[0];
    assert |fg| == 2 ==> d[1] == fg[1];
    assert |fg| == 1 ==> d[1] == Comma;
    assert DigitRun(d) == |fg|;
    assert HasComma(d);
    var e := d[|fg| + 1..];
    assert e == bg + t;
    assert e[0] == bg[0];
    assert |bg| == 2 ==> e[1] == bg[1];
    assert |bg| == 1 && t != [] ==> e[1] == t[0];
    assert DigitRun(e) == |bg|;
    assert ColorCodeLength(d) == |fg| + 1 + |bg|;
    assert s[1 + |fg| + 1 + |bg|..] == t;
  }

  /** `\x034,5hi` relays as `,5hi` when written as in the source, as `hi` with the whole
      colour code removed. */
  lemma BackgroundExample()
    ensures StripSpecialAsWritten([ColorByte, 0x34, Comma, 0x35, 0x68, 0x69]) == [Comma, 0x35, 0x68, 0x69]
    ensures StripSpecial([ColorByte, 0x34, Comma, 0x35, 0x68, 0x69]) == [0x68, 0x69]
  {
    var t := [0x68, 0x69];
    assert [ColorByte, 0x34, Comma, 0x35, 0x68, 0x69] == [ColorByte] + [0x34] + [Comma] + [0x35] + t;
    AsWrittenLeavesBackground([0x34], [0x35], t);
    StripRemovesBackground([0x34], [0x35], t);
    StripPlain(t);
  }

  // ----- `fmtIrcToDiscord` -----

  const Asterisk: byte := 0x2A
  const Underscore: byte := 0x5F

  /** Colour and reset codes stripped, then bold, underline and italic turned into
      Discord markdown, each closed at the end when left open. */
  function IrcToDiscordText(msg: seq<byte>): seq<byte>
  {
    var bold := InPairs(StripSpecial(msg), [BoldByte], [Asterisk, Asterisk]);
    var underline := InPairs(bold, [UnderlineByte], [Underscore, Underscore]);
    InPairs(underline, [ItalicByte], [Asterisk])
  }

  /** `fmtIrcToDiscord`. */
  method FmtIrcToDiscord(msg: seq<byte>) returns (r: seq<byte>)
    ensures r == IrcToDiscordText(msg)
  {
    r := StripSpecial(msg);
    r := ReplaceInPairs(r, [BoldByte], [Asterisk, Asterisk]);
    r := ReplaceInPairs(r, [UnderlineByte], [Underscore, Underscore]);
    r := ReplaceInPairs(r, [ItalicByte], [Asterisk]);
  }

  /** The formatting bytes `fmtIrcToDiscord` handles do not reach Discord. */
  lemma IrcToDiscordRemovesCodes(msg: seq<byte>)
    ensures var r := IrcToDiscordText(msg);
            ResetByte !in r && ColorByte !in r && BoldByte !in r && UnderlineByte !in r &&
            ItalicByte !in r
  {
    var s := StripSpecial(msg);
    var strong: seq<byte> := [Asterisk, Asterisk];
    var under: seq<byte> := [Underscore, Underscore];
    var em: seq<byte> := [Asterisk];
    var bold := InPairs(s, [BoldByte], strong);
    ReplaceAllRemoves(s, BoldByte, strong);
    ReplaceAllKeepsOut(s, [BoldByte], strong, ResetByte);
    ReplaceAllKeepsOut(s, [BoldByte], strong, ColorByte);
    var underline := InPairs(bold, [UnderlineByte], under);
    ReplaceAllRemoves(bold, UnderlineByte, under);
    ReplaceAllKeepsOut(bold, [UnderlineByte], under, ResetByte);
    ReplaceAllKeepsOut(bold, [UnderlineByte], under, ColorByte);
    ReplaceAllKeepsOut(bold, [UnderlineByte], under, BoldByte);
    ReplaceAllRemoves(underline, ItalicByte, em);
    ReplaceAllKeepsOut(underline, [ItalicByte], em, ResetByte);
    ReplaceAllKeepsOut(underline, [ItalicByte], em, ColorByte);
    ReplaceAllKeepsOut(underline, [ItalicByte], em, BoldByte);
    ReplaceAllKeepsOut(underline, [ItalicByte], em, UnderlineByte);
  }

  // ----- the routing table -----

  /** No two IRC channels map to the same Discord channel. */
  predicate Injective(m: map<seq<byte>, seq<byte>>)
  {
    forall k1, k2 :: k1 in m && k2 in m && m[k1] == m[k2] ==> k1 == k2
  }

  /** `inverse` maps every Discord channel of `m` back to an IRC channel that maps to it. */
  predicate InverseOf(inverse: map<seq<byte>, seq<byte>>, m: map<seq<byte>, seq<byte>>)
  {
    inverse.Keys == m.Values &&
    forall v :: v in inverse ==> inverse[v] in m && m[inverse[v]] == v
  }

  /** With an injective mapping the inverse is exact. */
  lemma InverseExact(inverse: map<seq<byte>, seq<byte>>, m: map<seq<byte>, seq<byte>>)
    requires InverseOf(inverse, m) && Injective(m)
    ensures forall k :: k in m ==> m[k] in inverse && inverse[m[k]] == k
  {
    forall k | k in m ensures m[k] in inverse && inverse[m[k]] == k {
      assert m[k] in m.Values;
      var k' := inverse[m[k]];
      assert m[k'] == m[k];
    }
  }

  /** What a relay function hands on: nothing, or the message for the other network. */
  datatype Route = Dropped | Relay(nick: seq<byte>, channel: seq<byte>, message: seq<byte>)

  /** The configured channel mapping (IRC channel to Discord channel) and its inverse. */
  class Bridge {
    var mapping: map<seq<byte>, seq<byte>>
    var inverse: map<seq<byte>, seq<byte>>

    constructor ()
      ensures mapping == map[] && inverse == map[]
    {
      mapping := map[];
      inverse := map[];
    }

    /** `Init`: store the mapping and build the inverse, in map iteration order, which
        Go leaves unspecified. */
    method Init(c: map<seq<byte>, seq<byte>>)
      modifies this
      ensures mapping == c
      ensures InverseOf(inverse, c)
    {
      mapping := c;
      var inv: map<seq<byte>, seq<byte>> := map[];
      var todo := c.Keys;
      while todo != {}
        invariant todo <= c.Keys
        invariant forall v :: v in inv <==> exists k :: k in c && k !in todo && c[k] == v
        invariant forall v :: v in inv ==> inv[v] in c && c[inv[v]] == v
        decreases |todo|
      {
        var k :| k in todo;
        inv := inv[c[k] := k];
        todo := todo - {k};
      }
      inverse := inv;
    }

    /** `incomingIRC`: a message from an unmapped IRC channel is dropped; otherwise its
        text is converted and it goes to the mapped Discord channel. */
    function IncomingIrc(nick: seq<byte>, channel: seq<byte>, message: seq<byte>): (r: Route)
      reads this
      ensures r.Dropped? <==> channel !in mapping
      ensures r.Relay? ==> r.nick == nick && r.channel == mapping[channel] && r.message == IrcToDiscordText(message)
    {
      if channel !in mapping then Dropped
      else Relay(nick, mapping[channel], IrcToDiscordText(message))
    }

    /** `incomingDiscord`: a message from a Discord channel no IRC channel maps to is
        dropped; otherwise it goes unchanged to the IRC channel of the inverse mapping. */
    function IncomingDiscord(nick: seq<byte>, channel: seq<byte>, message: seq<byte>): (r: Route)
      reads this
      ensures r.Dropped? <==> channel !in inverse
      ensures r.Relay? ==> r == Relay(nick, inverse[channel], message)
    {
      if channel !in inverse then Dropped else Relay(nick, inverse[channel], message)
    }
  }

  /** After `Init`, Discord messages are relayed exactly from the channels some IRC
      channel maps to, and with an injective mapping a message from a mapped IRC channel
      and one from the Discord channel it reaches travel between the same two channels. */
  lemma RoutesBack(b: Bridge, ircChannel: seq<byte>, nick: seq<byte>, message: seq<byte>,
                   discordChannel: seq<byte>)
    requires InverseOf(b.inverse, b.mapping)
    ensures b.IncomingDiscord(nick, discordChannel, message).Relay? <==>
              exists k :: k in b.mapping && b.mapping[k] == discordChannel
    ensures Injective(b.mapping) && ircChannel in b.mapping ==>
              var out := b.IncomingIrc(nick, ircChannel, message);
              out.Relay? && b.IncomingDiscord(nick, out.channel, message)
                              == Relay(nick, ircChannel, message)
  {
    assert discordChannel in b.mapping.Values <==>
             exists k :: k in b.mapping && b.mapping[k] == discordChannel;
    if Injective(b.mapping) {
      InverseExact(b.inverse, b.mapping);
    }
  }
}
