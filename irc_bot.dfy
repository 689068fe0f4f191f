/** The IRC side of the relay (bot/irc.go): the anti-ping mangling of nicknames, the line
    sent to an IRC channel, and what an incoming PRIVMSG or ACTION hands to the bridge. */
module IrcBot {
  import opened Bytes
  import opened Format
  import IrcFormat
  import IrcCorrected

  const LessThan: byte := 0x3C
  const GreaterThan: byte := 0x3E
  const Underscore: byte := 0x5F

  /** `\w` in Go's regular expressions: an ASCII letter, digit or underscore. */
  predicate IsWordByte(b: byte)
  {
    IsAsciiAlnum(b) || b == Underscore
  }

  /** The regular expression `\b[a-zA-Z0-9]` matches the byte at `i`: an ASCII letter or
      digit with no word byte before it. Go decides `\b` on runes; every byte of a
      multi-byte UTF-8 rune is at least 0x80 and so never a word byte, which gives the same
      answer on bytes. */
  predicate StartsWord(s: seq<byte>, i: int)
    requires 0 <= i < |s|
  {
    IsAsciiAlnum(s[i]) && (i == 0 || !IsWordByte(s[i - 1]))
  }

  /** `iAddAntiPing` on the bytes `s` that remain, `afterWord` saying whether the byte
      before them is a word byte: U+FEFF is written after each byte the pattern matches. */
  function AntiPingFrom(s: seq<byte>, afterWord: bool): (r: seq<byte>)
    ensures |r| >= |s|
    ensures |r| == |s| ==> r == s
    ensures s != [] ==> r != [] && r[0] == s[0]
    decreases |s|
  {
    if s == [] then []
    else
      var marked := if IsAsciiAlnum(s[0]) && !afterWord then [s[0]] + Feff else [s[0]];
      marked + AntiPingFrom(s[1..], IsWordByte(s[0]))
  }

  /** `iAddAntiPing`: `outgoingNickRegex.ReplaceAllString(s, "$0﻿")`. */
  function AddAntiPing(s: seq<byte>): seq<byte>
  {
    AntiPingFrom(s, false)
  }

  // ---------------------------------------------------------------------------------------
  // AddAntiPing against a definition by position

  /** Byte `i` of `s` as the replacement writes it: followed by U+FEFF when the pattern
      matches there. */
  function Marked(s: seq<byte>, i: int): seq<byte>
    requires 0 <= i < |s|
  {
    [s[i]] + (if StartsWord(s, i) then Feff else [])
  }

  /** The first `n` bytes of `s`, each as `Marked` writes it. */
  function MarkedPrefix(s: seq<byte>, n: nat): seq<byte>
    requires n <= |s|
  {
    if n == 0 then [] else MarkedPrefix(s, n - 1) + Marked(s, n - 1)
  }

  /** U+FEFF goes right after each ASCII letter or digit that starts a word, and nowhere
      else; every byte of `s` is kept, in order. */
  lemma AddAntiPingMarksWordStarts(s: seq<byte>)
    ensures AddAntiPing(s) == MarkedPrefix(s, |s|)
  {
    assert s[0..] == s;
    AntiPingSuffix(s, 0);
  }

  lemma {:induction false} AntiPingSuffix(s: seq<byte>, k: nat)
    requires k <= |s|
    ensures MarkedPrefix(s, k) + AntiPingFrom(s[k..], k > 0 && IsWordByte(s[k - 1])) == MarkedPrefix(s, |s|)
    decreases |s| - k
  {
    if k == |s| {
      assert s[k..] == [];
    } else {
      var t := s[k..];
      assert t[0] == s[k] && t[1..] == s[k + 1..];
      var flag := k > 0 && IsWordByte(s[k - 1]);
      assert (IsAsciiAlnum(s[k]) && !flag) == StartsWord(s, k);
      assert AntiPingFrom(t, flag) == Marked(s, k) + AntiPingFrom(s[k + 1..], IsWordByte(s[k]));
      AntiPingSuffix(s, k + 1);
      AppendAssoc(MarkedPrefix(s, k), Marked(s, k), AntiPingFrom(s[k + 1..], IsWordByte(s[k])));
    }
  }

  lemma AppendAssoc(a: seq<byte>, b: seq<byte>, c: seq<byte>)
    ensures a + (b + c) == a + b + c
  {
  }

  // ---------------------------------------------------------------------------------------
  // Removing the marks

  /** U+FEFF does not occur in `s`. */
  predicate NoFeff(s: seq<byte>)
  {
    forall p :: 0 <= p <= |s| ==> !OccursAt(s, Feff, p)
  }

  /** Deleting every U+FEFF from the mangled name gives back the name, when the name had
      none of its own. */
  lemma AntiPingRemovable(s: seq<byte>)
    requires NoFeff(s)
    ensures ReplaceAll(AddAntiPing(s), Feff, []) == s
  {
    AntiPingFromRemovable(s, false);
  }

  lemma {:induction false} AntiPingFromRemovable(s: seq<byte>, afterWord: bool)
    requires NoFeff(s)
    ensures ReplaceAll(AntiPingFrom(s, afterWord), Feff, []) == s
    decreases |s|
  {
    if s != [] {
      var rest := AntiPingFrom(s[1..], IsWordByte(s[0]));
      NoFeffTail(s);
      AntiPingFromRemovable(s[1..], IsWordByte(s[0]));
      if IsAsciiAlnum(s[0]) && !afterWord {
        var r := [s[0]] + Feff + rest;
        assert r[..|Feff|] != Feff by { assert r[0] == s[0]; }
        assert r[1..] == Feff + rest;
        assert (Feff + rest)[..|Feff|] == Feff && (Feff + rest)[|Feff|..] == rest;
        assert [s[0]] + s[1..] == s;
      } else {
        var r := [s[0]] + rest;
        assert AntiPingFrom(s, afterWord) == r;
        if |r| < |Feff| {
          assert |rest| == |s[1..]|;
          assert r == s;
        } else {
          SecondMarkFree(s, rest);
          assert r[1..] == rest;
          assert [s[0]] + s[1..] == s;
        }
      }
    }
  }

  lemma NoFeffTail(s: seq<byte>)
    requires s != [] && NoFeff(s)
    ensures NoFeff(s[1..])
  {
    forall p | 0 <= p <= |s[1..]| ensures !OccursAt(s[1..], Feff, p) {
      assert !OccursAt(s, Feff, p + 1);
      if p + |Feff| <= |s[1..]| {
        assert s[1..][p..p + |Feff|] == s[p + 1..p + 1 + |Feff|];
      }
    }
  }

  /** Where no mark follows the first byte, a U+FEFF at the start of the output would be
      one at the start of the input. */
  lemma SecondMarkFree(s: seq<byte>, rest: seq<byte>)
    requires s != [] && NoFeff(s)
    requires rest == AntiPingFrom(s[1..], IsWordByte(s[0]))
    requires |[s[0]] + rest| >= |Feff|
    ensures ([s[0]] + rest)[..|Feff|] != Feff
  {
    var r := [s[0]] + rest;
    var t := s[1..];
    assert t != [] && rest[0] == t[0];
    if s[0] != 0xEF {
      assert r[..|Feff|][0] != Feff[0];
    } else if t[0] != 0xBB {
      assert r[..|Feff|][1] != Feff[1];
    } else {
      var rest2 := AntiPingFrom(t[1..], IsWordByte(t[0]));
      assert rest == [t[0]] + rest2;
      assert t[1..] != [] && rest2[0] == t[1..][0] == s[2];
      assert !OccursAt(s, Feff, 0);
      assert s[..3] == [s[0], s[1], s[2]];
      assert r[..|Feff|][2] != Feff[2];
    }
  }

  /** A name without ASCII letters or digits, "" included, goes out unchanged. */
  lemma AntiPingKeepsNonAlnum(s: seq<byte>)
    requires forall i :: 0 <= i < |s| ==> !IsAsciiAlnum(s[i])
    ensures AddAntiPing(s) == s
  {
    AntiPingFromKeepsNonAlnum(s, false);
  }

  lemma {:induction false} AntiPingFromKeepsNonAlnum(s: seq<byte>, afterWord: bool)
    requires forall i :: 0 <= i < |s| ==> !IsAsciiAlnum(s[i])
    ensures AntiPingFrom(s, afterWord) == s
    decreases |s|
  {
    if s != [] {
      assert !IsAsciiAlnum(s[0]);
      AntiPingFromKeepsNonAlnum(s[1..], IsWordByte(s[0]));
      assert [s[0]] + s[1..] == s;
    }
  }

  // ---------------------------------------------------------------------------------------
  // iOutgoing

  /** The line `iOutgoing` sends: `<nick> ` with the nick mangled, then the message rendered
      with IRC control codes (by the renderer with its colour-code defects repaired). */
  function OutgoingLine(nick: seq<byte>, message: FormattedString): seq<byte>
  {
    [LessThan] + AddAntiPing(nick) + [GreaterThan, Space] + IrcCorrected.RenderCorrected(message)
  }

  /** The line is `<`, the mangled nick, `> `, then exactly the rendered message; the nick
      can be read back from it, and so can every message `ParseIRC` could have produced
      whose neighbouring spans differ in style. */
  lemma OutgoingLineLayout(nick: seq<byte>, message: FormattedString)
    requires NoFeff(nick)
    ensures var line, n := OutgoingLine(nick, message), |AddAntiPing(nick)|;
              |line| >= n + 3 && line[0] == LessThan && line[n + 1] == GreaterThan && line[n + 2] == Space
              && ReplaceAll(line[1..n + 1], Feff, []) == nick
              && line[n + 3..] == IrcCorrected.RenderCorrected(message)
    ensures IrcFormat.AllWellFormed(message) && IrcCorrected.AdjacentDistinct(message) ==>
              var n := |AddAntiPing(nick)|;
              IrcFormat.Parse(OutgoingLine(nick, message)[n + 3..]) == message
    ensures IrcFormat.AllWellFormed(message) && IrcCorrected.AdjacentDistinct(message) ==>
              var n := |AddAntiPing(nick)|;
              (IrcFormat.ReencodeSpans(IrcFormat.Parse(OutgoingLine(nick, message)[n + 3..])) == message
               <==> IrcFormat.AsciiTexts(message))
  {
    LineLayout(AddAntiPing(nick), IrcCorrected.RenderCorrected(message));
    AntiPingRemovable(nick);
    if IrcFormat.AllWellFormed(message) && IrcCorrected.AdjacentDistinct(message) {
      IrcCorrected.RoundTrip(message);
      IrcCorrected.RoundTripAsWritten(message);
    }
  }

  /** Where the pieces of `<nick> text` sit. */
  lemma LineLayout(mangled: seq<byte>, rendered: seq<byte>)
    ensures var line, n := [LessThan] + mangled + [GreaterThan, Space] + rendered, |mangled|;
              |line| == n + 3 + |rendered| && line[0] == LessThan && line[n + 1] == GreaterThan
              && line[n + 2] == Space && line[1..n + 1] == mangled && line[n + 3..] == rendered
  {
    var line := [LessThan] + mangled + [GreaterThan, Space] + rendered;
    var n := |mangled|;
    assert line[1..n + 1] == mangled;
    assert line[n + 3..] == rendered;
  }

  // ---------------------------------------------------------------------------------------
  // iPrivmsg and iAction

  /** `strings.ToLower` on ASCII letters. */
  function LowerAscii(s: seq<byte>): (r: seq<byte>)
    ensures |r| == |s|
    ensures forall i :: 0 <= i < |s| ==> r[i] == (if 0x41 <= s[i] <= 0x5A then s[i] + 0x20 else s[i])
  {
    if s == [] then [] else [if 0x41 <= s[0] <= 0x5A then s[0] + 0x20 else s[0]] + LowerAscii(s[1..])
  }

  /** Lower-casing leaves no ASCII capital, and a second time changes nothing. */
  lemma LowerAsciiIdempotent(s: seq<byte>)
    ensures forall i :: 0 <= i < |s| ==> !(0x41 <= LowerAscii(s)[i] <= 0x5A)
    ensures LowerAscii(LowerAscii(s)) == LowerAscii(s)
  {
  }

  /** What an IRC event hands to `incomingIRC`: nick, channel and message. */
  datatype Incoming = Incoming(nick: seq<byte>, channel: seq<byte>, message: seq<byte>)

  /** `iPrivmsg`: the channel (the first argument) lower-cased, the message as it came. */
  function Privmsg(nick: seq<byte>, target: seq<byte>, message: seq<byte>): (r: Incoming)
    ensures r.nick == nick && r.message == message && r.channel == LowerAscii(target)
  {
    Incoming(nick, LowerAscii(target), message)
  }

  /** `iAction`: the same, with the action text wrapped as `_text_`. */
  function Action(nick: seq<byte>, target: seq<byte>, message: seq<byte>): Incoming
  {
    Incoming(nick, LowerAscii(target), [Underscore] + message + [Underscore])
  }

  /** An action goes to the same channel as a message would and carries the text between
      two underscores, which Discord shows in italics. */
  lemma ActionWrapsText(nick: seq<byte>, target: seq<byte>, message: seq<byte>)
    ensures var a, p := Action(nick, target, message), Privmsg(nick, target, message);
            a.nick == p.nick && a.channel == p.channel
            && |a.message| == |message| + 2
            && a.message[0] == Underscore && a.message[|a.message| - 1] == Underscore
            && a.message[1..|a.message| - 1] == p.message
  {
    var t := [Underscore] + message + [Underscore];
    assert t[1..|t| - 1] == message;
  }
}
