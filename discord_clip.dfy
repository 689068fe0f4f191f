/** `clipLinesForIRC` and `dispatchMessageToIRC` (bot/discord.go): a Discord message is cut
    into lines, long lines are packed word by word into IRC-sized pieces, and when too many
    lines remain (or a single word is too long) the message goes to a paste sink instead,
    with only its first lines on IRC. */
module DiscordClip {
  import opened Bytes
  import IrcBot

  /** Lines of this many bytes or more are cut at spaces. */
  const Limit: nat := 300

  // ---------------------------------------------------------------------------------------
  // Packing words into sub-lines

  /** The sub-lines still to come when the line being built is `l` and the words `ws` are
      left: a word joins `l` (after a space) while the two lengths add up to less than
      `Limit`. */
  function Greedy(l: seq<byte>, ws: seq<seq<byte>>): (r: seq<seq<byte>>)
    ensures r != [] && |r[0]| >= |l|
    decreases |ws|
  {
    if ws == [] then [l]
    else if |l| + |ws[0]| < Limit then Greedy(l + [Space] + ws[0], ws[1..])
    else [l] + Greedy(ws[0], ws[1..])
  }

  /** All the sub-lines of the words `ws`. */
  function Pack(ws: seq<seq<byte>>): seq<seq<byte>>
  {
    if ws == [] then [] else Greedy(ws[0], ws[1..])
  }

  /** What one input line becomes: itself when shorter than `Limit`, otherwise its words
      (`strings.Split(line, " ")`) packed. */
  function ClipLine(line: seq<byte>): (r: seq<seq<byte>>)
    ensures r != []
  {
    if |line| < Limit then [line] else Pack(Split(line, Space))
  }

  /** The clipped lines of `s`, line after line. */
  function ClipLines(s: seq<seq<byte>>): (r: seq<seq<byte>>)
    ensures |r| >= |s|
  {
    if s == [] then [] else ClipLines(s[..|s| - 1]) + ClipLine(s[|s| - 1])
  }

  /** Some line of `r` is longer than `Limit`: `anyLineForceClip`. */
  predicate Overlong(r: seq<seq<byte>>)
  {
    exists k :: 0 <= k < |r| && |r[k]| > Limit
  }

  lemma OverlongAppend(a: seq<seq<byte>>, b: seq<seq<byte>>)
    ensures Overlong(a + b) <==> Overlong(a) || Overlong(b)
  {
    if Overlong(b) {
      var k :| 0 <= k < |b| && |b[k]| > Limit;
      assert (a + b)[|a| + k] == b[k];
    }
    if Overlong(a) {
      var k :| 0 <= k < |a| && |a[k]| > Limit;
      assert (a + b)[k] == a[k];
    }
  }

  /** `clipLinesForIRC`: the clipped lines and whether one of them is over `Limit`. */
  method ClipLinesForIrc(s: seq<seq<byte>>) returns (ret: seq<seq<byte>>, forceClip: bool)
    ensures ret == ClipLines(s)
    ensures forceClip == Overlong(ret)
  {
    ret := [];
    forceClip := false;
    var i := 0;
    while i < |s|
      invariant 0 <= i <= |s|
      invariant ret == ClipLines(s[..i])
      invariant forceClip == Overlong(ret)
    {
      var line := s[i];
      assert s[..i + 1][..i] == s[..i];
      ghost var before := ret;
      if |line| < Limit {
        OverlongAppend(ret, [line]);
        ret := ret + [line];
      } else {
        var words := Split(line, Space);
        while words != []
          invariant ret + Pack(words) == before + ClipLine(line)
          invariant forceClip == Overlong(ret)
          decreases |words|
        {
          var l := words[0];
          words := words[1..];
          while words != [] && |l| + |words[0]| < Limit
            invariant ret + Greedy(l, words) == before + ClipLine(line)
            decreases |words|
          {
            l := l + [Space] + words[0];
            words := words[1..];
          }
          assert Greedy(l, words) == [l] + Pack(words);
          OverlongAppend(ret, [l]);
          forceClip := forceClip || |l| > Limit;
          ret := ret + [l];
        }
      }
      i := i + 1;
    }
    assert s[..|s|] == s;
  }

  // ---------------------------------------------------------------------------------------
  // What clipping preserves

  /** Lines shorter than `Limit` go through unchanged and in order. */
  lemma {:induction false} ClipKeepsShortLines(s: seq<seq<byte>>)
    requires forall i :: 0 <= i < |s| ==> |s[i]| < Limit
    ensures ClipLines(s) == s
  {
    if s != [] {
      ClipKeepsShortLines(s[..|s| - 1]);
    }
  }

  /** Clipping works line by line: the clipped lines of `a + b` are those of `a`, then
      those of `b`. */
  lemma {:induction false} ClipLinesAppend(a: seq<seq<byte>>, b: seq<seq<byte>>)
    ensures ClipLines(a + b) == ClipLines(a) + ClipLines(b)
    decreases |b|
  {
    if b == [] {
      assert a + b == a;
    } else {
      var b' := b[..|b| - 1];
      assert (a + b)[..|a + b| - 1] == a + b';
      ClipLinesAppend(a, b');
    }
  }

  /** Joining a line's sub-lines with spaces gives the line back. */
  lemma JoinClipLine(line: seq<byte>)
    ensures Join(ClipLine(line), Space) == line
  {
    if |line| >= Limit {
      var ws := Split(line, Space);
      JoinGreedy(ws[0], ws[1..]);
      assert [ws[0]] + ws[1..] == ws;
      JoinSplit(line, Space);
    }
  }

  lemma {:induction false} JoinGreedy(l: seq<byte>, ws: seq<seq<byte>>)
    ensures Join(Greedy(l, ws), Space) == Join([l] + ws, Space)
    decreases |ws|
  {
    if ws != [] {
      var rest := ws[1..];
      assert ([l] + ws)[1..] == ws;
      if |l| + |ws[0]| < Limit {
        var l' := l + [Space] + ws[0];
        JoinGreedy(l', rest);
        assert ([l'] + rest)[1..] == rest;
        assert ws == [ws[0]] + rest && (ws[1..] == rest);
        if rest != [] {
          assert Join(ws, Space) == ws[0] + [Space] + Join(rest, Space);
        }
      } else {
        JoinGreedy(ws[0], rest);
        assert ([ws[0]] + rest) == ws;
        assert ([l] + Greedy(ws[0], rest))[1..] == Greedy(ws[0], rest);
      }
    }
  }

  /** A sub-line made of more than one word is at most `Limit` bytes long. */
  lemma MultiWordWithinLimit(line: seq<byte>, k: int)
    requires 0 <= k < |ClipLine(line)|
    requires Space in ClipLine(line)[k]
    ensures |ClipLine(line)[k]| <= Limit
  {
    if |line| >= Limit {
      var ws := Split(line, Space);
      GreedyWithinLimit(ws[0], ws[1..]);
    }
  }

  lemma {:induction false} GreedyWithinLimit(l: seq<byte>, ws: seq<seq<byte>>)
    requires Space in l ==> |l| <= Limit
    requires forall i :: 0 <= i < |ws| ==> Space !in ws[i]
    ensures forall k :: 0 <= k < |Greedy(l, ws)| && Space in Greedy(l, ws)[k] ==> |Greedy(l, ws)[k]| <= Limit
    decreases |ws|
  {
    if ws != [] {
      var rest := ws[1..];
      if |l| + |ws[0]| < Limit {
        GreedyWithinLimit(l + [Space] + ws[0], rest);
      } else {
        GreedyWithinLimit(ws[0], rest);
      }
    }
  }

  // ---------------------------------------------------------------------------------------
  // When the clip is forced

  /** Some word of `line` (cut at spaces) is longer than `Limit`. */
  predicate HasLongWord(line: seq<byte>)
  {
    exists j :: 0 <= j < |Split(line, Space)| && |Split(line, Space)[j]| > Limit
  }

  /** The clip is forced exactly when some input line holds a single word longer than
      `Limit`: sub-lines never grow past it by packing. */
  lemma {:induction false} ForcedIffLongWord(s: seq<seq<byte>>)
    ensures Overlong(ClipLines(s)) <==> exists i :: 0 <= i < |s| && HasLongWord(s[i])
  {
    if s != [] {
      var init, last := s[..|s| - 1], s[|s| - 1];
      ForcedIffLongWord(init);
      OverlongAppend(ClipLines(init), ClipLine(last));
      LineForcedIffLongWord(last);
      if exists i :: 0 <= i < |s| && HasLongWord(s[i]) {
        var i :| 0 <= i < |s| && HasLongWord(s[i]);
        if i < |s| - 1 {
          assert init[i] == s[i];
        }
      }
      if exists i :: 0 <= i < |init| && HasLongWord(init[i]) {
        var i :| 0 <= i < |init| && HasLongWord(init[i]);
        assert s[i] == init[i];
      }
    }
  }

  lemma LineForcedIffLongWord(line: seq<byte>)
    ensures Overlong(ClipLine(line)) <==> HasLongWord(line)
  {
    var ws := Split(line, Space);
    if |line| < Limit {
      SplitPiecesShorter(line, Space);
      assert !Overlong([line]);
    } else {
      if Overlong(ClipLine(line)) {
        var k :| 0 <= k < |Greedy(ws[0], ws[1..])| && |Greedy(ws[0], ws[1..])[k]| > Limit;
        GreedyLongIsWord(ws[0], ws[1..], k);
        if Greedy(ws[0], ws[1..])[k] == ws[0] {
          assert |ws[0]| > Limit;
        } else {
          var j :| 0 <= j < |ws[1..]| && ws[1..][j] == Greedy(ws[0], ws[1..])[k];
          assert ws[j + 1] == ws[1..][j];
        }
      }
      if HasLongWord(line) {
        var j :| 0 <= j < |ws| && |ws[j]| > Limit;
        if j == 0 {
          assert |Greedy(ws[0], ws[1..])[0]| > Limit;
        } else {
          assert ws[1..][j - 1] == ws[j];
          GreedyKeepsLongWord(ws[0], ws[1..], j - 1);
        }
      }
    }
  }

  /** A sub-line over `Limit` is the line it started from or one of the words. */
  lemma {:induction false} GreedyLongIsWord(l: seq<byte>, ws: seq<seq<byte>>, k: int)
    requires 0 <= k < |Greedy(l, ws)| && |Greedy(l, ws)[k]| > Limit
    ensures Greedy(l, ws)[k] == l || exists j :: 0 <= j < |ws| && ws[j] == Greedy(l, ws)[k]
    decreases |ws|
  {
    if ws != [] {
      var rest := ws[1..];
      if |l| + |ws[0]| < Limit {
        var l' := l + [Space] + ws[0];
        GreedyLongIsWord(l', rest, k);
        if Greedy(l', rest)[k] != l' {
          var j :| 0 <= j < |rest| && rest[j] == Greedy(l', rest)[k];
          assert ws[j + 1] == rest[j];
        }
      } else if k > 0 {
        GreedyLongIsWord(ws[0], rest, k - 1);
        if Greedy(ws[0], rest)[k - 1] != ws[0] {
          var j :| 0 <= j < |rest| && rest[j] == Greedy(ws[0], rest)[k - 1];
          assert ws[j + 1] == rest[j];
        }
      }
    }
  }

  /** A word over `Limit` always starts a sub-line of its own, which is then over it too. */
  lemma {:induction false} GreedyKeepsLongWord(l: seq<byte>, ws: seq<seq<byte>>, j: int)
    requires 0 <= j < |ws| && |ws[j]| > Limit
    ensures Overlong(Greedy(l, ws))
    decreases |ws|
  {
    var rest := ws[1..];
    if j == 0 {
      assert Greedy(l, ws) == [l] + Greedy(ws[0], rest);
      assert Greedy(l, ws)[1] == Greedy(ws[0], rest)[0];
    } else {
      assert rest[j - 1] == ws[j];
      if |l| + |ws[0]| < Limit {
        GreedyKeepsLongWord(l + [Space] + ws[0], rest, j - 1);
      } else {
        GreedyKeepsLongWord(ws[0], rest, j - 1);
        OverlongAppend([l], Greedy(ws[0], rest));
      }
    }
  }

  /** No piece `Split` cuts is longer than the string. */
  lemma {:induction false} SplitPiecesShorter(s: seq<byte>, sep: byte)
    ensures forall j :: 0 <= j < |Split(s, sep)| ==> |Split(s, sep)[j]| <= |s|
    decreases |s|
  {
    if s != [] {
      SplitPiecesShorter(s[1..], sep);
    }
  }

  // ---------------------------------------------------------------------------------------
  // dispatchMessageToIRC

  /** One call of `incomingDiscord`: the nick shown and the line. */
  datatype Sent = Sent(nick: seq<byte>, line: seq<byte>)

  /** The nick under which the paste notice is sent. */
  const SystemNick: seq<byte> := Lit("[SYSTEM]")

  /** Each line sent under `nick`. */
  function SentBy(nick: seq<byte>, lines: seq<seq<byte>>): (r: seq<Sent>)
    ensures |r| == |lines| && forall i :: 0 <= i < |r| ==> r[i] == Sent(nick, lines[i])
  {
    seq(|lines|, i requires 0 <= i < |lines| => Sent(nick, lines[i]))
  }

  /** The lines kept before a paste notice: the first `maxLines - 1`, or all when fewer;
      `lines[:n]` panics when that count is negative. */
  function Kept(lines: seq<seq<byte>>, maxLines: int): Outcome<seq<seq<byte>>>
  {
    var n := if |lines| < maxLines - 1 then |lines| else maxLines - 1;
    if n < 0 then Panicked else Done(lines[..n])
  }

  /** The room left for the notice: with `maxLines >= 1`, the kept lines and the notice
      together fit in `maxLines`, and they are the first lines in order. */
  lemma KeptLeavesRoom(lines: seq<seq<byte>>, maxLines: int)
    ensures Kept(lines, maxLines).Done? <==> maxLines >= 1
    ensures Kept(lines, maxLines).Done? ==>
              var kept := Kept(lines, maxLines).value;
              |kept| + 1 <= maxLines && kept == lines[..|kept|]
              && (|kept| == |lines| || |kept| == maxLines - 1)
  {
  }

  const FullMessageFrom: seq<byte> := Lit("full message from ")
  const Colon: byte := 0x3A

  /** The paste sink's notice: `full message from <author>: <url>`, the author mangled. */
  function Notice(author: seq<byte>, url: seq<byte>): seq<byte>
  {
    FullMessageFrom + IrcBot.AddAntiPing(author) + [Colon, Space] + url
  }

  /** How the clipped `lines` of a message are sent: whole, or, when there are more than
      `maxLines` of them or one is over `Limit`, the kept first lines and then `notice`. */
  function Route(author: seq<byte>, lines: seq<seq<byte>>, maxLines: int, notice: Sent): (r: Outcome<seq<Sent>>)
    ensures r.Panicked? <==> (|lines| > maxLines || Overlong(lines)) && maxLines < 1
    ensures r.Done? ==> |r.value| <= maxLines
  {
    KeptLeavesRoom(lines, maxLines);
    if |lines| > maxLines || Overlong(lines) then
      match Kept(lines, maxLines)
      case Panicked => Panicked
      case Done(kept) => Done(SentBy(author, kept) + [notice])
    else
      Done(SentBy(author, lines))
  }

  /** `dispatchMessageToIRC`: what `incomingDiscord` is called with for a message, `paste`
      standing for `pasteData`, which stores the message and names its URL. */
  function Dispatch(author: seq<byte>, message: seq<byte>, maxLines: int, paste: seq<byte> -> seq<byte>): (r: Outcome<seq<Sent>>)
    ensures r.Panicked? <==> maxLines < 1
    ensures r.Done? ==> |r.value| <= maxLines
  {
    Route(author, ClipLines(Split(message, Newline)), maxLines, Sent(SystemNick, Notice(author, paste(message))))
  }

  /** `out` sends all of `lines`, in order, under `author`. */
  predicate SentWhole(out: seq<Sent>, author: seq<byte>, lines: seq<seq<byte>>)
  {
    |out| == |lines| && forall i :: 0 <= i < |out| ==> out[i].nick == author && out[i].line == lines[i]
  }

  /** `out` holds at most `maxLines` lines: the first `min(maxLines - 1, |lines|)` of
      `lines` under `author`, then `notice`. */
  predicate SentPasted(out: seq<Sent>, author: seq<byte>, lines: seq<seq<byte>>, maxLines: int, notice: Sent)
  {
    1 <= |out| <= maxLines
    && |out| - 1 == (if |lines| < maxLines - 1 then |lines| else maxLines - 1)
    && (forall i :: 0 <= i < |out| - 1 ==> out[i].nick == author && out[i].line == lines[i])
    && out[|out| - 1] == notice
  }

  /** Lines that fit go out whole. */
  lemma RouteWhole(author: seq<byte>, lines: seq<seq<byte>>, maxLines: int, notice: Sent)
    requires |lines| <= maxLines && !Overlong(lines)
    ensures Route(author, lines, maxLines, notice).Done?
    ensures SentWhole(Route(author, lines, maxLines, notice).value, author, lines)
  {
  }

  /** Too many lines, or one too long, for IRC: at most `maxLines` lines go out, the first
      lines under the author and last exactly the notice. */
  lemma RoutePasted(author: seq<byte>, lines: seq<seq<byte>>, maxLines: int, notice: Sent)
    requires maxLines >= 1
    requires |lines| > maxLines || Overlong(lines)
    ensures Route(author, lines, maxLines, notice).Done?
    ensures SentPasted(Route(author, lines, maxLines, notice).value, author, lines, maxLines, notice)
  {
    KeptLeavesRoom(lines, maxLines);
    var kept := Kept(lines, maxLines).value;
    var out := SentBy(author, kept) + [notice];
    assert Route(author, lines, maxLines, notice) == Done(out);
    assert forall i :: 0 <= i < |out| - 1 ==> out[i] == Sent(author, kept[i]);
  }

  /** A message that fits goes out whole: every clipped line, in order, under the author. */
  lemma DispatchWhole(author: seq<byte>, message: seq<byte>, maxLines: int, paste: seq<byte> -> seq<byte>)
    requires var lines := ClipLines(Split(message, Newline)); |lines| <= maxLines && !Overlong(lines)
    ensures Dispatch(author, message, maxLines, paste).Done?
    ensures SentWhole(Dispatch(author, message, maxLines, paste).value, author, ClipLines(Split(message, Newline)))
  {
    var lines := ClipLines(Split(message, Newline));
    var notice := Sent(SystemNick, Notice(author, paste(message)));
    RouteWhole(author, lines, maxLines, notice);
  }

  /** A message too long (or with a word too long) for IRC: at most `maxLines` lines go
      out, the first clipped lines under the author and last exactly one notice carrying
      the paste URL. */
  lemma DispatchPasted(author: seq<byte>, message: seq<byte>, maxLines: int, paste: seq<byte> -> seq<byte>)
    requires maxLines >= 1
    requires var lines := ClipLines(Split(message, Newline)); |lines| > maxLines || Overlong(lines)
    ensures Dispatch(author, message, maxLines, paste).Done?
    ensures SentPasted(Dispatch(author, message, maxLines, paste).value, author, ClipLines(Split(message, Newline)),
                       maxLines, Sent(SystemNick, Notice(author, paste(message))))
  {
    var lines := ClipLines(Split(message, Newline));
    var notice := Sent(SystemNick, Notice(author, paste(message)));
    RoutePasted(author, lines, maxLines, notice);
  }
}
