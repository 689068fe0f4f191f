/** The Discord side of the format package (format/discord.go): an incoming Discord message
    is taken as one plain span, and an outgoing formatted string becomes Discord markdown.
    Rendering escapes the markdown bytes outside code regions (except in URLs), splits the
    surrounding whitespace off each span and wraps the rest in emphasis markers. */
module DiscordFormat {
  import opened Bytes
  import opened Format

  const Backtick: byte := 0x60
  const Backslash: byte := 0x5C
  const Star: byte := 0x2A
  const Underscore: byte := 0x5F

  /** "http://" and "https://". */
  const Http: seq<byte> := [0x68, 0x74, 0x74, 0x70, 0x3A, 0x2F, 0x2F]
  const Https: seq<byte> := [0x68, 0x74, 0x74, 0x70, 0x73, 0x3A, 0x2F, 0x2F]

  /** `ParseDiscord`: Discord markdown is not interpreted; the message is one unformatted span. */
  function ParseDiscord(s: seq<byte>): (r: FormattedString)
    ensures |r| == 1 && r[0].IsZeroFormat()
    ensures Texts(r) == s
  {
    [Span(s, None, Default, Default)]
  }

  // ---------------------------------------------------------------------------------------
  // Escaping markdown

  /** The bytes of the `discordEscape` pattern `[\\*_]`. */
  predicate IsMarkdownByte(b: byte)
  {
    b == Backslash || b == Star || b == Underscore
  }

  predicate NoMarkdown(s: seq<byte>)
  {
    forall k :: 0 <= k < |s| ==> !IsMarkdownByte(s[k])
  }

  /** `discordEscape.ReplaceAllFunc(word, escape)`: a backslash before every markdown byte. */
  function EscapeMarkdown(w: seq<byte>): (r: seq<byte>)
    ensures |r| >= |w|
    decreases |w|
  {
    if w == [] then []
    else (if IsMarkdownByte(w[0]) then [Backslash, w[0]] else [w[0]]) + EscapeMarkdown(w[1..])
  }

  /** How Discord reads markdown escapes: a backslash and the byte after it stand for that byte. */
  function Unescape(e: seq<byte>): seq<byte>
    decreases |e|
  {
    if e == [] then []
    else if e[0] == Backslash && |e| >= 2 then [e[1]] + Unescape(e[2..])
    else [e[0]] + Unescape(e[1..])
  }

  /** Every markdown byte of `e` is escaped by a backslash that is not itself escaped. */
  predicate NoActiveMarkdown(e: seq<byte>)
    decreases |e|
  {
    e == []
    || (|e| >= 2 && e[0] == Backslash && IsMarkdownByte(e[1]) && NoActiveMarkdown(e[2..]))
    || (!IsMarkdownByte(e[0]) && NoActiveMarkdown(e[1..]))
  }

  /** Discord shows an escaped word as the word itself. */
  lemma {:induction false} UnescapeEscapeMarkdown(w: seq<byte>)
    ensures Unescape(EscapeMarkdown(w)) == w
    decreases |w|
  {
    if w != [] {
      UnescapeEscapeMarkdown(w[1..]);
      var e := EscapeMarkdown(w);
      if IsMarkdownByte(w[0]) {
        assert e[2..] == EscapeMarkdown(w[1..]);
      } else {
        assert e[1..] == EscapeMarkdown(w[1..]);
      }
    }
  }

  /** And with no markdown left that could take effect. */
  lemma {:induction false} EscapeMarkdownIsInert(w: seq<byte>)
    ensures NoActiveMarkdown(EscapeMarkdown(w))
    decreases |w|
  {
    if w != [] {
      EscapeMarkdownIsInert(w[1..]);
      var e := EscapeMarkdown(w);
      if IsMarkdownByte(w[0]) {
        assert e[2..] == EscapeMarkdown(w[1..]);
      } else {
        assert e[1..] == EscapeMarkdown(w[1..]);
      }
    }
  }

  /** Only backslashes are added: nothing else appears that was not there. */
  lemma {:induction false} EscapeMarkdownAbsent(w: seq<byte>, b: byte)
    requires b != Backslash && b !in w
    ensures b !in EscapeMarkdown(w)
    decreases |w|
  {
    if w != [] {
      assert b !in w[1..] by { assert forall x :: x in w[1..] ==> x in w; }
      EscapeMarkdownAbsent(w[1..], b);
    }
  }

  /** A word without markdown bytes is left alone. */
  lemma {:induction false} EscapeMarkdownIdentity(w: seq<byte>)
    requires NoMarkdown(w)
    ensures EscapeMarkdown(w) == w
    decreases |w|
  {
    if w != [] {
      EscapeMarkdownIdentity(w[1..]);
      assert [w[0]] + w[1..] == w;
    }
  }

  // ---------------------------------------------------------------------------------------
  // Words

  /** `strings.SplitAfter(s, " ")`: the pieces of `s` cut after each space; there is one
      piece more than `s` has spaces. */
  function SplitAfterSpace(s: seq<byte>): (r: seq<seq<byte>>)
    ensures |r| >= 1
    ensures Space in s <==> |r| >= 2
    decreases |s|
  {
    if s == [] then [[]]
    else
      var rest := SplitAfterSpace(s[1..]);
      assert Space in s <==> s[0] == Space || Space in s[1..] by {
        assert s == [s[0]] + s[1..];
      }
      if s[0] == Space then [[Space]] + rest else [[s[0]] + rest[0]] + rest[1..]
  }

  /** A piece that ends with its only space. */
  predicate EndsWithOnlySpace(w: seq<byte>)
  {
    w != [] && w[|w| - 1] == Space && Space !in w[..|w| - 1]
  }

  /** The shape `SplitAfterSpace` gives its pieces. */
  predicate SpaceEndedPieces(r: seq<seq<byte>>)
  {
    r != [] && Space !in r[|r| - 1] && forall k :: 0 <= k < |r| - 1 ==> EndsWithOnlySpace(r[k])
  }

  /** Every piece but the last ends with its only space; the last has none. */
  lemma {:induction false} SplitAfterSpaceShape(s: seq<byte>)
    ensures SpaceEndedPieces(SplitAfterSpace(s))
    decreases |s|
  {
    if s != [] {
      SplitAfterSpaceShape(s[1..]);
      var rest := SplitAfterSpace(s[1..]);
      if s[0] == Space {
        ShapeAfterSpace(rest);
      } else {
        ShapeAfterOther(s[0], rest);
      }
    }
  }

  lemma ShapeAfterSpace(rest: seq<seq<byte>>)
    requires SpaceEndedPieces(rest)
    ensures SpaceEndedPieces([[Space]] + rest)
  {
    var r := [[Space]] + rest;
    assert [Space][..0] == [];
    assert EndsWithOnlySpace(r[0]);
    assert forall k :: 1 <= k < |r| ==> r[k] == rest[k - 1];
  }

  lemma ShapeAfterOther(b: byte, rest: seq<seq<byte>>)
    requires b != Space && SpaceEndedPieces(rest)
    ensures SpaceEndedPieces([[b] + rest[0]] + rest[1..])
  {
    var first := [b] + rest[0];
    var r := [first] + rest[1..];
    assert forall k :: 1 <= k < |r| ==> r[k] == rest[k];
    if |rest| >= 2 {
      assert first[..|first| - 1] == [b] + rest[0][..|rest[0]| - 1];
      assert EndsWithOnlySpace(r[0]);
    }
  }

  /** The pieces, glued back together. */
  function Concat(ws: seq<seq<byte>>): seq<byte>
    decreases |ws|
  {
    if ws == [] then [] else ws[0] + Concat(ws[1..])
  }

  /** Splitting after spaces loses nothing. */
  lemma {:induction false} SplitAfterSpaceConcat(s: seq<byte>)
    ensures Concat(SplitAfterSpace(s)) == s
    decreases |s|
  {
    if s != [] {
      SplitAfterSpaceConcat(s[1..]);
      var rest := SplitAfterSpace(s[1..]);
      if s[0] != Space {
        var r := SplitAfterSpace(s);
        assert r[0] == [s[0]] + rest[0] && r[1..] == rest[1..];
        assert Concat(rest) == rest[0] + Concat(rest[1..]);
      }
    }
  }

  /** A string that ends with a space splits as its own pieces (without the empty last one)
      followed by the pieces of what comes after it. */
  lemma {:induction false} SplitAfterSpaceAppend(a: seq<byte>, b: seq<byte>)
    requires a != [] && a[|a| - 1] == Space
    ensures var pa := SplitAfterSpace(a);
            SplitAfterSpace(a + b) == pa[..|pa| - 1] + SplitAfterSpace(b)
    decreases |a|
  {
    var x, a' := a[0], a[1..];
    var Q := SplitAfterSpace(b);
    assert (a + b)[0] == x && (a + b)[1..] == a' + b;
    if a' == [] {
      assert a' + b == b;
      assert x == Space;
    } else {
      assert a'[|a'| - 1] == Space;
      SplitAfterSpaceAppend(a', b);
      assert Space in a';
      ConsAppend(x, SplitAfterSpace(a'), Q, SplitAfterSpace(a' + b));
    }
  }

  /** The step of `SplitAfterSpaceAppend`: one more byte in front of both splits. */
  lemma ConsAppend(x: byte, P: seq<seq<byte>>, Q: seq<seq<byte>>, R: seq<seq<byte>>)
    requires |P| >= 2 && R == P[..|P| - 1] + Q
    ensures var pa := if x == Space then [[Space]] + P else [[x] + P[0]] + P[1..];
            (if x == Space then [[Space]] + R else [[x] + R[0]] + R[1..])
            == pa[..|pa| - 1] + Q
  {
    if x == Space {
      var pa := [[Space]] + P;
      assert pa[..|pa| - 1] == [[Space]] + P[..|P| - 1];
    } else {
      var pa := [[x] + P[0]] + P[1..];
      assert R[0] == P[0];
      assert R[1..] == P[1..|P| - 1] + Q;
      assert pa[..|pa| - 1] == [[x] + P[0]] + P[1..|P| - 1];
    }
  }

  /** A word starting with "http://" or "https://". */
  predicate IsUrlWord(w: seq<byte>)
  {
    HasPrefix(w, Http) || HasPrefix(w, Https)
  }

  /** One word outside code: copied verbatim if it is a URL, escaped otherwise. */
  function EscapeWord(w: seq<byte>): seq<byte>
  {
    if IsUrlWord(w) then w else EscapeMarkdown(w)
  }

  /** The words of a non-code region, each handled on its own, glued in order. */
  function EscapeWords(ws: seq<seq<byte>>): seq<byte>
    decreases |ws|
  {
    if ws == [] then [] else EscapeWord(ws[0]) + EscapeWords(ws[1..])
  }

  lemma {:induction false} EscapeWordsAppend(x: seq<seq<byte>>, y: seq<seq<byte>>)
    ensures EscapeWords(x + y) == EscapeWords(x) + EscapeWords(y)
    decreases |x|
  {
    if x == [] {
      assert x + y == y;
    } else {
      assert (x + y)[1..] == x[1..] + y;
      EscapeWordsAppend(x[1..], y);
    }
  }

  /** A region outside code: split after spaces, each word escaped unless it is a URL. */
  function EscapeOutside(seg: seq<byte>): seq<byte>
  {
    EscapeWords(SplitAfterSpace(seg))
  }

  /** Escaping is word by word: a region cut after a space escapes as its two parts. */
  lemma EscapeOutsideAppend(a: seq<byte>, b: seq<byte>)
    requires a != [] && a[|a| - 1] == Space
    ensures EscapeOutside(a + b) == EscapeOutside(a) + EscapeOutside(b)
  {
    var pa := SplitAfterSpace(a);
    var init := pa[..|pa| - 1];
    SplitAfterSpaceAppend(a, b);
    LastPieceAfterFinalSpace(a);
    DropEmptyLast(pa, init);
    EscapeWordsAppend(init, SplitAfterSpace(b));
  }

  lemma DropEmptyLast(ws: seq<seq<byte>>, init: seq<seq<byte>>)
    requires |ws| >= 1 && ws[|ws| - 1] == [] && init == ws[..|ws| - 1]
    ensures EscapeWords(ws) == EscapeWords(init)
  {
    assert ws == init + [[]];
    EscapeWordsAppend(init, [[]]);
    assert EscapeWords([[]]) == [];
  }

  /** The last piece of a string that ends with a space is empty. */
  lemma {:induction false} LastPieceAfterFinalSpace(a: seq<byte>)
    requires a != [] && a[|a| - 1] == Space
    ensures var pa := SplitAfterSpace(a); pa[|pa| - 1] == []
    decreases |a|
  {
    if |a| > 1 {
      LastPieceAfterFinalSpace(a[1..]);
      assert Space in a[1..] by { assert a[1..][|a| - 2] == Space; }
    }
  }

  /** A URL word is copied verbatim, up to and including the space after it. */
  lemma UrlWordVerbatim(url: seq<byte>, b: seq<byte>)
    requires IsUrlWord(url) && Space !in url
    requires b == [] || b[0] == Space
    ensures EscapeOutside(url + b) == url + EscapeOutside(b)
  {
    if b == [] {
      UrlWordAlone(url);
      assert url + b == url;
    } else {
      var w, b' := url + [Space], b[1..];
      assert url + b == w + b';
      EscapeOutsideAppend(w, b');
      UrlWordWithSpace(url);
      SpaceFirst(b);
      Regroup(url, w, EscapeOutside(b'), EscapeOutside(w + b'), EscapeOutside(w), EscapeOutside(b));
    }
  }

  lemma Regroup(url: seq<byte>, w: seq<byte>, e: seq<byte>, x: seq<byte>, z: seq<byte>, y: seq<byte>)
    requires w == url + [Space] && x == z + e && z == w && y == [Space] + e
    ensures x == url + y
  {
  }

  lemma UrlWordAlone(url: seq<byte>)
    requires IsUrlWord(url) && Space !in url
    ensures EscapeOutside(url) == url && EscapeOutside([]) == []
  {
    SplitAfterSpaceNoSpace(url);
    assert SplitAfterSpace([]) == [[]];
    assert EscapeWords([url]) == EscapeWord(url) + EscapeWords([]);
  }

  lemma UrlWordWithSpace(url: seq<byte>)
    requires IsUrlWord(url) && Space !in url
    ensures EscapeOutside(url + [Space]) == url + [Space]
  {
    var w := url + [Space];
    SplitWordAndSpace(url);
    UrlWordExtends(url, [Space]);
    assert EscapeWords([w, []]) == EscapeWord(w) + EscapeWords([[]]);
  }

  lemma UrlWordExtends(url: seq<byte>, t: seq<byte>)
    requires IsUrlWord(url)
    ensures IsUrlWord(url + t)
  {
    if HasPrefix(url, Http) {
      assert (url + t)[..|Http|] == url[..|Http|];
    } else {
      assert (url + t)[..|Https|] == url[..|Https|];
    }
  }

  lemma SpaceFirst(b: seq<byte>)
    requires b != [] && b[0] == Space
    ensures EscapeOutside(b) == [Space] + EscapeOutside(b[1..])
  {
    assert SplitAfterSpace(b) == [[Space]] + SplitAfterSpace(b[1..]);
    assert EscapeMarkdown([Space]) == [Space];
  }

  lemma {:induction false} SplitAfterSpaceNoSpace(w: seq<byte>)
    requires Space !in w
    ensures SplitAfterSpace(w) == [w]
    decreases |w|
  {
    if w != [] {
      SplitAfterSpaceNoSpace(w[1..]);
      assert [w[0]] + w[1..] == w;
    }
  }

  /** A word followed by a space is one piece, and the empty piece after it. */
  lemma {:induction false} SplitWordAndSpace(w: seq<byte>)
    requires Space !in w
    ensures SplitAfterSpace(w + [Space]) == [w + [Space], []]
    decreases |w|
  {
    if w == [] {
      assert w + [Space] == [Space];
    } else {
      SplitWordAndSpace(w[1..]);
      assert (w + [Space])[1..] == w[1..] + [Space];
      assert [w[0]] + (w[1..] + [Space]) == w + [Space];
    }
  }

  /** Outside code, a region without markdown bytes is copied verbatim. */
  lemma {:induction false} EscapeOutsideIdentity(seg: seq<byte>)
    requires NoMarkdown(seg)
    ensures EscapeOutside(seg) == seg
  {
    var ws := SplitAfterSpace(seg);
    SplitAfterSpacePieces(seg);
    EscapeWordsIdentity(ws);
    SplitAfterSpaceConcat(seg);
  }

  lemma {:induction false} SplitAfterSpacePieces(s: seq<byte>)
    requires NoMarkdown(s)
    ensures forall k :: 0 <= k < |SplitAfterSpace(s)| ==> NoMarkdown(SplitAfterSpace(s)[k])
    decreases |s|
  {
    if s != [] {
      SplitAfterSpacePieces(s[1..]);
    }
  }

  lemma {:induction false} EscapeWordsIdentity(ws: seq<seq<byte>>)
    requires forall k :: 0 <= k < |ws| ==> NoMarkdown(ws[k])
    ensures EscapeWords(ws) == Concat(ws)
    decreases |ws|
  {
    if ws != [] {
      EscapeMarkdownIdentity(ws[0]);
      EscapeWordsIdentity(ws[1..]);
    }
  }

  lemma {:induction false} SplitAfterSpaceAbsent(s: seq<byte>, b: byte)
    requires b !in s
    ensures forall k :: 0 <= k < |SplitAfterSpace(s)| ==> b !in SplitAfterSpace(s)[k]
    decreases |s|
  {
    if s != [] {
      assert b !in s[1..] by { assert forall x :: x in s[1..] ==> x in s; }
      SplitAfterSpaceAbsent(s[1..], b);
    }
  }

  lemma {:induction false} EscapeWordsAbsent(ws: seq<seq<byte>>, b: byte)
    requires b != Backslash
    requires forall k :: 0 <= k < |ws| ==> b !in ws[k]
    ensures b !in EscapeWords(ws)
    decreases |ws|
  {
    if ws != [] {
      EscapeMarkdownAbsent(ws[0], b);
      EscapeWordsAbsent(ws[1..], b);
    }
  }

  // ---------------------------------------------------------------------------------------
  // Code regions

  /** The length of the run of backticks `d` starts with. */
  function BacktickRun(d: seq<byte>): (n: nat)
    ensures n <= |d|
    ensures forall k :: 0 <= k < n ==> d[k] == Backtick
    ensures n < |d| ==> d[n] != Backtick
    decreases |d|
  {
    if d == [] || d[0] != Backtick then 0 else 1 + BacktickRun(d[1..])
  }

  /** `begin + backticks.FindIndex(data[begin:])[1]` for the pattern "`+", or the end of the
      data when it has no backtick: the end of the first backtick run. */
  function SegmentEnd(d: seq<byte>): (n: nat)
    ensures n <= |d|
    ensures d != [] ==> n > 0
    ensures Backtick !in d ==> n == |d|
    ensures Backtick in d ==> d[n - 1] == Backtick && (n < |d| ==> d[n] != Backtick)
    decreases |d|
  {
    if d == [] then 0
    else if d[0] == Backtick then 1 + BacktickRun(d[1..])
    else
      assert Backtick in d <==> Backtick in d[1..] by { assert d == [d[0]] + d[1..]; }
      1 + SegmentEnd(d[1..])
  }

  /** The first region of `pre + run + rest` ends right after `run`, the first backtick run. */
  lemma {:induction false} SegmentEndAt(pre: seq<byte>, run: seq<byte>, rest: seq<byte>)
    requires Backtick !in pre
    requires run != [] && forall k :: 0 <= k < |run| ==> run[k] == Backtick
    requires rest == [] || rest[0] != Backtick
    ensures SegmentEnd(pre + run + rest) == |pre| + |run|
    decreases |pre| + |run|
  {
    var d := pre + run + rest;
    if pre != [] {
      assert d[1..] == pre[1..] + run + rest;
      SegmentEndAt(pre[1..], run, rest);
    } else if |run| > 1 {
      assert d[0] == run[0] && d[1..] == run[1..] + rest;
      RunThenOther(run[1..], rest);
    } else {
      assert d[0] == run[0] && d[1..] == rest;
    }
  }

  lemma {:induction false} RunThenOther(run: seq<byte>, rest: seq<byte>)
    requires forall k :: 0 <= k < |run| ==> run[k] == Backtick
    requires rest == [] || rest[0] != Backtick
    ensures BacktickRun(run + rest) == |run|
    decreases |run|
  {
    if run == [] {
      assert run + rest == rest;
    } else {
      assert (run + rest)[1..] == run[1..] + rest;
      RunThenOther(run[1..], rest);
    }
  }

  /** The text escaped region by region: within code (`bt`) copied, outside escaped by words,
      each region running up to and including the next backtick run. */
  function EscapeSegments(d: seq<byte>, bt: bool): seq<byte>
    decreases |d|
  {
    if d == [] then []
    else
      var n := SegmentEnd(d);
      (if bt then d[..n] else EscapeOutside(d[..n])) + EscapeSegments(d[n..], !bt)
  }

  /** The escaped text of one span; each span starts outside code. */
  function Escaped(t: seq<byte>): seq<byte>
  {
    EscapeSegments(t, false)
  }

  /** Region by region: the first region is escaped as words, the code after the first
      backtick run is copied up to and including the next run, and escaping resumes after it. */
  lemma CodeSpanVerbatim(pre: seq<byte>, run1: seq<byte>, code: seq<byte>, run2: seq<byte>, rest: seq<byte>)
    requires Backtick !in pre && Backtick !in code && code != []
    requires run1 != [] && forall k :: 0 <= k < |run1| ==> run1[k] == Backtick
    requires run2 != [] && forall k :: 0 <= k < |run2| ==> run2[k] == Backtick
    requires rest == [] || rest[0] != Backtick
    ensures Escaped(pre + run1 + code + run2 + rest)
            == EscapeOutside(pre + run1) + code + run2 + Escaped(rest)
  {
    var tail := code + run2 + rest;
    var d := pre + run1 + tail;
    assert d == pre + run1 + code + run2 + rest;
    SegmentEndAt(pre, run1, tail);
    assert d[..|pre| + |run1|] == pre + run1 && d[|pre| + |run1|..] == tail;
    SegmentStep(d, false, |pre| + |run1|);
    SegmentEndAt(code, run2, rest);
    assert tail[..|code| + |run2|] == code + run2 && tail[|code| + |run2|..] == rest;
    SegmentStep(tail, true, |code| + |run2|);
    Regroup4(EscapeOutside(pre + run1), code, run2, Escaped(rest));
  }

  lemma SegmentStep(d: seq<byte>, bt: bool, n: nat)
    requires d != [] && n == SegmentEnd(d)
    ensures EscapeSegments(d, bt)
            == (if bt then d[..n] else EscapeOutside(d[..n])) + EscapeSegments(d[n..], !bt)
  {
  }

  lemma Regroup4(a: seq<byte>, b: seq<byte>, c: seq<byte>, d: seq<byte>)
    ensures a + ((b + c) + d) == a + b + c + d
  {
  }

  /** Text without markdown bytes is copied verbatim, code regions or not. */
  lemma {:induction false} EscapeSegmentsIdentity(d: seq<byte>, bt: bool)
    requires NoMarkdown(d)
    ensures EscapeSegments(d, bt) == d
    decreases |d|
  {
    if d != [] {
      var n := SegmentEnd(d);
      assert d[..n] + d[n..] == d;
      assert NoMarkdown(d[..n]) && NoMarkdown(d[n..]) by {
        forall k | 0 <= k < n ensures !IsMarkdownByte(d[..n][k]) {
          assert d[..n][k] == d[k];
        }
        forall k | 0 <= k < |d| - n ensures !IsMarkdownByte(d[n..][k]) {
          assert d[n..][k] == d[n + k];
        }
      }
      assert EscapeSegments(d, bt) == d by {
        SegmentStep(d, bt, n);
        if !bt {
          EscapeOutsideIdentity(d[..n]);
        }
        EscapeSegmentsIdentity(d[n..], !bt);
      }
    }
  }

  /** Escaping adds backslashes and nothing else. */
  lemma {:induction false} EscapeSegmentsAbsent(d: seq<byte>, bt: bool, b: byte)
    requires b != Backslash && b !in d
    ensures b !in EscapeSegments(d, bt)
    decreases |d|
  {
    if d != [] {
      var n := SegmentEnd(d);
      SegmentStep(d, bt, n);
      assert b !in d[..n] && b !in d[n..] by {
        assert forall x :: x in d[..n] ==> x in d;
        assert forall x :: x in d[n..] ==> x in d;
      }
      if !bt {
        SplitAfterSpaceAbsent(d[..n], b);
        EscapeWordsAbsent(SplitAfterSpace(d[..n]), b);
      }
      EscapeSegmentsAbsent(d[n..], !bt, b);
    }
  }

  // ---------------------------------------------------------------------------------------
  // Whitespace

  /** The `\s` class of Go's regular expressions: tab, newline, form feed, carriage return
      and space. */
  predicate IsWhitespace(b: byte)
  {
    b == 0x09 || b == Newline || b == 0x0C || b == 0x0D || b == Space
  }

  predicate AllWhitespace(s: seq<byte>)
  {
    forall k :: 0 <= k < |s| ==> IsWhitespace(s[k])
  }

  /** The number of whitespace bytes `s` starts with. */
  function LeadingWhitespace(s: seq<byte>): (n: nat)
    ensures n <= |s|
    ensures forall k :: 0 <= k < n ==> IsWhitespace(s[k])
    ensures n < |s| ==> !IsWhitespace(s[n])
    decreases |s|
  {
    if s == [] || !IsWhitespace(s[0]) then 0 else 1 + LeadingWhitespace(s[1..])
  }

  /** The number of whitespace bytes that end the first `e` bytes of `s`. */
  function TrailingWhitespace(s: seq<byte>, e: nat): (n: nat)
    requires e <= |s|
    ensures n <= e
    ensures forall k :: e - n <= k < e ==> IsWhitespace(s[k])
    ensures n < e ==> !IsWhitespace(s[e - 1 - n])
    decreases e
  {
    if e == 0 || !IsWhitespace(s[e - 1]) then 0 else 1 + TrailingWhitespace(s, e - 1)
  }

  /** The three groups of the `trimmer` pattern. */
  datatype Parts = Parts(initial: seq<byte>, core: seq<byte>, final: seq<byte>)

  /** A newline with something other than whitespace on both sides of it. */
  predicate HasInnerNewline(t: seq<byte>)
  {
    exists j :: 0 <= j < |t| && t[j] == Newline && !AllWhitespace(t[..j]) && !AllWhitespace(t[j + 1..])
  }

  /** `trimmer.FindAllStringSubmatch(t, -1)[0]` for the pattern `^(\s*)(.*?\S)?(\s*)$`: the
      leading whitespace, the text up to its last non-whitespace byte, and the trailing
      whitespace. Its `.` does not match a newline, so there is no match, and Go's
      `matches[0]` panics, exactly when a newline sits between two non-whitespace bytes. */
  function Trim(t: seq<byte>): (r: Outcome<Parts>)
    ensures r.Done? ==> r.value.initial + r.value.core + r.value.final == t
    ensures r.Done? ==> AllWhitespace(r.value.initial) && AllWhitespace(r.value.final)
    ensures r.Done? ==> (r.value.core == [] <==> AllWhitespace(t))
    ensures r.Done? && r.value.core != [] ==>
              !IsWhitespace(r.value.core[0]) && !IsWhitespace(r.value.core[|r.value.core| - 1])
    ensures r.Panicked? <==> HasInnerNewline(t)
  {
    var l := LeadingWhitespace(t);
    if l == |t| then
      TrimAllWhitespace(t);
      Done(Parts(t, [], []))
    else
      var n := TrailingWhitespace(t, |t|);
      CoreNotEmpty(t, l, n);
      var e := |t| - n;
      CoreBounds(t, l, e);
      if Newline in t[l..e] then Panicked else Done(Parts(t[..l], t[l..e], t[e..]))
  }

  lemma TrimAllWhitespace(t: seq<byte>)
    requires LeadingWhitespace(t) == |t|
    ensures AllWhitespace(t) && !HasInnerNewline(t)
    ensures t + [] + [] == t
  {
    forall j | 0 <= j < |t| ensures AllWhitespace(t[..j]) {
      forall k | 0 <= k < j ensures IsWhitespace(t[..j][k]) {
        assert t[..j][k] == t[k];
      }
    }
  }

  /** Between the leading and the trailing whitespace lies the core, which starts and ends
      with non-whitespace; a newline in it is a newline between non-whitespace bytes. */
  lemma CoreBounds(t: seq<byte>, l: nat, e: nat)
    requires l < e <= |t|
    requires forall k :: 0 <= k < l ==> IsWhitespace(t[k])
    requires forall k :: e <= k < |t| ==> IsWhitespace(t[k])
    requires !IsWhitespace(t[l]) && !IsWhitespace(t[e - 1])
    ensures t[..l] + t[l..e] + t[e..] == t
    ensures AllWhitespace(t[..l]) && AllWhitespace(t[e..]) && !AllWhitespace(t)
    ensures t[l..e] != [] && !IsWhitespace(t[l..e][0]) && !IsWhitespace(t[l..e][e - l - 1])
    ensures (Newline in t[l..e]) <==> HasInnerNewline(t)
  {
    assert t[..l] + t[l..e] + t[e..] == t;
    assert t[l..e][0] == t[l] && t[l..e][e - l - 1] == t[e - 1];
    WhitespaceSlice(t, 0, l);
    WhitespaceSlice(t, e, |t|);
    NotWhitespaceSlice(t, 0, |t|, l);
    assert t[0..|t|] == t;
    if Newline in t[l..e] {
      NewlineInCore(t, l, e);
    }
    if HasInnerNewline(t) {
      InnerNewlineInCore(t, l, e);
    }
  }

  /** The core is not empty when the text is not all whitespace. */
  lemma CoreNotEmpty(t: seq<byte>, l: nat, n: nat)
    requires l < |t| && n <= |t| && !IsWhitespace(t[l])
    requires forall k :: |t| - n <= k < |t| ==> IsWhitespace(t[k])
    ensures l < |t| - n
  {
  }

  lemma WhitespaceSlice(t: seq<byte>, a: nat, b: nat)
    requires a <= b <= |t|
    requires forall k :: a <= k < b ==> IsWhitespace(t[k])
    ensures AllWhitespace(t[a..b]) && AllWhitespace(t[a..b][..0])
    ensures b == |t| ==> AllWhitespace(t[a..])
    ensures a == 0 ==> AllWhitespace(t[..b])
  {
    forall k | 0 <= k < b - a ensures IsWhitespace(t[a..b][k]) {
      assert t[a..b][k] == t[a + k];
    }
    assert b == |t| ==> t[a..] == t[a..b];
    assert a == 0 ==> t[..b] == t[a..b];
  }

  lemma NotWhitespaceSlice(t: seq<byte>, a: nat, b: nat, k: nat)
    requires a <= k < b <= |t| && !IsWhitespace(t[k])
    ensures !AllWhitespace(t[a..b])
    ensures b == |t| ==> !AllWhitespace(t[a..])
    ensures a == 0 ==> !AllWhitespace(t[..b])
  {
    assert t[a..b][k - a] == t[k];
    assert b == |t| ==> t[a..] == t[a..b];
    assert a == 0 ==> t[..b] == t[a..b];
  }

  lemma NewlineInCore(t: seq<byte>, l: nat, e: nat)
    requires l < e <= |t| && !IsWhitespace(t[l]) && !IsWhitespace(t[e - 1])
    requires Newline in t[l..e]
    ensures HasInnerNewline(t)
  {
    var j :| l <= j < e && t[j] == Newline;
    NotWhitespaceSlice(t, 0, j, l);
    NotWhitespaceSlice(t, j + 1, |t|, e - 1);
  }

  lemma InnerNewlineInCore(t: seq<byte>, l: nat, e: nat)
    requires l <= e <= |t|
    requires forall k :: 0 <= k < l ==> IsWhitespace(t[k])
    requires forall k :: e <= k < |t| ==> IsWhitespace(t[k])
    requires HasInnerNewline(t)
    ensures Newline in t[l..e]
  {
    var j :| 0 <= j < |t| && t[j] == Newline && !AllWhitespace(t[..j]) && !AllWhitespace(t[j + 1..]);
    var before :| 0 <= before < j && !IsWhitespace(t[..j][before]);
    assert t[..j][before] == t[before];
    var after :| 0 <= after < |t| - (j + 1) && !IsWhitespace(t[j + 1..][after]);
    assert t[j + 1..][after] == t[j + 1 + after];
    assert l <= j < e;
    assert t[l..e][j - l] == Newline;
  }

  /** The trimmer cuts a core that starts and ends with non-whitespace (and holds no newline)
      from the whitespace that follows it. */
  lemma TrimSplit(core: seq<byte>, final: seq<byte>)
    requires core != [] && !IsWhitespace(core[0]) && !IsWhitespace(core[|core| - 1])
    requires Newline !in core && AllWhitespace(final)
    ensures Trim(core + final) == Done(Parts([], core, final))
  {
    var t := core + final;
    NoInnerNewline(core, final);
    var p := Trim(t).value;
    assert t[0] == core[0];
    InitialEmpty(t, p.initial, p.core + p.final);
    CoreLength(core, final, p.core, p.final);
  }

  lemma NoInnerNewline(core: seq<byte>, final: seq<byte>)
    requires Newline !in core && AllWhitespace(final)
    ensures !HasInnerNewline(core + final)
  {
    var t := core + final;
    if HasInnerNewline(t) {
      var j :| 0 <= j < |t| && t[j] == Newline && !AllWhitespace(t[..j]) && !AllWhitespace(t[j + 1..]);
      NoNewlineAt(core, final, j);
    }
  }

  lemma NoNewlineAt(core: seq<byte>, final: seq<byte>, j: nat)
    requires Newline !in core && AllWhitespace(final)
    requires j < |core + final| && (core + final)[j] == Newline
    ensures AllWhitespace((core + final)[j + 1..])
  {
    var t, m := core + final, j + 1;
    forall k | 0 <= k < |t| - m ensures IsWhitespace(t[m..][k]) {
      assert t[m..][k] == final[m + k - |core|];
    }
  }

  lemma InitialEmpty(t: seq<byte>, initial: seq<byte>, rest: seq<byte>)
    requires t != [] && !IsWhitespace(t[0]) && initial + rest == t && AllWhitespace(initial)
    ensures initial == [] && rest == t
  {
  }

  lemma CoreLength(core: seq<byte>, final: seq<byte>, core': seq<byte>, final': seq<byte>)
    requires core != [] && !IsWhitespace(core[|core| - 1]) && AllWhitespace(final)
    requires core' != [] ==> !IsWhitespace(core'[|core'| - 1])
    requires AllWhitespace(final') && core' + final' == core + final
    ensures core' == core && final' == final
  {
    var t, c, m := core + final, |core|, |core'|;
    forall k | m <= k < |t| ensures IsWhitespace(t[k]) {
      assert t[k] == final'[k - m];
    }
    forall k | c <= k < |t| ensures IsWhitespace(t[k]) {
      assert t[k] == final[k - c];
    }
    assert t[c - 1] == core[c - 1];
    assert m > 0 ==> t[m - 1] == core'[m - 1];
    assert c <= m && m <= c;
    assert core' == t[..|core|] == core;
    assert final' == t[|core|..] == final;
  }

  // ---------------------------------------------------------------------------------------
  // Spans

  /** The emphasis of the `RenderDiscord` loop body: Italic innermost, then Bold, then Underline. */
  function Emphasize(core: seq<byte>, f: Flags): seq<byte>
  {
    var italic := if f & Italic != None then [Star] + core + [Star] else core;
    var bold := if f & Bold != None then [Star, Star] + italic + [Star, Star] else italic;
    if f & Underline != None then [Underscore, Underscore] + bold + [Underscore, Underscore] else bold
  }

  /** The markers that open a span with format `f`, outermost first. */
  function Opening(f: Flags): seq<byte>
  {
    (if f & Underline != None then [Underscore, Underscore] else [])
    + (if f & Bold != None then [Star, Star] else [])
    + (if f & Italic != None then [Star] else [])
  }

  /** The markers that close it, innermost first: the opening markers reversed. */
  function Closing(f: Flags): seq<byte>
  {
    (if f & Italic != None then [Star] else [])
    + (if f & Bold != None then [Star, Star] else [])
    + (if f & Underline != None then [Underscore, Underscore] else [])
  }

  function Reverse(s: seq<byte>): seq<byte>
    decreases |s|
  {
    if s == [] then [] else Reverse(s[1..]) + [s[0]]
  }

  /** Emphasis brackets the core: the opening markers, the core, then the same markers in
      reverse order, so the markers nest properly. */
  lemma EmphasizeBrackets(core: seq<byte>, f: Flags)
    ensures Emphasize(core, f) == Opening(f) + core + Closing(f)
    ensures Closing(f) == Reverse(Opening(f))
  {
    var u := if f & Underline != None then [Underscore, Underscore] else [];
    var b := if f & Bold != None then [Star, Star] else [];
    var i := if f & Italic != None then [Star] else [];
    var italic := if f & Italic != None then [Star] + core + [Star] else core;
    var bold := if f & Bold != None then [Star, Star] + italic + [Star, Star] else italic;
    assert italic == i + core + i;
    assert bold == b + italic + b;
    assert Emphasize(core, f) == u + bold + u;
    assert Opening(f) == u + b + i && Closing(f) == i + b + u;
    ReverseMarker(Underscore, true, u);
    ReverseMarker(Star, true, b);
    ReverseMarker(Star, false, i);
    Bracket3(core, u, b, i);
  }

  lemma Bracket3(core: seq<byte>, u: seq<byte>, b: seq<byte>, i: seq<byte>)
    requires Reverse(u) == u && Reverse(b) == b && Reverse(i) == i
    ensures u + (b + (i + core + i) + b) + u == (u + b + i) + core + (i + b + u)
    ensures Reverse(u + b + i) == i + b + u
  {
    Nest3(core, u, b, i);
    ReverseAppend3(u, b, i);
  }

  lemma Nest3(core: seq<byte>, u: seq<byte>, b: seq<byte>, i: seq<byte>)
    ensures u + (b + (i + core + i) + b) + u == (u + b + i) + core + (i + b + u)
  {
  }

  lemma ReverseAppend3(u: seq<byte>, b: seq<byte>, i: seq<byte>)
    ensures Reverse(u + b + i) == Reverse(i) + Reverse(b) + Reverse(u)
  {
    ReverseAppend(u + b, i);
    ReverseAppend(u, b);
  }

  /** A marker (one byte, or the same byte twice) reads the same backwards. */
  lemma ReverseMarker(x: byte, double: bool, m: seq<byte>)
    requires m == [] || m == [x] || (double && m == [x, x])
    ensures Reverse(m) == m
  {
    if m != [] {
      assert Reverse([x]) == [x] by { assert [x][1..] == []; }
      if m == [x, x] {
        assert m[1..] == [x];
      }
    }
  }

  lemma {:induction false} ReverseAppend(a: seq<byte>, b: seq<byte>)
    ensures Reverse(a + b) == Reverse(b) + Reverse(a)
    decreases |a|
  {
    if a == [] {
      assert a + b == b;
    } else {
      assert (a + b)[1..] == a[1..] + b;
      ReverseAppend(a[1..], b);
    }
  }

  /** What the `RenderDiscord` loop writes between the leading and the trailing whitespace:
      nothing for an all-whitespace span; otherwise the emphasised core, then U+FEFF when the
      span has a format and no trailing whitespace, so that neighbouring markers cannot run
      together. */
  function Decorate(p: Parts, f: Flags): seq<byte>
  {
    if p.core == [] then []
    else Emphasize(p.core, f) + (if p.final == [] && f != None then Feff else [])
  }

  /** One iteration of the `RenderDiscord` loop. */
  function RenderSpan(span: Span): Outcome<seq<byte>>
  {
    match Trim(Escaped(span.text))
    case Panicked => Panicked
    case Done(p) => Done(p.initial + Decorate(p, span.format) + p.final)
  }

  /** What `RenderDiscord` returns; Panicked if it panics. */
  function RenderAll(fs: FormattedString): Outcome<seq<byte>>
    decreases |fs|
  {
    if fs == [] then Done([])
    else
      match RenderSpan(fs[0])
      case Panicked => Panicked
      case Done(out) => Prepend(out, RenderAll(fs[1..]))
  }

  /** A span without format renders to exactly its escaped text: no markers, no U+FEFF. */
  lemma RenderSpanPlain(span: Span)
    requires span.format == None
    ensures RenderSpan(span)
            == if HasInnerNewline(Escaped(span.text)) then Panicked else Done(Escaped(span.text))
  {
    var t := Escaped(span.text);
    if Trim(t).Done? {
      var p := Trim(t).value;
      if p.core != [] {
        assert Emphasize(p.core, None) == p.core;
        assert Decorate(p, None) == p.core;
      }
    }
  }

  /** Only a newline in the text can make the trimmer fail. */
  lemma RenderSpanNoNewline(span: Span)
    requires Newline !in span.text
    ensures RenderSpan(span).Done?
  {
    EscapeSegmentsAbsent(span.text, false, Newline);
  }

  /** A non-empty core is bracketed by the opening and closing markers of the span's format,
      inside the preserved outer whitespace, and followed by U+FEFF exactly when the span has a
      format and no trailing whitespace. */
  lemma RenderSpanDecorated(span: Span, p: Parts)
    requires Trim(Escaped(span.text)) == Done(p) && p.core != []
    ensures RenderSpan(span)
            == Done(p.initial + Opening(span.format) + p.core + Closing(span.format)
                    + (if p.final == [] && span.format != None then Feff else []) + p.final)
  {
    var f := span.format;
    var feff := if p.final == [] && f != None then Feff else [];
    assert RenderSpan(span) == Done(p.initial + Decorate(p, f) + p.final);
    assert Decorate(p, f) == Emphasize(p.core, f) + feff;
    EmphasizeBrackets(p.core, f);
    Regroup6(p.initial, Opening(f), p.core, Closing(f), feff, p.final);
  }

  lemma Regroup6(a: seq<byte>, b: seq<byte>, c: seq<byte>, d: seq<byte>, e: seq<byte>, f: seq<byte>)
    ensures a + (b + c + d + e) + f == a + b + c + d + e + f
  {
  }

  /** Spans are rendered independently: the code state restarts with each span. */
  lemma {:induction false} RenderAllAppend(a: FormattedString, b: FormattedString)
    ensures RenderAll(a + b)
            == if RenderAll(a).Panicked? then Panicked else Prepend(RenderAll(a).value, RenderAll(b))
    decreases |a|
  {
    if a == [] {
      assert a + b == b;
      PrependAssoc([], [], RenderAll(b));
    } else {
      assert (a + b)[0] == a[0] && (a + b)[1..] == a[1..] + b;
      RenderAllAppend(a[1..], b);
      if RenderSpan(a[0]).Done? && RenderAll(a[1..]).Done? {
        PrependAssoc(RenderSpan(a[0]).value, RenderAll(a[1..]).value, RenderAll(b));
      }
    }
  }

  /** A message without newlines always renders. */
  lemma {:induction false} RenderAllNoNewline(fs: FormattedString)
    requires forall k :: 0 <= k < |fs| ==> Newline !in fs[k].text
    ensures RenderAll(fs).Done?
    decreases |fs|
  {
    if fs != [] {
      RenderSpanNoNewline(fs[0]);
      RenderAllNoNewline(fs[1..]);
    }
  }

  /** `RenderDiscord`: for each span, escape its text region by region, cut off the
      surrounding whitespace, decorate the rest and append the three parts. */
  method RenderDiscord(fs: FormattedString) returns (r: Outcome<seq<byte>>)
    ensures r == RenderAll(fs)
  {
    var output: seq<byte> := [];
    var i := 0;
    assert fs[0..] == fs;
    PrependAssoc([], [], RenderAll(fs));
    while i < |fs|
      invariant 0 <= i <= |fs|
      invariant Prepend(output, RenderAll(fs[i..])) == RenderAll(fs)
    {
      var span := fs[i];
      assert fs[i..][0] == span && fs[i..][1..] == fs[i + 1..];
      var t := EscapeText(span.text);
      var matches := Trim(t);
      if matches.Panicked? {
        return Panicked;
      }
      var initial, text, final := matches.value.initial, matches.value.core, matches.value.final;
      if text != [] {
        if span.format & Italic != None {
          text := [Star] + text + [Star];
        }
        if span.format & Bold != None {
          text := [Star, Star] + text + [Star, Star];
        }
        if span.format & Underline != None {
          text := [Underscore, Underscore] + text + [Underscore, Underscore];
        }
        if final == [] && span.format != None {
          text := text + Feff;
        }
      }
      assert text == Decorate(matches.value, span.format);
      PrependAssoc(output, initial + text + final, RenderAll(fs[i + 1..]));
      output := output + (initial + text + final);
      i := i + 1;
    }
    assert output + [] == output;
    r := Done(output);
  }

  /** The backtick loop of `RenderDiscord`: `begin` and `end` delimit one region, `bt` says
      whether it is code. */
  method EscapeText(data: seq<byte>) returns (finishedData: seq<byte>)
    ensures finishedData == Escaped(data)
  {
    finishedData := [];
    var begin := 0;
    var bt := false;
    assert data[0..] == data;
    while begin < |data|
      invariant 0 <= begin <= |data|
      invariant finishedData + EscapeSegments(data[begin..], bt) == Escaped(data)
      decreases |data| - begin
    {
      var end := begin + SegmentEnd(data[begin..]);
      ghost var before := finishedData;
      if bt {
        finishedData := finishedData + data[begin..end];
      } else {
        var words := SplitAfterSpace(data[begin..end]);
        finishedData := AppendEscapedWords(finishedData, words);
      }
      EscapeTextStep(data, begin, end, bt, before, finishedData);
      bt := !bt;
      begin := end;
    }
    assert finishedData + [] == finishedData;
  }

  /** One region of the backtick loop. */
  lemma EscapeTextStep(data: seq<byte>, begin: nat, end: nat, bt: bool, before: seq<byte>, after: seq<byte>)
    requires begin < |data| && end == begin + SegmentEnd(data[begin..])
    requires after == before + (if bt then data[begin..end] else EscapeOutside(data[begin..end]))
    ensures end <= |data|
    ensures before + EscapeSegments(data[begin..], bt) == after + EscapeSegments(data[end..], !bt)
  {
    var d := data[begin..];
    var n := end - begin;
    SliceOfSlice(data, begin, end);
    SegmentStepAt(d, bt, n, data[begin..end], data[end..]);
    var piece := if bt then data[begin..end] else EscapeOutside(data[begin..end]);
    Regroup2(before, piece, EscapeSegments(data[end..], !bt));
  }

  lemma SliceOfSlice(data: seq<byte>, begin: nat, end: nat)
    requires begin <= end <= |data|
    ensures data[begin..][..end - begin] == data[begin..end]
    ensures data[begin..][end - begin..] == data[end..]
  {
  }

  lemma SegmentStepAt(d: seq<byte>, bt: bool, n: nat, seg: seq<byte>, rest: seq<byte>)
    requires d != [] && n == SegmentEnd(d) && d[..n] == seg && d[n..] == rest
    ensures EscapeSegments(d, bt) == (if bt then seg else EscapeOutside(seg)) + EscapeSegments(rest, !bt)
  {
    SegmentStep(d, bt, n);
  }

  lemma Regroup2(a: seq<byte>, b: seq<byte>, c: seq<byte>)
    ensures a + (b + c) == a + b + c
  {
  }

  /** The word loop of `RenderDiscord`: each word of a region outside code, appended
      verbatim if it is a URL and escaped otherwise. */
  method AppendEscapedWords(finishedData: seq<byte>, words: seq<seq<byte>>) returns (out: seq<byte>)
    ensures out == finishedData + EscapeWords(words)
  {
    out := finishedData;
    var k := 0;
    while k < |words|
      invariant 0 <= k <= |words|
      invariant out == finishedData + EscapeWords(words[..k])
    {
      var word := words[k];
      if HasPrefix(word, Http) || HasPrefix(word, Https) {
        out := out + word;
      } else {
        out := out + EscapeMarkdown(word);
      }
      WordsStep(words, k, finishedData, out);
      k := k + 1;
    }
    assert words[..|words|] == words;
  }

  lemma WordsStep(words: seq<seq<byte>>, k: nat, before: seq<byte>, after: seq<byte>)
    requires k < |words|
    requires after == before + EscapeWords(words[..k]) + EscapeWord(words[k])
    ensures after == before + EscapeWords(words[..k + 1])
  {
    assert words[..k + 1] == words[..k] + [words[k]];
    EscapeWordsSnoc(words[..k], words[k]);
    Regroup2(before, EscapeWords(words[..k]), EscapeWord(words[k]));
  }

  lemma EscapeWordsSnoc(ws: seq<seq<byte>>, w: seq<byte>)
    ensures EscapeWords(ws + [w]) == EscapeWords(ws) + EscapeWord(w)
  {
    EscapeWordsAppend(ws, [w]);
    EscapeWordsSingle(w);
  }

  lemma EscapeWordsSingle(w: seq<byte>)
    ensures EscapeWords([w]) == EscapeWord(w)
  {
    assert [w][1..] == [];
  }

  // ---------------------------------------------------------------------------------------
  // Examples

  const AllFlags: Flags := Bold | Italic | Underline

  /** The escaped text of a span without markdown bytes is the text itself. */
  lemma EscapedIdentity(t: seq<byte>)
    requires NoMarkdown(t)
    ensures Escaped(t) == t
  {
    EscapeSegmentsIdentity(t, false);
  }

  /** A word without markdown bytes or whitespace, in format `f`: the word between the
      markers of `f`, then U+FEFF if `f` is not None. */
  lemma RenderWord(t: seq<byte>, f: Flags)
    requires t != [] && NoMarkdown(t) && forall k :: 0 <= k < |t| ==> !IsWhitespace(t[k])
    ensures RenderSpan(Span(t, f, Default, Default))
            == Done(Opening(f) + t + Closing(f) + (if f != None then Feff else []))
  {
    var span := Span(t, f, Default, Default);
    WordTrims(t);
    RenderSpanDecorated(span, Parts([], t, []));
    var feff := if f != None then Feff else [];
    assert RenderSpan(span) == Done([] + Opening(f) + t + Closing(f) + feff + []);
    DropEmpty(Opening(f), t, Closing(f), feff);
  }

  lemma DropEmpty(a: seq<byte>, b: seq<byte>, c: seq<byte>, d: seq<byte>)
    ensures [] + a + b + c + d + [] == a + b + c + d
  {
  }

  lemma WordTrims(t: seq<byte>)
    requires t != [] && NoMarkdown(t) && forall k :: 0 <= k < |t| ==> !IsWhitespace(t[k])
    ensures Trim(Escaped(t)) == Done(Parts([], t, []))
  {
    EscapedIdentity(t);
    assert t + [] == t;
    TrimSplit(t, []);
  }

  /** The same word followed by whitespace: no U+FEFF, and the whitespace after the markers. */
  lemma RenderWordThenSpace(t: seq<byte>, f: Flags, w: seq<byte>)
    requires t != [] && NoMarkdown(t) && forall k :: 0 <= k < |t| ==> !IsWhitespace(t[k])
    requires w != [] && NoMarkdown(w) && AllWhitespace(w)
    ensures RenderSpan(Span(t + w, f, Default, Default)) == Done(Opening(f) + t + Closing(f) + w)
  {
    WordSpaceTrims(t, w);
    var span := Span(t + w, f, Default, Default);
    var p := Parts([], t, w);
    RenderSpanDecorated(span, p);
    var feff := if p.final == [] && f != None then Feff else [];
    assert feff == [];
    DropEmptyMiddle(Opening(f), t, Closing(f), w);
  }

  lemma DropEmptyMiddle(a: seq<byte>, b: seq<byte>, c: seq<byte>, d: seq<byte>)
    ensures [] + a + b + c + [] + d == a + b + c + d
  {
  }

  lemma WordSpaceTrims(t: seq<byte>, w: seq<byte>)
    requires t != [] && NoMarkdown(t) && forall k :: 0 <= k < |t| ==> !IsWhitespace(t[k])
    requires NoMarkdown(w) && AllWhitespace(w)
    ensures Trim(Escaped(t + w)) == Done(Parts([], t, w))
  {
    EscapedIdentity(t + w) by {
      forall k | 0 <= k < |t + w| ensures !IsMarkdownByte((t + w)[k]) {
        if k >= |t| {
          assert (t + w)[k] == w[k - |t|];
        }
      }
    }
    TrimSplit(t, w);
  }

  /** A single byte that is neither markdown nor whitespace, such as "x". */
  predicate IsPlainByte(x: byte)
  {
    !IsMarkdownByte(x) && !IsWhitespace(x)
  }

  lemma PlainWord(x: byte)
    requires IsPlainByte(x)
    ensures [x] != [] && NoMarkdown([x]) && forall k :: 0 <= k < |[x]| ==> !IsWhitespace([x][k])
  {
  }

  /** All three flags on a plain byte `x` give `__***x***__`, then U+FEFF. */
  lemma RenderAllFlags(x: byte)
    requires IsPlainByte(x)
    ensures RenderSpan(Span([x], AllFlags, Default, Default))
            == Done([Underscore, Underscore, Star, Star, Star, x, Star, Star, Star, Underscore, Underscore] + Feff)
  {
    PlainWord(x);
    RenderWord([x], AllFlags);
    AllFlagsAround(x);
  }

  lemma AllFlagsAround(x: byte)
    ensures Opening(AllFlags) + [x] + Closing(AllFlags) + Feff
            == [Underscore, Underscore, Star, Star, Star, x, Star, Star, Star, Underscore, Underscore] + Feff
  {
    assert AllFlags & Underline != None && AllFlags & Bold != None && AllFlags & Italic != None;
    var o, c := Opening(AllFlags), Closing(AllFlags);
    assert o == [Underscore, Underscore] + [Star, Star] + [Star];
    assert c == [Star] + [Star, Star] + [Underscore, Underscore];
  }

  /** Trailing whitespace stays outside the markers and suppresses U+FEFF: a plain byte
      `x` and a space in bold give `**x** `. */
  lemma RenderBoldTrailingSpace(x: byte)
    requires IsPlainByte(x)
    ensures RenderSpan(Span([x, Space], Bold, Default, Default)) == Done([Star, Star, x, Star, Star, Space])
  {
    PlainWord(x);
    SpaceAfter(x);
    RenderWordThenSpace([x], Bold, [Space]);
    BoldAround(x, [Space]);
    assert [Star, Star, x, Star, Star] + [Space] == [Star, Star, x, Star, Star, Space];
  }

  lemma SpaceAfter(x: byte)
    ensures [x] + [Space] == [x, Space] && AllWhitespace([Space]) && NoMarkdown([Space])
  {
  }

  lemma BoldAround(x: byte, tail: seq<byte>)
    ensures Opening(Bold) + [x] + Closing(Bold) + tail == [Star, Star, x, Star, Star] + tail
  {
    var o, c := Opening(Bold), Closing(Bold);
    assert o == [] + [Star, Star] + [] && c == [] + [Star, Star] + [];
  }

  lemma ItalicAround(x: byte, tail: seq<byte>)
    ensures Opening(Italic) + [x] + Closing(Italic) + tail == [Star, x, Star] + tail
  {
    var o, c := Opening(Italic), Closing(Italic);
    assert o == [] + [] + [Star] && c == [Star] + [] + [];
  }

  /** Two spans that render render one after the other. */
  lemma RenderAllPair(a: Span, b: Span, ra: seq<byte>, rb: seq<byte>)
    requires RenderSpan(a) == Done(ra) && RenderSpan(b) == Done(rb)
    ensures RenderAll([a, b]) == Done(ra + rb)
  {
    assert [a, b][0] == a && [a, b][1..] == [b] && [b][0] == b && [b][1..] == [];
    assert RenderAll([b]) == Prepend(rb, Done([]));
    assert rb + [] == rb;
  }

  /** U+FEFF keeps neighbouring markers apart: italic `x` then bold `x` give
      `*x*`, U+FEFF, `**x**`, U+FEFF rather than `*x***x**`. */
  lemma RenderItalicThenBold(x: byte)
    requires IsPlainByte(x)
    ensures RenderAll([Span([x], Italic, Default, Default), Span([x], Bold, Default, Default)])
            == Done([Star, x, Star] + Feff + [Star, Star, x, Star, Star] + Feff)
  {
    PlainWord(x);
    RenderWord([x], Italic);
    RenderWord([x], Bold);
    ItalicAround(x, Feff);
    BoldAround(x, Feff);
    RenderAllPair(Span([x], Italic, Default, Default), Span([x], Bold, Default, Default),
                  [Star, x, Star] + Feff, [Star, Star, x, Star, Star] + Feff);
    Regroup2([Star, x, Star] + Feff, [Star, Star, x, Star, Star], Feff);
  }
}
