/** Relaying an IRC message to Discord (`dOutgoing`, bot/discord.go): the message is
    rendered as Discord markdown, `#channel`, `@member` and `@role` names become Discord
    mentions, `:emoji:` names become custom emoji, and the IRC nick is prefixed. */
module DiscordOutgoing {
  import opened Bytes
  import opened Rewrites
  import Format
  import DiscordFormat
  import opened DiscordMentions

  /** Placed after `<#` and `<@` in the mentions the relay produces so that later names
      cannot match inside them; removed before the message is sent. */
  const Marker: byte := 0xFF
  const Asterisk: byte := 0x2A

  // ----- ordering of the member replacements (`StringReplaceGroup.Less`) -----

  /** Go's `<` on strings: byte-wise lexicographic order. */
  predicate LexLess(x: seq<byte>, y: seq<byte>)
    decreases |x|
  {
    if x == [] then y != []
    else if y == [] then false
    else if x[0] != y[0] then x[0] < y[0]
    else LexLess(x[1..], y[1..])
  }

  /** Longer search strings first; among equally long ones, lexicographic order. */
  predicate Less(a: Rewrite, b: Rewrite)
  {
    if |a.find| != |b.find| then |a.find| > |b.find| else LexLess(a.find, b.find)
  }

  lemma {:induction false} LexLessIrreflexive(x: seq<byte>)
    ensures !LexLess(x, x)
    decreases |x|
  {
    if x != [] {
      LexLessIrreflexive(x[1..]);
    }
  }

  lemma {:induction false} LexLessTransitive(x: seq<byte>, y: seq<byte>, z: seq<byte>)
    requires LexLess(x, y) && LexLess(y, z)
    ensures LexLess(x, z)
    decreases |x|
  {
    if x != [] && x[0] == y[0] && y[0] == z[0] {
      LexLessTransitive(x[1..], y[1..], z[1..]);
    }
  }

  lemma {:induction false} LexLessTotal(x: seq<byte>, y: seq<byte>)
    requires x != y
    ensures LexLess(x, y) || LexLess(y, x)
    decreases |x|
  {
    if x != [] && y != [] && x[0] == y[0] {
      assert x == [x[0]] + x[1..] && y == [y[0]] + y[1..];
      LexLessTotal(x[1..], y[1..]);
    }
  }

  lemma {:induction false} LexLessAsymmetric(x: seq<byte>, y: seq<byte>)
    requires LexLess(x, y)
    ensures !LexLess(y, x)
    decreases |x|
  {
    if x != [] && y != [] && x[0] == y[0] {
      LexLessAsymmetric(x[1..], y[1..]);
    }
  }

  /** `Less` is a strict order that compares any two different search strings. */
  lemma LessIsStrictTotalOrder(a: Rewrite, b: Rewrite, c: Rewrite)
    ensures !Less(a, a)
    ensures Less(a, b) ==> !Less(b, a)
    ensures Less(a, b) && Less(b, c) ==> Less(a, c)
    ensures a.find != b.find ==> Less(a, b) || Less(b, a)
  {
    LexLessIrreflexive(a.find);
    if Less(a, b) && |a.find| == |b.find| {
      LexLessAsymmetric(a.find, b.find);
    }
    if Less(a, b) && Less(b, c) && |a.find| == |b.find| == |c.find| {
      LexLessTransitive(a.find, b.find, c.find);
    }
    if a.find != b.find && |a.find| == |b.find| {
      LexLessTotal(a.find, b.find);
    }
  }

  /** `b` may follow `a` in a sorted group. */
  predicate LessEq(a: Rewrite, b: Rewrite)
  {
    !Less(b, a)
  }

  lemma LessEqTransitive(a: Rewrite, b: Rewrite, c: Rewrite)
    requires LessEq(a, b) && LessEq(b, c)
    ensures LessEq(a, c)
  {
    if a.find == b.find {
      assert Less(c, a) == Less(c, b);
    } else {
      LessIsStrictTotalOrder(a, b, c);
      LessIsStrictTotalOrder(c, a, b);
    }
  }

  predicate Sorted(ps: seq<Rewrite>)
  {
    forall i, j :: 0 <= i < j < |ps| ==> LessEq(ps[i], ps[j])
  }

  /** An entry that sorts before the first of a sorted group sorts before all of it. */
  lemma InsertFront(x: Rewrite, s: seq<Rewrite>)
    requires s != [] && Less(x, s[0]) && Sorted(s)
    ensures Sorted([x] + s)
  {
    forall k | 1 <= k < |[x] + s| ensures LessEq(x, ([x] + s)[k]) {
      LessIsStrictTotalOrder(x, s[0], x);
      if k > 1 {
        LessEqTransitive(x, s[0], s[k - 1]);
      }
    }
  }

  /** The first of a sorted group may precede `x` and the rest of the group. */
  lemma InsertBehind(x: Rewrite, s: seq<Rewrite>, rest: seq<Rewrite>)
    requires s != [] && !Less(x, s[0]) && Sorted(s) && Sorted(rest)
    requires multiset(rest) == multiset(s[1..]) + multiset{x}
    ensures Sorted([s[0]] + rest)
  {
    forall k | 0 <= k < |rest| ensures LessEq(s[0], rest[k]) {
      assert rest[k] in multiset(rest);
      if rest[k] != x {
        var m :| 0 <= m < |s[1..]| && s[1..][m] == rest[k];
        assert s[m + 1] == rest[k];
      }
    }
  }

  /** Inserting into a sorted group, after the entries that do not sort after `x`. */
  function Insert(x: Rewrite, s: seq<Rewrite>): (r: seq<Rewrite>)
    ensures multiset(r) == multiset(s) + multiset{x}
    ensures Sorted(s) ==> Sorted(r)
    decreases |s|
  {
    if s == [] then [x]
    else if Less(x, s[0]) then
      assert Sorted(s) ==> Sorted([x] + s) by {
        if Sorted(s) {
          InsertFront(x, s);
        }
      }
      [x] + s
    else
      var rest := Insert(x, s[1..]);
      assert s == [s[0]] + s[1..];
      assert Sorted(s) ==> Sorted([s[0]] + rest) by {
        if Sorted(s) {
          InsertBehind(x, s, rest);
        }
      }
      [s[0]] + rest
  }

  /** `sort.Sort` on a group: the same entries, sorted by `Less`. */
  function SortPairs(ps: seq<Rewrite>): (r: seq<Rewrite>)
    ensures Sorted(r)
    ensures multiset(r) == multiset(ps)
    decreases |ps|
  {
    if ps == [] then []
    else
      assert ps == ps[..|ps| - 1] + [ps[|ps| - 1]];
      Insert(ps[|ps| - 1], SortPairs(ps[..|ps| - 1]))
  }

  /** In a sorted group a longer name is tried before any shorter one. */
  lemma SortedLongestFirst(ps: seq<Rewrite>, i: nat, j: nat)
    requires Sorted(ps) && i < j < |ps|
    ensures |ps[i].find| >= |ps[j].find|
  {
    assert LessEq(ps[i], ps[j]);
  }

  // ----- the bounded replacement of `StringReplaceGroup.Replace` -----

  datatype BoundaryMatch = NoBoundary | BoundaryOf(len: nat)

  /** What may follow a name for it to be replaced (`$|[\pP\pZ]`): the end of the message,
      or a punctuation or space character, whose length in bytes `cls` gives (0 when the
      text does not start with one). */
  function Boundary(cls: seq<byte> -> nat, rest: seq<byte>): (b: BoundaryMatch)
    ensures b.BoundaryOf? ==> b.len <= |rest|
    ensures b.BoundaryOf? && b.len == 0 ==> rest == []
  {
    if rest == [] then BoundaryOf(0)
    else if 0 < cls(rest) <= |rest| then BoundaryOf(cls(rest))
    else NoBoundary
  }

  /** `regexp.MustCompile(regexp.QuoteMeta(find) + "($|[\pP\pZ])").ReplaceAllString(s,
      replace + "$1")`: each leftmost occurrence of `find` followed by a boundary is
      replaced, and the boundary character is kept. */
  function ReplaceBounded(s: seq<byte>, find: Find, replace: seq<byte>,
                          cls: seq<byte> -> nat): seq<byte>
    decreases |s|
  {
    if |s| < |find| then s
    else if s[..|find|] == find && Boundary(cls, s[|find|..]).BoundaryOf? then
      var k := Boundary(cls, s[|find|..]).len;
      replace + s[|find|..|find| + k] + ReplaceBounded(s[|find| + k..], find, replace, cls)
    else [s[0]] + ReplaceBounded(s[1..], find, replace, cls)
  }

  /** The entries of a group applied in order. */
  function ApplyBounded(ps: seq<Rewrite>, msg: seq<byte>, cls: seq<byte> -> nat): seq<byte>
    decreases |ps|
  {
    if ps == [] then msg
    else
      var last := ps[|ps| - 1];
      ReplaceBounded(ApplyBounded(ps[..|ps| - 1], msg, cls), last.find, last.replace, cls)
  }

  /** A name followed by a boundary is replaced, and the boundary is kept. */
  lemma ReplacedAtBoundary(find: Find, tail: seq<byte>, replace: seq<byte>,
                           cls: seq<byte> -> nat)
    requires Boundary(cls, tail).BoundaryOf?
    ensures var k := Boundary(cls, tail).len;
            ReplaceBounded(find + tail, find, replace, cls)
              == replace + tail[..k] + ReplaceBounded(tail[k..], find, replace, cls)
  {
    var s := find + tail;
    var k := Boundary(cls, tail).len;
    assert s[..|find|] == find;
    assert s[|find|..] == tail;
    assert s[|find|..|find| + k] == tail[..k];
    assert s[|find| + k..] == tail[k..];
    ReplaceBoundedAt(s, find, replace, cls, k, tail[..k], tail[k..]);
  }

  /** One replacement at the start of `s`, with the boundary `mid` and what is after it. */
  lemma ReplaceBoundedAt(s: seq<byte>, find: Find, replace: seq<byte>, cls: seq<byte> -> nat,
                         k: nat, mid: seq<byte>, rest: seq<byte>)
    requires |s| >= |find| && s[..|find|] == find
    requires Boundary(cls, s[|find|..]) == BoundaryOf(k)
    requires |find| + k <= |s| && s[|find|..|find| + k] == mid && s[|find| + k..] == rest
    ensures ReplaceBounded(s, find, replace, cls)
              == replace + mid + ReplaceBounded(rest, find, replace, cls)
  {
  }

  /** Where the first byte of the name never occurs, nothing is replaced. */
  lemma {:induction false} ReplaceBoundedMissingLead(s: seq<byte>, find: Find,
                                                     replace: seq<byte>, cls: seq<byte> -> nat)
    requires find[0] !in s
    ensures ReplaceBounded(s, find, replace, cls) == s
    decreases |s|
  {
    if |s| >= |find| {
      assert s[..|find|][0] == s[0];
      ReplaceBoundedMissingLead(s[1..], find, replace, cls);
      assert [s[0]] + s[1..] == s;
    }
  }

  /** A name that continues with a character that is not a boundary (`@al` inside
      `@alice`) is left alone. */
  lemma NotReplacedInsideLongerName(find: Find, tail: seq<byte>, replace: seq<byte>,
                                    cls: seq<byte> -> nat)
    requires tail != [] && Boundary(cls, tail) == NoBoundary
    requires find[0] !in find[1..] + tail
    ensures ReplaceBounded(find + tail, find, replace, cls) == find + tail
  {
    var s := find + tail;
    assert s[..|find|] == find;
    assert s[|find|..] == tail;
    assert s[1..] == find[1..] + tail;
    ReplaceBoundedMissingLead(s[1..], find, replace, cls);
    assert [s[0]] + s[1..] == s;
  }

  /** Unicode punctuation (`\pP`) and space separators (`\pZ`) among the ASCII characters,
      each one byte long. */
  function AsciiBoundary(s: seq<byte>): (n: nat)
    ensures n <= 1 && (n == 1 ==> s != [])
  {
    if s == [] then 0
    else
      var b := s[0];
      if b == 0x20 || 0x21 <= b <= 0x23 || 0x25 <= b <= 0x2A || 0x2C <= b <= 0x2F
         || b == 0x3A || b == 0x3B || b == 0x3F || b == 0x40 || 0x5B <= b <= 0x5D
         || b == 0x5F || b == 0x7B || b == 0x7D
      then 1 else 0
  }

  /** A mention `@al` is not replaced inside `@alice`. */
  lemma ShortNameInsideLonger(replace: seq<byte>)
    ensures var alice := [At, 0x61, 0x6C, 0x69, 0x63, 0x65];
            ReplaceBounded(alice, [At, 0x61, 0x6C], replace, AsciiBoundary) == alice
  {
    var find: Find := [At, 0x61, 0x6C];
    var tail := [0x69, 0x63, 0x65];
    assert AsciiBoundary(tail) == 0;
    assert [At, 0x61, 0x6C, 0x69, 0x63, 0x65] == find + tail;
    NotReplacedInsideLongerName(find, tail, replace, AsciiBoundary);
  }

  /** `@al` followed by a comma is replaced, and the comma stays. */
  lemma ShortNameBeforeComma(replace: seq<byte>)
    ensures ReplaceBounded([At, 0x61, 0x6C, 0x2C, 0x20, 0x68, 0x69], [At, 0x61, 0x6C], replace,
                           AsciiBoundary)
              == replace + [0x2C, 0x20, 0x68, 0x69]
  {
    var find: Find := [At, 0x61, 0x6C];
    var rest := [0x20, 0x68, 0x69];
    assert AsciiBoundary([0x2C] + rest) == 1;
    assert [At, 0x61, 0x6C, 0x2C, 0x20, 0x68, 0x69] == find + ([0x2C] + rest);
    ReplacedBeforeBoundaryByte(find, 0x2C, rest, replace, AsciiBoundary);
  }

  /** A name followed by a one-byte boundary and then text without the name's first byte. */
  lemma ReplacedBeforeBoundaryByte(find: Find, b: byte, rest: seq<byte>, replace: seq<byte>,
                                   cls: seq<byte> -> nat)
    requires cls([b] + rest) == 1 && find[0] !in rest
    ensures ReplaceBounded(find + ([b] + rest), find, replace, cls) == replace + [b] + rest
  {
    var tail := [b] + rest;
    ReplacedAtBoundary(find, tail, replace, cls);
    assert tail[..1] == [b] && tail[1..] == rest;
    ReplaceBoundedMissingLead(rest, find, replace, cls);
  }

  // ----- `StringReplaceGroup` -----

  /** The member names `dOutgoing` replaces as one group, so that it can put longer names
      first. */
  class StringReplaceGroup {
    var pairs: seq<Rewrite>

    /** The zero value of the Go type. */
    constructor ()
      ensures pairs == []
    {
      pairs := [];
    }

    method Add(find: Find, replace: seq<byte>)
      modifies this
      ensures pairs == old(pairs) + [Rewrite(find, replace)]
    {
      pairs := pairs + [Rewrite(find, replace)];
    }

    /** Sorts the group in place, then applies its entries in that order. */
    method Replace(str: seq<byte>, cls: seq<byte> -> nat) returns (result: seq<byte>)
      modifies this
      ensures pairs == SortPairs(old(pairs))
      ensures result == ApplyBounded(pairs, str, cls)
    {
      pairs := SortPairs(pairs);
      var ps := pairs;
      result := str;
      var i := 0;
      while i < |ps|
        invariant 0 <= i <= |ps|
        invariant result == ApplyBounded(ps[..i], str, cls)
      {
        assert ps[..i + 1][..i] == ps[..i];
        result := ReplaceBounded(result, ps[i].find, ps[i].replace, cls);
        i := i + 1;
      }
      assert ps[..i] == ps;
    }
  }

  // ----- `dOutgoing` -----

  function OutChannelRule(c: Channel): seq<Rewrite>
  {
    if c.isText then
      [Rewrite(DiscordFormat.EscapeMarkdown([Hash] + c.name),
               [LessThan, Hash, Marker] + c.id + [GreaterThan])]
    else []
  }

  function OutMemberPair(useNicknames: bool, m: Member): seq<Rewrite>
  {
    var display := DisplayNameForMember(useNicknames, m);
    if display == [] then []
    else [Rewrite(DiscordFormat.EscapeMarkdown([At] + display),
                  [LessThan, At, Marker] + m.user.id + [GreaterThan])]
  }

  /** The group `dOutgoing` builds before sorting it. */
  function OutMemberPairs(useNicknames: bool, ms: seq<Member>): seq<Rewrite>
    decreases |ms|
  {
    if ms == [] then []
    else OutMemberPairs(useNicknames, ms[..|ms| - 1]) + OutMemberPair(useNicknames, ms[|ms| - 1])
  }

  function OutRoleRule(r: Role): seq<Rewrite>
  {
    [Rewrite(DiscordFormat.EscapeMarkdown([At] + r.name),
             [LessThan, At, Ampersand] + r.id + [GreaterThan])]
  }

  function OutEmojiRule(e: Emoji): seq<Rewrite>
  {
    [Rewrite([Colon] + e.name + [Colon],
             [LessThan, Colon] + e.name + [Colon] + e.id + [GreaterThan])]
  }

  /** Unless the message is anonymous, `**<nick>** ` in front of it. */
  function Attribute(nick: seq<byte>, anonymous: bool, message: seq<byte>): (r: seq<byte>)
    ensures anonymous ==> r == message
    ensures !anonymous ==> HasPrefix(r, [Asterisk, Asterisk, LessThan] + nick + [GreaterThan])
    ensures |r| >= |message| && r[|r| - |message|..] == message
  {
    if anonymous then message
    else [Asterisk, Asterisk, LessThan] + nick + [GreaterThan, Asterisk, Asterisk, Space] + message
  }

  /** The mention text before the marker is removed. */
  function MarkedBody(g: Guild, rendered: seq<byte>, useNicknames: bool,
                      cls: seq<byte> -> nat): seq<byte>
  {
    var channels := ApplyAll(Concat(g.channels, OutChannelRule), rendered);
    var members := ApplyBounded(SortPairs(OutMemberPairs(useNicknames, g.members)), channels, cls);
    ApplyAll(Concat(g.roles, OutRoleRule), members)
  }

  /** The text `dOutgoing` sends, or `Panicked` when rendering the message panics. */
  function OutgoingMessage(nick: seq<byte>, g: Guild, parsed: Format.FormattedString,
                           anonymous: bool, useNicknames: bool,
                           cls: seq<byte> -> nat): Outcome<seq<byte>>
  {
    match DiscordFormat.RenderAll(parsed)
    case Panicked => Panicked
    case Done(rendered) =>
      var unmarked := ReplaceAll(MarkedBody(g, rendered, useNicknames, cls), [Marker], []);
      Done(Attribute(nick, anonymous, ApplyAll(Concat(g.emojis, OutEmojiRule), unmarked)))
  }

  /** The channel loop of `dOutgoing`: `#name`, escaped for Discord, becomes the marked mention `<#\xffid>`. */
  method OutChannels(channels: seq<Channel>, content: seq<byte>) returns (message: seq<byte>)
    ensures message == ApplyAll(Concat(channels, OutChannelRule), content)
  {
    message := content;
    var i := 0;
    while i < |channels|
      invariant 0 <= i <= |channels|
      invariant message == ApplyAll(Concat(channels[..i], OutChannelRule), content)
    {
      var c := channels[i];
      ConcatStep(channels, i, OutChannelRule);
      if c.isText {
        var find := DiscordFormat.EscapeMarkdown([Hash] + c.name);
        var replace := [LessThan, Hash, Marker] + c.id + [GreaterThan];
        ApplyAllSnoc(Concat(channels[..i], OutChannelRule), Rewrite(find, replace), content);
        message := ReplaceAll(message, find, replace);
      } else {
        assert Concat(channels[..i], OutChannelRule) + OutChannelRule(c)
            == Concat(channels[..i], OutChannelRule);
      }
      i := i + 1;
    }
    assert channels[..i] == channels;
  }

  method OutMembers(useNicknames: bool, members: seq<Member>) returns (sr: StringReplaceGroup)
    ensures fresh(sr)
    ensures sr.pairs == OutMemberPairs(useNicknames, members)
  {
    sr := new StringReplaceGroup();
    var i := 0;
    while i < |members|
      invariant 0 <= i <= |members|
      invariant sr.pairs == OutMemberPairs(useNicknames, members[..i])
    {
      var u := members[i];
      assert members[..i + 1][..i] == members[..i];
      var display := DisplayNameForMember(useNicknames, u);
      if display != [] {
        var find := DiscordFormat.EscapeMarkdown([At] + display);
        var replace := [LessThan, At, Marker] + u.user.id + [GreaterThan];
        sr.Add(find, replace);
      } else {
        assert OutMemberPairs(useNicknames, members[..i]) + OutMemberPair(useNicknames, u)
            == OutMemberPairs(useNicknames, members[..i]);
      }
      i := i + 1;
    }
    assert members[..i] == members;
  }

  /** The role loop of `dOutgoing`: `@name`, escaped for Discord, becomes `<@&id>`. */
  method OutRoles(roles: seq<Role>, content: seq<byte>) returns (message: seq<byte>)
    ensures message == ApplyAll(Concat(roles, OutRoleRule), content)
  {
    message := content;
    var i := 0;
    while i < |roles|
      invariant 0 <= i <= |roles|
      invariant message == ApplyAll(Concat(roles[..i], OutRoleRule), content)
    {
      var r := roles[i];
      ConcatStep(roles, i, OutRoleRule);
      var find := DiscordFormat.EscapeMarkdown([At] + r.name);
      var replace := [LessThan, At, Ampersand] + r.id + [GreaterThan];
      ApplyAllSnoc(Concat(roles[..i], OutRoleRule), Rewrite(find, replace), content);
      message := ReplaceAll(message, find, replace);
      i := i + 1;
    }
    assert roles[..i] == roles;
  }

  /** The emoji loop of `dOutgoing`: `:name:` becomes `<:name:id>`. */
  method OutEmojis(emojis: seq<Emoji>, content: seq<byte>) returns (message: seq<byte>)
    ensures message == ApplyAll(Concat(emojis, OutEmojiRule), content)
  {
    message := content;
    var i := 0;
    while i < |emojis|
      invariant 0 <= i <= |emojis|
      invariant message == ApplyAll(Concat(emojis[..i], OutEmojiRule), content)
    {
      var e := emojis[i];
      ConcatStep(emojis, i, OutEmojiRule);
      var find := [Colon] + e.name + [Colon];
      var replace := [LessThan, Colon] + e.name + [Colon] + e.id + [GreaterThan];
      ApplyAllSnoc(Concat(emojis[..i], OutEmojiRule), Rewrite(find, replace), content);
      message := ReplaceAll(message, find, replace);
      i := i + 1;
    }
    assert emojis[..i] == emojis;
  }

  /** `dOutgoing` up to handing the text to the send queue. */
  method Outgoing(nick: seq<byte>, g: Guild, parsed: Format.FormattedString, anonymous: bool,
                  useNicknames: bool, cls: seq<byte> -> nat) returns (out: Outcome<seq<byte>>)
    ensures out == OutgoingMessage(nick, g, parsed, anonymous, useNicknames, cls)
  {
    var rendered := DiscordFormat.RenderDiscord(parsed);
    if rendered.Panicked? {
      return Panicked;
    }
    var message := OutChannels(g.channels, rendered.value);
    var sr := OutMembers(useNicknames, g.members);
    message := sr.Replace(message, cls);
    message := OutRoles(g.roles, message);
    message := ReplaceAll(message, [Marker], []);
    message := OutEmojis(g.emojis, message);
    if anonymous {
      out := Done(message);
    } else {
      out := Done([Asterisk, Asterisk, LessThan] + nick + [GreaterThan, Asterisk, Asterisk, Space]
                  + message);
    }
  }

  // ----- the marker -----

  lemma {:induction false} ApplyAllKeepsOut(rs: seq<Rewrite>, msg: seq<byte>, b: byte)
    requires b !in msg
    requires forall j :: 0 <= j < |rs| ==> b !in rs[j].replace
    ensures b !in ApplyAll(rs, msg)
    decreases |rs|
  {
    if rs != [] {
      var init := rs[..|rs| - 1];
      assert forall j :: 0 <= j < |init| ==> init[j] == rs[j];
      ApplyAllKeepsOut(init, msg, b);
      ReplaceAllKeepsOut(ApplyAll(init, msg), rs[|rs| - 1].find, rs[|rs| - 1].replace, b);
    }
  }

  lemma {:induction false} EmojiRulesNoMarker(es: seq<Emoji>)
    requires forall i :: 0 <= i < |es| ==> Marker !in es[i].name && Marker !in es[i].id
    ensures forall j :: 0 <= j < |Concat(es, OutEmojiRule)| ==>
              Marker !in Concat(es, OutEmojiRule)[j].replace
    decreases |es|
  {
    if es != [] {
      var init := es[..|es| - 1];
      assert forall i :: 0 <= i < |init| ==> init[i] == es[i];
      EmojiRulesNoMarker(init);
      var a: seq<Rewrite> := Concat(init, OutEmojiRule);
      var b: seq<Rewrite> := OutEmojiRule(es[|es| - 1]);
      forall j | 0 <= j < |a + b| ensures Marker !in (a + b)[j].replace {
        if j < |a| {
          assert (a + b)[j] == a[j];
        } else {
          assert (a + b)[j] == b[0];
        }
      }
    }
  }

  /** No marker reaches Discord: the text after the nick has none, given emoji names and
      IDs without the byte 0xFF (which valid UTF-8 never contains). */
  lemma NoMarkerSent(nick: seq<byte>, g: Guild, parsed: Format.FormattedString,
                     anonymous: bool, useNicknames: bool, cls: seq<byte> -> nat)
    requires forall i :: 0 <= i < |g.emojis| ==> Marker !in g.emojis[i].name && Marker !in g.emojis[i].id
    requires OutgoingMessage(nick, g, parsed, anonymous, useNicknames, cls).Done?
    ensures var r := DiscordFormat.RenderAll(parsed).value;
            var unmarked := ReplaceAll(MarkedBody(g, r, useNicknames, cls), [Marker], []);
            var body := ApplyAll(Concat(g.emojis, OutEmojiRule), unmarked);
            OutgoingMessage(nick, g, parsed, anonymous, useNicknames, cls)
              == Done(Attribute(nick, anonymous, body))
            && Marker !in body
  {
    var r := DiscordFormat.RenderAll(parsed).value;
    var unmarked := ReplaceAll(MarkedBody(g, r, useNicknames, cls), [Marker], []);
    ReplaceAllDeletes(MarkedBody(g, r, useNicknames, cls), Marker);
    EmojiRulesNoMarker(g.emojis);
    ApplyAllKeepsOut(Concat(g.emojis, OutEmojiRule), unmarked, Marker);
  }

  /** The marker keeps a name from matching inside a mention already made: no `#…` or
      `@…` search string occurs at any position of `<#\xffID>` or `<@\xffID>`, wherever it
      stands in the message. */
  lemma MarkerBlocksRematch(sigil: byte, pre: seq<byte>, id: seq<byte>, post: seq<byte>,
                            find: Find)
    requires sigil == Hash || sigil == At
    requires IsSnowflake(id)
    requires |find| >= 2 && find[0] == sigil && find[1] != Marker
    ensures var mention := [LessThan, sigil, Marker] + id + [GreaterThan];
            forall p :: |pre| <= p < |pre| + |mention| ==> !OccursAt(pre + mention + post, find, p)
  {
    var mention := [LessThan, sigil, Marker] + id + [GreaterThan];
    var s := pre + mention + post;
    forall p | |pre| <= p < |pre| + |mention| ensures !OccursAt(s, find, p) {
      if p + |find| <= |s| {
        assert s[p..p + |find|][0] == s[p] && s[p..p + |find|][1] == s[p + 1];
        assert s[p] == mention[p - |pre|];
        if p == |pre| + 1 {
          assert s[p + 1] == Marker;
        } else {
          assert mention[p - |pre|] != sigil;
        }
      }
    }
  }
}
