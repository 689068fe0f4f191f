/** The guild a Discord message arrives in, the display names of its members, and the
    translation of Discord mention markup into plain IRC text (`convertMentionsForIRC`,
    bot/discord.go). */
module DiscordMentions {
  import opened Bytes
  import opened Rewrites

  datatype Channel = Channel(id: seq<byte>, name: seq<byte>, isText: bool)
  datatype User = User(id: seq<byte>, username: seq<byte>)
  datatype Member = Member(user: User, nick: seq<byte>)
  datatype Role = Role(id: seq<byte>, name: seq<byte>)
  datatype Emoji = Emoji(id: seq<byte>, name: seq<byte>)
  datatype Guild = Guild(channels: seq<Channel>, members: seq<Member>, roles: seq<Role>,
                         emojis: seq<Emoji>)

  const LessThan: byte := 0x3C
  const GreaterThan: byte := 0x3E
  const Hash: byte := 0x23
  const At: byte := 0x40
  const Bang: byte := 0x21
  const Ampersand: byte := 0x26
  const Colon: byte := 0x3A

  /** `getDisplayNameForMember`: the nickname when nicknames are enabled and one is set,
      the account name otherwise. */
  function DisplayNameForMember(useNicknames: bool, m: Member): (r: seq<byte>)
    ensures r == m.nick || r == m.user.username
    ensures !useNicknames ==> r == m.user.username
    ensures useNicknames && m.nick != [] ==> r == m.nick
    ensures r == [] <==> m.user.username == [] && (!useNicknames || m.nick == [])
  {
    if useNicknames && m.nick != [] then m.nick else m.user.username
  }

  /** `members[k]` is the first member whose account is `id`. */
  predicate FirstMember(members: seq<Member>, id: seq<byte>, k: int)
  {
    0 <= k < |members| && members[k].user.id == id &&
    forall j :: 0 <= j < k ==> members[j].user.id != id
  }

  /** `getDisplayNameForUser`: with nicknames enabled, the display name of the first
      member with the user's account; otherwise, or when there is none, the account name. */
  method DisplayNameForUser(useNicknames: bool, user: User, members: seq<Member>)
    returns (name: seq<byte>)
    ensures !useNicknames ==> name == user.username
    ensures (forall j :: 0 <= j < |members| ==> members[j].user.id != user.id) ==>
              name == user.username
    ensures (useNicknames && exists j :: 0 <= j < |members| && members[j].user.id == user.id)
            ==> exists k :: FirstMember(members, user.id, k) &&
                    name == DisplayNameForMember(true, members[k])
  {
    if useNicknames {
      var i := 0;
      while i < |members|
        invariant 0 <= i <= |members|
        invariant forall j :: 0 <= j < i ==> members[j].user.id != user.id
      {
        if members[i].user.id == user.id {
          assert FirstMember(members, user.id, i);
          return DisplayNameForMember(true, members[i]);
        }
        i := i + 1;
      }
    }
    return user.username;
  }

  /** `<#ID>` becomes `#name`, for text channels only. */
  function ChannelRule(c: Channel): seq<Rewrite>
  {
    if c.isText then [Rewrite([LessThan, Hash] + c.id + [GreaterThan], [Hash] + c.name)]
    else []
  }

  /** `<@id>` and then `<@!id>` become `@display`; a member without a display name is
      skipped. */
  function MemberRules(useNicknames: bool, m: Member): seq<Rewrite>
  {
    var display := DisplayNameForMember(useNicknames, m);
    if display == [] then []
    else [Rewrite([LessThan, At] + m.user.id + [GreaterThan], [At] + display),
          Rewrite([LessThan, At, Bang] + m.user.id + [GreaterThan], [At] + display)]
  }

  /** The rewrites of all members, in guild order. */
  function MembersRules(useNicknames: bool, ms: seq<Member>): seq<Rewrite>
    decreases |ms|
  {
    if ms == [] then []
    else MembersRules(useNicknames, ms[..|ms| - 1]) + MemberRules(useNicknames, ms[|ms| - 1])
  }

  /** `<@&ID>` becomes `@name`. */
  function RoleRule(r: Role): seq<Rewrite>
  {
    [Rewrite([LessThan, At, Ampersand] + r.id + [GreaterThan], [At] + r.name)]
  }

  /** `<:name:ID>` becomes `:name:`. */
  function EmojiRule(e: Emoji): seq<Rewrite>
  {
    [Rewrite([LessThan, Colon] + e.name + [Colon] + e.id + [GreaterThan], [Colon] + e.name + [Colon])]
  }

  /** All replacements of `convertMentionsForIRC`, in the order it makes them: channels,
      members, roles, emojis, each in guild order. */
  function MentionRules(useNicknames: bool, g: Guild): seq<Rewrite>
  {
    Concat(g.channels, ChannelRule)
    + MembersRules(useNicknames, g.members)
    + Concat(g.roles, RoleRule)
    + Concat(g.emojis, EmojiRule)
  }

  /** `convertMentionsForIRC` on a message with content `content`. */
  method ConvertMentionsForIrc(useNicknames: bool, g: Guild, content: seq<byte>)
    returns (message: seq<byte>)
    ensures message == ApplyAll(MentionRules(useNicknames, g), content)
  {
    var afterChannels := ReplaceChannels(g.channels, content);
    var afterMembers := ReplaceMembers(useNicknames, g.members, afterChannels);
    var afterRoles := ReplaceRoles(g.roles, afterMembers);
    message := ReplaceEmojis(g.emojis, afterRoles);
    var cc := Concat(g.channels, ChannelRule);
    var cu := MembersRules(useNicknames, g.members);
    var cr := Concat(g.roles, RoleRule);
    var cm := Concat(g.emojis, EmojiRule);
    ApplyAllAppend(cc, cu, content);
    ApplyAllAppend(cc + cu, cr, content);
    ApplyAllAppend(cc + cu + cr, cm, content);
  }

  /** The channel loop of `convertMentionsForIRC`. */
  method ReplaceChannels(channels: seq<Channel>, content: seq<byte>) returns (message: seq<byte>)
    ensures message == ApplyAll(Concat(channels, ChannelRule), content)
  {
    message := content;
    var i := 0;
    while i < |channels|
      invariant 0 <= i <= |channels|
      invariant message == ApplyAll(Concat(channels[..i], ChannelRule), content)
    {
      var c := channels[i];
      ConcatStep(channels, i, ChannelRule);
      if c.isText {
        var find := [LessThan, Hash] + c.id + [GreaterThan];
        var replace := [Hash] + c.name;
        ApplyAllSnoc(Concat(channels[..i], ChannelRule), Rewrite(find, replace), content);
        message := ReplaceAll(message, find, replace);
      } else {
        assert Concat(channels[..i], ChannelRule) + ChannelRule(c)
            == Concat(channels[..i], ChannelRule);
      }
      i := i + 1;
    }
    assert channels[..i] == channels;
  }

  /** The member loop of `convertMentionsForIRC`. */
  method ReplaceMembers(useNicknames: bool, members: seq<Member>, content: seq<byte>)
    returns (message: seq<byte>)
    ensures message == ApplyAll(MembersRules(useNicknames, members), content)
  {
    message := content;
    var i := 0;
    while i < |members|
      invariant 0 <= i <= |members|
      invariant message == ApplyAll(MembersRules(useNicknames, members[..i]), content)
    {
      var u := members[i];
      assert ApplyAll(MembersRules(useNicknames, members[..i + 1]), content)
          == ApplyAll(MemberRules(useNicknames, u), message) by {
        var before := MembersRules(useNicknames, members[..i]);
        assert members[..i + 1][..i] == members[..i];
        ApplyAllAppend(before, MemberRules(useNicknames, u), content);
      }
      MemberRulesApplied(useNicknames, u, message);
      var display := DisplayNameForMember(useNicknames, u);
      if display != [] {
        var find := [LessThan, At] + u.user.id + [GreaterThan];
        var find2 := [LessThan, At, Bang] + u.user.id + [GreaterThan];
        var replace := [At] + display;
        message := ReplaceAll(message, find, replace);
        message := ReplaceAll(message, find2, replace);
      }
      i := i + 1;
    }
    assert members[..i] == members;
  }

  /** A member's rewrites are its two `strings.Replace` calls, or none. */
  lemma MemberRulesApplied(useNicknames: bool, m: Member, message: seq<byte>)
    ensures var display := DisplayNameForMember(useNicknames, m);
            ApplyAll(MemberRules(useNicknames, m), message)
            == if display == [] then message
               else ReplaceAll(ReplaceAll(message, [LessThan, At] + m.user.id + [GreaterThan], [At] + display),
                               [LessThan, At, Bang] + m.user.id + [GreaterThan], [At] + display)
  {
    var display := DisplayNameForMember(useNicknames, m);
    if display != [] {
      var r1 := Rewrite([LessThan, At] + m.user.id + [GreaterThan], [At] + display);
      var r2 := Rewrite([LessThan, At, Bang] + m.user.id + [GreaterThan], [At] + display);
      ApplyAllSnoc([], r1, message);
      ApplyAllSnoc([r1], r2, message);
      assert [] + [r1] == [r1] && [r1] + [r2] == MemberRules(useNicknames, m);
    }
  }

  /** The role loop of `convertMentionsForIRC`. */
  method ReplaceRoles(roles: seq<Role>, content: seq<byte>) returns (message: seq<byte>)
    ensures message == ApplyAll(Concat(roles, RoleRule), content)
  {
    message := content;
    var i := 0;
    while i < |roles|
      invariant 0 <= i <= |roles|
      invariant message == ApplyAll(Concat(roles[..i], RoleRule), content)
    {
      var r := roles[i];
      ConcatStep(roles, i, RoleRule);
      var find := [LessThan, At, Ampersand] + r.id + [GreaterThan];
      var replace := [At] + r.name;
      ApplyAllSnoc(Concat(roles[..i], RoleRule), Rewrite(find, replace), content);
      message := ReplaceAll(message, find, replace);
      i := i + 1;
    }
    assert roles[..i] == roles;
  }

  /** The emoji loop of `convertMentionsForIRC`. */
  method ReplaceEmojis(emojis: seq<Emoji>, content: seq<byte>) returns (message: seq<byte>)
    ensures message == ApplyAll(Concat(emojis, EmojiRule), content)
  {
    message := content;
    var i := 0;
    while i < |emojis|
      invariant 0 <= i <= |emojis|
      invariant message == ApplyAll(Concat(emojis[..i], EmojiRule), content)
    {
      var e := emojis[i];
      ConcatStep(emojis, i, EmojiRule);
      var find := [LessThan, Colon] + e.name + [Colon] + e.id + [GreaterThan];
      var replace := [Colon] + e.name + [Colon];
      ApplyAllSnoc(Concat(emojis[..i], EmojiRule), Rewrite(find, replace), content);
      message := ReplaceAll(message, find, replace);
      i := i + 1;
    }
    assert emojis[..i] == emojis;
  }

  /** Every mention markup starts with `<`: a message without one comes through unchanged. */
  lemma NoMarkupUnchanged(useNicknames: bool, g: Guild, content: seq<byte>)
    requires LessThan !in content
    ensures ApplyAll(MentionRules(useNicknames, g), content) == content
  {
    ConcatAllLead(g.channels, ChannelRule, LessThan);
    MembersAllLead(useNicknames, g.members);
    ConcatAllLead(g.roles, RoleRule, LessThan);
    ConcatAllLead(g.emojis, EmojiRule, LessThan);
    var all := MentionRules(useNicknames, g);
    assert AllLead(all, LessThan) by {
      var a := Concat(g.channels, ChannelRule);
      var b := MembersRules(useNicknames, g.members);
      var c := Concat(g.roles, RoleRule);
      var d := Concat(g.emojis, EmojiRule);
      AllLeadAppend(a, b, LessThan);
      AllLeadAppend(a + b, c, LessThan);
      AllLeadAppend(a + b + c, d, LessThan);
    }
    ApplyAllMissingLead(all, content, LessThan);
  }

  lemma {:induction false} MembersAllLead(useNicknames: bool, ms: seq<Member>)
    ensures AllLead(MembersRules(useNicknames, ms), LessThan)
    decreases |ms|
  {
    if ms != [] {
      MembersAllLead(useNicknames, ms[..|ms| - 1]);
      AllLeadAppend(MembersRules(useNicknames, ms[..|ms| - 1]),
                    MemberRules(useNicknames, ms[|ms| - 1]), LessThan);
    }
  }

  lemma AllLeadAppend(a: seq<Rewrite>, b: seq<Rewrite>, lead: byte)
    requires AllLead(a, lead) && AllLead(b, lead)
    ensures AllLead(a + b, lead)
  {
    forall j | 0 <= j < |a + b| ensures (a + b)[j].find[0] == lead {
      if j < |a| {
        assert (a + b)[j] == a[j];
      } else {
        assert (a + b)[j] == b[j - |a|];
      }
    }
  }

  /** An account ID is a Discord snowflake: decimal digits. */
  predicate IsSnowflake(id: seq<byte>)
  {
    forall i :: 0 <= i < |id| ==> IsDigit(id[i])
  }

  /** Both spellings of a member mention, `<@id>` and `<@!id>`, become `@display`, and a
      member without a display name translates nothing. */
  lemma MemberMentionBecomesDisplay(useNicknames: bool, m: Member, bang: bool)
    requires IsSnowflake(m.user.id)
    requires LessThan !in DisplayNameForMember(useNicknames, m)
    ensures var display := DisplayNameForMember(useNicknames, m);
            var mention := if bang then [LessThan, At, Bang] + m.user.id + [GreaterThan]
                           else [LessThan, At] + m.user.id + [GreaterThan];
            ApplyAll(MemberRules(useNicknames, m), mention)
              == if display == [] then mention else [At] + display
  {
    var display := DisplayNameForMember(useNicknames, m);
    var id := m.user.id;
    var f1 := [LessThan, At] + id + [GreaterThan];
    var f2 := [LessThan, At, Bang] + id + [GreaterThan];
    var mention := if bang then f2 else f1;
    if display != [] {
      var rep := [At] + display;
      var rs := MemberRules(useNicknames, m);
      assert rs == [Rewrite(f1, rep)] + [Rewrite(f2, rep)];
      ApplyAllSnoc([Rewrite(f1, rep)], Rewrite(f2, rep), mention);
      ApplyAllSnoc([], Rewrite(f1, rep), mention);
      assert [] + [Rewrite(f1, rep)] == [Rewrite(f1, rep)];
      if bang {
        forall p | 0 <= p <= |f2| ensures !OccursAt(f2, f1, p) {
          if p + |f1| <= |f2| {
            assert f2[p..p + |f1|][0] == f2[p];
            if p == 0 {
              assert f2[p..p + |f1|][2] == f2[2];
              assert f2[2] != f1[2];
            } else {
              assert f2[p] != LessThan;
            }
          }
        }
        ReplaceAllAbsent(f2, f1, rep);
        ReplaceAllWhole(f2, rep);
      } else {
        ReplaceAllWhole(f1, rep);
        ReplaceAllMissingLead(rep, f2, rep);
      }
    }
  }

  /** A search string replaced on its own leaves just the replacement. */
  lemma ReplaceAllWhole(f: Find, r: seq<byte>)
    ensures ReplaceAll(f, f, r) == r
  {
    assert f[..|f|] == f;
    assert f[|f|..] == [];
    assert r + [] == r;
  }

  /** The text channels of `cs`, in order. */
  function TextChannels(cs: seq<Channel>): (r: seq<Channel>)
    ensures forall i :: 0 <= i < |r| ==> r[i].isText && r[i] in cs
    decreases |cs|
  {
    if cs == [] then []
    else TextChannels(cs[..|cs| - 1]) + (if cs[|cs| - 1].isText then [cs[|cs| - 1]] else [])
  }

  /** Voice channels and categories contribute nothing: the channel replacements are
      exactly those of the text channels. */
  lemma {:induction false} OnlyTextChannels(cs: seq<Channel>)
    ensures Concat(cs, ChannelRule) == Concat(TextChannels(cs), ChannelRule)
    decreases |cs|
  {
    if cs != [] {
      var init := cs[..|cs| - 1];
      var last := cs[|cs| - 1];
      OnlyTextChannels(init);
      var t := TextChannels(init);
      if last.isText {
        assert (t + [last])[..|t + [last]| - 1] == t;
      } else {
        assert t + [] == t;
      }
    }
  }
}
