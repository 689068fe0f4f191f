# DisGoIRC relay core, modelled in Dafny

DisGoIRC is a bot that relays chat between IRC channels and Discord channels. This
project models its message-transformation core:

- the `format` package's intermediate representation of a message: a `FormattedString` made of
  `Span`s, each carrying bold/italic/underline flags and a foreground and background colour;
- the IRC parser and renderer (`ParseIRC`, `RenderIRC`), which work with control bytes `\x02`, `\x1d`,
  `\x1f`, `\x0f` and `\x03` colour codes;
- the Discord renderer (`RenderDiscord`): markdown escaping that leaves code and URLs alone,
  trimming, emphasis markers and the U+FEFF separator;
- the IRC side of the bot: the anti-ping nick mangling, the outgoing line, and the lower-casing of
  incoming channels;
- the Discord side of the bot:
  - mention conversion in both directions, including the longest-first, boundary-checked
    nick replacement (`StringReplaceGroup`) and the `\xff` marker;
  - attribution of relayed messages;
  - embed colour matching against the IRC palette;
  - line clipping and paste fallback for long messages;
  - embed rendering and link rewriting;
  - the retry loop;
- the bridge:
  - the channel mapping and the inverse map built by `Init`;
  - the drop rules of `incomingIRC` and `incomingDiscord`;
  - the IRC-to-Discord conversion of control codes into markdown pairs.

Strings are Go strings, so byte sequences: `Bytes.byte` is `0..255` and every text is `seq<byte>`.
A Go panic is the `Panicked` case of `Bytes.Outcome`. Format flags are `bv64`, standing for Go's
`int` bitfield. Colours are integers, `Default` being 0 and each IRC colour stored plus one.

Each file is one module:

- `bytes.dfy`: bytes and common operations, including `Split`, `Join`, and `ReplaceAll` for `strings.Replace`.
- `format.dfy`: `format/format.go`.
- `irc_format.dfy`: `format/irc.go`.
- `irc_corrected.dfy`: the repaired IRC renderer and its round trip.
- `irc_findings.dfy`: concrete inputs showing the renderer defects.
- `irc_vectors.dfy`: the cases of `format/irc_test.go`.
- `discord_format.dfy`: `format/discord.go`.
- `irc_bot.dfy`: `bot/irc.go`.
- The parts of `bot/discord.go`:
  - `discord_retry.dfy`: the retry loop;
  - `discord_color.dfy`: colour matching;
  - `discord_clip.dfy`: clipping and dispatch;
  - `discord_embed.dfy`: embeds;
  - `discord_mentions.dfy`: mentions, Discord to IRC;
  - `discord_outgoing.dfy`: `dOutgoing` and `StringReplaceGroup`.
- `rewrites.dfy`: runs of `strings.Replace`.
- `bridge.dfy`: `bot/bridge.go`.

Where the source updates state in place, the model does too:

- `Bridge.Bridge` holds the mapping and the inverse map that `Init` fills.
- `DiscordOutgoing.StringReplaceGroup` holds the pairs that `Add` appends and that `Replace` sorts.
- The loops of `ParseIRC`, `RenderIRC`, `RenderDiscord`, `clipLinesForIRC`,
  `colorToIRCCompatible`, `convertMentionsForIRC`, `dOutgoing`, `getDisplayNameForUser`,
  `retryErrors`, `fmtReplaceInPairs` and `Init` are methods with loop invariants. Most are proved
  equal to a specification function, and the properties are proved as lemmas about that function.
  `retryErrors`, `getDisplayNameForUser` and `Init` state their results directly instead: the
  attempts made and when the run is fatal, the first member with the user's ID, and the inverse map.

## Model

Functions that only compute have no row of their own; the rows of the lemmas and methods about
them say what they compute:

- `IrcBot.AddAntiPing`: `IrcBot.AntiPingFrom`, `IrcBot.AddAntiPingMarksWordStarts`, `IrcBot.AntiPingRemovable`;
- `IrcBot.OutgoingLine`: `IrcBot.OutgoingLineLayout`; `IrcBot.Action`: `IrcBot.ActionWrapsText`;
- `DiscordOutgoing.ReplaceBounded`: `DiscordOutgoing.ReplacedAtBoundary`, `DiscordOutgoing.NotReplacedInsideLongerName`;
- `DiscordOutgoing.OutgoingMessage`: `DiscordOutgoing.Outgoing`, `DiscordOutgoing.NoMarkerSent`;
- `Bridge.IrcToDiscordText`: `Bridge.FmtIrcToDiscord`, `Bridge.IrcToDiscordRemovesCodes`;
- `Bridge.InPairs`: `Bridge.ReplaceInPairs`, `Bridge.PairsClosed`.

| member | source | states |
|---|---|---|
| Bytes.Split | bot/discord.go:299 | `strings.Split` yields at least one piece, and no piece holds the separator |
| Bytes.JoinSplit | bot/discord.go:299 | joining the pieces of a split with the separator gives the string back |
| Bytes.SplitJoin | bot/discord.go:328 | splitting a join of separator-free pieces gives the pieces back |
| Bytes.ReplaceAllAbsent | bot/discord.go:263 | `strings.Replace` changes nothing when the search string does not occur |
| Bytes.ReplaceAllDeletes | bot/discord.go:448 | replacing a byte with nothing removes every occurrence of it |
| Format.FlagsAreBits | format/format.go:6-16 | Bold, Italic and Underline are distinct single bits, and toggling a flag twice restores the format and leaves the other flags alone |
| Format.NamedColorsOffsetByOne | format/format.go:19-45 | the sixteen named colours are the IRC numbers plus one, so Default is 0, and Gray/LightGray alias Grey/LightGrey |
| Format.ZeroFormatIsNoFormatNoColor | format/format.go:56-64 | `IsZeroFormat` holds exactly when there is no format and `IsZeroColor` holds |
| Format.TextsAppend | format/format.go:66 | the text of a concatenation of formatted strings is the concatenation of their texts |
| IrcFormat.DigitRun | format/irc.go:66 | the `[0-9]{0,2}` group matches the longest run of at most two digits |
| IrcFormat.ColorCodeLength | format/irc.go:66 | a colour code, comma included, is at most five bytes long |
| IrcFormat.ParseColorCode | format/irc.go:68-95 | the code consumes exactly the regex match and never changes the text or the format |
| IrcFormat.ParseIRC | format/irc.go:25-64 | the byte loop gives the byte-copying parse `Parse` with every span's text re-encoded as `string(c)` writes it: a byte of 0x80 or more becomes two bytes (see Findings) |
| Bytes.RuneBytes | format/irc.go:36 | `string(c)` of a byte is that byte when it is below 0x80, and otherwise the two-byte UTF-8 encoding of code point `c` |
| Bytes.ReencodeIdentity | format/irc.go:36 | re-encoding leaves a text unchanged exactly when it is ASCII, and otherwise makes it longer |
| Bytes.ReencodeAppend | format/irc.go:36 | texts are re-encoded byte by byte, so a concatenation is re-encoded piecewise |
| IrcFormat.ReencodeSpansIdentity | format/irc.go:36 | re-encoding the spans leaves them unchanged exactly when every text is ASCII |
| IrcFormat.AsWrittenAgreesOnAscii | format/irc.go:25-64 | `ParseIRC` as written agrees with the byte-copying parse exactly when the message's text is ASCII, so on every ASCII message |
| IrcFormat.ParseWellFormed | format/irc.go:40-61 | every span emitted, by the byte-copying parse and by `ParseIRC` as written, has non-empty text without control bytes and only known flags |
| IrcFormat.ParseKeepsText | format/irc.go:35-37 | the texts of the byte-copying parse, concatenated, are the message with its control codes removed (`Plain`); those of `ParseIRC` as written are `Plain` re-encoded |
| IrcFormat.ParseFormatByte | format/irc.go:46-47 | a format byte ends the span and toggles exactly its own flag |
| IrcFormat.FormatByteKeepsOthers | format/irc.go:47 | toggling one flag leaves every other flag as it was |
| IrcFormat.ParseResetByte | format/irc.go:48-51 | `\x0f` ends the span and resets format and both colours |
| IrcFormat.ParseColorByte | format/irc.go:52-53 | `\x03` ends the span and applies the colour code that follows it |
| IrcFormat.ColorSpecifier | format/irc.go:148-153 | Default has no specifier; any other colour is two digits whose value plus one is the colour |
| IrcFormat.SafeByteEndsColorCode | format/irc.go:155-157 | a byte is safe after a bare `\x03` exactly when no colour code starts with it |
| IrcFormat.Toggles | format/irc.go:109-118 | the format toggles are at most three format bytes |
| IrcFormat.RenderIRC | format/irc.go:98-146 | the loop gives what the recursive renderer `Render` does, `Panicked` on the `span.Text[0]` panic |
| IrcFormat.RenderTotalOnNonEmptyTexts | format/irc.go:123 | rendering never panics when every span's text is non-empty |
| IrcFormat.ParseBothSpecifiers | format/irc.go:126-130 | the code `fg,bg` written by the renderer parses back to both colours |
| IrcCorrected.TogglesEmpty | format/irc.go:109-118 | no toggles are written exactly when the format is unchanged |
| IrcCorrected.ParseToggles | format/irc.go:109-118 | parsing the toggles written for a format change gives that format |
| IrcCorrected.CorrectedStepIsText | format/irc.go:102-143 | a span is written as bare text exactly when its style equals the previous span's |
| IrcCorrected.RoundTrip | format/irc.go:98-146 | the byte-copying parse of the corrected rendering of a well-formed message with differently styled neighbours gives the message back |
| IrcCorrected.RoundTripAsWritten | format/irc.go:25-64 | with `ParseIRC` as written, that round trip holds exactly when every text is ASCII |
| IrcCorrected.RoundTripNeedsWellFormed | format/irc.go:25-64 | only a well-formed message survives the round trip |
| IrcFindings.ForegroundDropMisparsed | format/irc.go:126-139 | as written, blue-then-default foreground over a new background renders `\x0302foo\x03,01bar`, which parses with `bar` still blue |
| IrcFindings.ForegroundDropCorrected | format/irc.go:120-139 | the corrected renderer writes that message so that it parses back |
| IrcFindings.CommaAfterForegroundMisparsed | format/irc.go:131-134 | as written, text `,1b` after a foreground code is taken as a background code |
| IrcFindings.CommaAfterForegroundCorrected | format/irc.go:123-125 | the corrected renderer guards that text with `\x02\x02`, and it parses back |
| IrcFindings.CorrectedFromAgrees | format/irc.go:98-146 | away from the two defects, the renderer as written does not panic and writes what the corrected one does |
| IrcFindings.RoundTripAwayFromDefects | format/irc_test.go:118-124 | on such messages the byte-copying parse of `RenderIRC(fs)` gives `fs` back; `ParseIRC(RenderIRC(fs)) == fs` as written holds exactly when every text is ASCII |
| IrcFindings.OneStyleNeighboursMerge | format/irc.go:141 | two adjacent spans of one style render as glued text, which parses as one span, so the round trip needs distinct neighbours |
| IrcVectors.ParseEmptyLine | format/irc_test.go:13 | `""` parses to no spans |
| IrcVectors.ParsePlainText | format/irc_test.go:14-16 | `foo` is one plain span |
| IrcVectors.ParseBothColors | format/irc_test.go:17-19 | `\x0302,01foo` is blue on black |
| IrcVectors.ParseBackgroundCleared | format/irc_test.go:20-23 | `\x03,` clears the background only |
| IrcVectors.ParseBareColor | format/irc_test.go:24-27 | a bare `\x03` clears both colours |
| IrcVectors.ParseForegroundOnly | format/irc_test.go:28-31 | `\x0301` changes the foreground only |
| IrcVectors.ParseBackgroundOnly | format/irc_test.go:32-35 | `\x03,02` changes the background only |
| IrcVectors.ParseBoldToggles | format/irc_test.go:36-40 | `\x02` toggles bold on, off and on |
| IrcVectors.ParseAllFlagsThenReset | format/irc_test.go:41-44 | three flags then `\x0f` reset |
| IrcVectors.ParseAllFlagsColorsThenReset | format/irc_test.go:45-48 | flags and single-digit colours then reset |
| IrcVectors.ParseAllFlagsColorsThenBareColor | format/irc_test.go:49-52 | a bare `\x03` keeps the flags |
| IrcVectors.ParseMultiByteText | format/irc_test.go:53-55 | the byte-copying parse keeps `ΨΩΔ` as one plain span, as the test expects |
| IrcVectors.ParseMultiByteTextAsWritten | format/irc.go:36 | `ParseIRC` as written turns `ΨΩΔ` (`CE A8 CE A9 CE 94`) into the span `C3 8E C2 A8 C3 8E C2 A9 C3 8E C2 94`, not the span the test expects |
| IrcVectors.ParseColorsThenReset | format/irc_test.go:80-83 | the rendered form of case 80-83 parses back |
| IrcVectors.ParseBoldResetBold | format/irc_test.go:92-96 | the rendered form of case 92-96 parses back |
| IrcVectors.ParseRenderedFlagsThenReset | format/irc_test.go:97-100 | the rendered form of case 97-100 parses back |
| IrcVectors.ParseRenderedFlagsColorsThenReset | format/irc_test.go:101-104 | the rendered form of case 101-104 parses back |
| IrcVectors.ParseRenderedFlagsColorsThenBareColor | format/irc_test.go:105-108 | the rendered form of case 105-108 parses back |
| IrcVectors.ParseGuardedDigit | format/irc_test.go:109-112 | `\x03\x02\x021bar` keeps `1bar` as text |
| IrcVectors.RenderEmpty | format/irc_test.go:69 | no spans render to `""` |
| IrcVectors.RenderPlainText | format/irc_test.go:70-72 | a plain span renders as its text, and back |
| IrcVectors.RenderBothColors | format/irc_test.go:73-75 | blue on black renders `\x0302,01foo`, and back |
| IrcVectors.RenderBackgroundCleared | format/irc_test.go:76-79 | a background drop renders `\x03,`, and back |
| IrcVectors.RenderColorsThenReset | format/irc_test.go:80-83 | a colour drop to the zero span renders `\x0f`, and back |
| IrcVectors.RenderForegroundOnly | format/irc_test.go:84-87 | a foreground change renders `\x0301`, and back |
| IrcVectors.RenderBackgroundOnly | format/irc_test.go:88-91 | a background change renders `\x03,02`, and back |
| IrcVectors.RenderBoldResetBold | format/irc_test.go:92-96 | bold, plain, bold renders `\x02foo\x0fbar\x02baz`, and back |
| IrcVectors.RenderAllFlagsThenReset | format/irc_test.go:97-100 | the toggles come in the order bold, italic, underline, and back |
| IrcVectors.RenderAllFlagsColorsThenReset | format/irc_test.go:101-104 | flags, then colours, then reset, and back |
| IrcVectors.RenderAllFlagsColorsThenBareColor | format/irc_test.go:105-108 | a colour drop with flags kept renders a bare `\x03`, and back |
| IrcVectors.RenderGuardedDigit | format/irc_test.go:109-112 | a digit after a bare `\x03` is guarded by `\x02\x02`, and back |
| IrcVectors.RenderMultiByteText | format/irc_test.go:113-115 | multi-byte text renders verbatim and the byte-copying parse reads it back; `ParseIRC` as written does not |
| DiscordFormat.ParseDiscord | format/discord.go:10-14 | a Discord message is one span without formatting holding the whole message |
| DiscordFormat.UnescapeEscapeMarkdown | format/discord.go:16 | Discord reads an escaped word as the word itself |
| DiscordFormat.EscapeMarkdownIsInert | format/discord.go:16 | after escaping, every `\`, `*` and `_` is preceded by an unescaped backslash |
| DiscordFormat.EscapeMarkdownAbsent | format/discord.go:16 | escaping only adds backslashes |
| DiscordFormat.EscapeMarkdownIdentity | format/discord.go:16 | a word without markdown bytes is unchanged |
| DiscordFormat.SplitAfterSpace | format/discord.go:44 | `strings.SplitAfter` gives at least one piece, and two or more exactly when there is a space |
| DiscordFormat.SplitAfterSpaceShape | format/discord.go:44 | every piece but the last ends with its only space, and the last has none |
| DiscordFormat.SplitAfterSpaceConcat | format/discord.go:44 | the pieces concatenate back to the string |
| DiscordFormat.EscapeOutsideAppend | format/discord.go:44-51 | text outside code is escaped word by word |
| DiscordFormat.UrlWordVerbatim | format/discord.go:46-47 | a word starting with `http://` or `https://` is copied verbatim |
| DiscordFormat.SegmentEnd | format/discord.go:34-39 | a region ends right after the first backtick run, or at the end |
| DiscordFormat.CodeSpanVerbatim | format/discord.go:41-53 | the region after a backtick run is copied unescaped, and the one after that is escaped again |
| DiscordFormat.EscapeSegmentsIdentity | format/discord.go:33-55 | text without markdown bytes is copied verbatim |
| DiscordFormat.EscapeSegmentsAbsent | format/discord.go:33-55 | escaping the whole text adds backslashes only |
| DiscordFormat.EscapeText | format/discord.go:27-55 | the region loop gives the recursive `Escaped` |
| DiscordFormat.Trim | format/discord.go:19 | the trimmer cuts the text into leading whitespace, a core that starts and ends with non-whitespace or is empty, and trailing whitespace; it fails, so `matches[0]` panics, exactly when a newline sits inside the core |
| DiscordFormat.TrimSplit | format/discord.go:19 | a core without newlines followed by whitespace is cut just there |
| DiscordFormat.EmphasizeBrackets | format/discord.go:66-76 | emphasis wraps the core in the opening markers and closes with the same markers reversed |
| DiscordFormat.RenderSpanPlain | format/discord.go:66-83 | a span without format renders to exactly its escaped text |
| DiscordFormat.RenderSpanNoNewline | format/discord.go:59-64 | only a newline can make rendering a span panic |
| DiscordFormat.RenderSpanDecorated | format/discord.go:66-83 | a formatted non-empty core is bracketed by its markers, followed by U+FEFF when no trailing whitespace follows |
| DiscordFormat.RenderAllAppend | format/discord.go:25-84 | spans render independently, so rendering a concatenation concatenates the renderings |
| DiscordFormat.RenderAllNoNewline | format/discord.go:22-87 | a message without newlines always renders |
| DiscordFormat.RenderDiscord | format/discord.go:22-87 | the loop gives what `RenderAll` does, `Panicked` on the `matches[0]` panic |
| DiscordFormat.RenderBoldTrailingSpace | format/discord.go:78-80 | trailing whitespace after a bold span suppresses the U+FEFF |
| DiscordFormat.RenderItalicThenBold | format/discord.go:77-80 | neighbouring italic and bold spans are kept apart by U+FEFF |
| IrcBot.AntiPingFrom | bot/irc.go:62-67 | mangling only inserts bytes, keeps the first byte, and changes nothing when it inserts nothing |
| IrcBot.AddAntiPingMarksWordStarts | bot/irc.go:62-67 | U+FEFF is inserted after exactly the ASCII letters and digits that start a word |
| IrcBot.AntiPingRemovable | bot/irc.go:64-67 | removing every U+FEFF from a mangled nick that had none gives the nick back |
| IrcBot.AntiPingKeepsNonAlnum | bot/irc.go:62-67 | a nick without ASCII letters or digits is not changed |
| IrcBot.OutgoingLineLayout | bot/irc.go:69-72 | the line is `<`, the mangled nick, `> ` and the rendered message; the nick reads back from it, and the message does with the byte-copying parse, or with `ParseIRC` as written exactly when its texts are ASCII |
| IrcBot.LowerAscii | bot/irc.go:56 | `strings.ToLower` maps ASCII capitals to small letters, byte for byte |
| IrcBot.LowerAsciiIdempotent | bot/irc.go:56 | lower-casing leaves no capital, and twice is once |
| IrcBot.Privmsg | bot/irc.go:55-57 | a PRIVMSG reaches the bridge with the channel lower-cased and the nick and message unchanged |
| IrcBot.ActionWrapsText | bot/irc.go:58-60 | a CTCP ACTION is the PRIVMSG with the message between underscores |
| Retry.RetryErrors | bot/discord.go:20-36 | the operation is tried until it succeeds, at most five times; earlier attempts all failed, and the run is fatal exactly when all five fail |
| DiscordColor.SquaredDifference | bot/discord.go:219-228 | the result is the square of the difference, zero only for equal bytes, and it fits in 32 bits |
| DiscordColor.DistanceBounds | bot/discord.go:240-243 | the distance never reaches `0xFFFFFFFF`, and it is zero exactly for the same colour |
| DiscordColor.TargetPack | bot/discord.go:231-235 | the three bytes taken from a colour are its red, green and blue |
| DiscordColor.TargetLow24 | bot/discord.go:231-235 | only the low 24 bits of the colour count |
| DiscordColor.ChannelDistance | bot/discord.go:240-243 | the 32-bit sum over the three channels is the squared distance |
| DiscordColor.ColorToIrc | bot/discord.go:230-251 | the loop returns the code of the earliest nearest palette entry |
| DiscordColor.NearestIndexIsEarliestNearest | bot/discord.go:244-247 | that entry is no farther than any other, and strictly nearer than every entry before it |
| DiscordColor.EarliestNearestUnique | bot/discord.go:244-247 | only one entry has that property |
| DiscordColor.CodesInRange | bot/discord.go:200-217 | over the fourteen-entry table the code is between 2 and 15 |
| DiscordColor.DistinctEntriesOwnCode | bot/discord.go:246 | with distinct entries, each entry's own colour gets its own code |
| DiscordColor.DuplicateNeverChosen | bot/discord.go:244 | a later copy of an earlier entry is never chosen |
| DiscordColor.AsWrittenNeverSeven | bot/discord.go:205-208 | with `FF5555` written twice, no colour is ever converted to IRC 7 |
| DiscordColor.AsWrittenRedIsFour | bot/discord.go:205-208 | `FF5555` converts to 4 |
| DiscordColor.CorrectedOrangeIsSeven | bot/discord.go:208 | with the entry corrected to `AA5500`, orange is 7 and every entry maps to its own code |
| DiscordColor.ColorCode | bot/discord.go:150 | the code used for an embed is between 2 and 15 |
| DiscordClip.ClipLinesForIrc | bot/discord.go:320-344 | the loop gives `ClipLines`, and the force flag says whether some line is over 300 bytes |
| DiscordClip.ClipLine | bot/discord.go:324-341 | every line gives at least one piece |
| DiscordClip.ClipKeepsShortLines | bot/discord.go:325-326 | lines shorter than 300 bytes are kept as they are |
| DiscordClip.ClipLinesAppend | bot/discord.go:324-341 | lines are clipped one at a time |
| DiscordClip.JoinClipLine | bot/discord.go:328-339 | the pieces of a clipped line, joined with spaces, are the line |
| DiscordClip.GreedyWithinLimit | bot/discord.go:332-335 | a piece holding more than one word is at most 300 bytes |
| DiscordClip.ForcedIffLongWord | bot/discord.go:337 | clipping is forced exactly when some long line holds a word over 300 bytes |
| DiscordClip.KeptLeavesRoom | bot/discord.go:304-309 | the kept lines and the notice fit in `MaxLines`, and `lines[:n]` panics exactly when `MaxLines` is below 1 |
| DiscordClip.DispatchWhole | bot/discord.go:313-316 | a message that fits goes out line by line under the author |
| DiscordClip.DispatchPasted | bot/discord.go:301-312 | a message that is too long goes out as its first lines under the author and then one `[SYSTEM]` notice with the paste URL, at most `MaxLines` lines in all |
| DiscordClip.Route | bot/discord.go:301-317 | at most `MaxLines` lines go out, and the slice `lines[:n]` panics exactly when the message needs clipping and `MaxLines` is below 1 |
| DiscordClip.Dispatch | bot/discord.go:297-318 | the dispatch panics exactly when `MaxLines` is below 1, since every message has a line; otherwise at most `MaxLines` lines go out |
| DiscordEmbed.LinkAt | bot/discord.go:198 | a match of `\[([^][]+)\]\(([^()]+)\)` at the start has non-empty text and URL |
| DiscordEmbed.RewriteLinks | bot/discord.go:152 | link rewriting never makes the description longer, and empties only the empty description |
| DiscordEmbed.RewriteLinksNoBracket | bot/discord.go:152 | a description without `[` is unchanged |
| DiscordEmbed.RewriteOneLink | bot/discord.go:152 | `[text](url)` becomes `text <url>` |
| DiscordEmbed.Header | bot/discord.go:154-164 | the author line `name <url>` comes first exactly when the author has a name; the last line is the title with ` <url>` |
| DiscordEmbed.Body | bot/discord.go:166-182 | the description lines panic exactly when there is a description and `MaxLines` is below 1, and are otherwise at most `MaxLines` |
| DiscordEmbed.BodyEmpty | bot/discord.go:166 | an empty description adds no lines |
| DiscordEmbed.BodyWhole | bot/discord.go:166-181 | a description that fits adds its clipped lines, all of them, in order |
| DiscordEmbed.BodyPasted | bot/discord.go:167-178 | a description too long for IRC adds its first `min(MaxLines-1, len)` clipped lines and then `[full message: url]` with the URL of the pasted description, at most `MaxLines` lines in all |
| DiscordEmbed.EmbedLines | bot/discord.go:145-182 | the embed's lines panic exactly when there is a description and `MaxLines` is below 1; otherwise there is one line per header line and body line |
| DiscordEmbed.EmbedSkipped | bot/discord.go:145-149 | an embed produces no lines exactly when it has neither title nor description |
| DiscordEmbed.EmbedLineLayout | bot/discord.go:184-195 | line `i` is `\x03`, the colour code in two digits, the glyph for its position, `\x03 `, then the `i`-th of the header lines followed by the body lines |
| DiscordEmbed.DecorateLaidOut | bot/discord.go:194 | `\x03%02d%s\x03 %s` with a colour from 2 to 15 puts the two digits at bytes 1-2, the glyph at 3-5 and the text from byte 8 on |
| DiscordEmbed.DecoratedColors | bot/discord.go:194 | IRC reads the first code as exactly that foreground and the second as a colour reset |
| Rewrites.ApplyAllAppend | bot/discord.go:253-295 | running two lists of replacements in turn is running their concatenation |
| Rewrites.ApplyAllMissingLead | bot/discord.go:253-295 | replacements whose search strings all start with a byte the message lacks change nothing |
| Rewrites.ReplaceAllKeepsOut | bot/discord.go:263 | a replacement cannot bring in a byte that neither the text nor the replacement holds |
| DiscordMentions.DisplayNameForMember | bot/discord.go:471-477 | the username when nicknames are off; the nick when they are on and it is set, the username otherwise; empty exactly when that choice is empty |
| DiscordMentions.DisplayNameForUser | bot/discord.go:479-489 | the display name of the first member with the user's ID, or the username when nicknames are off or there is no such member |
| DiscordMentions.ReplaceChannels | bot/discord.go:256-264 | the loop applies each text channel's rule `<#id>` to `#name` in turn |
| DiscordMentions.ReplaceMembers | bot/discord.go:266-279 | the loop applies each member's rules `<@id>` and `<@!id>` to `@display` in turn, skipping empty display names |
| DiscordMentions.ReplaceRoles | bot/discord.go:281-286 | the loop applies each role's rule `<@&id>` to `@name` in turn |
| DiscordMentions.ReplaceEmojis | bot/discord.go:288-293 | the loop applies each emoji's rule `<:name:id>` to `:name:` in turn |
| DiscordMentions.ConvertMentionsForIrc | bot/discord.go:253-295 | the four loops apply the channel, member, role and emoji rules in that order |
| DiscordMentions.NoMarkupUnchanged | bot/discord.go:253-295 | a message without `<` is not changed |
| DiscordMentions.MemberMentionBecomesDisplay | bot/discord.go:267-278 | `<@id>` and `<@!id>` become `@display`; a member with an empty display name is skipped |
| DiscordMentions.OnlyTextChannels | bot/discord.go:257-260 | only text channels contribute rules |
| DiscordOutgoing.LessIsStrictTotalOrder | bot/discord.go:392-401 | `Less` is a strict total order on pairs: longer finds first, then byte order |
| DiscordOutgoing.SortPairs | bot/discord.go:381 | sorting gives a permutation ordered by `Less` |
| DiscordOutgoing.SortedLongestFirst | bot/discord.go:379 | after sorting, longer search strings come first |
| DiscordOutgoing.Boundary | bot/discord.go:384 | the boundary group matches the end of the text or one punctuation or space character |
| DiscordOutgoing.ReplacedAtBoundary | bot/discord.go:383-385 | a name followed by a boundary is replaced, and the boundary is kept |
| DiscordOutgoing.NotReplacedInsideLongerName | bot/discord.go:383-385 | a name followed by a letter is not replaced |
| DiscordOutgoing.ShortNameInsideLonger | bot/discord.go:383-385 | `@al` inside `@alice` is left alone |
| DiscordOutgoing.ShortNameBeforeComma | bot/discord.go:383-385 | `@al, hi` has `@al` replaced and keeps `, hi` |
| DiscordOutgoing.StringReplaceGroup.constructor | bot/discord.go:428 | a new group is empty |
| DiscordOutgoing.StringReplaceGroup.Add | bot/discord.go:374-376 | `Add` appends exactly one pair |
| DiscordOutgoing.StringReplaceGroup.Replace | bot/discord.go:380-388 | the group is left sorted, and its pairs are applied in that order with the boundary check |
| DiscordOutgoing.Attribute | bot/discord.go:457-461 | anonymous messages go out as they are; others are led by `**<nick>** ` |
| DiscordOutgoing.OutChannels | bot/discord.go:417-425 | the loop applies each text channel's rule, escaped `#name` to `<#\xffid>`, in turn |
| DiscordOutgoing.OutRoles | bot/discord.go:441-446 | the loop applies each role's rule, escaped `@name` to `<@&id>`, in turn |
| DiscordOutgoing.OutEmojis | bot/discord.go:450-455 | the loop applies each emoji's rule `:name:` to `<:name:id>` in turn |
| DiscordOutgoing.OutMembers | bot/discord.go:428-438 | the group holds one pair per member with a non-empty display name |
| DiscordOutgoing.Outgoing | bot/discord.go:403-469 | the message sent is the rendered message with channel, member, role and emoji rules applied, `\xff` removed and the attribution added |
| DiscordOutgoing.NoMarkerSent | bot/discord.go:448 | no `\xff` marker survives into the message sent when emoji names and IDs hold none |
| DiscordOutgoing.MarkerBlocksRematch | bot/discord.go:423 | no search string starting with `#` or `@` occurs inside a marked mention `<#\xffid>` / `<@\xffid>` |
| Bridge.ReplaceInPairs | bot/bridge.go:60-71 | every match is replaced, and one more replacement is appended when the count of matches is odd |
| Bridge.PairsClosed | bot/bridge.go:67-69 | the result is the replacement of a message, once closed, with an even number of markers |
| Bridge.ReplaceAllRemoves | bot/bridge.go:75-77 | a replaced format byte no longer occurs |
| Bridge.StripSpecialAsWritten | bot/bridge.go:58 | the pattern as written leaves no `\x0f` and no `\x03` |
| Bridge.AsWrittenLeavesBackground | bot/bridge.go:58 | as written, `\x03fg,bg` loses the codes but leaves `,bg` in the text |
| Bridge.StripSpecial | bot/bridge.go:58 | the corrected pattern leaves no `\x0f` and no `\x03` |
| Bridge.StripRemovesBackground | bot/bridge.go:58 | the corrected pattern removes the whole `\x03fg,bg` code |
| Bridge.StripPlain | bot/bridge.go:74 | a message without `\x0f` or `\x03` is not changed, as written or corrected |
| Bridge.BackgroundExample | bot/bridge.go:58 | `\x034,5hi` becomes `,5hi` as written and `hi` corrected |
| Bridge.FmtIrcToDiscord | bot/bridge.go:73-79 | the conversion is the strip followed by the three pair replacements |
| Bridge.IrcToDiscordRemovesCodes | bot/bridge.go:73-79 | no IRC control code is left in the converted text |
| Bridge.InverseExact | bot/bridge.go:23-25 | with an injective mapping, the inverse undoes every entry |
| Bridge.Bridge.constructor | bot/bridge.go:15-18 | a new bridge has empty maps |
| Bridge.Bridge.Init | bot/bridge.go:20-28 | the mapping is the configuration, and the inverse maps each Discord channel to an IRC channel that maps to it |
| Bridge.Bridge.IncomingIrc | bot/bridge.go:30-43 | a message from an unmapped IRC channel is dropped; otherwise it goes to the mapped Discord channel under the same nick, its text converted by `IrcToDiscordText` |
| Bridge.Bridge.IncomingDiscord | bot/bridge.go:45-56 | a message from a Discord channel absent from the inverse map is dropped; otherwise it goes unchanged to the inverse channel |
| Bridge.RoutesBack | bot/bridge.go:20-56 | Discord relays exactly from channels some IRC channel maps to; with an injective mapping, IRC to Discord and back returns the first IRC channel |

## Left out

- I/O and connections are not modelled: the IRC and Discord sessions, `dInit` and `iInit`, joining channels, and sending messages, which includes the `dMsgQueue` worker and `ChannelMessageSend`.
- Logging, `time.Sleep` in `retryErrors`, and the process exit of `log.Fatalf` are not modelled; the exit is the `fatal` result.
- `pasteData` is the parameter `paste`, because it hashes the message, writes a file and names its URL.
- The guild and channel lookups of `dMessageCreate` and `dOutgoing` are not modelled. The Discord API is not modelled: the guild is a parameter of the mention conversions.
- `dMessageCreate` is not modelled as a whole. Its branches call the parts that are modelled: mention conversion, dispatch, attachments through `incomingDiscord`, and embeds.
- The bridge wiring between `incomingIRC`/`incomingDiscord` and `dOutgoing`/`iOutgoing` is not modelled, because those calls pass a string where a `FormattedString` is expected and an argument is missing. The model takes the message as parsed and links nothing across.
- Go map iteration order is not modelled. `Bridge.Bridge.Init` picks any key in turn, so when two IRC channels map to one Discord channel the inverse names one of them, unspecified.
- DiscordOutgoing.SortPairs: an insertion sort stands for `sort.Sort`. The order of equal search strings, which `sort.Sort` leaves unspecified, is therefore whatever insertion sort gives.
- DiscordOutgoing.Boundary: the Unicode classes `\pP` and `\pZ` are the parameter `cls`, because the Unicode tables are not modelled. `DiscordOutgoing.AsciiBoundary` is the ASCII part.
- DiscordOutgoing.ReplaceBounded: the scan goes byte by byte rather than rune by rune. This is the same for search strings that start with an ASCII `@` or `#`.
- Rewrites.Find: search strings are never empty. `strings.Replace` with an empty search string, which inserts the replacement between runes, is not modelled; every search string the relay builds is non-empty: the mention rules start with `<`, `#`, `@` or `:`, `fmtReplaceInPairs` searches for `\x02`, `\x1f` and `\x1d`, and `dOutgoing` removes `\xff`.
- IrcBot.LowerAscii: `strings.ToLower` is modelled on ASCII only; Unicode case mapping is not modelled.
- IrcFormat.Parse: the rest of the model reads IRC text with the byte-copying parse, which the format tests expect (see Findings). `IrcFormat.ParseIRC` is the parser as written.
- IrcBot.OutgoingLine, and so IrcBot.OutgoingLineLayout, use the corrected renderer (see Findings). The as-written renderer, including its panic on an empty span text, is `IrcFormat.Render`.
- DiscordEmbed.EmbedLines, DiscordEmbed.EmbedLineLayout and DiscordColor.ColorCode use the corrected colour table (see Findings). The table as written is `DiscordColor.IrcColors`.
- Bridge.IrcToDiscordText, and so Bridge.FmtIrcToDiscord, Bridge.IrcToDiscordRemovesCodes and Bridge.Bridge.IncomingIrc, use the corrected strip pattern (see Findings). The pattern as written is `Bridge.StripSpecialAsWritten`.
- The `Config` JSON layout and `disgoirc.go`'s flag handling are not modelled: `MaxLines`, `UseNicknames` and the channel mapping are parameters.

## Findings

| source | as written | input that shows it | evidently intended | confidence | as-written member | corrected member |
|---|---|---|---|---|---|---|
| format/irc.go:126-139 | when the foreground goes back to Default while a new background is set, only `\x03,bg` (or `\x03` plus nothing) is written, which leaves the old foreground in place | `[foo blue on default, bar default on black]` renders `\x0302foo\x03,01bar`, which parses with `bar` blue | clear the colours with a bare `\x03`, then set the background again | high, by proof; not executed | IrcFindings.ForegroundDropMisparsed | IrcFindings.ForegroundDropCorrected |
| format/irc.go:123-134 | the `\x02\x02` guard is written only after a bare `\x03`, not after a code that a following `,` or digit could extend | the span `,1b` bright red renders `\x0304,1b`, which parses as `b` on black | guard after every colour code when the text's first byte would extend it | high, by proof; not executed | IrcFindings.CommaAfterForegroundMisparsed | IrcCorrected.RoundTrip |
| bot/discord.go:208 | the sixth palette entry repeats `FF5555`, the third, so the earlier copy always wins | no embed colour becomes IRC 7; `0xAA5500` (orange) does not | IRC colour 7, orange `AA5500` | medium; not executed | DiscordColor.AsWrittenNeverSeven | DiscordColor.CorrectedOrangeIsSeven |
| format/irc.go:36 | each text byte is appended as `string(c)`, which converts the byte as a code point and UTF-8-encodes it, so a byte of 0x80 or more becomes two bytes | `ΨΩΔ` (`CE A8 CE A9 CE 94`) parses to the span `C3 8E C2 A8 C3 8E C2 A9 C3 8E C2 94`, against format/irc_test.go:53-55 and the round trip of format/irc_test.go:113-124 | copy the byte, as `string(data[i:i+1])` would | high, by proof; not executed | IrcVectors.ParseMultiByteTextAsWritten | IrcCorrected.RoundTrip |
| bot/bridge.go:58 | the pattern `\x0f` or `\x03[0-9]{0,2}` strips the foreground of a colour code but not `,bg` | `\x034,5hi` becomes `,5hi` | remove the whole colour code, as `ParseIRC` reads it | low; not executed | Bridge.AsWrittenLeavesBackground | Bridge.StripRemovesBackground |
