# Discord message dispatch, modelled in Dafny

This project models the message handler of the n8n Discord trigger bot
(`nodes/DiscordBot/listeners/messageCreate.ts`). For every Discord message the
handler walks the process-wide registry of trigger nodes in registration order.
For each node it drops messages from bots and system accounts, applies the
node's role and channel filters, escapes the node's configured value,
builds a regular-expression source from the node's pattern kind, tests the
message content against it and, on a match, awaits the workflow trigger call
for that node's webhook.

Modules, one concern each:

- `Wrappers` (`wrappers.dfy`): `Option`.
- `Text` (`text.dfy`): ASCII case canonicalisation, equality up to case,
  prefix, suffix and substring relations.
- `Escaping` (`escaping.dfy`): the two-pass escaper (metacharacters, then
  hyphens), a decoder for its output, and the round trip between them.
- `Patterns` (`patterns.dfy`): pattern kinds, the regular-expression source
  built for each kind, what such a source denotes, and the test of content
  against it. An escaped literal, with or without `^`/`$` anchors, and the
  universal `(.*)` are interpreted by the model. Every other source can only
  come from the raw `regex` kind, and it goes to an `Engine` function
  parameter, which may report a compile error (`Threw`).
- `Dispatch` (`dispatch.dfy`): messages, registry entries, the per-entry
  outcome `Examine`, the pass as written (`Pass`), the method
  `OnMessageCreate` that runs it as a loop, and the lemmas about both.
- `Scenarios` (`scenarios.dfy`): concrete messages run through the model.

The registry is an ordered sequence of `(nodeId, entry)` pairs. That is the
order `Object.entries` yields for the non-numeric node ids. A delivery is the
triple `(webhookId, message, parameters.baseUrl)` passed to the trigger call.
The trace is the sequence of those calls, in the order they are awaited.

How the code behaves, as modelled (where it differs from the hub's intended design):

- A failed role check, channel check or missing bot mention on one entry
  returns from the whole handler, so later entries are not examined.
  See "## Findings".
- The `active` flag of an entry is never read, so inactive entries are examined like active ones.
- The channel filter is a substring test on the channel id, not membership.
- `every` matches any content, including the empty string.
- `start` on empty content keeps both anchors. The model proves this is
  still a prefix test.
- Deliveries are awaited one after another and their failures are swallowed.
  They are not independent concurrent calls.
- The delivery's base URL is `parameters.baseUrl`. It is not the top-level
  `baseUrl` of the registry entry.

## Model

| member | source | states |
|---|---|---|
| `Text.ExactComparison` | nodes/DiscordBot/listeners/messageCreate.ts:70 | without the `i` flag, the comparison of content and value is plain string equality |
| `Text.FoldedChar` | nodes/DiscordBot/listeners/messageCreate.ts:70 | with the `i` flag two characters compare equal iff they are equal or an ASCII lower-case letter and its upper-case partner, in either order |
| `Text.FoldedComparison` | nodes/DiscordBot/listeners/messageCreate.ts:70 | with the `i` flag two strings compare equal iff they have the same length and agree position by position up to ASCII letter case (both directions) |
| `Text.IncludesAt` | nodes/DiscordBot/listeners/messageCreate.ts:39 | the recursive `Includes` holds iff the needle occurs at some position of the haystack |
| `Text.SubstringIncludes` | nodes/DiscordBot/listeners/messageCreate.ts:39 | case-exact `Includes`, the model of `String.includes`, is the ordinary substring relation |
| `Escaping.Escape` | nodes/DiscordBot/listeners/messageCreate.ts:46-48 | the escaper: the metacharacter pass of line 47 followed by the hyphen pass of line 48; what it computes is pinned by the `Escaping` lemmas below (per-character table, round trip with `Unescape`, no bare hyphen) |
| `Escaping.EscapeMetaAppend` | nodes/DiscordBot/listeners/messageCreate.ts:47 | the metacharacter pass distributes over concatenation |
| `Escaping.EscapeHyphenAppend` | nodes/DiscordBot/listeners/messageCreate.ts:48 | the hyphen pass distributes over concatenation |
| `Escaping.EscapeAppend` | nodes/DiscordBot/listeners/messageCreate.ts:46-48 | escape(a + b) == escape(a) + escape(b) |
| `Escaping.EscapeSingle` | nodes/DiscordBot/listeners/messageCreate.ts:46-48 | the two passes turn each metacharacter c into `\c`, a hyphen into `\x2d` with a single backslash, and leave other characters unchanged |
| `Escaping.EscapeByChar` | nodes/DiscordBot/listeners/messageCreate.ts:46-48 | escaping is the per-character table applied to each character in turn |
| `Escaping.NoBareHyphen` | nodes/DiscordBot/listeners/messageCreate.ts:48 | no hyphen is left in an escaped value |
| `Escaping.UnescapeAfterEscape` | nodes/DiscordBot/listeners/messageCreate.ts:46-48 | decoding an escaped value followed by any text decodes the value and then the text; a bare metacharacter after it is still rejected |
| `Escaping.EscapeRoundTrip` | nodes/DiscordBot/listeners/messageCreate.ts:46-48 | decoding `\c` to c and `\x2d` to `-` recovers the original value, so the output has no unescaped metacharacter |
| `Escaping.UnescapeOnlyEscaped` | nodes/DiscordBot/listeners/messageCreate.ts:46-48 | whatever the decoder accepts is the escaping of what it decodes to (the converse of the round trip) |
| `Patterns.KindOf` | nodes/DiscordBot/listeners/messageCreate.ts:56-68 | the pattern parameter read as one of the kinds the if-chain tests; any other string is the default whole-value kind |
| `Patterns.RegStr` | nodes/DiscordBot/listeners/messageCreate.ts:53-68 | the regex source each kind builds, including `start` on empty content keeping `^e$` and `botMention` keeping the default; its meaning is `Patterns.RegStrDenotes` |
| `Patterns.RegexTest` | nodes/DiscordBot/listeners/messageCreate.ts:70-72 | compiling the source with or without the `i` flag and testing the content: escaped literals and `(.*)` are decided by `Search`, other sources by the engine, which may throw; related to plain string relations by `Patterns.LiteralKindsMatch` |
| `Patterns.NoLeadingAnchor` | nodes/DiscordBot/listeners/messageCreate.ts:47 | an escaped value never starts with a bare `^` |
| `Patterns.ParseEscaped` | nodes/DiscordBot/listeners/messageCreate.ts:60-64 | `^e` and `e` denote the value as a literal anchored at the start, or not anchored |
| `Patterns.ParseEscapedAnchored` | nodes/DiscordBot/listeners/messageCreate.ts:53-62 | `^e$` and `e$` denote the value as a literal anchored at the end, and at the start for `^e$` |
| `Patterns.RegStrDenotes` | nodes/DiscordBot/listeners/messageCreate.ts:53-68 | the default kind and `botMention` denote the value anchored at both ends. `start` denotes it anchored at the start only, or at both ends on empty content. `end` anchors it at the end and `contain` not at all. `regex` is the raw value. `every` is `(.*)`, which is no literal |
| `Patterns.SearchWhole` | nodes/DiscordBot/listeners/messageCreate.ts:53-72 | a literal anchored at both ends matches iff the content equals the value (up to case under `i`) |
| `Patterns.SearchPrefix` | nodes/DiscordBot/listeners/messageCreate.ts:60-72 | a literal anchored at the start matches iff the value is a prefix of the content |
| `Patterns.SearchSuffix` | nodes/DiscordBot/listeners/messageCreate.ts:62-72 | a literal anchored at the end matches iff the value is a suffix of the content |
| `Patterns.SearchAnywhere` | nodes/DiscordBot/listeners/messageCreate.ts:64-72 | an unanchored literal matches iff the value is a substring of the content |
| `Patterns.LiteralKindsMatch` | nodes/DiscordBot/listeners/messageCreate.ts:53-72 | for the escaped kinds the compiled test never throws and matches iff equality (default, botMention), prefix (`start`, empty content included), suffix (`end`) or substring (`contain`) holds, case-exact or folded |
| `Patterns.EveryMatchesAll` | nodes/DiscordBot/listeners/messageCreate.ts:67-72 | `every` matches any content, the empty string included, whatever the value |
| `Dispatch.IsAutomated` | nodes/DiscordBot/listeners/messageCreate.ts:24 | a message whose author is a bot or a system account |
| `Dispatch.HasRole` | nodes/DiscordBot/listeners/messageCreate.ts:29-32 | some configured role id is among the member's role ids; a message with no member has none |
| `Dispatch.InChannel` | nodes/DiscordBot/listeners/messageCreate.ts:38-40 | some configured channel id is a substring of the message's channel id |
| `Dispatch.BotMentioned` | nodes/DiscordBot/listeners/messageCreate.ts:50-51 | the bot's own user id is among the ids of the mentioned users; no id when the client has no user |
| `Dispatch.Examine` | nodes/DiscordBot/listeners/messageCreate.ts:22-94 | the outcome of one iteration of the loop body for one entry: ignored author, role or channel miss, missing mention, caught compile error, no match, or one delivery; characterised per kind by `Dispatch.RoleFilter`, `ChannelFilter`, `BotMentionKind`, `LiteralKinds`, `EveryKind` and `RegexKind` |
| `Dispatch.Pass` | nodes/DiscordBot/listeners/messageCreate.ts:19-95 | the deliveries of one pass as written, in registry order, stopping at the first entry that `return`s; characterised by `Dispatch.PassStopsAtFirstFilterMiss` and computed by `Dispatch.OnMessageCreate` |
| `Dispatch.FirstStop` | nodes/DiscordBot/listeners/messageCreate.ts:24-57 | the index of the first entry at which the handler returns: no earlier entry returns, and that entry does |
| `Dispatch.OnMessageCreate` | nodes/DiscordBot/listeners/messageCreate.ts:11-95 | the handler's loop, with its early returns, caught exceptions and sequential awaited deliveries, yields exactly the trace `Pass` specifies |
| `Dispatch.AutomatedAuthorNoDelivery` | nodes/DiscordBot/listeners/messageCreate.ts:24 | a message from a bot or system account causes no trigger call |
| `Dispatch.PassStopsAtFirstFilterMiss` | nodes/DiscordBot/listeners/messageCreate.ts:19-94 | the trace holds, in registry order, one delivery per matching entry before the first early return and nothing from that entry on; caught exceptions and non-matches only skip their entry |
| `Dispatch.IntendedPassAppend` | nodes/DiscordBot/listeners/messageCreate.ts:19-95 | with every entry examined on its own, the deliveries of a registry are those of its parts, in order |
| `Dispatch.PassIsPrefixOfIntended` | nodes/DiscordBot/listeners/messageCreate.ts:19-95 | the trace as written is a prefix of the trace with every entry examined on its own, and equals it when no entry returns early |
| `Dispatch.PassAppend` | nodes/DiscordBot/listeners/messageCreate.ts:19-95 | over two joined registries the second is examined only if the first never returns early |
| `Dispatch.SkippedEntryIsInvisible` | nodes/DiscordBot/listeners/messageCreate.ts:70-94 | an entry whose pattern throws (caught) or does not match leaves the trace as if it were not registered |
| `Dispatch.RoleFilter` | nodes/DiscordBot/listeners/messageCreate.ts:29-35 | the handler returns at the role check iff roles are configured and the author has none of them; an author without member roles fails |
| `Dispatch.ChannelFilter` | nodes/DiscordBot/listeners/messageCreate.ts:37-43 | the handler returns at the channel check iff channels are configured and none of them is a substring of the channel id |
| `Dispatch.BotMentionKind` | nodes/DiscordBot/listeners/messageCreate.ts:50-72 | `botMention` delivers iff the bot's own id is among the mentioned users, whatever the value; otherwise the handler returns |
| `Dispatch.LiteralKinds` | nodes/DiscordBot/listeners/messageCreate.ts:53-80 | for default, `start`, `end` and `contain` the entry delivers iff the kind's string relation holds, and never throws |
| `Dispatch.EveryKind` | nodes/DiscordBot/listeners/messageCreate.ts:67-80 | `every` delivers every message that passes the author, role and channel checks |
| `Dispatch.RegexKind` | nodes/DiscordBot/listeners/messageCreate.ts:65-94 | `regex` compiles the raw value: a compile error is caught with no delivery, otherwise the test decides |
| `Dispatch.CaseSensitivity` | nodes/DiscordBot/listeners/messageCreate.ts:70 | content equal to the value only up to case fires an exact trigger iff it is not case sensitive |
| `Scenarios.PrefixTriggerInChannel` | nodes/DiscordBot/listeners/messageCreate.ts:38-80 | a case-insensitive `start` trigger on "!run" in channel "C1" fires once for "!RUN now" in "C1" |
| `Scenarios.PrefixTriggerOtherChannel` | nodes/DiscordBot/listeners/messageCreate.ts:38-40 | the same message in channel "C2" causes no delivery |
| `Scenarios.RoleFilterScenario` | nodes/DiscordBot/listeners/messageCreate.ts:29-32 | configured role "R1" turns away an author with roles {"R2"} and admits one with {"R1","R2"} |
| `Scenarios.EscapedDotScenario` | nodes/DiscordBot/listeners/messageCreate.ts:46-70 | a case-insensitive `contain` pattern on "a.b" matches "xa.by" and does not match "axb": the dot is escaped to a literal dot |
| `Scenarios.FilterMissHidesLaterEntries` | nodes/DiscordBot/listeners/messageCreate.ts:30-32 | a role miss on the first entry returns from the handler, so a later unrestricted `every` entry never delivers |

## Findings

| source | as written | input that shows it | evidently intended | confidence | as-written member | corrected member |
|---|---|---|---|---|---|---|
| nodes/DiscordBot/listeners/messageCreate.ts:30-57 | a failed role check, channel check or missing bot mention on one entry `return`s from the whole handler, so no later entry is examined | registry [A: `every`, roleIds ["R1"]; B: `every`, no filters], author roles ["R2"]: the handler makes no trigger call | skip only that entry, as the per-entry checks and their comments suggest; B delivers | medium, not executed | `Dispatch.Pass`, shown by `Scenarios.FilterMissHidesLaterEntries` | `Dispatch.IntendedPass`, with `Dispatch.IntendedPassAppend` (entries are independent) and `Dispatch.PassIsPrefixOfIntended` (the code's trace is a prefix of the intended one) |

`OnMessageCreate` implements the code as written (`Pass`). The corrected pass
is stated beside it rather than in place of it.

## Left out

- Registry maintenance: registration and removal of trigger nodes happen in
  `nodes/DiscordTrigger/DiscordTrigger.node.ts` over IPC. The pass reads the
  registry as a fixed sequence, and the IPC handler that fills it is not part
  of this model.
- Concurrency: another IPC event could change the registry while a delivery
  is awaited. One pass is modelled as a sequential loop over a fixed snapshot.
- The workflow trigger call: it is an outbound HTTP request in a helper that
  is not part of this model. Each call becomes one trace entry. Its failure
  is swallowed by the code and changes nothing, so it is not modelled.
- Regular-expression semantics of the raw `regex` kind: the `Engine`
  parameter stands for compiling and testing such a source, including a
  compile error.
- Case-insensitive matching: only ASCII letters are folded. The engine's
  Unicode case mapping is not modelled.
- Parameter coercion: the value is modelled as a string, so `String()` of a
  non-string value is not modelled. Every parameter the handler reads is
  assumed present. An absent `roleIds` or `channelIds` would throw a TypeError
  that the handler catches, and that case is not modelled.
- Logging, the commented-out IPC emit (lines 82-87) and the listener wiring
  (lines 99-101) are not modelled.
