# at_someone: mention markers in bot replies

The `at_someone` plugin lets a language model mention people by writing
`<@content>` in its reply, where `content` is a user id or a member's name.
The plugin runs in two stages.

- **`flatten_newlines`** runs on the raw completion text. It rewrites
  `(<@.*?>)\s+` to the marker followed by a single space, so the host's
  message splitter does not cut a mention away from the words after it.
- **`handle_at_conversion`** runs on the decorated result chain.
  - When no `Plain` component contains `<@`, it leaves the chain alone.
  - In a private chat it replaces every `<@c>` by `c`.
  - In a group chat it builds a name directory from the members. It then
    rebuilds every `Plain` component around its markers:
    - the text before a marker is copied verbatim;
    - a marker that resolves becomes an `At` component followed by a
      `Plain(" ")`;
    - a marker that does not resolve is kept as written;
    - the text after the last marker loses its leading whitespace.

The Dafny model is purely functional.

- The result chain is a `seq<Segment>` with
  `Segment = Plain(text) | At(id) | Other(tag)`.
- A group member is `Member(nickname, card, userId)`, where an empty name
  stands for a missing one.
- The chat kind and the fetched group are plain inputs of
  `Conversion.HandleAtConversion`.
- Each regex is specified directly as a scanning function, not through a
  regex engine:
  - `<@(.*?)>` is `Scanner.MatchAt`, `Scanner.Scan` and `Scanner.Substitute`;
  - `(<@.*?>)\s+` is `Normalizer.GluedMarker` and `Normalizer.Normalize`.

Modules, one per file:

| file | module | models |
|---|---|---|
| options.dfy | `Options` | the optional value used for lookups and parses |
| text.dfy | `Text` | `str.isspace`, `strip`, `lstrip`, `rstrip`, `"<@" in s` |
| numbers.dfy | `Numbers` | `str.isdigit`, `int()` on stripped text, `str()` |
| chain.dfy | `Chain` | components, members, filters and the per-component loop shape |
| directory.dfy | `Directory` | `members_map` and the content-to-id resolution |
| scanner.dfy | `Scanner` | `at_pattern`, `finditer` and `sub` |
| normalizer.dfy | `Normalizer` | `flatten_newlines` |
| conversion.dfy | `Conversion` | `handle_at_conversion` |
| scenarios.dfy | `Scenarios` | replies that open with one marker, followed end to end |

### Where the model follows the code rather than the comments

- **Private chat.** The code's comment says the private path keeps only the
  name. In fact `sub(r"\1", …)` keeps the marker's raw content, whatever it
  is (an id, a name, even padding), and `At` components pass through
  untouched. The model does the same.
- **Directory.** The comment says the card has priority over the nickname.
  In fact the code simply lets later writes win:
  - within one member the card is written after the nickname;
  - across members a later member overwrites an earlier one, whichever of
    its two names matches.

  `Directory.DirectoryLookup` states the actual rule.
  `Directory.CardOverNickname` states the case where "card wins" holds.
- **Private strip runs one pass.** A marker can therefore survive:
  `<@<@a>>` becomes `<@a>` (`Scenarios.StripNested`).

## Model

| member | source | states |
|---|---|---|
| Scanner.MatchAt | main.py:23 | One attempt of `<@(.*?)>` at a position returns the shortest span that opens with `<@`, closes with `>` and has no line break in between. When it finds none, no such span exists, so an unterminated marker or one cut by a newline never matches. |
| Scanner.CloseFrom | main.py:23 | The lazy group stops at the first `>` after the opening, and only if no newline comes before it. Otherwise no `>` qualifies. |
| Scanner.Scan | main.py:100 | `finditer` yields marker spans in order, without overlap, each one well delimited. |
| Scanner.ScanMatches | main.py:100 | Every span `finditer` yields is the regex's shortest match at its start. |
| Scanner.ScanLeftmost | main.py:100 | Matching is leftmost and non-overlapping: every position where the pattern could match is either reported or lies inside an earlier reported match. |
| Scanner.ScanWithoutOpen | main.py:100 | Text without `<@` has no match. |
| Scanner.SpanText | main.py:131 | The whole match (`group(0)`) is its content with the `<@` and `>` delimiters around it. |
| Scanner.Substitute | main.py:67 | A text with no match comes out of `sub` unchanged. `Scanner.SubstituteLiteral` adds that substituting each match by its own text gives back the original, and `Scanner.InterleaveLiteral` that the gaps are copied verbatim. |
| Scanner.SubstituteLiteral | main.py:67 | Substituting each match by its own text gives back the original string. |
| Scanner.InterleaveLiteral | main.py:100-133 | Up to the end of the last match, copying gaps and matches verbatim reproduces the text exactly. |
| Scanner.StripMarkers | main.py:67 | `sub(r"\1")` shortens the text by exactly three characters per match, and leaves it unchanged if and only if it has no match (`Scenarios.LeadingStrip` and `Scenarios.StripNested` pin down the replacement itself). |
| Normalizer.GluedCloseFrom | main.py:37 | The group of `(<@.*?>)` extends to the first `>` that is followed by whitespace, passing earlier `>` characters, and never across a newline. |
| Normalizer.SpaceRunEnd | main.py:37 | The greedy `\s+` takes the whole whitespace run and stops at the first non-space character. |
| Normalizer.GluedMarker | main.py:37 | An attempt at the start of the text succeeds exactly when some span there is in the pattern's language. It then picks the smallest closing `>` and a maximal whitespace run. |
| Normalizer.Normalize | main.py:35-37 | The flattened text is never longer than the input. Its behaviour around each match is stated by `Normalizer.NormalizeSkip`, `Normalizer.NormalizeGlueAt`, `Normalizer.NormalizeKeepsNonSpace` and `Normalizer.NormalizeWithoutGlue`. |
| Normalizer.NormalizeCollapsesRun | main.py:37 | When the text opens with a glued marker, the output opens with that marker, exactly one space, and then the first non-space character after the run, or ends there when the run reaches the end of the text. |
| Normalizer.NormalizeSkip | main.py:37 | Up to the first position where the pattern matches, the text is copied verbatim, whitespace and line breaks included, and flattening goes on from there. |
| Normalizer.NormalizeGlueAt | main.py:37 | At the first match, wherever it lies, the output keeps everything before it and the marker up to its first `>` that is followed by whitespace. The maximal whitespace run after that `>` becomes one space, and the rest of the text is flattened on its own. |
| Normalizer.NormalizeKeepsNonSpace | main.py:37 | Every character that is not whitespace survives flattening, in order. |
| Normalizer.NormalizeWithoutGlue | main.py:37 | Text in which the pattern never matches is unchanged. |
| Normalizer.NormalizeWithoutOpen | main.py:35-37 | Text without `<@` is unchanged. |
| Text.TrimLeft | main.py:140 | `lstrip` removes exactly the leading whitespace run, so the result is a suffix whose first character is not whitespace. |
| Text.TrimRight | main.py:107 | `rstrip` removes exactly the trailing whitespace run. |
| Text.Trim | main.py:107 | `strip` returns a slice with only whitespace around it and no whitespace at either of its ends. |
| Text.TrimIdempotent | main.py:107 | Stripping twice is stripping once. |
| Numbers.ShowNat | main.py:111-112 | The decimal spelling of `n` is all digits, reads back as `n`, and has no leading zero except for `0` itself. |
| Numbers.ParseInt | main.py:115-119 | `int()` on stripped content succeeds exactly on an optional sign followed by digits. It reads the digits as their value and negates them only after a leading `-`; anything else, such as `3 people` or `1a`, is rejected. `Numbers.ParseShowInt` is the round trip. |
| Numbers.ParseShowInt | main.py:117 | `int()` reads back every integer from its decimal spelling, negative ones included. |
| Directory.BuildDirectory | main.py:82-87 | A name is in `members_map` if and only if some member has it as a non-empty nickname or card. `Directory.DirectoryLookup` says which id it maps to. |
| Directory.DirectoryLookup | main.py:82-87 | A name maps to the id of the last member that holds it. |
| Directory.Resolve | main.py:107-119 | Stripped content that is all digits resolves to its value. Otherwise a directory name resolves to its id, and anything else to what `int()` makes of it. Content resolves to nothing exactly when it is not all digits, is not a directory name and is not an optional sign followed by digits. |
| Directory.CardOverNickname | main.py:84-87 | When a nickname and a card at the same or a later member coincide, and no later member holds that name, the card's owner is the one found. |
| Directory.ResolveDigitsFirst | main.py:107-112 | Stripped content made only of digits resolves to its value whatever the directory holds. |
| Directory.ResolveByName | main.py:107-114 | Content that strips to a member's name (and is not all digits) resolves to the last member holding that name. |
| Directory.ResolveSignedId | main.py:115-119 | A negative id that is not a directory name resolves through the `int()` fallback. |
| Directory.ResolveShownId | main.py:107-112 | An id's decimal spelling resolves to that id. |
| Directory.ResolveIgnoresPadding | main.py:107 | Whitespace around the content never changes the outcome. |
| Directory.ResolveInnerSpace | main.py:107-119 | Content that still holds whitespace once stripped, such as `3 people`, and is not a directory name stays unresolved. |
| Conversion.MarkerSegments | main.py:121-131 | What a match becomes never contains a component other than `Plain` or `At`, and every `At` is immediately followed by `Plain(" ")`. It never holds an empty `Plain`: a marker is at least three characters long. |
| Conversion.MarkerOutcome | main.py:121-131 | A resolved match becomes exactly `At(id)` then `Plain(" ")`. An unresolved match becomes one `Plain` with its full text, `<@` and `>` included. |
| Conversion.Head | main.py:103-131 | The text before a match and the match's image together hold only `Plain` and `At` and keep every mention followed by a space. The gap appears only when it is non-empty (`if start > last_end`), so no `Plain` is empty. |
| Conversion.Remainder | main.py:135-143 | The text after the last match contributes, read as text, exactly its left-stripped self. It never holds a mention, another component or an empty `Plain`. |
| Conversion.Emit | main.py:100-143 | The rebuilt segments of one text hold only `Plain` and `At`, every mention is followed by `Plain(" ")`, and no `Plain` is empty. |
| Conversion.EmitPlainText | main.py:103-143 | Reading the rebuilt segments gives the original text, with three kinds of change: each resolved marker becomes a space, each unresolved one stays as written, and only the leading whitespace of the remainder after the last match is lost. Gaps are kept verbatim. |
| Conversion.EmitMentions | main.py:100-133 | The rebuilt segments contain one mention per resolved marker, in match order, and no other mention. |
| Conversion.RebuildText | main.py:96-143 | One rebuilt text holds only `Plain` and `At`, with a space after every mention and no empty `Plain`. `Conversion.RebuildTextMeaning` gives its mentions and what it reads as, and `Conversion.RebuildTextRender` says where each mention sits. |
| Conversion.RebuildTextMeaning | main.py:100-143 | One rebuilt text holds one mention per resolved marker, in match order, and no other. Read as text, it is the original with each resolved marker turned into a space and each unresolved one kept as written; the gaps are kept verbatim and only the leading whitespace after the last match is lost. |
| Conversion.RebuildTextRender | main.py:100-143 | Written back as markup (a mention as `<@id>`), one rebuilt text is the original with each resolved marker respelled as its id's canonical marker followed by a space, each unresolved marker and each gap as written, and only the leading whitespace after the last match removed. Each mention therefore sits exactly where its marker was, with the space after it. |
| Conversion.RebuildTextUnresolved | main.py:103-143 | When no marker resolves, the text loses nothing but the leading whitespace after the last match. |
| Conversion.RebuildTextWithoutMarkers | main.py:135-143 | A `Plain` with no match, in a chain that has one elsewhere, is left-stripped, and dropped when nothing is left (`last_end = 0`). |
| Conversion.RebuildMentionById | main.py:107-127 | A marker holding an id's decimal spelling becomes `At(id)`, `Plain(" ")`, whatever the directory. |
| Conversion.GroupKeepsPosition | main.py:90-94 | In a group chat, a non-`Plain` component keeps its place between what the components around it become. |
| Conversion.GroupRebuild | main.py:90-143 | In a group chat, components other than `Plain` and `At` come out exactly as they went in, in order. The mentions are the existing ones, in place, plus one per resolved marker of each `Plain`. `Conversion.GroupKeepsPosition` places them. |
| Conversion.PrivateKeepsPosition | main.py:64-71 | In a private chat, a non-`Plain` component keeps its place. |
| Conversion.PrivateSegment | main.py:64-71 | In a private chat one component keeps its non-`Plain` part and its mentions, and never becomes an empty `Plain`. |
| Conversion.PrivateStrip | main.py:63-73 | A private chat keeps every non-`Plain` component in order, so it adds and removes no mention. Its `Plain` texts are the input's with every match replaced by its content, dropping those left empty. |
| Conversion.PrivateTexts | main.py:64-69 | The texts the per-component private rewrite yields are the input's with every match replaced by its content. Texts that end up empty are dropped, so no output `Plain` is empty. |
| Conversion.HandleWithoutTag | main.py:51-58 | When no `Plain` contains `<@`, the chain is returned unchanged in every kind of chat. |
| Conversion.HandleWithoutMembers | main.py:76-79 | In a group chat with no group or no members, the chain is returned unchanged. |
| Conversion.HandlePrivate | main.py:51-73 | Once some `Plain` contains `<@`, a private chat strips the chain, whatever the group. |
| Conversion.HandleGroup | main.py:51-94 | Once some `Plain` contains `<@`, a group chat with members rebuilds the chain against the members' directory. |
| Conversion.HandleAtConversion | main.py:43-146 | Components other than `Plain` and `At` come out of the handler unchanged and in order, whatever the chat, and a private chat never gains or loses a mention. `Conversion.HandleWithoutTag`, `Conversion.HandleWithoutMembers`, `Conversion.HandlePrivate` and `Conversion.HandleGroup` give the branches. |
| Conversion.HandleGroupText | main.py:76-146 | A one-text chain whose text contains `<@`, in a group with members, is the rebuild of its text against the members' directory. |
| Conversion.HandlePrivateText | main.py:63-73 | A one-text chain whose text contains `<@`, in a private chat, is its stripped text, or nothing when that is empty. |
| Scenarios.LeadingScan | main.py:23 | A reply `<@c>` followed by text without `<@`, where `c` holds no `>` and no line break, has exactly one match, and its content is `c`. |
| Scenarios.LeadingRebuild | main.py:100-143 | Rebuilt against any resolver, as a group chat with members does, such a reply becomes the marker's image, followed by the rest of the reply without its leading whitespace. |
| Scenarios.LeadingStrip | main.py:67 | In a private chat such a reply loses exactly the delimiters `<@` and `>`. |
| Scenarios.FirstGlue | main.py:37 | When a leading marker's first `>` is followed by whitespace, the flattener keeps the marker, writes one space for the whole run and continues after it. |
| Scenarios.FlattenLeading | main.py:37 | The whole whitespace run after a leading marker whose content holds no `>` and no line break, line breaks included, becomes one space. |
| Scenarios.GroupLeadingId | main.py:100-143 | In a group with members, a reply opening with `<@n>` for a numeric id `n`, with no `<@` after it, becomes `At(n)`, `Plain(" ")`, then the left-stripped rest. |
| Scenarios.GroupLeadingName | main.py:82-143 | A group reply opening with a member's nickname, with no `<@` after it, mentions that member, provided the name holds no `>` and no line break (the scanner stops at the first `>`), has no padding, is not all digits, and no later member holds it. |
| Scenarios.GroupLeadingResolved | main.py:100-143 | In a group with members, a reply opening with a marker (content free of `>` and line breaks, no `<@` after it) that the members' directory resolves becomes that mention, a space, and the left-stripped rest. |
| Scenarios.GroupLeadingUnresolved | main.py:128-143 | In a group with members, a reply opening with a marker (content free of `>` and line breaks, no `<@` after it) that does not resolve keeps the marker as written, followed by the left-stripped rest. |
| Scenarios.GroupWithoutMembers | main.py:76-79 | A group without members leaves even a digit-only marker alone. |
| Scenarios.PrivateLeading | main.py:63-73 | A private reply opening with a marker (content free of `>` and line breaks, no `<@` after it) keeps the content and the rest, and is dropped only when both are empty. |
| Scenarios.StripNested | main.py:67 | The private rewrite takes one pass: `<@<@a>>` becomes `<@a>`. |
| Scenarios.ResolveWord | main.py:107-119 | A name with no padding that is not all digits resolves to its directory id when it is there, and otherwise to whatever `int()` makes of it. |

## Left out

- Plugin registration, the decorators and the filter priorities
  (main.py:10-16, 28, 42). They are host metadata with no logic.
- The `event` and `result` objects and the awaited `event.get_group()`
  call. The chain, the chat kind and the fetched member list are inputs of
  `Conversion.HandleAtConversion`, and its result is the new chain. When
  `handle_at_conversion` returns early, the model returns the chain
  unchanged.
- `flatten_newlines` is modelled on the completion text itself. The test
  `if resp.completion_text` only skips an empty text, which
  `Normalizer.Normalize` maps to itself.
- `logger.warning` for an unresolved name (main.py:130). It is a diagnostic
  side effect only.
- Python's Unicode digits: superscript and full-width digits, and the `_`
  separators that `int()` accepts. Digits are ASCII, and the `int()`
  fallback takes an optional `+`/`-` sign followed by ASCII digits.
- Whitespace is the full set `str.isspace` accepts. This is the same set
  that `\s` and `strip()` use on `str`.
- Directory.Resolve: `int()` never raises in the model. CPython refuses
  digit strings longer than 4300 characters with `ValueError`: uncaught at
  main.py:112, it aborts the handler, and caught at main.py:117 it leaves
  the marker unresolved. Likewise `isdigit()` accepts digits such as "²"
  that `int()` rejects, which raises uncaught at main.py:112. The model
  reads every ASCII digit string as its value.
- Members' user ids are integers. The `ValueError` that `int(members_map[…])`
  could raise on a non-numeric id (main.py:114) is not modelled.
- `At(qq=…)` carries only the id, and other component kinds are opaque
  tags.
