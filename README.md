# clack `team.js`: the message formatter and the team client's state

clack is a terminal Slack client. `team.js` holds its `Team` object. That
object keeps the directories of the connected workspace and a cache of
channel histories. It also turns each message the service delivers into the
styled markup the terminal widgets display.

This project models that core in Dafny and proves what it promises. Each
module follows one part of `team.js`:

- `JsString` (`js_string.dfy`) has the JavaScript string primitives the code
  is written with, on sequences of characters:
  - `indexOf`, with and without a start index;
  - `substring`, which clamps both bounds and swaps them when they come in
    the wrong order;
  - a global literal `replace`;
  - `||` between strings, where the empty string is falsy.
- `Emoji` (`emoji.dfy`) models `replaceEmojis` in three parts:
  - `parseInt(hex, 16)`, against a reference hexadecimal encoder;
  - the three entity-decoding passes;
  - the colon scan. It is a specification function `Expand`, and
    `ReplaceEmojis` is the `while (true)` loop of the source, proved equal to
    it.
- `Directory` (`directory.dfy`) has the user and channel records and the four
  lookups `findUser`, `findUserName`, `findChannel` and `findChannelName`.
- `Formatter` (`formatter.dfy`) states `_parseMessage` as specification
  functions:
  - `SplitToken` splits a token at its `|`;
  - `RenderToken` gives the markup of one `<...>` token;
  - `FormatBody` is the token scan over the body;
  - `FormatMessage` is the whole message.
- `TeamClient` (`team.dfy`) has the `Team` class, with `users`, `channels`
  and the `history` map as fields.
  - `ParseMessage` is the source's scan loop, proved equal to
    `FormatMessage`. It takes the inner `if` chain from `TokenMarkup`, a
    method proved equal to `RenderToken`.
  - `ChannelsHistory` is the cache logic of `channelsHistory`. The batch a
    request would return is passed in as a parameter.

Some parts of the source call code that is not part of this model, so those
parts are parameters:

- `esc` stands for `blessed.escape`;
- `clock` stands for `moment(+ts * 1000).format('HH:mm')`;
- `table` is the `./emojis` table, a map from shortcode to a hexadecimal
  code point.

`ValidTable(table)` requires every non-empty entry to be readable by the
model's `parseInt`: an optional `0x`, then hexadecimal digits, with anything
after the digits ignored. The value must also be a Unicode scalar value,
which is the only kind of code point a Dafny `char` can hold.

Some entries outside `ValidTable` do not throw in JavaScript:

- an entry naming a surrogate (D800 to DFFF) gives a lone UTF-16 unit;
- an entry with leading spaces or a `+` sign is still read by `parseInt`.
  A `-` sign gives a negative value, which does throw.

`String.fromCodePoint` throws on `NaN`, on a negative value and on a value
above 10FFFF, and
only when that entry's shortcode is actually looked up.

## Model

| member | source | states |
|---|---|---|
| JsString.IndexOfIsFirst | team.js:127-128 | `indexOf` gives -1 exactly when the character is absent; otherwise no earlier index holds it |
| JsString.IndexOfFromIsFirst | team.js:177 | `indexOf(c, from)` gives -1 exactly when no index at or after `from` holds `c`; otherwise it gives the first such index |
| JsString.Substring | team.js:131 | `substring(a, b)` is the slice between the bounds, in either order, and is never longer than the string |
| JsString.ReplaceAllAbsent | team.js:168-170 | a global replace leaves a string in which the pattern does not occur unchanged |
| Emoji.HexDigit | team.js:183 | `0`-`9` are worth 0-9, and `a`-`f` and `A`-`F` alike are worth 10-15; the value is -1 exactly for any other character |
| Emoji.ParseHexToHex | team.js:183 | `parseInt(·, 16)` reads back every number written in hexadecimal |
| Emoji.ParseHexPrefixed | team.js:183 | the same number is read back after a `0x` prefix |
| Emoji.HexValueUpperHex | team.js:183 | writing the digits in upper case does not change the value `parseInt` reads |
| Emoji.ParseHexUpperToHex | team.js:183 | `parseInt(·, 16)` reads back every number written in upper-case hexadecimal as well |
| Emoji.HexRunStops | team.js:183 | `parseInt` reads digits only up to the first character that is not a hexadecimal digit |
| Emoji.ParseHexSmile | team.js:183 | `1f604` and `1F604` both parse to U+1F604 |
| Emoji.CodePoint | team.js:183 | the character produced has exactly the value `parseInt` reads from the entry |
| Emoji.CodePoints | team.js:180-183 | a shortcode has a code point exactly when its table entry is truthy, and that code point is the entry's |
| Emoji.DecodeNoAmpersand | team.js:168-170 | text without `&` passes through the decoding unchanged |
| Emoji.DecodeOrder | team.js:168-170 | the passes run `&lt;`, `&gt;`, `&amp;` in that order, so `&amp;lt;` decodes to `&lt;` and not to `<` |
| JsString.ReplaceAllUnmatched | team.js:168-170 | a prefix where no occurrence of the pattern starts is copied, and the replace goes on after it |
| JsString.ReplaceAllSkip | team.js:168-170 | a prefix holding no first character of the pattern is copied, and the replace goes on after it |
| JsString.ReplaceAllStep | team.js:168-170 | a first character where no occurrence starts is copied, and the replace goes on after it |
| JsString.ReplaceAllSplit | team.js:168-170 | the replace is global: the first occurrence, wherever it starts, becomes the replacement, and the rest of the string is replaced in the same way |
| JsString.ReplaceAllKeepsPrefix | team.js:168-170 | a prefix holding no first character of the replacement survives the replace only if the input had it, so one pass cannot create another pass's pattern |
| Emoji.DecodeSkip | team.js:168-170 | text before the first `&` is copied, and decoding goes on after it |
| Emoji.DecodeLtAt | team.js:168 | a `&lt;` with no `&` before it becomes `<`, and every later entity is decoded as well |
| Emoji.DecodeGtAt | team.js:169 | a `&gt;` with no `&` before it becomes `>`, and every later entity is decoded as well |
| Emoji.DecodeAmpAt | team.js:170 | a `&amp;` with no `&` before it becomes `&`, and every later entity is decoded as well |
| Emoji.DecodeLtFront | team.js:168-170 | text that starts with `&lt;` decodes to `<` followed by the decoding of the rest |
| Emoji.DecodeGtFront | team.js:168-170 | text that starts with `&gt;` decodes to `>` followed by the decoding of the rest |
| Emoji.DecodeAmpFront | team.js:168-170 | text that starts with `&amp;` decodes to `&` followed by the decoding of the rest, which is not decoded again |
| Emoji.DecodeNoEntityHere | team.js:168-170 | a character that starts no entity, a stray `&` included, is copied and decoding goes on after it; with the three lemmas above this covers every input, so `&&lt;` decodes to `&<` |
| Emoji.DecodeEachEntity | team.js:168-170 | each of the three entities decodes to its character |
| Emoji.ReplaceEmojis | team.js:167-192 | the loop returns the decoded text with every colon pair rewritten as the scan specifies |
| Emoji.ExpandNoColon | team.js:175-176 | decoded text with no colon comes back unchanged |
| Emoji.ExpandLoneColon | team.js:177-178 | a single colon, including a trailing one, is copied as it is |
| Emoji.ExpandKnown | team.js:181-184 | a pair around a known shortcode becomes exactly one code point, and both colons are dropped |
| Emoji.ExpandUnknown | team.js:185-187 | a pair around unknown text is copied with both colons, and the scan resumes after the second colon |
| Emoji.ExpandNoLonger | team.js:174-190 | the scan never makes the text longer |
| Emoji.ExpandNothingKnown | team.js:174-190 | with no known shortcode the scan is the identity |
| Emoji.ResumeAfterSecondColon | team.js:185-187 | in `a:b:smile:` the pair `:b:` is consumed, so `:smile:` is not replaced even when known |
| Emoji.SmileExample | team.js:167-192 | `hi :smile: there` becomes `hi 😄 there` when `smile` maps to `1f604` |
| Emoji.UnknownExample | team.js:167-192 | `hi :unknown: there` is unchanged when `unknown` has no truthy entry |
| Directory.FindUser | team.js:53-55 | the result is the first user with the id, or none exactly when no user has it |
| Directory.FindUserName | team.js:57-60 | the found user's name if non-empty, else `def` if non-empty, else the id |
| Directory.FindChannel | team.js:62-64 | the result is the first channel with the id, or none exactly when no channel has it |
| Directory.FindChannelName | team.js:66-69 | the found channel's name if non-empty, else `def` if non-empty, else the id |
| Directory.UserFoundOrNot | team.js:53-55 | every id is either held first by some user or held by none |
| Directory.ChannelFoundOrNot | team.js:62-64 | every id is either held first by some channel or held by none |
| Directory.UserNameNonEmpty | team.js:57-60 | the lookup never yields an empty name for a non-empty id |
| Directory.UnknownUserIsId | team.js:57-60 | an unknown id without a default falls back to the id itself |
| Directory.LaterUserShadowed | team.js:53-55 | a later record with an id already present changes nothing |
| Formatter.SplitToken | team.js:132-137 | an alias exists exactly when the token has a pipe that is not its first character; the target, a pipe and the alias then rebuild the token, and the target holds no pipe |
| Formatter.LeadingPipeStays | team.js:133-134 | a token starting with a pipe is not split and renders as a plain link |
| Formatter.SplitAtFirstPipe | team.js:133-137 | a token splits at its first pipe into target and alias |
| Formatter.RenderUserMention | team.js:139-142 | `@id` shows a non-empty alias, otherwise the looked-up user name, between the highlight markup and `{/}` |
| Formatter.RenderUnknownUser | team.js:139-142 | `@id` for an unknown id and no alias shows the raw id |
| Formatter.RenderChannelLink | team.js:143-146 | `#id` shows a non-empty alias, otherwise the looked-up channel name |
| Formatter.RenderUnknownChannel | team.js:143-146 | `#id` for an unknown id and no alias shows the raw id |
| Formatter.RenderCommand | team.js:147-153 | `!everyone`, `!channel` and `!group` show with `@`, any other command as itself, in bold, ignoring the alias |
| Formatter.RenderLink | team.js:154-157 | any other target shows `alias <target>` when the alias is non-empty, else the target, in bold |
| Formatter.RenderTokenFramed | team.js:139-157 | every token, however malformed, renders inside the highlight markup and ends with `{/}` |
| Formatter.BodyWithoutToken | team.js:127-129 | when the text lacks a `<` or lacks a `>`, the scan stops and emits the escaped, emoji-expanded rest |
| Formatter.BodyToken | team.js:127-138 | a well-formed token: the escaped text before it, the rendered token, then the scan of the text after the `>` |
| Formatter.BodySwappedBrackets | team.js:131-138 | a `>` before the first `<` makes the token the stretch from `>` through `<`, and the text between them is emitted again |
| Formatter.PlainBody | team.js:159 | text with no brackets, colons or `&` is only escaped |
| Formatter.FormatMessageNull | team.js:115-122 | the result is null exactly when the type is not `message` or no user has the author's id |
| Formatter.FormatMessageText | team.js:123-124 | otherwise it is the time, the first matching user's name in their colour, then the formatted body |
| TeamClient.Formatted | team.js:106-108 | formatting a message changes only its formatted text |
| TeamClient.Team.constructor | team.js:11-15 | a new team has its token and an empty history |
| TeamClient.Team.Connected | team.js:25 | connecting installs the directories and leaves the history cache alone |
| TeamClient.Team.ParseMessage | team.js:114-161 | the loop returns exactly `FormatMessage`, and a log is emitted exactly for a `message` whose author is unknown |
| TeamClient.Team.TokenMarkup | team.js:139-157 | the four-way `if` chain yields exactly the token's markup |
| TeamClient.Team.ChannelsHistory | team.js:93-112 | a cached id returns the cached batch and changes nothing; otherwise every message is formatted in order and the batch is stored under the id |
| TeamClient.FirstFetchWins | team.js:94 | a second request made after the first has completed returns the first batch, and the directories are left alone |

## Left out

- `connect()` and the websocket listeners (team.js:17-51) do network I/O. Only `this.state = state` is modelled, as `Team.Connected`. The rejected connection is not modelled.
- `chatPostMessage` (team.js:71-91) is an HTTP request followed by event emission. It formats with the same `_parseMessage`.
- The HTTP request of `channelsHistory` is not modelled. Its result is the `fetched` parameter. Promises are not modelled.
- `blessed.escape` belongs to a library outside the model, so it is the parameter `esc`.
- `moment(...).format('HH:mm')` is time-zone and float dependent, so it is the parameter `clock`, applied to the timestamp string.
- `EventEmitter` events are not modelled. The `log` event of `_parseMessage` is reported only as the boolean `logged`.
- The contents of `./emojis` are not part of this model. The table is a parameter.
- Emoji.Known: keys that a JavaScript object inherits from its prototype, such as `constructor`, are not modelled. Only the table's own keys count.
- TeamClient.FirstFetchWins: each model call of `ChannelsHistory` is atomic. In the source the cache test (team.js:94) and the store (team.js:109) sit on either side of an asynchronous request, and index.js calls `channelsHistory` on every channel selection. Two selections of a channel before its first request resolves both miss the cache, both fetch, and whichever response arrives last overwrites `history[id]`. Those overlapping requests are not modelled, so in the program the first fetch does not always win.
- Emoji.ParseHex: the leading whitespace and the sign that `parseInt` also accepts are not modelled. Table entries are plain hexadecimal.
- Emoji.ReplaceEmojis requires `ValidTable` of the whole table, although the source touches only the entries whose shortcodes occur in the text. Entries that name surrogates or carry leading spaces or a `+` sign are excluded as well, though they do not throw in JavaScript. An entry that does make `String.fromCodePoint` throw is not modelled as a failure.
- Strings are sequences of Unicode scalar values, not UTF-16 code units. `indexOf` and `substring` positions count code points, and lone surrogates cannot occur.
- TeamClient.Team.ParseMessage requires `text` to be a string. A message without `text` makes the source throw, and that failure is not modelled.
- TeamClient.Team.ChannelsHistory builds a new batch value. The source instead writes `formattedText` into the fetched message objects in place, so any alias of those objects would see the change. That sharing is not modelled.
- TeamClient.Team.ChannelsHistory returns the cached batch as an immutable value. In the source the cached `body` object itself goes to the caller (team.js:94, 109-110), and the only caller reverses `result.messages` in place (index.js:77). So the cache flips order on each selection of a channel, and every second selection shows the history newest-first. TeamClient.FirstFetchWins (`b2 == b1`) holds for the model's values only, not for the program, which mutates the cached object. index.js is not part of this model.
- TeamClient.Team.ChannelsHistory tests `id in history`. The source tests `this.history[id]` on a plain object (team.js:14, 94), which also finds inherited names such as `constructor` and returns the prototype's function instead of fetching. Those keys are not modelled.
- TeamClient.Batch holds only `messages`. The other fields of the response body are not modelled.
- Lookups before `connect()` throw in the source, because `this.state` is undefined. In the model, the directories start empty.
