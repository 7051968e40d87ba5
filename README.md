# Chat message text engine

A Dafny model of the text engine of a chat-transcript bot (`bot.py`). The engine
turns the body of a chat message, with light markdown, into word-wrapped SVG
`<tspan>` markup, one string per rendered line. It has three stages:

1. **Tokenizer and escaper** (`md_tokens`, `weave`, `split_around`,
   `split_into_words_and_tokens`). Seven split passes run in the fixed order
   `**`, `*`, `__`, `_`, `~~`, space, newline. Each pass splits every piece at
   its delimiter and weaves the delimiter back in as a token of its own. Each
   pass also applies the four-step `&`/`<` escape chain to every piece. A piece
   that is exactly a delimiter is never split again. Empty strings are dropped
   at the end.
2. **Mention resolver and style state machine** (`transform_token`, the
   `open_*`/`close_*` closures, `get_member`, `get_role_name`). `**` toggles
   bold, `*` and `_` toggle italic, `__` toggles underline and `~~` toggles
   strikethrough. A word matching `&lt;(.*?)([0-9]+)>` (with `re.match`) is a
   user, channel or role mention or a custom emoji. Any other word is
   appended, coloured `#0096cf` when it starts with `http`.
3. **Greedy line wrapper** (`append`, `line_break` and the main loop of
   `wrap_text_and_render_markdown_lines`). It keeps the plain text of the
   line (`cache_clean`, for the width), its markup (`cache_dirty`) and four
   style flags. It flushes on a newline token, or before a token that would
   pass the width when the line already holds more than one character. A
   flush removes the space after every `>`, closes the open styles, emits the
   fragment and reopens the same styles in the order bold, italic, underline,
   strikethrough.

Files:

- `pystr.dfy` (module `PyStr`): the Python `str` operations the engine calls
  (`startswith`, `replace`, `split`), each with Python's left-to-right,
  non-overlapping semantics. `count`, `join` and `''.join` are not called by
  the engine: they are the partners that the lemmas about `split` and the
  tokenizer are stated with.
- `tokenizer.dfy` (module `Tokenizer`): the tokenizer and escaper. `MdTokens`
  is `md_tokens`, `Weave` is `weave`, `SplitAround` is `split_around`,
  `Escape` is the four-step `replace` chain, `Pass`/`PassesFrom` are the
  seven passes and `SplitIntoWordsAndTokens` is
  `split_into_words_and_tokens`. The escape chain is proved equal to a
  one-scan reference definition (`EscapeOnce`), which is idempotent and
  commutes with splitting at a delimiter. So the seven passes escape the
  message exactly once.
- `references.dfy` (module `References`): the lookups (`get_member`,
  `client.get_channel`, `get_role_name`) over a `Directory` value, the lazy
  regular-expression match (`ParseRef`), the decoding of a matched mention
  (`ResolveRef`) and the rendering of any word that is not a delimiter
  (`WordPiece`, the last branches of `transform_token`).
- `wrapper.dfy` (module `Wrapper`): the line state as values and the closure
  state as a class `LineWrapper`. On values, `Line` is the closure state,
  `Toggled` is a style toggle, `Appended` is `append`, `Flushed` is
  `line_break`, `Transformed` is `transform_token`, `Stepped` is one turn of
  the main loop, `RunFrom` is the loop over a token list and `Render` is
  `wrap_text_and_render_markdown_lines` drained into a list. Its methods are proved against those
  functions. The top-level method `WrapTextAndRenderMarkdownLines` drives the
  class over the tokens in a loop and is proved equal to `Render`.

The lookups that go to the chat client become data: members of all guilds in
iteration order, fetchable users, channels and the role lists of all guilds.
A lookup that the source would turn into an `AttributeError` on `None` (an
unknown user or channel) is an `Err` result. That error aborts the whole
rendering.

Behaviours of the code a reader might not expect:

- A custom emoji whose name holds no `_`, `*`, space or `~~` renders as
  group 1 of the match (`:name:` for `<:name:id>`), not as the raw token.
  Whatever follows the `>` in the token is dropped (bot.py:187, 196-198).
- A custom emoji whose name holds `_` (such as `<:pepe_hands:123>`) is never
  resolved. The tokenizer splits the `_` off as an italic delimiter before
  the match runs (bot.py:31, 48-62). So `&lt;:pepe` and `hands:123>` are
  appended as they are, and the `_` toggles italic. The same holds for `*`,
  a space and `~~` in the name.
- Names from the directory reach the markup unescaped. Only the message text
  passes the escape chain; display, channel and role names are appended as
  they are (bot.py:190-195). A name holding `<` or `&` therefore produces
  broken markup.
- Only two entities the author typed survive escaping. A typed `&amp;` or
  `&lt;` (so also `&amp;amp;`) is kept as it is, and a typed `&amp;lt;`
  becomes `&lt;`. Every other `&` is escaped, so a typed `&gt;` becomes
  `&amp;gt;` (bot.py:53-58).
- The width is checked against the token's length, but a mention appends
  the resolved name. Style delimiters count in the check but never reach the
  plain text. So a line's plain text can exceed the width for reasons other
  than a single long first token (bot.py:191-195, 205).
- The `'> '` clean-up also swallows any space the author typed after a
  closing tag or after a literal `>`, wherever it stands in the line. `**hi** there` renders as `hi` and `there` with
  no space in the markup (bot.py:142).

## Model

| member | source | states |
|---|---|---|
| PyStr.SplitJoin | bot.py:45 | `str.split` pieces joined with the divider give back the string |
| PyStr.SplitCount | bot.py:45 | `split` yields one piece more than there are non-overlapping occurrences of the divider |
| PyStr.SplitPiecesFree | bot.py:45 | no piece of `split` contains the divider |
| PyStr.ReplaceAbsent | bot.py:53-58 | `replace` changes nothing when the pattern does not occur |
| PyStr.ReplaceRemovesChar | bot.py:56 | replacing a single character by text without it leaves no occurrence of it |
| Tokenizer.WeaveShape | bot.py:34-39 | `weave` puts the pieces at even positions and the item at every odd position, `2n-1` items in all |
| Tokenizer.WeaveConcat | bot.py:34-39 | the woven items concatenate to the pieces joined with the item |
| Tokenizer.SplitAroundConcat | bot.py:42-45 | the items of `split_around` concatenate back to the line |
| Tokenizer.SplitAroundShape | bot.py:42-45 | `split_around` gives `2c+1` items for `c` occurrences of the divider: divider-free pieces alternating with the divider |
| Tokenizer.SplitAroundKeeps | bot.py:42-45 | a line that is exactly a delimiter, or holds none of the divider's first character, comes back as the single item `[line]` |
| Tokenizer.EscapeIsEscapeOnce | bot.py:53-58 | the four-replace chain equals a single left-to-right scan that keeps `&amp;`/`&lt;` (reads `&amp;lt;` as `&lt;`) and escapes every other `&` and every `<` |
| Tokenizer.EscapeIdempotent | bot.py:53-58 | applying the chain twice is applying it once |
| Tokenizer.EscapeKeepsEntities | bot.py:53-58 | `&amp;` and `&lt;` are fixed points of the chain |
| Tokenizer.EscapeOtherEntities | bot.py:53-58 | no other entity is recognised: `&gt;` becomes `&amp;gt;`, and `&amp;lt;` collapses to `&lt;` |
| Tokenizer.EscapeKeepsAmpAmp | bot.py:53-58 | a typed `&amp;amp;` is kept as it is: only its first `&amp;` is read as an entity |
| Tokenizer.EscapeNoAmpLt | bot.py:53-58 | for every input, the chain's result holds no `&amp;lt;` |
| Tokenizer.EscapeOnceNoAmpLt | bot.py:53-58 | the one-scan reference definition never produces `&amp;lt;`: every `&amp;` it writes is followed by something other than `lt;` |
| Tokenizer.EscapeKeepsDelimiters | bot.py:31-58 | every delimiter passes through the chain unchanged |
| Tokenizer.EscapePlain | bot.py:53-58 | text without `&` and `<` passes through the chain unchanged |
| Tokenizer.EscapeNoRawLt | bot.py:56-57 | the chain's result holds no raw `<` |
| Tokenizer.SplitEscapeOnce | bot.py:53-60 | splitting the escaped text at a delimiter gives the escaped pieces of splitting the raw text |
| Tokenizer.SplitAroundEscape | bot.py:42-60 | escaping the items of `split_around` is `split_around` of the escaped line |
| Tokenizer.EscapedExactlyOnce | bot.py:48-61 | the seven escaping passes over the message equal the seven plain split passes over the message escaped once, and every item is a fixed point of the chain |
| Tokenizer.NonEmpty | bot.py:62 | `filter(None, …)` keeps exactly the non-empty items of the list: every kept item is a non-empty item of the list, and every non-empty item of the list is kept |
| Tokenizer.TokensConcat | bot.py:48-62 | the tokens concatenate to the message escaped once: nothing is lost or duplicated |
| Tokenizer.TokensEscaped | bot.py:48-62 | every token is a fixed point of the chain and holds no raw `<` |
| Tokenizer.TokensNoAmpLt | bot.py:48-62 | no token holds `&amp;lt;` |
| Tokenizer.TokenShape | bot.py:31-62 | every token is non-empty, and is either exactly one delimiter or holds no `*`, `_`, space, newline or `~~`: every space and newline is a token of its own |
| Tokenizer.BoldTokens | bot.py:31-62 | the number of `**` tokens is the number of non-overlapping `**` in the escaped message: `**` is never split into two `*` |
| Tokenizer.UnderlineTokens | bot.py:31-62 | the number of `__` tokens is the number of non-overlapping `__` in the escaped message: `__` is never split into two `_` |
| Tokenizer.BoldWordTokens | bot.py:48-62 | `**w** t` plus a newline, for plain words `w` and `t`, tokenizes to `**`, `w`, `**`, space, `t`, newline |
| References.FindMember | bot.py:14-17 | the first member with the id is found, and none is found exactly when no member has it |
| References.MemberName | bot.py:14-19 | a guild member's display name first, then a fetchable user's; an error exactly when neither has the id |
| References.ChannelName | bot.py:193 | the channel's name when the client knows the id, an error otherwise |
| References.FindRole | bot.py:24-26 | the first role of a guild with the id, none exactly when the guild has none |
| References.RoleName | bot.py:22-28 | the first guild holding the role decides its name; `invalid-role` when no guild has it |
| References.DigitRun | bot.py:187 | the length of the longest run of ASCII digits at the start of the text |
| References.LazySearchFindsLeast | bot.py:187 | the lazy `(.*?)` search returns the shortest group 1 after which `[0-9]+>` matches, and fails only if there is none |
| References.ParseRefSpec | bot.py:187 | the anchored match exists exactly when the word starts with `&lt;`, a newline-free group 1, digits and `>`; its group 1 is the shortest possible and determines the digits |
| References.DigitsValueDecimal | bot.py:189 | `int` reads back the id written in decimal |
| References.DigitsValueLeadingZero | bot.py:189 | a leading zero does not change the id |
| References.NotAmpNoRef | bot.py:187 | a word not starting with `&` never matches the mention pattern |
| References.PlainWordPiece | bot.py:199-200 | a word that does not match is kept verbatim and coloured exactly when it starts with `http` |
| References.UserMention | bot.py:187-191 | `&lt;@id>` and `&lt;@!id>` render as `@` and the display name, coloured, whatever follows; an error only for an unknown id |
| References.ChannelMention | bot.py:187-193 | `&lt;#id>` renders as `#` and the channel name, coloured; an error for an unknown channel |
| References.RoleMention | bot.py:187-195 | `&lt;@&amp;id>` renders as `@` and the role name, coloured, and as `@invalid-role` when no guild has the role; it never fails |
| References.EmojiMention | bot.py:187-198 | a token `&lt;:name:id>` renders as `:name:`, uncoloured, for any name without newline or `>` (digits included), whatever follows |
| References.EmptyGroupOne | bot.py:187-198 | `&lt;id>` matches with an empty group 1 and renders as the empty word, uncoloured |
| References.OtherGroupOne | bot.py:196-198 | any match whose group 1 is not `@`, `@!`, `#` or `@&amp;` renders as group 1 itself, uncoloured, and never fails |
| References.MentionParses | bot.py:187 | a word `&lt;` + group 1 + digits + `>` + anything, where group 1 holds no newline or `>` and does not end in a digit, matches with exactly that group 1 and those digits |
| References.NoShorterMatch | bot.py:187 | no shorter group 1 matches such a word: a shorter one would need `>` or a non-digit inside the digit run |
| Wrapper.StyleOf | bot.py:166-185 | exactly the delimiters other than space and newline toggle a style |
| Wrapper.Appended | bot.py:128-135 | `append` adds exactly the word to the plain text and leaves the style flags alone |
| Wrapper.LineWrapper.constructor | bot.py:66-74 | the line starts with empty text, empty markup and every style closed |
| Wrapper.LineWrapper.Open | bot.py:76-98 | opening a closed style sets its flag and appends its opening tag |
| Wrapper.LineWrapper.Close | bot.py:102-124 | closing an open style clears its flag and appends `</tspan>` |
| Wrapper.LineWrapper.Toggle | bot.py:166-185 | the style is closed when open and opened otherwise |
| Wrapper.LineWrapper.Append | bot.py:128-135 | the text gains the word; the markup gains the word, or `<tspan fill="C">word</tspan> ` when coloured |
| Wrapper.LineWrapper.CloseAll | bot.py:144-157 | the open styles are closed in the order bold, italic, underline, strikethrough, one `</tspan>` each, and listed in that order, each at most once |
| Wrapper.LineWrapper.Reopen | bot.py:162-163 | from an empty line with no style open, the listed styles are opened in list order |
| Wrapper.LineWrapper.LineBreak | bot.py:139-163 | the fragment is the markup with `'> '` replaced by `'>'` followed by one `</tspan>` per open style; the new line has empty text, the same styles open, and their opening tags as markup |
| Wrapper.LineWrapper.TransformToken | bot.py:165-200 | a delimiter toggles its style, a mention is resolved, any other word is appended; fails exactly when a lookup fails |
| Wrapper.LineWrapper.Step | bot.py:202-209 | one turn of the main loop: flush on a newline, flush then transform on overflow, transform otherwise |
| Wrapper.WrapTextAndRenderMarkdownLines | bot.py:65-209 | draining the generator over the tokens of the text plus a newline gives `Render`, or the first lookup error |
| Wrapper.RunFromStep | bot.py:202-209 | a run yields the first token's fragments, then the rest's, or stops at the first error |
| Wrapper.ReopenRestores | bot.py:144-163 | reopening the styles `line_break` closed restores every flag |
| Wrapper.ToggleTwice | bot.py:165-185 | two toggles of one style restore all flags and the text, and add its opening tag and `</tspan>` side by side |
| Wrapper.DelimiterKeepsClean | bot.py:165-185 | a delimiter never fails, never changes the plain text, and flips its own style and no other |
| Wrapper.PlainWordAppended | bot.py:128-200 | a non-mention word adds itself to the text, and to the markup verbatim or coloured exactly when it starts with `http` |
| Wrapper.UserMentionAppended | bot.py:128-191 | a user mention, `&lt;@id>` or `&lt;@!id>`, adds `@` and the display name to the text, coloured in the markup |
| Wrapper.TagReplace | bot.py:142 | the clean-up leaves an opening tag that is followed by another tag or nothing unchanged |
| Wrapper.FlushFresh | bot.py:139-163 | flushing a line that holds only carried-over tags yields those tags each closed again, and leaves the same line |
| Wrapper.PlainWordWidth | bot.py:205-209 | a plain word starts a new line exactly when the line holds more than one character and the word would pass the width; the line then passes the width only when at most one character precedes the word |
| Wrapper.RunFromCount | bot.py:202-209 | bounds only: a run yields at least one fragment per newline token and at most one per token |
| Wrapper.StepFragments | bot.py:202-209 | every token flushes one fragment, that of `line_break`, exactly when it is a newline or would overflow the line, and none otherwise; the token is then transformed on the fresh line, or on the same line when nothing was flushed |
| Wrapper.RunFromFragments | bot.py:202-209 | a run yields exactly one fragment per newline token plus one per token that overflows the line it meets (`OverflowBreaks`) |
| Wrapper.RenderNonEmpty | bot.py:66-204 | thanks to the appended newline, a successful rendering has at least one fragment |
| Wrapper.NewlineToken | bot.py:48-66 | the tokens of a text ending in a newline include a newline token |
| Wrapper.SpaceAfterTag | bot.py:142 | for any markup before and after, the clean-up deletes a space that directly follows a `>`, and cleans the two sides independently |
| Wrapper.SpaceAfterTagAlone | bot.py:142 | in markup with exactly two `>`, a space after the second is the only thing the clean-up removes |
| Wrapper.MentionTokenGroupOne | bot.py:31-187 | no token that matches the mention pattern has `*`, `_` or a space in its group 1 |
| Wrapper.UnderscoreEmojiSplit | bot.py:31-62 | `&lt;:a_b:id>` is never a token of its own, whatever the message |
| Wrapper.BoldThenSpace | bot.py:165-209 | the tokens `**`, `hi`, `**`, space, `there`, newline yield the single fragment `<tspan font-weight="bold">hi</tspan>there` at any width of 8 or more |
| Wrapper.WorkedExample | bot.py:48-209 | rendering `**hi** there` at width 100 yields exactly that one fragment |

## Left out

- Discord client plumbing (bot.py:11-13, 292-318) is not modelled: the event loop, `on_ready`, history pagination, file writing and printing. The lookups become data in a `Directory` value. The members of all guilds are one flattened sequence in the client's iteration order.
- `download_bytes` and `get_picture` (bot.py:214-226) are not modelled. They are network I/O with an async memo cache and base64 encoding.
- `transcribe_message` (bot.py:229-289) is not modelled. It is SVG boilerplate around image fetches, `strftime` dates, library colour objects and float coordinates, and it holds the empty-line dash placeholder.
- The output file name (bot.py:297) is not modelled: it is derived from the string form of a float timestamp.
- Laziness is not modelled: the generator is drained into a list. Fragments yielded before a lookup failure are not returned; the result is the error alone.
- Exception-driven control flow becomes explicit branches. The `try: close… except AssertionError: open…` toggles and the `suppress(AssertionError)` blocks of `line_break` test the flag directly. Opening an already-open style, which no path of the source reaches, is excluded by a precondition of `Wrapper.LineWrapper.Open`.
- Running with assertions disabled (`python -O`) is not modelled. The toggles would then misbehave.
- `WrapTextAndRenderMarkdownLines` takes the width as a required parameter: Dafny has no default arguments, so the source's default `line_width=100` (bot.py:65) is not a default here; `WorkedExample` renders at width 100.
- `.` in the mention pattern does not match a newline, and the model says so. Tokens never contain a newline, so this never matters for the renderer.
