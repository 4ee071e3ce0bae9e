# Outbound-reply pipeline of a Telegram chatbot, in Dafny

This project models how the bot in `chatbot.py` answers a text message. The handler
`equiped_chatbot` does four things in order:

1. It picks the language model, `"gemini"` unless `/model` selected another one.
2. It asks the gateway `HKBU_ChatGPT.submit` for a reply.
3. It cuts the reply into messages with `split_message`.
4. It escapes each message for Telegram's MarkdownV2 with `escape_markdown_v2`, and sends the messages in order.

It also models the `/model` command (`set_model`), which selects the model.

Modules, one file each:

- `Wrappers` (`wrappers.dfy`): `Option` and `Result`.
- `Strings` (`strings.dfy`): the Python string primitives the code relies on:
  - slice bounds, including negative ones;
  - `rfind`;
  - ASCII `lower`;
  - `"".join`.
- `Escaping` (`escaping.dfy`): `escape_markdown_v2`. Its partner is an unescaper that reads escaped text back.
  The raw string literal the character class is built from contains backslashes, and `re.escape` keeps them literal, so the backslash itself is escaped too, next to the punctuation characters MarkdownV2 reserves.
- `Chunking` (`chunking.dfy`): `split_message` exactly as written. It contains:
  - the precise condition (`Halts`) under which its loop terminates;
  - a pass-by-pass model of the loop;
  - the corrected chunker.
- `Gateway` (`gateway.dfy`): the case-insensitive model dispatch of `submit`. The HTTP exchange of each backend is a function parameter, `complete`.
- `Handlers` (`handlers.dfy`): `set_model`, the relay, and a session of updates handled in order. The shared state is a small record: the selected model and the log of sent messages.

## Model

| member | source | states |
|---|---|---|
| Strings.SliceIndex | chatbot.py:86-87 | Python's slice-bound normalisation lies in `[0, n]`, is the identity on in-range bounds, counts a negative bound from the end, and clamps a bound past either end to that end |
| Strings.TakeDrop | chatbot.py:86-87 | for any bound, `text[:k]` (`Take`) is a prefix of the text whose length is the normalised bound, and `text[:k] + text[k:]` (`Take` then `Drop`) is the whole text |
| Strings.LastIndexBefore | chatbot.py:83 | the result is the last index below the bound holding the character, or -1 when there is none |
| Strings.RFind | chatbot.py:83 | `rfind(c, 0, end)` returns an index of `c` before the normalised `end` with no `c` between it and `end`, or -1 when that window has no `c` |
| Strings.Lower | chatbot.py:67 | lower-casing keeps the length, maps each ASCII capital to the letter 32 code points above it, and leaves every other character as it is |
| Strings.ConcatAppend | chatbot.py:86-88 | joining distributes over sequence concatenation |
| Strings.AppendOne | chatbot.py:86-88 | appending one part and joining, then following with the rest of the text, is joining the parts before and following with the part and the rest |
| Strings.LowerIdempotent | chatbot.py:67 | lower-casing twice is lower-casing once |
| Chunking.SplitPoint | chatbot.py:83-85 | the split point is within the budget; below the budget it sits on the window's last space, and at the budget the window has no space |
| Chunking.Halts | chatbot.py:82-87 | the loop's termination condition: a text within the budget terminates, and a terminating text longer than the budget has a budget of at least 1 and a positive split point |
| Chunking.SplitMessage | chatbot.py:76-89 | a text within the budget comes back as the single part `[text]` (so `""` gives `[""]`); a longer one gives at least two parts |
| Chunking.ConsCovers | chatbot.py:86-88 | prefixing a chunking of the rest with a non-empty cut within the budget gives a chunking of the whole |
| Chunking.SplitMessageCovers | chatbot.py:82-88 | when it returns, the parts join back to the text, each part (the last included) fits the budget, and no part is empty when there are several |
| Chunking.BreaksCons | chatbot.py:83-87 | the space-break shape is kept when a conforming first part is added |
| Chunking.SplitMessageBreaks | chatbot.py:83-87 | a full-length non-final part has no space; a shorter non-final part is followed by a part that starts with the space it was cut before |
| Chunking.CutIsSplitPoint | chatbot.py:83-85 | a cut follows the rule (last space of the window other than index 0, else the budget if the window has no space) iff it is a positive split point |
| Chunking.SplitMessageFollowsRule | chatbot.py:82-88 | every returned chunking is made of cuts that follow the rule |
| Chunking.RuleDeterminesSplit | chatbot.py:82-88 | any chunking made of rule-following cuts is the one returned, and its existence implies termination |
| Chunking.HardCuts | chatbot.py:83-86 | the number of windows of `m` characters that a text of `n` fills is at least 1, and at least 2 when the text is longer than one window |
| Chunking.HardCutsIsCeiling | chatbot.py:83-86 | that window count is `ceil(n / m)`, and 1 for an empty text |
| Chunking.NoSpaceHardCuts | chatbot.py:83-86 | a text without spaces terminates and is hard-cut into one part per window, every non-final part exactly `maxLen` long |
| Chunking.LastPartLength | chatbot.py:86-88 | when every non-final part has length `m`, the joined length is `m` per non-final part plus the last part's length |
| Chunking.NoSpaceExample | chatbot.py:76-89 | 1000 characters without spaces under budget 100 give 10 parts, all ten of length 100 |
| Chunking.NoSpaceTwoChunks | chatbot.py:76-89 | 5000 characters without spaces under budget 4096 give 2 parts, the first of length 4096 |
| Chunking.Iterate | chatbot.py:83-87 | one pass of the loop body appends exactly one part |
| Chunking.Run | chatbot.py:82-87 | `k` passes, stopping when the guard fails, append at most `k` parts and never remove one |
| Chunking.PassKeepsText | chatbot.py:86-87 | the loop invariant: a pass keeps the joined parts followed by the remaining text equal to what it was |
| Chunking.RunKeepsText | chatbot.py:82-87 | the invariant holds after any number of passes, so the loop never loses or duplicates a character |
| Chunking.ZeroSplitMakesNoProgress | chatbot.py:86-87 | a pass with split point 0 appends `""` and leaves the remaining text unchanged |
| Chunking.RunStep | chatbot.py:82-87 | a run that has not exited is one pass followed by the remaining passes |
| Chunking.NoProgressWithoutBudget | chatbot.py:82-87 | with a budget below 1 the loop never exits on a text longer than the budget |
| Chunking.NonHaltingPass | chatbot.py:82-87 | a pass from a non-terminating state is still inside the loop and leads to a non-terminating state |
| Chunking.DivergesUnlessHalts | chatbot.py:82-87 | without `Halts` the loop guard holds after any number of passes |
| Chunking.ExitMeansHalts | chatbot.py:82-87 | if the loop ever exits, `Halts` held for the text it started from |
| Chunking.HaltingPass | chatbot.py:83-87 | a pass from a terminating state leaves a strictly shorter, still terminating remainder |
| Chunking.PassAppendsFirstPart | chatbot.py:86-87 | a pass from a terminating state appends exactly the first part of `SplitMessage` of the remaining text |
| Chunking.ExitComputesSplit | chatbot.py:82-88 | whenever the loop exits, its parts plus the final remainder are `SplitMessage` of the input |
| Chunking.HaltsMeansExit | chatbot.py:82-87 | with `Halts` the loop exits within as many passes as the text has characters |
| Chunking.LoopExitsIffHalts | chatbot.py:82-88 | the loop exits for some number of passes iff `Halts` holds, and on exit it returns `SplitMessage` |
| Chunking.SpaceCutStalls | chatbot.py:83-87 | after a cut before a space, if the next window holds no other space and the remainder exceeds the budget, the next split point is 0 and the loop never exits from that text, whatever was appended before |
| Chunking.StallExample | chatbot.py:82-87 | `"aaaaa bbbbbbbbbb"` with budget 6 never exits: after the cut before the space the window's only space is at index 0 |
| Chunking.SplitPointCorrected | chatbot.py:83-85 | the corrected split point is always positive and within the budget, and below the budget it sits on the window's last space |
| Chunking.SplitMessageCorrected | chatbot.py:76-89 | the corrected chunker is total for every positive budget and keeps `[text]` for a text within the budget |
| Chunking.CorrectedCovers | chatbot.py:82-88 | the corrected chunker's parts join back to the text, fit the budget and are non-empty when there are several, on every input |
| Chunking.CorrectedAgreesWhenHalting | chatbot.py:76-89 | wherever the original terminates, the corrected chunker returns the same parts |
| Chunking.CorrectedStallExample | chatbot.py:76-89 | on the stalling input the corrected chunker returns `["aaaaa", " bbbbb", "bbbbb"]` |
| Escaping.ReservedSet | chatbot.py:93-94 | the character class built from the raw literal is exactly the reserved characters, backslash included |
| Escaping.LiteralInClass | chatbot.py:93 | every character of the raw literal is reserved |
| Escaping.ClassInLiteral | chatbot.py:93 | every reserved character occurs in the raw literal |
| Escaping.EscapeChar | chatbot.py:94 | the substitution for one character ends with that character, has length 2 exactly for a reserved one, and then starts with a backslash |
| Escaping.EscapeCharUnescapes | chatbot.py:94 | reading one substitution back gives the character |
| Escaping.CountReserved | chatbot.py:93 | the count of reserved characters is at most the length |
| Escaping.Escape | chatbot.py:91-94 | the escaped text is as long as the input plus its reserved characters, at most twice the input, and `""` for `""` |
| Escaping.EscapeAppend | chatbot.py:94 | escaping distributes over concatenation |
| Escaping.EscapeSingle | chatbot.py:94 | a reserved character becomes backslash plus itself; any other character stays as it is |
| Escaping.UnescapeEscape | chatbot.py:94 | unescaping an escaped text gives the text back |
| Escaping.EscapeUnescape | chatbot.py:94 | every string that unescapes is the escape of its result, so escaping is a bijection onto well-escaped strings |
| Escaping.CountReservedAppend | chatbot.py:93-94 | reserved characters of a concatenation add up |
| Escaping.CountReservedEscape | chatbot.py:93-94 | escaping doubles the number of reserved characters, because the inserted backslash is reserved |
| Escaping.EscapeIdempotentIff | chatbot.py:93-94 | escaping leaves a text unchanged iff it has no reserved character, and escaping twice equals escaping once under the same condition |
| Escaping.NoReservedUnchanged | chatbot.py:94 | a text without reserved characters is its own escape |
| Escaping.EscapeExamples | chatbot.py:93-94 | `"a_b"` escapes to `"a\_b"`, `"\"` to `"\\"`, and escaping `"\"` again changes it |
| Gateway.Dispatch | ChatGPT_HKBU.py:27-45 | a model name reaches a backend iff its lower-cased form is a supported name, and then the backend's name is that form |
| Gateway.UnsupportedError | ChatGPT_HKBU.py:78 | the `ValueError` text quotes the requested name as given, right after its fixed prefix |
| Gateway.Submit | ChatGPT_HKBU.py:15-78 | `submit` succeeds iff the lower-cased model is supported, returns that backend's reply, and otherwise fails with the `ValueError` text quoting the name as given |
| Gateway.DispatchName | ChatGPT_HKBU.py:27-45 | a backend is reached exactly by the names that lower-case to its own name |
| Gateway.SupportedNamesLower | ChatGPT_HKBU.py:27-45 | the two supported names are already lower-case, so lower-casing them changes nothing |
| Gateway.SupportedNamesDispatch | ChatGPT_HKBU.py:27-45 | the supported names are lower-case already and dispatch to the backend of the same name |
| Gateway.DispatchIgnoresCase | ChatGPT_HKBU.py:27-45 | dispatching a lower-cased name is dispatching the name |
| Gateway.DispatchExamples | ChatGPT_HKBU.py:27-78 | `"ChatGPT"` and `"GEMINI"` reach their backends; `"gpt-4"` reaches none |
| Handlers.SetModel | chatbot.py:63-74 | an accepted argument is stored lower-cased; a missing or invalid one leaves the selection unchanged; a valid selection stays valid; exactly one plain-text reply goes to the chat |
| Handlers.SetModelReplies | chatbot.py:67-74 | the reply is the usage line without an argument, `Model set to <name>.` on acceptance, and the invalid-model line otherwise |
| Handlers.SetModelIgnoresCaseAndExtras | chatbot.py:67 | `/model` ignores capitalisation of its argument and any further arguments |
| Handlers.ActiveModel | chatbot.py:98-99 | the model used is the selected one when there is one and `"gemini"` when there is none, and it is supported whenever the selection is valid |
| Handlers.Deliveries | chatbot.py:106-108 | one MarkdownV2 message per part, in order, to the originating chat, carrying the escaped part |
| Handlers.DeliveriesSpellEscape | chatbot.py:105-108 | the texts sent for a list of parts join to the escape of the joined parts |
| Handlers.Relay | chatbot.py:96-108 | the relay stores the model it used; it raises exactly when `submit` fails, and then with the `ValueError` text of ChatGPT_HKBU.py:78 for the model used, so with a valid selection it never raises; it hangs only when `submit` succeeded and `split_message` never returns on the reply; it sends nothing unless it delivers; a delivery means `submit` succeeded and `split_message` returned on the reply, and appends exactly one escaped MarkdownV2 message per returned part |
| Handlers.ActiveReply | chatbot.py:98-101 | with a valid selection `submit` succeeds and returns the reply of the selected backend |
| Handlers.RelayDeliversIffHalts | chatbot.py:101-108 | with a valid selection the relay delivers iff the loop of `split_message` terminates on the reply, and hangs otherwise |
| Handlers.RelaySends | chatbot.py:105-108 | a delivered relay's messages are exactly the deliveries of `split_message` of the reply, go to the chat in MarkdownV2, join to the escaped reply, and are each at most twice the budget |
| Handlers.EscapedPartExceedsBudget | chatbot.py:105-108 | with budget 1 the reply `"_"` is sent as the two-character `"\_"`: a sent message can exceed the budget |
| Handlers.RelayCorrected | chatbot.py:96-108 | with the corrected chunker and a valid selection the relay always delivers, appending one escaped MarkdownV2 message per corrected part |
| Handlers.RelayCorrectedAgrees | chatbot.py:96-108 | wherever the original relay does not hang, the corrected one gives the same outcome |
| Handlers.RelayCorrectedSends | chatbot.py:105-108 | the corrected relay's messages are exactly the deliveries of the corrected parts of the reply, go to the chat in MarkdownV2, join to the escaped reply, and are each at most twice the budget |
| Handlers.Session | chatbot.py:63-101 | when the first update is a text message whose relay raises the `ValueError` of ChatGPT_HKBU.py:78, that error heads the recorded list; from a valid selection no `ValueError` is recorded and the selection stays valid, whatever the updates; the sent log only grows |
| Handlers.SessionErrorExample | chatbot.py:63-108 | from an unsupported stored model `"gpt-4"` a text message records the `ValueError` quoting `gpt-4`, and a following `/model gemini` repairs the selection |

## Left out

- The HTTP exchanges in `HKBU_ChatGPT.submit` (ChatGPT_HKBU.py:28-75), the environment variables they read, and their error strings. The reply of each backend is the parameter `complete`.
- Handlers.Relay: "never raises" covers only the `ValueError` of ChatGPT_HKBU.py:78. Exceptions inside the HTTP exchange are not modelled: a `KeyError` from `os.environ` (ChatGPT_HKBU.py:29-35), `requests` exceptions (ChatGPT_HKBU.py:38 and 67), a failing JSON decode or missing key on a 200 reply (ChatGPT_HKBU.py:40-41 and 69), and a `None` reply failing at `len` in `split_message` (chatbot.py:78). The same holds for Handlers.Session.
- The floating-point and other generation parameters (ChatGPT_HKBU.py:59-64). They only shape the request.
- Reading `TELEGRAM_MAX_MESSAGE_LENGTH` from the environment (chatbot.py:11). The budget `maxLen` is a parameter.
- The Redis-backed commands `add`, `delete`, `get`, `set`, and the `hello`, `help` and `echo` handlers. They are thin wrappers over an external store and Telegram replies.
- `main`, `set_bot_commands`, polling and dispatcher setup, and logging. None of them affect what is sent.
- Sending is modelled as appending to a log, so a failed Telegram send is not modelled.
- Concurrency on the shared `current_model` across chats. The model is one sequential session.
- Handlers.Session: it assumes the dispatcher logs a handler's exception and goes on with the next update, and that a hanging handler blocks all later updates. That behaviour belongs to the Telegram library, which is not part of this model.
- Strings.Lower: only ASCII letters are lower-cased. Python's `str.lower` also folds other Unicode letters. The only names that matter, `chatgpt` and `gemini`, are ASCII.
- Chunking.SplitMessageCorrected: requires a budget of at least 1. The code gives no meaning to a smaller budget, and on one the original loops forever on any text longer than the budget (Chunking.NoProgressWithoutBudget), which for a negative budget is every text, the empty one included.
- The `ValueError` catch in `set_model` (chatbot.py:73). Nothing in its `try` block raises `ValueError`, so only the missing-argument path is modelled.

## Findings

| source | as written | input that shows it | evidently intended | confidence | as-written member | corrected member |
|---|---|---|---|---|---|---|
| chatbot.py:83-87 | `split_point` 0 is accepted when the window's only space is its first character, so the pass appends `""` and leaves `text` unchanged | `split_message("aaaaa bbbbbbbbbb", 6)` loops forever; so does any non-empty text when `max_length` is 0, and every text, `""` included, when it is negative | a space at index 0 is treated as no space, and the window is hard-cut at `max_length` | high, not executed | Chunking.SpaceCutStalls | Chunking.CorrectedCovers |
