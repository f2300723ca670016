# SSM Johor enforcement Telegram bot: relay pipeline model

This project models how the bot answers one Telegram update. The bot is a
FastAPI webhook. It reads the update, then does one of five things:

- sends nothing, when the update has no message it can answer (no message,
  no `chat.id`, or a payload that makes reading it raise);
- sends a fixed welcome text;
- sends an acknowledgment and stops, when the text is blank;
- sends an acknowledgment, asks the OpenAI completion service, and, when
  that fails, sends an error notice;
- sends an acknowledgment, asks the OpenAI completion service, and delivers
  the answer.

A long answer is split into several Telegram messages at paragraph
boundaries (`"\n\n"`). Each one stays within 3900 characters unless a single
paragraph is longer than that.

The project has four modules:

- `PyText` (`text.dfy`) models Python's `str.strip()` with the full
  `str.isspace()` character set. It also models `str.split("\n\n")` and
  `"\n\n".join`, plus the part of `str.lower()` that the trigger test can
  observe.
- `PyJson` (`json.dfy`) models the decoded update as a JSON value. It covers
  Python truthiness, `a or b`, `dict.get` and `== 1`.
- `Chunker` (`chunker.dfy`) specifies the greedy paragraph packing as a fold
  (`Step`, `Pack`, `Chunks`) and holds the lemmas about it.
- `Relay` (`relay.dfy`) holds the welcome-trigger test, the prompt, update
  extraction, the pipeline method `ProcessAndReply` and the webhook answer.

Each call to `send_telegram_message` is an `Outgoing(chatId, text)` event
appended to the outbox that `ProcessAndReply` returns. The send swallows
every error, so a failed send never changes what happens next. The OpenAI
call is an oracle parameter `service`. It maps the prompt to `Replied(content)`
or `Failed`. Every prompt passed to it is also returned, so "no completion
call" can be stated as `requests == []`.

The splitting loop in `SendReplyInChunks` is an imperative `for` loop over a
`buffer` variable. It is proved against `Chunks`. The lemmas about `Chunks`
prove these facts:

- The flushed buffers, then the final buffer, spell out `reply + "\n\n"`.
- If every paragraph has at most 3900 characters, every message fits in 3900.
- An oversized paragraph is sent on its own and never split.
- The last paragraph of a stripped reply is always sent.

The model keeps one quirk of the code: if the first paragraph alone
overflows, the still-empty buffer is flushed and an empty message is sent
first (`Chunker.FirstParagraphOversize`).

Other behaviours of the code that the model keeps:

- The size limit is 3900.
- The acknowledgment is sent before the blank-text check, so blank text gets
  the acknowledgment and nothing else.
- A chunk can be empty, or longer than the limit when one paragraph is.
- No notice is sent when a delivery fails.

## Model

| member | source | states |
|---|---|---|
| `Relay.WelcomeTriggerIff` | main.py:104-113 | a text is a welcome trigger exactly when it is one of the nine trigger words, in any letter case, with only whitespace around it; an empty or blank text never is |
| `Relay.TriggerIsPaddedMatch` | main.py:109-113 | a text that passes the trigger test is its trigger word surrounded by whitespace, at the offset `strip` starts from |
| `Relay.PaddedMatchIsTrigger` | main.py:109-113 | a trigger word in any letter case, with only whitespace around it, passes the trigger test |
| `Relay.BuildOpenAIMessages` | main.py:75-79 | the prompt has exactly two entries: the system instruction first, then the user's text unchanged |
| `Relay.ExtractMessage` | main.py:120-127 | an object update with neither a truthy `message` nor a truthy `edited_message` is a no-op; a non-object payload, or a chosen message without `chat.id`, raises; an addressable update has a `chat.id` in the chosen message, and its text is empty or the message's `text` or `caption` string |
| `Relay.ExtractMessageText` | main.py:124-127 | a message with a `chat.id` is answered with its non-empty string `text`; failing that with its `caption` string (`""` when missing); failing that with `""`; a truthy non-string `text` or `caption` raises; the answer carries the `chat.id` and `message_id` |
| `Relay.EditedMessageAlike` | main.py:120 | an `edited_message` is handled exactly as the same `message` would be, whatever other fields (such as `update_id`) the update carries |
| `Relay.MessageTakesPrecedence` | main.py:120 | a truthy `message` wins over any `edited_message`, whatever other fields the update carries |
| `Relay.SendReplyInChunks` | main.py:168-177 | the paragraph loop sends, to the given chat, exactly the texts `Chunks(reply)`, in order |
| `Relay.ProcessAndReply` | main.py:118-180 | no addressable message (missing message, missing `chat.id`, non-object payload, non-string text) sends nothing and calls no completion; a trigger or message id 1 sends only the welcome text; otherwise the acknowledgment comes first; blank text stops there; otherwise exactly one completion is requested with `[system, text]`; a failure adds only the error notice; a stripped reply of at most 3900 characters is sent whole, even when empty; a longer one is sent as `Chunks(reply)`; every message goes to the update's chat |
| `Relay.Webhook` | main.py:189-198 | the webhook always answers `{"ok": true}`; a parsed body is handed unchanged to the background task, an unparseable one is dropped |
| `PyJson.Or` | main.py:120 | Python's `a or b` is truthy when either operand is, is one of them, is `a` when `a` is truthy and `b` otherwise (so `x or ""` is `""` for every falsy `x`) |
| `PyText.StripSpec` | main.py:112 | `strip` keeps a slice of the text whose removed prefix and suffix are blank and which neither starts nor ends with whitespace |
| `PyText.StripEmptyIffBlank` | main.py:148 | `not text.strip()` holds exactly when the text is all whitespace |
| `PyText.StripUnique` | main.py:112 | any split of a text into blank, core and blank, where the core has no whitespace at its ends, gives `strip`'s result |
| `PyText.StripAppendBlank` | main.py:172 | appending whitespace (the `"\n\n"` after a paragraph) does not change what `strip` keeps |
| `PyText.JoinSplit` | main.py:170 | joining the pieces of `split("\n\n")` with `"\n\n"` gives back the reply |
| `PyText.SplitPiecesHaveNoSep` | main.py:170 | no piece of the split holds `"\n\n"` |
| `PyText.SplitFirstIsPrefix` | main.py:170 | the first piece of the split is a prefix of the text |
| `PyText.SplitCutsLeftmost` | main.py:170 | no piece before the last ends in `'\n'`: every cut is at the leftmost separator, as Python scans left to right (with `JoinSplit` and `SplitPiecesHaveNoSep` this fixes the split uniquely) |
| `PyText.JoinLast` | main.py:170 | the last piece follows the last separator |
| `Chunker.PackCovers` | main.py:169-175 | the flushed buffers, then the current buffer, are the consumed paragraphs each followed by `"\n\n"`: nothing lost, repeated or reordered |
| `Chunker.ReplyCovered` | main.py:169-177 | for a whole reply, the flushed buffers and the final buffer concatenate to `reply + "\n\n"` |
| `Chunker.PackBounded` | main.py:171-175 | with every paragraph at most 3898 characters, no buffer, even unstripped, ever exceeds 3900 |
| `Chunker.PackStrippedBounded` | main.py:171-175 | with every paragraph at most 3900 characters, every buffer, once stripped, has at most 3900 characters: a restarted buffer `p + "\n\n"` loses its separator to `strip` |
| `Chunker.ChunksBounded` | main.py:171-177 | with every paragraph at most 3900 characters, every text sent has at most 3900 characters |
| `Chunker.PackPrefix` | main.py:171-175 | the loop only appends to the list of flushed buffers |
| `Chunker.PackNext` | main.py:170-175 | consuming one more paragraph is one more loop step |
| `Chunker.OversizeParagraphAlone` | main.py:171-173 | a paragraph longer than 3898 characters flushes the buffer before it, becomes a buffer of its own, and is flushed alone when another paragraph follows |
| `Chunker.FirstParagraphOversize` | main.py:169-177 | if the first paragraph is longer than 3898 characters, the first text sent is empty and the next one is that paragraph, stripped and unsplit; a reply with no `"\n\n"` is sent as exactly those two texts (or the empty one alone when it is blank) |
| `Chunker.LastParagraphEnds` | main.py:170 | a reply ending in a non-space character has a non-blank last paragraph |
| `Chunker.BufferEndsWithLast` | main.py:171-175 | the buffer always ends with the last paragraph consumed and its separator |
| `Chunker.BufferNotBlank` | main.py:176 | a non-blank last paragraph makes the final buffer non-blank |
| `Chunker.FinalBufferNotBlank` | main.py:176 | for a reply ending in a non-space character, the final buffer is not blank |
| `Chunker.FinalBufferSent` | main.py:176-177 | for a stripped reply, the last text sent is the final buffer, stripped and non-empty |

## Left out

- HTTP delivery to Telegram (main.py:43-55): `requests.post`, the status check and logging are foreign I/O. Each call is an `Outgoing` event. The call swallows every exception, so the model has no failure path for it.
- The OpenAI SDK call (main.py:84-91): the model name, temperature (a float), `max_tokens` and timeout are foreign. It is an oracle that returns the content or `Failed`. A `None` content, which makes `.strip()` raise, counts as `Failed`. The `.strip()` at main.py:92 is modelled.
- Configuration and startup (main.py:21-36): reading environment variables and the `SystemExit` on missing tokens are process I/O.
- Loading `instructions.txt` (main.py:60-70): `SYSTEM_INSTRUCTION` is the built-in fallback text. The file's contents are not modelled.
- The health route (main.py:185-187), `BackgroundTasks` scheduling and async JSON parsing: this is framework plumbing. `Webhook` takes the parse result as an `Option`, and runs of the pipeline share no state.
- Logging everywhere: it is output on a side channel and changes no decision.
- `PyText.LowerChar`: only the ASCII capitals and the Kelvin sign (which lowercases to `k`) are lowercased. Python's full Unicode case mapping is not modelled. Every trigger word is ASCII, so this is the part of `lower()` that the membership test can see.
- Strings are sequences of Unicode scalar values, so lone surrogates (possible through JSON `\u` escapes) cannot be represented.
- JSON floats are exact reals, and NaN and infinities are not represented. Floats only matter to truthiness and `message_id == 1`.
- Exceptions that are not `Exception` (such as `KeyboardInterrupt`) are not modelled.
- `Relay.ExtractMessage`: its own ensures does not say when an update with a `chat.id` is `Addressed`, which of `text` and `caption` wins, or what `messageId` holds. All three are stated case by case by `Relay.ExtractMessageText`.
- `PyText.Split`: its own ensures says only that there is at least one piece. Its meaning is stated by `PyText.JoinSplit`, `PyText.SplitPiecesHaveNoSep`, `PyText.SplitFirstIsPrefix` and `PyText.SplitCutsLeftmost`.
