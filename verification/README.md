# Generate-then-post bot: verified model of its text cleaning and request handling

The bot in `ai_twitter_bot.py` asks a completion service for a short in-character message, cleans the answer, and posts it to a social-media service. Two HTTP routes expose it: `GET /` is a liveness check, and `POST /tweet` runs generate-then-post.

This Dafny project models the logic of that file that can be stated precisely:

- **Reasoning-trace stripping** (`generate_response`). The completion is trimmed with Python's `str.strip()`. If the trimmed text contains `<think>`, only `split("</think>\n\n")[-1]` is kept, and it is trimmed again.
- **The `create_tweet` decision.** A missing or empty generated text gives 500 "Failed to generate tweet text" and nothing is posted. A failed post gives 500 "Failed to post tweet". Otherwise the response is 200 and echoes the text.
- **`health_check`**, which always answers `{"status": "healthy"}`.

The external services are inputs. The completion service's answer is an `Option<string>`: `None` stands for any exception in the call, including an answer without content. The posting service is an oracle `publish: string -> bool`, and `publish(text)` is the value `post_tweet(text)` returns.

Files:

- `options.dfy` holds the `Option` datatype.
- `text.dfy` holds the Python string operations used. `Strip` follows CPython's `strip()`: skip whitespace from the left, then from the right without crossing the left end. `IsSpace` covers the characters for which `str.isspace()` is true. `IndexFrom` is `find`, `Contains` is `in`, and `LastSegment` is `split(sep)[-1]`. `Strip` is tied to the reference definition `IsStripOf`, and `IndexFrom` and `Contains` to `OccursAt`/`Occurs`. `LastSegment` is tied to `AfterLastOccurrence` only for a separator that cannot overlap itself, such as `"</think>\n\n"` (`SeparatorHeadUnique`).
- `generator.dfy` holds `CleanCompletion` and `GenerateResponse`, together with the properties of the trace stripping.
- `server.dfy` holds the handlers `HealthCheck`, `Respond` (the decision once generation has answered) and `CreateTweet` (generation followed by the decision).

`generate_response` tests for `<think>` but splits on `"</think>\n\n"`, so a closing tag followed by a single newline leaves the whole trace in the message (`ThinkBlockKept`, `SingleNewlineKeepsTrace`).

## Model

| member | source | states |
|---|---|---|
| Text.Strip | ai_twitter_bot.py:92 | The result has no whitespace at either end. It is the slice of the input left after whitespace-only margins are removed (`IsStripOf`). |
| Text.StripUnique | ai_twitter_bot.py:92 | The reference definition of stripping has exactly one solution, which is `Strip`, so `Strip` drops neither too much nor too little. |
| Text.StripIdempotent | ai_twitter_bot.py:94 | Stripping an already stripped text changes nothing. |
| Text.IsSpace | ai_twitter_bot.py:92 | The whitespace set of `str.strip()` without arguments: ASCII space, tab, newline, carriage return, vertical tab and form feed are in it, as are U+00A0, U+2028 and U+3000. U+180E, U+200B and U+FEFF are not, and neither are letters or digits. |
| Text.Contains | ai_twitter_bot.py:93 | `"<think>" in message` holds exactly when the marker occurs somewhere in the message. |
| Text.IndexFrom | ai_twitter_bot.py:93 | A result is an occurrence at or after `start`, and no occurrence lies between `start` and it. `None` means nothing occurs at or after `start`. |
| Text.SegmentStart | ai_twitter_bot.py:94 | Scanning left to right and cutting after each occurrence ends at a position where no occurrence starts at or beyond it. That position is the scan start or directly follows an occurrence. |
| Text.LastSegment | ai_twitter_bot.py:94 | `split(sep)[-1]` is a suffix that contains no `sep`, and no occurrence of `sep` starts inside it. It is the whole string when `sep` does not occur; otherwise an occurrence of `sep` directly precedes it. |
| Text.LastSegmentAfterLast | ai_twitter_bot.py:94 | For a separator that cannot overlap itself, the piece `split(sep)[-1]` returns starts right after the last occurrence of `sep`. |
| Text.LastSegmentFollowsLastOccurrence | ai_twitter_bot.py:94 | Every occurrence of such a separator ends before the piece `split(sep)[-1]` returns. |
| Text.InfixTransitive | ai_twitter_bot.py:92-94 | A contiguous piece of a contiguous piece of `s` is a contiguous piece of `s`. |
| Text.InfixKeepsAbsence | ai_twitter_bot.py:94 | Cutting a string down never creates an occurrence it lacked. |
| Generator.SeparatorHeadUnique | ai_twitter_bot.py:94 | The first character of the separator `"</think>\n\n"` appears nowhere else in it, so two occurrences cannot overlap. |
| Generator.CleanCompletion | ai_twitter_bot.py:92-94 | The cleaned message never begins or ends with whitespace, on both paths. It is a contiguous substring of the raw completion, so no character is invented. |
| Generator.GenerateResponse | ai_twitter_bot.py:80-98 | The result is absent exactly when the completion call failed. Otherwise it is a trimmed substring of the completion, possibly empty. |
| Generator.CleanWithoutThink | ai_twitter_bot.py:92-93 | If the stripped completion does not contain `<think>`, the result is exactly the stripped completion. |
| Generator.CleanAfterLastSeparator | ai_twitter_bot.py:93-94 | If the stripped completion contains `<think>` and `"</think>\n\n"`, the result is the stripped text after the last occurrence of the separator. |
| Generator.CleanHasNoSeparator | ai_twitter_bot.py:93-94 | Whenever `<think>` is present, the result contains no `"</think>\n\n"`. |
| Generator.ThinkBlockKept | ai_twitter_bot.py:93-94 | If `<think>` is present but `"</think>\n\n"` is not, the result is the whole stripped completion, trace included, and it still contains `<think>`. |
| Generator.CleanKeepsWholeIff | ai_twitter_bot.py:92-94 | The result equals the stripped completion if and only if `<think>` or the separator is missing. |
| Generator.SingleNewlineKeepsTrace | ai_twitter_bot.py:93-94 | For the completion `"<think>plan</think>\nObey."`, whose closing tag is followed by a single newline, the whole text survives cleaning. |
| Server.Fields | ai_twitter_bot.py:111-146 | The response object starts with a `status` field. `status` is "success" exactly for a posted tweet and "error" exactly for a failure. |
| Server.Truthy | ai_twitter_bot.py:124 | `not tweet_text` is true exactly for `None` and for the empty string, so the generated text is falsy exactly in those two cases. |
| Server.HealthCheck | ai_twitter_bot.py:109-111 | The liveness route answers 200 with `{"status": "healthy"}` and takes nothing from the external services. |
| Server.Respond | ai_twitter_bot.py:124-141 | A `None` or empty text gives 500 "Failed to generate tweet text" with no post. A non-empty text is posted exactly once. A rejected post gives 500 "Failed to post tweet". An accepted post gives 200 with the text echoed. These cases are exhaustive and distinct. |
| Server.CreateTweet | ai_twitter_bot.py:113-141 | A failed completion call gives the generation error and posts nothing. Anything posted is non-empty, trimmed, and a substring of the completion. A success echoes exactly the posted text under `status: success`. |
| Server.BlankCompletionPostsNothing | ai_twitter_bot.py:92-128 | A completion made only of whitespace cleans to the empty string, so the run answers with the generation error and posts nothing. |
| Server.SuccessIff | ai_twitter_bot.py:113-141 | A run answers 200 exactly when the completion call succeeded, the cleaned text is non-empty, and the posting service accepts that text. |

## Left out

- Construction of the Groq and tweepy clients and the network calls themselves (ai_twitter_bot.py:22-33, 83-90, 103). These are foreign library calls. Their outcomes are the inputs `completion` and `publish`.
- The model identifier, the temperature and the `user_input` argument of `generate_response`. They only shape the request, and the completion service is not modelled.
- Loading the environment and `.env` file, and the logging setup and log calls (ai_twitter_bot.py:12-20, 97, 106, 144). This is process I/O.
- The persona prompt, the origin story and the example messages (ai_twitter_bot.py:36-78, 118-121). They are constant data with no behaviour.
- Starlette routing, JSON serialisation, and the uvicorn server with its port parsing (ai_twitter_bot.py:150-165). This is framework plumbing. The JSON object is represented by `Fields`.
- The catch-all branch of `create_tweet` that reports `str(e)` (ai_twitter_bot.py:143-148). Both callees catch every exception themselves, so no input expressible in the model reaches it.
- Strings are modelled as sequences of Unicode scalar values. A Python `str` can also hold lone surrogates. If the completion held one, building the `JSONResponse` at ai_twitter_bot.py:138-141 would raise while encoding the body as UTF-8, after a successful post. The run would then end in the catch-all branch with status 500 and `str(e)`. That path is not modelled.
- Concurrent `/tweet` requests. The handler holds no shared state, and two runs are simply two independent `CreateTweet` results.
- A 280-character limit. The code does not enforce one, so the model does not either.
- LastSegment: for a separator that can overlap itself (`"aaa".split("aa")[-1]` is `"a"`), the contract does not say the piece starts after the last occurrence. It states this only for separators whose occurrences cannot overlap, which covers the one separator the code uses.
- `LastSegment` requires a non-empty separator. Python raises `ValueError` for an empty one, and the code only ever passes the fixed, non-empty `"</think>\n\n"`.
- `IsSpace` lists the characters for which `str.isspace()` holds in the Unicode database of current CPython. Changes to that database across Python versions are not modelled.
