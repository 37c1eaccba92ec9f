# personal-bot: the turn handler and topic guard of `server.js`

The relay takes a recorded question from the browser over a WebSocket. It transcribes the
question with a speech-to-text service and checks it against a topic guard. An in-scope
question goes to a chat-completion model; any other question gets a fixed refusal. The
answer is spoken by a text-to-speech service, and one message goes back on the socket:
either `{transcript, botResponse, audioData}` or `{error}`.

This project models the two parts of `server.js` that carry logic:

- **The topic guard** `isQuestionRelatedToSanjay` (module `TopicGuard`). It is built on
  models of the JavaScript built-ins it uses (module `JsString`): `toLowerCase`,
  `includes` and `trim`.
- **The per-message turn** of the `ws.on('message')` handler (module `Turn`, with the
  audio stream in module `Speech`). The three remote services are inputs: each one is
  given by the `Outcome` it would produce, either `Ok(value)` or `Err(Failure(message,
  responseData))`. The handler returns the reply it sends and the final conversation
  history. It also returns a log of the calls it made, in order, with their arguments.
  That log lets the contract say which services were called, in what order and with what.

`HandleMessage` is written the way the handler runs. It pushes onto a history
sequence. It returns early where the source throws into its `catch`. It drains the audio
stream with a loop (`Speech.ReceiveSpeech`) before concatenating the chunks. The source
repeats the synthesis code in both guard branches; those two copies are identical apart
from a latency log, so the model has one copy after the branch.

## Model

| member | source | states |
|---|---|---|
| `JsString.Lower` | server.js:161 | `toLowerCase` keeps the length and lower-cases each character: ASCII capitals, and U+212A KELVIN SIGN to `k` |
| `JsString.IncludesIff` | server.js:162 | `s.includes(t)` is true exactly when `t` occurs in `s` as a contiguous substring, in both directions |
| `JsString.LeadingSpaceSpec` | server.js:82 | the count of leading white space covers only white space and stops at the first other character |
| `JsString.TrailingSpaceSpec` | server.js:82 | the count of trailing white space covers only white space and stops at the last other character |
| `JsString.TrimSpec` | server.js:82 | `trim()` returns the slice of its input that is left after removing ECMAScript white space and line terminators at both ends; the result neither starts nor ends with one |
| `JsString.TrimIdempotent` | server.js:82 | trimming an already trimmed answer changes nothing |
| `TopicGuard.SomeKeywordIncludedIff` | server.js:162 | `keywords.some(k => s.includes(k.toLowerCase()))` holds exactly when some keyword of the list, lower-cased, is a substring of `s` |
| `TopicGuard.GuardSpec` | server.js:158-163 | the guard is true exactly when one of the nine keywords, lower-cased, is a substring of the lower-cased transcript; there is no word-boundary check |
| `TopicGuard.GuardIgnoresCase` | server.js:161-162 | two transcripts that differ only in letter case are classified the same |
| `TopicGuard.GuardIgnoresCaseOf` | server.js:161-162 | a transcript, its ASCII upper-cased form and its lower-cased form are classified the same |
| `TopicGuard.KeywordInScope` | server.js:160-162 | a transcript that contains any keyword, written as in the list, is in scope |
| `TopicGuard.GuardMonotone` | server.js:160-162 | any string that contains an in-scope transcript is in scope |
| `GuardExamples.NoWordBoundary` | server.js:160-162 | "Why are you so stubborn?" is in scope, because it contains "born" |
| `TopicGuard.OutOfScopeWithoutLetters` | server.js:160-162 | every keyword has one of b, c, j, p, x, so a transcript with none of these letters in either case is out of scope |
| `GuardExamples.BirthdayQuestionInScope` | server.js:158-163 | "What is Sanjay's birthday?" is in scope |
| `GuardExamples.WeatherQuestionOutOfScope` | server.js:158-163 | "What's the weather today?" is out of scope |
| `Speech.Concat` | server.js:103 | `Buffer.concat` yields a buffer whose length is the sum of the chunk lengths |
| `Speech.ConcatAppend` | server.js:103 | concatenating two runs of chunks equals concatenating each run and joining the results |
| `Speech.ConcatChunkAt` | server.js:99-103 | chunk k appears in the buffer, unchanged, right after the bytes of chunks 0..k-1, so arrival order is kept |
| `Speech.ReceiveSpeech` | server.js:95-103 | a failed synthesis request gives its error; a stream that breaks gives its error and no bytes; otherwise the result is the in-order concatenation of all chunks |
| `Turn.AnswerQuestion` | server.js:63-116 | in scope, the generator is called once with the history and its reply is trimmed, or its error is passed on; out of scope, nothing is called and the answer is the refusal string |
| `Turn.Respond` | server.js:62-140 | after the question is recorded: out of scope, the refusal is recorded and synthesised and nothing else is called; in scope, the generator is called first with the history, a generator error ends the turn with no assistant entry and no synthesis, and otherwise the trimmed reply is recorded and synthesised; the reply is a result exactly when no stage failed, carrying the transcript, the recorded answer and all the audio |
| `Turn.HandleMessage` | server.js:35-151 | absent or empty audio gives "No audio data received" with no call and no history change. Transcription is called first, and its failure leaves the history unchanged. Out of scope, the only calls are transcription and synthesis of the refusal. In scope, the generator gets the history with the question already appended. A successful turn appends exactly `{user, transcript}` then `{assistant, botResponse}` and keeps every earlier entry. The spoken text is the `botResponse` that is sent back. The audio is the concatenation of all chunks. A reply is a result exactly when no stage failed. Otherwise it is one error, built from the failing stage's response data when present and from its message otherwise |

## Left out

- The Express app, the static routes and `app.listen` (server.js:8-28) are HTTP plumbing.
- The WebSocket server and the connection lifecycle (server.js:30-33, 153-155) are left out. So is the chance that two turns on one connection overlap while their remote calls are pending: that is concurrency, and the model handles one message at a time.
- The remote services are not modelled. This covers the axios and Polly calls, the credentials loaded by dotenv and the TLS agent that skips certificate checks (server.js:3-6, 11-17, 49-54, 66-79, 95). Each service is an `Outcome` input. A malformed response that makes the source throw a `TypeError` is an `Err` outcome without response data. An example is a response without `choices[0].message.content`.
- A transcription response without the `transcript` field is treated as a failed transcription (`Err`). In the source, `undefined` is then pushed as the user entry, and the guard throws on `toLowerCase`. That entry is never seen: the history is local to the handler and the generator is not reached. So the reply and the calls are the same as in the model.
- Base64 decoding of the inbound audio and encoding of the outbound audio are left out (section 4 of RFC 4648, done by Node's `Buffer`; server.js:48, 111, 139). So are `JSON.parse` and `JSON.stringify`. The model records the audio text handed to transcription, and it returns the raw bytes of the result.
- A message that `JSON.parse` rejects is left out, and so is one that parses to something other than an object, such as `null`, where the destructuring at server.js:38 throws. Both throws happen before the `try` and inside an `async` listener, so the promise is rejected with no handler. Since Node 15 an unhandled rejection stops the process by default. That drops every connection, which is worse than sending no reply. A history that is not an array is left out too. The model's history is always a sequence of entries.
- A truthy `audioData` that is not a string is left out, because the model's audio is an optional string. A number, `true` or a plain object makes `Buffer.from` throw at server.js:48, so the source sends an error reply and calls nothing. An array is sent to transcription as raw bytes.
- `!audioData` is modelled for a string that is absent or empty. Other falsy JSON values (`null`, `false`, `0`) count as absent.
- The error text uses `responseData` as the text that the template literal prints. A JSON object payload would print as `[object Object]` in the source; the model takes the already-rendered text.
- `JsString.Lower` does not model Unicode case mapping beyond ASCII and U+212A KELVIN SIGN. Those are the only mappings that yield the ASCII letters used by the keywords. The one exception is U+0130, which lowers to `i` followed by U+0307. No keyword has an `i` followed by that combining mark, so this cannot create a match.
- Streamed chunks are read in full before a break is noticed. The model gives a stream as its chunks plus an optional final error. Chunks after a break are never read, so this form loses nothing.
- A remote call that never settles is left out. The source sets no timeout, so a hung transcription, generation or synthesis call leaves the turn without a reply. `Turn.HandleMessage` always returns a reply, because an `Ok`/`Err` outcome cannot express a call that hangs.
- Latency timing with `Date.now()` and the console logging (server.js:39, 105-106) are side effects only.
- static/scripts.js is browser UI: capture, playback and the client-side history reset. testapis.js is a set of smoke tests against live APIs. Neither holds logic of the core.
