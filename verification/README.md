# QuizCraft question handler, modelled in Dafny

QuizCraft turns a video's transcript into a multiple-choice quiz. Its only
logic is the `POST` handler of `src/app/api/questions/route.ts`. The handler
runs these steps in order:

1. It fetches the transcript segments for the requested URL.
2. It joins the segment texts with single spaces.
3. It builds a prompt: a fixed instruction, a blank line, then the transcript.
4. It asks the Gemini model for a completion.
5. It strips code-fence markers from the completion with a regular expression and trims it.
6. It parses the result with `JSON.parse`.
7. It answers 200 with `{ quizQuestions }`.

If the completion does not parse, the answer is still 200, with an empty list.
If the transcript service or the generation service fails, the answer is 500
with the fixed message "Failed to generate quiz questions".

The model is pure Dafny over `seq<char>` strings, in six modules:

- `Wrappers` (`wrappers.dfy`): the `Option` and `Result` datatypes.
- `Transcript` (`transcript.dfy`): the segment datatype and the join with `" "`. `Split` is a reference inverse of the join.
- `Prompt` (`prompt.dfy`): the instruction text, the prompt builder, and `TranscriptOf` as its inverse.
- `Whitespace` (`whitespace.dfy`): `String.prototype.trim` over the ECMAScript white space and line terminator code points.
- `Sanitizer` (`sanitizer.dfy`): the global replacement of ``/```json\n?|\n?```/g`` as a left-to-right scan, followed by trim. The scan tries four literal alternatives in the matcher's order at each position: "```json\n", "```json", "\n```", "```". The first match is dropped; if nothing matches, one character is kept. `FirstMatch` states this reading over the four strings. `MatchLength` is the same matcher written as character tests, and the scan uses it. `Scan` records the steps as `Kept`/`Removed` pieces, so the proofs can state what is removed. `ReplaceFences` runs the same scan as a loop.
- `Pipeline` (`pipeline.dfy`): the handler as the function `Handle`. The transcript service, the `generateContent` call, the response's `text()` and `JSON.parse` are all function parameters. The handler also reports the prompts it sent to the generation service. This is how the model states that a failed fetch sends no prompt.

## Model

| member | source | states |
|---|---|---|
| Transcript.Assemble | src/app/api/questions/route.ts:13 | An empty segment list gives the empty string. One segment gives its text unchanged. |
| Transcript.AssembleLayout | src/app/api/questions/route.ts:13 | For n ≥ 1 segments, the transcript's length is the sum of the text lengths plus n − 1. Segment k's text appears verbatim at its offset, and a single space follows it unless it is the last segment. The texts keep their original order. |
| Transcript.Join | src/app/api/questions/route.ts:13 | The empty list joins to the empty string. A non-empty list joins to a string exactly as long as its texts together plus one separator between each pair of neighbours. |
| Transcript.JoinLayout | src/app/api/questions/route.ts:13 | In the joined string, each text starts at its offset (the lengths of all earlier texts plus one space for each of them), and a space follows every text except the last. |
| Transcript.JoinSplit | src/app/api/questions/route.ts:13 | Splitting any string at its spaces and joining the pieces with " " gives the string back. |
| Transcript.SplitJoin | src/app/api/questions/route.ts:13 | If no text contains a space, splitting the join of a non-empty list gives the list back. So the join loses no text and reorders nothing. |
| Transcript.AssembleThree | src/app/api/questions/route.ts:13 | Three segments assemble to their texts in order with one space between each neighbouring pair. |
| Transcript.AssembleThreeSegments | src/app/api/questions/route.ts:13 | The segments "Intro ", "middle part " and "end." assemble to "Intro  middle part  end.". Trailing spaces already in a segment are kept next to the added separator. |
| Prompt.BuildPrompt | src/app/api/questions/route.ts:16 | The prompt is the fixed instruction, then "\n\n", then the transcript text unchanged. Its length is the header length plus the transcript length. |
| Prompt.PromptRoundTrip | src/app/api/questions/route.ts:16 | A string is the prompt for transcript t exactly when `TranscriptOf` recovers t from it. |
| Prompt.PromptInjective | src/app/api/questions/route.ts:16 | Different transcripts give different prompts. The header in front does not depend on the transcript. |
| Whitespace.TrimStart | src/app/api/questions/route.ts:25 | The result is a suffix of the input. Only white space was removed, and the result does not start with white space. |
| Whitespace.TrimEnd | src/app/api/questions/route.ts:25 | The result is a prefix of the input. Only white space was removed, and the result does not end with white space. |
| Whitespace.Trim | src/app/api/questions/route.ts:25 | The result is no longer than the input, and it neither begins nor ends with white space. |
| Whitespace.TrimBounds | src/app/api/questions/route.ts:25 | The result is an infix of the input with only white space cut off on either side. |
| Whitespace.TrimUnique | src/app/api/questions/route.ts:25 | Any infix with only white space cut off and no white space at its ends is the trimmed string. |
| Whitespace.TrimKeepsTrimmed | src/app/api/questions/route.ts:25 | A string with no white space at either end is left unchanged. |
| Whitespace.TrimIdempotent | src/app/api/questions/route.ts:25 | Trimming twice gives the same result as trimming once. |
| Sanitizer.FirstMatchFrom | src/app/api/questions/route.ts:24 | Returns the earliest alternative, in pattern order, that matches at the start of the text. No earlier alternative matches. None means that no alternative matches. |
| Sanitizer.FirstMatch | src/app/api/questions/route.ts:24 | The chosen match is one of the four non-empty fence alternatives and really is a prefix of the text. It is the alternative at some index k, and no alternative before index k matches. If nothing is chosen, no alternative matches. |
| Sanitizer.MatchLength | src/app/api/questions/route.ts:24 | The match never runs past the end of the text. Every match holds three backticks, either at its start or right after a leading newline. |
| Sanitizer.MatchLengthAgrees | src/app/api/questions/route.ts:24 | The character-level matcher the scan uses removes nothing exactly when no alternative matches. Otherwise it removes exactly the first alternative, in pattern order, that matches. |
| Sanitizer.Scan | src/app/api/questions/route.ts:24 | The scan has at most one piece per input character. Putting its kept characters and removed matches back together in order gives exactly the input, so nothing is substituted or reordered. |
| Sanitizer.ScanIsLeftmost | src/app/api/questions/route.ts:24 | The scan is a leftmost, first-alternative tokenisation of the input, and it is the only one. At every position the scan reaches, a matching alternative is removed, so interior fences are removed as well as leading and trailing ones. |
| Sanitizer.ScanRemovesOnlyFences | src/app/api/questions/route.ts:24 | Every removed piece is one of the four fence tokens. |
| Sanitizer.ReplaceFences | src/app/api/questions/route.ts:24 | The cursor loop, which skips each match and copies every other character, computes the kept text of the scan. |
| Sanitizer.StripFences | src/app/api/questions/route.ts:24 | Removing the matches never makes the text longer. |
| Sanitizer.StripFencesWithoutBacktick | src/app/api/questions/route.ts:24 | Text without a backtick has nothing removed. |
| Sanitizer.Sanitize | src/app/api/questions/route.ts:23-25 | The output is never longer than the input, and it neither begins nor ends with white space. |
| Sanitizer.SanitizeKeepsUnmatched | src/app/api/questions/route.ts:23-25 | Take any tokenisation of the input that follows the pattern leftmost and first-alternative first. Its pieces render back to the input, and the output is its kept characters, in their original order, trimmed at both ends. |
| Sanitizer.SanitizeWithoutBacktick | src/app/api/questions/route.ts:23-25 | Input without a backtick is only trimmed. If it also has no white space at either end, it is returned unchanged. |
| Sanitizer.StripFencesOpeningJsonFence | src/app/api/questions/route.ts:24 | An opening "```json" fence with its newline is removed, whatever follows it. |
| Sanitizer.StripFencesClosingFence | src/app/api/questions/route.ts:24 | A closing "```" on its own line is removed together with the newline before it. |
| Sanitizer.StripFencesOtherFence | src/app/api/questions/route.ts:24 | A fence not followed by `json` loses only its three backticks. Any other tag stays in the text. |
| Sanitizer.StripFencesNoBacktickPrefix | src/app/api/questions/route.ts:24 | Text without backticks is kept unchanged, as long as what follows it does not start with a backtick. |
| Sanitizer.SanitizeJsonFenced | src/app/api/questions/route.ts:23-25 | A completion that is a json-tagged code block around a body without backticks sanitizes to the trimmed body. |
| Sanitizer.SanitizeOtherFenced | src/app/api/questions/route.ts:23-25 | A code block whose tag does not begin with `json`, or that has no tag, sanitizes to its tag line and body, trimmed: only the json tag is part of the pattern. |
| Sanitizer.SanitizeJsonFence | src/app/api/questions/route.ts:23-25 | "```json\n[1,2]\n```" sanitizes to "[1,2]". |
| Sanitizer.SanitizeOtherTag | src/app/api/questions/route.ts:24 | Only the json tag is part of the pattern: "```js\n[1]\n```" sanitizes to "js\n[1]". |
| Sanitizer.SanitizeNotIdempotent | src/app/api/questions/route.ts:23-25 | "``\n````" sanitizes to "```", and sanitizing that gives "". So sanitizing is not idempotent. |
| Pipeline.ParseOrDegrade | src/app/api/questions/route.ts:20-31 | The question list is empty exactly when the sanitized text does not parse or parses to the empty array. A value the parser returns is passed on unchanged. |
| Pipeline.PromptFor | src/app/api/questions/route.ts:13-16 | The assembled transcript can be read back from the prompt. |
| Pipeline.Handle | src/app/api/questions/route.ts:11-38 | The status is 200 or 500. It is 500 exactly when the transcript fetch, the generation call or `text()` fails, and then the body is exactly `{error: "Failed to generate quiz questions"}`. If the fetch fails, no prompt is sent. Otherwise exactly one prompt is sent: the one built from the assembled transcript. A 200 carries the parsed or degraded question list. |
| Pipeline.FetchFailureShortCircuits | src/app/api/questions/route.ts:12-38 | If the fetch fails, the answer is the failure answer and no prompt is sent, whatever the generation service and the parser would have done. |
| Pipeline.ParsedOrDegradedAnswer | src/app/api/questions/route.ts:18-32 | Once both services answer, the response is 200 carrying the parse-or-degrade of the sanitized completion. |
| Pipeline.MalformedCompletionDegrades | src/app/api/questions/route.ts:21-32 | If the sanitized completion does not parse, the answer is 200 with an empty question list, never 500. |
| Pipeline.ParsedValuePassesThrough | src/app/api/questions/route.ts:21-32 | If the sanitized completion parses to v, the answer is 200 carrying exactly v. Its shape is not checked. |
| Pipeline.CleanCompletionParsedAsIs | src/app/api/questions/route.ts:23-26 | A completion with no backtick and no white space at either end reaches the parser unchanged. |

## Notes on the code

- The fence replacement is global and unanchored: it removes fences inside the text as well as a leading and a trailing one (`Sanitizer.ScanIsLeftmost`).
- Sanitizing is not idempotent: `Sanitizer.SanitizeNotIdempotent` gives an input on which a second pass removes more.
- The handler does not check the shape of the parsed value: nothing demands that each question has four options or that `correctAnswer` is one of them. `Pipeline.ParsedValuePassesThrough` states that any parsed value is passed through.

## Left out

- `src/app/page.tsx`: the React page (form, state hooks, rendering, the client-side `Array.isArray` guard) is presentation code and is not modelled.
- The transcript service (`YoutubeTranscript.fetchTranscript`), `generateContent` and `response.text()` are network clients. They are parameters returning `Result`, so any success or failure they could produce is covered.
- `JSON.parse` is an opaque parameter returning `Option<Json>`. The JSON grammar of RFC 8259 is not modelled.
- Request-body parsing (route.ts:8-9) happens outside the `try`. A malformed body there is not turned into the 500 answer. The URL is a plain parameter of `Handle`.
- `getGenerativeModel({ model: "gemini-pro" })` (route.ts:15) and the hard-coded API key (route.ts:5) are configuration. Neither can fail in the handler's logic.
- `console.error`/`console.log`, `async`/`await` and the `NextResponse` transport are not modelled. The answer is a status code and a JSON value.
- The segments' `offset` and `duration` fields are carried in the datatype but have no role in the handler.
- Strings are sequences of Unicode scalar values, while JavaScript strings are sequences of UTF-16 code units. The fence tokens are ASCII, and every white space code point `trim` removes lies in the Basic Multilingual Plane. So both readings give the same results for the operations modelled here.
- Pipeline.Handle: its contract states only that a 200 answer carries the parse-or-degrade of some sanitized completion. Which completion it is gets stated by `Pipeline.ParsedOrDegradedAnswer`, `Pipeline.MalformedCompletionDegrades` and `Pipeline.ParsedValuePassesThrough`.
