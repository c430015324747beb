# A verified model of the image generator's command-line core

`image-gen/generate.ts` is a one-shot command-line tool. It reads a prompt and a few flags,
checks them, and sends one request to a Gemini image model. It then saves the first image
in the response as `<timestamp>--<slug>.png`, or reports that no image came back. This
project models the logic between those I/O steps and proves properties about it.

| file | module | what it models |
|---|---|---|
| `wrappers.dfy` | `Wrappers` | `Option` (for `undefined`) and `Result` |
| `text.dfy` | `Text` | `startsWith`, `includes`, `join`, ASCII `toLowerCase`, `slice(0, n)` |
| `args.dfy` | `Args` | `parseArgs`: the scanning loop (a method), plus a token-level specification it is proved against |
| `slug.dfy` | `Slugs` | `slugify`: lowercase, collapse the runs of `[^a-z0-9]`, strip the hyphens at the ends, cut to 45 |
| `request.dfy` | `Requests` | the aspect-ratio and MIME tables, POSIX `path.extname`, and the validation chain that builds the request parts |
| `hints.dfy` | `Hints` | the advice chosen after a failed model call |
| `response.dfy` | `Responses` | the nested first-image scan (a method with `saved` and `break`), the text fallback, and the file name |
| `generate.dfy` | `Generate` | `main` end to end, with the outside world passed in as parameters |

Everything `main` takes from outside comes in as a parameter:
- The environment variable `GEMINI_API_KEY` is an `Option<string>`.
- The file system is a map from each existing path to its contents, already in base64.
- The clock is the `toISOString()` string.
- The model call is a function from the request to either a thrown message or a response.

Each `process.exit(1)` becomes an outcome variant. Exit status 0 results only when an image
was saved.

JavaScript truthiness is modelled case by case:
- An empty prompt counts as missing.
- An API key that is unset or empty counts as missing.
- A `--ref ""` means no reference image.
- An image part counts only if its `inlineData.data` is non-empty.
- A text part counts only if its `text` is non-empty.

The source has three behaviours that are easy to miss. The model keeps all three, and
lemmas state them:
- An entry starting with `--` always takes the next entry as its value, even when that entry
  starts with `--` too. A `--x` in last position stays positional text, so it becomes part
  of the prompt. See `Args.TokenAt` and `Args.LastEntryNeverNamesFlag`.
- `slugify` cuts to 45 characters after stripping hyphens, so a slug can end in `-`.
  `Slugs.SlugEndsWithHyphen` says exactly when this happens. `Slugs.TruncationCanLeaveHyphen`
  gives a family of prompts where it does. `Slugs.SlugifyIdempotent` shows this is the only
  case in which slugifying a slug changes it.
- The text fallback looks only at the first candidate, even when later candidates carry
  text (`Responses.FallbackLooksOnlyAtFirstCandidate`).

## Model

| member | source | states |
|---|---|---|
| `Text.Contains` | image-gen/generate.ts:192-197 | `includes` holds exactly when the substring occurs at some offset |
| `Text.Join` | image-gen/generate.ts:67 | a non-empty list joins to its summed lengths plus one separator between each neighbouring pair, and starts with the first string |
| `Text.JoinIsEmpty` | image-gen/generate.ts:67 | joining with a non-empty separator gives `""` exactly for `[]` and `[""]` |
| `Text.Lower` | image-gen/generate.ts:79 | lowercasing keeps the length |
| `Text.LowerMapsCapitals` | image-gen/generate.ts:79 | each `A`-`Z` becomes the letter 32 code points on, every other character is kept, and no capital is left |
| `Text.Take` | image-gen/generate.ts:82 | `slice(0, n)` is the prefix of length `min(n, length)` |
| `Args.Tokens` | image-gen/generate.ts:57-64 | each token reads one or two entries: there are at most as many tokens as entries and at least half as many |
| `Args.ArgsOf` | image-gen/generate.ts:66-72 | `refPath` is absent exactly when no `--ref` flag was read; `size`, `model` and `out` are `16:9`, `gemini-3-pro-image-preview` and `./output` when their flag was never read |
| `Args.ArgsFrom` | image-gen/generate.ts:66-72 | `refPath` is the dictionary's `ref` entry, if any; `size`, `model` and `out` take their defaults when their key is missing from the dictionary |
| `Args.ParseArgs` | image-gen/generate.ts:53-73 | the loop with its index skip, filling the flag dictionary and the positional list, gives exactly the record specified over the token reading of `argv` |
| `Args.TokensReadEveryEntryOnce` | image-gen/generate.ts:57-64 | every entry lands in exactly one role, in order: spelling the tokens back gives `argv` |
| `Args.TokenAt` | image-gen/generate.ts:58-62 | the token read at an entry is a flag named by the entry minus `--`, taking the next entry as its value, exactly when the entry starts with `--` and has a successor; otherwise it is positional |
| `Args.LastEntryNeverNamesFlag` | image-gen/generate.ts:58 | the last entry is positional text or the value of the flag before it, never a flag name |
| `Args.FlagMapHasName` | image-gen/generate.ts:59 | a name is in the flag dictionary exactly when some flag token carries it |
| `Args.FlagMapLastWins` | image-gen/generate.ts:59 | a repeated flag keeps the value of its last occurrence |
| `Args.ArgsSettings` | image-gen/generate.ts:59-71 | a flag read one or more times sets its field (`refPath`, `size`, `model`, `outDir`) to the value of its last occurrence |
| `Args.PositionalsInOrder` | image-gen/generate.ts:62 | the positional list holds exactly the texts of the positional tokens |
| `Args.PositionalsOfAppend` | image-gen/generate.ts:62 | the positional list keeps `argv` order: the positionals of a concatenation are those of each part, in sequence |
| `Args.PromptIsEmpty` | image-gen/generate.ts:67 | the prompt is empty exactly when there is no positional entry, or a single empty one |
| `Slugs.Collapse` | image-gen/generate.ts:80 | collapsing never lengthens the text, and gives the empty string only for the empty input |
| `Slugs.CollapseShape` | image-gen/generate.ts:80 | the collapsed text has only `[a-z0-9-]` and never `--`, and starts with `-` exactly when the input starts with a separator |
| `Slugs.CollapseAppend` | image-gen/generate.ts:80 | no separator run straddles a boundary just after a letter or digit: the text collapses piece by piece |
| `Slugs.CollapseOfRun` | image-gen/generate.ts:80 | a separator run followed by a word start, or by nothing, becomes exactly one `-` |
| `Slugs.CollapseSeparatorRun` | image-gen/generate.ts:80 | a separator run of any length between a word end and a word start becomes exactly one `-`, and the text on either side collapses on its own |
| `Slugs.TwoWordCollapse` | image-gen/generate.ts:80 | two words with a punctuation run between them and another after them collapse to the words joined by `-`, with one `-` at the end |
| `Slugs.TrimStart` | image-gen/generate.ts:81 | removes exactly the leading hyphens: the result is a suffix that does not start with `-` |
| `Slugs.TrimEnd` | image-gen/generate.ts:81 | removes exactly the trailing hyphens: the result is a prefix that does not end with `-` |
| `Slugs.TrimmedIsSlugSafe` | image-gen/generate.ts:81 | trimming the hyphens off both ends of a text with only `[a-z0-9-]` and no `--` leaves one with no hyphen at either end, and the other two properties kept |
| `Slugs.NormalizedIsSlugSafe` | image-gen/generate.ts:78-81 | before the cut, the text has slug characters only, no `--`, and no hyphen at either end |
| `Slugs.Slugify` | image-gen/generate.ts:77-83 | the slug is never longer than `maxLen` |
| `Slugs.SlugifyShape` | image-gen/generate.ts:77-83 | the slug is at most `maxLen` long, has only `[a-z0-9-]`, never contains `--`, never starts with `-`, and is a prefix of the normalized text |
| `Slugs.SlugEndsWithHyphen` | image-gen/generate.ts:81-82 | the slug ends in `-` exactly when the cut falls inside the normalized text just after a hyphen |
| `Slugs.CollapseKeepsAlnum` | image-gen/generate.ts:80 | collapsing the separators keeps every letter and digit, in order |
| `Slugs.NormalizedKeepsAlnum` | image-gen/generate.ts:78-81 | before the cut, the letters and digits are exactly those of the lowercased text, in order |
| `Slugs.SlugifyFixpoint` | image-gen/generate.ts:77-83 | a slug-safe string no longer than `maxLen` is its own slug |
| `Slugs.SlugifyIdempotent` | image-gen/generate.ts:77-83 | slugifying a slug again changes it exactly when the slug ends in `-` |
| `Slugs.TwoWordSlug` | image-gen/generate.ts:77-83 | two words of letters and digits, a run of spaces or punctuation between them and another after them slugify to `w1-w2` when that fits in `maxLen`, as `hero banner!!` gives `hero-banner` |
| `Slugs.SpacedWordsNormalized` | image-gen/generate.ts:78-81 | two words with one space between them normalize to the words joined by `-` |
| `Slugs.TruncationCanLeaveHyphen` | image-gen/generate.ts:81-82 | a word of `maxLen - 1` letters or digits, a space and another word slugify to that word followed by `-` |
| `Requests.BuildRequest` | image-gen/generate.ts:111-164 | a request is built only when the prompt, key and size are valid; it keeps the model and size; without a reference its parts are exactly `[Text(prompt)]`; with one they are the file's data with its MIME type, then one text ending with the prompt |
| `Requests.ValidationFollowsCheckOrder` | image-gen/generate.ts:111-151 | the request is built exactly when all five checks pass; otherwise the error is that of the first failing check, in the order prompt, key, size, reference file, extension |
| `Requests.AspectRatioAccepted` | image-gen/generate.ts:130-134 | given a prompt and a key, the size is rejected exactly when it is none of `1:1`, `16:9`, `9:16`, `4:3`, `3:4` |
| `Requests.MimeType` | image-gen/generate.ts:35-41 | a MIME type is found exactly for `.jpg`, `.jpeg`, `.png`, `.webp` and `.gif`, and it is always one of the four image types |
| `Requests.MimeTypeTable` | image-gen/generate.ts:35-41 | `.jpg` and `.jpeg` both map to `image/jpeg`, and `.png`, `.webp`, `.gif` each to its own type |
| `Requests.ReferenceExtension` | image-gen/generate.ts:145 | the lookup key is as long as `path.extname`; it is empty or a dot followed by no `/` and no further dot; it holds no capital letter |
| `Requests.Extname` | image-gen/generate.ts:145 | `path.extname` is empty, or it is a dot followed by characters with no `/` and no further dot |
| `Requests.ExtnameOfFileName` | image-gen/generate.ts:145 | for a last component with a non-initial last dot, the extension runs from that dot to the end |
| `Requests.ExtnameWithoutInnerDot` | image-gen/generate.ts:145-151 | a last component with no dot after its first character (`photo`, `.env`) has the empty extension |
| `Requests.ReferenceExtensionIsLowercased` | image-gen/generate.ts:145-146 | the lookup key is the dot followed by the lowercased extension |
| `Hints.ClassifyHint` | image-gen/generate.ts:192-199 | a hint is given only when one of its markers occurs and, for the model and safety hints, no marker of a higher category does; no hint is given exactly when no marker occurs |
| `Hints.ClassifyHintFollowsPriority` | image-gen/generate.ts:192-199 | the hint is the first category, in the order key, model, safety, whose markers occur in the message |
| `Hints.ClassifyHintSound` | image-gen/generate.ts:192-199 | each hint is given exactly when its markers occur and no higher-priority category's do; no hint is given exactly when no marker occurs |
| `Hints.NotFoundHint` | image-gen/generate.ts:194-196 | a message containing `404` and no `API_KEY` gets the model-availability hint |
| `Responses.FirstText` | image-gen/generate.ts:234-236 | the text found is never empty |
| `Responses.FallbackText` | image-gen/generate.ts:232-236 | the fallback is absent exactly when there is no candidate or the first candidate has no part with text; otherwise it is the non-empty text of one of the first candidate's parts |
| `Responses.Timestamp` | image-gen/generate.ts:218 | the timestamp is the first 19 characters, with `:` and `.` replaced by `-`, so it contains neither |
| `Responses.Extract` | image-gen/generate.ts:204-243 | an image is saved exactly when some part has non-empty inline data; the data saved is that of the first such part, in candidate order and then part order, under `FileName(now, prompt)` in the output directory; otherwise the text reported is the fallback text of the first candidate |
| `Responses.FirstImageUnique` | image-gen/generate.ts:208-211 | there is exactly one first image position, so the image saved is determined |
| `Responses.FirstTextIsFirst` | image-gen/generate.ts:234-236 | the fallback is absent exactly when no part has text; otherwise it is the text of a part with text, and no earlier part has text |
| `Responses.FallbackLooksOnlyAtFirstCandidate` | image-gen/generate.ts:234 | the candidates after the first never affect the fallback text |
| `Responses.TimestampOfInstant` | image-gen/generate.ts:218 | for an ISO instant `YYYY-MM-DDTHH:MM:SS.mmmZ`, the timestamp is `YYYY-MM-DDTHH-MM-SS`, with no `/` |
| `Responses.FileName` | image-gen/generate.ts:218-220 | the name is as long as the timestamp, `--`, the slug and `.png` together, starts with the timestamp, ends with `.png`, and holds no `:` |
| `Responses.FileNameLayout` | image-gen/generate.ts:218-220 | the file name splits back into the timestamp, `--`, the prompt's slug and `.png`; it is at most 70 characters and the slug part uses only `[a-z0-9-]` |
| `Generate.ExitCode` | image-gen/generate.ts:242 | the exit status is 0 exactly for a saved image, and 1 otherwise |
| `Generate.Run` | image-gen/generate.ts:108-244 | a validation error stops the run before any request is sent; a sent request is exactly what validation built; a thrown call reports the model, the message and the classified hint, with `gemini-2.5-flash-image` suggested exactly for the model-availability hint; a response with an image saves the first one under `FileName(now, prompt)` in the output directory; a response without one reports exactly the first candidate's fallback text; exit status 0 means an image was saved |
| `Generate.SentRequestPassedChecks` | image-gen/generate.ts:111-151 | a request is sent only after every check has passed, and it carries the parsed model |

## Left out

- `image-gen/brand.ts` has no logic and `generate.ts` does not import it. The behaviour described around it is not in the code either: no content types, brand text, per-type sizes or `--no-brand`.
- The Gemini client (`GoogleGenAI`, `generateContent`) is foreign network code. Its result, a thrown message or a response, is the `generate` parameter of `Generate.Run`. The response's datatypes keep only the fields the code reads. A candidate without content, or content without parts, has no parts, as the optional chaining at lines 209 and 234 reads them (`Responses.PartsOf`); a `null` and a missing value are the same `None` here, and a `null` candidate reads like one without content. A `null` part, which makes the source throw at line 210 or 235, is not representable.
- `dotenv` and `process.env` are left out. The key is a parameter.
- The file system is left out:
  - `existsSync` and `readFileSync` become a map from path to base64 contents.
  - A path that exists but cannot be read (a directory, say), which throws in the source, is not modelled.
  - `mkdirSync`, `writeFileSync` and the `path.join` of the output path are not modelled. The outcome carries the directory and the file name instead.
- `Buffer` base64 encoding and decoding are not modelled. Image data stays as the opaque base64 string.
- `new Date()` is left out. Its `toISOString()` string is a parameter.
- `console` output, `printUsage` text and the log lines (including the 90-character prompt preview) are text output only and are not modelled. The usage, key and format errors are outcomes, not messages.
- `process.exit` is represented by the outcome variants and `Generate.ExitCode`. The top-level `main()` call and its unhandled promise are not modelled.
- `Text.Lower`: lowercases ASCII `A`-`Z` only. JavaScript's `toLowerCase` also maps non-ASCII letters, some of them to ASCII letters, which the slug would then keep.
- `Slugs.Slugify`: `maxLen` is a natural number. The only call site uses the default of 45, and a negative `slice` bound is not modelled.
- `Requests.BuildRequest`: the two `parts.push` calls are modelled as the sequence they produce, because no loop is involved. Its contract gives the text part as ending with the prompt. The fixed style instruction in front is in the function's definition, not its contract.
- `Requests.Extname`: models the POSIX `path.extname` of Node on the character level. Windows path rules are not modelled.
- Flag names such as `__proto__` have JavaScript object-key quirks, which are not modelled. Only `ref`, `size`, `model` and `out` are ever read back.
