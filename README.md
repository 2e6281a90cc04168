# Pre-PR HTTP test harness: argument parsing and request shaping

`workflows/pre-pr/scripts/test-harness.js` is a small command-line HTTP
client. It is used before a pull request to probe a running service. This
project models the parts of it that compute something:

- **`parseArgs`** reads the command-line tokens two at a time (`--flag
  value`) into a configuration record. It starts from the defaults: method
  `GET`, path `/`, no body, no headers, base URL `http://localhost:3000` and
  a timeout of 10000 ms. Unknown flags are skipped together with the token
  after them. A later occurrence of a flag overwrites an earlier one.
  `--header "Name: value"` is split on every `:`. The first two pieces are
  trimmed and become the header's name and value; any further pieces are
  dropped. A header with no value or no colon throws. Modelled as the imperative
  method `ArgParser.ParseArgs`, proved equal to the recursive specification
  `ArgParser.Parsed`, which carries the lemmas.
- **Request options in `makeRequest`**: the `https` or `http` client, the
  port with its default (443 or 80), the request path (`pathname +
  search`), and the header merge. The JSON content type is a default that
  the configured headers override. A numeric `Content-Length` holding the
  body's UTF-8 byte count is added when the body is truthy. Modelled by
  `RequestOptions.BuildOptions` and `RequestOptions.Payload`, with a UTF-8
  encoder and decoder in module `Utf8`.
- **The reported body in `main`**: `result.json || result.body`. Modelled
  by `ResponseBody.ReportedBody`.

Modules:

- `JsStrings` holds the two JavaScript string operations the parser needs:
  `trim`, using the ECMAScript white-space and line-terminator set, and
  `split` on one character.
- `Wrappers` holds `Option` and `Result`.

JavaScript values are modelled as follows:

- A missing token (`args[i + 1]` past the end) is `None`.
- A header string that `split` cannot take apart is a `Failure` that
  carries a `ParseError`.
- `parseInt` is a parameter of type `string -> Option<int>`, where `None`
  stands for `NaN`. When the value is missing, it receives the string
  `"undefined"`.
- A header value of the request options is a string or a number
  (`StrOrNum`), because `Content-Length` is a number.

## Model

| member | source | states |
|---|---|---|
| ArgParser.ParseArgs | workflows/pre-pr/scripts/test-harness.js:7-46 | the loop over token pairs returns exactly the recursive specification `Parsed`: the defaults updated pair by pair, stopping with the header error at the first bad `--header` |
| ArgParser.NoArgsGiveDefaults | workflows/pre-pr/scripts/test-harness.js:9-16 | with no tokens the configuration is method GET, path `/`, no body, no headers, base URL `http://localhost:3000`, timeout 10000 |
| ArgParser.Step | workflows/pre-pr/scripts/test-harness.js:19-42 | one pair fails exactly when the flag is `--header` and its value cannot be split, with that error; an unrecognised flag leaves the configuration unchanged |
| ArgParser.StepScalars | workflows/pre-pr/scripts/test-harness.js:22-41 | a successful step sets the scalar field its flag names (`--timeout` through `parseInt` of the value) and keeps every other scalar field |
| ArgParser.UnknownFlagSkipped | workflows/pre-pr/scripts/test-harness.js:18-22 | an unrecognised flag at an even position is skipped together with the token after it: the result is the same as for the list without both |
| ArgParser.LastValueIsLast | workflows/pre-pr/scripts/test-harness.js:18-20 | `LastValue` is None exactly when the flag occurs at no even position; otherwise it is the value after the flag's last occurrence |
| ArgParser.LastOccurrenceWins | workflows/pre-pr/scripts/test-harness.js:18-43 | after a successful parse, method, path, body, base URL and timeout each come from the last occurrence of their flag, and keep their starting values when the flag never occurs |
| ArgParser.HeaderEntry | workflows/pre-pr/scripts/test-harness.js:33-34 | the header step succeeds exactly when a value is present and holds a colon; a missing value and a value with no colon each fail with their own error |
| ArgParser.HeaderEntryMatchesSplit | workflows/pre-pr/scripts/test-harness.js:33-34 | the header step is `split(':')` destructured into its first two pieces, each trimmed, and fails when there is no second piece |
| ArgParser.OneColonHeader | workflows/pre-pr/scripts/test-harness.js:33-34 | `name:text` with a single colon gives the trimmed name with the trimmed text |
| ArgParser.SplitHeaderAgreesIff | workflows/pre-pr/scripts/test-harness.js:33-34 | the header step gives the same result as splitting at the first colon if and only if the text after that colon holds no further colon |
| ArgParser.ColonInValueTruncates | workflows/pre-pr/scripts/test-harness.js:33-34 | for `name:host:port`, the header step keeps only the trimmed `host`, while first-colon splitting keeps `host:port`, and the two differ |
| ArgParser.HeaderEntryFirstColon | workflows/pre-pr/scripts/test-harness.js:33-34 | first-colon splitting succeeds and fails on exactly the same inputs, with the same errors, as the header step |
| ArgParser.FirstColonKeepsValue | workflows/pre-pr/scripts/test-harness.js:33-34 | with first-colon splitting, `name:text` keeps all of the trimmed `text`, colons included |
| ArgParser.CutAtColonChangesTrim | workflows/pre-pr/scripts/test-harness.js:33-34 | cutting a text at its first colon always changes its trimmed form |
| ArgParser.SetHeader | workflows/pre-pr/scripts/test-harness.js:34 | assigning a header overwrites or adds exactly that key and keeps all other entries; the key `__proto__` is never stored |
| ArgParser.HeaderValueIsLast | workflows/pre-pr/scripts/test-harness.js:32-34 | `HeaderValue` is None for `__proto__`; for any other key it is None exactly when no well-formed `--header` names the key, and otherwise the value of the last one that does |
| ArgParser.LastHeaderWins | workflows/pre-pr/scripts/test-harness.js:18-43 | after a successful parse each key holds the value of the last `--header` naming it, and keeps its starting entry when none names it |
| ArgParser.ParsedKeysTrimmed | workflows/pre-pr/scripts/test-harness.js:33-34 | every header key stored by a successful parse is trimmed: it neither starts nor ends with white space |
| ArgParser.FailsOnFirstBadHeader | workflows/pre-pr/scripts/test-harness.js:32-34 | parsing fails exactly when some `--header` lacks a value or a colon, and then with the error of the first such header |
| ArgParser.SingleHeaderFlag | workflows/pre-pr/scripts/test-harness.js:32-34 | a lone well-formed `--header` gives the defaults plus that one entry |
| ArgParser.HeaderFlagParsed | workflows/pre-pr/scripts/test-harness.js:32-34 | `--header "name:text"` alone (one colon) gives the defaults plus trimmed name mapped to trimmed text |
| JsStrings.Trim | workflows/pre-pr/scripts/test-harness.js:34 | the trimmed string neither starts nor ends with white space |
| JsStrings.TrimStartCuts | workflows/pre-pr/scripts/test-harness.js:34 | the leading-trim result is a suffix of the input, what it removes is all white space, and it does not start with white space |
| JsStrings.TrimEndCuts | workflows/pre-pr/scripts/test-harness.js:34 | the trailing-trim result is a prefix of the input, what it removes is all white space, and it does not end with white space |
| JsStrings.TrimIsInfix | workflows/pre-pr/scripts/test-harness.js:34 | the trimmed string is an infix of the input with only white space around it |
| JsStrings.TrimRemovesPadding | workflows/pre-pr/scripts/test-harness.js:34 | white space around a tight string is exactly what trimming removes |
| JsStrings.TrimIdempotent | workflows/pre-pr/scripts/test-harness.js:34 | trimming twice is trimming once |
| JsStrings.TrimKeeps | workflows/pre-pr/scripts/test-harness.js:34 | every character that is not white space survives trimming |
| JsStrings.TrimOnlyRemoves | workflows/pre-pr/scripts/test-harness.js:34 | trimming adds no characters |
| JsStrings.IndexOf | workflows/pre-pr/scripts/test-harness.js:33 | the index of the first occurrence of the separator, or the length when there is none, with no occurrence before it |
| JsStrings.IndexOfAfterPrefix | workflows/pre-pr/scripts/test-harness.js:33 | in `name + sep + rest` with no separator in `name`, the first separator is the one right after `name` |
| JsStrings.SplitJoin | workflows/pre-pr/scripts/test-harness.js:33 | no piece of a split holds the separator, and joining the pieces with it gives the string back |
| JsStrings.SplitUnique | workflows/pre-pr/scripts/test-harness.js:33 | the split is the only separator-free cutting that joins back to the string |
| JsStrings.SplitHead | workflows/pre-pr/scripts/test-harness.js:33 | the first piece is the text before the first separator; there is a second piece exactly when the separator occurs |
| JsStrings.SplitNoSeparator | workflows/pre-pr/scripts/test-harness.js:33 | a string without the separator splits into itself alone |
| JsStrings.SplitAtSeparator | workflows/pre-pr/scripts/test-harness.js:33 | splitting at the first separator gives the text before it followed by the split of the text after it |
| RequestOptions.ClientFor | workflows/pre-pr/scripts/test-harness.js:51-52 | the `https` client is used exactly for the `https:` scheme |
| RequestOptions.PortFor | workflows/pre-pr/scripts/test-harness.js:56 | the URL's own port when it has one, otherwise 443 for `https` and 80 for every other scheme |
| RequestOptions.MergeHeaders | workflows/pre-pr/scripts/test-harness.js:59-62 | the merged keys are the configured keys plus `Content-Type`; a configured value always wins; `Content-Type` defaults to `application/json` |
| RequestOptions.BuildOptions | workflows/pre-pr/scripts/test-harness.js:54-69 | host, port and `pathname + search` come from the URL, method and timeout from the configuration; the headers are the merge plus a numeric `Content-Length`, present exactly when the body is truthy and equal to its UTF-8 byte length |
| RequestOptions.Payload | workflows/pre-pr/scripts/test-harness.js:98-100 | the body is written exactly when it is truthy (present and not empty), and it is written unchanged |
| RequestOptions.ContentLengthMatchesPayload | workflows/pre-pr/scripts/test-harness.js:66-69 | the declared `Content-Length` is the byte count of exactly the payload that is written, whose bytes decode back to it; no numeric `Content-Length` is declared when nothing is written |
| RequestOptions.ByteLengthAppend | workflows/pre-pr/scripts/test-harness.js:67-68 | the byte length of two texts joined is the sum of their byte lengths |
| RequestOptions.AsciiBodyLength | workflows/pre-pr/scripts/test-harness.js:66-68 | an ASCII body declares its length in characters |
| RequestOptions.SingleHeaderOptions | workflows/pre-pr/scripts/test-harness.js:59-62 | a configuration with one header and no body sends that header and the JSON content type, and nothing else |
| RequestOptions.HeaderFlagReachesRequest | workflows/pre-pr/scripts/test-harness.js:32-62 | `--header "name:text"` alone parses, and the request carries the trimmed name with the trimmed text beside `Content-Type` |
| Utf8.EncodeChar | workflows/pre-pr/scripts/test-harness.js:67 | one code point takes one to four bytes, by its range |
| Utf8.Encode | workflows/pre-pr/scripts/test-harness.js:67 | the encoding of a string takes between one and four bytes per character |
| Utf8.DecodeEncodeChar | workflows/pre-pr/scripts/test-harness.js:67 | decoding one character's encoding gives the character back |
| Utf8.DecodeEncode | workflows/pre-pr/scripts/test-harness.js:67 | decoding a string's encoding gives the string back, so no two strings share an encoding |
| Utf8.EncodeAppend | workflows/pre-pr/scripts/test-harness.js:67 | the encoding of a concatenation is the concatenation of the encodings |
| Utf8.EncodeAscii | workflows/pre-pr/scripts/test-harness.js:67-68 | ASCII text takes one byte per character |
| ResponseBody.ReportedBody | workflows/pre-pr/scripts/test-harness.js:116 | the parsed JSON value is reported exactly when parsing succeeded and the value is truthy; otherwise the raw text is reported |
| ResponseBody.IntendedBody | workflows/pre-pr/scripts/test-harness.js:82-86 | the parsed value is reported exactly when the text parsed as JSON; otherwise the raw text is reported |
| ResponseBody.ReportedMatchesIntendedIff | workflows/pre-pr/scripts/test-harness.js:116 | the reported body differs from the intended one exactly when the text parses to a falsy JSON value |
| ResponseBody.ZeroReportedAsText | workflows/pre-pr/scripts/test-harness.js:116 | a response of `0` is reported as the text `"0"`, not as the number 0 |

## Left out

- The network exchange is not modelled: `client.request`, the response and error events, the `timeout` event with `req.destroy()`, and the Promise. The request options are the model's output, and the response text is an input.
- URL resolution (`new URL(config.path, config.baseUrl)`, line 50) is not modelled. The resolved URL's protocol, hostname, port, pathname and search are an input (`Url`).
- `JSON.parse` (lines 82-86) is not modelled. Its outcome is an input: `None` when it throws, otherwise the parsed value.
- `parseInt` is a parameter, not a definition. The model only passes it the flag's text, or `"undefined"` when the value is missing.
- The standard-output and standard-error reports, the timestamp, `process.exit`, and reading `process.argv` are I/O and are not modelled. The token list is an input.
- The uncaught exception that a bad `--header` raises (`parseArgs` is called outside the `try` at line 107) is modelled as a `Failure` result. What the process then prints is not modelled.
- Strings are sequences of Unicode scalar values. JavaScript strings can also hold lone surrogates, whose UTF-8 encoding (as U+FFFD) is not modelled.
- The configured body's `null` (the default) and `undefined` (a `--body` without a value) are both `None`. Both are falsy, and the code treats them alike.
- RequestOptions.BuildOptions: the `timeout` option only passes the configured value through. How the client uses it is not modelled.

## Findings

The intent behind the two findings has different grounds. For the header finding it is the `Name: Value` header syntax, in which only the first colon separates the name and the value may itself contain colons (as in `Host: localhost:3000`). For the body finding it is the code's own comments at lines 81 and 85, which say the response is parsed as JSON and kept as a string only when it is not JSON. The model follows the code: `ParseArgs` keeps the as-written header rule, and `ReportedBody` keeps `json || body`.

| source | as written | input that shows it | evidently intended | confidence | as-written member | corrected member |
|---|---|---|---|---|---|---|
| workflows/pre-pr/scripts/test-harness.js:33-34 | the header text is split on every colon and only the first two pieces are kept, so a value containing a colon is cut short | `--header "Host: localhost:3000"` gives `Host` the value `localhost` | the name is the text before the first colon and the value is everything after it (`localhost:3000`) | not executed | ArgParser.HeaderEntry (shown by ArgParser.ColonInValueTruncates and ArgParser.SplitHeaderAgreesIff) | ArgParser.HeaderEntryFirstColon (ArgParser.FirstColonKeepsValue) |
| workflows/pre-pr/scripts/test-harness.js:116 | `result.json \|\| result.body` reports the raw text whenever the parsed JSON is falsy | a response body of `0` (also `false`, `null`, `""`) is reported as the string `"0"` | report the parsed value whenever the text is JSON | not executed | ResponseBody.ReportedBody (shown by ResponseBody.ZeroReportedAsText and ResponseBody.ReportedMatchesIntendedIff) | ResponseBody.IntendedBody |
