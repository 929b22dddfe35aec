# CSV ingestion handler — a Dafny model

This project models the AWS Lambda handler of
`project-01-s3-lambda-dynamodb-sns/lambda/index.mjs` and proves properties
about it. An S3 upload event starts the handler. It decodes the object key,
fetches the CSV object and parses it with a simple split-based parser. It
writes one DynamoDB item per data row, tolerating failures row by row, and
publishes an SNS notice. Any failure before or at that notice leads to one
failure-notice attempt, and then the error is rethrown.

The model is split into these modules:

- `JsString` (`js_string.dfy`) holds the JavaScript string primitives the
  handler relies on:
  - `trim`, with the exact ECMAScript white-space and line-terminator set;
  - `split` on one character;
  - `join`;
  - decimal rendering of a row number.
- `UriDecode` (`uri_decode.dfy`) holds the key decoding of line 26, in this
  order:
  - `+` becomes a space;
  - then `decodeURIComponent` runs, including multi-byte UTF-8 escapes and
    the `URIError` cases, which decode to `None`.

  An encoder, `EncodeKey`, serves as the decoder's partner for the round
  trip. It form-encodes a key: a space becomes `+`; `+`, `%` and non-ASCII
  characters are escaped; a parameter selects any further characters the
  event may escape. `EncodeAppend` (the encoding works character by
  character) supports the worked example.
- `Csv` (`csv.dfy`) holds the parser: lines, header fields, row fields, and
  the row object. `BuildRow` builds the row object in place, as the
  `forEach` does.
- `RowLoop` (`row_loop.dfy`) holds the `for` loop of lines 47-77:
  - `ProcessRows` is the imperative loop with its counter and append-only
    error list;
  - `Run` is the fold it is proved against.
- `Handler` (`handler.dfy`) holds the control flow of the whole `handler`:
  - `Handle` is the method, statement by statement;
  - `Invoke` is its specification.

  An invocation's result is its outcome (a 200 return or a thrown fault)
  together with the ordered list of external calls it made: a fetch, table
  writes and notices.
- `KeyExample` (`key_example.dfy`) is a worked instance of key decoding.

The answers of the external services are parameters of the model:
- the fetched content or fetch error;
- the outcome of the write for row `i`;
- the timestamp taken for row `i`;
- the outcomes of the two publishes.

Three behaviours of the code worth knowing:
- A rejected completion notice (line 98) is inside the `try`. It therefore
  produces a failure notice and a rethrown error, not a quiet success
  (`Handler.CompletionPublishFailureRethrows`).
- Empty or blank content does not give an empty header list. `"".split(',')`
  is `[""]`, so there is exactly one header, `""`
  (`Csv.HeadersOfBlankContent`).
- The `+` to space replacement happens *before* percent-decoding. So `%2B`
  survives as a literal `+` (`KeyExample.KeyWithPlusAndEscapedPlus`).

## Model

| member | source | states |
|---|---|---|
| UriDecode.PercentDecode | project-01-s3-lambda-dynamodb-sns/lambda/index.mjs:26 | decoding never lengthens the key, and a key without `%` is returned unchanged |
| UriDecode.DecodeKey | project-01-s3-lambda-dynamodb-sns/lambda/index.mjs:26 | a raw key with neither `%` nor `+` decodes to itself |
| UriDecode.DecodeEncodeKey | project-01-s3-lambda-dynamodb-sns/lambda/index.mjs:26 | round trip: every key, form-encoded (space as `+`; `+`, `%`, non-ASCII and any chosen further characters as UTF-8 escapes), decodes back to itself |
| UriDecode.DecodedIsWellEscaped | project-01-s3-lambda-dynamodb-sns/lambda/index.mjs:26 | decoding succeeds only if every `%` is followed by two hexadecimal digits |
| UriDecode.MalformedKeyFails | project-01-s3-lambda-dynamodb-sns/lambda/index.mjs:26 | a `%` near the end of the raw key, or one not followed by two hex digits, makes key decoding fail (the URIError that sends the handler to its `catch`) |
| KeyExample.KeyWithPlusAndEscapedPlus | project-01-s3-lambda-dynamodb-sns/lambda/index.mjs:26 | `in%2Bfolder/a+b.csv` decodes to `in+folder/a b.csv` |
| JsString.Trim | project-01-s3-lambda-dynamodb-sns/lambda/index.mjs:40-41 | `trim()` returns a contiguous slice that neither starts nor ends with white space, and only white space is cut away |
| JsString.TrimIdempotent | project-01-s3-lambda-dynamodb-sns/lambda/index.mjs:41 | trimming twice is trimming once |
| JsString.TrimAppendWhitespace | project-01-s3-lambda-dynamodb-sns/lambda/index.mjs:40 | appending a white-space character does not change the trimmed content |
| JsString.Split | project-01-s3-lambda-dynamodb-sns/lambda/index.mjs:40-41 | `split` always yields at least one piece |
| JsString.JoinSplit | project-01-s3-lambda-dynamodb-sns/lambda/index.mjs:40-41 | joining the pieces of a split with the separator gives back the string |
| JsString.SplitJoin | project-01-s3-lambda-dynamodb-sns/lambda/index.mjs:40-41 | splitting a join of separator-free pieces gives back the pieces |
| JsString.SplitCount | project-01-s3-lambda-dynamodb-sns/lambda/index.mjs:40 | a split yields one more piece than there are separators |
| JsString.Decimal | project-01-s3-lambda-dynamodb-sns/lambda/index.mjs:73 | `${i}` is a non-empty digit string without a leading zero whose value is `i` |
| Csv.Lines | project-01-s3-lambda-dynamodb-sns/lambda/index.mjs:40-47 | one line per newline in the trimmed content, plus one, so there is one data row per newline inside the trimmed content; no line contains a newline |
| Csv.Fields | project-01-s3-lambda-dynamodb-sns/lambda/index.mjs:41 | one field per comma, plus one, and every field is comma-free and already trimmed |
| Csv.LinesOfJoin | project-01-s3-lambda-dynamodb-sns/lambda/index.mjs:40 | newline-free lines joined into trimmed content are split back unchanged |
| Csv.FieldsOfJoin | project-01-s3-lambda-dynamodb-sns/lambda/index.mjs:41 | comma-free, trimmed fields joined by commas are parsed back unchanged |
| Csv.HeadersOfBlankContent | project-01-s3-lambda-dynamodb-sns/lambda/index.mjs:40-41 | empty or all-white-space content yields exactly one header, `""` |
| Csv.HeadersAreFirstLineFields | project-01-s3-lambda-dynamodb-sns/lambda/index.mjs:40-41 | the headers are the trimmed comma-separated fields of the text before the first newline of the trimmed content |
| Csv.TrailingWhitespaceAddsNoRow | project-01-s3-lambda-dynamodb-sns/lambda/index.mjs:40 | trailing white space, a final newline included, adds no row |
| Csv.Columns | project-01-s3-lambda-dynamodb-sns/lambda/index.mjs:52-55 | the row object's keys are exactly the headers |
| Csv.ColumnsLaterWins | project-01-s3-lambda-dynamodb-sns/lambda/index.mjs:53-55 | for a duplicated header, the value from its last column wins |
| Csv.ColumnsByPosition | project-01-s3-lambda-dynamodb-sns/lambda/index.mjs:53-55 | with distinct headers, each header maps to the value in its column, or to `""` when the row is short |
| Csv.ColumnsFit | project-01-s3-lambda-dynamodb-sns/lambda/index.mjs:53-55 | extra values beyond the headers are ignored, and missing ones read as `""` |
| Csv.BlankLineGivesEmptyColumns | project-01-s3-lambda-dynamodb-sns/lambda/index.mjs:49-55 | a blank data line still yields a row, with every column `""` |
| Csv.BuildRow | project-01-s3-lambda-dynamodb-sns/lambda/index.mjs:52-59 | the object built header by header in place, then stamped, is the row item |
| Csv.RowItemMetadata | project-01-s3-lambda-dynamodb-sns/lambda/index.mjs:57-59 | `sourceFile` is the decoded key and `uploadedAt` the row's timestamp, even over same-named headers; the keys are the headers plus these two; every other header keeps its column value |
| RowLoop.ParseRowErrorMessage | project-01-s3-lambda-dynamodb-sns/lambda/index.mjs:73 | `Error processing row i: m` names its row and its error unambiguously: both can be read back |
| RowLoop.ProcessRows | project-01-s3-lambda-dynamodb-sns/lambda/index.mjs:19-77 | the counter, the error list and the written items after the loop are those of the fold over every data row |
| RowLoop.FailedRows | project-01-s3-lambda-dynamodb-sns/lambda/index.mjs:72-76 | lists exactly the rows whose write failed, in strictly increasing order |
| RowLoop.RunAttemptsEveryRow | project-01-s3-lambda-dynamodb-sns/lambda/index.mjs:47-77 | every data row is attempted once, in order (item j is the row object of line j+1), and processed plus errors equals the number of data rows |
| RowLoop.RunCountsStored | project-01-s3-lambda-dynamodb-sns/lambda/index.mjs:67-68 | `processedCount` is the number of successful writes |
| RowLoop.RunErrorsAreFailedRows | project-01-s3-lambda-dynamodb-sns/lambda/index.mjs:72-76 | the error list holds one message per failed row, in row order, each with the row number and the write's error message |
| RowLoop.RunErrorsOrdered | project-01-s3-lambda-dynamodb-sns/lambda/index.mjs:72-76 | read back from the messages, the row numbers are in range and strictly increasing, and every failed row is reported |
| Handler.OrUnknown | project-01-s3-lambda-dynamodb-sns/lambda/index.mjs:120 | `v \|\| 'unknown'` is `v` when `v` is a non-empty string, and `"unknown"` when it is absent or empty |
| Handler.Handle | project-01-s3-lambda-dynamodb-sns/lambda/index.mjs:16-129 | the handler, statement by statement, yields exactly the outcome and call sequence of the specification `Invoke` |
| Handler.ReturnsOnlyWhenAllSucceed | project-01-s3-lambda-dynamodb-sns/lambda/index.mjs:23-108 | it returns iff the event, key and fetch are good and the completion notice is published; it then returns 200 with the counts, which add up to the data rows, the processed count being the successful writes and the error count the failed rows |
| Handler.FailureBeforeLoopWritesNothing | project-01-s3-lambda-dynamodb-sns/lambda/index.mjs:23-128 | a bad event, undecodable key or failed fetch rethrows that error after at most the fetch and one failure notice, with no writes; the notice names the key and bucket, or `unknown` |
| Handler.ThrowsIffOneFailureNotice | project-01-s3-lambda-dynamodb-sns/lambda/index.mjs:98-128 | it throws iff exactly one failure notice was attempted, as the last call and carrying the thrown error; a return attempts none; one or two publishes in all |
| Handler.OneWritePerDataRow | project-01-s3-lambda-dynamodb-sns/lambda/index.mjs:36-67 | once the object is fetched, the fetch comes first, then each data row is written exactly once and in order, whatever the writes answer, each item carrying the decoded key as `sourceFile` |
| Handler.WritesPrecedeNotice | project-01-s3-lambda-dynamodb-sns/lambda/index.mjs:36-98 | whatever the completion notice's outcome, the calls begin with the fetch and one write per loop item, in order |
| Handler.CompletionPublishFailureRethrows | project-01-s3-lambda-dynamodb-sns/lambda/index.mjs:98-128 | a rejected completion notice is followed by a failure notice, and its error is rethrown |
| Handler.FailureNoticeResultIgnored | project-01-s3-lambda-dynamodb-sns/lambda/index.mjs:116-126 | the outcome of the failure-notice publish never changes the handler's outcome or calls |

## Left out

- The AWS SDK clients (S3, DynamoDB, SNS) and `streamToString` (lines 133-139) are not modelled. Their answers are inputs:
  - the fetch is one result: the decoded text (with any replacement characters `toString('utf-8')` substitutes for malformed bytes) or the error message of a failed fetch or stream read;
  - write `i` either succeeds or is rejected with a message;
  - each publish is published or rejected.
- Table and topic names, and the environment defaults of lines 13-14, are not modelled.
- Wall-clock time is not modelled. `new Date().toISOString()` becomes a per-row timestamp input and one notice timestamp input.
- Logging (`console.log`/`console.error`) is left out because it has no effect on the outcome. This covers the `row.customerId || 'unknown'` log line.
- The notice texts and the JSON body of the 200 result are left out. Notices keep only the fields they report: file, bucket, counts, errors and timestamp, or the error, file and bucket labels. The result keeps the status code and the two counts.
- The fault's message text (`Fatal error processing CSV: ...`) is not modelled. Faults are classified instead: malformed event, malformed key, fetch failure, publish rejection.
- The event's shape is reduced to the first record's optional bucket name and key. A missing `Records`, `s3`, `bucket` or `object` level, or a non-string key, is one `MalformedEvent`. Records after the first are ignored, as in the source.
- Strings are sequences of Unicode scalar values, not UTF-16 code units. Lone surrogates inside a key cannot be represented, and a decoded escape yields one scalar value.
- JavaScript object quirks are not modelled. Rows are maps from header to value, so `__proto__` headers and the key order of JS objects are left out.
- The asynchronous scheduling (`await`) is not modelled: the calls are modelled as happening in program order, which is the order the source awaits them.
