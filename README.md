# Patient upload service: a verified Dafny model

The service turns a spreadsheet of patient contact rows into webhook events.
This model covers four pieces of it:

- **Parsing.** The decoded sheet grid becomes one object per non-empty data row.
- **Validation.** Each row is checked: Name and Phone must be present, Phone must have the right format, and Center Name must be on an allow-list of 23 hospitals.
- **Events.** Each row becomes a webhook event, with its column names rewritten as snake_case keys.
- **Delivery.** A `POST /api` handler sends the events to a target URL in batches of `batchSize`, with a pause between batches. It reports how many sends succeeded and which events failed.

Modules:

- `Wrappers`: `Option` and `Result`.
- `Seqs`: `Array.prototype.filter` and an indexed flat-map (a `forEach` whose callback pushes onto one array), with their membership and order lemmas.
- `Strings`: the string operations the code uses, over ASCII: `trim`, `toLowerCase`, `includes`, `join`, and decimal rendering of a row number.
- `JsObject`: a string-keyed JavaScript object, kept as its entries in the order the keys were first assigned. Assigning `o[k] = v` to an ordinary key replaces the value in place when `k` is present and appends `(k, v)` otherwise. `FromPairs` builds the object that a sequence of such assignments produces. Integer-like keys and `__proto__`, which JavaScript treats differently, are listed under "Left out".
- `Types`: cells, rows and webhook events.
- `Hospitals`: `VALID_HOSPITALS`, `isValidHospital` and `getSimilarHospitals`.
- `ExcelParser`: the grid-to-row mapping of `parseFile`, and `validateRequiredFields`.
- `WebhookTransformer`: the key pipeline, `transformToSnakeCase` and `transformToWebhookEvents`.
- `ApiServer`: the `POST` handler's request checks and batch loop.

The model follows the form of the code:

- **Loops are methods.** The code's loops become methods with loop invariants:
  - `headers.forEach` filling `rowObj`;
  - the `forEach` loops of `validateRequiredFields` pushing onto `errors`;
  - the `for ... of` loop assigning into `transformed`;
  - the batch loop with `processedCount++` and `errors.push`.

  Each method is proved equal to a specification function.
- **Expressions are functions.** Expression code becomes functions and lemmas: the allow-list helpers, the key pipeline, and the `map` that builds events.

Three behaviours of the code that are easy to miss are kept as written:

- **Normalisation is not idempotent.** `transformToSnakeCase` skips only `undefined`, `null` and `''`. A whitespace-only value is not skipped, so it is stored trimmed, as `''`, and a second pass drops it. `WebhookTransformer.WhitespaceValueNotIdempotent` proves this, and `WebhookTransformer.NormalizeIdempotent` proves idempotence when no stored value is `''`.
- **Centre errors print the bare row index.** The centre-name error prints `Row ${index}`, while the other errors print `Row ${index + 2}`. The model keeps both.
- **A short whitespace-only phone is reported twice.** A `Phone` of fewer than ten whitespace characters gets both the missing-field error and the format error. The model keeps this.

## Model

| member | source | states |
|---|---|---|
| Hospitals.ValidHospitalsDistinct | src/lib/config/hospitals.ts:2-26 | The allow-list holds 23 names, all different. |
| Hospitals.LeadingSpaceIsInvalid | src/lib/config/hospitals.ts:31-33 | The match does not trim: an entry with a leading space is rejected. |
| Hospitals.TrailingSpaceIsInvalid | src/lib/config/hospitals.ts:31-33 | The match does not trim: an entry with a trailing space is rejected. |
| Hospitals.CapitalisedEntryIsValid | src/lib/config/hospitals.ts:31-33 | The capitalised entry is accepted exactly as written. |
| Hospitals.CaseSensitive | src/lib/config/hospitals.ts:31-33 | The same entry in lower case is rejected: the match is case-sensitive. |
| Hospitals.SuggestFrom | src/lib/config/hospitals.ts:36-42 | At most 3 suggestions; each is on the list, and its lower case contains the lower-cased input or is contained in it. |
| Hospitals.SuggestedAt | src/lib/config/hospitals.ts:38-41 | A similar entry with fewer than 3 similar entries before it is suggested, at the position that count gives. |
| Hospitals.SuggestionOrigin | src/lib/config/hospitals.ts:38-41 | Suggestion j is a similar entry with exactly j similar entries before it: list order is kept and nothing is skipped. |
| Hospitals.FewSuggestionsAreAllMatches | src/lib/config/hospitals.ts:38-41 | With fewer than 3 suggestions, every similar entry is suggested. |
| Hospitals.NoSuggestionsIffNoMatch | src/lib/config/hospitals.ts:38-41 | There are no suggestions exactly when no entry is similar. |
| Hospitals.EmptyInputSuggestsFirstThree | src/lib/config/hospitals.ts:37-41 | On any list of 3 or more names, the empty input suggests the first three. |
| Hospitals.EmptyInputSuggestions | src/lib/config/hospitals.ts:37-41 | On the allow-list, the empty input suggests its first three names. |
| Hospitals.FirstThreeHospitals | src/lib/config/hospitals.ts:2-5 | The first three names of the allow-list. |
| ExcelParser.BuildRowObject | src/lib/utils/excelParser.ts:43-50 | The `headers.forEach` loop builds the object of assignments `rowObj[header.trim()] = value` for the non-blank headers, in column order. |
| ExcelParser.MapRowObjects | src/lib/utils/excelParser.ts:42-51 | One row object per kept row, in order. |
| ExcelParser.ParseGrid | src/lib/utils/excelParser.ts:30-55 | Lines 30-55 give the result of GridToRows: the two failures, or the row objects of the kept rows. |
| ExcelParser.TooFewRowsIff | src/lib/utils/excelParser.ts:30-32 | The too-few-rows failure happens exactly when the grid has fewer than 2 rows. |
| ExcelParser.NoDataRowsIff | src/lib/utils/excelParser.ts:39-55 | The no-data failure happens exactly when there are 2 or more rows and every data row consists of `''` cells only. |
| ExcelParser.GridRowAt | src/lib/utils/excelParser.ts:36-42 | A data row with a non-`''` cell becomes the row object whose position is the number of such rows before it. |
| ExcelParser.GridRowOrigin | src/lib/utils/excelParser.ts:36-42 | Row object j comes from a data row with a non-`''` cell that has exactly j such rows before it: the result is the kept rows in their original order, and nothing else. |
| ExcelParser.WhitespaceRowIsKept | src/lib/utils/excelParser.ts:40-47 | The skip test looks at the untrimmed cells: any data row whose cells are all whitespace, one of them not `''`, is kept at its place among the kept rows, and every value of its row object is `''`. |
| ExcelParser.RowObjectKeys | src/lib/utils/excelParser.ts:44-48 | The keys of a row object are exactly the trimmed non-blank headers, each once. |
| ExcelParser.RowObjectValue | src/lib/utils/excelParser.ts:44-48 | A header's key holds the trimmed cell of the last column with that header, or `''` when the row has no such cell. |
| ExcelParser.RowObjectValueOrigin | src/lib/utils/excelParser.ts:46-47 | Every value of a row object is the stored value of one of the columns. |
| ExcelParser.RowObjectValuesTrimmed | src/lib/utils/excelParser.ts:47 | Every value of a row object is a string with no whitespace at either end. |
| ExcelParser.MessageRowPrefix | src/lib/utils/excelParser.ts:82-96 | Every message opens with `Row <n>:`. n is the index plus 2 for the field errors and the bare index for the centre error. |
| ExcelParser.TestPhone | src/lib/utils/excelParser.ts:88 | The single-pass phone test accepts exactly the strings that `^\+?[\d\s\-\(\)]{10,}$` accepts. |
| ExcelParser.CheckRequired | src/lib/utils/excelParser.ts:80-84 | The `requiredFields.forEach` loop pushes one missing-field message per listed field that is absent or blank, in field order. |
| ExcelParser.CheckPhone | src/lib/utils/excelParser.ts:88-90 | It pushes the format message exactly when Phone is a non-empty string that fails the pattern. |
| ExcelParser.CheckCenter | src/lib/utils/excelParser.ts:92-104 | It pushes the centre message, including the suggestions, exactly when Center Name is a non-empty string whose trim is not on the list. |
| ExcelParser.CheckRow | src/lib/utils/excelParser.ts:79-105 | One row's callback appends the row's messages to `errors` in check order. |
| ExcelParser.ValidateRequiredFields | src/lib/utils/excelParser.ts:75-111 | The errors are the messages of all rows' errors in row order, and `valid` holds exactly when there is none. |
| ExcelParser.MissingErrorsSpec | src/lib/utils/excelParser.ts:80-84 | A missing-field error exists exactly for a listed field that is absent or blank after trimming. |
| ExcelParser.RowErrorsShape | src/lib/utils/excelParser.ts:79-105 | A row's errors are, in order: Name missing, Phone missing, Phone badly formatted, centre unknown. |
| ExcelParser.RowErrorsBound | src/lib/utils/excelParser.ts:79-105 | A row reports at most 4 errors, all carrying its own index. |
| ExcelParser.MissingFieldReported | src/lib/utils/excelParser.ts:80-84 | The error for Name or Phone is present exactly when that field is absent or blank after trimming. |
| ExcelParser.PhoneFormatReported | src/lib/utils/excelParser.ts:88-90 | The format error is present exactly when Phone is a non-empty string that the pattern rejects. |
| ExcelParser.CenterReported | src/lib/utils/excelParser.ts:92-104 | A centre error is present exactly when Center Name is non-empty and its trim is not on the list; it then carries the trimmed name and its suggestions. |
| ExcelParser.SuggestionSuffix | src/lib/utils/excelParser.ts:98-100 | The centre message ends with `?` exactly when there are suggestions. |
| ExcelParser.AllErrorsMembership | src/lib/utils/excelParser.ts:79-105 | An error is reported exactly when it is an error of the row its index names. |
| ExcelParser.AllErrorsOrdered | src/lib/utils/excelParser.ts:79-105 | Errors come in row order. |
| ExcelParser.NoErrorsIffRowsClean | src/lib/utils/excelParser.ts:107-110 | No errors exactly when no row has an error. |
| ExcelParser.ShortBlankPhoneReportedTwice | src/lib/utils/excelParser.ts:81-90 | A whitespace-only Phone shorter than 10 characters is reported both as missing and as badly formatted. |
| ExcelParser.LongBlankPhoneReportedOnce | src/lib/utils/excelParser.ts:81-90 | A whitespace-only Phone of 10 or more characters is reported as missing only. |
| WebhookTransformer.ReplaceRunsChars | src/lib/utils/webhookTransformer.ts:45-47 | After a run replacement, every character is `_` or a character of the input outside the replaced class. |
| WebhookTransformer.ReplaceRunsNoDouble | src/lib/utils/webhookTransformer.ts:47 | Replacing `_+` by `_` leaves no `__`. |
| WebhookTransformer.StripEdgeChars | src/lib/utils/webhookTransformer.ts:48 | On a string without `__`, the edge strip leaves no `_` at either end. |
| WebhookTransformer.CanonicalKeyForm | src/lib/utils/webhookTransformer.ts:42-48 | Every key the pipeline produces has only `[a-z0-9_]`, no `__`, and no `_` at either end. |
| WebhookTransformer.CanonicalKeyFixes | src/lib/utils/webhookTransformer.ts:42-48 | A key already in that form comes out unchanged. |
| WebhookTransformer.CanonicalKeyIdempotent | src/lib/utils/webhookTransformer.ts:42-48 | Canonicalising twice is canonicalising once. |
| WebhookTransformer.TransformToSnakeCase | src/lib/utils/webhookTransformer.ts:33-58 | The entries loop builds the object of the assignments `transformed[snakeKey] = trimmed value`, made in entry order. |
| WebhookTransformer.NormalizedPairsMember | src/lib/utils/webhookTransformer.ts:35-55 | An assignment happens exactly for an entry whose value is not `undefined`, `null` or `''` and whose key canonicalises to a non-empty key; it stores the trimmed value. |
| WebhookTransformer.NormalizeKeys | src/lib/utils/webhookTransformer.ts:35-55 | The output keys are unique, non-empty and canonical, and are exactly the canonical keys of the entries that are not skipped. |
| WebhookTransformer.NormalizeValueOrigin | src/lib/utils/webhookTransformer.ts:37-53 | Every stored pair is the canonical key and trimmed value of an entry that is not skipped. |
| WebhookTransformer.NormalizeValuesTrimmed | src/lib/utils/webhookTransformer.ts:53 | Every stored value is already trimmed. |
| WebhookTransformer.LastWriteWins | src/lib/utils/webhookTransformer.ts:35-55 | When several entries share a canonical key, the stored value comes from the last of them that is not skipped. |
| WebhookTransformer.NormalizeIdempotent | src/lib/utils/webhookTransformer.ts:30-59 | Transforming the output again gives the output, provided no stored value is `''`. |
| WebhookTransformer.WhitespaceValueNotIdempotent | src/lib/utils/webhookTransformer.ts:37-53 | A whitespace-only value is stored as `''`, and a second pass drops it. |
| WebhookTransformer.TransformToWebhookEvents | src/lib/utils/webhookTransformer.ts:6-28 | One event per row, in order. Event i has: the i-th ids and timestamp; type `patient_data_upload`; source `excel_upload`; the file name; row number i + 2; and the transformed row. |
| WebhookTransformer.EventRowNumbers | src/lib/utils/webhookTransformer.ts:24 | Row numbers start at 2 and increase strictly with the row. |
| WebhookTransformer.DistinctEventIds | src/lib/utils/webhookTransformer.ts:8-9 | Distinct generated ids give pairwise distinct event ids. |
| WebhookTransformer.EventKeysCanonical | src/lib/utils/webhookTransformer.ts:13-20 | Every key of an event's data is non-empty and canonical, and appears once. |
| ApiServer.SendBatch | src/routes/api/+server.ts:38-72 | Each event of the batch is attempted once. A success counts, and a failure appends one entry with that event's id. |
| ApiServer.DispatchInBatches | src/routes/api/+server.ts:23-87 | Every event is attempted exactly once, in order. The batches are the consecutive slices of `batchSize`, with a pause after a batch exactly when `i + batchSize < events.length`. `processedCount` is the number of successes and `errors` has one entry per failure. |
| ApiServer.HandlePost | src/routes/api/+server.ts:7-99 | For any batch size, a missing or non-array `events` gives 400 `Invalid events data`, checked before the 400 `Target URL is required`. Otherwise the summary satisfies `processedCount + errors.length == totalEvents`, and `success` holds exactly when `errors` is empty. |
| ApiServer.CountsAddUp | src/routes/api/+server.ts:63-69 | Successes plus error entries equal the number of events. |
| ApiServer.FailedSendsUseOwnIds | src/routes/api/+server.ts:64-69 | The error entries are exactly one per failed send, carrying that event's own id and its failure message. |
| ApiServer.SuccessIffAllSent | src/routes/api/+server.ts:94 | `success` holds exactly when every send succeeded. |
| ApiServer.BatchPlanAt | src/routes/api/+server.ts:30-31 | Batch k starts at `from + k * batchSize` and ends at the next start or at the end of the events. |
| ApiServer.BatchPlanLength | src/routes/api/+server.ts:30-31 | There are ceil((n - from) / batchSize) batches. |
| ApiServer.BatchShape | src/routes/api/+server.ts:30-77 | There are ceil(n / b) batches, and batch k is `[k * b, min(k * b + b, n))`. A pause follows every batch but the last. |
| ApiServer.BatchPlanLast | src/routes/api/+server.ts:75-77 | No pause after the last batch. |
| ApiServer.TwentyFiveInTens | src/routes/api/+server.ts:30-77 | 25 events in batches of 10 make three batches: 10, 10 and 5 events, with a pause after the first two. |

## Left out

- Reading the file is not modelled. That covers `FileReader`, `XLSX.read` and `sheet_to_json` (src/lib/utils/excelParser.ts:6-28 and 57-72): this is browser I/O and a binary decoder. The model starts from the decoded grid of strings, with `''` for empty cells.
- Non-string cells are not modelled: the grid, headers and row values are strings, so `String(value)` is the identity. A non-string header that is truthy, such as a number, makes `header.trim()` throw (src/lib/utils/excelParser.ts:45), and `parseFile` then rejects; the model has no such header.
- The texts of the two errors the grid mapping throws (src/lib/utils/excelParser.ts:31 and 54), and the `Failed to parse Excel file` wrapper around them, are not modelled: GridToRows returns only the kind of failure, TooFewRows or NoDataRows.
- `trim`, `toLowerCase` and the regex class `\s` are ASCII-only in the model. Unicode whitespace and Unicode case mapping are not modelled.
- Integer-like keys are not ordered as JavaScript orders them. JavaScript puts them first, in ascending order, in `rowObj`, in `transformed` and in `Object.entries`. The model keeps every key in the order it was first assigned, so its key order and its last-write-wins order are those of an object without integer-like keys.
- The key `__proto__` is treated like any other key. In JavaScript, `rowObj['__proto__'] = value` with a string value is ignored. So a header that trims to `__proto__` adds no key to the row object, although ExcelParser.RowObjectKeys, in the model, lists it.
- The network is an oracle. The model does not cover `fetch`, the HTTP status and body, or the text of the failure message: `outcome(i)` is the result of sending event i.
- ApiServer.DispatchInBatches: sends run one after the other, so within a batch the error entries are in event order. The code runs a batch's sends concurrently (`Promise.all`), so its within-batch order is completion order. Across batches, the order is the same as the code's.
- The 100 ms `setTimeout` pause is recorded as the `delayed` flag of each batch, not as time.
- Array elements that are not events are not modelled: `events` is a sequence of event values. With a `null` or `undefined` element whose send fails, reading `event.eventId` in the per-event `catch` throws (src/routes/api/+server.ts:66-67). `Promise.all` then rejects, and the batch-level `catch` (src/routes/api/+server.ts:78-86) reads `event.eventId` again and throws, so the request ends in the 500 answer. The model has no such element, so it leaves out the batch-level `catch` and the 500 answer.
- ApiServer.HandlePost: it requires a batch size above 0 once both checks pass and `events` is not empty. The code does not check this, and with a batch size of 0 or below its loop would then never end. With 0, the model still gives both 400 answers and, for empty `events`, the summary. Fractional and non-numeric batch sizes are not modelled: the batch size is a natural number.
- JSON request parsing, the 500 answer and the `console` logging (src/routes/api/+server.ts:7 and 100-106, and the logging in src/lib/utils/webhookTransformer.ts) are left out. The request arrives already decoded.
- `sendWebhookEvents` and `validateWebhookUrl` (src/lib/utils/webhookTransformer.ts:62-119) are left out. The first is a network client and the second relies on the platform URL parser.
- `uuidv4()` and `new Date().toISOString()` are parameters: `stamps` gives the ids and timestamp of each row.
- The validator takes the allow-list as a parameter. ValidateRequiredFields passes the real list, and the property lemmas hold for any list.
- The input rows are values in the model, so no operation changes them. The code's promise not to modify its input holds by construction.
- The `eventType` union in src/lib/types/index.ts:30 ('IP Feedback' or 'OPD Feedback') disagrees with the literal the code produces. The model follows the code: `patient_data_upload`.
- src/lib/stores/uploadStore.ts and tailwind.config.js are not part of this model: they hold UI state and styling only.
