# gel-scraper-proxy: the page parser and the `/api/gel` answer

The proxy takes a tracking code on `GET /api/gel?tracking=…` and types it
into the search form of a carrier's "unidentified parcels" page. It then
reads the visible text of the result page and answers with JSON:
`{ ok: true, found, saco, fecha_de_ingreso }`. This project models in Dafny
the logic of that answer:

- the tracking-code check: `(req.query.tracking || "").trim()`, and the 400
  answer when the result is empty;
- the parser run inside the page:
  - `noRes`, the test for the "Sin Resultado En Búsqueda" banner;
  - `getAfter(label)`, which returns the trimmed rest of the line after
    `label\s+`;
  - the bag code, `getAfter("SACO") || getAfter("CB") || getAfter("CB#")`;
  - the received date: `getAfter("FECHA DE INGRESO")`, with the fallback
    expression `FECHA[^\n\r]*?(\d{1,2}\/\d{1,2}\/\d{4})`;
- the answer: `found = !noRes && (saco || fecha)`, and each field replaced
  by `null` when it is falsy. A thrown error becomes a 500 answer carrying
  its message.

The regular expressions are modelled with JavaScript semantics.

- **Case.** The `i` flag (without `u`) compares characters by their upper
  case.
- **Whitespace.** `\s` and `trim()` remove the same set of characters:
  ECMAScript WhiteSpace and LineTerminator.
- **Backtracking in `getAfter`.** The greedy `\s+` can span line breaks. If
  the run of whitespace reaches the end of the text, `\s+` gives characters
  back.
- **The fallback date.** The lazy `[^\n\r]*?` takes the first date on the
  line of the leftmost `FECHA` that has one.

Modules:

| file | module | models |
|---|---|---|
| text.dfy | `JsText` | `\s`, `[^\n\r]`, case folding, `trim()` |
| label_value.dfy | `LabelValue` | `getAfter(label)` |
| date_fallback.dfy | `DateFallback` | the `FECHA … D/M/YYYY` fallback |
| banner.dfy | `Banner` | `noRes` |
| page_extract.dfy | `PageExtract` | the `page.evaluate` closure |
| api.dfy | `TrackingApi` | the tracking check, the answer, the handler |

The browser session is a parameter of `TrackingApi.Handle`: a function from
the trimmed code to the page text, or to a thrown error. That session
covers launching Chrome, opening the page, typing the code, submitting the
form and waiting for the result.

The banner is decisive: when it is on the page, `found` is `false` even
if values were extracted, and those values are still reported
(`TrackingApi.BannerOverridesValues`).

## Model

| member | source | states |
|---|---|---|
| JsText.Trim | server.js:139 | the result has no whitespace at either end; it is empty exactly when the input is all whitespace; it keeps the absence of line breaks |
| JsText.TrimUnique | server.js:139 | trimming any whitespace-surrounded trimmed string gives back exactly that string |
| JsText.TrimIdempotent | server.js:53 | trimming twice is trimming once |
| JsText.LineEnd | server.js:137 | the extent of `[^\n\r]+`: the first `\n`/`\r` at or after the position, or the end of the text, with no line break before it |
| JsText.SpaceRunEnd | server.js:137 | the extent of the greedy `\s+`: the longest whitespace run starting at the position |
| JsText.TrailStart | server.js:139 | the trailing whitespace `trim()` removes: the longest whitespace run ending at the end, not reaching into the leading run |
| LabelValue.LastNonBreak | server.js:137 | when `\s+` backtracks from the end of the text, the capture starts at the last non-line-break character of the run, and only line breaks follow it |
| LabelValue.MatchAt | server.js:137 | one attempt of `label\s+([^\n\r]+)` at one offset: a capture starts after the label and at least one whitespace character, at a character other than `\n`/`\r`; MatchAtSound and MatchAtIsGreedy state the rest |
| LabelValue.MatchAtSound | server.js:137 | a match at an offset is the label, at least one whitespace character, then a character other than `\n`/`\r`, and the label is immediately followed by whitespace |
| LabelValue.MatchAtIsGreedy | server.js:137 | the match at an offset exists whenever any way of matching there exists, and its capture starts at the latest such position |
| LabelValue.FindFrom | server.js:138 | `text.match` finds the leftmost offset at which the expression matches; none before it matches |
| LabelValue.GetAfter | server.js:136-140 | a returned value is trimmed and has no `\n`/`\r` |
| LabelValue.NoLaterOccurrence | server.js:137-138 | a label followed by whitespace that does not match leaves only whitespace after it, so the label does not occur later |
| LabelValue.GetAfterOrigin | server.js:136-140 | a returned value comes from the leftmost occurrence of the label that is immediately followed by whitespace |
| LabelValue.GetAfterValue | server.js:136-140 | for that occurrence, the value is the trimmed rest of the line where the whitespace ends, even on a later line; whitespace to the end of the text gives a falsy value |
| LabelValue.TruthyHasLabelledValue | server.js:136-140 | a truthy value implies the label, whitespace, then a non-space character |
| LabelValue.LabelledValueTruthy | server.js:136-140 | the label, whitespace, then a non-space character imply a truthy value |
| LabelValue.GetAfterTruthyIff | server.js:136-140 | `getAfter` is truthy exactly when some occurrence of the label is followed by whitespace and then a non-space character |
| DateFallback.DateAt | server.js:147 | `\d{1,2}\/\d{1,2}\/\d{4}` matches at the offset exactly when one of its four shapes does; the matched text is a date |
| DateFallback.DateShapesExclusive | server.js:147 | at most one shape matches at an offset, so the order in which `\d{1,2}` tries its counts does not change the date |
| DateFallback.DateFrom | server.js:147 | the lazy `[^\n\r]*?` stops at an offset on the same line where a date starts |
| DateFallback.DateFromFirst | server.js:147 | that offset is the first date on the line: none starts before it; when there is none, no date starts on the rest of the line |
| DateFallback.FechaMatch | server.js:147 | one attempt of the fallback expression at one offset: the anchor FECHA occurs there and a date starts later, at most at the end of the text; FallbackFrom and FallbackDateOrigin state which attempt wins |
| DateFallback.FallbackFrom | server.js:147 | the leftmost FECHA occurrence followed on its line by a date; no earlier occurrence has one |
| DateFallback.FallbackDate | server.js:147-148 | the captured group is a D/M/YYYY date |
| DateFallback.FallbackDateIff | server.js:147-148 | the fallback matches exactly when some FECHA is followed on its own line by a date |
| DateFallback.FallbackDateOrigin | server.js:147-148 | the captured date is the text of the first date on the line of the leftmost FECHA that has one |
| Banner.BannerFrom | server.js:134 | the scan finds the banner exactly when it matches at some offset |
| Banner.BannerAtSpellings | server.js:134 | `B[uú]squeda` matches exactly the accented and unaccented spellings, in any case |
| Banner.SpellingsAgree | server.js:134 | at every offset, `B[uú]squeda` matches exactly where one of the two spellings occurs |
| Banner.HasBanner | server.js:134 | `noRes` holds exactly when the text contains "Sin Resultado En Búsqueda" or "Sin Resultado En Busqueda", ignoring case |
| PageExtract.OrElse | server.js:143 | JavaScript's `or` operator on two string-or-null values: truthy exactly when either operand is, and always one of the two |
| PageExtract.BagCode | server.js:143 | the bag code is one of the three `getAfter` results, trimmed and on one line |
| PageExtract.BagCodePrecedence | server.js:143 | SACO wins when truthy, then CB, and otherwise the result of CB# |
| PageExtract.BagCodeTruthyIff | server.js:143 | the bag code is truthy exactly when SACO, CB or CB# is followed by whitespace and a non-space character |
| PageExtract.ReceivedDate | server.js:144-149 | the date is the FECHA DE INGRESO value or the fallback's date, trimmed and on one line |
| PageExtract.DateIsTrimmedLine | server.js:147-148 | a fallback date is non-empty, trimmed and has no line break |
| PageExtract.ReceivedDatePrecedence | server.js:144-149 | a truthy FECHA DE INGRESO value is kept; otherwise the fallback's date is used when it matches, and is a date; otherwise the date is falsy |
| PageExtract.ReceivedDateTruthyIff | server.js:144-149 | the date is truthy exactly when FECHA DE INGRESO has a value or some FECHA is followed on its line by a date |
| PageExtract.Extract | server.js:131-152 | `noRes` holds exactly when a banner spelling occurs; both fields are trimmed single lines; each is truthy exactly when its evidence is on the page |
| TrackingApi.AsValue | server.js:156 | a string-or-null keeps its truthiness as a JavaScript value |
| TrackingApi.TrackingCode | server.js:53-54 | no code exactly when the parameter is missing or all whitespace; otherwise the trimmed, non-empty parameter |
| TrackingApi.TrackingCodeIdempotent | server.js:53 | for every parameter, the check applied to its own result gives the same result |
| TrackingApi.ErrorText | server.js:162 | the error text is the exception's message or its string form, the string form only when the message is empty (or the same), and it is empty only when both are |
| TrackingApi.Respond | server.js:154-159 | status 200 with `ok`; `found` is truthy exactly when there is no banner and `saco` or `fecha` is truthy; a truthy `found` is the reported `saco` or date; the banner makes `found` false; each field is non-empty or null, and null exactly when falsy |
| TrackingApi.Handle | server.js:52-166 | 400 with "Falta ?tracking=" exactly when the code is blank; 500 exactly when the session throws, carrying the exception's error text; otherwise the answer for the page text of the trimmed code |
| TrackingApi.BlankTrackingNeverBrowses | server.js:53-54 | a blank or missing code gets the same 400 answer whatever the browser session would do |
| TrackingApi.HandleSeesTrimmedCode | server.js:110 | the browser session is given only the trimmed code: for a fixed session, parameters that trim to the same code get the same answer |
| TrackingApi.FoundIffEvidence | server.js:131-159 | `found` is truthy exactly when the page has no banner and has a value after SACO, CB, CB# or FECHA DE INGRESO, or a date on a line after FECHA |
| TrackingApi.BannerOverridesValues | server.js:156-157 | with the banner on the page, `found` is false while `saco` still reports an extracted bag code |

## Left out

- Express setup, CORS, the preflight answer, the `/` and `/ping` routes, static files and the two `app.listen` calls (server.js:8-34, 168-175): HTTP plumbing with no logic to state.
- The browser session (server.js:56-128): launching Chrome, request interception, the user agent, `goto`, the selector lookups, typing, and submitting by button or Enter. It is the parameter `browse` of `TrackingApi.Handle`, which yields the page text or a thrown error.
- `waitForAnyText` (server.js:39-47) and its call (server.js:123-128): clock-driven polling whose result the handler ignores.
- `console.error` logging and closing the browser in `finally` (server.js:161, 163-165): output and resource release, which do not change the answer.
- `document.body.innerText || ""`: the model takes the page text as a string, so an empty body is the empty string.
- A `tracking` query parameter given more than once (an array) has no `trim` method, and the handler fails before its `try`. The model takes the parameter as a single string or absent.
- Strings are sequences of characters, not of UTF-16 code units. A character outside the Basic Multilingual Plane counts as one character, not two.
- Case folding covers ASCII letters and ú/Ú only. This is exact for the handler's patterns: they are built from ASCII characters and ú, and under the `i` flag without `u` no other character folds onto one of those.
- LabelValue.GetAfterOrigin and LabelValue.GetAfterValue assume the label does not end in whitespace, which holds for the four labels the parser uses ("SACO", "CB", "CB#", "FECHA DE INGRESO").
