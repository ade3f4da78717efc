# Storage collector of the Artifactory exporter, in Dafny

This project models the storage part of a Prometheus exporter for JFrog Artifactory, which is
`collector/storage.go`. On each scrape the exporter fetches the `storageinfo` document. It then
turns the document's human-readable strings ("1,234", "12.5 GB", "3.4%") into numbers and sends
gauges on the metrics channel. An empty scalar string, an undecodable body, or a repository row
whose used space or percentage does not convert increments the `jsonParseFailures` counter.

The model has six modules:

- `Wrappers`: `Option`, and `Result` with `GetOr`. `GetOr(0.0)` stands for Go's habit of
  ignoring the error and using the zero value that comes back with it.
- `Text`: `strings.Contains` and `strings.ToLower`, with a reference characterisation of
  substring search.
- `Numerals`: `removeCommas`. It deletes every character outside `[0-9.]`, then parses what is
  left with `strconv.ParseFloat`. The parser is an accumulating scan over a mantissa and a
  decimal scale. It is proved equal to a reference grammar (`IsDecimalNumeral`) and a reference
  value (`NumeralValue`).
- `Units`: `bytesConverter`. It takes the number from `removeCommas`, then scales it by
  1024^k, where k is the position of the first unit name in the list `bytes`, `KB`, `MB`,
  `GB`, `TB` that occurs anywhere in the string. The test is a case-sensitive substring test.
- `RepoSummaries`: a value-level specification of the list that `extractRepoSummary` builds
  from the repository rows.
- `Storage`: the `Exporter` class. Its field `failures` is the `jsonParseFailures` counter and
  its field `out` is the sequence of gauge observations sent on the channel. Its methods are
  `fetchStorageInfo`, `exportCount`, `exportSize`, `exportFilestore`, `extractRepoSummary` and
  `exportRepo`. Each is a method with loops where the source loops.

Two behaviours of `storage.go` that are easy to miss:

- `exportCount`, `exportSize` and `exportFilestore` discard the conversion error. A non-empty
  string that does not convert therefore sends a gauge of value 0. It does not send nothing,
  and it does not count a failure.
- `exportRepo` walks every key of the metric table. It sends an observation only for the keys
  its `switch` recognises (`repoUsed`, `repoFolders`, `repoItems`, `repoFiles`,
  `repoPercentage`). So the keys come from the table passed in (the parameter `metrics`), not
  from a fixed list of five, and each repository gets `|metrics ∩ RepoKinds|` observations.

## Model

| member | source | states |
|---|---|---|
| Numerals.RemoveCommas | collector/storage.go:81-93 | succeeds exactly when the string, with every character outside `[0-9.]` deleted, is a decimal numeral (digits, at most one dot, at least one digit); the value is that numeral's exact value |
| Numerals.ParseDecimal | collector/storage.go:87 | `strconv.ParseFloat` on the filtered string as a one-pass scan: the empty string is rejected and a parsed value is never negative, since no sign survives the filter |
| Numerals.ParseDecimalCorrect | collector/storage.go:87-90 | the scanning parser accepts exactly the strings of the decimal-numeral grammar and returns their value |
| Numerals.ParseAllDigits | collector/storage.go:87-90 | a string without a dot parses exactly when it is non-empty digits, to its integer value |
| Numerals.ParseBadChar | collector/storage.go:87-90 | a character other than a digit before the first dot makes the parse fail, and the string is not a numeral |
| Numerals.ParseAfterDotAtEnd | collector/storage.go:87-90 | a string that is digits, a dot and digits parses exactly when it has a digit, to integer part plus fraction |
| Numerals.ParseAfterDotBadChar | collector/storage.go:87-90 | a second dot (or any non-digit) after the dot makes the parse fail |
| Numerals.ScanDigits | collector/storage.go:87 | scanning a run of digits folds them into the mantissa and, after the dot, raises the scale by the run's length |
| Numerals.ScanThroughDot | collector/storage.go:87 | the scan of integer digits, a dot and fraction digits reaches the mantissa `int·10^|frac| + frac` with scale `|frac|` |
| Numerals.KeepNumeralChars | collector/storage.go:83-87 | the filtered string is no longer than the input and holds only digits and dots |
| Numerals.KeepMembers | collector/storage.go:83-87 | a character survives the filter exactly when it is in the input and is a digit or a dot |
| Numerals.KeepAppend | collector/storage.go:83-87 | filtering distributes over concatenation |
| Numerals.KeepFixesNumeralChars | collector/storage.go:83-87 | a string of digits and dots is left unchanged by the filter, so filtering is idempotent |
| Numerals.KeepDropsNoise | collector/storage.go:83-87 | a string without digits or dots filters to the empty string |
| Numerals.KeepIgnoresNoise | collector/storage.go:83-87 | inserting a character that is neither a digit nor a dot anywhere does not change the filtered string |
| Numerals.RemoveCommasIgnoresNoise | collector/storage.go:81-93 | inserting such a character anywhere (a comma, a space, a unit letter) does not change the result |
| Numerals.RemoveCommasOfFiltered | collector/storage.go:81-93 | the result on a string equals the result on its filtered form, so "1,234.50 GB" and "1234.50" give the same value |
| Numerals.RemoveCommasDigitsThenNoise | collector/storage.go:81-93 | digits followed by any text without digits or dots convert to the digits' value |
| Numerals.RemoveCommasDecimal | collector/storage.go:81-93 | `a.b` with digit strings `a`, `b`, not both empty, converts to `a + b/10^|b|` |
| Numerals.RemoveCommasGrouped | collector/storage.go:81-93 | digits with a thousands comma, `a,b`, convert to the value of the digits `ab` |
| Numerals.DigitsValueAppend | collector/storage.go:87 | the value of concatenated digit strings is `value(a)·10^|b| + value(b)` |
| Numerals.RemoveCommasRejectExamples | collector/storage.go:87-89 | "", "." and "1.2.3" are rejected |
| Numerals.RemoveCommasDotExamples | collector/storage.go:87-92 | "5." converts to 5 and ".5" to 0.5 |
| Numerals.DigitsNumeral | collector/storage.go:87 | a non-empty digit string is a numeral whose value is its integer value |
| Text.Contains | collector/storage.go:104-112 | `strings.Contains`: the empty pattern is in every string, and a contained pattern is no longer than the string |
| Text.ContainsIffOccurs | collector/storage.go:104-114 | substring search succeeds exactly when the pattern occurs at some index |
| Text.MissingFirstChar | collector/storage.go:104-114 | a pattern whose first character is absent from the string is not contained in it |
| Text.MissingChar | collector/storage.go:104-114 | a pattern holding a character absent from the string is not contained in it |
| Text.OccurrenceHolds | collector/storage.go:104-114 | every character of a pattern is in any string where the pattern occurs |
| Text.FoundAt | collector/storage.go:104-114 | a pattern that occurs at an index is contained |
| Text.ToLower | collector/storage.go:165 | the lower-cased string has the same length and lower-cases each character in place |
| Text.ToLowerIdempotent | collector/storage.go:165 | lower-casing twice is lower-casing once, and the result has no ASCII capital |
| Units.FirstUnit | collector/storage.go:104-115 | the unit found is the first in table order that the string contains; none is found exactly when the string contains no unit name |
| Units.FirstUnitFindsFirst | collector/storage.go:104-115 | whenever unit `k` is the first one contained, the search returns `k` |
| Units.BytesConverter | collector/storage.go:95-116 | a number failure is passed on first; a number without a unit fails as an unknown unit; otherwise the result is `num·1024^k` for the first contained unit `k` |
| Units.BytesConverterScales | collector/storage.go:95-116 | the conversion succeeds exactly when the number parses and some unit name is contained, and a success is the number times 1024^k for the first contained unit `k` |
| Units.BytesConverterAt | collector/storage.go:104-114 | when the number parses and unit `k` comes first, the result is `num·1024^k` |
| Units.BytesConverterOfUnit | collector/storage.go:95-114 | digits, a space, unit name `k` and any trailing text without digits, dots or unit marks convert to `digits·1024^k`, so "1 GBX" is gigabytes |
| Units.BytesConverterPriority | collector/storage.go:104-114 | with both "MB" and "KB" present, "KB" wins because it comes first in table order |
| Units.BytesConverterUnknownUnit | collector/storage.go:115 | digits followed by text without digits, dots or unit marks fail as an unknown unit, so "1 kb" is rejected |
| Units.BytesConverterNoNumber | collector/storage.go:99-102 | a string without digits fails as not a number, even when it names a unit |
| Units.NoMarkNoUnit | collector/storage.go:104-115 | a string holding none of the unit marks (`y`, `K`, `M`, `G`, `T`, one character of each unit name) contains no unit name |
| RepoSummaries.Summarize | collector/storage.go:164-179 | one row's summary copies the key, lower-cases both types and keeps the counts; it fails on the used space first, then on the percentage |
| RepoSummaries.Summaries | collector/storage.go:159-181 | the list built row by row, skipping TOTAL and ending at the first failing row; a built list has at most one summary per row |
| RepoSummaries.KeptMembers | collector/storage.go:160-163 | a row is kept exactly when it is a row and its key is not TOTAL |
| RepoSummaries.KeptAppend | collector/storage.go:160-163 | keeping distributes over concatenation |
| RepoSummaries.AbortSticks | collector/storage.go:171-178 | once the summary list has failed, later rows change nothing |
| RepoSummaries.SummariesSucceedIff | collector/storage.go:160-181 | the list is built exactly when every non-TOTAL row converts |
| RepoSummaries.SummariesFirstFailure | collector/storage.go:160-181 | a failed list reports the error of the first non-TOTAL row that does not convert, all earlier non-TOTAL rows having converted |
| RepoSummaries.SummariesAreKeptRows | collector/storage.go:160-181 | a built list pairs off with the kept rows in order, each summary summarising its row |
| RepoSummaries.SummariesExcludeTotal | collector/storage.go:160-163 | no summary in a built list is named TOTAL |
| Storage.Exporter.constructor | collector/storage.go:118-143 | a fresh exporter has counted no failures and sent nothing |
| Storage.Exporter.FetchStorageInfo | collector/storage.go:68-79 | a transport error is passed on with the counter unchanged; an undecodable body counts one failure; a decoded body is returned; nothing is sent |
| Storage.Exporter.ExportCount | collector/storage.go:118-125 | an empty string counts one failure and sends nothing; otherwise one unlabelled gauge is sent with the converted count, and a count that is not a numeral once filtered sends exactly 0 with the counter unchanged |
| Storage.Exporter.ExportSize | collector/storage.go:127-134 | as the count, with the value converted to bytes; a size that does not convert sends exactly 0 with the counter unchanged |
| Storage.Exporter.ExportFilestore | collector/storage.go:136-143 | as the size, with the labels (store type, store directory); a size that does not convert sends a labelled 0 with the counter unchanged |
| Storage.Exporter.ExtractRepoSummary | collector/storage.go:156-183 | the first row that fails counts one failure and nothing is sent; otherwise the summaries of the kept rows are exported, `|kept rows|·|recognised keys|` observations in all |
| Storage.Exporter.ExportRepo | collector/storage.go:185-203 | for each summary in order, one block holding one observation per recognised metric key; `|summaries|·|recognised keys|` observations in all, with the counter unchanged |
| Storage.Exporter.EmitRepo | collector/storage.go:188-201 | one repository's block holds exactly one observation per recognised key, valued from the field that key names and labelled (name, type, package type) |
| Storage.RepoObservation | collector/storage.go:189-199 | the observation a recognised key yields is named by that key and labelled (name, type, package type); its value is the summary field the key names |
| Storage.Exporter.SendRepoMetric | collector/storage.go:189-200 | a recognised key sends its one observation; any other key sends nothing |
| Storage.BlocksLength | collector/storage.go:187-201 | a run of blocks for `n` summaries holds `n·|keys|` observations |
| Storage.BlockAt | collector/storage.go:187-201 | the `r`-th slice of `|keys|` observations is the block of the `r`-th summary |
| Storage.BlocksAppend | collector/storage.go:187-201 | appending a summary's block extends the run of blocks by that summary |
| Storage.RepoBlockExtend | collector/storage.go:188-200 | adding the observation of a new recognised key extends the block's key set by that key |

## Left out

- The HTTP request, TLS, the credentials and the timeout of `fetchStorageInfo` are left out. Its
  outcome is a parameter (`Fetched`): a transport failure, or a body that did or did not decode.
- JSON decoding is left out. The model keeps the fields of the `storageSummary` object that the
  collector reads. The duplicated top-level copies of those fields are left out, because nothing
  in this file reads them.
- `BinariesSummary` and `FileStoreSummary` are only the shape of the decoded document. No method of this file reads them; their readers, the callers in `collector/exporter.go`, are not part of this model.
- Prometheus descriptors, the metrics channel and `MustNewConstMetric` are left out. A sent
  gauge is an `Observation` (metric name, value, label values) appended to `out`. Metric
  descriptions and help text are left out.
- The callers that invoke the export methods for each binaries and file-store field (the scrape
  in `collector/exporter.go`) are not part of this model.
- Numbers are exact reals, not IEEE-754 doubles. Rounding, the range error of `ParseFloat` on
  huge inputs, and the rounding of `float64(int)` for the counts are not modelled.
- Numerals.RemoveCommas: the error branch of `regexp.Compile` is left out. Its pattern is a
  constant that always compiles.
- Numerals.RemoveCommas: the parser accepts only what can survive the filter, which is digits
  and dots. `ParseFloat`'s other syntax (signs, exponents, `Inf`, hexadecimal) cannot reach it.
  Its error is a single `InvalidSyntax`, without Go's message text.
- Units.BytesConverter: the error of an unknown unit is `UnknownUnit`, without the formatted
  message that quotes the input.
- Text.ToLower: lower-cases ASCII letters only. Go's Unicode case mapping of other letters is
  not modelled.
- Storage.Exporter.ExportRepo: the key table is a set, and the source visits a Go map in no
  fixed order. So each repository's block is specified up to order: exactly one observation per
  recognised key. The order inside a block is not stated.
