# custom-exporter collection pipeline, in Dafny

This project models the collection pipeline of the custom Prometheus exporter
(`cmd/custom-exporter/main.go`). On every scrape, `Collect` walks the
configured exporters in order. For each one it either re-emits the metric it
cached less than the exporter's interval ago, or it fetches a fresh value.
`fetchData` reads the raw payload from a command, an HTTP endpoint or a file.
`parseData` picks a piece of text out of that payload with a regex, a JSON dot
path, a line number or a delimiter and index, and reads it as a number.
Every error yields the value 0, and the metric is still emitted and cached.

Modules, in dependency order:

- `Wrappers`: `Option` and `Result`.
- `Int64`: Go's int64 range, wrap-around and saturation.
- `Text`: the Go library string calls the pipeline makes:
  - `strings.TrimSpace` (Unicode white space);
  - `strings.Split` and `strings.Join`, with their round trips;
  - `strconv.Atoi`, which reads back every decimal rendering of an int64 (`Itoa`);
  - the string order `fmt` uses to list map keys.
- `Errors`: one constructor per error the pipeline reports.
- `Json`: the decoded JSON value, its `%v` rendering, and `extractJSONValue`.
  `extractJSONValue` appears twice: as the specification `Lookup` over the
  recursive walk `Navigate`, and as the loop method `ExtractJsonValue` proved
  equal to it.
- `Parsing`: the `Parser` configuration and the library calls as given functions (`Library`).
  `Select` is the per-kind text selection and `ParseData` is `parseData`.
- `Fetching`: the `Exporter` configuration, the three sources as given functions (`Sources`), and `FetchData`.
- `Collection`: metrics, the two cache tables and the freshness test.
  - `Step` specifies one loop iteration of `Collect`.
  - `Scrape` specifies a whole call.
  - `CustomCollector` is a class holding the two tables (`metrics`, `lastFetch`) as map fields.
    Its `Collect` method loops over the exporters, updates the tables in place, and appends one metric per exporter to its output.
    It is proved equal to `Scrape`.

Time is Go's monotonic clock reading in nanoseconds, as an `int`.
`Collect` reads the clock twice for each exporter:
- once for the freshness test (`time.Since`, line 103);
- once, after the fetch, for the time it stores (`time.Now`, line 137).

The model therefore takes both readings per exporter (`Readings(check, store)`).
In the same way every fetch runs its command, request or file read anew, so `Collect` takes one `Sources` per exporter (`Collection.Fetchers`): two exporters with the same command, URL or file path may see different payloads within one scrape.
A freshness test compares `time.Since` with `time.Duration(interval) * time.Second`.
`time.Since` saturates at the int64 bounds, while the duration product wraps around in int64 arithmetic.
The model writes both out.
The code keeps two tables, not one table of (value, time) entries.
Collect writes both tables together, so they always hold the same names (`Collection.Consistent`).
That is proved as an invariant of `Collect`.

## Model

| member | source | states |
|---|---|---|
| Collection.CustomCollector.constructor | cmd/custom-exporter/main.go:71-77 | a new collector keeps its exporters and starts with both tables empty (hence consistent) |
| Collection.CustomCollector.Collect | cmd/custom-exporter/main.go:94-141 | the emitted metrics and the new tables are exactly what `Scrape` gives for the old tables, the exporters in order, the clock readings and the sources each fetch finds; the two tables stay consistent |
| Collection.Scrape | cmd/custom-exporter/main.go:95-141 | exactly one metric is emitted per configured exporter, in configuration order, each named after its exporter; consistency of the tables is preserved |
| Collection.Step | cmd/custom-exporter/main.go:97-140 | after one iteration, the exporter's name is in both tables and the metric cached under it is the one emitted; consistency is preserved |
| Collection.NewConstMetric | cmd/custom-exporter/main.go:117-132 | the metric carries the exporter's name, description, labels and the given value, and is a counter exactly when the metric type is "counter", a gauge otherwise |
| Collection.IntervalDuration | cmd/custom-exporter/main.go:103 | the interval in nanoseconds is always an int64, and equals interval × 10^9 whenever that product fits in int64 |
| Collection.Since | cmd/custom-exporter/main.go:103 | the elapsed time is the difference of the two readings when that fits in int64, and is clamped to the nearer int64 bound otherwise; it is never negative on a clock that has not run backwards |
| Collection.HitReusesCache | cmd/custom-exporter/main.go:97-108 | on a hit (entry present, fresh, metric cached) the cached metric is emitted unchanged, neither table changes, and the result does not depend on what a fetch would return |
| Collection.SecondScrapeWithinInterval | cmd/custom-exporter/main.go:103-108 | the next step for the same exporter within the interval re-emits what the previous step left, whatever the sources would now return: one fetch per interval |
| Collection.NonPositiveIntervalNeverFresh | cmd/custom-exporter/main.go:103 | with a non-positive interval duration no entry is ever fresh, on a clock that does not run backwards |
| Collection.NonPositiveSecondsNeverFresh | cmd/custom-exporter/main.go:103 | an interval of zero or fewer seconds (short of int64 wrap-around) never lets an entry count as fresh |
| Collection.HugeIntervalWraps | cmd/custom-exporter/main.go:103 | every interval from 9 223 372 037 to 18 446 744 073 seconds wraps to a negative duration, so such an exporter is fetched on every scrape |
| Collection.HugeIntervalCycles | cmd/custom-exporter/main.go:103 | larger intervals cycle back to positive durations: 18 446 744 074 seconds reads as 290 448 384 ns |
| Collection.Fresh | cmd/custom-exporter/main.go:103 | an entry is fresh when the name is in `lastFetch` and `Since(now, t) < IntervalDuration(interval)`; a fresh entry on a clock that has not run backwards implies a positive interval duration |
| Collection.Hit | cmd/custom-exporter/main.go:103-105 | the cached metric is reused when the entry is fresh and a metric is cached; on consistent tables a hit is exactly a fresh entry |
| Collection.FreshWithinInterval | cmd/custom-exporter/main.go:103-105 | when the readings and the interval fit in int64, an entry is fresh exactly when less than the interval has elapsed since its fetch, and the cache is hit exactly when it is also fresh and a metric is cached |
| Collection.MissRefetches | cmd/custom-exporter/main.go:111-140 | on a miss the step fetches once, overwrites both entries for the name (metric with the fetched value, time with the second reading) and leaves every other name's entries as they were |
| Collection.StaleEntryRefetches | cmd/custom-exporter/main.go:103-137 | once the interval has passed since the last fetch, the next step fetches again and stores the new fetch time |
| Collection.FailedFetchEmitsZero | cmd/custom-exporter/main.go:112-140 | a failed fetch still emits, and caches, a metric named after the exporter with value 0 |
| Collection.ScrapeLeavesOthers | cmd/custom-exporter/main.go:95-141 | a scrape leaves the entries of every name no exporter in it carries untouched |
| Collection.ScrapeCachesAll | cmd/custom-exporter/main.go:134-138 | after a scrape every configured exporter has an entry in both tables |
| Collection.StepKeepsNames | cmd/custom-exporter/main.go:134-138 | a step never removes a name from either table |
| Fetching.Retrieve | cmd/custom-exporter/main.go:149-155 | the payload is what one of the three sources returns for the exporter's command, URL or file path |
| Fetching.RetrieveConsultsOneSource | cmd/custom-exporter/main.go:149-155 | only the source the exporter type names is consulted: sources that agree on it give the same payload |
| Fetching.FetchData | cmd/custom-exporter/main.go:145-166 | every error comes with the value 0; no error implies a supported exporter type whose source delivered a payload |
| Fetching.FetchUnsupported | cmd/custom-exporter/main.go:156-157 | an unsupported exporter type fails with that type and consults no source |
| Fetching.FetchSourceFailure | cmd/custom-exporter/main.go:160-162 | a failing source gives its own error with value 0, independent of the parser and the library calls |
| Fetching.FetchParses | cmd/custom-exporter/main.go:164-165 | a delivered payload is parsed with the exporter's own parser and that is the result |
| Parsing.StrategyOf | cmd/custom-exporter/main.go:219-262 | each of "regex", "json", "line", "split" selects its strategy exactly when the type is that text; every other text selects the whole payload |
| Parsing.Select | cmd/custom-exporter/main.go:219-262 | the fallback kind always selects; the line, split and fallback kinds select trimmed text; selection errors are never type, source or number errors |
| Parsing.SelectRegex | cmd/custom-exporter/main.go:220-230 | succeeds exactly when the pattern compiles and the match has a capture group; fails with the compile error exactly when the pattern does not compile, and with "no match" otherwise |
| Parsing.SelectJson | cmd/custom-exporter/main.go:232-243 | fails with the decoder's error exactly when the payload does not decode, otherwise only with a walk error; a decodable payload and an empty path always select |
| Parsing.Lines | cmd/custom-exporter/main.go:246 | the newline pieces of the trimmed payload: at least one, none holding a newline, and joined by newlines they give back the trimmed payload |
| Parsing.Tokens | cmd/custom-exporter/main.go:253 | the delimiter pieces of the trimmed payload: joined by the delimiter they give it back; for a non-empty delimiter there is at least one and none holds the delimiter |
| Parsing.SelectLine | cmd/custom-exporter/main.go:245-250 | succeeds exactly for 0 ≤ line number < number of lines, with trimmed text; otherwise the out-of-range error carries the line number |
| Parsing.SelectToken | cmd/custom-exporter/main.go:252-257 | succeeds exactly for 0 ≤ index < number of pieces, with trimmed text; otherwise the out-of-range error carries the index |
| Parsing.ParseData | cmd/custom-exporter/main.go:216-271 | no error exactly when a text was selected and it reads as a number, and then the value is that number; every error comes with the value 0 |
| Parsing.ParseDataErrors | cmd/custom-exporter/main.go:264-268 | the reported error is the selection's own error, or "not a number" for a selected text that does not parse |
| Parsing.RegexSelectsFirstGroup | cmd/custom-exporter/main.go:220-230 | the regex parser succeeds exactly when the pattern compiles and the match has a capture group, yields the first group, and reports a compile error as such |
| Parsing.JsonDecodeFailure | cmd/custom-exporter/main.go:232-237 | a payload that does not decode fails with the decoder's message, value 0 |
| Parsing.JsonEmptyPath | cmd/custom-exporter/main.go:232-243 | with an empty path a decodable payload selects the rendering of the whole value |
| Parsing.JsonNestedKey | cmd/custom-exporter/main.go:239-240 | in any decoded object, a path "outer.inner" selects the rendering of the value under inner inside the object under outer, and reports the first missing key as not found |
| Parsing.JsonArrayIndex | cmd/custom-exporter/main.go:290-298 | in any decoded object, a path "key.i" into the array under key selects element i when 0 ≤ i < length and reports i as out of range otherwise, negative i included |
| Parsing.TwoSegments | cmd/custom-exporter/main.go:279 | "a.b" splits on "." into exactly a and b when neither contains a dot |
| Parsing.LineZeroInRange | cmd/custom-exporter/main.go:246-247 | line 0 is always in range, since splitting on a newline yields at least one piece |
| Parsing.LineBounds | cmd/custom-exporter/main.go:245-249 | the line parser succeeds exactly for 0 ≤ line number < number of lines of the trimmed payload, and otherwise fails with the out-of-range error and value 0 |
| Parsing.LineSelected | cmd/custom-exporter/main.go:245-250 | a selected line is trimmed and holds no newline, and the lines joined with newlines give back the trimmed payload |
| Parsing.LineOfJoined | cmd/custom-exporter/main.go:245-250 | for a trimmed payload made of newline-free lines joined by newlines, the line parser returns the trimmed k-th line or the out-of-range error |
| Parsing.SplitBounds | cmd/custom-exporter/main.go:252-256 | the split parser succeeds exactly for 0 ≤ index < number of pieces of the trimmed payload, and otherwise fails with the out-of-range error and value 0 |
| Parsing.SplitSelected | cmd/custom-exporter/main.go:252-257 | for a non-empty delimiter a selected token is trimmed and holds no delimiter, and the tokens joined with the delimiter give back the trimmed payload |
| Parsing.TokenOfJoined | cmd/custom-exporter/main.go:252-257 | for a trimmed payload made of tokens joined by a one-character delimiter they avoid, the split parser returns the trimmed k-th token or the out-of-range error |
| Parsing.SplitEmptyDelimiter | cmd/custom-exporter/main.go:252-257 | with an empty delimiter there is one token per character of the trimmed payload, and a selected token is at most one character long |
| Parsing.RawFallback | cmd/custom-exporter/main.go:259-261 | any other parser type, unknown ones included, selects the whole trimmed payload |
| Json.Render | cmd/custom-exporter/main.go:304 | `%v` rendering of scalars: null as `<nil>`, booleans as true/false, a number by the float formatter, a string as itself, unquoted |
| Json.RenderContainers | cmd/custom-exporter/main.go:304 | an array renders between `[` and `]`, an object between `map[` and `]` |
| Json.RenderEmpty | cmd/custom-exporter/main.go:276 | an empty array renders as `[]` and an empty object as `map[]` |
| Json.RenderSingleElement | cmd/custom-exporter/main.go:304 | a one-element array renders as that element's rendering in brackets |
| Json.RenderSingleKey | cmd/custom-exporter/main.go:304 | a one-key object renders as `map[` key `:` value `]` |
| Json.StepInto | cmd/custom-exporter/main.go:282-301 | a step succeeds only from an object or array and moves strictly inside it; on an object it succeeds exactly for a present key; every failure is a walk error |
| Json.Navigate | cmd/custom-exporter/main.go:281-302 | a walk fails only with a walk error, and a successful non-empty walk ends strictly inside the starting value |
| Json.Lookup | cmd/custom-exporter/main.go:274-305 | an empty path never fails, other failures are walk errors, and from a scalar a non-empty path fails with "cannot navigate" at its first segment |
| Json.ExtractJsonValue | cmd/custom-exporter/main.go:274-305 | the loop that reassigns the current value once per segment returns exactly `Lookup`: the rendering of the value the walk reaches, or the error of the first segment that cannot be taken |
| Json.LookupEmptyPath | cmd/custom-exporter/main.go:275-277 | an empty path never fails and yields the rendering of the whole value |
| Json.StepIntoObject | cmd/custom-exporter/main.go:283-288 | on an object a segment moves to the value under that key, and a missing key is "path not found" for that segment |
| Json.NavigateFromScalar | cmd/custom-exporter/main.go:299-300 | from a scalar, any remaining segment fails with "cannot navigate" at that segment |
| Json.StepIntoArrayAt | cmd/custom-exporter/main.go:290-298 | on an array, the decimal rendering of an in-range index moves to that element |
| Json.StepIntoArrayOutside | cmd/custom-exporter/main.go:295-296 | on an array, any other integer, negative ones included, is reported as out of range with its value |
| Json.StepIntoArrayNotInteger | cmd/custom-exporter/main.go:291-294 | on an array, any segment `strconv.Atoi` rejects (empty, a sign alone, a stray character, an overflow) is an invalid array index |
| Json.StepIntoArrayParsed | cmd/custom-exporter/main.go:290-298 | on an array, every segment: an invalid index when it does not parse, the element when it parses into [0, length), and out of range with the parsed value otherwise |
| Json.NonCanonicalSegments | cmd/custom-exporter/main.go:290-298 | "+1" and "01" select element 1, while "1a" and "-" are invalid indices |
| Json.NavigateAppend | cmd/custom-exporter/main.go:281-302 | walking p and then q is walking p + q; a failure within p is the failure of the whole walk |
| Json.NavigateStopsAtFailure | cmd/custom-exporter/main.go:281-302 | the walk reports the error of the first segment that cannot be taken, whatever segments follow it |
| Json.NavigateHasTrail | cmd/custom-exporter/main.go:281-304 | a successful walk takes exactly one successful step per segment and ends at the value it returns |
| Json.TrailNavigates | cmd/custom-exporter/main.go:281-304 | conversely, a chain of successful steps, one per segment, is a successful walk ending at the last value |
| Json.LookupReachesEnd | cmd/custom-exporter/main.go:279-304 | a successful lookup on a non-empty path took one step per dot-separated segment and rendered the last value reached |
| Text.TrimSpace | cmd/custom-exporter/main.go:246 | the trimmed text is no longer than the input and neither starts nor ends with white space |
| Text.TrimSpaceCuts | cmd/custom-exporter/main.go:246 | the trimmed text is one slice of the input, and everything cut off on either side is white space |
| Text.TrimSpaceIdempotent | cmd/custom-exporter/main.go:250 | trimming a trimmed text changes nothing |
| Text.TrimOfTrimmed | cmd/custom-exporter/main.go:250 | a text that neither starts nor ends with white space is its own trim |
| Text.Index | cmd/custom-exporter/main.go:253 | the separator's first occurrence, or -1 exactly when it does not occur |
| Text.Split | cmd/custom-exporter/main.go:253 | a non-empty separator always yields at least one piece; an empty one yields one piece per character |
| Text.SplitJoin | cmd/custom-exporter/main.go:253 | joining the pieces with the separator gives back the text that was split |
| Text.JoinSplitChar | cmd/custom-exporter/main.go:246 | splitting on a character undoes joining with it, for pieces that do not contain it |
| Text.SplitPiecesAvoidSep | cmd/custom-exporter/main.go:253 | no piece of a split contains the non-empty separator |
| Text.TrimmedPiece | cmd/custom-exporter/main.go:257 | a trimmed piece of a split is trimmed and does not contain the separator |
| Text.Atoi | cmd/custom-exporter/main.go:291 | a parsed integer lies in the int64 range and its text starts with a digit or a sign |
| Text.AtoiExamples | cmd/custom-exporter/main.go:291 | `strconv.Atoi` accepts a plus sign and leading zeros, and rejects a trailing letter and a sign alone |
| Text.AtoiItoa | cmd/custom-exporter/main.go:291 | every int64 rendered in decimal parses back to itself |
| Text.Sorted | cmd/custom-exporter/main.go:276 | the keys of a map listed once each, all of them, in strictly ascending order |
| Int64.Wrap | cmd/custom-exporter/main.go:103 | the result is an int64 congruent to the input modulo 2^64, and equals the input when it is already an int64 |
| Int64.Saturate | cmd/custom-exporter/main.go:103 | the result is the input clamped to the int64 range |

## Left out

- Sources: running the shell command (`sh -c`, 30-second timeout), the HTTP GET (10-second timeout) and reading the file (main.go:169-213) are I/O. They are given functions in `Fetching.Sources`, each returning the payload or an error message. `Collect` receives them once per exporter, since each fetch consults the source anew.
- Library calls: the RE2 regular-expression engine, `json.Unmarshal`, `strconv.ParseFloat` and the `%v` rendering of a float64 are given functions in `Parsing.Library`.
  - The model states how parseData uses each result, not how each library computes it.
  - Numbers are `real`, so float64 rounding, NaN and infinities are not modelled.
- Prometheus: `prometheus.NewDesc` and `MustNewConstMetric` (including their panics on an invalid name or label) are not modelled. A metric is a record of name, help text, labels, kind and value. Sending on the channel is appending to the output sequence.
- `Describe` (main.go:80-91): builds descriptors only. It is not modelled.
- Concurrency: the read/write mutex (main.go:67, 97-100, 135-138) and concurrent scrapes are not modelled; `Collect` is single-threaded.
- Logging of fetch errors (main.go:113-115) is not modelled.
- Configuration and wiring: `loadConfig`, `main`, the flags and the `/health`, `/uptime` and `/` handlers are not part of this model.
- Clock: both clock readings per exporter are inputs (`Collection.Readings`). Nothing is assumed about their order. Lemmas that need a clock that does not run backwards say so in their preconditions.
- Text encoding: strings are sequences of Unicode scalar values. Invalid UTF-8 in a payload is not modelled, and neither is the byte-level behaviour of `strings.TrimSpace` on it.
- Text.Atoi: its contract states only that a result is an int64 and that the text starts with a digit or a sign. The full grammar (optional sign, then at least one decimal digit, nothing else) is in its definition, and `Text.AtoiItoa` proves the round trip.
- Error messages: they are constructors of `Errors.Error` carrying the data they print, not formatted strings.
