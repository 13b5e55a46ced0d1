# Verified model of the `imtlab/pkg` helper packages

This Dafny project models five small Go packages of a helper library for an ETL pipeline and
proves what each of them promises:

- `throttle` — a sliding-window call throttle. After `Init(limit, seconds)`, every call to
  `GetSleepDuration` reserves an instant for its caller and returns how long the caller must
  wait for it. The reservation is remembered in a FIFO queue of at most `limit` instants. The
  model is the class `Throttle.TThrottle`. The queue is a `seq<int>` field, and the clock
  reading (`time.Now()`) is a parameter in nanoseconds. A ghost field records the clock
  readings passed in. The central theorem, `Throttle.RateBound`, says: if the clock never goes
  back, no half-open window of length `duration` contains more than `limit` of the instants
  handed out. Its proof goes through value-level functions. `QueueOf` folds one call after
  another into the queue. `Schedule` lists the instants reserved. `Scheduled` is the recurrence
  those instants follow. `Throttle.ThreePerTenSeconds` works through an example: three
  calls per ten seconds.
- `excel` — conversion between a 0-based column index and Excel's column indicator (`A` ..
  `XFD`). Indicators are sequences of runes, and Go's `rune` arithmetic (`int32`) is modelled
  with explicit wrap-around (`GoInt.Wrap32`). Go's truncating `/` and `%` are modelled by
  `GoInt.Quo` and `GoInt.Rem`. Round trips are proved in both directions, for every index from 0
  to 18277 and for every string of one to three letters.
- `utils` — the integer helpers (`ComputeProgressDivisor`, `Ceiling`, `EuclidGCD`, `Plural`),
  the rune-indexed `Substring` and `SubstringFromEnd`, the file-name split (`BaseName`,
  `Extension`, `FilenameSplit`), `BuildMapKeyToIndex`, `RemoveBOM` (in place, on an `array`)
  and `XStringFromXInt`.
- `directorytree` — the class `DirTree.DirectoryTree`, whose `Children` map `AddPath` and
  `Build` extend. The nodes below the root are values of the datatype `DirTree.Tree`. Proved:
  `AddPath` adds exactly the prefixes of the split path. It keeps every chain that was there
  before, and it is idempotent. `Build` yields exactly the prefix closure of the split inputs,
  excluding `"/"`.
- `urlquerybuilder` — `UrlQueryProperty.String`, and the class `UrlQuery.UrlQueryBuilder` with
  `Append` and `String`. `String` builds its result with the same loop as the Go code and is
  proved equal to the `&`-join of the property strings.

The Go standard-library functions these packages call are modelled in the module `GoStrings`,
each with a lemma that characterises it (an inverse or a defining property):

- `strings.Join` and `strings.Split`: join undoes split, and split undoes join.
- `strings.TrimSpace`: it yields the slice between the leading and the trailing white space.
- `strconv.Itoa`: reading the result back gives the number.
- `path.Ext`, and `len` of a string as its UTF-8 byte length.

A Go string is modelled as its sequence of code points.

## Model

| member | source | states |
|---|---|---|
| Throttle.Reservation | throttle/throttle.go:32-44 | the instant a call reserves is never before `now`; it is `now` while the queue is not full; once full, it is `now` or `oldest + duration`, and never before `oldest + duration` |
| Throttle.Admit | throttle/throttle.go:32-44 | the queue grows by one while not full and keeps its length once full |
| Throttle.AdmitCases | throttle/throttle.go:32-44 | the three branches of a call: not full appends `now`; full with `oldest + duration` after `now` drops the oldest and appends `oldest + duration`; full otherwise drops the oldest and appends `now` |
| Throttle.WaitIsDelayUntilOldestExpires | throttle/throttle.go:34-41 | the returned wait is non-negative; it is `oldest + duration - now` when the queue is full and that is after `now`, and 0 otherwise |
| Throttle.Schedule | throttle/throttle.go:25-48 | the instants handed out over a history of calls: one per call, each computed by `Reservation` on the queue of the latest `limit` reservations |
| Throttle.RecentStep | throttle/throttle.go:32-44 | the latest `limit` reservations, extended by one more call, evolve exactly as the queue does |
| Throttle.QueueIsRecent | throttle/throttle.go:22-44 | the queue of a throttle always holds exactly the latest `limit` reservations |
| Throttle.ReservationIsScheduled | throttle/throttle.go:34-44 | the instant a call computes on the queue is the schedule's next entry |
| Throttle.ScheduleStep | throttle/throttle.go:32-44 | one more call extends a schedule that follows the recurrence |
| Throttle.ScheduleFollowsRecurrence | throttle/throttle.go:32-44 | reservation `k` is the call's own instant for the first `limit` calls; afterwards it is the later of the call's instant and `duration` after the reservation `limit` calls earlier |
| Throttle.ScheduleSorted | throttle/throttle.go:32-44 | with a clock that never goes back, the reservations are in ascending order |
| Throttle.SchedulesAreSpaced | throttle/throttle.go:34-41 | every reservation is at least `duration` after the one it evicted |
| Throttle.SpacedWindowBound | throttle/throttle.go:1-2 | a sorted sequence whose elements `limit` apart are at least `duration` apart has at most `limit` elements in any window of length `duration` |
| Throttle.ScheduleRateBound | throttle/throttle.go:1-2 | with a clock that never goes back, at most `limit` reservations fall in any window `[lo, lo + duration)` |
| Throttle.TThrottle.constructor | throttle/throttle.go:12-17 | the zero value: not initialised, limit and duration 0, empty queue |
| Throttle.TThrottle.Init | throttle/throttle.go:19-23 | sets `limit` and `duration = seconds * time.Second` and empties the queue; requires a limit of at least 1 |
| Throttle.TThrottle.GetSleepDuration | throttle/throttle.go:25-48 | requires `Init` to have run; leaves `limit` and `duration` alone; the new queue is `Admit` of the old; the wait is the reservation minus `now` and is non-negative; the queue stays within `limit`. With `Valid`, `Throttle.QueueIsRecent` and `Throttle.ReservationIsScheduled` give that the queue is the latest reservations and that `now + dur` is the schedule's next entry |
| Throttle.RateBound | throttle/throttle.go:1-2 | for a throttle whose calls never passed a clock reading earlier than the previous one, no window of length `duration` holds more than `limit` of the instants it handed out |
| Throttle.QueueSorted | throttle/throttle.go:32-44 | with a clock that never goes back, the queue is in ascending order |
| GoInt.Quo | excel/excel.go:28 | Go's truncating quotient: its magnitude is the quotient of the magnitudes, and its sign follows the operands' signs |
| GoInt.Rem | excel/excel.go:29 | Go's remainder: `a == b * Quo(a, b) + r`, smaller in magnitude than `b`, with the sign of the dividend |
| GoInt.QuoRemNonNegative | utils/utils.go:26-27 | for a non-negative dividend and a positive divisor, Go's and Dafny's division agree |
| GoInt.Wrap32 | excel/excel.go:67 | the `int32` wrap-around of a result: in range, congruent modulo 2^32, and the identity on values in range |
| GoInt.Wrap32Step | excel/excel.go:67 | wrapping after every step of the decoding loop gives the same result as wrapping once at the end |
| Excel.IndexToColumnIndicator | excel/excel.go:22-59 | one to three runes, three exactly from index 702 (`AAA`) on; its lemmas below state the letters and the round trips |
| Excel.ColumnValue | excel/excel.go:61-72 | the unwrapped value the decoding loop accumulates; non-negative for letters; its lemmas below state the round trips |
| Excel.ColumnIndicatorToIndex | excel/excel.go:61-72 | the loop computes the indicator's value with `int32` wrap-around; the empty indicator gives 0 |
| Excel.OneLetter | excel/excel.go:25-35 | indices 0 to 25 are the single letters `A` to `Z` |
| Excel.TwoLetters | excel/excel.go:25-35 | indices 26 to 701 are the letter `i / 26 - 1` followed by the letter `i % 26` |
| Excel.ThreeLetters | excel/excel.go:36-56 | indices 702 to 18277 are three letters |
| Excel.IndicatorIsLetters | excel/excel.go:22-58 | for indices 0 to 18277, every output character is a letter from `A` to `Z`, one to three of them |
| Excel.LastExcelColumn | excel/excel.go:36-56 | the last Excel column, 16383, is `XFD` |
| Excel.RoundTrip | excel/excel.go:22-72 | decoding the indicator of any index from 0 to 18277 gives the index back, without wrapping |
| Excel.RoundTripThree | excel/excel.go:36-56 | the round trip for the three-letter branch |
| Excel.ReverseRoundTrip | excel/excel.go:22-72 | for every string of one to three letters, encoding its decoded value (which does not wrap) gives the string back |
| Excel.ReverseRoundTripTwo | excel/excel.go:25-35 | the reverse round trip for two letters |
| Excel.ReverseRoundTripThree | excel/excel.go:36-56 | the reverse round trip for three letters |
| Excel.ThreeLetterValue | excel/excel.go:61-72 | the decoded value of three letters is `702 + 676a + 26b + c` |
| Excel.EncodeThree | excel/excel.go:42-55 | the three-letter branch encodes `702 + 676a + 26b + c` as the letters `a b c` |
| GoStrings.Join | urlquerybuilder/urlquerybuilder.go:39 | joining no strings gives `""`, and joining one gives that string |
| GoStrings.JoinAppend | urlquerybuilder/urlquerybuilder.go:39 | joining a concatenation puts exactly one separator between the two joined halves |
| GoStrings.Split | directorytree/directorytree.go:27 | splitting gives at least one piece, and no piece holds the separator |
| GoStrings.JoinSplit | directorytree/directorytree.go:27 | joining the pieces with the separator gives the string back |
| GoStrings.SplitPrefix | directorytree/directorytree.go:27 | a prefix without the separator becomes part of the first piece |
| GoStrings.SplitJoin | directorytree/directorytree.go:27 | splitting undoes joining when no element holds the separator |
| GoStrings.TrimSpace | utils/utils.go:111 | the trimmed string fits after the leading white space |
| GoStrings.TrimSpaceIsSlice | utils/utils.go:111 | the trimmed string is the slice of the input right after its leading white space, and only white space follows it |
| GoStrings.TrimSpaceEnds | utils/utils.go:111 | a non-empty trimmed string starts and ends with a non-space |
| GoStrings.Digits | utils/utils.go:74 | the decimal digits of a number: at least one, all digits, and no leading zero |
| GoStrings.Itoa | utils/utils.go:74 | `strconv.Itoa`: at least one character, with a leading `-` exactly for negative numbers; `GoStrings.ItoaRoundTrip` reads it back |
| GoStrings.ItoaRoundTrip | utils/utils.go:74 | reading back the decimal form of any integer gives the integer |
| GoStrings.Utf8Len | utils/utils.go:329 | the byte length of a string lies between its rune count and four times that |
| GoStrings.PathExt | utils/utils.go:328 | the extension is a suffix of the path |
| GoStrings.PathExtEmpty | utils/utils.go:328 | the extension is empty exactly when the final path element holds no `.` |
| GoStrings.PathExtShape | utils/utils.go:328 | a non-empty extension starts with its only `.` and holds no `/` |
| Utils.ComputeProgressDivisor | utils/utils.go:25-31 | the result times the divisor equals the count exactly when the divisor divides the count; the two lemmas below give the ceiling |
| Utils.ProgressDivisorIsCeiling | utils/utils.go:25-31 | for a non-negative count and a positive divisor, the result is the least multiplier that covers the count |
| Utils.ProgressDivisorNegativeCount | utils/utils.go:25-31 | for a negative count that is not a multiple of the divisor, the result is one more than the least covering multiplier |
| Utils.Ceiling | utils/utils.go:428-435 | the least quotient whose product with the divisor covers the dividend |
| Utils.CommonDivisorsStep | utils/utils.go:421-423 | one step of the loop keeps the set of common divisors |
| Utils.EuclidGCD | utils/utils.go:420-426 | the result is a common divisor of `p` and `q` that every common divisor divides; `EuclidGCD(p, 0) == p` |
| Utils.Plural | utils/utils.go:437-443 | `""` exactly when the count is 1, otherwise `"s"` |
| Utils.XStringFromXInt | utils/utils.go:67-77 | same length as the input; element `i` is the decimal form of input `i` and reads back as it |
| Utils.Substring | utils/utils.go:86-115 | a start at or past the end gives `("", 0)`; the reported length stays inside the input and bounds the output's length |
| Utils.SubstringToEnd | utils/utils.go:90-111 | with a limit of 0, or one reaching past the end, the result is the rest of the input, trimmed, with the number of runes left |
| Utils.SubstringWithin | utils/utils.go:90-111 | with a non-zero limit inside the input, the result is the `limit` runes from the start, trimmed, with the limit |
| Utils.SubstringAsWritten | utils/utils.go:86-115 | the Go code as written, with the `uint` sum wrapping and `None` for the panic; when it returns, the output is no longer than the reported length |
| Utils.SubstringAsWrittenPanics | utils/utils.go:90-111 | the Go code panics exactly when the start is inside the input and start plus limit overflows `uint` |
| Utils.SubstringMaxLimitPanics | utils/utils.go:90-111 | `Substring("ab", 1, 2^64 - 1)` panics in Go, while the corrected function gives `("b", 1)` |
| Utils.SubstringAsWrittenAgrees | utils/utils.go:86-115 | whenever the sum does not overflow, the Go code and the corrected function agree |
| Utils.SubstringFromEnd | utils/utils.go:118-134 | `""` for limit 0; the input unchanged when it has at most `limit` runes; otherwise its last `limit` runes, trimmed |
| Utils.FilenameSplit | utils/utils.go:349-367 | base and extension concatenate to the name; the extension is empty exactly when `path.Ext` is empty or longer than the limit in bytes; otherwise it is `path.Ext`, starts with `.` and holds no `/` |
| Utils.BaseName | utils/utils.go:319-334 | the first component of `FilenameSplit` |
| Utils.Extension | utils/utils.go:336-347 | the second component of `FilenameSplit` |
| Utils.BuildMapKeyToIndex | utils/utils.go:465-478 | the map's keys are exactly the input's elements, and each maps to its first position; the error is set exactly when some key occurs twice, and then names such a key |
| Utils.RemoveBOM | utils/utils.go:483-488 | drops one leading U+FEFF from the first field and leaves every other field unchanged; the first field must not be empty |
| DirTree.Insert | directorytree/directorytree.go:30-46 | the walk keeps every child of the node and leaves the first name among them; the lemmas below state the chains it adds |
| DirTree.InsertAddsPrefixes | directorytree/directorytree.go:30-46 | after the walk, every prefix of the names is a chain of child links from the root |
| DirTree.InsertKeeps | directorytree/directorytree.go:38-44 | the walk never removes or replaces a child: every chain present before is still there |
| DirTree.InsertOnlyPrefixes | directorytree/directorytree.go:30-46 | the walk adds only prefixes of the names |
| DirTree.InsertPresent | directorytree/directorytree.go:38-44 | walking a chain that is already there changes nothing |
| DirTree.InsertIdempotent | directorytree/directorytree.go:30-46 | walking the same names twice gives the tree that walking them once gives |
| DirTree.AddedPath | directorytree/directorytree.go:22-47 | `AddPath` on a value: it keeps the root's children and adds the first name of any path other than `"/"` |
| DirTree.AddedPathContains | directorytree/directorytree.go:22-47 | the chains after `AddPath(p)` are those before, plus the prefixes of `strings.Split(p, "/")` unless `p` is `"/"` |
| DirTree.AddedPathIdempotent | directorytree/directorytree.go:22-47 | `AddPath` is idempotent |
| DirTree.BuildFrom | directorytree/directorytree.go:49-53 | `Build` on a value: it keeps the root's children and adds the first name of every input other than `"/"` |
| DirTree.BuildContains | directorytree/directorytree.go:49-53 | after `Build(xs)` the chains are those before, plus the prefixes of the split inputs other than `"/"`; from an empty root, exactly their prefix closure |
| DirTree.DirectoryTree.constructor | directorytree/directorytree.go:18-20 | the zero value: a root without children |
| DirTree.DirectoryTree.AddPath | directorytree/directorytree.go:22-47 | the new tree is the old one with the names of the split path walked in; `"/"` changes nothing |
| DirTree.DirectoryTree.Build | directorytree/directorytree.go:49-53 | the new tree comes from applying `AddPath` to each path in order |
| UrlQuery.UrlQueryProperty.String | urlquerybuilder/urlquerybuilder.go:22-24 | the key, then `=`, then the value |
| UrlQuery.PropertyRoundTrip | urlquerybuilder/urlquerybuilder.go:22-24 | a property whose key holds no `=` is recovered from its string |
| UrlQuery.PropertyStrings | urlquerybuilder/urlquerybuilder.go:35-38 | one string per property, in order, each the property's string |
| UrlQuery.QueryString | urlquerybuilder/urlquerybuilder.go:33-40 | an empty builder gives `""`, and a one-element builder gives that property's string |
| UrlQuery.QueryStringAppend | urlquerybuilder/urlquerybuilder.go:29-40 | appending non-empty `ps` to a non-empty builder gives its string, then `&`, then the string of `ps` |
| UrlQuery.UrlQueryBuilder.constructor | urlquerybuilder/urlquerybuilder.go:19 | the zero value: no properties |
| UrlQuery.UrlQueryBuilder.Append | urlquerybuilder/urlquerybuilder.go:29-31 | the old properties followed by the new ones, in order, so the old prefix is unchanged and appending nothing changes nothing |
| UrlQuery.UrlQueryBuilder.String | urlquerybuilder/urlquerybuilder.go:33-40 | the loop's result is the `&`-join of the property strings, in order |

## Findings

| source | as written | input that shows it | evidently intended | confidence | as-written member | corrected member |
|---|---|---|---|---|---|---|
| utils/utils.go:91 | the upper rune index is the `uint` sum of start and limit, which wraps modulo 2^64; a wrapped sum passes the length test and makes the slice expression panic | `Substring("ab", 1, 2^64 - 1)`: the largest `uint` as a "no limit" value | a limit that reaches past the end yields the rest of the input: `("b", 1)` | not executed | Utils.SubstringAsWritten | Utils.Substring |

`Utils.SubstringMaxLimitPanics` exhibits the panic for the input above, and
`Utils.SubstringAsWrittenPanics` characterises exactly the inputs that panic.
`Utils.SubstringToEnd` and `Utils.SubstringWithin` prove the intended behaviour of the
corrected function. `Utils.SubstringAsWrittenAgrees` shows the two agree wherever the sum
does not overflow.

## Left out

- The `sync.Mutex` of `TThrottle` is left out. It only serialises concurrent callers, and the model has one sequential caller.
- `time.Now()` is replaced by the `now` parameter of `GetSleepDuration`, an integer number of nanoseconds. Go's monotonic clock reading is not modelled.
- The `log.Fatalln` abort for an uninitialised throttle becomes a precondition of `GetSleepDuration`.
- The Go channel is modelled as a `seq<int>` queue of at most `limit` entries.
- Throttle.TThrottle.Init: demands `limit >= 1`, which the Go code does not check. A negative capacity makes `make` panic. With capacity 0, the first call would block for ever receiving from an empty channel. The code does not check the window, and neither does the model: any `duration` is accepted.
- The `int64` overflow of `time.Duration` (seconds times `time.Second`, instant plus duration) is not modelled. Instants and durations are unbounded integers.
- Go `int` overflow in `ComputeProgressDivisor` and in `XStringFromXInt`'s inputs is not modelled.
- `ComputeProgressDivisor` is not the ceiling for negative counts, because truncation already rounds them up. `Utils.ProgressDivisorNegativeCount` states what the code computes there. It is not listed as a finding, because item counts are never negative.
- Excel.IndicatorIsLetters: stops at `ZZZ` (18277). Larger indices give runes past `Z`, and only the encoding function describes them.
- `string(xRunes)` replacing an invalid rune by U+FFFD is not modelled. The Excel functions work on rune sequences.
- Invalid UTF-8 in Go strings is not modelled. The `[]rune` conversion in `Substring`, `SubstringFromEnd` and `RemoveBOM`, and `ColumnIndicatorToIndex`'s ranging over a string, become the identity on code-point sequences.
- Utils.ComputeProgressDivisor, Utils.Ceiling: Go's run-time panic on division by zero becomes the precondition that the divisor is non-zero (`Ceiling`: positive, as its divisor is unsigned).
- UrlQuery.UrlQueryBuilder: the Go type is a slice value, so copies share the backing array that `append` writes into, and `String` has a value receiver. The class reference captures none of this sharing.
- Utils.RemoveBOM: requires a non-empty record and a non-empty first field, where Go would panic on the index.
- Utils.BuildMapKeyToIndex: returns the duplicated key instead of the formatted error message. Like the Go loop, it keeps the last duplicate found.
- DirTree.DirectoryTree.AddPath: the descent through `*DirectoryTree` pointers is modelled on values (`DirTree.Insert`). Aliasing between nodes is not captured. The Go tree never shares nodes.
- `RecurseMkdirWhereNotExists` and the commented-out `RecurseMkdirAllAtLeaves` are left out: they are file-system I/O (stat, mkdir, chmod).
- The packages `aws/lambda/envvars` are left out: environment reads, base64 decoding and KMS network calls. The package `loggers` is left out: global log writers.
- From `utils`, `CamelCase`, `TestCamelCase`, `removeDiacritics`, `validForCamelCase` and `isAscii` are left out: they rely on Unicode normalisation and category tables.
- From `utils`, `DigitCount` and `IsExactUint64` are left out: they use floating point and `big.Rat`.
- From `utils`, `GetSleepDuration` (randomness), `Sleep` and `ConvertTimeIsoToUnix` (clock and RFC 3339 parsing), `ExecuteCommand` (processes and pipes) and `ErrorsToMessages` (foreign `Error()` calls) are left out.
- The commented-out non-generic `EuclidGCD` and `BuildMapStringKeyToIndex` are the generic versions at `string` and `uint`, so they are not modelled separately.
