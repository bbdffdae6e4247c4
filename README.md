# go-utils, modelled in Dafny

This project models the core of `go-utils`, a small library of Go helpers for
services that stream rows into BigQuery and pass messages through RabbitMQ. It
covers five parts:

- **util**: hashing (`Hash32`), panicking on errors, environment lookups with
  fallbacks, and `envsubst`-style replacement of `$NAME` placeholders.
- **time utilities**: `TimeStartOf` and `TimeEndOf`. These snap a time to the
  start or the end of its year, month, Monday-based week, day, hour, minute or
  second.
- **bq/encode**: `EncodeLegacy`, which turns a Go struct into a BigQuery row map
  using `bigquery` field tags, embedding, nesting, pointers and `omitEmpty`.
- **bq/tables and bq/bq**: schema comparison, `EnsureTable` (create or update a
  table's schema), and the client wrapper's table-prefix and row-queueing logic.
- **amqp**: the RabbitMQ topology and the retry ladder. A message whose handler
  fails is published to a delay queue. It is dead-lettered back to the ready
  queue after that queue's time-to-live (TTL). From the ready queue it is
  republished to its original exchange and routing key. After seven tiers it is
  dropped.

Modules:

| file | module | contents |
|---|---|---|
| `wrappers.dfy` | `Wrappers` | `Option`, `Result` |
| `strconv.dfy` | `Strconv` | Go's `strconv.Atoi`/`Itoa` and `%0Nd` on 64-bit ints |
| `util.dfy` | `Util` | UTF-8, 32-bit FNV-1, `%x`, `Hash32`, `PanicOnError`, `Getenv`, `GetenvInt`, `envsubst` |
| `time.dfy` | `TimeUtil` | proleptic Gregorian calendar, `time.Date` normalization, `Add`, `AddDate`, `Truncate`, `TimeStartOf`, `TimeEndOf` |
| `bq_encode.dfy` | `BqEncode` | struct values as a tree; `EncodeLegacy` as a function and as the source's field loop |
| `bq_tables.dfy` | `BqTables` | `IsSameSchema` (the nested loops), `EnsureTable` as a decision over the three client results |
| `bq.dfy` | `Bq` | `BigQueryWrapper` as a class; the insert worker as a queue of rows |
| `amqp.dfy` | `Amqp` | the package state as a `Dispatcher` class whose log records every channel call |
| `amqp_ladder.dfy` | `AmqpLadder` | properties of the ladder, the consumer loop, tags and counts |

How Go's semantics are represented:

- **Integers.** They are unbounded. Go's `uint64` consumer counter wraps, and the model writes the wrap out explicitly with `% Uint64Modulus`. The int64 limits that `strconv.Atoi` enforces are modelled as `MinInt64` and `MaxInt64`.
- **Times.** A time is a UTC `Date` and a clock that counts down to nanoseconds. `Instant` numbers nanoseconds from January 1 of year 1, which gives the order of times.
- **Reflection.** It is replaced by a value tree: `Struct`, `Timestamp`, `Ptr` and `Scalar`. Each field carries its name, its tag, and whether it is exported or embedded.
- **The RabbitMQ channel.** It is replaced by a log of the calls made on it, each an `Action`. The results the broker and the user's handler would return are parameters.

## Model

| member | source | states |
|---|---|---|
| Strconv.Atoi | util/util.go:32 | an error-free result lies in int64 and comes from an optional sign and digits only; a syntax error returns 0; a range error returns an int64 bound |
| Strconv.NatDigitsValue | services/amqp/amqp.go:254 | the decimal digits `Itoa` writes for a non-negative number read back as that number |
| Strconv.NatDigitsLength | services/amqp/amqp.go:26 | a number below 10^w has at most w digits, so `%04d` of a TTL below 10000 adds only padding |
| Strconv.LeadingZeros | services/amqp/amqp.go:26 | zero padding does not change the value a digit string denotes |
| Strconv.FormatPaddedValue | services/amqp/amqp.go:26 | `%0Wd` writes only digits, at least W of them, exactly W when the number fits, and they read back as the number |
| Strconv.FormatPaddedInjective | services/amqp/amqp.go:26 | two numbers never share a `%0Wd` text |
| Strconv.ItoaInjective | services/amqp/amqp.go:254 | two ints never share an `Itoa` text |
| Strconv.AtoiItoa | services/amqp/amqp.go:246-254 | round trip: `Atoi(Itoa(n))` returns every int64 `n` without error |
| Strconv.AtoiFormatPadded | services/amqp/amqp.go:26 | round trip: `Atoi` reads a zero-padded number back without error |
| Util.Utf8Char | util/util.go:20 | one character's UTF-8 encoding is 1 to 4 bytes, and a single byte exactly for ASCII, equal to the code point |
| Util.Utf8 | util/util.go:20 | a string's bytes are at least as many as its characters |
| Util.BigEndian | util/util.go:21 | `Sum(nil)` of a 32-bit hash is four bytes |
| Util.BigEndianRoundTrip | util/util.go:21 | round trip: the four big-endian bytes put back together give the hash value |
| Util.HexString | util/util.go:21 | `%x` writes two lowercase hex digits per byte |
| Util.HexValue | util/util.go:21 | each lowercase hex digit stands for a value below 16, which `%x` writes back as that digit |
| Util.HexByteRoundTrip | util/util.go:21 | the two hex digits of a byte decode back to the byte |
| Util.ParseHexString | util/util.go:21 | round trip: `%x` text decodes back to exactly the bytes it was written from |
| Util.Hash32 | util/util.go:18-22 | the loop computes 32-bit FNV-1 of the string's bytes (its UTF-8 encoding, the string being Unicode text), written as the hex of its four big-endian bytes; the result is always 8 lowercase hex digits |
| Util.Hash32Decodes | util/util.go:18-22 | the `Hash32` text decodes to exactly the FNV-1 value |
| Util.Hash32Hej | util/util_test.go:16-19 | `Hash32("hej") == "368ad1fa"` |
| Util.FnvHej | util/util_test.go:17 | FNV-1 of the bytes of "hej" is 0x368ad1fa |
| Util.PanicOnError | util/util.go:24-28 | panics exactly when `err` is non-nil, with `msg` followed directly by the error text |
| Util.Getenv | util/util.go:38-43 | the variable's value when it is set and non-empty, the fallback when it is unset or empty |
| Util.GetenvInt | util/util.go:30-36 | the `Atoi` value when it parses without error, the fallback on any error and when the variable is unset |
| Util.GetenvIntItoa | util/util.go:30-36 | an int64 written with `Itoa` is what `GetenvInt` reads back |
| Util.GetenvIntExamples | util/util_test.go:27-43 | "abc" and "" fall back; "123" gives 123 |
| Util.NameRun | util/util.go:62 | the longest prefix in `[A-Z_]`: all its characters are name characters and the next one is not |
| Util.SubstituteNoDollar | util/util.go:73-80 | text without a `$` is left unchanged |
| Util.SubstituteIdentity | util/util.go:73-80 | replacing each match by `$` and its own name restores the text: matches are `$` plus a maximal name, and nothing else changes |
| Util.SubstituteAppend | util/util.go:73-80 | substitution works piece by piece across any split where the second piece does not start with a name character |
| Util.SubstituteName | util/util.go:73-80 | a `$` followed by a whole name is replaced by the lookup of the name without the `$` |
| Util.SubstituteTwoNames | util/util.go:73-80 | `$X.$Y` becomes the two values joined by the `.`, since the `.` ends the first name |
| Util.EnvsubstTwoNames | util/util.go:73-80 | the same through `os.Getenv`, where unset variables become "" |
| Util.EnvsubstExample | util/util_test.go:96-102 | `$MY_VAR.$ANOTHER_VAR` becomes `hej2.hej3` |
| TimeUtil.DaysIn | util/time.go:46 | every month has 28 to 31 days |
| TimeUtil.Weekday | util/time.go:18-19 | the weekday is 0 (Sunday) to 6 (Saturday) |
| TimeUtil.AddDays | util/time.go:22 | moving by days keeps a date valid |
| TimeUtil.AddDaysNumber | util/time.go:22 | moving `k` days moves the day number by exactly `k`, in either direction |
| TimeUtil.AddDaysWithinMonth | util/time.go:22 | moving forward inside a month changes only the day |
| TimeUtil.PrevNextDay | util/time.go:40-56 | the day before the next day is the same day |
| TimeUtil.Normalize | util/time.go:13 | `time.Date` always yields a valid date |
| TimeUtil.NormalizeValid | util/time.go:23 | `time.Date` leaves an already valid date unchanged |
| TimeUtil.NormalizeDays | util/time.go:22 | adding days with `AddDate` moves the day number by exactly that many |
| TimeUtil.NormalizeInMonth | util/time.go:46 | with the month in range, the day counts on from the first of the month |
| TimeUtil.NormalizeNextDay | util/time.go:50 | `AddDate(0, 0, 1)` is the next calendar day |
| TimeUtil.DayNumberInYear | util/time.go:13 | a date's day number lies within its own year |
| TimeUtil.YearOfDayNumber | util/time.go:40 | the year of a date is the one whose day range holds its day number |
| TimeUtil.NextYear | util/time.go:40 | `AddDate(1, 0, 0)` lands in the next year, even from February 29 |
| TimeUtil.NormalizeInYear | util/time.go:40 | a month and day that are valid in some year stay inside year `y` after normalization |
| TimeUtil.AtClock | util/time.go:27-31 | a date plus nanoseconds within one day is a valid time |
| TimeUtil.Add | util/time.go:52-56 | `t.Add(d)` is a valid time |
| TimeUtil.AddInstant | util/time.go:52-56 | `t.Add(d)` moves the instant by exactly `d` nanoseconds |
| TimeUtil.AddDate | util/time.go:22 | `AddDate` yields a valid time |
| TimeUtil.AddDateDays | util/time.go:22 | `AddDate(0, 0, k)` moves the day number by `k` and keeps the clock |
| TimeUtil.MicrosecondBeforeMidnight | util/time.go:40-56 | one microsecond before a midnight is 23:59:59.999999 of the previous day |
| TimeUtil.TruncateIsAbsolute | util/time.go:26-31 | zeroing the smaller fields is Go's `Truncate`: the instant rounded down to a multiple of the hour, minute or second |
| TimeUtil.AtClockFields | util/time.go:26-31 | a time is recovered from its date and its nanoseconds since midnight |
| TimeUtil.DayNumberInjective | util/time.go:10-34 | different valid dates have different day numbers |
| TimeUtil.InstantInjective | util/time.go:10-34 | different valid times are different instants |
| TimeUtil.WeekDayDiff | util/time.go:18-21 | the offset back to Monday lies between -6 and 0 |
| TimeUtil.StartOf | util/time.go:10-34 | `TimeStartOf` always gives a valid time |
| TimeUtil.EndOf | util/time.go:37-59 | `TimeEndOf` always gives a valid time |
| TimeUtil.YearBounds | util/time.go:12-13 | "year" runs from January 1 00:00 to December 31 23:59:59.999999 of the same year |
| TimeUtil.MonthBounds | util/time.go:14-15 | "month" runs from day 1 00:00 to 23:59:59.999999 of the month's last day, February and 30- and 31-day months alike |
| TimeUtil.WeekStart | util/time.go:16-23 | the start of the week is midnight of a Monday 0 to 6 days before `t`, exactly `WeekDayDiff` days back |
| TimeUtil.StartOfWeekIs | util/time.go:16-23 | the start of the week is midnight of `t`'s date moved by `WeekDayDiff` days |
| TimeUtil.WeekBounds | util/time.go:47-48 | "week" runs from Monday 00:00 to 23:59:59.999999 of the Sunday six days later |
| TimeUtil.SundayOfDate | util/time.go:47-48 | six days after a Monday is a Sunday |
| TimeUtil.WeekLater | util/time.go:47-48 | a date a week later has the same offset back to its Monday |
| TimeUtil.DayBounds | util/time.go:24-25 | "day" runs from 00:00 to 23:59:59.999999 of `t`'s own date |
| TimeUtil.HourBounds | util/time.go:26-27 | "hour" keeps the larger fields and runs from :00:00 to :59:59.999999 |
| TimeUtil.MinuteBounds | util/time.go:28-29 | "minute" keeps the larger fields and runs from :00 to :59.999999 |
| TimeUtil.SecondBounds | util/time.go:30-31 | "second" keeps the larger fields and runs from .000000 to .999999 |
| TimeUtil.UnrecognisedIsIdentity | util/time.go:33 | an unrecognised granularity leaves the time as it is, in both functions |
| TimeUtil.StartAndEndAroundTime | util/time.go:10-59 | for every granularity the start is not after `t` and `t` is before the end plus one microsecond; `t` is not after the end when it has no sub-microsecond part |
| TimeUtil.EndOfBeforeSubMicrosecondTime | util/time.go:55-56 | at 04:05:06.9999995, the end of the second (04:05:06.999999) is already before `t` |
| TimeUtil.StartOfIdempotent | util/time.go:10-34 | taking the start twice equals taking it once |
| TimeUtil.EndOfSamePeriod | util/time.go:37-59 | the end lies in the same period as `t`: its start and its end are those of `t` |
| TimeUtil.WeekSamePeriod | util/time.go:47-48 | the end of the week lies in the same week as `t` |
| TimeUtil.SameMonday | util/time.go:16-23 | two Mondays within the six days up to a day are the same date |
| TimeUtil.StartOfExamples | util/time_test.go:10-22 | the package's `TimeStartOf` cases on 2016-02-03 04:05:06 |
| TimeUtil.EndOfExamples | util/time_test.go:39-51 | the package's `TimeEndOf` cases on 2016-02-03 04:05:06, with a leap February |
| TimeUtil.EndOfEdgeExamples | util/time_test.go:53-65 | month ends on March 31 and January 31; year ends on December 31 of 2016 and of 2015 |
| TimeUtil.MonthEndExample | util/time_test.go:53-57 | the end of month of the 31st of any 31-day month is that day's last microsecond |
| TimeUtil.YearEndExample | util/time_test.go:59-65 | the end of year of December 31 of any year is that day's last microsecond |
| TimeUtil.WeekExamples | util/time_test.go:25-36 | every day from Monday 2016-02-08 to Sunday 2016-02-14 starts on the 8th and ends on the 14th |
| BqEncode.Deref | db/bq/encode.go:16-18 | following pointers ends at a non-pointer value |
| BqEncode.EncodeLegacy | db/bq/encode.go:13-21 | errors exactly when the dereferenced value is not a struct; a struct gives the row of its fields; `time.Time` gives an empty row |
| BqEncode.Encode | db/bq/encode.go:13-68 | the field loop that fills the row in place computes `EncodeLegacy` |
| BqEncode.Merge | db/bq/encode.go:50-53 | copying an embedded struct's row writes each of its keys over the row |
| BqEncode.KeysAreReachable | db/bq/encode.go:23-65 | every key of a row comes from an exported, non-excluded field, possibly through embedding |
| BqEncode.ExcludedNeverAppears | db/bq/encode.go:31-34 | no row has the key "-" |
| BqEncode.AddFieldKeeps | db/bq/encode.go:23-65 | a field never removes a key already in the row |
| BqEncode.EncodeFieldsGrows | db/bq/encode.go:23-65 | the keys of a prefix of the fields stay in the row of all of them |
| BqEncode.FieldKeyPresent | db/bq/encode.go:54-63 | a kept, non-embedded field whose value `omitEmpty` does not drop has its key in the row |
| BqEncode.AddFieldOther | db/bq/encode.go:23-65 | a field that cannot write key `k` leaves the entry under `k` as it was |
| BqEncode.LastWriter | db/bq/encode.go:37-63 | the entry under a kept field's key is that field's own encoding (nested row, pointee, null or value) unless a later field writes the key |
| BqEncode.EmbeddedKeysMerged | db/bq/encode.go:50-53 | an embedded struct's row is merged over the row so far, so all its keys reach the row |
| BqEncode.DroppedFieldAbsent | db/bq/encode.go:58-63 | with `omitEmpty`, a zero or nil field leaves no key in the row unless another field writes that key |
| BqEncode.OmitEmptyOnlyDrops | db/bq/encode.go:59-63 | `omitEmpty` never adds a key |
| BqEncode.OmitEmptyNoNull | db/bq/encode.go:37-45 | with `omitEmpty`, no entry is null |
| BqEncode.TagExamples | db/bq/encode_test.go:47-82 | tags rename keys, "-" excludes, and `omitEmpty` decides whether an empty string is kept |
| BqEncode.TestStructRow | db/bq/encode_test.go:47-59 | the row of the test struct when no field is empty |
| BqEncode.EmbeddedExample | db/bq/encode_test.go:83-99 | an embedded struct's keys join the row |
| BqEncode.NestedExample | db/bq/encode_test.go:100-118 | a named struct field nests its own row |
| BqEncode.TimeExamples | db/bq/encode_test.go:119-138 | a `time.Time` field is stored as it is; the zero time is dropped by `omitEmpty` |
| BqEncode.PointerExamples | db/bq/encode_test.go:139-162 | nil pointers are null, or dropped by `omitEmpty`; other pointers store what they point to |
| BqTables.IsSameSchema | db/bq/tables.go:11-26 | the nested loops answer true exactly when every column of `s1` has a column with the same name and type in `s2` |
| BqTables.EmptyCovered | db/bq/tables.go:11-26 | an empty schema is covered by any schema |
| BqTables.CoversItself | db/bq/tables.go:11-26 | every schema covers itself |
| BqTables.CoversMonotone | db/bq/tables.go:11-26 | fewer columns on the left or more on the right keep a schema covered |
| BqTables.OrderIrrelevant | db/bq/tables.go:11-26 | reordering the columns on either side does not change the answer |
| BqTables.ExtraColumnsIrrelevant | db/bq/tables.go:11-26 | columns only `s2` has, matching nothing in `s1`, do not change the answer |
| BqTables.MissingNameDiffers | db/bq/tables.go:15-22 | a column of `s1` whose name `s2` lacks makes the answer false |
| BqTables.OtherAttributesIgnored | db/bq/tables.go:16 | only names and types are compared |
| BqTables.NotSymmetric | db/bq/tables.go:11-26 | the comparison is one-directional |
| BqTables.SchemaExamples | db/bq/tables_test.go:19-38 | the package's cases: empty schemas, one shared column, swapped columns, different columns |
| BqTables.CreateMetadata | db/bq/tables.go:41-46 | a new table gets `extraMeta`, or empty metadata, with the schema set |
| BqTables.EnsureTable | db/bq/tables.go:33-58 | writes exactly when the fetch failed or the schema is not covered; creates only after a failed fetch and updates under the fetched entity tag; panics exactly when the write fails |
| BqTables.EnsureTableConverges | db/bq/tables.go:33-58 | a run that does not panic leaves a table whose schema covers `schema`, and exactly `schema` when it wrote |
| BqTables.EnsureTableIdempotent | db/bq/tables.go:33-58 | a second run on the table a successful run left writes nothing |
| BqTables.CreateKeepsExtraMetadata | db/bq/tables.go:41-51 | a missing table is created with `extraMeta` apart from the schema, or with empty metadata |
| BqTables.EnsureTableExamples | db/bq/tables_test.go:49-188 | an outdated table is updated once; a missing one is created once; a failed create panics |
| Bq.InsertWorker.Enqueue | db/bq/bq.go:55 | the row is appended to the worker's queue |
| Bq.PrefixedTableId | db/bq/bq.go:36-41 | with a prefix the name is prefix, `_`, id; without one it is the id |
| Bq.PrefixedTableIdInjective | db/bq/bq.go:36-41 | under one prefix, two ids never share a table name |
| Bq.HostPrefixSplits | db/bq/bq.go:36-41 | with an 8-character prefix such as the host hash, prefix and id are read back from the name |
| Bq.BigQueryWrapper.constructor | db/bq/bq.go:70-78 | the given project and dataset, and no prefix |
| Bq.BigQueryWrapper.TableId | db/bq/bq.go:36-41 | the table name under the wrapper's current prefix |
| Bq.BigQueryWrapper.UseTablePrefix | db/bq/bq.go:59-67 | with `useIt` the prefix becomes the 8-hex-digit `Hash32` of the host name, and a failed lookup panics with "Cannot get hostname" followed by the lookup error, leaving the prefix as it was; without it the prefix is cleared |
| Bq.BigQueryWrapper.AddRow | db/bq/bq.go:48-57 | an encoding error is returned and nothing is queued; otherwise exactly one row for the prefixed table is queued, holding `EncodeLegacy(row, true)` |
| Bq.PrefixedWrapperExample | db/bq/bq.go:59-67 | a wrapper with a host prefix files a row under `<8 hex digits>_mytable` |
| Amqp.ConfigFromEnv | services/amqp/amqp.go:23-26 | each name is its environment variable when it is set and non-empty; with an empty environment all four are the defaults |
| Amqp.LadderDecls | services/amqp/amqp.go:110-125 | one delay-queue declaration per tier, in ladder order |
| Amqp.SumQueueMessages | services/amqp/amqp.go:355-360 | the loop adds up the per-queue counts |
| Amqp.BindingsAppend | services/amqp/amqp.go:280-306 | a new binding with the next tag and the ready-queue rule keeps the tag rules of every binding, and never loses the retry consumer |
| Amqp.Dispatcher.constructor | services/amqp/amqp.go:16-27 | the configuration from the environment, no calls made, the counter at 0, both once-flags unset |
| Amqp.Dispatcher.EnsureChannel | services/amqp/amqp.go:68-127 | the topology is declared on the first call only; nothing else changes |
| Amqp.Dispatcher.DeclareLadder | services/amqp/amqp.go:110-125 | the loop declares the delay queues of `LadderDecls`, in order |
| Amqp.Dispatcher.EnsureExchange | services/amqp/amqp.go:131-144 | after the topology if needed, one topic exchange declaration |
| Amqp.Dispatcher.EnsureQueue | services/amqp/amqp.go:148-160 | after the topology if needed, one queue declaration without arguments |
| Amqp.Dispatcher.Publish | services/amqp/amqp.go:218-233 | after the topology if needed, one publish with the given exchange, key and body and no headers; the broker's error is returned as it is |
| Amqp.Dispatcher.HandleFunc | services/amqp/amqp.go:271-306 | declares the exchange and the queue, binds them, consumes under `ctag-<counter+1 mod 2^64>`, and registers a binding that retries unless its queue is the ready queue |
| Amqp.Dispatcher.AddConsumer | services/amqp/amqp.go:280-306 | the counter advances, the tag is `ctag-` and the new counter, one `Consume` call, one binding appended |
| Amqp.Dispatcher.EnsureRetryConsumer | services/amqp/amqp.go:187-216 | the first call declares the topology if needed, then the retry exchange and the ready queue, binds them under the retry routing key and registers the return hop as the next consumer (`ctag-N`, counter advanced, never retrying); later calls change nothing, counter included |
| Amqp.Dispatcher.PublishRetry | services/amqp/amqp.go:235-266 | panics, publishing nothing, exactly when `_retryNumber` is not a string or is negative; otherwise appends the retry publish when the message is still on the ladder, nothing when it is past the end |
| Amqp.Dispatcher.Deliver | services/amqp/amqp.go:308-343 | one consumer-loop turn appends exactly the calls of `DeliveryActions` and reports a panic exactly when the delivery is not `DeliverySafe` (a header type assertion or a negative count fails); bindings and counter are unchanged |
| Amqp.Dispatcher.QueueTotalMessages | services/amqp/amqp.go:352-361 | after the topology if needed, the total is the sum of the reported counts, a queue that cannot be inspected counting 0 |
| AmqpLadder.CountsAppend | services/amqp/amqp.go:308-343 | acks and publishes add up over concatenated call logs |
| AmqpLadder.TopologyShape | services/amqp/amqp.go:80-125 | ready queue, topic retry exchange, their binding, then one delay queue per tier; each dead-letters to the retry exchange and key after its TTL in milliseconds |
| AmqpLadder.DelayQueueNameParses | services/amqp/amqp.go:26 | a delay-queue name is the base, `-` and four digits that read back as the tier's TTL |
| AmqpLadder.DelayQueueNameInjective | services/amqp/amqp.go:26 | different TTLs give different delay-queue names |
| AmqpLadder.DelayQueueNamesDistinct | services/amqp/amqp.go:22-26 | no two tiers share a delay queue |
| AmqpLadder.PaddedTtls | services/amqp/amqp.go:26 | `%04d` of 1, 5, 300 and 600 |
| AmqpLadder.DefaultDelayQueueNames | services/amqp/amqp_test.go:44-51 | the default delay-queue names the tests purge |
| AmqpLadder.RetryHeadersSpec | services/amqp/amqp.go:238-254 | the retry headers record the origin exchange and key, carry the count one higher as `Atoi` reads it back, and keep every other header |
| AmqpLadder.RetryPlanSpec | services/amqp/amqp.go:235-266 | nothing is published exactly when the count has reached the ladder's end; otherwise one publish on the default exchange to the tier's delay queue, body unchanged |
| AmqpLadder.ReturnPlanSpec | services/amqp/amqp.go:191-213 | the return hop drops exactly the messages past the ladder's end and republishes any other, body and headers as received, to the exchange and key its headers record |
| AmqpLadder.DeadLetter | services/amqp/amqp.go:110-114 | an expired delay-queue message arrives with its body and headers, on the retry exchange and routing key |
| AmqpLadder.RetryThenReturn | services/amqp/amqp.go:191-266 | round trip: a message sent up the ladder comes back to the exchange and key it failed on, with its body and its count one higher; it is dropped there only when it was just sent to the last tier |
| AmqpLadder.Redelivery | services/amqp/amqp.go:191-266 | a message that comes back keeps its body, exchange and routing key |
| AmqpLadder.RetryHeadersTwice | services/amqp/amqp.go:238-254 | writing the retry headers again overwrites the three keys and leaves the rest as they first were |
| AmqpLadder.LadderStep | services/amqp/amqp.go:191-266 | after `m` failures a message carries count `m`, goes to tier `m`, and returns as the message after `m+1` failures; after the last tier it is dropped |
| AmqpLadder.DeliveryAckedOnce | services/amqp/amqp.go:312-342 | a delivery is acked at most once, and exactly once, as its last call, precisely when its handling does not panic; one that does not decode gets nothing else |
| AmqpLadder.PanickingDeliveries | services/amqp/amqp.go:192-258 | a failing handler on count "-1" or on a non-string count, and the return hop on a message without a count, panic: nothing published, nothing acked |
| AmqpLadder.DecodedActions | services/amqp/amqp.go:326-342 | a decoded delivery whose handling does not panic gets only publishes and then its ack |
| AmqpLadder.UserHandlerOutcome | services/amqp/amqp.go:326-342 | a user handler's delivery is published at most once, exactly when it decoded, the handler failed, the binding retries and the count is a non-negative string below the ladder's end; otherwise it is only acked, or, when the retry panics (non-string or negative count), gets nothing at all |
| AmqpLadder.ReturnHopOutcome | services/amqp/amqp.go:187-216 | on the ready queue a delivery is never sent up the ladder; it is republished exactly when it decoded, its headers pass the type assertions and its count is below the ladder's end; a decoded one whose headers fail them panics and gets nothing, not even its ack |
| AmqpLadder.ConsumerTagInjective | services/amqp/amqp.go:280 | different counter values give different tags |
| AmqpLadder.ConsumerTagsDistinct | services/amqp/amqp.go:280 | while the counter has not wrapped, no two consumers share a tag |
| AmqpLadder.SumMessagesAppend | services/amqp/amqp.go:352-361 | the total over two name lists is the sum of their totals |
| AmqpLadder.SumMessagesBounds | services/amqp/amqp.go:352-361 | a total is at least each named queue's count; queues the broker does not report add nothing |
| AmqpLadder.BadJsonIsAcked | services/amqp/amqp_test.go:108-117 | a body that is not JSON is acked and nothing is published |
| AmqpLadder.FirstFailureRetries | services/amqp/amqp_test.go:118-127 | a failing handler on a new message sends it to the 1-second queue with count 1 |
| AmqpLadder.SixthFailureRetries | services/amqp/amqp_test.go:128-139 | with count 5, it goes to the 300-second queue with count 6 |
| AmqpLadder.LadderEndIsAcked | services/amqp/amqp_test.go:140-151 | with count 7 it is only acked |
| AmqpLadder.ReturnHopExample | services/amqp/amqp_test.go:207-239 | the retry consumer republishes a returned message to the exchange and key its headers name |

## Notes on the retry ladder

- The ladder's end. A message that reaches the return hop with count 7 is dropped there (`services/amqp/amqp.go:192-196`), so a failure at count 6 waits 600 seconds and is then dropped rather than redelivered; the handler side acks count 7 without publishing. `LadderStep` and `RetryThenReturn` state this.
- The origin headers. `_exchangeName` and `_routingKey` are overwritten on every retry, not only when absent (`services/amqp/amqp.go:242-243`); `RetryHeadersSpec` states the overwrite. Since the return hop republishes to exactly that exchange and key, the overwrite writes the same values again, and `RetryThenReturn` shows that the message still returns to its original destination.

## Left out

- Broker I/O, connections, channels, `Qos` and the consumer goroutines: each channel call is a log entry. The broker's answer to `Publish`, to the retry and return-hop publishes (`publishOk`) and to queue inspection (`counts`), the JSON decode result and the user handler's result are parameters. Concurrency between consumers is not modelled.
- Amqp.Dispatcher.EnsureChannel, Amqp.Dispatcher.DeclareLadder, Amqp.Dispatcher.EnsureExchange, Amqp.Dispatcher.EnsureQueue, Amqp.Dispatcher.HandleFunc, Amqp.Dispatcher.AddConsumer, Amqp.Dispatcher.EnsureRetryConsumer: every `QueueDeclare`, `ExchangeDeclare`, `QueueBind` and `Consume` is taken to succeed. In Go a failure of any of them panics through `PanicOnError` (`services/amqp/amqp.go:88`, `99`, `108`, `124`, `143`, `159`, `277`, `293`), after `Consume` with the consumer counter already advanced (`services/amqp/amqp.go:280`); these panics and the partial state they leave are not modelled.
- `newChannel`, `onCancel`, `onClose` and `PurgeQueue`: they only dial, close or purge on the broker, and are not part of this model.
- JSON marshalling: message bodies are byte sequences taken as already marshalled. The retry carrier's raw body is carried unchanged. Errors from marshalling a message are not modelled.
- The broker's dead-lettering is modelled only as far as the code relies on it (`DeadLetter`). The `x-death` header and topic wildcards are left out.
- Time zones, monotonic clock readings and RFC 3339 formatting: times are UTC. The Go `Location` that `TimeStartOf` carries through is not modelled.
- `Epoch` (`util/time.go:6`) is a constant, not an operation.
- TimeUtil.StartAndEndAroundTime: for a time with a sub-microsecond part, the end can lie before the time itself (`EndOfBeforeSubMicrosecondTime`). The end is therefore bounded only to within one microsecond for such times, because that is how the code behaves.
- Reflection in `EncodeLegacy`: Go values are a tree of structs, times, pointers and scalars. Uncomparable kinds (maps, slices inside `interface{}` equality) and floating-point NaN are left out, as is the exact Go zero value of each scalar kind beyond string, int and bool.
- BqEncode.EncodeLegacy and Bq.BigQueryWrapper.AddRow: they require no nil pointer at the top level, because Go's `Elem().Interface()` panics there.
- BqTables.EnsureTable: the Go code sets the schema on the caller's `extraMeta` in place. The model builds a new metadata value, so that aliasing is not captured. Nested schemas (`Schema` inside a field) are not compared, and neither are the other column attributes.
- The BigQuery client, `Dataset`, `Table`, `Close`, `Setup`, `SetupStreamingInserts`, `handleInsertError` and `bigqueryJWTConfig` (`db/bq/bq.go:32-46`, `80-195`): these are client and credential plumbing. The insert worker group is reduced to the queue of rows handed to it.
- `GracefulShutdown` (`util/util.go:45-60`) waits on OS signals. The file read of `ReadFileEnvsubst` is I/O: `Envsubst` takes the file's text as an input.

- Amqp.ConfigFromEnv: the delay-queue base name read from `RABBITMQ_RETRY_QUEUE` is taken to contain no `%`. The Go code makes the base part of the format string that `fmt.Sprintf` reads (`services/amqp/amqp.go:26`, `117`, `258`), so a `%` in it would be read as a formatting verb (base `q%d` gives `q1-%!d(MISSING)`). `DelayQueueName` appends the padded TTL to the base as literal text, and `fmt`'s verb handling is not modelled.
- Util.Utf8 and Util.Hash32: a Go string is an arbitrary byte sequence, but the model's strings are sequences of Unicode characters, and their bytes are their UTF-8 encoding. Strings that are not valid UTF-8 cannot be expressed, so `Hash32` is modelled only on valid Unicode text.
- Amqp.Dispatcher.Deliver: a panic in the consumer goroutine ends the Go process. The model reports it through `panicked` and leaves the delivery unacked, but does not model the process exit or the broker's later redelivery of the unacked message.
