# cur-conv-lib ingester, modelled in Dafny

This project models the core of a small TypeScript service. The service
keeps a list of currency-pair symbols. On start-up it connects to a
PostgreSQL database and runs one ingestion cycle right away. A cycle reads
the database clock, fetches quotes for every symbol from a quote provider,
creates a table named after the local date (`exchange_YYYY_MM_DD`), and
inserts one row per symbol. It then arms a timer for the next local
midnight, which runs the cycle again and every 24 hours after that.

Modules, one per concern of the source:

- `Currencies` (`currencies.dfy`): the module-level array of
  `src/supportedCurrencies.ts`. It is a `PairList` object whose `elems` the
  `Registry` methods change in place. `getSupportedCurrencies` hands out that
  same object, so earlier readers see later changes.
- `Sequences` (`sequences.dfy`): `indexOf`, `splice(i, 1)` and a reference
  definition of "remove the first occurrence". The registry's remove and the
  `'%'` replace of a quote both use them.
- `Numerals` (`numerals.dfy`): the JavaScript conversions the code relies
  on. These are `String(n)` of an integer, `padStart`, and `parseInt` with no
  radix, as defined in section 19.2.5 of ECMA-262: leading white space, an
  optional sign, a `0x` prefix, and the longest run of digits.
- `TableNaming` (`table_naming.dfy`): `getTableNameForToday` on a local date
  given as a parameter.
- `Clock` (`clock.dfy`): `calculateTimeUntilMidnight`. Local time is whole
  milliseconds, and every day lasts exactly 86 400 000 ms.
- `Rows` (`rows.dfy`): the field conversion of `insertDataIntoTable` and
  its eight positional parameters.
- `Ingestion` (`ingestion.dfy`): `runTask` as a method that emits the
  ordered trace of its external calls. The database and the provider are
  oracles in an `Env` that says which calls throw. The method is proved
  equal to the specification function `Cycle`.
- `Scheduler` (`scheduler.dfy`): `startScheduler` and `initialize`. The
  timers are modelled as the instants at which the task is due.

Behaviours of the code worth knowing:

- The code does not isolate failures per symbol. One try/catch surrounds
  the whole loop of `runTask`, so the first failing symbol ends the cycle
  and the symbols after it get no row
  (`Ingestion.FirstFailureStopsTheCycle`).
- `cp.replace('%', '')` removes the first `'%'` wherever it is, not only a
  trailing one (`Rows.StripPercentRemovesFirst`).
- `parseInt` of a timestamp such as `"17e5"` gives 17, not an error
  (`Numerals.ParseIntExponentIgnored`).
- A provider answer shorter than the symbol list makes `forexData[i]`
  `undefined`. A record without a `cp` text is similar. In both cases
  `insertDataIntoTable` throws before any query and ends the cycle.

## Model

| member | source | states |
|---|---|---|
| Currencies.DefaultPairsDistinct | src/supportedCurrencies.ts:2-11 | the initial list holds eight pairs, none listed twice |
| Currencies.Registry.constructor | src/supportedCurrencies.ts:2-11 | the module starts with the eight default pairs in their order, and its no-duplicates invariant holds |
| Currencies.Registry.GetSupportedCurrencies | src/supportedCurrencies.ts:14-16 | it returns the registry's own array object, not a copy |
| Currencies.Registry.AddCurrencyPair | src/supportedCurrencies.ts:19-23 | an absent pair is appended at the end, a present pair leaves the list unchanged, the pair is in the list afterwards, and the list stays duplicate-free |
| Currencies.Registry.RemoveCurrencyPair | src/supportedCurrencies.ts:26-31 | the new list is the old one with the first occurrence of the pair removed, the pair is absent afterwards, the length drops by one exactly when the pair was there, and the list stays duplicate-free |
| Currencies.Added | src/supportedCurrencies.ts:19-23 | the list after `addCurrencyPair(p)` as a value: the same list when `p` is already in it, otherwise the list with `p` appended; its properties are the lemmas below |
| Currencies.AddedKeepsOrderAndDistinctness | src/supportedCurrencies.ts:19-23 | adding keeps the old pairs in place and in order, the result contains the pair, no duplicate is created, and the length grows by one exactly when the pair was new |
| Currencies.AddedIdempotent | src/supportedCurrencies.ts:19-23 | adding the same pair twice is the same as adding it once |
| Currencies.RemoveUndoesAdd | src/supportedCurrencies.ts:19-31 | removing a pair that was just added (and was new) gives back the original list |
| Currencies.AddIsVisibleToEarlierReaders | src/supportedCurrencies.ts:14-23 | a caller that took the array before an add sees the added pair through that same reference |
| Currencies.RemoveIsVisibleToEarlierReaders | src/supportedCurrencies.ts:14-31 | a caller that took the array before a remove sees the removal through that same reference |
| Currencies.AddTwiceRemoveTwice | src/supportedCurrencies.ts:19-31 | two adds followed by two removes of one pair leave the list as one add followed by one remove, with no error |
| Sequences.IndexOf | src/supportedCurrencies.ts:27 | the result is -1 exactly when the element is absent; otherwise it is the position of the element's first occurrence |
| Sequences.DeleteAt | src/supportedCurrencies.ts:29 | one element fewer, the elements before the position kept, and those after it shifted down by one |
| Sequences.DeleteAtIndexOf | src/supportedCurrencies.ts:27-30 | splicing at the position `indexOf` reports is the same as removing the first occurrence |
| Sequences.RemoveFirstAbsent | src/supportedCurrencies.ts:28 | removing an absent element changes nothing |
| Sequences.RemoveFirstLength | src/supportedCurrencies.ts:27-30 | the length drops by one exactly when the element was present |
| Sequences.RemoveFirstMultiset | src/supportedCurrencies.ts:27-30 | exactly one copy of the element is removed, if there is one, and every other element stays |
| Sequences.RemoveFirstNoDuplicates | src/supportedCurrencies.ts:27-30 | on a duplicate-free list, the removal keeps it duplicate-free and leaves the element absent |
| Sequences.RemoveFirstTwice | src/supportedCurrencies.ts:26-31 | on a duplicate-free list, removing twice is the same as removing once |
| Sequences.RemoveFirst | src/supportedCurrencies.ts:26-31 | the reference definition of "remove the first occurrence": the list up to the first match followed by the list after it, and the list itself when there is no match |
| Sequences.RemoveFirstAfterPrefix | src/index.ts:123 | the occurrence removed is the first one: the one after a prefix that does not contain the element |
| Numerals.NatToString | src/index.ts:95-97 | `String(n)` is a non-empty run of decimal digits with no leading zero (except "0"), and it has one digit exactly when n < 10 |
| Numerals.IntToString | src/index.ts:95 | `String(year)`: a minus sign followed by the digits of the absolute value for a negative year, the digits alone otherwise |
| Numerals.NatToStringRoundTrip | src/index.ts:95-97 | reading the digits of `String(n)` back gives n |
| Numerals.IntToStringInjective | src/index.ts:95 | distinct years give distinct texts |
| Numerals.PadStart | src/index.ts:96-97 | `padStart(len, fill)` with a one-character fill: the text preceded by copies of `fill` up to length `len`, a text already that long left as it is |
| Numerals.PadStartShape | src/index.ts:96-97 | `padStart` reaches the target length (or keeps a longer text), keeps the text at the end, and puts only the fill character before it |
| Numerals.Pad2 | src/index.ts:96-97 | `String(n).padStart(2, '0')` |
| Numerals.Pad2Digits | src/index.ts:96-97 | below 100, the padded month or day is exactly two decimal digits that read back as the number |
| Numerals.ParseInt | src/index.ts:124 | `parseInt(t)` with no radix: leading white space skipped, then the signed reading of the rest; `None` stands for NaN |
| Numerals.ParseSigned | src/index.ts:124 | a leading '-' negates the unsigned reading of the rest, a leading '+' is skipped, anything else is read unsigned |
| Numerals.ParseUnsigned | src/index.ts:124 | after "0x" or "0X" the longest run of hexadecimal digits, otherwise the longest run of decimal digits, read as a number; NaN when the run is empty |
| Numerals.TrimStart | src/index.ts:124 | `parseInt` strips a prefix made only of white space, and the rest does not start with white space |
| Numerals.LeadingDigits | src/index.ts:124 | the digit run `parseInt` reads is a prefix made of digits, and the longest such prefix |
| Numerals.DigitRun | src/index.ts:124 | the result is NaN exactly when no digit follows the sign and prefix |
| Numerals.ParseUnsignedDecimalPrefix | src/index.ts:124 | a number's decimal text, followed by anything that does not continue it, reads back unsigned as that number |
| Numerals.ParseIntDecimalPrefix | src/index.ts:124 | `parseInt` of a number's decimal text, followed by anything that does not continue it, gives that number |
| Numerals.ParseIntPlusPrefix | src/index.ts:124 | a leading '+' does not change the result |
| Numerals.ParseIntMinusPrefix | src/index.ts:124 | a leading '-' negates the number |
| Numerals.ParseIntNoLeadingDigit | src/index.ts:124 | text starting with a character that is not white space, a sign or a digit parses as NaN |
| Numerals.ParseIntExponentIgnored | src/index.ts:124 | "17e5" parses as 17 |
| Numerals.ParseIntEpochSeconds | src/index.ts:124 | a ten-digit epoch value parses as itself |
| Numerals.ParseIntNegativeExample | src/index.ts:124 | "-42" parses as -42 |
| Numerals.ParseIntNaN | src/index.ts:124 | "abc" and "" parse as NaN |
| TableNaming.TableName | src/index.ts:93-99 | `getTableNameForToday`: "exchange_" + String(year) + "_" + Pad2(month0 + 1) + "_" + Pad2(day), for the local date given as a parameter |
| TableNaming.TableNameLayout | src/index.ts:93-99 | the name is "exchange_", the year, and then a two-digit one-based month and a two-digit day, each after an underscore, and both read back as the date's month and day |
| TableNaming.TableNameInjective | src/index.ts:93-99 | distinct dates give distinct table names, so one day's rows never go into another day's table |
| TableNaming.TableNameExample | src/index.ts:93-99 | 5 January 2024 gives "exchange_2024_01_05" |
| Clock.TimeUntilMidnight | src/index.ts:37-41 | the wait is in (0, 86 400 000], and it ends exactly at the first instant of the next day |
| Clock.NoEarlierMidnight | src/index.ts:37-41 | every instant before the computed midnight is still in the current day, so no midnight is skipped |
| Clock.AtMidnightFullDay | src/index.ts:37-41 | exactly at midnight the wait is a full day, not zero |
| Clock.SameDaySameMidnight | src/index.ts:37-41 | all instants of one day wait for the same midnight |
| Rows.StripPercent | src/index.ts:123 | `cp.replace('%', '')`: the text with the character at the position `indexOf('%')` reports taken out, and the text itself when it has no '%' |
| Rows.StripPercentRemovesFirst | src/index.ts:123 | `replace('%', '')` removes the first '%' and nothing else: exactly one '%' fewer when there was one |
| Rows.StripPercentAfter | src/index.ts:123 | for "1.23%" the number text is kept, and a second '%' after the first stays |
| Rows.StripPercentAbsent | src/index.ts:123 | text without '%' is unchanged |
| Rows.InsertParams | src/index.ts:133-142 | the eight query parameters in order: the symbol, o, h, l, c and ch as given, `parseFloat` of the percent text without its first '%', and `parseInt` of t |
| Rows.InsertParamsFollowColumns | src/index.ts:129-142 | parameter i is the value of the i-th listed column (symbol, o, h, l, c, ch, the parsed cp, the parsed t), and every column except `last_update` is listed |
| Rows.InsertColumnsFollowStatement | src/index.ts:130-131 | the placeholders $1 to $8 fill the statement's columns in the order the statement names them, `last_update` (named last) is the one left to NOW(), and no two columns share a name |
| Rows.PrepareInsert | src/index.ts:122-142 | the conversion succeeds exactly when the record and its percent text exist, and then it gives eight parameters starting with the symbol |
| Ingestion.RecordAt | src/index.ts:22 | `forexData[i]` is defined exactly when i is within the provider's array |
| Ingestion.IssuesIffConversionSucceeds | src/index.ts:22-28 | an iteration reaches its INSERT exactly when the conversion does not throw, and the INSERT then carries the converted parameters |
| Ingestion.InsertFrom | src/index.ts:20-33 | the specification of the loop from iteration i: no call past the symbols; an iteration whose conversion throws ends it caught with no call; otherwise its INSERT is issued, and when that throws the loop ends caught, else the next iteration follows |
| Ingestion.Cycle | src/index.ts:9-33 | the specification of one `runTask`: the clock read, the fetch of all symbols, the creation of today's table, then the loop; a throw at any step ends the cycle there, caught |
| Ingestion.RunTask | src/index.ts:6-34 | the calls issued and whether the catch block ran are exactly those of the specification `Cycle`: clock read, fetch, table creation, then the inserts in index order, stopping at the first throw |
| Ingestion.InsertFromPairsByIndex | src/index.ts:20-29 | each insert of the loop pairs `symbols[k]` with `forexData[k]` in index order, and no iteration runs past the symbols |
| Ingestion.InsertFromCaught | src/index.ts:20-33 | the catch runs exactly when some remaining iteration fails |
| Ingestion.InsertFromStopsAtFirstFailure | src/index.ts:20-33 | the loop stops at its first failing iteration, and it issues that iteration's INSERT only when the conversion succeeded |
| Ingestion.InsertFromLengthWhenClean | src/index.ts:20-29 | when every iteration succeeds, there is one insert per remaining symbol |
| Ingestion.CycleOrder | src/index.ts:9-29 | the clock read comes first, the fetch of all symbols second, the creation of today's table third, and only inserts into that table follow |
| Ingestion.NoTableWorkWithoutQuotes | src/index.ts:10-17 | when the clock read or the fetch throws, no table is created and no row is inserted |
| Ingestion.CycleInsertsPairByIndex | src/index.ts:15-28 | the k-th insert of a cycle writes `symbols[k]` with `forexData[k]` into today's table |
| Ingestion.CycleCaughtIffSomeStepFails | src/index.ts:9-33 | the catch block runs exactly when the clock read, the fetch, the table creation or some iteration throws |
| Ingestion.CleanCycleInsertsEverySymbol | src/index.ts:9-30 | when nothing throws, the cycle inserts exactly one row per symbol and nothing is caught |
| Ingestion.FirstFailureStopsTheCycle | src/index.ts:19-33 | a failure at iteration k ends the cycle: rows for the symbols before k only (plus k's own insert when it was issued) |
| Ingestion.MiddleFailureSkipsTheRest | src/index.ts:19-33 | with three symbols whose middle record has no percent text, only the first symbol's row is inserted |
| Scheduler.Timer.FireTime | src/index.ts:54-57 | the instant of the k-th run: the timeout's own run at armedAt + delay for k = 0, then one per interval tick, k periods later |
| Scheduler.ArmedAt | src/index.ts:46-57 | the timer `startScheduler` arms when the clock reads t: armed at t, delay `TimeUntilMidnight(t)`, period 86 400 000 ms |
| Scheduler.StartScheduler | src/index.ts:44-62 | one clock read; nothing is armed exactly when that read throws; otherwise the k-th run is due at the start of day `DayOf(t) + 1 + k` |
| Scheduler.FireTimeIsMidnight | src/index.ts:50-57 | run k (the timeout's run is k = 0, then one per 24-hour tick) is due at a midnight strictly after the clock reading, the first instant of day `DayOf(t) + 1 + k` |
| Scheduler.EveryLaterMidnightIsDue | src/index.ts:50-57 | every midnight after the clock reading is the due time of some run |
| Scheduler.RunsOnConsecutiveDays | src/index.ts:54-57 | successive runs fall on consecutive days, so no day is skipped and none gets two scheduled runs |
| Scheduler.Initialize | src/index.ts:75-90 | if the connection fails, nothing else happens; otherwise the calls are: one cycle, the scheduler's clock read, then the read-back of today's table; the timer is armed exactly when the connection and the scheduler's clock read succeed, whatever the cycle did |

## Left out

- The database and the quote provider (`src/db.ts`, `src/fcsapi.ts`) are not part of this model. Their calls are oracles: `Env` and the parameters of `Initialize` say which of them throw and what the provider returns.
- Real timers are not modelled: `setTimeout`, `setInterval`, the delay between a due time and the actual run, and overlap between a late run and the next one. Only the due instants are computed.
- Later scheduled runs are not modelled as cycles. Each is `RunTask` again, with the list and the date current at that moment.
- The date each cycle reads is a parameter. The calendar conversion from instants to local dates is not modelled.
- Clock: time zones and daylight-saving changes are not modelled, because every local day is taken to last 86 400 000 ms. An invalid `Date` (NaN) from the database clock is not modelled either.
- `parseFloat`'s numeric value is not modelled. The parameter records the text it is applied to (`Param.FloatOf`).
- Numerals.ParseIntDecimalPrefix: the result is the exact integer. JavaScript rounds integers above 2^53 to the nearest double.
- Numerals.NatToString: exact digits for every number. JavaScript switches to exponent notation from 10^21 on, which no year reaches.
- Record fields other than `cp` are modelled as text. `cp` is optional because a missing value throws. The provider may send other types, which pass through to the driver unchanged.
- The SQL text of the CREATE TABLE, INSERT and SELECT statements is not modelled. The trace records each statement's table and parameters.
- `fetchTodayData` is modelled only as its read-back call in the `Initialize` trace. Its result only goes to the console.
- Console output, the SIGINT/SIGTERM handlers and `process.exit` are not modelled.
- Concurrency is not modelled. Another caller could change the shared currency array while `runTask` awaits; a cycle here reads the list once.
