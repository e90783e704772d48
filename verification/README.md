# tispace memory estimator, modelled in Dafny

tispace estimates how much memory a TiDB transaction's key-value buffer takes for an insert,
update or delete workload. It builds a table from a `CREATE TABLE` statement and gives every
column a value generator (`Allocator`). It generates a sample of `n / sample` rows, writes them
through the table layer into one transaction and reads the buffer's size. It then extrapolates
that size to `n` rows, and also compares memory readings taken before and after the sample.

This project models the core of that program:

- `types.dfy` (module `Types`): Go's `uint64`, `int64` and `byte`, with explicit wrap-around.
  It also has Go's truncating integer division.
- `bytecounter.dfy` (module `ByteCounter`): `growBytes`, the in-place big-endian base-256
  increment that drives string and blob columns. It includes the counter's value semantics
  and its period.
- `columns.dfy` (module `Columns`): the per-column generator, as a class `Allocator` with
  `NewAllocator` as its constructor and `NewDatum` as its method. The k-th value of every
  deterministic column type is given in closed form.
- `measure.dfy` (module `Measure`) covers the measurement arithmetic:
  - `MemStage.Diff` and `MemDiff.SampleToTotal`;
  - the driver's sample size `n / sample`;
  - the returned estimate `(size / sampleRows) * n`;
  - the printed buffer total `size * n / sampleRows`.
- `procmem.dfy` (module `ProcessMemory`): the parse of the `ps` output in `GetMemByPid`, with
  its unit table.
- `workload.dfy` (module `Workload`): the driver `Core` with `GetRow`, `prepareRows`,
  `InsertRows`, `UpdateRows`, `DeleteRows` and `Context`. The storage engine is a `Store`
  object whose failures and buffer size are inputs.

In these places the model follows the code, which a reader may not expect:

- A string or blob datum wraps the allocator's own buffer. A copy is made and then dropped
  (core.go:271-273); the datum does not hold that copy. The model's `Datum.Bytes` holds the
  array by reference. As a result, every row of a sample shows the buffer's latest state in
  its byte columns (`Workload.Core.UpdateLogsBufferTwice`).
- Memory deltas are `uint64` differences (core.go:332-334). The sampled delta is printed
  through `int(...)` (core.go:349), so a decrease shows as negative there. The extrapolated
  total (core.go:340-342, 350-352) multiplies the wrapped value and then divides it. With two
  or more sampled rows, a decrease becomes a huge positive total. With a single sampled row
  there is no division, so `int(...)` at core.go:352 reads the wrapped product back as the
  correct negative total whenever it fits in `int64` (`Measure.SingleSampleRowExact`).
- `SampleToTotal` multiplies before dividing (core.go:340-342). The returned estimate divides
  first (core.go:112, 173, 212). The printed buffer total multiplies first (core.go:351).
- The drop-key and drop-value modes are only a value placed in the transaction's context
  (core.go:76-84), and `dropKey` wins when both are set. Acting on that value is the storage
  engine's job.
- A column type outside `NewDatum`'s switch panics after the earlier columns of the row have
  already advanced (core.go:217-218, 286-288). The model returns `Err(UnknownType)` and leaves
  those allocators advanced.

## Model

| member | source | states |
|---|---|---|
| Types.WrapU64 | core.go:256 | the result is the exact value modulo 2^64, and equals it when it is in range |
| Types.WrapI64 | core.go:259 | the result is congruent to the exact value modulo 2^64 and lies in int64, and equals it when it is in range |
| Types.ToUint64 | core.go:340 | `uint64(i)` keeps non-negative values and adds 2^64 to negative ones |
| Types.ToInt64 | core.go:349 | `int(u)` keeps values below 2^63 and subtracts 2^64 from the rest |
| Types.Quo | core.go:94 | Go's quotient truncates toward zero for every sign: the quotient of the magnitudes, negated when exactly one operand is negative |
| Types.Rem | core.go:260 | Go's remainder satisfies a == Quo(a, b) * b + Rem(a, b), is smaller in magnitude than b and carries the dividend's sign (zero or same sign as a) |
| Types.Quo64 | core.go:94 | `int64` division is Go's truncated quotient whenever that fits, and MinInt64 / -1 wraps to MinInt64 |
| Types.SubU64 | core.go:332-334 | `uint64` subtraction is exact when it does not go below zero, and 2^64 minus the shortfall otherwise |
| Types.AddU64 | core.go:256 | `uint64` addition is exact below 2^64 and loses 2^64 above it |
| ByteCounter.GrowBytes | core.go:299-307 | the in-place right-to-left loop leaves the array equal to `Increment` of its old contents (same length) |
| ByteCounter.IncrementAt | core.go:300-305 | the rightmost byte below 255 goes up by one, every byte to its right becomes 0, and every byte to its left is unchanged |
| ByteCounter.IncrementWraps | core.go:305 | an all-255 buffer becomes all-zero |
| ByteCounter.IncrementValue | core.go:299-307 | read as a big-endian number, one increment maps v to (v + 1) mod 256^L |
| ByteCounter.IterateValue | core.go:299-307 | k increments map v to (v + k) mod 256^L |
| ByteCounter.ValueInjective | core.go:299-307 | a buffer is determined by its length and its big-endian value |
| ByteCounter.IteratePeriodic | core.go:299-307 | 256^L more increments bring any buffer back to the same state |
| ByteCounter.EncodeValue | core.go:299-307 | the L lowest base-256 digits of v have the value v mod 256^L |
| ByteCounter.CounterFromZero | core.go:299-307 | from an all-zero buffer, k increments give the L lowest base-256 digits of k |
| ByteCounter.LowBytesFromZero | core.go:299-307 | from zero, the last byte after k increments is k mod 256 and the byte before it counts the carries, (k / 256) mod 256 |
| Columns.BufferLength | core.go:241-246 | the buffer length is the declared length when that is positive, else exactly 1 |
| Columns.AlternateSign | core.go:260-264 | a signed column's counter value is kept when odd and negated when even; MinInt64 negates to itself |
| Columns.UintAtClosed | core.go:256 | g unsigned increments from zero give g mod 2^64 |
| Columns.IntAtClosed | core.go:259 | g signed increments from zero give g wrapped to int64 |
| Columns.DurationAtClosed | core.go:280 | g one-second steps give g * 10^9 nanoseconds wrapped to int64 |
| Columns.UnsignedNth | core.go:255-257 | the k-th value of an unsigned integer column is k, and 0 at k = 2^64 |
| Columns.SignedNth | core.go:258-264 | the k-th value of a signed integer column is +k for odd k and -k for even k |
| Columns.DurationNth | core.go:279-281 | the k-th value of a duration column is k seconds while that fits in int64 |
| Columns.BytesNth | core.go:269-273 | the k-th value of a string or blob column is the L lowest base-256 digits of k, and values repeat every 256^L datums |
| Columns.RandomSource.Float64 | core.go:267 | one draw in [0, 1) is consumed from the random stream |
| Columns.Allocator.constructor | core.go:233-249 | counters start at zero and time at the epoch; string and blob columns get a fresh all-zero buffer of the declared length (1 when that is not positive), and other types get none |
| Columns.Allocator.NextInteger | core.go:254-265 | the integer case advances the allocator by one and returns the datum its counters stand for |
| Columns.Allocator.NextRandom | core.go:266-268 | float and decimal columns add exactly one random draw to the running sum |
| Columns.Allocator.NextBytes | core.go:269-273 | the buffer moves to its next state and the datum wraps that same buffer |
| Columns.Allocator.NextSecond | core.go:279-285 | duration and date/time columns advance one second |
| Columns.Allocator.NewDatum | core.go:251-290 | there is a datum iff the type is in the switch, and then the k-th call returns the column's k-th value; string and blob datums are the allocator's buffer; random draws happen only for float and decimal columns; on an unknown type nothing changes |
| Columns.CurrentIsNth | core.go:251-290 | after k datums, a valid allocator's counters stand for the k-th value of its series |
| ProcessMemory.ToLower | util_linux.go:34 | lowercasing keeps the length and maps each character |
| ProcessMemory.TrimLeft | util_linux.go:34 | only leading white space is dropped, and the result does not start with white space |
| ProcessMemory.TrimRight | util_linux.go:34 | only trailing white space is dropped, and the result does not end with white space |
| ProcessMemory.FormatParse | util_linux.go:35 | `ParseUint` accepts the decimal form of every uint64 and gives it back |
| ProcessMemory.FactorTable | util_linux.go:13-23 | the unit table maps B to 1, K/KB to 1024, M/MB to 1024^2, G/GB to 1024^3 and T/TB to 1024^4, and has no other keys |
| ProcessMemory.LoweredHasNoUpper | util_linux.go:34 | the lowercased, trimmed output has no upper-case letter |
| ProcessMemory.KeysEndUpper | util_linux.go:13-23 | every unit key ends in an upper-case letter |
| ProcessMemory.NoUnitMatches | util_linux.go:38-47 | on lowercased text no unit suffix search succeeds, in any iteration order |
| ProcessMemory.GetMemByPidResult | util_linux.go:25-50 | a failed command gives 0, a decimal uint64 reading gives it times 1024 (mod 2^64), and every other output gives 0, for every map iteration order |
| ProcessMemory.KilobytesToBytes | util_linux.go:33-36 | the decimal text of v kilobytes (v < 2^54) is reported as exactly v * 1024 bytes |
| Measure.Diff | core.go:329-336 | each field is later minus earlier modulo 2^64: adding it back to the earlier reading gives the later one, and reading it as int64 recovers the true change when that fits |
| Measure.Scale | core.go:340 | one field of SampleToTotal is (f * n mod 2^64) / sampleRows for non-negative n and positive sampleRows, and f * n / sampleRows when the product fits in uint64 |
| Measure.SampleToTotal | core.go:338-344 | every field is (f * n mod 2^64) / sampleRows (truncating) for non-negative n and positive sampleRows, and f * n / sampleRows when the product fits in uint64 |
| Measure.SampleToTotalIdentity | core.go:338-344 | with n == sampleRows, SampleToTotal returns the same diff when no product overflows |
| Measure.NegativeDeltaExtrapolation | core.go:332 | a 1-byte decrease read as uint64 extrapolates from 10 to 1000 rows to 1844674407370955061 instead of -100 |
| Measure.SignedScaleCorrect | core.go:338-344 | extrapolating the signed delta gives Quo(delta * n, sampleRows) for decreases as well as increases, and the delta itself when n == sampleRows |
| Measure.SingleSampleRowExact | core.go:340-342 | with one sampled row, the extrapolated field read as int64 (as core.go:352 prints it) is the true change times n, for a decrease as well as an increase, whenever that fits in int64 |
| Measure.NegativeDeltaCorrected | core.go:338-344 | the corrected extrapolation turns the 1-byte decrease into -100 |
| Measure.SampleRows | core.go:94 | the sample size is floor(n / sample) for non-negative n and positive sample |
| Measure.EstimateTotal | core.go:112 | whenever (size / sampleRows) * n fits in int64, the returned estimate is exactly that product |
| Measure.PrintedBufferTotal | core.go:351 | without overflow the printed buffer total is size * n / sampleRows |
| Measure.DivideFirstBounds | core.go:112 | dividing first never gives more than multiplying first, gives less than n less, and gives the same when the divisor divides |
| Measure.DivideFirstDrift | core.go:112 | the returned estimate is at most the printed total, below it by less than n, and equal when sampleRows divides the size |
| Measure.ThousandRowsSampledEveryHundred | core.go:94 | 1000 rows at rate 100 sample 10 rows, and a buffer of B bytes is reported as (B / 10) * 1000 |
| Workload.ContextMode | core.go:76-84 | dropKey yields the key mode, dropValue without dropKey the value mode, and neither yields no mode |
| Workload.AllTouched | core.go:155-158 | the touched list has one entry per column and every entry is true |
| Workload.Store.NewTxn | core.go:87 | a new transaction has an empty buffer under the requested mode, unless the call fails |
| Workload.Store.Txn | core.go:90 | fetching the transaction changes nothing but can fail |
| Workload.Store.AddRecord | core.go:100 | on success the row is staged as an insert under the next handle of a row-id counter; exactly one call is made, and success iff that call does not fail |
| Workload.Store.UpdateRecord | core.go:159 | on success the old row, new row and touched list are staged under the handle |
| Workload.Store.RemoveRecord | core.go:198 | on success the old row is staged as a removal under the handle |
| Workload.Store.CommitTxn | core.go:130 | on success the staged records are appended to the committed ones and the buffer empties |
| Workload.Core.constructor | core.go:62-73 | there is one fresh allocator per column, in column order, none shared and none having produced a value |
| Workload.Core.NextDatum | core.go:218 | one column's NewDatum moves that column's allocator only |
| Workload.Core.GetRow | core.go:215-221 | there is a row iff every column type is handled; it has one datum per column in order, each allocator advances exactly once, the row is the next row number, and the random source advances once per floating-point or decimal column |
| Workload.Core.FillRow | core.go:216-220 | the loop over the allocators: a row exactly when every type is handled, each allocator one datum further, the random source one draw further per floating-point or decimal column |
| Workload.Core.CurrentRow | core.go:215-221 | a row of every allocator's latest datums shows value number `made` in every deterministic column |
| Workload.Core.ViewsOfHeld | core.go:273 | an earlier row shows its own values in ordinary columns and the buffer's current state in string and blob columns |
| Workload.Core.AddRow | core.go:98-102 | GetRow then AddRecord: success iff every type is handled and the one AddRecord call does not fail; one store call is made exactly when every type is handled; on success one insert record is staged with the next handle and the row's values |
| Workload.Core.PrepareNext | core.go:121-129 | one pass of the loop: the same calls as AddRow, and on success the collected handles and rows grow by one and stay paired with the staged inserts |
| Workload.Core.PrepareLoop | core.go:121-129 | on success exactly count AddRecord calls were made, none failed, and count rows were added with the handles and rows collected in order; on a store failure the last call made failed and none before it; on an unknown type no call was made |
| Workload.Core.PrepareRows | core.go:115-134 | on success exactly count + 2 calls were made, none failed, and there are count handles and count rows paired by index, all committed as inserts; a store failure is the last call made and the first failing one; on any failure nothing is returned |
| Workload.Core.OpenTxn | core.go:87-93 | NewTxn under the context's mode, then Txn; it succeeds iff both of its two calls succeed, leaving an empty buffer; on failure the last call made failed and Txn is not reached after a failing NewTxn |
| Workload.Core.InsertLoop | core.go:97-103 | on success exactly count AddRecord calls were made, none failed, and the buffer holds one insert per generated row; on a store failure the last call made failed and none before it |
| Workload.Core.InsertRows | core.go:86-113 | success iff no store call fails and (with rows to make) every type is handled; on success exactly 2 + sampleRows calls were made, the buffer holds the sample's inserts and the result is (size / sampleRows) * n; a store failure is the last call made and the first failing one |
| Workload.InsertWithFailingFirstAdd | core.go:86-103 | with only the third store call failing, InsertRows(1000, 100) returns an error; with every type handled it is a store failure after exactly three calls, so the loop stops at the failing AddRecord |
| Workload.Core.UpdatedRunStep | core.go:151-162 | one more update record for the next prepared row extends the run |
| Workload.Core.UpdateLogsBufferTwice | core.go:152-159 | in every update record a string or blob column logs the buffer's latest value as both old and new, while an ordinary column logs the prepared row's value then the new one |
| Workload.Core.UpdateRow | core.go:152-161 | exactly one store call; one update record is staged with the prepared row as old, a fresh row as new and every column touched, iff that call does not fail |
| Workload.Core.StageUpdate | core.go:155-161 | exactly one store call; every column is marked touched and one update record holding the prepared row as old and the new row as new is staged iff that call does not fail |
| Workload.Core.UpdateNext | core.go:151-162 | one pass of the loop: exactly one store call, and on success the update run grows by the record for prepared row i |
| Workload.Core.UpdateLoop | core.go:151-162 | on success exactly one call per prepared row was made and prepared row k is replaced by the k-th fresh row under handle k, in order; on failure the last call made failed and none before it |
| Workload.Core.UpdateRows | core.go:136-174 | sampleRows rows are prepared and committed, then updated in a new transaction; success iff every type is handled and no store call fails; on success exactly 2 * sampleRows + 4 calls were made and the result is (size / sampleRows) * n; a store failure is the last call made and the first failing one |
| Workload.Core.RemovedRunStep | core.go:191-201 | one more delete record for the next prepared row extends the run |
| Workload.Core.RemoveRow | core.go:192-200 | exactly one store call; one removal record with the prepared row is staged under the handle iff that call does not fail |
| Workload.Core.RemoveNext | core.go:191-201 | one pass of the loop: exactly one store call, and on success the removal run grows by the record for prepared row i |
| Workload.Core.DeleteLoop | core.go:191-201 | on success exactly one call per prepared row was made, prepared row k is removed under handle k, in order, and no new row is made; on failure the last call made failed and none before it |
| Workload.Core.DeleteRows | core.go:176-213 | sampleRows rows are prepared and committed, then removed in a new transaction; success iff every type is handled and no store call fails; on success exactly 2 * sampleRows + 4 calls were made and the result is (size / sampleRows) * n; a store failure is the last call made and the first failing one |

## Left out

- `main.go`'s flag parsing, file reading and output are not modelled. Neither is any `fmt.Printf` or `fmt.Println` output.
- The calls into TiDB are not modelled: the SQL parser, `ddl.MockTableInfo`, the mock store and session variables (core.go:36-61). The table layer and the transaction are the abstract `Store`. Which store calls fail, and the buffer size it reports for a list of records under a drop mode, are inputs.
- Workload.Core.constructor: it takes the parsed column definitions (type, declared length, UNSIGNED flag) as input, not the schema text.
- The effect of the drop-key and drop-value modes on the buffer happens inside the storage engine. It is not part of this model; only the mode the transaction is opened under is.
- `NewMemStage`, `runtime.ReadMemStats`, `runtime.GC`, `time.Sleep`, `time.Now` and `time.Since` are I/O or clock reads. The readings are inputs to `Measure.Diff`. `CompareWithMemBuffer`'s output is left out, and so is `readableSize` (float64 division and `%.2f` formatting). Its arithmetic is kept: `Measure.SampleToTotal` and `Measure.PrintedBufferTotal`.
- The `exec.Command("ps", ...)` call is process I/O. Its output arrives as `Some(text)` and its failure as `None`.
- ProcessMemory.ToLower: it lowercases ASCII letters only. Go's `strings.ToLower` also maps other Unicode letters, which cannot change a digit string or a unit suffix.
- Columns.Allocator.NewDatum: float and decimal values are exact reals, not float64 with rounding. The conversion to `MyDecimal` and the `MustNil` check on it (core.go:276-277, 292-297) are not modelled. The random draws come from an input stream (`RandomSource`), not Go's global generator.
- Columns.Allocator.NewDatum: date/time values are whole seconds after the Unix epoch, with the column type. The conversion through the local time zone by `types.FromGoTime` and `types.NewTime` is not modelled.
- Workload.Core.GetRow: on a column type outside the switch, Go panics and the program ends. The model returns no row and promises only that the allocators stay valid, not how far the row got.
- Workload.Core.InsertRows: requires `sample != 0` and `sampleRows != 0`. With `sample == 0` Go divides by zero at core.go:94, after NewTxn and Txn have been called; with `n < sample` it divides by zero at core.go:104 and core.go:112.
- Workload.Core.UpdateRows: requires `sample != 0` and `sampleRows > 0`. With `sample == 0` Go divides by zero at core.go:137 before any store call. A negative `sampleRows` makes `make` panic on a negative capacity (core.go:119), and zero divides by zero (core.go:163, 173).
- Workload.Core.DeleteRows: requires `sample != 0` and `sampleRows > 0`, for the same reasons (core.go:177, 119, 202, 212).
- Workload.Store.AddRecord: the handle is taken from a row-id counter that starts at 1 and goes up by one per successful insert. core.go treats `kv.Handle` as opaque (core.go:124), and a table whose primary key is a single integer column would use that column's value as the handle instead. The model does not capture such tables. For them "consecutive handles" in prepareRows, UpdateRows and DeleteRows does not hold, though the pairing of handles and rows by index still does.
- Measure.Scale: its contract states the result only for non-negative n and positive sampleRows, as the product reduced modulo 2^64 and divided. For a negative n or sampleRows, `uint64(...)` adds 2^64 to the operand. That case follows the body's explicit conversion and is not stated as an ensures. `Measure.NegativeDeltaExtrapolation` shows the wrapped product of a decrease.
- Measure.SampleToTotal: the same as Measure.Scale, field by field. A negative n or sampleRows is left to the body's explicit conversion.
- `runtime.KeepAlive` (core.go:171-172, 210-211) concerns garbage collection and has no modelled effect.

## Findings

| source | as written | input that shows it | evidently intended | confidence | as-written member | corrected member |
|---|---|---|---|---|---|---|
| core.go:332-342 | memory deltas are `uint64` differences, extrapolated as `uint64`, so for sampleRows >= 2 a decrease during the sample becomes an enormous positive total (with sampleRows == 1 the printed total is the correct negative, `Measure.SingleSampleRowExact`) | Alloc falls from 1001 to 1000 bytes, n = 1000, sampleRows = 10: the total is 1844674407370955061 | extrapolate the signed change, giving -100 | medium; not executed | Measure.NegativeDeltaExtrapolation | Measure.SignedScaleCorrect |
