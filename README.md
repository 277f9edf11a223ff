# shuf, modelled in Dafny

A model of `shuf` 1.2 (Brian Callahan's portable shuf for OpenBSD). It writes a random
permutation, or a sample with replacement, of one of three kinds of input:
- the lines of a file;
- its own arguments (`-e`);
- the integers of a range (`-i lo-hi`).

The program keeps its state in three globals, modelled as fields of `Shuf.Session`:
- `delimiter` is newline, or NUL under `-z`;
- `rflag` is set by `-r`;
- `most` is the `-n` count, or -1 when `-n` was not given.

Output goes to `ofile`. It is modelled as the field `out`, a sequence of tokens: a written byte,
or a decimal number printed by `%d`.

The modules follow the program's own parts:

- `Bytes` covers bytes, the `int`/`size_t` limits, and `strlen` over a byte sequence.
- `Tokenizer` covers the items shuf makes of an input buffer. These are the runs between
  delimiters. A delimiter in the final byte ends the last item instead of starting a new one.
  Here are the split/join round trip and the item count that main keeps while reading.
- `Sampler` holds the Fisher–Yates shuffle, as a specification over sequences and as the
  in-place loop over an array. It proves the shuffle:
  - is a permutation;
  - is injective in its draws, and reaches every permutation (together, the classical basis
    of uniformity);
  - keeps properties of the elements.

  It also holds the two `most` clamps and sampling with replacement.
- `Emitter` says which tokens `printshuf` writes for an item. The intended output of a list
  of items is `Written`; the `## Findings` section shows where the two differ.
- `Options` holds the checks main makes of `-i lo-hi`.
- `Input` is main's read loop. It appends bytes to a buffer that starts at 1024 bytes and
  doubles when full, and it counts items as it goes.
- `Shuf` is the class `Session`, holding the globals and the static functions:
  - `printshuf`, `randomshuf`, `shuf`, `shufecho`, `shuffile`, `shufintegers`;
  - main's line mode (`ShufLines`) and its range mode (`ShufRange`).

`arc4random_uniform` is modelled as the sequence `draws` of the values it returns, in call order:
- In the shuffle, the k-th draw is at most `n - 1 - k`.
- When sampling, every draw is below `n`.

A run of `randomshuf` without `-n` never ends. The model observes the first `|draws|` records of
such a run.

Three behaviours of the code are easy to miss; the model follows the code:
- An empty input is one empty item, not none.
- Splitting the join of a list of items gives the list back exactly when the last item is not empty
  or there is only one item. That is because one trailing delimiter is dropped (`Tokenizer.JoinSplit`).
- In file mode, the `-r` count is clamped to the number of lines, since shuf.c:122 runs before
  `randomshuf`. Under `-e` and `-i` it is used as given.

## Model

| member | source | states |
|---|---|---|
| `Bytes.Strlen` | shuf.c:41-42 | the length of a C string is the position of its first NUL |
| `Tokenizer.Fields` | shuf.c:100-120 | a buffer always holds at least one field |
| `Tokenizer.FieldsCount` | shuf.c:100-120 | there is one more field than delimiters |
| `Tokenizer.FieldsDelimiterFree` | shuf.c:101-104 | no field contains the delimiter, so each is a maximal run |
| `Tokenizer.JoinFields` | shuf.c:100-120 | joining the fields with the delimiter gives back the bytes |
| `Tokenizer.FieldsJoin` | shuf.c:100-120 | delimiter-free items, joined and then split into fields, come back unchanged |
| `Tokenizer.Stored` | shuf.c:107-113 | the tokenizer stores one NUL-terminated buffer per item |
| `Tokenizer.SplitCount` | shuf.c:100-120 | the tokenizer makes exactly as many items as main counted while reading |
| `Tokenizer.SplitJoin` | shuf.c:100-120 | the items are delimiter-free, and joining them gives back the buffer minus at most one trailing delimiter |
| `Tokenizer.JoinSplit` | shuf.c:100-120 | items joined with a closing delimiter split back into the same items; without one they do so exactly when the last item is not empty or is the only one |
| `Tokenizer.JoinDropsEmptyLast` | shuf.c:100-120 | the bare join of several items whose last is empty splits into one item fewer |
| `Tokenizer.ItemCountDelimiters` | shuf.c:333-335 | main's count is one plus the delimiters of the input once a final delimiter is dropped |
| `Tokenizer.SplitEmpty` | shuf.c:100-120 | an empty buffer, or a lone delimiter, yields one empty item |
| `Sampler.Swap` | shuf.c:66-68 | a swap keeps the length |
| `Sampler.Steps` | shuf.c:64-69 | the swap loop keeps the length |
| `Sampler.Shuffled` | shuf.c:64-69 | the shuffle keeps the length |
| `Sampler.FisherYates` | shuf.c:64-69 | the in-place loop leaves the array equal to the shuffle of its old contents under the same draws |
| `Sampler.SwapPermutes` | shuf.c:66-68 | a swap keeps the multiset of entries |
| `Sampler.StepsPermutes` | shuf.c:64-69 | the swap loop from any index down to 1 keeps the multiset |
| `Sampler.ShufflePermutes` | shuf.c:64-69 | the shuffle is a permutation: same length, same multiset |
| `Sampler.StepsKeepAbove` | shuf.c:64-69 | the loop from index `i` down never touches an entry above `i` |
| `Sampler.StepsInjective` | shuf.c:64-69 | on distinct entries, different draws give different results of the loop |
| `Sampler.ShuffleInjective` | shuf.c:64-69 | on distinct entries, the shuffle is injective in its draws |
| `Sampler.StepsReach` | shuf.c:64-69 | every rearrangement of the first `i + 1` entries is reached by some draws |
| `Sampler.ShuffleReaches` | shuf.c:64-69 | every permutation of the entries is reached by some draws |
| `Sampler.ShuffleKeeps` | shuf.c:64-69 | a property held by every entry is held by every entry of the shuffle |
| `Sampler.ShufflePrefix` | shuf.c:71-74 | the printed prefix of the shuffle is a sub-multiset of the input, without repeats when the input had none |
| `Sampler.DistinctCount` | shuf.c:73-74 | in a sequence without repeats, each entry occurs once |
| `Sampler.PermutationCount` | shuf.c:71 | the clamp prints all `n` items without `-n`, otherwise `min(most, n)`, and nothing for `-n 0` |
| `Sampler.FileCount` | shuf.c:122 | the file-mode clamp keeps -1, and is otherwise `min(most, n)`, so `-r -n K` prints at most the item count |
| `Sampler.FileCountThenPermutation` | shuf.c:122-127 | clamping in `shuffile` and then in `shuf` gives the same count as `shuf` alone |
| `Sampler.Picks` | shuf.c:52-54 | sampling with replacement draws one entry of the input per draw |
| `Sampler.IntervalExact` | shuf.c:152-153 | the filled values rise one by one from `lo` to `lo + n - 1` |
| `Sampler.SampledIntegersInRange` | shuf.c:147-150 | under `-i -r` every printed value lies in [lo, lo + range) |
| `Sampler.ShuffledIntegersInRange` | shuf.c:152-165 | under `-i` the printed values lie in [lo, lo + range) and never repeat |
| `Emitter.RecordBytes` | shuf.c:41-44 | a call of `printshuf` writes the first `WriteLen` bytes of the item, then exactly one delimiter |
| `Emitter.EmittedRecords` | shuf.c:41-44 | every printed item adds at least its delimiter, and the output of any items ends in the delimiter |
| `Emitter.WriteLen` | shuf.c:41-43 | with several items, `printshuf` writes up to the first NUL; with one, it writes `len` bytes, which stay inside the item |
| `Emitter.NumbersAt` | shuf.c:149-150 | the integer output alternates one number and one delimiter per value |
| `Emitter.NumbersPrefix` | shuf.c:164-165 | each pass of the print loop writes one number and one delimiter |
| `Emitter.EmittedAppend` | shuf.c:73-74 | the output of consecutive items is the concatenation of their records |
| `Emitter.EmittedStep` | shuf.c:73-74 | one more printed item appends its record |
| `Emitter.EmittedPrefix` | shuf.c:73-74 | printing items `0..i` writes the records of `0..i-1`, then the record of `i` |
| `Emitter.EchoEmitted` | shuf.c:77-85 | under `-e`, `printshuf` writes each argument exactly as given, followed by the delimiter |
| `Emitter.FileReadable` | shuf.c:105-127 | in file mode every read of `printshuf` stays inside the buffer `shuffile` allocated for the item |
| `Emitter.SingleItem` | shuf.c:100-120 | a lone item is the whole buffer minus a trailing delimiter |
| `Emitter.SingleItemWritesTerminator` | shuf.c:41-43 | a lone item of input ending in the delimiter is written with its NUL terminator |
| `Emitter.OneLineExample` | shuf.c:41-43 | the input "a\n" is written as "a", NUL, "\n" |
| `Emitter.SeveralItemsStopAtNul` | shuf.c:41-42 | with several items, an item containing a NUL is written only up to that NUL |
| `Emitter.NulLineExample` | shuf.c:41-42 | the input "a", NUL, "b\nc" writes its first line as "a\n" |
| `Emitter.FileRecordIntended` | shuf.c:37-45 | outside the two cases above, `printshuf` writes each item's bytes exactly, then the delimiter |
| `Emitter.NulDelimitedIntended` | shuf.c:37-45 | under `-z` with several items, each item is written exactly |
| `Emitter.WrittenAppend` | shuf.c:73-74 | the intended output of consecutive items concatenates |
| `Emitter.WrittenJoin` | shuf.c:37-45 | the intended output of items is their join, followed by one delimiter |
| `Emitter.WrittenRoundTrip` | shuf.c:100-127 | printing every item of a buffer, as intended, writes the buffer back, ending in exactly one delimiter |
| `Options.CheckRange` | shuf.c:265-268 | `-i lo-hi` is accepted exactly when `lo < hi` and the range is not all of [0, INT_MAX]; the size `hi - lo + 1` includes `hi` and lies in [2, INT_MAX] |
| `Options.RangeSizeFits` | shuf.c:267-268 | among ordered bounds, the `lo == 0 && hi == INT_MAX` test is exactly the one that keeps `hi - lo + 1` within `int` |
| `Input.Realloc` | shuf.c:330 | `realloc` gives a larger buffer that begins with the old contents |
| `Input.Append` | shuf.c:326-332 | appending a byte puts it after the contents; the buffer doubles, into a new one, exactly when that fills it, and stays the same buffer otherwise, so `buflen < bufsize == 1024·2^k` still holds |
| `Input.ReadByte` | shuf.c:325-336 | one pass of the read loop keeps the buffer holding the bytes read so far, `prev` the last of them, and `argn` their item count |
| `Input.CountStep` | shuf.c:333-335 | one more byte adds an item exactly when the byte before it was a delimiter; `prev` starts at 1, which is no delimiter |
| `Input.ReadInput` | shuf.c:322-337 | after the loop the buffer holds the input, the NUL sentinel fits, the size is 1024·2^k, and `argn` is one plus the delimiters before the final byte |
| `Shuf.Session.constructor` | shuf.c:29-31 | a session starts with the given globals and no output |
| `Shuf.Session.PrintShuf` | shuf.c:37-45 | `printshuf` appends the item's record: its bytes, then one delimiter |
| `Shuf.Session.RandomShuf` | shuf.c:47-56 | `randomshuf` writes one record per draw, of the item at that index, and leaves `most` at -1; under `-n` its loop test alone stops it after exactly `most` records |
| `Shuf.Session.PrintPick` | shuf.c:53-54 | one pass of the `randomshuf` loop appends the record of the drawn item |
| `Shuf.Session.CountDown` | shuf.c:52 | `most == -1 ? 1 : most-- > 0` goes on forever at -1, otherwise exactly `most` times, and counts down past 0 to -1 |
| `Shuf.Session.Shuf` | shuf.c:58-75 | `shuf` leaves the arguments shuffled, clamps `most` to the printed count, and writes the records of the first `most` shuffled items in order |
| `Shuf.Session.PrintFirst` | shuf.c:73-74 | the print loop writes the records of items `0..most-1`, in order |
| `Shuf.Session.ShufEcho` | shuf.c:77-85 | under `-e` the output is each sampled or shuffled argument as given, followed by the delimiter, without a clamp on the `-r` count |
| `Shuf.Session.EchoSample` | shuf.c:81-82 | the `-r` branch of `shufecho` writes each drawn argument as given |
| `Shuf.Session.EchoShuffle` | shuf.c:83-84 | the default branch of `shufecho` writes the first `most` shuffled arguments as given |
| `Shuf.Session.ShufFile` | shuf.c:87-136 | `shuffile` splits the buffer into exactly `argn` items, clamps `most` to `argn` (keeping -1), then samples or shuffles the stored items and writes their records |
| `Shuf.Session.ShufIntegers` | shuf.c:138-170 | `shufintegers` writes sampled values of `lo..lo+range-1`, or the first `most` of their shuffle, each followed by the delimiter |
| `Shuf.Session.RandomIntegers` | shuf.c:147-150 | the `-i -r` loop writes `lo` plus each draw, and leaves `most` at -1; under `-n` its loop test alone stops it after exactly `most` values |
| `Shuf.Session.PrintDraw` | shuf.c:149-150 | one pass of the `-i -r` loop appends the drawn value plus `lo`, then the delimiter |
| `Shuf.FillRange` | shuf.c:152-153 | the fill loop sets entry `i` to `lo + i`, so the array is exactly `lo..hi` |
| `Shuf.Session.ShufRange` | shuf.c:265-268 | `-i lo-hi` that fails a check writes nothing; otherwise it writes what `shufintegers` writes for `hi - lo + 1` numbers from `lo` |
| `Shuf.Session.ShufLines` | shuf.c:322-342 | line mode reads the whole input, counts its items, and writes what `shuffile` writes for that buffer |
| `Shuf.Session.Tokenize` | shuf.c:100-120 | the split loop makes a fresh array of the input's items, each stored with its NUL |
| `Shuf.Session.NextItem` | shuf.c:101-119 | one pass of the split loop copies the next item, and stops after the last one |
| `Shuf.Session.ScanItem` | shuf.c:101-104 | the scan stops at the next delimiter or the end of the input; at the end, `inputlen` wraps to `SIZE_MAX` unless the delimiter is NUL |
| `Shuf.CopyItem` | shuf.c:107-113 | the copy loop stores the item's bytes, then a NUL |
| `Shuf.ShuffleReadable` | shuf.c:125-127 | the shuffle keeps every item readable by `printshuf` |
| `Shuf.ShuffleCStrings` | shuf.c:84 | the shuffle keeps every argument a C string |
| `Shuf.PicksReadable` | shuf.c:53-54 | the drawn items are the items at the drawn indices, and stay readable |
| `Shuf.StoredFrom` | shuf.c:107-113 | storage holding each item followed by its NUL is the stored form of the items |
| `Shuf.ScanField` | shuf.c:101-105 | a scanned run up to a delimiter is the next field of what is left |
| `Shuf.NextField` | shuf.c:100-119 | the run scanned from the split position is the next item, and the loop goes on exactly when another item follows |

## Left out

- Option parsing (`getopt`, `strtonum`, and the `strchr` parse of `-i`) is not modelled. Its
  results are the constructor's arguments and the `lo`/`hi` bounds; `-n` gives a count in
  [0, INT_MAX] (`Options.ValidCount`).
- The extra-operand check, `usage`, `version` and `pledge`/`repledge` are not modelled: they are
  argument handling, fixed text and OS sandboxing.
- File I/O is not modelled. `fopen`, `fgetc`, `fclose` and the choice of stdin become the byte
  sequence given to `Input.ReadInput`; `-o` and `stdout` become the `out` field.
- `arc4random_uniform` is the `draws` sequence. The model makes no claim of statistical
  uniformity; `Sampler.ShuffleInjective` and `Sampler.ShuffleReaches` are the combinatorial basis.
- `%d` formatting is not modelled: a printed integer is the token `Decimal(n)`.
- Allocation failures (`err`/`errx` after `malloc`, `realloc` and `reallocarray`) and the
  freeing loops (shuf.c:129-135, 168) are not modelled.
- Allocation is not modelled in place: items are values (`seq<byte>` with their NUL) held in an
  array of items, not pointers into separately allocated buffers. No aliasing between them is
  modelled.
- The `realloc` in `Input.Realloc` always moves the buffer.
- `-e` with no arguments reads `strlen` of a NULL pointer. `Shuf.Session.ShufEcho` requires at
  least one argument.
- Shuf.Session.RandomShuf: without `-n` the loop never ends. The contract describes the records
  written for the first `|draws|` draws, and the model stops such a run when the draws are used
  up. Under `-n` that extra exit is never taken: the loop's own test `most-- > 0` ends the run,
  after exactly `most` records.
  The same holds for Shuf.Session.RandomIntegers, Shuf.Session.EchoSample,
  Shuf.Session.ShufEcho, Shuf.Session.ShufFile, Shuf.Session.ShufIntegers,
  Shuf.Session.ShufRange and Shuf.Session.ShufLines under `-r` without `-n`.
- Shuf.Session.ShufFile and Shuf.Session.ShufLines require at most INT_MAX items. With more,
  main's `int argn` would overflow, which is not modelled.
- The `fwrite` element counts and the sizes of `malloc` requests are not modelled as `size_t`
  arithmetic. The one `size_t` wrap that matters, `inputlen-- == 0` at the end of the input, is
  modelled in `Shuf.Session.ScanItem`.

## Findings

| source | as written | input that shows it | evidently intended | confidence | as-written member | corrected member |
|---|---|---|---|---|---|---|
| shuf.c:41-43, 125-127 | a lone item is written `savedinputlen` bytes long, the whole input length | a file holding "a\n": shuf writes "a", NUL, "\n" | the item's own bytes, then the delimiter: "a\n" | high; not executed | `Emitter.OneLineExample` | `Emitter.WrittenRoundTrip` |
| shuf.c:41-42 | with several items, an item is written up to its first NUL (`strlen`) | a file holding "a", NUL, "b\nc": the first line is written as "a\n" | the whole item: "a", NUL, "b\n" | high; not executed | `Emitter.NulLineExample` | `Emitter.FileRecordIntended` |
