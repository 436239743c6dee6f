# csvsample in Dafny

A model of the sampling core of `csvsample`, which draws rows from a CSV text stream whose
first line is a header. The stream is modelled as a sequence of lines. It has three
samplers:

- `random_sample` keeps each row independently. A row is kept iff the seeded generator's
  draw for it is below the sample rate.
- `hash_sample` keeps a row iff the seeded 64-bit hash of its key field, taken as a
  fraction of 2^64 - 1, is below the sample rate. Rows with the same key are therefore
  kept or dropped together.
- `reservoir_sample` is Algorithm R. When `0 < sample_size <=` the row count, it keeps
  `sample_size` rows and emits them in their original order. With fewer rows than
  `sample_size` it emits them twice, and with `sample_size <= 0` it emits the header only.

The dispatcher `sample` picks one of the three by name.

Every sampler first strips each line (Python's `str.strip`) and yields the stripped header
before taking any sampling decision. The one exception is `hash_sample`. It parses the
header first and raises ValueError, yielding nothing, when the header lacks the requested
column. A run is an `Outcome`:

- `Emitted(lines)`: the generator completed;
- `Raised(prefix, error)`: it yielded `prefix` and then raised `error`.

The possible errors are:

- an empty source;
- a column the header lacks;
- a row without the key field;
- an unknown method name;
- a missing keyword argument.

Randomness and hashing are inputs of the model:

- `draws[i]` is `rnd.random()` for row `i`;
- `picks[k]` is `rnd.randint(0, k)` for the row with arrival index `k`;
- `digest(seed, key)` is the seeded xxh64 digest of `key`.

The proved properties are:

- the random and hash samplers' outputs are order-preserving selections of the stripped rows;
- row by row, the keep/drop decision depends only on that row's draw or key digest;
- hash-keyed groups are all-or-nothing;
- a row without the key field ends the hash run with IndexError, after yielding exactly
  what the earlier rows yield;
- Bernoulli sampling at rate 0 yields the header only and at rate 1 every line;
- hash-keyed sampling at rate 0 yields no row, and above rate 1 every row up to the
  first one without the key field;
- at rate exactly 1, hash-keyed sampling drops only a row whose digest is 2^64 - 1 (a fact
  about one digest, not a statement about whole runs);
- when `0 < sample_size <=` the row count, the reservoir keeps exactly `sample_size` rows,
  a subsequence of the input, and all rows when `sample_size` equals the row count;
- with fewer rows than `sample_size` the reservoir yields the header, then the rows twice;
  with `sample_size <= 0` it yields the header only;
- the reservoir's imperative phase-by-phase method computes the same result as its
  specification function;
- `str.strip` characterisation, idempotence, and a split/join round trip.

Modules, in dependency order:

- `Outcomes`: runs and errors;
- `Subsequences`: order-preserving selection;
- `Text`: strip, the comma field split standing in for `csv.reader`, `list.index`;
- `RandomSampling`, `HashSampling`, `ReservoirSampling`: the three samplers;
- `Sampler`: the dispatcher.

Three behaviours of the code are easy to miss. The model follows the code:

- The docstrings describe the sample rate as "between 0.0 to 1.0"
  (csvsample/csvsample.py:74, 96), but neither `sample_rate` nor `sample_size` is checked.
  The model accepts any rate and any integer size. A size of zero or less keeps no row,
  because no pick is below it.
- At rate 1.0 the hash sampler drops a row whose digest is 2^64 - 1, because that digest's
  fraction is exactly 1.0 and 1.0 < 1.0 is false. So a rate of 1.0 does not keep every row.
- When the source has fewer rows than `sample_size`, the reservoir yields those rows twice
  (see Findings).

## Model

| member | source | states |
|---|---|---|
| Text.TrimLeft | csvsample/csvsample.py:77 | the result is a suffix of the input; exactly the leading whitespace is removed; it does not start with whitespace |
| Text.TrimRight | csvsample/csvsample.py:77 | the result is a prefix of the input; exactly the trailing whitespace is removed; it does not end with whitespace |
| Text.IsSpace | csvsample/csvsample.py:77 | the whitespace `str.strip` removes: no printable ASCII character other than the space is whitespace, and every whitespace character is the space, an ASCII control or at least U+0085 |
| Text.Strip | csvsample/csvsample.py:77 | the stripped line has no whitespace at either end; it is empty iff the line is all whitespace; it is no longer than the line |
| Text.StripRemovesSurroundings | csvsample/csvsample.py:77 | whitespace `a` and `b` around a core `m` with non-space ends strip to exactly `m` |
| Text.StripIdempotent | csvsample/csvsample.py:77 | stripping twice is stripping once |
| Text.StripAll | csvsample/csvsample.py:77 | the stripped-line stream: one line out per line in, each the stripped input line |
| Text.StripAllCons | csvsample/csvsample.py:77 | stripping each line of a source is stripping its header, then stripping each row |
| Text.Split | csvsample/csvsample.py:104 | the fields contain no comma and join back, with commas, to the line |
| Text.SplitJoin | csvsample/csvsample.py:104 | splitting the comma-joined comma-free fields gives those fields back |
| Text.Fields | csvsample/csvsample.py:104 | `csv.reader` without quoting: the row is empty iff the line is; otherwise comma-free fields that join back, with commas, to the line |
| Text.IndexOf | csvsample/csvsample.py:106 | `list.index`: `None` iff the column is absent; otherwise the first position holding it |
| RandomSampling.Bernoulli | csvsample/csvsample.py:84-86 | never more rows than the input |
| RandomSampling.BernoulliIsSubseq | csvsample/csvsample.py:84-86 | the kept rows are an order-preserving selection of the rows |
| RandomSampling.RandomSample | csvsample/csvsample.py:77-86 | empty source: raises with nothing yielded; otherwise yields the stripped header, then an order-preserving selection of the stripped rows |
| RandomSampling.BernoulliAppend | csvsample/csvsample.py:83-86 | sampling `a + b` is sampling `a`, then sampling `b` with the draws after `a`'s |
| RandomSampling.BernoulliRowDecision | csvsample/csvsample.py:85-86 | row `i` is in the output, between the earlier and later rows' output, iff `draws[i] < sample_rate` |
| RandomSampling.BernoulliUsesRowsDraws | csvsample/csvsample.py:83-86 | one draw per row: draws beyond the last row do not matter |
| RandomSampling.BernoulliExtremes | csvsample/csvsample.py:85 | with draws in [0, 1): rate <= 0 keeps no row, rate >= 1 keeps every row |
| RandomSampling.RandomSampleExtremes | csvsample/csvsample.py:77-86 | rate <= 0 yields the header only; rate >= 1 yields every stripped line |
| HashSampling.Keeps | csvsample/csvsample.py:117 | a digest is kept iff it is below the rate times 2^64 - 1, the exact form of the division compared with the rate |
| HashSampling.RowKey | csvsample/csvsample.py:114-116 | `row[col_index]`: absent iff the row has no field at the column, otherwise that field |
| HashSampling.HashRows | csvsample/csvsample.py:114-118 | never more lines than rows; the only possible error is IndexError |
| HashSampling.HashRowsIsSubseq | csvsample/csvsample.py:114-118 | the yielded rows, whether the run completes or raises, are an order-preserving selection of the rows |
| HashSampling.HashRowsCompletes | csvsample/csvsample.py:114-116 | a run over rows that all have the key field completes without raising |
| HashSampling.HashSample | csvsample/csvsample.py:100-118 | empty source: raises with nothing yielded; header without the column: ValueError before anything is yielded; otherwise the stripped header, then an order-preserving selection of the stripped rows, possibly ending in IndexError |
| HashSampling.HashRowsAppend | csvsample/csvsample.py:114-118 | a run over `a + b` is the run over `a` followed, unless it raised, by the run over `b` |
| HashSampling.HashRowsRaises | csvsample/csvsample.py:116 | the run raises iff some row has no field at the key column |
| HashSampling.HashRowsStopsAtBadRow | csvsample/csvsample.py:114-116 | at the first row without the key field the run raises IndexError, having yielded exactly what the earlier rows yield |
| HashSampling.HashRowsRowDecision | csvsample/csvsample.py:115-118 | a row with the key field is yielded, in its place, iff its key's digest fraction is below the rate |
| HashSampling.HashRowsKeepsGroups | csvsample/csvsample.py:114-118 | in a completed run, the rows with a given key are all yielded or none are |
| HashSampling.KeepsBounds | csvsample/csvsample.py:117 | rate <= 0 keeps no digest; rate > 1 keeps every digest; rate 1 keeps every digest except 2^64 - 1 |
| HashSampling.HashRowsExtremes | csvsample/csvsample.py:114-118 | rate <= 0 yields no row; above rate 1 a completed run yields every row |
| HashSampling.HashRowsAboveOneStops | csvsample/csvsample.py:114-118 | above rate 1, a run with a row lacking the key field yields exactly the rows before the first such row, then raises IndexError |
| HashSampling.HashSampleGroups | tests/test_csvsample.py:17-28 | when the column exists: raises iff some stripped row lacks the field; a completed run keeps or drops each key's rows as a group |
| ReservoirSampling.Values | csvsample/csvsample.py:148 | one line per bucket: bucket `i`'s line |
| ReservoirSampling.Filled | csvsample/csvsample.py:142-146 | after the fill phase, bucket `i` holds arrival index `i` and row `i` |
| ReservoirSampling.FilledIsFaithful | csvsample/csvsample.py:142-146 | filled buckets hold distinct arrival indices below `k`, each with its own row, and their lines are the first `k` rows |
| ReservoirSampling.UpdateStep | csvsample/csvsample.py:152-155 | `k` grows by one and the bucket count stays the same; if `position < sample_size`, bucket `position` becomes `(k, line)` and every other bucket stays; otherwise no bucket changes |
| ReservoirSampling.UpdateStepKeepsInv | csvsample/csvsample.py:152-155 | an in-range pick keeps the reservoir full, holding distinct arrival indices, each bucket with its own row |
| ReservoirSampling.UpdatePhase | csvsample/csvsample.py:151-155 | the update loop ends with every row consumed and the invariant intact |
| ReservoirSampling.UpdatePhaseStep | csvsample/csvsample.py:151-155 | the update loop is one update step followed by the loop over the remaining rows |
| ReservoirSampling.Insert | csvsample/csvsample.py:157 | inserting into a list sorted by arrival index keeps it sorted and adds exactly the new bucket; it stays strictly sorted when it was and the new index is fresh |
| ReservoirSampling.SortByTag | csvsample/csvsample.py:157 | the result is sorted by arrival index and is a permutation of the buckets; with distinct indices it is strictly sorted |
| ReservoirSampling.SortByTagSorted | csvsample/csvsample.py:157 | sorting buckets already in order changes nothing |
| ReservoirSampling.AscendingIsSubseq | csvsample/csvsample.py:157 | buckets in strictly increasing index order, each holding its own row, form an order-preserving selection of the rows |
| ReservoirSampling.SortedReservoirIsSubseq | csvsample/csvsample.py:150-157 | at the end of the rows, the sorted reservoir yields `max(sample_size, 0)` lines, an order-preserving selection of the rows |
| ReservoirSampling.Sampled | csvsample/csvsample.py:150-157 | after a complete fill phase, the final emission has `max(sample_size, 0)` lines, an order-preserving selection of the rows |
| ReservoirSampling.ReservoirOutput | csvsample/csvsample.py:131-157 | empty source: raises with nothing yielded; otherwise the run completes and yields the stripped header first |
| ReservoirSampling.FillReservoir | csvsample/csvsample.py:141-148 | the rows ran out iff there are fewer than `sample_size`; then `k` is the row count, otherwise `max(sample_size, 0)`; the buckets are the first `k` rows, each tagged with its arrival index |
| ReservoirSampling.UpdateReservoir | csvsample/csvsample.py:150-155 | the imperative update loop leaves the buckets that the update-phase function describes |
| ReservoirSampling.ReservoirSample | csvsample/csvsample.py:121-157 | the phase-by-phase imperative run yields exactly what the specification function describes |
| ReservoirSampling.ReservoirShortInput | csvsample/csvsample.py:143-157 | fewer rows than `sample_size`: the stripped header, then the stripped rows, then the same rows again |
| ReservoirSampling.ReservoirNoCapacity | csvsample/csvsample.py:144-155 | `sample_size <= 0` yields the header only |
| ReservoirSampling.ReservoirFullInput | tests/test_csvsample.py:31-39 | with `0 < sample_size <= n` rows: exactly `sample_size` rows after the header, an order-preserving selection of the stripped rows; when `sample_size == n`, every stripped line |
| ReservoirSampling.ShortInputRepeatsRows | csvsample/csvsample.py:147-157 | the source `["h", "a"]` with `sample_size` 2 yields `["h", "a", "a"]` |
| ReservoirSampling.TwoLineShortInput | csvsample/csvsample.py:143-157 | a header and one row with `sample_size` 2 yield the stripped header, then the stripped row twice |
| ReservoirSampling.StripKeepsWord | csvsample/csvsample.py:131 | a line with non-space ends is left as it is by stripping |
| ReservoirSampling.ReservoirIntended | csvsample/csvsample.py:147-148 | the corrected sampler: an empty source raises; otherwise it completes, yielding the stripped header first |
| ReservoirSampling.ReservoirIntendedCount | csvsample/csvsample.py:142-157 | the corrected sampler yields `min(max(sample_size, 0), n)` rows after the header, an order-preserving selection of the stripped rows, and every row when `sample_size >= n` |
| Sampler.Sample | csvsample/csvsample.py:26-42 | unknown name: ValueError; missing `sample_rate`, `col` or `sample_size`: KeyError, both before any line is read; otherwise the named sampler's exact run; any output starts with the stripped header; for random and hash, the rest is an order-preserving selection of the stripped rows |

## Left out

- The command-line wrapper (`CLI`, csvsample/csvsample.py:10-23) is left out: it only passes stdin to `sample`.
- `sample_url` (csvsample/csvsample.py:45-49) is left out: it is network I/O and byte decoding.
- `Generator` and `Generator.to_buf` (csvsample/csvsample.py:52-64) are left out: they only wrap the output and buffer it with newlines.
- Laziness is left out. A run is modelled as a finite sequence of lines plus how it ends. Interleaving with the consumer and infinite sources are not modelled.
- The Mersenne Twister generator is not modelled. Its outputs are inputs: `draws` for `random()` and `picks` for `randint(0, k)`.
- RandomSampling.UnitDraws: `random()` has 53-bit float resolution and the draws are arbitrary reals in [0, 1). Nothing about their distribution is stated, so the statistical tolerances in the tests are not modelled.
- ReservoirSampling.ValidPicks: it requires only `0 <= picks[k] <= k`. Uniformity of `randint` is not modelled.
- xxh64 is a parameter `Digest` from (seed, key) to a 64-bit digest. `xxh64('xxhash', seed=seed)` followed by `reset()` on every row discards the initial `'xxhash'` data, so the digest depends only on the seed and the key.
- Seeds that are not given are left out, because both are entropy sources. `sample` only defaults `seed` to `None` (csvsample/csvsample.py:27) and passes it on. `hash_sample` then draws a 64-bit seed (csvsample/csvsample.py:110-111), and `random.Random(None)` seeds itself from the operating system (csvsample/csvsample.py:83, 138). The model takes the hash seed as an argument and the generators' outputs as data.
- HashSampling.Keeps: `intdigest() / 0xFFFFFFFFFFFFFFFF` is a float division. In the model it is an exact rational comparison. Float rounding near 2^64 is not modelled, so digests within rounding distance of 2^64 - 1 count as below 1.0 here but may not in the code.
- Text.Fields: it models `csv.reader` without quoting. Quoted fields, escaped commas and quoted newlines are not modelled. A quoted newline would also misalign the tee'd line streams in the code.
- Text.IsSpace: it is Python's `str.isspace` set for `str.strip()`, given as explicit code points. No Unicode database is consulted.
- Parameter validation is not modelled, because the code has none. A non-`int` `sample_size` would raise in `range()`; the model takes an integer.
- Sampler.Sample: it uses the reservoir sampler as written, double emission included, because the dispatcher calls the code as it stands. `ReservoirIntended` is the corrected behaviour.

## Findings

| source | as written | input that shows it | evidently intended | confidence | as-written member | corrected member |
|---|---|---|---|---|---|---|
| csvsample/csvsample.py:147-157 | when the rows run out during the fill phase, `except StopIteration` yields the buckets, and control falls through to the final `yield from`, which yields them again | source `["h", "a"]`, `sample_size` 2: yields `h, a, a` | a source with fewer rows than `sample_size` yields each row once, in its original order | not executed | ReservoirSampling.ShortInputRepeatsRows | ReservoirSampling.ReservoirIntendedCount |
