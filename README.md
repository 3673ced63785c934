# Fermat primality benchmark, verified model

The benchmark in `main.c` runs a k-round Fermat primality test on every
integer x in [1, 2^32 − 1]. It emits one record per candidate: x, its bit
length, the test's verdict, the witness base when the test fails, and a
ground-truth flag. The flag is the test's verdict corrected by a sorted
table of known Carmichael numbers. This project models that core in Dafny
and proves what each piece computes.

- `numbers.dfy` (module `Numbers`): the exact big-integer arithmetic the
  benchmark takes from GMP. `ModPow` is square-and-multiply, proved equal to
  a^e mod n. `Gcd` is Euclid's algorithm, proved to be the greatest common
  divisor.
- `carmichael.dfy` (module `Carmichael`): the class `CarmichaelTable` holds
  the global buffer and count (main.c:11-12), plus the loader's local
  capacity `cap` (main.c:21), kept as a field so that growth can be stated
  across stores. Before loading there is no buffer and its capacity is 0.
  - `Load` is `load_carmichael`. The file becomes an input sequence. Values
    are stored one by one, and the buffer doubles when it is full.
  - `IsCarmichael` is the lower-bound binary search `is_carmichael`.
- `sampler.dfy` (module `Sampler`): `generate_random_coprime`, a rejection
  loop over the draws of a random generator.
- `fermat.dfy` (module `Fermat`): `fermat_test_gmp`, up to k rounds that stop
  at the first failing base.
- `benchmark.dfy` (module `Benchmark`): the body of `main`.
  - `TestCandidate` covers one candidate: the test, the bit length and the
    ground-truth flag.
  - `RunChunk` and `RunBenchmark` are the two chunk loops.
  - `RunMain` is the whole run with main's constants.

The random generator is modelled as a function `draw(j, n)`: the j-th value
the generator yields when asked for a value below n. The generator state
(`gmp_randstate_t`) is a position in that stream. Each sampler call consumes
draws from the position it is given and returns the position after the
accepted draw. `BasesDrawn` lists the bases that a stretch of the stream
hands out, which makes "the bases the rounds used, in order" exact.

The comment at main.c:52 promises a base in [2, n−2], but the code can
return n−1: a draw of n−1 passes unchanged and gcd(n−1, n) = 1. The model
follows the code. Its range is [2, n−1] for n ≥ 4, and
`Sampler.PredecessorAccepted` proves that n−1 is accepted.

## Model

| member | source | states |
|---|---|---|
| Numbers.ModPowIsPowMod | main.c:74 | the modular power used for each round (`mpz_powm`) is exactly a^(n−1) mod n, against the naive power |
| Numbers.GcdDivides | main.c:60 | the gcd the sampler checks is positive and divides both the base and n |
| Numbers.GcdGreatest | main.c:60 | every common divisor of the base and n divides their gcd, so gcd 1 means coprime |
| Numbers.PredCoprime | main.c:52-61 | n−1 and n are coprime for every n ≥ 2 |
| Carmichael.LoadedPrefix | main.c:24-31 | the values the loader keeps: a prefix of the input, all at most max_val, followed by a value above max_val unless the input is used up |
| Carmichael.LoadedPrefixAt | main.c:24-31 | the kept prefix is exactly the input up to the first value above max_val |
| Carmichael.LoadedPrefixBoundScoped | main.c:24-25 | for an ascending input, a value is kept exactly when it occurs in the input and is at most max_val |
| Carmichael.LoadedPrefixSorted | main.c:24-30 | an ascending input gives an ascending table, which the binary search relies on |
| Carmichael.CapacityFor | main.c:21-27 | the capacity after n stores is 1024 doubled some number of times, at least n, and not doubled more than needed |
| Carmichael.CapacityStep | main.c:26-27 | one more store keeps the capacity while count < cap, and doubles it exactly when count == cap |
| Carmichael.CarmichaelTable.constructor | main.c:11-12 | the zero globals: no buffer yet (capacity 0) and no values stored |
| Carmichael.CarmichaelTable.Grow | main.c:26-29 | a full buffer is replaced by one of twice the capacity that keeps every stored value |
| Carmichael.CarmichaelTable.Store | main.c:26-30 | one value is appended after the stored ones, count grows by one, and count ≤ cap and the doubling capacity are kept |
| Carmichael.CarmichaelTable.Load | main.c:15-33 | the table holds exactly the longest prefix of the input whose values are all ≤ max_val, in input order, with count ≤ cap and the capacity a doubling of 1024 |
| Carmichael.CarmichaelTable.IsCarmichael | main.c:36-44 | on an ascending table, returns true exactly when n is one of the stored values; the loop keeps 0 ≤ lo ≤ hi ≤ count, values below lo < n and values from hi on ≥ n |
| Sampler.BasesDrawnSplit | main.c:56-61 | the bases handed out by two consecutive stretches of draws are those of each stretch, in order |
| Sampler.NormalizeBelow | main.c:57-59 | a draw r < n is never reduced: 0 and 1 become 2 and 3 and other draws are kept, so for n ≥ 4 the base lies in [2, n−1] |
| Sampler.GenerateRandomCoprime | main.c:53-63 | the base returned is coprime to n and comes from the first accepted draw; every earlier draw was rejected; for a draw below n the base is in [2, n−1] when n ≥ 4 |
| Sampler.PredecessorAccepted | main.c:52-61 | a draw of n−1 is kept and accepted, so the sampler can return n−1, outside the commented range [2, n−2] |
| Sampler.PredecessorDrawsAcceptable | main.c:56-61 | a generator that always yields n−1 keeps its range and stops every sampler run |
| Fermat.FermatTest | main.c:66-84 | returns 1 and witness 0 exactly when all max(k, 0) rounds passed; otherwise returns 0 with the failing round's base as witness, which fails a^(n−1) mod n == 1 and is coprime to n; every earlier base passed, no round runs after the failing one, and no draw is taken when no round runs |
| Benchmark.Clz64 | main.c:124 | the count of leading zeros of a non-zero 64-bit x is the z < 64 with 2^(63−z) ≤ x < 2^(64−z) |
| Benchmark.BitLength | main.c:124 | bit_len is 1 for x = 0, and otherwise a b in [1, 64] with 2^(b−1) ≤ x < 2^b |
| Benchmark.BitLengthUnique | main.c:124 | for x > 0 the bit length is the only b with 2^(b−1) ≤ x < 2^b |
| Benchmark.PartitionExtend | main.c:108-110 | a chunk starting right after the chunks so far extends their partition of [1, upTo] |
| Benchmark.AppendRows | main.c:108-112 | the records of one chunk, whose tests start where the earlier ones left the generator, appended after the records from 1, give records from 1 |
| Benchmark.TestCandidate | main.c:113-125 | one record for x, from the draws its test consumed between the generator positions before and after (none, or a stretch ending with an accepted draw): the candidate, its bit length, verdict 1 exactly when the max(k, 0) bases drawn all passed, otherwise verdict 0 with the last drawn base, which fails, as witness; every drawn base is coprime to x; is_really_prime == 1 exactly when the test passed and x is not in the table |
| Benchmark.RunChunk | main.c:112-146 | one record for each candidate from start to end, in increasing order; the test for each candidate starts at the generator position where the previous one stopped, and its record satisfies TestCandidate's description for the bases drawn in that stretch |
| Benchmark.RunBenchmark | main.c:108-147 | the chunks partition [1, max_val] in increasing order, each ending at min(start + CHUNK − 1, max_val); one record per candidate in [1, max_val], each candidate exactly once and in order, the tests consuming the generator one after the other from the start position, each record as in TestCandidate for its own stretch of draws |
| Benchmark.RunMain | main.c:86-147 | MAX_VAL records from a fresh generator (position 0), the i-th for candidate i + 1 with its bit length and the K = 16 round verdict and witness computed from the bases the generator handed out for that candidate, each test starting where the previous one stopped; the flag says prime exactly when the test passed and the candidate is not in the sorted Carmichael source |
| Benchmark.RecordDetermined | main.c:113-125 | the record for a candidate is a function of the generator: from one position only one stretch of draws and one record meet TestCandidate's description |
| Benchmark.RunDetermined | main.c:108-147 | all the records of a run, and the generator positions between them, are determined by the candidates, k, the table and the generator |
| Numbers.Pow2IsPow | main.c:89 | the power of two used for the bit bounds equals Pow(2, b) |
| Benchmark.MainConfiguration | main.c:87-90 | MAX_VAL is 2^32 − 1 and MAX_VAL + CHUNK cannot wrap a 64-bit counter |

## Left out

- File input and output. The Carmichael file is an input sequence, the CSV header and rows are not produced, and the `fopen` failure path with `perror`/`exit` is not modelled (main.c:16-20, 32, 102-105, 127-145).
- `mpz_get_str` and the textual witness: a record holds the witness as a number.
- GMP itself. `mpz_powm`, `mpz_gcd` and `mpz_mod` become the functions `ModPow`, `Gcd` and `%` on unbounded naturals. `mpz_urandomm` becomes the draw function.
- `init_rng` and seeding from the wall clock (main.c:47-50). The draw function is a parameter.
- `clock_gettime` and the elapsed time in nanoseconds (main.c:115-120). These are environment-dependent, so records carry no timing.
- Unchecked `malloc`/`realloc` failure and the final `free` calls (main.c:22, 28, 150-153).
- Sampler.GenerateRandomCoprime: requires that some draw from its start position is accepted, because the loop has no bound. Generator runs in which the C loop spins forever are not modelled.
- Fermat.FermatTest: requires the same of every start position (`EndlessDraws`).
- Carmichael.CarmichaelTable.Load: requires an empty table, because `main` calls the loader once on the zero-initialised globals.
- Carmichael.CarmichaelTable.IsCarmichael: its result is only specified for an ascending table, which here is what the loader keeps from an ascending source.
- The size_t arithmetic `(lo + hi) >> 1` is taken as exact. It cannot wrap, because count is far below 2^63.
- Benchmark.RunBenchmark: requires max_val + chunk < 2^64, so the `start += CHUNK` counter never wraps. `Benchmark.MainConfiguration` shows main's constants satisfy this.
- Fermat's little theorem (a prime n always passes) is not proved. It is not needed for the code's own contracts.
- `analyze_results.py` (pandas aggregation, floating-point rates, plotting) is not part of this model.
