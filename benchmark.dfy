/** The benchmark driver (`main`): for every x in [1, MAX_VAL], taken in
    chunks of CHUNK candidates, run the Fermat test, compute x's bit length
    and the ground-truth flag, and produce one result record. */
module Benchmark {
  import opened Numbers
  import opened Carmichael
  import opened Sampler
  import opened Fermat

  /** The configuration main runs with. */
  const BIT_LENGTH: nat := 32
  const K: int := 16
  const MAX_VAL: u64 := 0xFFFF_FFFF
  const CHUNK: u64 := 1000000

  lemma {:induction false} Pow2Add(i: nat, j: nat)
    ensures Pow2(i + j) == Pow2(i) * Pow2(j)
    decreases i
  {
    if i > 0 {
      Pow2Add(i - 1, j);
    }
  }

  lemma Pow2Of16()
    ensures Pow2(16) == 0x1_0000
  {
    assert Pow2(4) == 16;
    Pow2Add(4, 4);
    Pow2Add(8, 8);
  }

  lemma Pow2Of64()
    ensures Pow2(64) == U64_BOUND
  {
    Pow2Of16();
    Pow2Add(16, 16);
    Pow2Add(32, 32);
  }

  lemma {:induction false} Pow2Monotone(i: nat, j: nat)
    ensures i <= j ==> Pow2(i) <= Pow2(j)
    decreases j
  {
    if i < j {
      Pow2Monotone(i, j - 1);
    }
  }

  /** The number of significant bits of x: the position of its highest set bit. */
  function SignificantBits(x: nat): nat
  {
    if x == 0 then 0 else 1 + SignificantBits(x / 2)
  }

  /** A non-zero x with b significant bits lies in [2^(b-1), 2^b). */
  lemma {:induction false} SignificantBitsBounds(x: nat)
    requires x > 0
    ensures SignificantBits(x) >= 1
    ensures Pow2(SignificantBits(x) - 1) <= x < Pow2(SignificantBits(x))
  {
    if x > 1 {
      SignificantBitsBounds(x / 2);
    }
  }

  /** A value below 2^w has at most w significant bits. */
  lemma {:induction false} SignificantBitsAtMost(x: nat, w: nat)
    requires x < Pow2(w)
    ensures SignificantBits(x) <= w
    decreases w
  {
    if x > 0 {
      SignificantBitsAtMost(x / 2, w - 1);
    }
  }

  /** `__builtin_clzll`: the number of zero bits above the highest set bit of
      a non-zero 64-bit value. */
  function Clz64(x: u64): (z: nat)
    requires x != 0
    ensures z < 64
    ensures Pow2(63 - z) <= x < Pow2(64 - z)
  {
    Pow2Of64();
    SignificantBitsAtMost(x, 64);
    SignificantBitsBounds(x);
    64 - SignificantBits(x)
  }

  /** The bit length reported for x (main.c:124): 1 for zero, otherwise the
      number of bits up to and including the highest set bit. */
  function BitLength(x: u64): (b: nat)
    ensures x == 0 ==> b == 1
    ensures x > 0 ==> 1 <= b <= 64 && Pow2(b - 1) <= x < Pow2(b)
  {
    if x == 0 then 1 else 64 - Clz64(x)
  }

  /** The bit length of a non-zero x is the only b with 2^(b-1) <= x < 2^b. */
  lemma BitLengthUnique(x: u64, b: nat)
    requires x > 0 && b >= 1 && Pow2(b - 1) <= x < Pow2(b)
    ensures BitLength(x) == b
  {
    var c := BitLength(x);
    Pow2Monotone(c, b - 1);
    Pow2Monotone(b, c - 1);
  }

  function Min(a: int, b: int): int
  {
    if a <= b then a else b
  }

  /** One result record, without its elapsed time. */
  datatype Row = Row(n: u64, bitLen: nat, isProbablyPrime: int, witnessBase: nat, isReallyPrime: int)

  /** The candidates [first, last] that one chunk covers. */
  datatype Chunk = Chunk(first: nat, last: nat)

  /** A chunk starting at first ends CHUNK - 1 later, or at maxVal if that
      comes first (main.c:109-110). */
  predicate ChunkBounds(c: Chunk, chunk: nat, maxVal: nat)
  {
    c.first <= c.last == Min(c.first + chunk - 1, maxVal)
  }

  /** The chunks partition [1, upTo] in increasing order: each has its
      bounds, the first starts at 1 and each starts right after the previous
      one ends. */
  predicate Partition(chunks: seq<Chunk>, chunk: nat, maxVal: nat, upTo: nat)
  {
    && (chunks == [] <==> upTo == 0)
    && (chunks != [] ==> chunks[0].first == 1 && chunks[|chunks| - 1].last == upTo)
    && (forall c :: 0 <= c < |chunks| ==> ChunkBounds(chunks[c], chunk, maxVal))
    && (forall c :: 0 <= c < |chunks| - 1 ==> chunks[c + 1].first == chunks[c].last + 1)
  }

  /** A chunk that starts right after a partition of [1, upTo] extends it. */
  lemma PartitionExtend(chunks: seq<Chunk>, chunk: nat, maxVal: nat, upTo: nat, c: Chunk)
    requires Partition(chunks, chunk, maxVal, upTo)
    requires c.first == upTo + 1 && ChunkBounds(c, chunk, maxVal)
    ensures Partition(chunks + [c], chunk, maxVal, c.last)
  {
  }

  /** What a record for candidate n says, given the round count k, the
      loaded Carmichael table and the bases bs the test drew for n. */
  ghost predicate RowFor(row: Row, n: u64, k: int, table: seq<u64>, bs: seq<nat>)
    requires n >= 1
  {
    && row.n == n
    && row.bitLen == BitLength(n)
    && (forall i :: 0 <= i < |bs| ==> Gcd(bs[i], n) == 1)
    && (forall i :: 0 <= i < |bs| - 1 ==> Passes(bs[i], n))
    && (row.isProbablyPrime == 0 || row.isProbablyPrime == 1)
    && (row.isProbablyPrime == 1 <==> |bs| == (if k < 0 then 0 else k) && forall i :: 0 <= i < |bs| ==> Passes(bs[i], n))
    && (row.isProbablyPrime == 1 ==> row.witnessBase == 0)
    && (row.isProbablyPrime == 0 ==> 0 < |bs| <= k && row.witnessBase == bs[|bs| - 1] && !Passes(row.witnessBase, n))
    && (row.isReallyPrime == 1 <==> row.isProbablyPrime == 1 && n !in table)
    && (row.isReallyPrime == 0 || row.isReallyPrime == 1)
  }

  /** The test for n consumed exactly the draws lo .. hi-1 of the generator:
      none at all, or a stretch that ends with an accepted draw. */
  ghost predicate Stretch(draw: Draws, n: nat, lo: nat, hi: nat)
    requires n >= 1
  {
    lo <= hi && (lo < hi ==> Accepts(draw(hi - 1, n), n))
  }

  /** rows are the records for the candidates from, from + 1, ... in order;
      the test for the i-th consumed the generator from position ps[i] up to
      ps[i + 1], where the next test starts. */
  ghost predicate RowsFrom(rows: seq<Row>, from: nat, k: int, table: seq<u64>, draw: Draws, ps: seq<nat>)
  {
    && 1 <= from && from + |rows| <= U64_BOUND
    && |ps| == |rows| + 1
    && forall i :: 0 <= i < |rows| ==> RecordAt(rows, from, k, table, draw, ps, i)
  }

  /** The i-th record of rows is the one for candidate from + i, whose test
      consumed the generator from ps[i] to ps[i + 1]. */
  ghost predicate RecordAt(rows: seq<Row>, from: nat, k: int, table: seq<u64>, draw: Draws, ps: seq<nat>, i: nat)
    requires 1 <= from && from + |rows| <= U64_BOUND && |ps| == |rows| + 1 && i < |rows|
  {
    && Stretch(draw, from + i, ps[i], ps[i + 1])
    && RowFor(rows[i], from + i, k, table, BasesDrawn(draw, from + i, ps[i], ps[i + 1]))
  }

  /** A shorter stretch from lo hands out a proper prefix of the bases of a
      longer stretch that ends with an accepted draw. */
  lemma LongerStretch(draw: Draws, n: nat, lo: nat, hi1: nat, hi2: nat)
    requires n >= 1 && lo <= hi1 && Stretch(draw, n, lo, hi2)
    ensures var a, b := BasesDrawn(draw, n, lo, hi1), BasesDrawn(draw, n, lo, hi2);
      hi1 < hi2 ==> |a| < |b| && forall i :: 0 <= i < |a| ==> a[i] == b[i]
  {
    if hi1 < hi2 {
      BasesDrawnSplit(draw, n, lo, hi1, hi2);
      assert BasesDrawn(draw, n, hi1, hi2) == BasesDrawn(draw, n, hi1, hi2 - 1) + [Normalize(draw(hi2 - 1, n), n)];
    }
  }

  /** The test for a candidate is a function of the generator: from position
      lo only one stretch of draws and only one record meet the description. */
  lemma RecordDetermined(draw: Draws, n: u64, k: int, table: seq<u64>, lo: nat, hi1: nat, hi2: nat, row1: Row, row2: Row)
    requires n >= 1
    requires Stretch(draw, n, lo, hi1) && RowFor(row1, n, k, table, BasesDrawn(draw, n, lo, hi1))
    requires Stretch(draw, n, lo, hi2) && RowFor(row2, n, k, table, BasesDrawn(draw, n, lo, hi2))
    ensures hi1 == hi2 && row1 == row2
  {
    LongerStretch(draw, n, lo, hi1, hi2);
    LongerStretch(draw, n, lo, hi2, hi1);
  }

  /** Two runs over the same candidates from the same generator position
      agree on their first m records and on the positions between them. */
  lemma {:induction false} RunPrefixDetermined(rows1: seq<Row>, ps1: seq<nat>, rows2: seq<Row>, ps2: seq<nat>,
                                               from: nat, k: int, table: seq<u64>, draw: Draws, m: nat)
    requires RowsFrom(rows1, from, k, table, draw, ps1) && RowsFrom(rows2, from, k, table, draw, ps2)
    requires |rows1| == |rows2| && ps1[0] == ps2[0] && m <= |rows1|
    ensures forall j :: 0 <= j <= m ==> ps1[j] == ps2[j]
    ensures forall j :: 0 <= j < m ==> rows1[j] == rows2[j]
    decreases m
  {
    if m > 0 {
      RunPrefixDetermined(rows1, ps1, rows2, ps2, from, k, table, draw, m - 1);
      assert RecordAt(rows1, from, k, table, draw, ps1, m - 1);
      assert RecordAt(rows2, from, k, table, draw, ps2, m - 1);
      RecordDetermined(draw, from + m - 1, k, table, ps1[m - 1], ps1[m], ps2[m], rows1[m - 1], rows2[m - 1]);
    }
  }

  /** The records of a run are a function of the candidates, the round
      count, the table and the generator: no other outcome meets the
      description. */
  lemma RunDetermined(rows1: seq<Row>, ps1: seq<nat>, rows2: seq<Row>, ps2: seq<nat>,
                      from: nat, k: int, table: seq<u64>, draw: Draws)
    requires RowsFrom(rows1, from, k, table, draw, ps1) && RowsFrom(rows2, from, k, table, draw, ps2)
    requires |rows1| == |rows2| && ps1[0] == ps2[0]
    ensures rows1 == rows2 && ps1 == ps2
  {
    RunPrefixDetermined(rows1, ps1, rows2, ps2, from, k, table, draw, |rows1|);
  }

  /** The generator keeps its promise for every bound and never leaves a
      sampler run without an accepted draw. */
  ghost predicate Generator(draw: Draws)
  {
    forall m :: m >= 1 ==> DrawsBelow(draw, m) && EndlessDraws(draw, m)
  }

  /** Tests one candidate (main.c:113-125), consuming the generator from
      position pos to next. */
  method TestCandidate(table: CarmichaelTable, x: u64, k: int, draw: Draws, pos: nat)
    returns (row: Row, next: nat, ghost bases: seq<nat>)
    requires table.Valid() && Sorted(table.Contents())
    requires x >= 1 && EndlessDraws(draw, x)
    ensures Stretch(draw, x, pos, next) && bases == BasesDrawn(draw, x, pos, next)
    ensures RowFor(row, x, k, table.Contents(), bases)
    ensures DrawsBelow(draw, x) && row.isProbablyPrime == 0 ==> 2 <= row.witnessBase && (x >= 4 ==> row.witnessBase <= x - 1)
  {
    var isPrime, w;
    isPrime, w, next, bases := FermatTest(x, k, draw, pos);
    if bases != [] && DrawsBelow(draw, x) {
      NormalizeBelow(draw(next - 1, x), x);
    }
    var bitLen := BitLength(x);
    var isReallyPrime := 0;
    if isPrime != 0 {
      var carmichael := table.IsCarmichael(x);
      isReallyPrime := if carmichael then 0 else 1;
    }
    row := Row(x, bitLen, isPrime, w, isReallyPrime);
  }

  /** The inner loop over one chunk (main.c:112-146): one record for each
      candidate in [first, last], in increasing order, each test starting
      where the previous one left the generator. */
  method RunChunk(table: CarmichaelTable, first: u64, last: u64, k: int, draw: Draws, pos: nat)
    returns (rows: seq<Row>, next: nat, ghost ps: seq<nat>)
    requires table.Valid() && Sorted(table.Contents())
    requires 1 <= first <= last < U64_BOUND - 1
    requires Generator(draw)
    ensures |rows| == last - first + 1
    ensures RowsFrom(rows, first, k, table.Contents(), draw, ps)
    ensures ps[0] == pos && ps[|rows|] == next
  {
    rows, next, ps := [], pos, [pos];
    var x: u64 := first;
    while x <= last
      invariant first <= x <= last + 1
      invariant |rows| == x - first
      invariant RowsFrom(rows, first, k, table.Contents(), draw, ps)
      invariant ps[0] == pos && ps[|rows|] == next
    {
      var row;
      ghost var bases;
      ghost var before, psBefore := rows, ps;
      row, next, bases := TestCandidate(table, x, k, draw, next);
      rows := rows + [row];
      ps := ps + [next];
      forall i | 0 <= i < |rows|
        ensures RecordAt(rows, first, k, table.Contents(), draw, ps, i)
      {
        if i < |before| {
          assert RecordAt(before, first, k, table.Contents(), draw, psBefore, i);
          assert rows[i] == before[i] && ps[i] == psBefore[i] && ps[i + 1] == psBefore[i + 1];
        }
      }
      x := x + 1;
    }
  }

  /** The chunked range loops (main.c:108-147): chunks of `chunk` candidates
      that partition [1, maxVal] in increasing order, and one record per
      candidate, the tests consuming the generator one after the other from
      position pos. */
  method RunBenchmark(table: CarmichaelTable, maxVal: u64, chunk: u64, k: int, draw: Draws, pos: nat)
    returns (rows: seq<Row>, chunks: seq<Chunk>, next: nat, ghost ps: seq<nat>)
    requires table.Valid() && Sorted(table.Contents())
    requires chunk >= 1 && maxVal + chunk < U64_BOUND
    requires Generator(draw)
    ensures |rows| == maxVal
    ensures RowsFrom(rows, 1, k, table.Contents(), draw, ps)
    ensures ps[0] == pos && ps[|rows|] == next
    ensures Partition(chunks, chunk, maxVal, maxVal)
  {
    rows, chunks, next, ps := [], [], pos, [pos];
    ghost var contents := table.Contents();
    var start: u64 := 1;
    while start <= maxVal
      invariant |rows| <= maxVal
      invariant Partition(chunks, chunk, maxVal, |rows|)
      invariant start == if chunks == [] then 1 else chunks[|chunks| - 1].first + chunk
      invariant RowsFrom(rows, 1, k, contents, draw, ps)
      invariant ps[0] == pos && ps[|rows|] == next
      decreases maxVal + 1 - start
    {
      var end: u64 := start + chunk - 1;
      if end > maxVal {
        end := maxVal;
      }
      var chunkRows;
      ghost var chunkPs;
      chunkRows, next, chunkPs := RunChunk(table, start, end, k, draw, next);
      AppendRows(rows, chunkRows, k, contents, draw, ps, chunkPs);
      assert (ps + chunkPs[1..])[|rows| + |chunkRows|] == chunkPs[|chunkRows|];
      rows := rows + chunkRows;
      ps := ps + chunkPs[1..];
      PartitionExtend(chunks, chunk, maxVal, |rows| - |chunkRows|, Chunk(start, end));
      chunks := chunks + [Chunk(start, end)];
      start := start + chunk;
    }
  }

  /** Records from 1 followed by records for the next candidates, whose tests
      start where the earlier ones left the generator, are records from 1. */
  lemma AppendRows(done: seq<Row>, more: seq<Row>, k: int, table: seq<u64>, draw: Draws, ps: seq<nat>, qs: seq<nat>)
    requires RowsFrom(done, 1, k, table, draw, ps) && RowsFrom(more, |done| + 1, k, table, draw, qs)
    requires qs[0] == ps[|done|]
    ensures RowsFrom(done + more, 1, k, table, draw, ps + qs[1..])
  {
    var rows, all := done + more, ps + qs[1..];
    forall i | 0 <= i < |rows|
      ensures RecordAt(rows, 1, k, table, draw, all, i)
    {
      if i < |done| {
        assert RecordAt(done, 1, k, table, draw, ps, i);
        assert rows[i] == done[i] && all[i] == ps[i] && all[i + 1] == ps[i + 1];
      } else {
        var j := i - |done|;
        assert RecordAt(more, |done| + 1, k, table, draw, qs, j);
        assert rows[i] == more[j] && all[i] == qs[j] && all[i + 1] == qs[j + 1];
        assert 1 + i == |done| + 1 + j;
      }
    }
  }

  /** The whole run of main from a fresh generator: load the Carmichael
      numbers up to MAX_VAL from a sorted source, then test every candidate in
      [1, MAX_VAL] with K rounds, each test drawing where the previous one
      stopped. A record's ground truth says prime exactly when the test passed
      and the candidate is not in the source. */
  method RunMain(source: seq<u64>, draw: Draws) returns (rows: seq<Row>, ghost ps: seq<nat>)
    requires Sorted(source)
    requires Generator(draw)
    ensures |rows| == MAX_VAL
    ensures RowsFrom(rows, 1, K, LoadedPrefix(source, MAX_VAL), draw, ps) && ps[0] == 0
    ensures forall i :: 0 <= i < |rows| ==> rows[i].n == i + 1 && rows[i].bitLen == BitLength(i + 1)
    ensures forall i :: 0 <= i < |rows| ==>
      (rows[i].isReallyPrime == 1 <==> rows[i].isProbablyPrime == 1 && rows[i].n !in source)
  {
    var table := new CarmichaelTable();
    table.Load(source, MAX_VAL);
    LoadedPrefixSorted(source, MAX_VAL);
    var chunks, next;
    rows, chunks, next, ps := RunBenchmark(table, MAX_VAL, CHUNK, K, draw, 0);
    forall i | 0 <= i < |rows|
      ensures rows[i].n == i + 1 && rows[i].bitLen == BitLength(i + 1)
      ensures rows[i].isReallyPrime == 1 <==> rows[i].isProbablyPrime == 1 && rows[i].n !in source
    {
      assert RecordAt(rows, 1, K, table.Contents(), draw, ps, i);
      LoadedPrefixBoundScoped(source, MAX_VAL, rows[i].n);
    }
  }

  /** main's MAX_VAL is (1 << bit_length) - 1, and its chunk loop cannot wrap. */
  lemma MainConfiguration()
    ensures MAX_VAL == Pow2(BIT_LENGTH) - 1
    ensures MAX_VAL + CHUNK < U64_BOUND
  {
    Pow2Of16();
    Pow2Add(16, 16);
  }
}
