/**
 * Memory measurement arithmetic of core.go: the delta between two readings (MemStage.Diff),
 * its extrapolation from the sample to the whole population (MemDiff.SampleToTotal), and
 * the workload driver's sample size and returned estimate.
 */
module Measure {
  import opened Types

  /** A reading: the Go runtime's Alloc and Sys statistics and the process's resident bytes. */
  datatype MemStage = MemStage(alloc: uint64, sys: uint64, processMem: uint64)

  /** Field-wise later-minus-earlier, as uint64. */
  datatype MemDiff = MemDiff(alloc: uint64, sys: uint64, process: uint64)

  /**
   * MemStage.Diff against a later reading `now`. Each field is now - earlier modulo 2^64, so a
   * decrease shows up as a wrapped value; adding the delta back to the earlier reading gives the
   * later one, and reading the delta as signed recovers the true change whenever that fits.
   */
  function Diff(earlier: MemStage, now: MemStage): (d: MemDiff)
    ensures AddU64(earlier.alloc, d.alloc) == now.alloc
    ensures AddU64(earlier.sys, d.sys) == now.sys
    ensures AddU64(earlier.processMem, d.process) == now.processMem
    ensures -TWO_63 <= now.alloc - earlier.alloc < TWO_63 ==> ToInt64(d.alloc) == now.alloc - earlier.alloc
    ensures -TWO_63 <= now.sys - earlier.sys < TWO_63 ==> ToInt64(d.sys) == now.sys - earlier.sys
    ensures -TWO_63 <= now.processMem - earlier.processMem < TWO_63 ==>
              ToInt64(d.process) == now.processMem - earlier.processMem
  {
    MemDiff(SubU64(now.alloc, earlier.alloc), SubU64(now.sys, earlier.sys),
            SubU64(now.processMem, earlier.processMem))
  }

  /** One field of SampleToTotal: f * uint64(n) / uint64(sampleRows), all in uint64. */
  function Scale(f: uint64, n: int64, sampleRows: int64): (r: uint64)
    requires sampleRows != 0
    ensures n >= 0 && sampleRows > 0 && f * n < TWO_64 ==> r == f * n / sampleRows
    ensures n >= 0 && sampleRows > 0 ==> r == (f * n) % TWO_64 / sampleRows
  {
    var p, d := WrapU64(f * ToUint64(n)), ToUint64(sampleRows);
    DivBounded(p, d);
    ScaleExact(f, n, sampleRows);
    p / d
  }

  lemma ScaleExact(f: uint64, n: int64, sampleRows: int64)
    requires sampleRows != 0
    ensures n >= 0 && sampleRows > 0 && f * n < TWO_64 ==>
              WrapU64(f * ToUint64(n)) / ToUint64(sampleRows) == f * n / sampleRows
    ensures n >= 0 && sampleRows > 0 ==>
              WrapU64(f * ToUint64(n)) / ToUint64(sampleRows) == (f * n) % TWO_64 / sampleRows
  {
    if n >= 0 && sampleRows > 0 {
      assert ToUint64(n) == n && ToUint64(sampleRows) == sampleRows;
      if f * n < TWO_64 {
        MulNonNegative(f, n);
        assert WrapU64(f * n) == f * n;
      }
    }
  }

  /**
   * MemDiff.SampleToTotal: every field f becomes f * n / sampleRows, multiplying first, with
   * uint64 wrap-around on the product and truncating division.
   */
  function SampleToTotal(m: MemDiff, n: int64, sampleRows: int64): (t: MemDiff)
    requires sampleRows != 0
    ensures n >= 0 && sampleRows > 0 && m.alloc * n < TWO_64 ==> t.alloc == m.alloc * n / sampleRows
    ensures n >= 0 && sampleRows > 0 && m.sys * n < TWO_64 ==> t.sys == m.sys * n / sampleRows
    ensures n >= 0 && sampleRows > 0 && m.process * n < TWO_64 ==> t.process == m.process * n / sampleRows
    ensures n >= 0 && sampleRows > 0 ==>
              && t.alloc == (m.alloc * n) % TWO_64 / sampleRows
              && t.sys == (m.sys * n) % TWO_64 / sampleRows
              && t.process == (m.process * n) % TWO_64 / sampleRows
  {
    MemDiff(Scale(m.alloc, n, sampleRows), Scale(m.sys, n, sampleRows), Scale(m.process, n, sampleRows))
  }

  /** With as many rows as were sampled, SampleToTotal gives back the same diff unless a product overflows. */
  lemma SampleToTotalIdentity(m: MemDiff, s: int64)
    requires s > 0
    requires m.alloc * s < TWO_64 && m.sys * s < TWO_64 && m.process * s < TWO_64
    ensures SampleToTotal(m, s, s) == m
  {
    DivModUnique(m.alloc * s, s, m.alloc, 0);
    DivModUnique(m.sys * s, s, m.sys, 0);
    DivModUnique(m.process * s, s, m.process, 0);
  }

  /**
   * Measured memory that went DOWN during the sample is extrapolated to an enormous positive
   * total: Alloc falling from 1001 to 1000 bytes gives the delta 2^64 - 1 (which prints as -1),
   * and extrapolating it from 10 sampled rows to 1000 gives 1844674407370955061, not -100.
   */
  lemma NegativeDeltaExtrapolation()
    ensures var d := Diff(MemStage(1001, 0, 0), MemStage(1000, 0, 0));
            && ToInt64(d.alloc) == -1
            && SampleToTotal(d, 1000, 10).alloc == 1844674407370955061
            && ToInt64(SampleToTotal(d, 1000, 10).alloc) == 1844674407370955061
  {
    var d := Diff(MemStage(1001, 0, 0), MemStage(1000, 0, 0));
    assert d.alloc == TWO_64 - 1;
    assert WrapU64((TWO_64 - 1) * 1000) == TWO_64 - 1000;
  }

  /**
   * With a single sampled row there is no division, so the wrapped product read back as signed
   * is the true change times n: a decrease prints as the right negative total whenever it fits.
   */
  lemma SingleSampleRowExact(before: uint64, after: uint64, n: int64)
    requires n >= 0
    requires -TWO_63 <= (after - before) * n < TWO_63
    ensures ToInt64(Scale(SubU64(after, before), n, 1)) == (after - before) * n
  {
    var f, delta := SubU64(after, before), after - before;
    assert Scale(f, n, 1) == (f * n) % TWO_64;
    if n > 0 {
      if delta >= 0 {
        MulNonNegative(delta, n);
        DivModUnique(f * n, TWO_64, 0, f * n);
      } else {
        WrapNegativeProduct(delta, n);
      }
    }
  }

  /** A negative product that fits in int64, taken on the uint64 reading of its first factor. */
  lemma WrapNegativeProduct(delta: int, n: int)
    requires delta < 0 && n > 0 && -TWO_63 <= delta * n
    ensures ((delta + TWO_64) * n) % TWO_64 == delta * n + TWO_64
  {
    MulMonoLeft(1, n, -delta);
    assert (delta + TWO_64) * n == (n - 1) * TWO_64 + (delta * n + TWO_64);
    DivModUnique((delta + TWO_64) * n, TWO_64, n - 1, delta * n + TWO_64);
  }

  /** An extrapolated total read as a signed number of bytes, per field. */
  datatype SignedTotal = SignedTotal(alloc: int64, sys: int64, process: int64)

  /** One field extrapolated on its signed reading: int64(f) * n / sampleRows in int64. */
  function SignedScale(f: uint64, n: int64, sampleRows: int64): (r: int64)
    requires sampleRows != 0
  {
    Quo64(WrapI64(ToInt64(f) * n), sampleRows)
  }

  /** SampleToTotal done on the signed reading of each delta, so that a decrease stays negative. */
  function SampleToTotalSigned(m: MemDiff, n: int64, sampleRows: int64): (t: SignedTotal)
    requires sampleRows != 0
  {
    SignedTotal(SignedScale(m.alloc, n, sampleRows), SignedScale(m.sys, n, sampleRows),
                SignedScale(m.process, n, sampleRows))
  }

  /**
   * On the signed reading, the extrapolated change is the true change times n / sampleRows,
   * truncated toward zero, for a decrease as well as an increase; with n == sampleRows it is
   * the true change itself.
   */
  lemma SignedScaleCorrect(before: uint64, after: uint64, n: int64, sampleRows: int64)
    requires n >= 0 && sampleRows > 0
    requires -TWO_63 < (after - before) * n < TWO_63
    ensures SignedScale(SubU64(after, before), n, sampleRows) == Quo((after - before) * n, sampleRows)
    ensures n == sampleRows ==> SignedScale(SubU64(after, before), n, sampleRows) == after - before
  {
    var d := SubU64(after, before);
    var delta := after - before;
    if n == 0 {
      assert ToInt64(d) * n == 0 && delta * n == 0;
    } else {
      var a := if delta >= 0 then delta else -delta;
      MulMonoLeft(1, n, a);
      assert a * n == (if delta >= 0 then delta * n else -(delta * n));
      assert ToInt64(d) == delta;
      var p := delta * n;
      assert WrapI64(ToInt64(d) * n) == p;
      QuoBounded(p, sampleRows);
      if n == sampleRows {
        QuoOfMultiple(delta, n);
      }
    }
  }

  lemma QuoOfMultiple(x: int, n: int)
    requires n > 0
    ensures Quo(x * n, n) == x
  {
    if x >= 0 {
      DivModUnique(x * n, n, x, 0);
    } else {
      assert -(x * n) == (-x) * n;
      DivModUnique((-x) * n, n, -x, 0);
    }
  }

  lemma QuoBounded(a: int, b: int)
    requires b > 0
    ensures a >= 0 ==> 0 <= Quo(a, b) <= a
    ensures a < 0 ==> a <= Quo(a, b) <= 0
  {
    if a >= 0 { DivBounded(a, b); } else { DivBounded(-a, b); }
  }

  /** The correction keeps the example above negative: 1001 -> 1000 extrapolates to -100. */
  lemma NegativeDeltaCorrected()
    ensures SampleToTotalSigned(Diff(MemStage(1001, 0, 0), MemStage(1000, 0, 0)), 1000, 10).alloc == -100
  {
    SignedScaleCorrect(1001, 1000, 1000, 10);
    assert Quo(-1000, 10) == -100;
  }

  /** The driver's sample size n / sample, truncated as Go does. */
  function SampleRows(n: int64, sample: int64): (rows: int64)
    requires sample != 0
    ensures n >= 0 && sample > 0 ==> rows * sample <= n < (rows + 1) * sample
  {
    var rows := Quo64(n, sample);
    assert n >= 0 && sample > 0 ==> rows == n / sample;
    rows
  }

  /** The value InsertRows, UpdateRows and DeleteRows return: (size / sampleRows) * n, dividing first. */
  function EstimateTotal(size: int64, n: int64, sampleRows: int64): (t: int64)
    requires sampleRows != 0
    ensures size >= 0 && n >= 0 && sampleRows > 0 && (size / sampleRows) * n < TWO_63 ==> t == (size / sampleRows) * n
  {
    EstimateExact(size, n, sampleRows);
    WrapI64(Quo64(size, sampleRows) * n)
  }

  /** The buffer total CompareWithMemBuffer prints: size * n / sampleRows, multiplying first. */
  function PrintedBufferTotal(size: int64, n: int64, sampleRows: int64): (t: int64)
    requires sampleRows != 0
    ensures size >= 0 && n >= 0 && sampleRows > 0 && size * n < TWO_63 ==> t == size * n / sampleRows
  {
    PrintedExact(size, n, sampleRows);
    Quo64(WrapI64(size * n), sampleRows)
  }

  lemma DivAddMultiple(a: int, b: nat, d: int)
    requires d > 0
    ensures (a * d + b) / d == a + b / d
  {
    assert b == (b / d) * d + b % d;
    assert a * d + b == (a + b / d) * d + b % d;
    DivModUnique(a * d + b, d, a + b / d, b % d);
  }

  lemma DivBelow(x: nat, n: nat, d: int)
    requires d > 0 && x < n * d
    ensures x / d < n
  {
    if x / d >= n {
      MulMonoLeft(n, x / d, d);
      assert false;
    }
  }

  /** size * n split at the divisor d: the part from size's quotient and the part from its remainder. */
  lemma SplitProduct(size: nat, n: nat, d: int)
    requires d > 0
    ensures size * n == (size / d * n) * d + (size % d) * n
  {
    var q, r := size / d, size % d;
    assert size == q * d + r;
    assert (q * d + r) * n == (q * n) * d + r * n;
  }

  /** The remainder's share r * n / d lies in [0, n), and is 0 when r is. */
  lemma RemainderShare(r: nat, n: nat, d: int)
    requires d > 0 && r < d
    ensures 0 <= r * n / d
    ensures n > 0 ==> r * n / d < n
    ensures r == 0 ==> r * n / d == 0
  {
    MulNonNegative(r, n);
    if n > 0 {
      MulMonoLeft(r, d - 1, n);
      assert (d - 1) * n == n * d - n;
      DivBelow(r * n, n, d);
    }
  }

  /** Dividing first loses at most the remainder's share, which is below n and vanishes when d divides size. */
  lemma DivideFirstBounds(size: nat, n: nat, d: int)
    requires d > 0
    ensures (size / d) * n <= size * n / d
    ensures n > 0 ==> size * n / d < (size / d) * n + n
    ensures size % d == 0 ==> size * n / d == (size / d) * n
  {
    SplitProduct(size, n, d);
    MulNonNegative(size % d, n);
    DivAddMultiple(size / d * n, (size % d) * n, d);
    RemainderShare(size % d, n, d);
  }

  /** Whenever (size / sampleRows) * n fits in int64, the returned estimate is that product. */
  lemma EstimateExact(size: int64, n: int64, sampleRows: int64)
    requires sampleRows != 0
    ensures size >= 0 && n >= 0 && sampleRows > 0 && (size / sampleRows) * n < TWO_63 ==>
              WrapI64(Quo64(size, sampleRows) * n) == (size / sampleRows) * n
  {
    if size >= 0 && n >= 0 && sampleRows > 0 && (size / sampleRows) * n < TWO_63 {
      var q := size / sampleRows;
      DivBounded(size, sampleRows);
      MulNonNegative(q, n);
      assert Quo64(size, sampleRows) == q;
    }
  }

  /** Without overflow, the printed total is size * n / sampleRows in exact arithmetic. */
  lemma PrintedExact(size: int64, n: int64, sampleRows: int64)
    requires sampleRows != 0
    ensures size >= 0 && n >= 0 && sampleRows > 0 && size * n < TWO_63 ==>
              Quo64(WrapI64(size * n), sampleRows) == size * n / sampleRows
  {
    if size >= 0 && n >= 0 && sampleRows > 0 && size * n < TWO_63 {
      MulNonNegative(size, n);
      assert WrapI64(size * n) == size * n;
    }
  }

  /**
   * Dividing before multiplying loses the remainder: without overflow, the returned estimate is
   * (size / sampleRows) * n, the printed total is size * n / sampleRows, the first never exceeds
   * the second, they differ by less than n, and they agree when sampleRows divides size.
   */
  lemma DivideFirstDrift(size: int64, n: int64, sampleRows: int64)
    requires size >= 0 && n >= 0 && sampleRows > 0
    requires size * n < TWO_63
    ensures EstimateTotal(size, n, sampleRows) == (size / sampleRows) * n
    ensures PrintedBufferTotal(size, n, sampleRows) == size * n / sampleRows
    ensures EstimateTotal(size, n, sampleRows) <= PrintedBufferTotal(size, n, sampleRows)
    ensures n > 0 ==> PrintedBufferTotal(size, n, sampleRows) - EstimateTotal(size, n, sampleRows) < n
    ensures size % sampleRows == 0 ==> EstimateTotal(size, n, sampleRows) == PrintedBufferTotal(size, n, sampleRows)
  {
    DivBounded(size, sampleRows);
    MulMonoLeft(size / sampleRows, size, n);
    DivideFirstBounds(size, n, sampleRows);
  }

  /**
   * 1000 rows sampled every 100 rows measure 10 rows, and a buffer of B bytes after them is
   * reported as (B / 10) * 1000.
   */
  lemma ThousandRowsSampledEveryHundred(size: int64)
    requires 0 <= size < 0x20_0000_0000_0000
    ensures SampleRows(1000, 100) == 10
    ensures EstimateTotal(size, 1000, 10) == (size / 10) * 1000
  {
    DivBounded(size, 10);
  }
}
