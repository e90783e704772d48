/**
 * Per-column synthetic value generation (Allocator, NewAllocator and NewDatum in core.go).
 * Every column owns one Allocator whose counters advance by one step per generated value.
 */
module Columns {
  import opened Types
  import opened ByteCounter

  /** MySQL column type codes: those NewDatum handles, then some it does not. */
  datatype FieldType =
    | Tiny | Short | Int24 | Long | Longlong
    | Float | Double | NewDecimal
    | String | VarString | Varchar | Blob | TinyBlob | MediumBlob | LongBlob
    | Duration | Date | Datetime | Timestamp
    | Decimal | Null | Year | NewDate | Bit | Json | Enum | Set | Geometry

  /** What the generator uses of a column definition: its type, declared length and UNSIGNED flag. */
  datatype ColumnDef = ColumnDef(tp: FieldType, flen: int, unsigned: bool)

  predicate IsInteger(tp: FieldType) { tp.Tiny? || tp.Short? || tp.Int24? || tp.Long? || tp.Longlong? }
  predicate IsFloating(tp: FieldType) { tp.Float? || tp.Double? }
  predicate IsBytes(tp: FieldType) {
    tp.String? || tp.VarString? || tp.Varchar? || tp.Blob? || tp.TinyBlob? || tp.MediumBlob? || tp.LongBlob?
  }
  predicate IsDecimal(tp: FieldType) { tp.NewDecimal? }
  predicate IsDuration(tp: FieldType) { tp.Duration? }
  predicate IsTime(tp: FieldType) { tp.Date? || tp.Datetime? || tp.Timestamp? }

  /** The types NewDatum's switch covers; any other type panics. */
  predicate Supported(tp: FieldType) {
    IsInteger(tp) || IsFloating(tp) || IsBytes(tp) || IsDecimal(tp) || IsDuration(tp) || IsTime(tp)
  }

  /** Supported types whose values do not depend on random draws. */
  predicate Deterministic(tp: FieldType) {
    Supported(tp) && !IsFloating(tp) && !IsDecimal(tp)
  }

  /** time.Second, in nanoseconds. */
  const SECOND: int := 1_000_000_000

  /** Length of a string or blob column's buffer: the declared length, or 1 when that is not positive. */
  function BufferLength(flen: int): (n: nat)
    ensures n >= 1
    ensures flen > 0 ==> n == flen
    ensures flen <= 0 ==> n == 1
  {
    if flen > 0 then flen else 1
  }

  /** The buffer of a string or blob column after g generated values. */
  function BufferAt(col: ColumnDef, g: nat): (b: seq<byte>)
    ensures |b| == BufferLength(col.flen)
  {
    Iterate(Zeros(BufferLength(col.flen)), g)
  }

  /**
   * A generated value, as the storage engine encodes it. Date/time values are kept as whole
   * seconds after the Unix epoch together with the column's type; durations in nanoseconds.
   */
  datatype Value =
    | UintV(u: uint64)
    | IntV(i: int64)
    | FloatV(f: real)
    | DecimalV(d: real)
    | BytesV(b: seq<byte>)
    | DurationV(nanos: int64)
    | TimeV(seconds: int, tp: FieldType)

  /**
   * A datum as NewDatum returns it. A byte-string datum wraps a byte buffer by reference,
   * so what it holds is whatever that buffer holds when it is read.
   */
  datatype Datum = Plain(v: Value) | Bytes(buf: array<byte>)

  /** The value a datum stands for at this moment. */
  function View(d: Datum): Value
    reads if d.Bytes? then {d.buf} else {}
  {
    match d
    case Plain(v) => v
    case Bytes(buf) => BytesV(buf[..])
  }

  /** The unsigned counter after g increments from zero, each one wrapping modulo 2^64. */
  function UintAt(g: nat): uint64 {
    if g == 0 then 0 else WrapU64(UintAt(g - 1) + 1)
  }

  /** The signed counter after g increments from zero, each one wrapping as an int64. */
  function IntAt(g: nat): int64 {
    if g == 0 then 0 else WrapI64(IntAt(g - 1) + 1)
  }

  /** The duration counter after g one-second steps from zero, in nanoseconds, wrapping as an int64. */
  function DurationAt(g: nat): int64 {
    if g == 0 then 0 else WrapI64(DurationAt(g - 1) + SECOND)
  }

  /**
   * What a signed integer column yields for counter value c: c negated when Go's c % 2 is zero,
   * that is when c is even; MinInt64 negates to itself.
   */
  function AlternateSign(c: int64): (r: int64)
    ensures c % 2 == 1 ==> r == c
    ensures c % 2 == 0 && c != -TWO_63 ==> r == -c
    ensures c == -TWO_63 ==> r == c
  {
    RemTwo(c);
    if Rem(c, 2) == 0 then WrapI64(-(c as int)) else c
  }

  /** Go's c % 2 is zero exactly when c is even. */
  lemma RemTwo(c: int)
    ensures (Rem(c, 2) == 0) == (c % 2 == 0)
  {
    var q, r := Quo(c, 2), Rem(c, 2);
    assert c == q * 2 + r && -2 < r < 2;
    if r == 0 {
      DivModUnique(c, 2, q, 0);
    } else if r == 1 {
      DivModUnique(c, 2, q, 1);
    } else {
      DivModUnique(c, 2, q - 1, 1);
    }
  }

  /**
   * The value of the k-th datum of a column whose values do not depend on random draws
   * (k counts from 1): the column's counter after k steps. A date/time column's k-th value is
   * the Unix epoch plus k seconds, with the column's type.
   */
  function NthValue(col: ColumnDef, k: nat): Value
    requires Deterministic(col.tp)
  {
    if IsInteger(col.tp) then
      if col.unsigned then UintV(UintAt(k)) else IntV(AlternateSign(IntAt(k)))
    else if IsBytes(col.tp) then BytesV(BufferAt(col, k))
    else if IsDuration(col.tp) then DurationV(DurationAt(k))
    else TimeV(k, col.tp)
  }

  /** Stepping the unsigned counter g times is g modulo 2^64. */
  lemma {:induction false} UintAtClosed(g: nat)
    ensures UintAt(g) == WrapU64(g)
  {
    if g > 0 {
      UintAtClosed(g - 1);
      WrapU64Add(g - 1, 1);
    }
  }

  /** Stepping the signed counter g times is g wrapped as an int64. */
  lemma {:induction false} IntAtClosed(g: nat)
    ensures IntAt(g) == WrapI64(g)
  {
    if g > 0 {
      IntAtClosed(g - 1);
      WrapI64Add(g - 1, 1);
    }
  }

  /** g one-second steps are g * 10^9 nanoseconds wrapped as an int64. */
  lemma {:induction false} DurationAtClosed(g: nat)
    ensures DurationAt(g) == WrapI64(g * SECOND)
  {
    if g > 0 {
      DurationAtClosed(g - 1);
      WrapI64Add((g - 1) * SECOND, SECOND);
      assert (g - 1) * SECOND + SECOND == g * SECOND;
    }
  }

  /** An unsigned integer column yields 1, 2, 3, ... and wraps to 0 after 2^64 - 1. */
  lemma UnsignedNth(col: ColumnDef, k: nat)
    requires IsInteger(col.tp) && col.unsigned
    requires 1 <= k <= TWO_64
    ensures k < TWO_64 ==> NthValue(col, k) == UintV(k)
    ensures k == TWO_64 ==> NthValue(col, k) == UintV(0)
  {
    UintAtClosed(k);
    assert NthValue(col, k) == UintV(UintAt(k));
    if k == TWO_64 {
      DivModUnique(k, TWO_64, 1, 0);
    }
  }

  /** A signed integer column yields 1, -2, 3, -4, ...: +k for odd k and -k for even k. */
  lemma SignedNth(col: ColumnDef, k: nat)
    requires IsInteger(col.tp) && !col.unsigned
    requires 1 <= k < TWO_63
    ensures NthValue(col, k) == IntV(if k % 2 == 0 then -(k as int) else k)
  {
    IntAtClosed(k);
    assert Rem(k, 2) == k % 2;
  }

  /** A duration column yields 1s, 2s, 3s, ... while the nanosecond count fits in an int64. */
  lemma DurationNth(col: ColumnDef, k: nat)
    requires IsDuration(col.tp)
    requires k * SECOND < TWO_63
    ensures NthValue(col, k) == DurationV(k * SECOND)
  {
    DurationAtClosed(k);
  }

  /**
   * A string or blob column yields its buffer as a big-endian base-256 counter: the k-th value
   * is the L least significant base-256 digits of k, and the sequence repeats every 256^L values.
   */
  lemma BytesNth(col: ColumnDef, k: nat)
    requires IsBytes(col.tp)
    ensures NthValue(col, k) == BytesV(Encode(BufferLength(col.flen), k))
    ensures NthValue(col, k + Pow256(BufferLength(col.flen))) == NthValue(col, k)
  {
    var len := BufferLength(col.flen);
    CounterFromZero(len, k);
    IteratePeriodic(Zeros(len), k);
  }

  /**
   * The process-wide random source behind rand.Float64: an environment-supplied stream of
   * draws in [0, 1) and the position of the next one.
   */
  class RandomSource {
    const draws: nat -> real
    var pos: nat

    ghost predicate Valid() {
      forall i: nat :: 0.0 <= draws(i) < 1.0
    }

    constructor (draws: nat -> real)
      requires forall i: nat :: 0.0 <= draws(i) < 1.0
      ensures Valid() && this.draws == draws && pos == 0
    {
      this.draws := draws;
      pos := 0;
    }

    method Float64() returns (f: real)
      requires Valid()
      modifies this
      ensures pos == old(pos) + 1
      ensures f == draws(old(pos)) && 0.0 <= f < 1.0
    {
      f := draws(pos);
      pos := pos + 1;
    }
  }

  /** One column's generator: the column definition and one counter per kind of value. */
  class Allocator {
    const col: ColumnDef
    var uintAlloc: uint64
    var intAlloc: int64
    var floatAlloc: real
    /** Go's nil slice for columns that are not strings or blobs. */
    const bytesAlloc: array?<byte>
    /** Seconds after the Unix epoch. */
    var timeAlloc: int
    /** Nanoseconds. */
    var durationAlloc: int64
    /** How many datums this allocator has produced. */
    ghost var generated: nat

    /**
     * Only the counter of the column's own kind moves, and after g datums it holds
     * the g-th value of the series.
     */
    ghost predicate Valid()
      reads this, bytesAlloc
    {
      && (IsBytes(col.tp) <==> bytesAlloc != null)
      && (bytesAlloc != null ==> bytesAlloc[..] == BufferAt(col, generated))
      && uintAlloc == (if IsInteger(col.tp) && col.unsigned then UintAt(generated) else 0)
      && intAlloc == (if IsInteger(col.tp) && !col.unsigned then IntAt(generated) else 0)
      && durationAlloc == (if IsDuration(col.tp) then DurationAt(generated) else 0)
      && timeAlloc == (if IsTime(col.tp) then generated else 0)
      && floatAlloc >= 0.0
      && (!IsFloating(col.tp) && !IsDecimal(col.tp) ==> floatAlloc == 0.0)
      && (!Supported(col.tp) ==> generated == 0)
    }

    /** The datum the counters stand for: what NewDatum returns right after advancing them. */
    function Current(): Datum
      reads this
      requires Supported(col.tp)
      requires IsBytes(col.tp) ==> bytesAlloc != null
    {
      if IsInteger(col.tp) then
        if col.unsigned then Plain(UintV(uintAlloc))
        else Plain(IntV(AlternateSign(intAlloc)))
      else if IsFloating(col.tp) then Plain(FloatV(floatAlloc))
      else if IsBytes(col.tp) then Bytes(bytesAlloc)
      else if IsDecimal(col.tp) then Plain(DecimalV(floatAlloc))
      else if IsDuration(col.tp) then Plain(DurationV(durationAlloc))
      else Plain(TimeV(timeAlloc, col.tp))
    }

    /** NewAllocator: zero counters, the epoch, and an all-zero buffer for strings and blobs. */
    constructor (col: ColumnDef)
      ensures Valid() && this.col == col && generated == 0
      ensures uintAlloc == 0 && intAlloc == 0 && floatAlloc == 0.0 && timeAlloc == 0 && durationAlloc == 0
      ensures IsBytes(col.tp) <==> bytesAlloc != null
      ensures bytesAlloc != null ==> fresh(bytesAlloc) && bytesAlloc[..] == Zeros(BufferLength(col.flen))
    {
      this.col := col;
      uintAlloc, intAlloc, floatAlloc := 0, 0, 0.0;
      timeAlloc, durationAlloc := 0, 0;
      if IsBytes(col.tp) {
        var flen := col.flen;
        if flen > 0 {
          bytesAlloc := new byte[flen](_ => 0);
        } else {
          bytesAlloc := new byte[1](_ => 0);
        }
      } else {
        bytesAlloc := null;
      }
      generated := 0;
      new;
      assert bytesAlloc != null ==> bytesAlloc[..] == Zeros(BufferLength(col.flen));
    }

    /** The integer case: step the unsigned counter, or step the signed one and flip the sign of even values. */
    method NextInteger() returns (d: Datum)
      requires Valid() && IsInteger(col.tp)
      modifies this
      ensures Valid() && generated == old(generated) + 1 && d == Current()
    {
      if col.unsigned {
        uintAlloc := WrapU64(uintAlloc + 1);
        generated := generated + 1;
        d := Plain(UintV(uintAlloc));
      } else {
        intAlloc := WrapI64(intAlloc + 1);
        generated := generated + 1;
        var minus := Rem(intAlloc, 2) == 0;
        if minus {
          d := Plain(IntV(WrapI64(-(intAlloc as int))));
        } else {
          d := Plain(IntV(intAlloc));
        }
      }
    }

    /** The float and decimal cases: add one random draw to the running sum. */
    method NextRandom(rng: RandomSource) returns (d: Datum)
      requires Valid() && rng.Valid() && (IsFloating(col.tp) || IsDecimal(col.tp))
      modifies this, rng
      ensures Valid() && generated == old(generated) + 1 && d == Current()
      ensures floatAlloc == old(floatAlloc) + rng.draws(old(rng.pos)) && rng.pos == old(rng.pos) + 1
    {
      var f := rng.Float64();
      floatAlloc := floatAlloc + f;
      generated := generated + 1;
      if IsFloating(col.tp) {
        d := Plain(FloatV(floatAlloc));
      } else {
        d := Plain(DecimalV(floatAlloc));
      }
    }

    /** The string and blob case: grow the buffer and wrap it; the copy is made and then dropped. */
    method NextBytes() returns (d: Datum)
      requires Valid() && IsBytes(col.tp)
      modifies this, bytesAlloc
      ensures Valid() && generated == old(generated) + 1 && d == Current()
    {
      var buf := bytesAlloc;
      StepBuffer(buf, col, generated);
      generated := generated + 1;
      // core.go:271-272 copies the buffer and then drops the copy: the datum shares bytesAlloc.
      ghost var copied := buf[..];
      d := Bytes(buf);
    }

    /** The duration and date/time cases: one more second. */
    method NextSecond() returns (d: Datum)
      requires Valid() && (IsDuration(col.tp) || IsTime(col.tp))
      modifies this
      ensures Valid() && generated == old(generated) + 1 && d == Current()
    {
      if IsDuration(col.tp) {
        durationAlloc := WrapI64(durationAlloc + SECOND);
        generated := generated + 1;
        d := Plain(DurationV(durationAlloc));
      } else {
        timeAlloc := timeAlloc + 1;
        generated := generated + 1;
        d := Plain(TimeV(timeAlloc, col.tp));
      }
    }

    /**
     * The column's next datum, or None where Go panics on a type outside the switch
     * (and then nothing changes). Float and decimal columns add one random draw.
     */
    method NewDatum(rng: RandomSource) returns (d: Option<Datum>)
      requires Valid() && rng.Valid()
      modifies this, bytesAlloc, rng
      ensures Valid()
      ensures d.Some? <==> Supported(col.tp)
      ensures d.None? ==> generated == old(generated) && unchanged(this) && rng.pos == old(rng.pos)
      ensures d.Some? ==> generated == old(generated) + 1 && d.value == Current()
      ensures d.Some? && Deterministic(col.tp) ==> View(d.value) == NthValue(col, generated)
      ensures IsBytes(col.tp) ==> d == Some(Bytes(bytesAlloc))
      ensures IsFloating(col.tp) || IsDecimal(col.tp) ==>
                floatAlloc == old(floatAlloc) + rng.draws(old(rng.pos)) && rng.pos == old(rng.pos) + 1
      ensures !IsFloating(col.tp) && !IsDecimal(col.tp) ==> rng.pos == old(rng.pos)
    {
      var tp := col.tp;
      var next: Datum;
      if IsInteger(tp) {
        next := NextInteger();
      } else if IsFloating(tp) || IsDecimal(tp) {
        next := NextRandom(rng);
      } else if IsBytes(tp) {
        next := NextBytes();
      } else if IsDuration(tp) || IsTime(tp) {
        next := NextSecond();
      } else {
        return None;
      }
      d := Some(next);
      if Deterministic(tp) {
        CurrentIsNth(this);
      }
    }
  }

  /** growBytes on a column's buffer: from its state after g values to its state after g + 1. */
  method StepBuffer(buf: array<byte>, ghost col: ColumnDef, ghost g: nat)
    requires buf[..] == BufferAt(col, g)
    modifies buf
    ensures buf[..] == BufferAt(col, g + 1)
  {
    assert BufferAt(col, g + 1) == Increment(BufferAt(col, g));
    GrowBytes(buf);
  }

  /** A valid allocator's latest datum shows the value its count stands for. */
  lemma CurrentIsNth(a: Allocator)
    requires a.Valid() && Deterministic(a.col.tp)
    ensures View(a.Current()) == NthValue(a.col, a.generated)
    ensures IsBytes(a.col.tp) ==> a.Current() == Bytes(a.bytesAlloc)
    ensures !IsBytes(a.col.tp) ==> a.Current() == Plain(NthValue(a.col, a.generated))
  {
  }
}
