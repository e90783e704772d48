/**
 * The byte-string column generator's counter: a fixed-length byte buffer read as a
 * big-endian base-256 number, incremented in place with a leftward carry and a
 * silent wrap from all-255 to all-zero (growBytes in core.go).
 */
module ByteCounter {
  import opened Types

  function Zeros(n: nat): (s: seq<byte>)
    ensures |s| == n && forall i :: 0 <= i < n ==> s[i] == 0
  {
    seq(n, _ => 0)
  }

  function Full(n: nat): (s: seq<byte>)
    ensures |s| == n && forall i :: 0 <= i < n ==> s[i] == 255
  {
    seq(n, _ => 255)
  }

  function Pow256(n: nat): (p: nat)
    ensures p >= 1
  {
    if n == 0 then 1 else 256 * Pow256(n - 1)
  }

  /** The buffer read as a big-endian base-256 number; it always fits in |s| digits. */
  function BigEndianValue(s: seq<byte>): (v: nat)
    ensures v < Pow256(|s|)
  {
    if s == [] then 0
    else
      var p := s[..|s| - 1];
      assert BigEndianValue(p) <= Pow256(|p|) - 1;
      assert BigEndianValue(p) * 256 <= (Pow256(|p|) - 1) * 256;
      BigEndianValue(p) * 256 + s[|s| - 1]
  }

  /** What one growBytes call does to the buffer: add one to the last byte, carrying leftward. */
  function Increment(s: seq<byte>): (r: seq<byte>)
    ensures |r| == |s|
  {
    if s == [] then []
    else if s[|s| - 1] < 255 then s[..|s| - 1] + [s[|s| - 1] + 1]
    else Increment(s[..|s| - 1]) + [0]
  }

  /** k growBytes calls in a row. */
  function Iterate(s: seq<byte>, k: nat): (r: seq<byte>)
    ensures |r| == |s|
  {
    if k == 0 then s else Increment(Iterate(s, k - 1))
  }

  /** The L least significant base-256 digits of v, most significant first. */
  function Encode(len: nat, v: nat): (r: seq<byte>)
    ensures |r| == len
  {
    if len == 0 then [] else Encode(len - 1, v / 256) + [v % 256]
  }

  /** In-place increment, right to left, as growBytes does it. */
  method GrowBytes(a: array<byte>)
    modifies a
    ensures a[..] == Increment(old(a[..]))
  {
    ghost var s := a[..];
    var i := a.Length - 1;
    while i >= 0
      invariant -1 <= i < a.Length
      invariant forall k :: 0 <= k <= i ==> a[k] == s[k]
      invariant forall k :: i < k < a.Length ==> a[k] == 0 && s[k] == 255
    {
      if a[i] < 255 {
        a[i] := a[i] + 1;
        IncrementAt(s, i);
        assert a[..] == Increment(s);
        return;
      }
      a[i] := 0;
      i := i - 1;
    }
    assert s == Full(a.Length);
    IncrementWraps(a.Length);
    assert a[..] == Zeros(a.Length);
  }

  /** Trailing 255 bytes all become 0 and carry into what precedes them. */
  lemma {:induction false} IncrementCarry(p: seq<byte>, m: nat)
    ensures Increment(p + Full(m)) == Increment(p) + Zeros(m)
  {
    if m == 0 {
      assert p + Full(0) == p;
      assert Increment(p) + Zeros(0) == Increment(p);
    } else {
      var s := p + Full(m);
      assert s[..|s| - 1] == p + Full(m - 1);
      IncrementCarry(p, m - 1);
      assert Increment(p) + Zeros(m - 1) + [0] == Increment(p) + Zeros(m);
    }
  }

  /**
   * growBytes increments the rightmost byte below 255, zeroes every byte to its right
   * and leaves the bytes to its left alone.
   */
  lemma IncrementAt(s: seq<byte>, p: nat)
    requires p < |s| && s[p] < 255
    requires forall i :: p < i < |s| ==> s[i] == 255
    ensures |Increment(s)| == |s|
    ensures forall i :: 0 <= i < p ==> Increment(s)[i] == s[i]
    ensures Increment(s)[p] == s[p] + 1
    ensures forall i :: p < i < |s| ==> Increment(s)[i] == 0
  {
    assert s == s[..p + 1] + Full(|s| - 1 - p);
    IncrementCarry(s[..p + 1], |s| - 1 - p);
    assert s[..p + 1][..p] == s[..p];
  }

  /** An all-255 buffer wraps to all-zero. */
  lemma IncrementWraps(n: nat)
    ensures Increment(Full(n)) == Zeros(n)
  {
    assert [] + Full(n) == Full(n);
    IncrementCarry([], n);
  }

  lemma MulMod(x: nat, p: nat, b: nat)
    requires p > 0 && b > 0
    ensures (x * b) % (p * b) == (x % p) * b
  {
    var q, r := x / p, x % p;
    assert x == q * p + r;
    assert x * b == (q * p + r) * b == q * (p * b) + r * b;
    MulMonoLeft(r, p - 1, b);
    assert (p - 1) * b == p * b - b;
    DivModUnique(x * b, p * b, q, r * b);
  }

  /** Read as a big-endian number, growBytes maps v to (v + 1) mod 256^L. */
  lemma {:induction false} IncrementValue(s: seq<byte>)
    ensures BigEndianValue(Increment(s)) == (BigEndianValue(s) + 1) % Pow256(|s|)
  {
    if s != [] {
      var p := s[..|s| - 1];
      var last := s[|s| - 1];
      var r := Increment(s);
      var P := Pow256(|p|);
      assert Pow256(|s|) == P * 256;
      if last < 255 {
        assert r[..|r| - 1] == p && r[|r| - 1] == last + 1;
        assert BigEndianValue(r) == BigEndianValue(s) + 1;
        MulMonoLeft(BigEndianValue(p), P - 1, 256);
        assert (P - 1) * 256 == P * 256 - 256;
        DivModUnique(BigEndianValue(s) + 1, P * 256, 0, BigEndianValue(s) + 1);
      } else {
        assert r[..|r| - 1] == Increment(p) && r[|r| - 1] == 0;
        IncrementValue(p);
        assert BigEndianValue(r) == ((BigEndianValue(p) + 1) % P) * 256;
        assert BigEndianValue(s) + 1 == (BigEndianValue(p) + 1) * 256;
        MulMod(BigEndianValue(p) + 1, P, 256);
      }
    }
  }

  /** Two buffers of one length with the same value are the same buffer. */
  lemma {:induction false} ValueInjective(s: seq<byte>, t: seq<byte>)
    requires |s| == |t| && BigEndianValue(s) == BigEndianValue(t)
    ensures s == t
  {
    if s != [] {
      var ps, pt := s[..|s| - 1], t[..|t| - 1];
      DivModUnique(BigEndianValue(s), 256, BigEndianValue(ps), s[|s| - 1]);
      DivModUnique(BigEndianValue(t), 256, BigEndianValue(pt), t[|t| - 1]);
      ValueInjective(ps, pt);
      assert s == ps + [s[|s| - 1]] && t == pt + [t[|t| - 1]];
    }
  }

  /** Adding one commutes with reducing modulo P. */
  lemma ModSucc(x: nat, P: nat)
    requires P > 0
    ensures (x % P + 1) % P == (x + 1) % P
  {
    var q, r := x / P, x % P;
    if r + 1 < P {
      DivModUnique(x + 1, P, q, r + 1);
      DivModUnique(r + 1, P, 0, r + 1);
    } else {
      DivModUnique(x + 1, P, q + 1, 0);
      DivModUnique(r + 1, P, 1, 0);
    }
  }

  /** k increments add k modulo 256^L. */
  lemma {:induction false} IterateValue(s: seq<byte>, k: nat)
    ensures BigEndianValue(Iterate(s, k)) == (BigEndianValue(s) + k) % Pow256(|s|)
  {
    if k == 0 {
      DivModUnique(BigEndianValue(s), Pow256(|s|), 0, BigEndianValue(s));
    } else {
      var prev := Iterate(s, k - 1);
      var P := Pow256(|s|);
      var x := BigEndianValue(s) + k - 1;
      IterateValue(s, k - 1);
      assert BigEndianValue(prev) == x % P;
      IncrementValue(prev);
      assert BigEndianValue(Iterate(s, k)) == (x % P + 1) % P;
      ModSucc(x, P);
    }
  }

  /** The counter has period 256^L: that many more growBytes calls bring any buffer back to where it was. */
  lemma IteratePeriodic(s: seq<byte>, k: nat)
    ensures Iterate(s, k + Pow256(|s|)) == Iterate(s, k)
  {
    var P := Pow256(|s|);
    IterateValue(s, k);
    IterateValue(s, k + P);
    ModPeriod(BigEndianValue(s) + k, P);
    ValueInjective(Iterate(s, k + P), Iterate(s, k));
  }

  /** Peeling off the lowest base-256 digit before reducing modulo P * 256. */
  lemma ModSplit(v: nat, P: nat)
    requires P > 0
    ensures v % (P * 256) == (v / 256 % P) * 256 + v % 256
  {
    var w, lo := v / 256, v % 256;
    var q, mid := w / P, w % P;
    assert v == w * 256 + lo;
    assert w * 256 == (q * P + mid) * 256 == q * (P * 256) + mid * 256;
    MulMonoLeft(mid, P - 1, 256);
    assert (P - 1) * 256 == P * 256 - 256;
    DivModUnique(v, P * 256, q, mid * 256 + lo);
  }

  lemma {:induction false} EncodeValue(len: nat, v: nat)
    ensures BigEndianValue(Encode(len, v)) == v % Pow256(len)
  {
    if len == 0 {
      DivModUnique(v, 1, v, 0);
    } else {
      var e := Encode(len, v);
      assert e[..len - 1] == Encode(len - 1, v / 256) && e[len - 1] == v % 256;
      EncodeValue(len - 1, v / 256);
      assert BigEndianValue(e) == (v / 256 % Pow256(len - 1)) * 256 + v % 256;
      ModSplit(v, Pow256(len - 1));
      assert Pow256(len) == Pow256(len - 1) * 256;
    }
  }

  lemma {:induction false} ZerosValue(n: nat)
    ensures BigEndianValue(Zeros(n)) == 0
  {
    if n > 0 {
      assert Zeros(n)[..n - 1] == Zeros(n - 1);
      ZerosValue(n - 1);
    }
  }

  /**
   * Starting from an all-zero buffer of length L, the buffer after k growBytes calls holds
   * the L least significant base-256 digits of k: the last byte is k mod 256, the one before
   * it (k / 256) mod 256, and so on.
   */
  lemma CounterFromZero(len: nat, k: nat)
    ensures Iterate(Zeros(len), k) == Encode(len, k)
  {
    IterateValue(Zeros(len), k);
    ZerosValue(len);
    EncodeValue(len, k);
    ValueInjective(Iterate(Zeros(len), k), Encode(len, k));
  }

  /** The least significant byte cycles through 0..255 and the next byte counts the carries. */
  lemma LowBytesFromZero(len: nat, k: nat)
    requires len >= 2
    ensures Iterate(Zeros(len), k)[len - 1] == k % 256
    ensures Iterate(Zeros(len), k)[len - 2] == k / 256 % 256
  {
    CounterFromZero(len, k);
    assert Encode(len, k)[..len - 1] == Encode(len - 1, k / 256);
  }
}
