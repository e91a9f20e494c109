/** Integer arithmetic behind the register engine. Python's `>>` on `int`
    is floor division by a power of two and `& (2**w - 1)` is the remainder
    modulo `2**w` (two's complement on unbounded integers); Dafny's `/` and
    `%` by a positive divisor are exactly these, for negative values too. */
module Arith {
  import opened Py

  function Pow2(n: nat): (r: nat)
    ensures r >= 1
  {
    if n == 0 then 1 else 2 * Pow2(n - 1)
  }

  lemma {:induction false} Pow2Add(a: nat, b: nat)
    ensures Pow2(a + b) == Pow2(a) * Pow2(b)
    decreases a
  {
    if a > 0 {
      Pow2Add(a - 1, b);
      assert Pow2(a + b) == 2 * Pow2(a - 1 + b);
    }
  }

  lemma Pow2Byte(i: nat)
    ensures Pow2(8 * i + 8) == 256 * Pow2(8 * i)
  {
    Pow2Add(8, 8 * i);
    assert Pow2(8) == 256;
  }

  lemma DivModUnique(x: int, d: int, q: int, r: int)
    requires d > 0 && x == d * q + r && 0 <= r < d
    ensures x / d == q && x % d == r
  {
    var q', r' := x / d, x % d;
    assert d * (q - q') == r' - r;
    SmallMultiple(d, q - q');
  }

  /** The only multiple of `d` strictly between `-d` and `d` is zero. */
  lemma SmallMultiple(d: int, k: int)
    requires d > 0 && -d < d * k < d
    ensures k == 0
  {
    if k >= 1 {
      MulMono(d, 1, k);
      assert false;
    } else if k <= -1 {
      MulMono(d, k, -1);
      assert false;
    }
  }

  /** Writing `x = a*q1 + r1` and `q1 = b*q2 + r2` gives the quotient and
      remainder of `x` by `a*b`. */
  lemma DivSplit(x: int, a: int, b: int)
    requires a > 0 && b > 0
    ensures x / a / b == x / (a * b)
    ensures x % (a * b) == x % a + a * ((x / a) % b)
  {
    var q1, r1 := x / a, x % a;
    var q2, r2 := q1 / b, q1 % b;
    assert x == (a * b) * q2 + (a * r2 + r1) by {
      assert q1 == b * q2 + r2;
      calc {
        x;
        a * q1 + r1;
        a * (b * q2 + r2) + r1;
        (a * b) * q2 + (a * r2 + r1);
      }
    }
    assert a * r2 <= a * (b - 1) by { MulMono(a, r2, b - 1); }
    assert a * (b - 1) == a * b - a;
    DivModUnique(x, a * b, q2, a * r2 + r1);
  }

  lemma MulMono(a: int, x: int, y: int)
    requires a >= 0 && x <= y
    ensures a * x <= a * y
  {
  }

  /** Reducing modulo `a*b` keeps the low part below `a` and the next digit
      in base `b`. */
  lemma ModProduct(x: int, a: int, b: int)
    requires a > 0 && b > 0
    ensures (x % (a * b)) / a == (x / a) % b
    ensures (x % (a * b)) % a == x % a
  {
    DivSplit(x, a, b);
    DivModUnique(x % (a * b), a, (x / a) % b, x % a);
  }

  // ---------------------------------------------------------------------
  // Bit fields

  /** `(x >> off) & (2**w - 1)`: the `w` bits of `x` starting at bit `off`. */
  function Bits(x: int, off: nat, w: nat): (r: nat)
    ensures r < Pow2(w)
  {
    (x / Pow2(off)) % Pow2(w)
  }

  /** `(x & ~(M << off)) | ((v << off) & (M << off))` with `M = 2**w - 1`:
      the bits `[off, off + w)` of `x` replaced by those of `v`. */
  function Splice(x: int, off: nat, w: nat, v: int): int {
    x - Bits(x, off, w) * Pow2(off) + (v % Pow2(w)) * Pow2(off)
  }

  /** Splicing puts `v mod 2**w` into the field and leaves every bit below
      `off` and every bit from `off + w` upwards as it was. */
  lemma SpliceSpec(x: int, off: nat, w: nat, v: int)
    ensures Bits(Splice(x, off, w, v), off, w) == v % Pow2(w)
    ensures Splice(x, off, w, v) % Pow2(off) == x % Pow2(off)
    ensures Splice(x, off, w, v) / Pow2(off + w) == x / Pow2(off + w)
  {
    var P, W := Pow2(off), Pow2(w);
    var h := x / P / W;
    var v' := v % W;
    var y := Splice(x, off, w, v);
    SpliceShape(x, P, W, v);
    DivModUnique(y, P, W * h + v', x % P);
    DivModUnique(W * h + v', W, h, v');
    Pow2Add(off, w);
    DivSplit(y, P, W);
    DivSplit(x, P, W);
  }

  lemma SpliceShape(x: int, P: int, W: int, v: int)
    requires P > 0 && W > 0
    ensures x - ((x / P) % W) * P + (v % W) * P == P * (W * (x / P / W) + v % W) + x % P
  {
    var q, r := x / P, x % P;
    var h, b := q / W, q % W;
    assert x == P * q + r;
    assert q == W * h + b;
    assert P * q == P * (W * h) + P * b;
  }

  /** Cutting `y` down to its low `k` bits does not change a field that lies
      below bit `k`. */
  lemma BitsOfLowPart(y: int, off: nat, w: nat, k: nat)
    requires off + w <= k
    ensures Bits(y % Pow2(k), off, w) == Bits(y, off, w)
  {
    var P, W, R := Pow2(off), Pow2(w), Pow2(k - off - w);
    Pow2Add(off, k - off);
    Pow2Add(w, k - off - w);
    assert Pow2(k) == P * (W * R);
    ModProduct(y, P, W * R);
    ModProduct(y / P, W, R);
  }

  /** What lies from bit `j` upwards in the low `k` bits of `y`. */
  lemma HighOfLowPart(y: int, j: nat, k: nat)
    requires j <= k
    ensures (y % Pow2(k)) / Pow2(j) == (y / Pow2(j)) % Pow2(k - j)
  {
    Pow2Add(j, k - j);
    ModProduct(y, Pow2(j), Pow2(k - j));
  }

  // ---------------------------------------------------------------------
  // Little-endian bytes

  /** `[(x >> 8*i) & 0xFF for i in range(n)]`: the `n` low bytes of `x`,
      least significant first. */
  function WireBytes(x: int, n: nat): (bs: seq<byte>)
    ensures |bs| == n
  {
    seq(n, i requires 0 <= i < n => (x / Pow2(8 * i)) % 256)
  }

  /** `int.from_bytes(bs, byteorder='little')`. */
  function LittleEndian(bs: seq<int>): int {
    if bs == [] then 0 else bs[0] + 256 * LittleEndian(bs[1..])
  }

  lemma LittleEndianBound(bs: seq<byte>)
    ensures 0 <= LittleEndian(bs) < Pow2(8 * |bs|)
  {
    if bs != [] {
      LittleEndianBound(bs[1..]);
      Pow2Byte(|bs| - 1);
    }
  }

  /** The wire bytes of `x`, reassembled little-endian, give `x mod 256**n`. */
  lemma {:induction false} WireBytesLittleEndian(x: int, n: nat)
    ensures LittleEndian(WireBytes(x, n)) == x % Pow2(8 * n)
    decreases n
  {
    if n > 0 {
      var bs := WireBytes(x, n);
      var rest := WireBytes(x / 256, n - 1);
      forall i | 0 <= i < n - 1
        ensures bs[1..][i] == rest[i]
      {
        Pow2Byte(i);
        DivSplit(x, 256, Pow2(8 * i));
      }
      assert bs[1..] == rest;
      WireBytesLittleEndian(x / 256, n - 1);
      Pow2Byte(n - 1);
      DivSplit(x, 256, Pow2(8 * (n - 1)));
    }
  }
}
