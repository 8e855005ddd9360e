/** The bit accumulator of the password encoder.

    The accumulator is an append-only string of single bits that can also be
    overwritten in place and read back in ranges.  Every multi-bit value is
    written and read most-significant bit first. */
module Bits {

  type Bit = b: int | 0 <= b < 2

  /** A byte of the bit stream, or an unsigned 8-bit value of the source. */
  type Byte = b: int | 0 <= b < 256

  function Pow2(n: nat): (r: nat)
    ensures r >= 1
  {
    if n == 0 then 1 else 2 * Pow2(n - 1)
  }

  /** The unsigned value of a bit string read most-significant bit first. */
  function FromBits(s: seq<Bit>): (r: nat)
    ensures r < Pow2(|s|)
  {
    if |s| == 0 then 0 else 2 * FromBits(s[..|s| - 1]) + s[|s| - 1]
  }

  /** The `n` low bits of `v`, most-significant first: bit `i` of the result
      is bit `n - 1 - i` of `v`. */
  function ToBits(v: nat, n: nat): (r: seq<Bit>)
    ensures |r| == n
  {
    seq(n, i requires 0 <= i < n => (v / Pow2(n - 1 - i)) % 2)
  }

  function Zeros(n: nat): (r: seq<Bit>)
    ensures |r| == n
    ensures forall i :: 0 <= i < n ==> r[i] == 0
  {
    seq(n, i => 0)
  }

  // ---------------------------------------------------------------------
  // Arithmetic helpers

  lemma DivModUnique(v: int, d: int, q: int, r: int)
    requires d > 0 && 0 <= r < d && v == d * q + r
    ensures v / d == q && v % d == r
  {
    var q', r' := v / d, v % d;
    assert v == d * q' + r';
    if q' > q {
      MulDiff(d, q', q);
      MulAtLeast(d, q' - q);
    } else if q' < q {
      MulDiff(d, q, q');
      MulAtLeast(d, q - q');
    }
  }

  lemma MulDiff(d: int, a: int, b: int)
    ensures d * a - d * b == d * (a - b)
  {
  }

  lemma MulAtLeast(d: int, k: int)
    requires d > 0 && k >= 1
    ensures d * k >= d
  {
  }

  lemma Pow2Add(a: nat, b: nat)
    ensures Pow2(a + b) == Pow2(a) * Pow2(b)
  {
    if a > 0 {
      Pow2Add(a - 1, b);
    }
  }

  lemma Pow2Monotone(a: nat, b: nat)
    requires a <= b
    ensures Pow2(a) <= Pow2(b)
  {
    if a < b {
      Pow2Monotone(a, b - 1);
    }
  }

  /** Halving first and then dividing by `2^k` is dividing by `2^(k+1)`. */
  lemma HalfDiv(v: nat, k: nat)
    ensures (v / 2) / Pow2(k) == v / Pow2(k + 1)
  {
    var p := Pow2(k);
    var a, c := v / (2 * p), v % (2 * p);
    assert v == 2 * p * a + c;
    DivModUnique(v / 2, p, a, c / 2);
  }

  /** `2 * (v / 2 mod 2^k) + v mod 2` is `v mod 2^(k+1)`. */
  lemma HalfMod(v: nat, k: nat)
    ensures 2 * ((v / 2) % Pow2(k)) + v % 2 == v % Pow2(k + 1)
  {
    var p := Pow2(k);
    var h := v / 2;
    var a, c := h / p, h % p;
    assert v == 2 * p * a + (2 * c + v % 2);
    DivModUnique(v, 2 * p, a, 2 * c + v % 2);
  }

  // ---------------------------------------------------------------------
  // Value/bit-string correspondence

  /** `ToBits` peels the lowest bit off the end. */
  lemma ToBitsSplit(v: nat, n: nat)
    requires n > 0
    ensures ToBits(v, n) == ToBits(v / 2, n - 1) + [v % 2]
  {
    var a, b := ToBits(v, n), ToBits(v / 2, n - 1) + [v % 2];
    forall i | 0 <= i < n
      ensures a[i] == b[i]
    {
      if i < n - 1 {
        HalfDiv(v, n - 2 - i);
        assert n - 2 - i + 1 == n - 1 - i;
        assert b[i] == ToBits(v / 2, n - 1)[i];
      } else {
        assert Pow2(n - 1 - i) == 1;
      }
    }
    assert a == b;
  }

  /** Pushing `n` bits of `v` stores exactly `v mod 2^n`. */
  lemma {:induction false} ToBitsValue(v: nat, n: nat)
    ensures FromBits(ToBits(v, n)) == v % Pow2(n)
  {
    if n > 0 {
      ToBitsSplit(v, n);
      var s := ToBits(v, n);
      assert s[..n - 1] == ToBits(v / 2, n - 1);
      ToBitsValue(v / 2, n - 1);
      HalfMod(v, n - 1);
    }
  }

  /** Reading a bit string as a number and writing it back at the same width
      gives the bit string back. */
  lemma {:induction false} FromBitsToBits(s: seq<Bit>)
    ensures ToBits(FromBits(s), |s|) == s
  {
    if |s| > 0 {
      var x := FromBits(s);
      ToBitsSplit(x, |s|);
      assert x / 2 == FromBits(s[..|s| - 1]);
      FromBitsToBits(s[..|s| - 1]);
      assert s == s[..|s| - 1] + [s[|s| - 1]];
    }
  }

  /** The bits of a value at a given width depend only on the value modulo the width. */
  lemma ToBitsMod(v: nat, n: nat)
    ensures ToBits(v % Pow2(n), n) == ToBits(v, n)
  {
    ToBitsValue(v, n);
    FromBitsToBits(ToBits(v, n));
  }

  /** Concatenation shifts the high part left by the width of the low part. */
  lemma {:induction false} FromBitsAppend(a: seq<Bit>, b: seq<Bit>)
    ensures FromBits(a + b) == FromBits(a) * Pow2(|b|) + FromBits(b)
  {
    if |b| == 0 {
      assert a + b == a;
    } else {
      var ab := a + b;
      var b' := b[..|b| - 1];
      assert ab[..|ab| - 1] == a + b';
      assert ab[|ab| - 1] == b[|b| - 1];
      FromBitsAppend(a, b');
      ShiftStep(FromBits(a), Pow2(|b'|), FromBits(b'), b[|b| - 1]);
    }
  }

  lemma ShiftStep(x: int, p: int, y: int, t: int)
    ensures 2 * (x * p + y) + t == x * (2 * p) + (2 * y + t)
  {
  }

  lemma {:induction false} FromBitsZeros(n: nat)
    ensures FromBits(Zeros(n)) == 0
  {
    if n > 0 {
      assert Zeros(n)[..n - 1] == Zeros(n - 1);
      FromBitsZeros(n - 1);
    }
  }

  lemma Pow2Byte()
    ensures Pow2(8) == 256
  {
  }

  /** Eight bits pushed from a byte read back as that byte. */
  lemma ByteBits(x: Byte)
    ensures FromBits(ToBits(x, 8)) == x
  {
    ToBitsValue(x, 8);
    Pow2Byte();
  }

  /** A byte is determined by its eight bits. */
  lemma ByteBitsInjective(x: Byte, y: Byte)
    requires ToBits(x, 8) == ToBits(y, 8)
    ensures x == y
  {
    ByteBits(x);
    ByteBits(y);
  }

  /** Bit `i` of a bit string carries weight `2^(|s| - 1 - i)` in its value. */
  lemma BitWeight(s: seq<Bit>, i: nat)
    requires i < |s|
    ensures (FromBits(s) / Pow2(|s| - 1 - i)) % 2 == s[i]
  {
    FromBitsToBits(s);
  }

  /** A slice inside a prefix is the same slice of the prefix. */
  lemma PrefixSlice(r: seq<Bit>, p: seq<Bit>, a: nat, b: nat)
    requires |p| <= |r| && r[..|p|] == p && a <= b <= |p|
    ensures r[a..b] == p[a..b]
  {
    forall i | a <= i < b
      ensures r[i] == p[i]
    {
      assert r[..|p|][i] == r[i];
    }
    assert r[a..b] == p[a..b];
  }

  /** The two parts of a concatenation. */
  lemma AppendSlices(p: seq<Bit>, q: seq<Bit>)
    ensures (p + q)[..|p|] == p && (p + q)[|p|..] == q && (p + q)[|p|..|p| + |q|] == q
  {
  }

  /** The field just pushed, read back between its bounds. */
  lemma PushedField(bits: seq<Bit>, value: nat, n: nat, lo: nat, hi: nat)
    requires lo == |bits| && hi == |bits| + n
    ensures FromBits(PushBits(bits, value, n)[lo..hi]) == value % Pow2(n)
  {
    var r := PushBits(bits, value, n);
    assert r[lo..hi] == r[|bits|..];
  }

  /** Bit strings that agree everywhere are equal. */
  lemma SameBits(a: seq<Bit>, b: seq<Bit>)
    requires |a| == |b| && forall i :: 0 <= i < |a| ==> a[i] == b[i]
    ensures a == b
  {
  }

  /** The four equal-width pieces of a concatenation. */
  lemma Slice4(parts: seq<seq<Bit>>, n: nat)
    requires |parts| == 4 && forall i :: 0 <= i < 4 ==> |parts[i]| == n
    ensures var r := parts[0] + parts[1] + parts[2] + parts[3];
      forall i :: 0 <= i < 4 ==> r[n * i .. n * i + n] == parts[i]
  {
    var r := parts[0] + parts[1] + parts[2] + parts[3];
    forall i | 0 <= i < 4
      ensures r[n * i .. n * i + n] == parts[i]
    {
      if i == 0 {
        assert r[0..n] == parts[0];
      } else if i == 1 {
        assert n * i == n;
        assert r[n..2 * n] == parts[1];
      } else if i == 2 {
        assert n * i == 2 * n;
        assert r[2 * n..3 * n] == parts[2];
      } else {
        assert n * i == 3 * n;
        assert r[3 * n..4 * n] == parts[3];
      }
    }
  }

  // ---------------------------------------------------------------------
  // The accumulator operations (`BitArray`)

  /** `push_bit`: append the low bit of `value`. */
  function PushBit(bits: seq<Bit>, value: nat): (r: seq<Bit>)
    ensures |r| == |bits| + 1 && r[..|bits|] == bits
    ensures r[|bits|] == 1 <==> value % 2 == 1
  {
    bits + [value % 2]
  }

  /** `push_bits`: append the `n` low bits of `value`, most significant first. */
  function PushBits(bits: seq<Bit>, value: nat, n: nat): (r: seq<Bit>)
    ensures |r| == |bits| + n && r[..|bits|] == bits
    ensures FromBits(r[|bits|..]) == value % Pow2(n)
  {
    var r := bits + ToBits(value, n);
    assert r[|bits|..] == ToBits(value, n);
    ToBitsValue(value, n);
    r
  }

  /** `replace_bits`: overwrite bits `pos .. pos + n - 1` with the `n` low bits
      of `value`.  The source indexes the buffer directly, so the range must lie
      inside it. */
  function ReplaceBits(bits: seq<Bit>, value: nat, n: nat, pos: nat): (r: seq<Bit>)
    requires pos + n <= |bits|
    ensures |r| == |bits|
    ensures forall i :: 0 <= i < |bits| && !(pos <= i < pos + n) ==> r[i] == bits[i]
    ensures FromBits(r[pos..pos + n]) == value % Pow2(n)
  {
    var r := bits[..pos] + ToBits(value, n) + bits[pos + n..];
    assert r[pos..pos + n] == ToBits(value, n);
    ToBitsValue(value, n);
    r
  }

  /** `sub_bits`: the inclusive range `lo ..= hi` read as an unsigned byte.
      The source only checks the START of the range against the length: a range
      starting at or past the end reads as 0, a range lying inside the buffer
      reads its bits, and a range that starts inside and runs past the end
      indexes out of bounds.  The accumulator is a `u8`, so at most 8 bits. */
  function SubBits(bits: seq<Bit>, lo: nat, hi: nat): (r: Byte)
    requires lo <= hi && hi - lo < 8
    requires lo >= |bits| || hi < |bits|
    ensures lo >= |bits| ==> r == 0
    ensures hi < |bits| ==> ToBits(r, hi - lo + 1) == bits[lo..hi + 1] && r < Pow2(hi - lo + 1)
  {
    if lo >= |bits| then 0
    else
      var s := bits[lo..hi + 1];
      FromBitsToBits(s);
      Pow2Monotone(|s|, 8);
      FromBits(s)
  }
}
