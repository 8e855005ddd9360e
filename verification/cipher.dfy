/** The middle stage of `gen_password_bytes`: the 16-bit key computed over
    the padded payload bytes, the two key bytes appended, and the XOR of the
    payload and the key's high byte with the key's low byte.  Also the byte
    view of a bit string that both directions rely on, and the inverse
    (`Decrypt`) used to state what encryption preserves. */
module Cipher {
  import opened Bits
  import opened Enums
  import opened KeyRegister

  // ---------------------------------------------------------------------
  // Byte view of a bit string

  /** `sub_bits(8 * i, 8 * i + 7)`: byte `i` of a bit string. */
  function ByteAt(bits: seq<Bit>, i: nat): (r: Byte)
    requires 8 * i + 8 <= |bits|
    ensures ToBits(r, 8) == bits[8 * i .. 8 * i + 8]
  {
    SubBits(bits, 8 * i, 8 * i + 7)
  }

  /** Equal eight-bit windows hold equal bytes. */
  lemma ByteAtEq(a: seq<Bit>, i: nat, b: seq<Bit>, j: nat)
    requires 8 * i + 8 <= |a| && 8 * j + 8 <= |b|
    requires a[8 * i .. 8 * i + 8] == b[8 * j .. 8 * j + 8]
    ensures ByteAt(a, i) == ByteAt(b, j)
  {
    ByteBitsInjective(ByteAt(a, i), ByteAt(b, j));
  }

  /** The bytes of a whole-byte bit string, in order. */
  function Bytes(bits: seq<Bit>): (r: seq<Byte>)
    requires |bits| % 8 == 0
    ensures |r| * 8 == |bits|
    ensures forall i :: 0 <= i < |r| ==> r[i] == ByteAt(bits, i)
  {
    seq(|bits| / 8, i requires 0 <= i < |bits| / 8 => ByteAt(bits, i))
  }

  /** Bit `p` of a bit string is bit `p % 8` of its byte `p / 8`. */
  lemma BitOfByte(bits: seq<Bit>, p: nat)
    requires |bits| % 8 == 0 && p < |bits|
    ensures bits[p] == ToBits(Bytes(bits)[p / 8], 8)[p % 8]
  {
    var i := p / 8;
    assert bits[8 * i .. 8 * i + 8][p - 8 * i] == bits[p];
  }

  /** Two bit strings with the same bytes are equal. */
  lemma BytesInjective(a: seq<Bit>, b: seq<Bit>)
    requires |a| % 8 == 0 && |b| % 8 == 0 && Bytes(a) == Bytes(b)
    ensures a == b
  {
    forall p | 0 <= p < |a|
      ensures a[p] == b[p]
    {
      BitOfByte(a, p);
      BitOfByte(b, p);
    }
  }

  /** A window of the right part of a concatenation, shifted by the left part. */
  lemma AppendRight(a: seq<Bit>, b: seq<Bit>, s: nat, len: nat)
    requires s + len <= |b|
    ensures (a + b)[|a| + s .. |a| + s + len] == b[s .. s + len]
  {
    var x, y := (a + b)[|a| + s .. |a| + s + len], b[s .. s + len];
    forall k | 0 <= k < len
      ensures x[k] == y[k]
    {
      assert (a + b)[|a| + s + k] == b[s + k];
    }
  }

  /** A byte of the left part of a concatenation. */
  lemma ByteOfLeft(a: seq<Bit>, b: seq<Bit>, i: nat)
    requires 8 * i + 8 <= |a|
    ensures ByteAt(a + b, i) == ByteAt(a, i)
  {
    assert (a + b)[8 * i .. 8 * i + 8] == a[8 * i .. 8 * i + 8];
    ByteAtEq(a + b, i, a, i);
  }

  /** A byte of the right part of a concatenation, shifted by the left part's bytes. */
  lemma ByteOfRight(a: seq<Bit>, b: seq<Bit>, n: nat, j: nat)
    requires |a| == 8 * n && 8 * j + 8 <= |b|
    ensures ByteAt(a + b, n + j) == ByteAt(b, j)
  {
    assert 8 * (n + j) == |a| + 8 * j;
    AppendRight(a, b, 8 * j, 8);
    ByteAtEq(a + b, n + j, b, j);
  }

  /** Byte `i` of a concatenation comes from the left part or, shifted, from the right. */
  lemma BytesAppendAt(a: seq<Bit>, b: seq<Bit>, i: nat)
    requires |a| % 8 == 0 && |b| % 8 == 0 && 8 * i + 8 <= |a| + |b|
    ensures ByteAt(a + b, i) == (Bytes(a) + Bytes(b))[i]
  {
    var n := |a| / 8;
    if i < n {
      ByteOfLeft(a, b, i);
    } else {
      ByteOfRight(a, b, n, i - n);
    }
  }

  /** The bytes of a concatenation are the concatenated bytes. */
  lemma BytesAppend(a: seq<Bit>, b: seq<Bit>)
    requires |a| % 8 == 0 && |b| % 8 == 0
    ensures Bytes(a + b) == Bytes(a) + Bytes(b)
  {
    var xy, x, y := Bytes(a + b), Bytes(a), Bytes(b);
    forall i | 0 <= i < |xy|
      ensures xy[i] == (x + y)[i]
    {
      BytesAppendAt(a, b, i);
    }
    SameBytes(xy, x + y);
  }

  /** Byte sequences that agree everywhere are equal. */
  lemma SameBytes(p: seq<Byte>, q: seq<Byte>)
    requires |p| == |q| && forall i :: 0 <= i < |p| ==> p[i] == q[i]
    ensures p == q
  {
  }

  /** Eight bits pushed from a byte read back as that byte. */
  lemma BytesOfByte(x: Byte)
    ensures Bytes(ToBits(x, 8)) == [x]
  {
    var s := ToBits(x, 8);
    assert s[0..8] == s;
    ByteBitsInjective(ByteAt(s, 0), x);
  }

  /** `replace_bits(x, 8, 8 * k)` on whole bytes replaces byte `k`. */
  lemma ReplaceByte(bits: seq<Bit>, k: nat, x: Byte)
    requires |bits| % 8 == 0 && 8 * k + 8 <= |bits|
    ensures Bytes(ReplaceBits(bits, x, 8, 8 * k)) == Bytes(bits)[k := x]
  {
    var r := ReplaceBits(bits, x, 8, 8 * k);
    assert r == bits[..8 * k] + ToBits(x, 8) + bits[8 * k + 8..];
    forall j | 0 <= j < |bits| / 8
      ensures Bytes(r)[j] == Bytes(bits)[k := x][j]
    {
      if j == k {
        assert r[8 * k .. 8 * k + 8] == ToBits(x, 8);
        ByteBitsInjective(ByteAt(r, k), x);
      } else {
        assert r[8 * j .. 8 * j + 8] == bits[8 * j .. 8 * j + 8];
        ByteAtEq(r, j, bits, j);
      }
    }
  }

  // ---------------------------------------------------------------------
  // Byte XOR

  /** The bit-wise XOR of two eight-bit strings. */
  function XorBits(s: seq<Bit>, t: seq<Bit>): (r: seq<Bit>)
    requires |s| == 8 && |t| == 8
    ensures |r| == 8
    ensures forall i :: 0 <= i < 8 ==> (r[i] == 1 <==> s[i] != t[i])
  {
    seq(8, i requires 0 <= i < 8 => if s[i] == t[i] then 0 else 1)
  }

  /** `a ^ b` on two bytes: bit `i` of the result is set exactly when bit `i`
      of `a` and of `b` differ. */
  function Xor8(a: Byte, b: Byte): (r: Byte)
    ensures ToBits(r, 8) == XorBits(ToBits(a, 8), ToBits(b, 8))
  {
    var s := XorBits(ToBits(a, 8), ToBits(b, 8));
    FromBitsToBits(s);
    Pow2Byte();
    FromBits(s)
  }

  /** XOR with the same byte twice is the identity. */
  lemma Xor8Involution(a: Byte, b: Byte)
    ensures Xor8(Xor8(a, b), b) == a
  {
    var ta, tb := ToBits(a, 8), ToBits(b, 8);
    var x := Xor8(a, b);
    assert XorBits(XorBits(ta, tb), tb) == ta;
    ByteBitsInjective(Xor8(x, b), a);
  }

  /** Reference definition of the XOR loop on bytes: the first `n` bytes
      XORed with `v`, the rest untouched. */
  function XorPrefix(bs: seq<Byte>, v: Byte, n: nat): (r: seq<Byte>)
  {
    seq(|bs|, j requires 0 <= j < |bs| => if j < n then Xor8(bs[j], v) else bs[j])
  }

  /** XORing the same prefix twice gives the bytes back. */
  lemma XorPrefixInvolution(bs: seq<Byte>, v: Byte, n: nat)
    ensures XorPrefix(XorPrefix(bs, v, n), v, n) == bs
  {
    forall j | 0 <= j < |bs|
      ensures XorPrefix(XorPrefix(bs, v, n), v, n)[j] == bs[j]
    {
      Xor8Involution(bs[j], v);
    }
  }

  /** The source's XOR loop over bytes `0 .. n - 1`: each byte is read with
      `sub_bits` and written back XORed with `v` by `replace_bits`. */
  function XorLoop(bits: seq<Bit>, v: Byte, n: nat): (r: seq<Bit>)
    requires |bits| % 8 == 0 && 8 * n <= |bits|
    ensures |r| == |bits|
    ensures Bytes(r) == XorPrefix(Bytes(bits), v, n)
  {
    if n == 0 then
      assert XorPrefix(Bytes(bits), v, 0) == Bytes(bits);
      bits
    else
      var b := XorLoop(bits, v, n - 1);
      var k := n - 1;
      var r := ReplaceBits(b, Xor8(ByteAt(b, k), v), 8, 8 * k);
      ReplaceByte(b, k, Xor8(ByteAt(b, k), v));
      assert Bytes(b)[k] == Bytes(bits)[k];
      assert Bytes(r) == XorPrefix(Bytes(bits), v, n);
      r
  }

  // ---------------------------------------------------------------------
  // Sealing: key bytes appended, prefix XORed

  /** Two bytes pushed after a whole-byte bit string. */
  function AppendBytes(bits: seq<Bit>, hi: Byte, lo: Byte): (r: seq<Bit>)
    requires |bits| % 8 == 0
    ensures |r| == |bits| + 16 && r[..|bits|] == bits
    ensures Bytes(r) == Bytes(bits) + [hi, lo]
  {
    var r := PushBits(PushBits(bits, hi, 8), lo, 8);
    assert r == bits + ToBits(hi, 8) + ToBits(lo, 8);
    BytesAppend(bits, ToBits(hi, 8));
    BytesAppend(bits + ToBits(hi, 8), ToBits(lo, 8));
    BytesOfByte(hi);
    BytesOfByte(lo);
    r
  }

  /** The sixteen bits appended for a key, high byte first, read back as
      the key. */
  lemma KeyBitsValue(bits: seq<Bit>, k: bv64)
    requires |bits| % 8 == 0 && k < 0x10000
    ensures FromBits(AppendBytes(bits, KeyHi(k), KeyLo(k))[|bits|..]) == k as int
  {
    AppendedBits(bits, KeyHi(k), KeyLo(k));
    TwoBytesValue(KeyHi(k), KeyLo(k), 8);
    KeyBytes(k);
  }

  /** Two bytes pushed high first read back as `256 * hi + lo`.  The width
      is a parameter so that the solver does not unfold the bit strings of
      a literal width. */
  lemma TwoBytesValue(h: Byte, l: Byte, w: nat)
    requires w == 8
    ensures FromBits(ToBits(h, w) + ToBits(l, w)) == h * 256 + l
  {
    var a, b := ToBits(h, w), ToBits(l, w);
    ByteBitsValue(h, w);
    ByteBitsValue(l, w);
    TwoValues(a, b);
  }

  /** The bits of a byte read back as the byte. */
  lemma ByteBitsValue(x: Byte, w: nat)
    requires w == 8
    ensures FromBits(ToBits(x, w)) == x
  {
    Pow2Byte();
    ToBitsValue(x, w);
    DivModUnique(x, Pow2(w), 0, x);
  }

  /** A bit string followed by eight more reads as its value times 256
      plus theirs. */
  lemma TwoValues(a: seq<Bit>, b: seq<Bit>)
    requires |b| == 8
    ensures FromBits(a + b) == FromBits(a) * 256 + FromBits(b)
  {
    Pow2Byte();
    FromBitsAppend(a, b);
  }

  lemma AppendedBits(bits: seq<Bit>, hi: Byte, lo: Byte)
    requires |bits| % 8 == 0
    ensures AppendBytes(bits, hi, lo)[|bits|..] == ToBits(hi, 8) + ToBits(lo, 8)
  {
    var r := AppendBytes(bits, hi, lo);
    assert r == bits + ToBits(hi, 8) + ToBits(lo, 8);
  }

  /** The padded payload with bytes `hi` and `lo` appended and bytes
      `0 ..= size` (the payload and `hi`) XORed with `lo`; `lo` itself is
      left clear. */
  function Seal(bits: seq<Bit>, hi: Byte, lo: Byte): (r: seq<Bit>)
    requires |bits| % 8 == 0
    ensures |r| == |bits| + 16
    ensures Bytes(r) == XorPrefix(Bytes(bits) + [hi, lo], lo, |bits| / 8 + 1)
  {
    XorLoop(AppendBytes(bits, hi, lo), lo, |bits| / 8 + 1)
  }

  /** What `Unseal` reads out of a sealed bit string. */
  datatype Opened = Opened(payload: seq<Bit>, hi: Byte, lo: Byte)

  /** The inverse of `Seal`: read the clear last byte, undo the XOR on every
      byte before it, and split off the two trailing bytes. */
  function Unseal(enc: seq<Bit>): (r: Opened)
    requires |enc| % 8 == 0 && |enc| >= 16
    ensures |r.payload| + 16 == |enc| && |r.payload| % 8 == 0
  {
    var m := |enc| / 8;
    DivModUnique(|enc| - 16, 8, m - 2, 0);
    var lo := ByteAt(enc, m - 1);
    var d := XorLoop(enc, lo, m - 1);
    Opened(d[..|enc| - 16], ByteAt(d, m - 2), lo)
  }

  /** Unsealing recovers the payload and both bytes. */
  lemma UnsealSeal(bits: seq<Bit>, hi: Byte, lo: Byte)
    requires |bits| % 8 == 0
    ensures Unseal(Seal(bits, hi, lo)) == Opened(bits, hi, lo)
  {
    var n := |bits| / 8;
    var plain := AppendBytes(bits, hi, lo);
    var enc := Seal(bits, hi, lo);
    var m := |enc| / 8;
    assert m == n + 2;
    assert Bytes(enc)[m - 1] == lo;
    var d := XorLoop(enc, lo, m - 1);
    XorPrefixInvolution(Bytes(plain), lo, m - 1);
    BytesInjective(d, plain);
    assert d[..|bits|] == bits;
    assert Bytes(d)[m - 2] == hi;
  }

  /** Undoing the XOR of a string leaves what `Unseal` reads, byte for byte. */
  lemma UnsealBytes(enc: seq<Bit>)
    requires |enc| % 8 == 0 && |enc| >= 16
    ensures var o := Unseal(enc);
      XorPrefix(Bytes(enc), o.lo, |enc| / 8 - 1) == Bytes(o.payload) + [o.hi, o.lo]
  {
    var o := Unseal(enc);
    var m := |enc| / 8;
    var d := XorLoop(enc, o.lo, m - 1);
    SplitLastTwo(d);
    var bd := Bytes(d);
    assert o.payload == d[..|d| - 16];
    assert bd[m - 1] == o.lo;
    assert bd[m - 2] == o.hi;
    assert bd == Bytes(o.payload) + [o.hi, o.lo];
  }

  /** The bytes of a bit string of at least two bytes: those of all but its
      last sixteen bits, then its last two bytes. */
  lemma SplitLastTwo(d: seq<Bit>)
    requires |d| % 8 == 0 && |d| >= 16
    ensures (|d| - 16) % 8 == 0
    ensures var m := |d| / 8;
      Bytes(d) == Bytes(d[..|d| - 16]) + [Bytes(d)[m - 2], Bytes(d)[m - 1]]
  {
    var m := |d| / 8;
    DivModUnique(|d| - 16, 8, m - 2, 0);
    var p, t := d[..|d| - 16], d[|d| - 16..];
    assert d == p + t;
    BytesAppend(p, t);
    var bt := Bytes(t);
    assert |bt| == 2;
    assert bt == [bt[0], bt[1]];
  }


  /** Every whole-byte string of at least two bytes is a sealing: sealing
      what `Unseal` reads gives the string back. */
  lemma SealUnseal(enc: seq<Bit>)
    requires |enc| % 8 == 0 && |enc| >= 16
    ensures var o := Unseal(enc); Seal(o.payload, o.hi, o.lo) == enc
  {
    var o := Unseal(enc);
    UnsealBytes(enc);
    XorPrefixInvolution(Bytes(enc), o.lo, |enc| / 8 - 1);
    BytesInjective(Seal(o.payload, o.hi, o.lo), enc);
  }

  // ---------------------------------------------------------------------
  // Encryption

  /** The padded payload sealed with its key: the key's high byte and low
      byte appended, and everything up to the high byte XORed with the low
      byte. */
  function Encrypt(bits: seq<Bit>): (r: seq<Bit>)
    requires |bits| % 8 == 0
    ensures |r| == |bits| + 16
    ensures Bytes(r)[|bits| / 8 + 1] == KeyLo(Key(Bytes(bits)))
  {
    var k := Key(Bytes(bits));
    Seal(bits, KeyHi(k), KeyLo(k))
  }

  /** The inverse of `Encrypt`: unseal, and accept the payload only when
      the key recomputed over it matches both trailing bytes. */
  function Decrypt(enc: seq<Bit>): (r: Option<seq<Bit>>)
    requires |enc| % 8 == 0 && |enc| >= 16
    ensures r.Some? ==> |r.value| + 16 == |enc|
  {
    var o := Unseal(enc);
    var k := Key(Bytes(o.payload));
    if KeyHi(k) == o.hi && KeyLo(k) == o.lo then Some(o.payload) else None
  }

  /** Decryption recovers every encrypted payload. */
  lemma DecryptEncrypt(bits: seq<Bit>)
    requires |bits| % 8 == 0
    ensures Decrypt(Encrypt(bits)) == Some(bits)
  {
    var k := Key(Bytes(bits));
    UnsealSeal(bits, KeyHi(k), KeyLo(k));
  }

  /** Decryption accepts only encryptions: whatever it accepts encrypts back
      to the bit string it was given. */
  lemma EncryptDecrypt(enc: seq<Bit>)
    requires |enc| % 8 == 0 && |enc| >= 16 && Decrypt(enc).Some?
    ensures Encrypt(Decrypt(enc).value) == enc
  {
    SealUnseal(enc);
  }
}
