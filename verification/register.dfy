/** The 16-bit key register of `gen_password_bytes`: every padded payload
    byte is XORed into its high half and shifted through eight rounds, and
    the key is its complement.  The source keeps the register in a 64-bit
    word that it masks only at the end; both forms are here, with the proof
    that they give the same key.  Doubling is written `x + x`, which on a
    64-bit word is the source's `x << 1`. */
module KeyRegister {
  import opened Bits

  /** Rounds applied per absorbed byte. */
  const ByteRounds: nat := 8

  /** `n` applications of `f`. */
  function Iterate(f: bv64 -> bv64, x: bv64, n: nat): bv64
    decreases n
  {
    if n == 0 then x else Iterate(f, f(x), n - 1)
  }

  /** One shift of the 16-bit register (kept in the low half of a 64-bit
      word): double, and when the bit shifted out (bit 15) was set, add
      0xEFDF (the low half of the source's 0xFFFF_EFDF), all modulo 2^16. */
  function Round(x: bv64): (r: bv64)
    ensures r < 0x10000
  {
    if x & 0x8000 == 0 then (x + x) & 0xFFFF else ((x + x) + 0xEFDF) & 0xFFFF
  }

  /** Adding 0xEFDF modulo 2^16 is subtracting the source's key 0x1021: a
      round is a shift followed, when bit 15 falls out, by subtracting the
      generator 0x1021 (not XORing it, as a textbook CRC-16 would). */
  lemma RoundSubtracts(x: bv64)
    ensures x & 0x8000 != 0 ==> Round(x) == ((x + x) - 0x1021) & 0xFFFF
    ensures x & 0x8000 == 0 ==> Round(x) == (x + x) & 0xFFFF
  {
  }

  /** A payload byte moved into the high half of the register. */
  function Mix(b: Byte): (r: bv64)
    ensures r < 0x10000 && r & 0xFF == 0
  {
    (b as bv64) << 8
  }

  /** One payload byte entering the register: XOR into the high half, then
      eight rounds. */
  function Absorb(x: bv64, b: Byte): bv64
  {
    Iterate(Round, x ^ Mix(b), ByteRounds)
  }

  /** The register after the bytes, starting from 0xFFFF. */
  function Register(bytes: seq<Byte>): (r: bv64)
    ensures r < 0x10000
  {
    if |bytes| == 0 then 0xFFFF
    else
      var x := Register(bytes[..|bytes| - 1]);
      IterateRound(x ^ Mix(bytes[|bytes| - 1]), ByteRounds);
      Absorb(x, bytes[|bytes| - 1])
  }

  /** The 16-bit complement of a word's low half. */
  function Complement(x: bv64): (r: bv64)
    ensures r < 0x10000
    ensures x < 0x10000 ==> r ^ x == 0xFFFF
  {
    (!x) & 0xFFFF
  }

  /** The key: the 16-bit complement of the register. */
  function Key(bytes: seq<Byte>): (r: bv64)
    ensures r < 0x10000
    ensures r ^ Register(bytes) == 0xFFFF
  {
    Complement(Register(bytes))
  }

  /** The key byte pushed first. */
  function KeyHi(k: bv64): (r: Byte)
  {
    ((k >> 8) & 0xFF) as int
  }

  /** The key byte pushed second, which is also the XOR mask. */
  function KeyLo(k: bv64): (r: Byte)
  {
    (k & 0xFF) as int
  }

  /** Rounds keep the register within 16 bits. */
  lemma {:induction false} IterateRound(x: bv64, n: nat)
    ensures n > 0 ==> Iterate(Round, x, n) < 0x10000
    decreases n
  {
    if n > 1 {
      IterateRound(Round(x), n - 1);
    }
  }

  // The register as the source writes it: a 64-bit word (wrapping) that is
  // never masked until the end, its high bits growing with every shift.

  function Round64(x: bv64): bv64
  {
    if x & 0x8000 == 0 then x + x else (x + x) + 0xFFFF_EFDF
  }

  function Absorb64(x: bv64, b: Byte): bv64
  {
    Iterate(Round64, x ^ Mix(b), ByteRounds)
  }

  function Register64(bytes: seq<Byte>): bv64
  {
    if |bytes| == 0 then 0xFFFF
    else Absorb64(Register64(bytes[..|bytes| - 1]), bytes[|bytes| - 1])
  }

  /** `(!x_sum) & 0xFFFF` on the 64-bit register. */
  function Key64(bytes: seq<Byte>): bv64
  {
    Complement(Register64(bytes))
  }

  lemma Bit15Low(x: bv64)
    ensures (x & 0xFFFF) & 0x8000 == x & 0x8000
  {
  }

  lemma DoubleLow(x: bv64)
    ensures (x + x) & 0xFFFF == ((x & 0xFFFF) + (x & 0xFFFF)) & 0xFFFF
  {
  }

  lemma DoubleAddLow(x: bv64)
    ensures ((x + x) + 0xFFFF_EFDF) & 0xFFFF == (((x & 0xFFFF) + (x & 0xFFFF)) + 0xEFDF) & 0xFFFF
  {
  }

  lemma RoundLowClear(x: bv64)
    requires x & 0x8000 == 0
    ensures Round64(x) & 0xFFFF == Round(x & 0xFFFF)
  {
    Bit15Low(x);
    DoubleLow(x);
  }

  lemma RoundLowSet(x: bv64)
    requires x & 0x8000 != 0
    ensures Round64(x) & 0xFFFF == Round(x & 0xFFFF)
  {
    Bit15Low(x);
    DoubleAddLow(x);
  }

  /** A round's low 16 bits depend only on the low 16 bits before it. */
  lemma RoundLow(x: bv64)
    ensures Round64(x) & 0xFFFF == Round(x & 0xFFFF)
  {
    if x & 0x8000 == 0 {
      RoundLowClear(x);
    } else {
      RoundLowSet(x);
    }
  }

  /** The low 16 bits of a word. */
  function Low(x: bv64): bv64
  {
    x & 0xFFFF
  }

  /** Iterating two functions that agree on the low 16 bits keeps the low
      16 bits in step. */
  lemma {:induction false} IterateLow(f: bv64 -> bv64, g: bv64 -> bv64, x: bv64, n: nat)
    requires forall y :: Low(f(y)) == g(Low(y))
    ensures Low(Iterate(f, x, n)) == Iterate(g, Low(x), n)
    decreases n
  {
    if n > 0 {
      assert Low(f(x)) == g(Low(x));
      IterateLow(f, g, f(x), n - 1);
    }
  }

  lemma XorLow(x: bv64, c: bv64)
    requires c < 0x10000
    ensures Low(x ^ c) == Low(x) ^ c
  {
  }

  /** XORing a 16-bit value in and running rounds: the 64-bit and 16-bit
      registers agree on the low half. */
  lemma RoundsLow(x: bv64, c: bv64, n: nat)
    requires c < 0x10000
    ensures Low(Iterate(Round64, x ^ c, n)) == Iterate(Round, Low(x) ^ c, n)
  {
    XorLow(x, c);
    forall y ensures Low(Round64(y)) == Round(Low(y)) {
      RoundLow(y);
    }
    IterateLow(Round64, Round, x ^ c, n);
  }

  lemma MixLow(x: bv64, b: Byte)
    ensures Low(Iterate(Round64, x ^ Mix(b), ByteRounds)) == Iterate(Round, Low(x) ^ Mix(b), ByteRounds)
  {
    RoundsLow(x, Mix(b), ByteRounds);
  }

  /** Absorbing a byte: the 64-bit register's low half follows the 16-bit one. */
  lemma AbsorbLow(x: bv64, b: Byte)
    ensures Low(Absorb64(x, b)) == Absorb(Low(x), b)
  {
    MixLow(x, b);
  }

  lemma {:induction false} RegisterLow(bytes: seq<Byte>)
    ensures Low(Register64(bytes)) == Register(bytes)
  {
    if |bytes| > 0 {
      var p := bytes[..|bytes| - 1];
      var b := bytes[|bytes| - 1];
      assert Register64(bytes) == Absorb64(Register64(p), b);
      assert Register(bytes) == Absorb(Register(p), b);
      RegisterLow(p);
      AbsorbLow(Register64(p), b);
    }
  }

  lemma ComplementLow(x: bv64)
    ensures Complement(x) == Complement(Low(x))
  {
  }

  /** The 16-bit register computes the source's key: the 64-bit register's
      high bits never reach the masked result (with wrapping addition). */
  lemma KeyAgrees(bytes: seq<Byte>)
    ensures Key64(bytes) == Key(bytes)
  {
    RegisterLow(bytes);
    ComplementLow(Register64(bytes));
  }

  /** The two key bytes are the key's high and low halves. */
  lemma KeyBytes(k: bv64)
    requires k < 0x10000
    ensures KeyHi(k) * 256 + KeyLo(k) == k as int
  {
  }
}
