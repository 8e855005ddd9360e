/** The last stage of `gen_password_bytes`: the encrypted bit string cut
    into six-bit entries, a checksum entry after every nine entries, and
    each entry offset by its position modulo 64. */
module Framing {
  import opened Bits

  /** A six-bit password entry. */
  type Sym = x: int | 0 <= x < 64

  // ---------------------------------------------------------------------
  // Six-bit groups

  /** Number of entries cut from `n` bits: one for every started group of six. */
  function GroupCount(n: nat): (r: nat)
    ensures 6 * r >= n && 6 * r < n + 6
  {
    (n + 5) / 6
  }

  /** A value of `k` bits shifted left by `s` is its bits followed by `s` zeros. */
  lemma ShiftZeros(v: nat, k: nat, s: nat)
    requires v < Pow2(k)
    ensures ToBits(v * Pow2(s), k + s) == ToBits(v, k) + Zeros(s)
    ensures v * Pow2(s) < Pow2(k + s)
  {
    var a := ToBits(v, k);
    var t := a + Zeros(s);
    ToBitsValue(v, k);
    assert FromBits(a) == v by {
      DivModUnique(v, Pow2(k), 0, v);
    }
    FromBitsAppend(a, Zeros(s));
    FromBitsZeros(s);
    assert FromBits(t) == v * Pow2(s);
    FromBitsToBits(t);
  }

  /** Entry `j`: the six bits from bit `6 * j`.  A last group that runs past
      the end reads the bits that remain and shifts them left by the missing
      count, so zeros fill it up.  The source's guard `max <= len` sends a
      group ending exactly one bit past the end down the in-bounds branch,
      where it would read out of bounds; lengths that are 5 modulo 6 are
      therefore excluded (the encoder's 88, 328 and 1400 bits are not). */
  function GroupAt(bits: seq<Bit>, j: nat): Sym
    requires 6 * j < |bits| && |bits| % 6 != 5
  {
    var lo, max := 6 * j, 6 * j + 5;
    if max <= |bits| then
      Pow2Values6();
      SubBits(bits, lo, max)
    else
      var shift := max - |bits| + 1;
      var v := SubBits(bits, lo, |bits| - 1);
      ShiftZeros(v, |bits| - lo, shift);
      assert |bits| - lo + shift == 6;
      Pow2Values6();
      v * Pow2(shift)
  }

  lemma Pow2Values6()
    ensures Pow2(6) == 64
  {
  }

  /** An entry holds its six bits; the last, short one holds the remaining
      bits followed by zeros. */
  lemma GroupAtBits(bits: seq<Bit>, j: nat)
    requires 6 * j < |bits| && |bits| % 6 != 5
    ensures 6 * j + 6 <= |bits| ==> ToBits(GroupAt(bits, j), 6) == bits[6 * j .. 6 * j + 6]
    ensures |bits| < 6 * j + 6 ==> ToBits(GroupAt(bits, j), 6) == bits[6 * j ..] + Zeros(6 * j + 6 - |bits|)
  {
    if 6 * j + 6 <= |bits| {
      GroupAtFull(bits, j);
    } else {
      GroupAtShort(bits, j);
    }
  }

  lemma GroupAtFull(bits: seq<Bit>, j: nat)
    requires 6 * j + 6 <= |bits| && |bits| % 6 != 5
    ensures ToBits(GroupAt(bits, j), 6) == bits[6 * j .. 6 * j + 6]
  {
    assert 6 * j + 5 < |bits|;
    assert GroupAt(bits, j) == SubBits(bits, 6 * j, 6 * j + 5);
  }

  lemma GroupAtShort(bits: seq<Bit>, j: nat)
    requires 6 * j < |bits| < 6 * j + 6 && |bits| % 6 != 5
    ensures ToBits(GroupAt(bits, j), 6) == bits[6 * j ..] + Zeros(6 * j + 6 - |bits|)
  {
    var lo := 6 * j;
    var k, shift := |bits| - lo, lo + 6 - |bits|;
    var v := SubBits(bits, lo, |bits| - 1);
    ShortValue(bits, j);
    TailBits(bits, lo);
    ShiftZeros(v, k, shift);
  }

  /** The last, short entry is the remaining bits' value shifted left. */
  lemma ShortValue(bits: seq<Bit>, j: nat)
    requires 6 * j < |bits| < 6 * j + 6 && |bits| % 6 != 5
    ensures GroupAt(bits, j) == SubBits(bits, 6 * j, |bits| - 1) * Pow2(6 * j + 6 - |bits|)
  {
  }

  /** The bits from `lo` to the end read back from their value. */
  lemma TailBits(bits: seq<Bit>, lo: nat)
    requires lo < |bits| && |bits| - lo < 8
    ensures ToBits(SubBits(bits, lo, |bits| - 1), |bits| - lo) == bits[lo..]
  {
  }

  /** The entries of a bit string, in order. */
  function Groups(bits: seq<Bit>): (r: seq<Sym>)
    requires |bits| % 6 != 5
    ensures |r| == GroupCount(|bits|)
  {
    GroupsUpTo(bits, GroupCount(|bits|))
  }

  /** The first `n` entries, in the order the source pushes them. */
  function GroupsUpTo(bits: seq<Bit>, n: nat): (r: seq<Sym>)
    requires n <= GroupCount(|bits|) && |bits| % 6 != 5
    ensures |r| == n
  {
    if n == 0 then [] else GroupsUpTo(bits, n - 1) + [GroupAt(bits, n - 1)]
  }

  /** Entry `j` of the entries is `GroupAt(bits, j)`. */
  lemma {:induction false} GroupsUpToAt(bits: seq<Bit>, n: nat, j: nat)
    requires n <= GroupCount(|bits|) && |bits| % 6 != 5 && j < n
    ensures GroupsUpTo(bits, n)[j] == GroupAt(bits, j)
  {
    if j < n - 1 {
      GroupsUpToAt(bits, n - 1, j);
    }
  }

  lemma GroupsAt(bits: seq<Bit>, j: nat)
    requires |bits| % 6 != 5 && j < GroupCount(|bits|)
    ensures Groups(bits)[j] == GroupAt(bits, j)
  {
    GroupsUpToAt(bits, GroupCount(|bits|), j);
  }

  /** The bits of a sequence of entries, six per entry, concatenated. */
  function GroupBits(gs: seq<Sym>): (r: seq<Bit>)
    ensures |r| == 6 * |gs|
  {
    if |gs| == 0 then [] else GroupBits(gs[..|gs| - 1]) + ToBits(gs[|gs| - 1], 6)
  }

  /** Entry `j` occupies bits `6 * j .. 6 * j + 5` of the concatenation. */
  lemma {:induction false} GroupBitsAt(gs: seq<Sym>, j: nat)
    requires j < |gs|
    ensures GroupBits(gs)[6 * j .. 6 * j + 6] == ToBits(gs[j], 6)
  {
    var p := gs[..|gs| - 1];
    if j < |gs| - 1 {
      GroupBitsAt(p, j);
      PrefixSlice(GroupBits(gs), GroupBits(p), 6 * j, 6 * j + 6);
    } else {
      AppendSlices(GroupBits(p), ToBits(gs[j], 6));
    }
  }

  /** The inverse of `Groups`: the first `n` bits of the entries. */
  function Ungroup(gs: seq<Sym>, n: nat): (r: seq<Bit>)
    requires n <= 6 * |gs|
    ensures |r| == n
  {
    GroupBits(gs)[..n]
  }

  /** Bit `p` of the entries: a bit of the string, or a padding zero past its end. */
  lemma GroupsBitAt(bits: seq<Bit>, p: nat)
    requires |bits| % 6 != 5 && p < 6 * GroupCount(|bits|)
    ensures GroupBits(Groups(bits))[p] == (bits + Zeros(6 * GroupCount(|bits|) - |bits|))[p]
  {
    var gs := Groups(bits);
    var z := bits + Zeros(6 * GroupCount(|bits|) - |bits|);
    var j := p / 6;
    GroupsAt(bits, j);
    GroupBitsAt(gs, j);
    GroupAtBits(bits, j);
    assert GroupBits(gs)[p] == GroupBits(gs)[6 * j .. 6 * j + 6][p - 6 * j];
    if 6 * j + 6 <= |bits| {
      assert bits[6 * j .. 6 * j + 6][p - 6 * j] == bits[p];
    } else {
      var tail := bits[6 * j ..] + Zeros(6 * j + 6 - |bits|);
      assert tail[p - 6 * j] == z[p];
    }
  }

  /** The entries hold the bit string followed by zeros up to a multiple of six. */
  lemma GroupsBits(bits: seq<Bit>)
    requires |bits| % 6 != 5
    ensures GroupBits(Groups(bits)) == bits + Zeros(6 * GroupCount(|bits|) - |bits|)
  {
    var g := GroupBits(Groups(bits));
    var z := bits + Zeros(6 * GroupCount(|bits|) - |bits|);
    forall p | 0 <= p < |z|
      ensures g[p] == z[p]
    {
      GroupsBitAt(bits, p);
    }
    SameBits(g, z);
  }

  /** Ungrouping the entries of a bit string gives it back. */
  lemma UngroupGroups(bits: seq<Bit>)
    requires |bits| % 6 != 5
    ensures Ungroup(Groups(bits), |bits|) == bits
  {
    GroupsBits(bits);
  }

  // ---------------------------------------------------------------------
  // Checksums

  function Sum(s: seq<Sym>): nat
  {
    if |s| == 0 then 0 else Sum(s[..|s| - 1]) + s[|s| - 1]
  }

  /** Reference definition: after every complete run of nine entries, the sum
      of the run modulo 64; a shorter run at the end gets no checksum. */
  function Checksummed(es: seq<Sym>): (r: seq<Sym>)
    ensures |r| == |es| + |es| / 9
    decreases |es|
  {
    if |es| < 9 then es else es[..9] + [Sum(es[..9]) % 64] + Checksummed(es[9..])
  }

  /** Checksumming a run of at least nine: the run, its checksum, and the rest. */
  lemma ChecksummedStep(es: seq<Sym>)
    requires |es| >= 9
    ensures Checksummed(es)[..9] == es[..9]
    ensures Checksummed(es)[9] == Sum(es[..9]) % 64
    ensures Checksummed(es)[10..] == Checksummed(es[9..])
  {
    var head := es[..9] + [Sum(es[..9]) % 64];
    assert Checksummed(es) == head + Checksummed(es[9..]);
  }

  /** Entry `t` lands at position `t + t / 9`. */
  lemma {:induction false} ChecksummedEntry(es: seq<Sym>, t: nat)
    requires t < |es|
    ensures Checksummed(es)[t + t / 9] == es[t]
  {
    if t >= 9 {
      var u := t - 9;
      ChecksummedStep(es);
      ChecksummedEntry(es[9..], u);
      DivModUnique(t, 9, u / 9 + 1, u % 9);
      assert u + u / 9 + 10 == t + t / 9;
      assert Checksummed(es)[t + t / 9] == Checksummed(es[9..])[u + u / 9];
    } else if |es| >= 9 {
      ChecksummedStep(es);
      assert Checksummed(es)[..9][t] == es[..9][t];
    }
  }

  /** Position `10 * c + 9` holds the checksum of entries `9 * c .. 9 * c + 8`. */
  lemma {:induction false} ChecksummedSum(es: seq<Sym>, c: nat)
    requires c < |es| / 9
    ensures Checksummed(es)[10 * c + 9] == Sum(es[9 * c .. 9 * c + 9]) % 64
  {
    ChecksummedStep(es);
    var q, r := |es| / 9, |es| % 9;
    assert |es| == 9 * q + r;
    if c > 0 {
      var rest := es[9..];
      DivModUnique(|rest|, 9, q - 1, r);
      ChecksummedSum(rest, c - 1);
      assert Checksummed(es)[10 * c + 9] == Checksummed(rest)[10 * (c - 1) + 9];
      assert rest[9 * (c - 1) .. 9 * (c - 1) + 9] == es[9 * c .. 9 * c + 9];
    } else {
      assert es[0 .. 9] == es[..9];
    }
  }

  /** Checksumming splits at any multiple of nine. */
  lemma {:induction false} ChecksummedAppend(a: seq<Sym>, b: seq<Sym>)
    requires |a| % 9 == 0
    ensures Checksummed(a + b) == Checksummed(a) + Checksummed(b)
    decreases |a|
  {
    if |a| > 0 {
      var ab := a + b;
      assert ab[..9] == a[..9];
      assert ab[9..] == a[9..] + b;
      ChecksummedAppend(a[9..], b);
    } else {
      assert a + b == b;
    }
  }

  /** The inverse of `Checksummed`: every tenth entry dropped. */
  function Strip(r: seq<Sym>): (es: seq<Sym>)
    decreases |r|
  {
    if |r| <= 9 then r else r[..9] + Strip(r[10..])
  }

  /** Stripping the checksums gives the entries back. */
  lemma {:induction false} StripChecksummed(es: seq<Sym>)
    ensures Strip(Checksummed(es)) == es
    decreases |es|
  {
    if |es| >= 9 {
      var r := Checksummed(es);
      assert r[..9] == es[..9];
      assert r[10..] == Checksummed(es[9..]);
      StripChecksummed(es[9..]);
      assert es == es[..9] + es[9..];
    }
  }

  /** Every complete line of ten entries ends with the sum of its first nine
      modulo 64, and the sequence does not end with nine entries and no
      checksum. */
  predicate ValidChecksums(r: seq<Sym>)
  {
    && |r| % 10 != 9
    && forall c :: 0 <= c < |r| / 10 ==> r[10 * c + 9] == Sum(r[10 * c .. 10 * c + 9]) % 64
  }

  /** Two sequences of at least ten entries are equal exactly when their
      first nine, their tenth and their remainders are. */
  lemma SplitEq(a: seq<Sym>, b: seq<Sym>)
    requires |a| >= 10 && |b| >= 10
    ensures a == b <==> a[..9] == b[..9] && a[9] == b[9] && a[10..] == b[10..]
  {
    if a[..9] == b[..9] && a[9] == b[9] && a[10..] == b[10..] {
      assert a == a[..9] + [a[9]] + a[10..];
      assert b == b[..9] + [b[9]] + b[10..];
    }
  }

  /** Line `c + 1` of a sequence is line `c` of its remainder after ten. */
  lemma LineShift(r: seq<Sym>, c: nat)
    requires 10 * c + 20 <= |r|
    ensures r[10..][10 * c .. 10 * c + 9] == r[10 * (c + 1) .. 10 * (c + 1) + 9]
    ensures r[10..][10 * c + 9] == r[10 * (c + 1) + 9]
  {
  }

  /** Validity is the first line's checksum and validity of the rest. */
  lemma ValidStep(r: seq<Sym>)
    requires |r| >= 10
    ensures ValidChecksums(r) <==> r[9] == Sum(r[..9]) % 64 && ValidChecksums(r[10..])
  {
    var rest := r[10..];
    assert |r| % 10 == |rest| % 10;
    assert |r| / 10 == |rest| / 10 + 1;
    assert r[0 .. 9] == r[..9];
    if ValidChecksums(r) {
      assert r[10 * 0 + 9] == Sum(r[10 * 0 .. 10 * 0 + 9]) % 64;
      forall c | 0 <= c < |rest| / 10
        ensures rest[10 * c + 9] == Sum(rest[10 * c .. 10 * c + 9]) % 64
      {
        LineShift(r, c);
      }
    }
    if r[9] == Sum(r[..9]) % 64 && ValidChecksums(rest) {
      forall c | 0 <= c < |r| / 10
        ensures r[10 * c + 9] == Sum(r[10 * c .. 10 * c + 9]) % 64
      {
        if c > 0 {
          LineShift(r, c - 1);
        }
      }
    }
  }

  /** A sequence of entries carries valid checksums exactly when it is the
      checksummed form of its stripped entries. */
  lemma {:induction false} ValidChecksumsIff(r: seq<Sym>)
    ensures ValidChecksums(r) <==> Checksummed(Strip(r)) == r
    decreases |r|
  {
    if |r| >= 10 {
      var rest := r[10..];
      ValidChecksumsIff(rest);
      ValidStep(r);
      var s := Strip(r);
      assert s == r[..9] + Strip(rest);
      assert s[..9] == r[..9] && s[9..] == Strip(rest);
      ChecksummedStep(s);
      SplitEq(Checksummed(s), r);
    } else if |r| == 9 {
      assert Checksummed(Strip(r)) != r by {
        assert |Checksummed(Strip(r))| == 10;
      }
    } else {
      assert Strip(r) == r;
    }
  }

  // ---------------------------------------------------------------------
  // The source's loop: entries and checksums together

  /** Extending a run by one entry adds it to the run's sum. */
  lemma SumStep(gs: seq<Sym>, a: nat, k: nat)
    requires a <= k < |gs|
    ensures gs[a .. k + 1] == gs[a .. k] + [gs[k]]
    ensures Sum(gs[a .. k + 1]) == Sum(gs[a .. k]) + gs[k]
  {
    assert gs[a .. k + 1][..k - a] == gs[a .. k];
  }

  /** Pushing an entry extends the open run. */
  lemma FrameEntry(gs: seq<Sym>, a: nat, k: nat, out: seq<Sym>, acc: nat, e: Sym)
    requires a <= k < |gs| && e == gs[k]
    requires out == Checksummed(gs[..a]) + gs[a .. k] && acc == Sum(gs[a .. k])
    ensures out + [e] == Checksummed(gs[..a]) + gs[a .. k + 1]
    ensures acc + e == Sum(gs[a .. k + 1])
  {
    SumStep(gs, a, k);
  }

  /** Pushing the checksum after the ninth entry of a run closes the line. */
  lemma FrameLine(gs: seq<Sym>, a: nat, k: nat, out: seq<Sym>, acc: nat)
    requires a % 9 == 0 && k == a + 9 <= |gs|
    requires out == Checksummed(gs[..a]) + gs[a .. k] && acc == Sum(gs[a .. k])
    ensures out + [acc % 64] == Checksummed(gs[..k]) + gs[k .. k]
    ensures Sum(gs[k .. k]) == 0
  {
    assert gs[k .. k] == [];
    var line := gs[a .. k];
    assert Checksummed(line) == line + [Sum(line) % 64] by {
      assert line[..9] == line && line[9..] == [];
    }
    assert gs[..k] == gs[..a] + line;
    ChecksummedAppend(gs[..a], line);
  }

  /** The output length modulo 10 tells how far the open run has got. */
  lemma LineMod(lines: nat, r: nat)
    requires r < 10
    ensures (10 * lines + r) % 10 == r
  {
  }

  /** The state of the source's loop after `k` entries: `lines` closed
      lines of nine entries and their checksums, then the open run from
      entry `a`, whose sum is `acc`. */
  predicate FrameInv(gs: seq<Sym>, a: nat, k: nat, out: seq<Sym>, acc: nat, lines: nat)
  {
    && a == 9 * lines && a % 9 == 0 && a <= k <= |gs| && k < a + 9
    && out == Checksummed(gs[..a]) + gs[a .. k]
    && acc == Sum(gs[a .. k])
  }

  /** After the last entry, the output is the checksummed entries. */
  lemma FrameDone(gs: seq<Sym>, a: nat, out: seq<Sym>, acc: nat, lines: nat)
    requires FrameInv(gs, a, |gs|, out, acc, lines)
    ensures out == Checksummed(gs)
  {
    var done, run := gs[..a], gs[a..];
    assert gs[a .. |gs|] == run;
    SplitAt(gs, a);
    assert Checksummed(run) == run;
    ChecksummedAppend(done, run);
  }

  /** A sequence is its part before `a` followed by its part from `a`. */
  lemma SplitAt(s: seq<Sym>, a: nat)
    requires a <= |s|
    ensures s[..a] + s[a..] == s
  {
  }

  /** One turn of the loop: push the entry and add it to the sum; when the
      output length is then 9 modulo 10 the run is complete, and pushing
      the sum modulo 64 closes the line.  The loop state after the turn is
      `a'`, `out'`, `acc'`, `lines'`. */
  lemma FrameStep(gs: seq<Sym>, a: nat, k: nat, out: seq<Sym>, acc: nat, lines: nat,
                  a': nat, out': seq<Sym>, acc': nat, lines': nat)
    requires FrameInv(gs, a, k, out, acc, lines) && k < |gs|
    requires (|out| + 1) % 10 == 9 ==>
      a' == k + 1 && lines' == lines + 1 && acc' == 0
      && out' == out + [gs[k]] + [(acc + gs[k]) % 64]
    requires (|out| + 1) % 10 != 9 ==>
      a' == a && lines' == lines && acc' == acc + gs[k] && out' == out + [gs[k]]
    ensures FrameInv(gs, a', k + 1, out', acc', lines')
  {
    FrameEntry(gs, a, k, out, acc, gs[k]);
    DivModUnique(a, 9, lines, 0);
    assert |Checksummed(gs[..a])| == 10 * lines;
    LineMod(lines, k + 1 - a);
    if k + 1 == a + 9 {
      DivModUnique(k + 1, 9, lines + 1, 0);
      FrameLine(gs, a, k + 1, out + [gs[k]], acc + gs[k]);
    }
  }

  /** `sub_bits` on the next six bits: entry `k` of the entries. */
  method ReadEntry(bits: seq<Bit>, k: nat) returns (e: Sym)
    requires |bits| % 6 != 5 && k < GroupCount(|bits|)
    ensures e == Groups(bits)[k]
  {
    e := GroupAt(bits, k);
    GroupsAt(bits, k);
  }

  /** One turn of the source's loop: read entry `k`, push it and add it to
      the sum; when the output length is then 9 modulo 10, push the sum
      modulo 64 and reset it. */
  method FrameTurn(bits: seq<Bit>, ghost gs: seq<Sym>, k: nat, out: seq<Sym>, acc: nat,
                   ghost a: nat, ghost lines: nat)
    returns (out': seq<Sym>, acc': nat, ghost a': nat, ghost lines': nat)
    requires |bits| % 6 != 5 && gs == Groups(bits)
    requires FrameInv(gs, a, k, out, acc, lines) && k < |gs|
    ensures FrameInv(gs, a', k + 1, out', acc', lines')
  {
    var entry := ReadEntry(bits, k);
    out' := out + [entry];
    acc' := acc + entry;
    a', lines' := a, lines;
    if |out'| % 10 == 9 {
      var check: Sym := acc' % 64;
      out' := out' + [check];
      acc' := 0;
      lines', a' := lines + 1, k + 1;
    }
    FrameStep(gs, a, k, out, acc, lines, a', out', acc', lines');
  }

  /** Cut a bit string into entries and insert the checksums, as the source
      does in one pass: after each pushed entry the running sum grows, and
      when the output length is 9 modulo 10 the sum modulo 64 is pushed and
      the sum reset. */
  method Frame(bits: seq<Bit>) returns (out: seq<Sym>)
    requires |bits| % 6 != 5
    ensures out == Checksummed(Groups(bits))
  {
    ghost var gs := Groups(bits);
    var count := GroupCount(|bits|);
    out := [];
    var acc: nat := 0;
    var k := 0;
    ghost var lines: nat, a: nat := 0, 0;
    while k < count
      invariant count == |gs|
      invariant FrameInv(gs, a, k, out, acc, lines)
    {
      out, acc, a, lines := FrameTurn(bits, gs, k, out, acc, a, lines);
      k := k + 1;
    }
    FrameDone(gs, a, out, acc, lines);
  }

  // ---------------------------------------------------------------------
  // Scrambling

  /** Entry `i` offset by `i`, modulo 64. */
  function Scramble(es: seq<Sym>): (r: seq<Sym>)
    ensures |r| == |es|
    ensures forall i :: 0 <= i < |es| ==> (r[i] - es[i] - i) % 64 == 0
  {
    seq(|es|, i requires 0 <= i < |es| => (es[i] + i) % 64)
  }

  /** The inverse of `Scramble`: entry `i` offset back by `i`, modulo 64. */
  function Unscramble(es: seq<Sym>): (r: seq<Sym>)
    ensures |r| == |es|
    ensures forall i :: 0 <= i < |es| ==> (r[i] + i - es[i]) % 64 == 0
  {
    seq(|es|, i requires 0 <= i < |es| => (es[i] - i) % 64)
  }

  lemma UnscrambleScramble(es: seq<Sym>)
    ensures Unscramble(Scramble(es)) == es
  {
    var r := Unscramble(Scramble(es));
    forall i | 0 <= i < |es|
      ensures r[i] == es[i]
    {
      ModCancel(es[i], i);
    }
  }

  lemma ScrambleUnscramble(es: seq<Sym>)
    ensures Scramble(Unscramble(es)) == es
  {
    var r := Scramble(Unscramble(es));
    forall i | 0 <= i < |es|
      ensures r[i] == es[i]
    {
      ModCancel(es[i], -i);
    }
  }

  /** Adding and then subtracting `i` modulo 64 restores an entry. */
  lemma ModCancel(x: Sym, i: int)
    ensures ((x + i) % 64 - i) % 64 == x
  {
    var q := (x + i) / 64;
    assert (x + i) % 64 - i == x - 64 * q;
    DivModUnique(x - 64 * q, 64, -q, x);
  }

  /** The framing round trip: unscrambling a framed bit string gives entries
      with valid checksums, and stripping and regrouping them gives the bit
      string back. */
  lemma FramedRoundTrip(bits: seq<Bit>)
    requires |bits| % 6 != 5
    ensures var es := Unscramble(Scramble(Checksummed(Groups(bits))));
      && ValidChecksums(es) && Strip(es) == Groups(bits)
      && Ungroup(Strip(es), |bits|) == bits
  {
    var gs := Groups(bits);
    var es := Checksummed(gs);
    UnscrambleScramble(es);
    StripChecksummed(gs);
    ValidChecksumsIff(es);
    UngroupGroups(bits);
  }
}
