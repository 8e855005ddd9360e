/** The cheat file: the password bytes as raw memory writes into the
    password input buffer, a two-byte write first, then four-byte writes,
    then a two-byte write and, for an odd length, a one-byte write.  Each
    write stores its value little-endian at its address, so applying the
    writes in order puts the password into the buffer byte for byte. */
module Cheat {
  import opened Bits
  import opened Enums

  /** One cheat line: store `value` in `width` bytes at `address`. */
  datatype Code = Code(address: nat, value: nat, width: nat)

  /** The `n` little-endian bytes of `value`, least significant first. */
  function LeBytes(value: nat, n: nat): (r: seq<Byte>)
    ensures |r| == n
  {
    if n == 0 then [] else [value % 256] + LeBytes(value / 256, n - 1)
  }

  /** Number of values `n` bytes can hold. */
  function Capacity(n: nat): (r: nat)
    ensures r > 0
  {
    if n == 0 then 1 else 256 * Capacity(n - 1)
  }

  /** `u16::from_le_bytes`. */
  function U16(a: Byte, b: Byte): nat
  {
    a + 256 * b
  }

  /** `u32::from_le_bytes`. */
  function U32(a: Byte, b: Byte, c: Byte, d: Byte): nat
  {
    a + 256 * (b + 256 * (c + 256 * d))
  }

  /** Writing a `u16` back out gives the two bytes it was read from, and it
      fits its four hex digits. */
  lemma U16Bytes(a: Byte, b: Byte)
    ensures LeBytes(U16(a, b), 2) == [a, b]
    ensures U16(a, b) < Capacity(2)
  {
    DivModUnique(U16(a, b), 256, b, a);
    DivModUnique(b, 256, 0, b);
  }

  /** Writing a `u32` back out gives the four bytes it was read from, and it
      fits its eight hex digits. */
  lemma U32Bytes(a: Byte, b: Byte, c: Byte, d: Byte)
    ensures LeBytes(U32(a, b, c, d), 4) == [a, b, c, d]
    ensures U32(a, b, c, d) < Capacity(4)
  {
    var x2 := c + 256 * d;
    var x1 := b + 256 * x2;
    DivModUnique(U32(a, b, c, d), 256, x1, a);
    DivModUnique(x1, 256, x2, b);
    DivModUnique(x2, 256, d, c);
    DivModUnique(d, 256, 0, d);
    assert LeBytes(d, 1) == [d];
    assert LeBytes(x2, 2) == [c] + LeBytes(d, 1);
    assert LeBytes(x1, 3) == [b] + LeBytes(x2, 2);
    assert x2 < 0x1_0000;
    assert x1 < 0x100_0000;
  }

  /** A single byte written out is itself. */
  lemma U8Bytes(a: Byte)
    ensures LeBytes(a, 1) == [a]
    ensures a < Capacity(1)
  {
    DivModUnique(a, 256, 0, a);
  }

  /** The bytes one code writes. */
  function CodeBytes(c: Code): seq<Byte>
  {
    LeBytes(c.value, c.width)
  }

  /** The bytes a run of codes writes, in order. */
  function Written(cs: seq<Code>): (r: seq<Byte>)
  {
    if |cs| == 0 then [] else Written(cs[..|cs| - 1]) + CodeBytes(cs[|cs| - 1])
  }

  /** Each code's address is the base plus the number of bytes written
      before it, so the writes land side by side. */
  predicate Contiguous(cs: seq<Code>, base: nat)
  {
    |cs| == 0 ||
    (Contiguous(cs[..|cs| - 1], base) && cs[|cs| - 1].address == base + |Written(cs[..|cs| - 1])|)
  }

  /** Each code's value fits its width, so its hex field and its memory
      write lose nothing. */
  predicate Fits(c: Code)
  {
    c.value < Capacity(c.width)
  }

  /** Lengths the chunking handles: two bytes alone, or a two-byte head,
      at least one four-byte write and a tail of two or three bytes.  Any
      other length makes the loop read past the end of the password. */
  predicate CheatSizeOk(n: nat)
  {
    n == 2 || (n >= 6 && n % 4 <= 1)
  }

  /** For a chunkable length beyond the head alone: at least one four-byte
      write, and the head, the four-byte writes and the tail of two bytes
      (three for an odd length) add up to the length. */
  lemma ChunkArith(n: nat)
    requires CheatSizeOk(n) && n != 2
    ensures (n - 2) / 4 >= 1
    ensures 2 + 4 * ((n - 2) / 4) + 2 + n % 2 == n
  {
    var q, m := n / 4, n % 4;
    DivModUnique(n - 2, 4, q - 1, m + 2);
    DivModUnique(n, 2, 2 * q, m);
  }

  /** Every password length of every grade can be chunked. */
  lemma PasswordLengthsChunk(g: Grade)
    ensures CheatSizeOk(PasswordLength(g))
  {
  }

  /** `k` four-byte widths. */
  function Fours(k: nat): (r: seq<nat>)
    ensures |r| == k
  {
    if k == 0 then [] else Fours(k - 1) + [4]
  }

  /** The widths of the writes for a password of `n` bytes: a two-byte
      head, `(n - 2) / 4` four-byte writes, a two-byte write and a one-byte
      write when `n` is odd. */
  function ChunkWidths(n: nat): (r: seq<nat>)
    requires CheatSizeOk(n)
  {
    if n == 2 then [2]
    else [2] + Fours((n - 2) / 4) + [2] + (if n % 2 == 1 then [1] else [])
  }

  /** The widths of a run of codes, in order. */
  function WidthsOf(cs: seq<Code>): (r: seq<nat>)
    ensures |r| == |cs|
  {
    if |cs| == 0 then [] else WidthsOf(cs[..|cs| - 1]) + [cs[|cs| - 1].width]
  }

  /** Every code of a run fits its width. */
  predicate AllFit(cs: seq<Code>)
  {
    |cs| == 0 || (AllFit(cs[..|cs| - 1]) && Fits(cs[|cs| - 1]))
  }

  /** `AllFit` is the code-by-code statement. */
  lemma {:induction false} AllFitEach(cs: seq<Code>)
    ensures AllFit(cs) <==> forall j :: 0 <= j < |cs| ==> Fits(cs[j])
    decreases |cs|
  {
    if |cs| > 0 {
      var p := cs[..|cs| - 1];
      AllFitEach(p);
      assert forall j :: 0 <= j < |p| ==> p[j] == cs[j];
    }
  }

  /** Adding one code adds its bytes at the end. */
  lemma SnocWritten(cs: seq<Code>, c: Code)
    ensures Written(cs + [c]) == Written(cs) + CodeBytes(c)
  {
    assert (cs + [c])[..|cs|] == cs;
  }

  /** Adding one code at the next address keeps the run contiguous. */
  lemma SnocContiguous(cs: seq<Code>, c: Code, base: nat)
    requires Contiguous(cs, base) && c.address == base + |Written(cs)|
    ensures Contiguous(cs + [c], base)
  {
    assert (cs + [c])[..|cs|] == cs;
  }

  /** Adding one fitting code keeps every value fitting. */
  lemma SnocFit(cs: seq<Code>, c: Code)
    requires AllFit(cs) && Fits(c)
    ensures AllFit(cs + [c])
  {
    assert (cs + [c])[..|cs|] == cs;
  }

  /** Adding one code adds its width at the end. */
  lemma SnocWidths(cs: seq<Code>, c: Code)
    ensures WidthsOf(cs + [c]) == WidthsOf(cs) + [c.width]
  {
    assert (cs + [c])[..|cs|] == cs;
  }

  /** Reading on from position `i` by four, two or one bytes. */
  lemma ReadOn4(s: seq<Byte>, i: nat)
    requires i + 4 <= |s|
    ensures s[..i + 4] == s[..i] + [s[i], s[i + 1], s[i + 2], s[i + 3]]
  {
  }

  lemma ReadOn2(s: seq<Byte>, i: nat)
    requires i + 2 <= |s|
    ensures s[..i + 2] == s[..i] + [s[i], s[i + 1]]
  {
  }

  lemma ReadOn1(s: seq<Byte>, i: nat)
    requires i + 1 <= |s|
    ensures s[..i + 1] == s[..i] + [s[i]]
  {
  }

  /** The head write: the first two bytes at the base address. */
  function Head(bytes: seq<Byte>, base: nat): Code
    requires |bytes| >= 2
  {
    Code(base, U16(bytes[0], bytes[1]), 2)
  }

  /** The `k`-th four-byte write (counting from one). */
  function Word(bytes: seq<Byte>, base: nat, k: nat): Code
    requires 1 <= k && 2 + 4 * k <= |bytes|
  {
    var i := 2 + 4 * (k - 1);
    Code(base + i, U32(bytes[i], bytes[i + 1], bytes[i + 2], bytes[i + 3]), 4)
  }

  /** The first `k` four-byte writes, from byte 2 and address `base + 2`. */
  function Words(bytes: seq<Byte>, base: nat, k: nat): (r: seq<Code>)
    requires 2 + 4 * k <= |bytes|
    ensures |r| == k
  {
    if k == 0 then []
    else
      var i := 2 + 4 * (k - 1);
      Words(bytes, base, k - 1) + [Code(base + i, U32(bytes[i], bytes[i + 1], bytes[i + 2], bytes[i + 3]), 4)]
  }

  /** The tail writes after `k` four-byte writes: two bytes, and the last
      byte alone when the length is odd. */
  function Tail(bytes: seq<Byte>, base: nat, k: nat): (r: seq<Code>)
    requires 2 + 4 * k + 2 + |bytes| % 2 == |bytes|
  {
    var i := 2 + 4 * k;
    [Code(base + i, U16(bytes[i], bytes[i + 1]), 2)]
      + (if |bytes| % 2 == 1 then [Code(base + i + 2, bytes[i + 2], 1)] else [])
  }

  /** The writes for a whole password: the head, the four-byte writes and
      the tail, with the tail left out when the password is two bytes. */
  function Chunked(bytes: seq<Byte>, base: nat): (r: seq<Code>)
    requires CheatSizeOk(|bytes|)
  {
    if |bytes| == 2 then Prefix(bytes, base, 0)
    else
      ChunkArith(|bytes|);
      Prefix(bytes, base, (|bytes| - 2) / 4) + Tail(bytes, base, (|bytes| - 2) / 4)
  }

  /** The head and the first `k` four-byte writes, as one run. */
  function Prefix(bytes: seq<Byte>, base: nat, k: nat): (r: seq<Code>)
    requires 2 + 4 * k <= |bytes|
  {
    [Head(bytes, base)] + Words(bytes, base, k)
  }

  /** One more four-byte write extends the run by it. */
  lemma PrefixSnoc(bytes: seq<Byte>, base: nat, k: nat)
    requires 1 <= k && 2 + 4 * k <= |bytes|
    ensures Prefix(bytes, base, k) == Prefix(bytes, base, k - 1) + [Word(bytes, base, k)]
  {
    assert [Head(bytes, base)] + Words(bytes, base, k)
      == [Head(bytes, base)] + Words(bytes, base, k - 1) + [Word(bytes, base, k)];
  }

  /** The run of the head alone. */
  lemma PrefixZero(bytes: seq<Byte>, base: nat)
    requires 2 <= |bytes|
    ensures Prefix(bytes, base, 0) == [] + [Head(bytes, base)]
  {
  }

  /** The head and the first `k` four-byte writes give the first `2 + 4k`
      bytes back. */
  lemma {:induction false} PrefixWritten(bytes: seq<Byte>, base: nat, k: nat)
    requires 2 + 4 * k <= |bytes|
    ensures Written(Prefix(bytes, base, k)) == bytes[..2 + 4 * k]
  {
    if k == 0 {
      PrefixZero(bytes, base);
      U16Bytes(bytes[0], bytes[1]);
      SnocWritten([], Head(bytes, base));
      ReadOn2(bytes, 0);
    } else {
      PrefixWritten(bytes, base, k - 1);
      PrefixWrittenStep(bytes, base, k);
    }
  }

  /** One more four-byte write writes the next four bytes. */
  lemma PrefixWrittenStep(bytes: seq<Byte>, base: nat, k: nat)
    requires 1 <= k && 2 + 4 * k <= |bytes|
    requires Written(Prefix(bytes, base, k - 1)) == bytes[..2 + 4 * (k - 1)]
    ensures Written(Prefix(bytes, base, k)) == bytes[..2 + 4 * k]
  {
    PrefixSnoc(bytes, base, k);
    var i := 2 + 4 * (k - 1);
    var w := Word(bytes, base, k);
    var p := Prefix(bytes, base, k - 1);
    U32Bytes(bytes[i], bytes[i + 1], bytes[i + 2], bytes[i + 3]);
    assert CodeBytes(w) == [bytes[i], bytes[i + 1], bytes[i + 2], bytes[i + 3]];
    SnocWritten(p, w);
    ReadOn4(bytes, i);
    assert 2 + 4 * k == i + 4;
  }

  /** The head and the four-byte writes sit side by side from the base. */
  lemma {:induction false} PrefixContiguous(bytes: seq<Byte>, base: nat, k: nat)
    requires 2 + 4 * k <= |bytes|
    ensures Contiguous(Prefix(bytes, base, k), base)
  {
    if k == 0 {
      PrefixZero(bytes, base);
      SnocContiguous([], Head(bytes, base), base);
    } else {
      PrefixSnoc(bytes, base, k);
      PrefixContiguous(bytes, base, k - 1);
      PrefixWritten(bytes, base, k - 1);
      SnocContiguous(Prefix(bytes, base, k - 1), Word(bytes, base, k), base);
    }
  }

  /** Every value of the head and the four-byte writes fits its width. */
  lemma {:induction false} PrefixFit(bytes: seq<Byte>, base: nat, k: nat)
    requires 2 + 4 * k <= |bytes|
    ensures AllFit(Prefix(bytes, base, k))
  {
    if k == 0 {
      PrefixZero(bytes, base);
      U16Bytes(bytes[0], bytes[1]);
      SnocFit([], Head(bytes, base));
    } else {
      PrefixSnoc(bytes, base, k);
      PrefixFit(bytes, base, k - 1);
      var i := 2 + 4 * (k - 1);
      U32Bytes(bytes[i], bytes[i + 1], bytes[i + 2], bytes[i + 3]);
      SnocFit(Prefix(bytes, base, k - 1), Word(bytes, base, k));
    }
  }

  /** The head is two bytes wide and the `k` writes after it four. */
  lemma {:induction false} PrefixWidths(bytes: seq<Byte>, base: nat, k: nat)
    requires 2 + 4 * k <= |bytes|
    ensures WidthsOf(Prefix(bytes, base, k)) == [2] + Fours(k)
  {
    if k == 0 {
      PrefixZero(bytes, base);
      SnocWidths([], Head(bytes, base));
    } else {
      PrefixSnoc(bytes, base, k);
      PrefixWidths(bytes, base, k - 1);
      SnocWidths(Prefix(bytes, base, k - 1), Word(bytes, base, k));
      assert [2] + Fours(k - 1) + [4] == [2] + Fours(k);
    }
  }

  /** A run of codes followed by another writes the bytes of the first and
      then those of the second. */
  lemma {:induction false} WrittenAppend(cs: seq<Code>, ds: seq<Code>)
    ensures Written(cs + ds) == Written(cs) + Written(ds)
    decreases |ds|
  {
    if |ds| == 0 {
      assert cs + ds == cs;
    } else {
      var front, last := ds[..|ds| - 1], ds[|ds| - 1];
      assert ds == front + [last];
      WrittenAppend(cs, front);
      WrittenAppendStep(cs, front, last);
    }
  }

  /** One more code at the end of the second run. */
  lemma WrittenAppendStep(cs: seq<Code>, front: seq<Code>, last: Code)
    requires Written(cs + front) == Written(cs) + Written(front)
    ensures Written(cs + (front + [last])) == Written(cs) + Written(front + [last])
  {
    var x := cs + front;
    assert cs + (front + [last]) == x + [last];
    SnocWritten(x, last);
    SnocWritten(front, last);
    Associative(Written(cs), Written(front), CodeBytes(last));
  }

  lemma Associative(a: seq<Byte>, b: seq<Byte>, c: seq<Byte>)
    ensures (a + b) + c == a + (b + c)
  {
  }


  /** Two contiguous runs, the second starting where the first ends, make
      one contiguous run. */
  lemma {:induction false} ContiguousAppend(cs: seq<Code>, ds: seq<Code>, base: nat)
    requires Contiguous(cs, base) && Contiguous(ds, base + |Written(cs)|)
    ensures Contiguous(cs + ds, base)
    decreases |ds|
  {
    if |ds| == 0 {
      assert cs + ds == cs;
    } else {
      var front, last := ds[..|ds| - 1], ds[|ds| - 1];
      ContiguousAppend(cs, front, base);
      WrittenAppend(cs, front);
      assert cs + ds == (cs + front) + [last];
      SnocContiguous(cs + front, last, base);
    }
  }

  /** Two runs whose values fit make one whose values fit. */
  lemma {:induction false} AllFitAppend(cs: seq<Code>, ds: seq<Code>)
    requires AllFit(cs) && AllFit(ds)
    ensures AllFit(cs + ds)
    decreases |ds|
  {
    if |ds| == 0 {
      assert cs + ds == cs;
    } else {
      var front, last := ds[..|ds| - 1], ds[|ds| - 1];
      AllFitAppend(cs, front);
      assert cs + ds == (cs + front) + [last];
      SnocFit(cs + front, last);
    }
  }

  /** The widths of two runs, one after the other. */
  lemma {:induction false} WidthsAppend(cs: seq<Code>, ds: seq<Code>)
    ensures WidthsOf(cs + ds) == WidthsOf(cs) + WidthsOf(ds)
    decreases |ds|
  {
    if |ds| == 0 {
      assert cs + ds == cs;
    } else {
      var front, last := ds[..|ds| - 1], ds[|ds| - 1];
      WidthsAppend(cs, front);
      assert cs + ds == (cs + front) + [last];
      SnocWidths(cs + front, last);
    }
  }

  /** The tail as one or two codes. */
  lemma TailCodes(bytes: seq<Byte>, base: nat, k: nat)
    requires 2 + 4 * k + 2 + |bytes| % 2 == |bytes|
    ensures var i := 2 + 4 * k;
      var c2 := Code(base + i, U16(bytes[i], bytes[i + 1]), 2);
      Tail(bytes, base, k) == if |bytes| % 2 == 1 then [c2] + [Code(base + i + 2, bytes[i + 2], 1)] else [] + [c2]
  {
  }

  /** The tail writes the rest of the password. */
  lemma TailWritten(bytes: seq<Byte>, base: nat, k: nat)
    requires 2 + 4 * k + 2 + |bytes| % 2 == |bytes|
    ensures Written(Tail(bytes, base, k)) == bytes[2 + 4 * k..]
  {
    var i := 2 + 4 * k;
    var c2 := Code(base + i, U16(bytes[i], bytes[i + 1]), 2);
    TailCodes(bytes, base, k);
    U16Bytes(bytes[i], bytes[i + 1]);
    SnocWritten([], c2);
    if |bytes| % 2 == 1 {
      var c1 := Code(base + i + 2, bytes[i + 2], 1);
      U8Bytes(bytes[i + 2]);
      SnocWritten([c2], c1);
      assert bytes[i..] == [bytes[i], bytes[i + 1]] + [bytes[i + 2]];
    } else {
      assert bytes[i..] == [bytes[i], bytes[i + 1]];
    }
  }

  /** The tail writes sit side by side from where the four-byte writes
      stopped. */
  lemma TailContiguous(bytes: seq<Byte>, base: nat, k: nat)
    requires 2 + 4 * k + 2 + |bytes| % 2 == |bytes|
    ensures Contiguous(Tail(bytes, base, k), base + 2 + 4 * k)
  {
    var i := 2 + 4 * k;
    var c2 := Code(base + i, U16(bytes[i], bytes[i + 1]), 2);
    TailCodes(bytes, base, k);
    if |bytes| % 2 == 1 {
      var c1 := Code(base + i + 2, bytes[i + 2], 1);
      ContiguousPair(c2, c1, base + i);
    } else {
      ContiguousPair(c2, c2, base + i);
    }
  }

  /** A two-byte write, optionally followed by one at the next address. */
  lemma ContiguousPair(c: Code, d: Code, start: nat)
    requires c.address == start && c.width == 2
    ensures Contiguous([] + [c], start)
    ensures d.address == start + 2 ==> Contiguous([c] + [d], start)
  {
    SnocContiguous([], c, start);
    if d.address == start + 2 {
      SnocWritten([], c);
      assert [] + [c] == [c];
      SnocContiguous([c], d, start);
    }
  }

  /** The tail values fit their widths. */
  lemma TailFit(bytes: seq<Byte>, base: nat, k: nat)
    requires 2 + 4 * k + 2 + |bytes| % 2 == |bytes|
    ensures AllFit(Tail(bytes, base, k))
  {
    var i := 2 + 4 * k;
    var c2 := Code(base + i, U16(bytes[i], bytes[i + 1]), 2);
    TailCodes(bytes, base, k);
    U16Bytes(bytes[i], bytes[i + 1]);
    SnocFit([], c2);
    if |bytes| % 2 == 1 {
      var c1 := Code(base + i + 2, bytes[i + 2], 1);
      U8Bytes(bytes[i + 2]);
      SnocFit([c2], c1);
    }
  }

  /** The tail is two bytes wide and, for an odd length, one more byte. */
  lemma TailWidths(bytes: seq<Byte>, base: nat, k: nat)
    requires 2 + 4 * k + 2 + |bytes| % 2 == |bytes|
    ensures WidthsOf(Tail(bytes, base, k)) == [2] + (if |bytes| % 2 == 1 then [1] else [])
  {
    var i := 2 + 4 * k;
    var c2 := Code(base + i, U16(bytes[i], bytes[i + 1]), 2);
    TailCodes(bytes, base, k);
    SnocWidths([], c2);
    if |bytes| % 2 == 1 {
      var c1 := Code(base + i + 2, bytes[i + 2], 1);
      SnocWidths([c2], c1);
    }
  }

  /** Beyond the head alone, the writes are the head, the four-byte writes
      and the tail. */
  lemma ChunkedParts(bytes: seq<Byte>, base: nat, k: nat)
    requires CheatSizeOk(|bytes|) && |bytes| != 2 && k == (|bytes| - 2) / 4
    ensures 2 + 4 * k + 2 + |bytes| % 2 == |bytes|
    ensures Chunked(bytes, base) == Prefix(bytes, base, k) + Tail(bytes, base, k)
  {
    ChunkArith(|bytes|);
  }

  /** Applied in order, the writes for a whole password give it back. */
  lemma ChunkedWritten(bytes: seq<Byte>, base: nat)
    requires CheatSizeOk(|bytes|)
    ensures Written(Chunked(bytes, base)) == bytes
  {
    if |bytes| == 2 {
      PrefixWritten(bytes, base, 0);
      assert bytes[..2] == bytes;
    } else {
      var k := (|bytes| - 2) / 4;
      ChunkedParts(bytes, base, k);
      PrefixWritten(bytes, base, k);
      TailWritten(bytes, base, k);
      WrittenAppend(Prefix(bytes, base, k), Tail(bytes, base, k));
      assert bytes[..2 + 4 * k] + bytes[2 + 4 * k..] == bytes;
    }
  }

  /** The writes for a whole password sit side by side from the base. */
  lemma ChunkedContiguous(bytes: seq<Byte>, base: nat)
    requires CheatSizeOk(|bytes|)
    ensures Contiguous(Chunked(bytes, base), base)
  {
    if |bytes| == 2 {
      PrefixContiguous(bytes, base, 0);
    } else {
      var k := (|bytes| - 2) / 4;
      ChunkedParts(bytes, base, k);
      PrefixWritten(bytes, base, k);
      PrefixContiguous(bytes, base, k);
      TailContiguous(bytes, base, k);
      ContiguousAppend(Prefix(bytes, base, k), Tail(bytes, base, k), base);
    }
  }

  /** Every value of the writes for a whole password fits its width. */
  lemma ChunkedFit(bytes: seq<Byte>, base: nat)
    requires CheatSizeOk(|bytes|)
    ensures AllFit(Chunked(bytes, base))
  {
    if |bytes| == 2 {
      PrefixFit(bytes, base, 0);
    } else {
      var k := (|bytes| - 2) / 4;
      ChunkedParts(bytes, base, k);
      PrefixFit(bytes, base, k);
      TailFit(bytes, base, k);
      AllFitAppend(Prefix(bytes, base, k), Tail(bytes, base, k));
    }
  }

  /** The widths of the writes for a whole password follow the chunking
      pattern. */
  lemma ChunkedWidths(bytes: seq<Byte>, base: nat)
    requires CheatSizeOk(|bytes|)
    ensures WidthsOf(Chunked(bytes, base)) == ChunkWidths(|bytes|)
  {
    if |bytes| == 2 {
      PrefixWidths(bytes, base, 0);
    } else {
      var k := (|bytes| - 2) / 4;
      ChunkedParts(bytes, base, k);
      PrefixWidths(bytes, base, k);
      TailWidths(bytes, base, k);
      WidthsAppend(Prefix(bytes, base, k), Tail(bytes, base, k));
    }
  }

  /** The closing writes once the four-byte words are done: a two-byte
      write, then a one-byte write when the size is odd. */
  method CheatTail(bytes: seq<Byte>, base: nat, k: nat, address: nat) returns (tail: seq<Code>)
    requires 2 + 4 * k + 2 + |bytes| % 2 == |bytes|
    requires address == base + 2 + 4 * k
    ensures tail == Tail(bytes, base, k)
  {
    var i := 2 + 4 * k;
    tail := [Code(address, U16(bytes[i], bytes[i + 1]), 2)];
    if |bytes| % 2 == 1 {
      tail := tail + [Code(address + 2, bytes[i + 2], 1)];
    }
  }

  /** `write_cheat_file` without the hex formatting and the file write:
      the writes that put `bytes` into the buffer at `base`.  Read back in
      order they give the password, they sit side by side from `base`, each
      value fits its width, and the widths follow the chunking pattern. */
  method CheatCodes(bytes: seq<Byte>, base: nat) returns (codes: seq<Code>)
    requires CheatSizeOk(|bytes|)
    ensures codes == Chunked(bytes, base)
    ensures Written(codes) == bytes
    ensures Contiguous(codes, base)
    ensures forall j :: 0 <= j < |codes| ==> Fits(codes[j])
    ensures WidthsOf(codes) == ChunkWidths(|bytes|)
  {
    var size := |bytes|;
    var address := base;
    var loopNum := (size - 2) / 4;
    if size != 2 {
      ChunkArith(size);
    }
    var loopCount := 0;
    codes := [Code(address, U16(bytes[0], bytes[1]), 2)];
    PrefixZero(bytes, base);
    address := address + 2;
    var i := 2;
    while i < size
      invariant i == 2 + 4 * loopCount && i <= size
      invariant size == 2 || loopCount < loopNum
      invariant address == base + i
      invariant codes == Prefix(bytes, base, loopCount)
    {
      PrefixSnoc(bytes, base, loopCount + 1);
      codes := codes + [Code(address, U32(bytes[i], bytes[i + 1], bytes[i + 2], bytes[i + 3]), 4)];
      address := address + 4;
      loopCount := loopCount + 1;
      if loopCount == loopNum {
        ChunkedParts(bytes, base, loopCount);
        var tail := CheatTail(bytes, base, loopCount, address);
        codes := codes + tail;
        assert codes == Chunked(bytes, base);
        break;
      }
      i := i + 4;
    }
    if size == 2 {
      assert codes == Chunked(bytes, base);
    }
    ChunkedFacts(bytes, base);
  }

  /** Everything `CheatCodes` promises, stated of the chunking itself. */
  lemma ChunkedFacts(bytes: seq<Byte>, base: nat)
    requires CheatSizeOk(|bytes|)
    ensures Written(Chunked(bytes, base)) == bytes
    ensures Contiguous(Chunked(bytes, base), base)
    ensures forall j :: 0 <= j < |Chunked(bytes, base)| ==> Fits(Chunked(bytes, base)[j])
    ensures WidthsOf(Chunked(bytes, base)) == ChunkWidths(|bytes|)
  {
    ChunkedWritten(bytes, base);
    ChunkedContiguous(bytes, base);
    ChunkedFit(bytes, base);
    ChunkedWidths(bytes, base);
    AllFitEach(Chunked(bytes, base));
  }

  /** `write_cheat_file` as called: the writes start at the password input
      buffer of the chosen build and put the password there unchanged. */
  method WriteCheatFile(bytes: seq<Byte>, r: Region) returns (codes: seq<Code>)
    requires CheatSizeOk(|bytes|)
    ensures |codes| > 0 && codes[0].address == r.Address()
    ensures Written(codes) == bytes
    ensures Contiguous(codes, r.Address())
    ensures WidthsOf(codes) == ChunkWidths(|bytes|)
  {
    codes := CheatCodes(bytes, r.Address());
  }
}
