/** The password alphabets: 64 hiragana for the Japanese release, 64
    letters, digits and signs for the others, and the in-game byte values
    0x00..0x3F they stand for.  Index `k` of each table is the character of
    byte `k`; conversions look a character up by position.  The legacy
    per-character `match` lookups are modelled separately and proved to
    agree with the tables. */
module Symbols {
  import opened Bits
  import opened Enums

  // ---------------------------------------------------------------------
  // The tables

  /** Entry `k` of the hiragana table.  'ん' (0x2C) comes before 'を' (0x2D). */
  function JpChar(k: int): char
    requires 0 <= k < 64
  {
    match k
    case 0 => 'あ'
    case 1 => 'い'
    case 2 => 'う'
    case 3 => 'え'
    case 4 => 'お'
    case 5 => 'か'
    case 6 => 'き'
    case 7 => 'く'
    case 8 => 'け'
    case 9 => 'こ'
    case 10 => 'さ'
    case 11 => 'し'
    case 12 => 'す'
    case 13 => 'せ'
    case 14 => 'そ'
    case 15 => 'た'
    case 16 => 'ち'
    case 17 => 'つ'
    case 18 => 'て'
    case 19 => 'と'
    case 20 => 'な'
    case 21 => 'に'
    case 22 => 'ぬ'
    case 23 => 'ね'
    case 24 => 'の'
    case 25 => 'は'
    case 26 => 'ひ'
    case 27 => 'ふ'
    case 28 => 'へ'
    case 29 => 'ほ'
    case 30 => 'ま'
    case 31 => 'み'
    case 32 => 'む'
    case 33 => 'め'
    case 34 => 'も'
    case 35 => 'や'
    case 36 => 'ゆ'
    case 37 => 'よ'
    case 38 => 'ら'
    case 39 => 'り'
    case 40 => 'る'
    case 41 => 'れ'
    case 42 => 'ろ'
    case 43 => 'わ'
    case 44 => 'ん'
    case 45 => 'を'
    case 46 => 'が'
    case 47 => 'ぎ'
    case 48 => 'ぐ'
    case 49 => 'げ'
    case 50 => 'ご'
    case 51 => 'ざ'
    case 52 => 'じ'
    case 53 => 'ず'
    case 54 => 'ぜ'
    case 55 => 'ぞ'
    case 56 => 'だ'
    case 57 => 'で'
    case 58 => 'ど'
    case 59 => 'ば'
    case 60 => 'び'
    case 61 => 'ぶ'
    case 62 => 'べ'
    case 63 => 'ぼ'
    case _ => 'ぼ'
  }
  /** Entry `k` of the letter, digit and sign table. */
  function EnChar(k: int): char
    requires 0 <= k < 64
  {
    match k
    case 0 => 'A'
    case 1 => 'B'
    case 2 => 'C'
    case 3 => 'D'
    case 4 => 'E'
    case 5 => 'F'
    case 6 => 'G'
    case 7 => 'H'
    case 8 => 'J'
    case 9 => 'K'
    case 10 => 'L'
    case 11 => 'M'
    case 12 => 'N'
    case 13 => 'P'
    case 14 => 'Q'
    case 15 => 'R'
    case 16 => 'S'
    case 17 => 'T'
    case 18 => 'U'
    case 19 => 'V'
    case 20 => 'W'
    case 21 => 'X'
    case 22 => 'Y'
    case 23 => 'Z'
    case 24 => '2'
    case 25 => '3'
    case 26 => '4'
    case 27 => '5'
    case 28 => '6'
    case 29 => '7'
    case 30 => '8'
    case 31 => '9'
    case 32 => 'a'
    case 33 => 'b'
    case 34 => 'c'
    case 35 => 'd'
    case 36 => 'e'
    case 37 => 'f'
    case 38 => 'g'
    case 39 => 'h'
    case 40 => 'i'
    case 41 => 'j'
    case 42 => 'k'
    case 43 => 'm'
    case 44 => 'n'
    case 45 => 'p'
    case 46 => 'q'
    case 47 => 'r'
    case 48 => 's'
    case 49 => 't'
    case 50 => 'u'
    case 51 => 'v'
    case 52 => 'w'
    case 53 => 'x'
    case 54 => 'y'
    case 55 => 'z'
    case 56 => '!'
    case 57 => '?'
    case 58 => '#'
    case 59 => '&'
    case 60 => '$'
    case 61 => '%'
    case 62 => '+'
    case 63 => '='
    case _ => '='
  }
  /** The hiragana table as a sequence. */
  function JpChars(): seq<char> { seq(64, JpChar) }

  /** The letter, digit and sign table as a sequence. */
  function EnChars(): seq<char> { seq(64, EnChar) }

  /** The valid password byte values, 0x00 to 0x3F in order. */
  function ByteTable(): seq<Byte> { seq(64, k requires 0 <= k < 64 => k) }

  /** The character table of a password version. */
  function Table(v: Version): (r: seq<char>)
    ensures |r| == 64
  {
    match v
    case Japanese => JpChars()
    case English => EnChars()
  }

  /** Every byte in the table is its own index: a symbol's byte is its
      position in the character tables. */
  lemma ByteTableMembers(b: int)
    ensures b in ByteTable() <==> 0 <= b < 64
    ensures 0 <= b < 64 ==> ByteTable()[b] == b
  {
    if 0 <= b < 64 {
      assert ByteTable()[b] == b;
    }
  }

  // ---------------------------------------------------------------------
  // The legacy `match` lookups

  /** The value the legacy lookups give a character outside the table. */
  const Unknown: Byte := 0xFF

  /** The legacy hiragana lookup: one `match` arm per character (matched
      here by code point, the character shown beside it); any other
      character gives `Unknown`. */
  function LegacyJpToByte(c: char): (r: Byte)
  {
    match c as int
    case 0x3042 => 0x00 // 'あ'
    case 0x3044 => 0x01 // 'い'
    case 0x3046 => 0x02 // 'う'
    case 0x3048 => 0x03 // 'え'
    case 0x304A => 0x04 // 'お'
    case 0x304B => 0x05 // 'か'
    case 0x304D => 0x06 // 'き'
    case 0x304F => 0x07 // 'く'
    case 0x3051 => 0x08 // 'け'
    case 0x3053 => 0x09 // 'こ'
    case 0x3055 => 0x0A // 'さ'
    case 0x3057 => 0x0B // 'し'
    case 0x3059 => 0x0C // 'す'
    case 0x305B => 0x0D // 'せ'
    case 0x305D => 0x0E // 'そ'
    case 0x305F => 0x0F // 'た'
    case 0x3061 => 0x10 // 'ち'
    case 0x3064 => 0x11 // 'つ'
    case 0x3066 => 0x12 // 'て'
    case 0x3068 => 0x13 // 'と'
    case 0x306A => 0x14 // 'な'
    case 0x306B => 0x15 // 'に'
    case 0x306C => 0x16 // 'ぬ'
    case 0x306D => 0x17 // 'ね'
    case 0x306E => 0x18 // 'の'
    case 0x306F => 0x19 // 'は'
    case 0x3072 => 0x1A // 'ひ'
    case 0x3075 => 0x1B // 'ふ'
    case 0x3078 => 0x1C // 'へ'
    case 0x307B => 0x1D // 'ほ'
    case 0x307E => 0x1E // 'ま'
    case 0x307F => 0x1F // 'み'
    case 0x3080 => 0x20 // 'む'
    case 0x3081 => 0x21 // 'め'
    case 0x3082 => 0x22 // 'も'
    case 0x3084 => 0x23 // 'や'
    case 0x3086 => 0x24 // 'ゆ'
    case 0x3088 => 0x25 // 'よ'
    case 0x3089 => 0x26 // 'ら'
    case 0x308A => 0x27 // 'り'
    case 0x308B => 0x28 // 'る'
    case 0x308C => 0x29 // 'れ'
    case 0x308D => 0x2A // 'ろ'
    case 0x308F => 0x2B // 'わ'
    case 0x3093 => 0x2C // 'ん'
    case 0x3092 => 0x2D // 'を'
    case 0x304C => 0x2E // 'が'
    case 0x304E => 0x2F // 'ぎ'
    case 0x3050 => 0x30 // 'ぐ'
    case 0x3052 => 0x31 // 'げ'
    case 0x3054 => 0x32 // 'ご'
    case 0x3056 => 0x33 // 'ざ'
    case 0x3058 => 0x34 // 'じ'
    case 0x305A => 0x35 // 'ず'
    case 0x305C => 0x36 // 'ぜ'
    case 0x305E => 0x37 // 'ぞ'
    case 0x3060 => 0x38 // 'だ'
    case 0x3067 => 0x39 // 'で'
    case 0x3069 => 0x3A // 'ど'
    case 0x3070 => 0x3B // 'ば'
    case 0x3073 => 0x3C // 'び'
    case 0x3076 => 0x3D // 'ぶ'
    case 0x3079 => 0x3E // 'べ'
    case 0x307C => 0x3F // 'ぼ'
    case _ => Unknown
  }

  /** The legacy letter, digit and sign lookup: one `match` arm per
      character (matched by code point); any other character gives
      `Unknown`. */
  function LegacyEnToByte(c: char): (r: Byte)
  {
    match c as int
    case 0x0041 => 0x00 // 'A'
    case 0x0042 => 0x01 // 'B'
    case 0x0043 => 0x02 // 'C'
    case 0x0044 => 0x03 // 'D'
    case 0x0045 => 0x04 // 'E'
    case 0x0046 => 0x05 // 'F'
    case 0x0047 => 0x06 // 'G'
    case 0x0048 => 0x07 // 'H'
    case 0x004A => 0x08 // 'J'
    case 0x004B => 0x09 // 'K'
    case 0x004C => 0x0A // 'L'
    case 0x004D => 0x0B // 'M'
    case 0x004E => 0x0C // 'N'
    case 0x0050 => 0x0D // 'P'
    case 0x0051 => 0x0E // 'Q'
    case 0x0052 => 0x0F // 'R'
    case 0x0053 => 0x10 // 'S'
    case 0x0054 => 0x11 // 'T'
    case 0x0055 => 0x12 // 'U'
    case 0x0056 => 0x13 // 'V'
    case 0x0057 => 0x14 // 'W'
    case 0x0058 => 0x15 // 'X'
    case 0x0059 => 0x16 // 'Y'
    case 0x005A => 0x17 // 'Z'
    case 0x0032 => 0x18 // '2'
    case 0x0033 => 0x19 // '3'
    case 0x0034 => 0x1A // '4'
    case 0x0035 => 0x1B // '5'
    case 0x0036 => 0x1C // '6'
    case 0x0037 => 0x1D // '7'
    case 0x0038 => 0x1E // '8'
    case 0x0039 => 0x1F // '9'
    case 0x0061 => 0x20 // 'a'
    case 0x0062 => 0x21 // 'b'
    case 0x0063 => 0x22 // 'c'
    case 0x0064 => 0x23 // 'd'
    case 0x0065 => 0x24 // 'e'
    case 0x0066 => 0x25 // 'f'
    case 0x0067 => 0x26 // 'g'
    case 0x0068 => 0x27 // 'h'
    case 0x0069 => 0x28 // 'i'
    case 0x006A => 0x29 // 'j'
    case 0x006B => 0x2A // 'k'
    case 0x006D => 0x2B // 'm'
    case 0x006E => 0x2C // 'n'
    case 0x0070 => 0x2D // 'p'
    case 0x0071 => 0x2E // 'q'
    case 0x0072 => 0x2F // 'r'
    case 0x0073 => 0x30 // 's'
    case 0x0074 => 0x31 // 't'
    case 0x0075 => 0x32 // 'u'
    case 0x0076 => 0x33 // 'v'
    case 0x0077 => 0x34 // 'w'
    case 0x0078 => 0x35 // 'x'
    case 0x0079 => 0x36 // 'y'
    case 0x007A => 0x37 // 'z'
    case 0x0021 => 0x38 // '!'
    case 0x003F => 0x39 // '?'
    case 0x0023 => 0x3A // '#'
    case 0x0026 => 0x3B // '&'
    case 0x0024 => 0x3C // '$'
    case 0x0025 => 0x3D // '%'
    case 0x002B => 0x3E // '+'
    case 0x003D => 0x3F // '='
    case _ => Unknown
  }

  /** The legacy lookup of a password version. */
  function LegacyToByte(v: Version, c: char): Byte
  {
    match v
    case Japanese => LegacyJpToByte(c)
    case English => LegacyEnToByte(c)
  }

  // The 64 `match` arms are checked eight at a time: one lemma over all 64
  // entries is too large a case split for the solver.
  lemma JpIndexed0(k: int) requires 0 <= k < 8 ensures LegacyJpToByte(JpChar(k)) == k {}
  lemma JpIndexed1(k: int) requires 8 <= k < 16 ensures LegacyJpToByte(JpChar(k)) == k {}
  lemma JpIndexed2(k: int) requires 16 <= k < 24 ensures LegacyJpToByte(JpChar(k)) == k {}
  lemma JpIndexed3(k: int) requires 24 <= k < 32 ensures LegacyJpToByte(JpChar(k)) == k {}
  lemma JpIndexed4(k: int) requires 32 <= k < 40 ensures LegacyJpToByte(JpChar(k)) == k {}
  lemma JpIndexed5(k: int) requires 40 <= k < 48 ensures LegacyJpToByte(JpChar(k)) == k {}
  lemma JpIndexed6(k: int) requires 48 <= k < 56 ensures LegacyJpToByte(JpChar(k)) == k {}
  lemma JpIndexed7(k: int) requires 56 <= k < 64 ensures LegacyJpToByte(JpChar(k)) == k {}
  lemma EnIndexed0(k: int) requires 0 <= k < 8 ensures LegacyEnToByte(EnChar(k)) == k {}
  lemma EnIndexed1(k: int) requires 8 <= k < 16 ensures LegacyEnToByte(EnChar(k)) == k {}
  lemma EnIndexed2(k: int) requires 16 <= k < 24 ensures LegacyEnToByte(EnChar(k)) == k {}
  lemma EnIndexed3(k: int) requires 24 <= k < 32 ensures LegacyEnToByte(EnChar(k)) == k {}
  lemma EnIndexed4(k: int) requires 32 <= k < 40 ensures LegacyEnToByte(EnChar(k)) == k {}
  lemma EnIndexed5(k: int) requires 40 <= k < 48 ensures LegacyEnToByte(EnChar(k)) == k {}
  lemma EnIndexed6(k: int) requires 48 <= k < 56 ensures LegacyEnToByte(EnChar(k)) == k {}
  lemma EnIndexed7(k: int) requires 56 <= k < 64 ensures LegacyEnToByte(EnChar(k)) == k {}
  /** The legacy lookup maps entry `k` of the table to byte `k`. */
  lemma Indexed(v: Version, k: int)
    requires 0 <= k < 64
    ensures LegacyToByte(v, Table(v)[k]) == k
  {
    match v
    case Japanese =>
      if k < 8 { JpIndexed0(k); }
      else if k < 16 { JpIndexed1(k); }
      else if k < 24 { JpIndexed2(k); }
      else if k < 32 { JpIndexed3(k); }
      else if k < 40 { JpIndexed4(k); }
      else if k < 48 { JpIndexed5(k); }
      else if k < 56 { JpIndexed6(k); }
      else { JpIndexed7(k); }
    case English =>
      if k < 8 { EnIndexed0(k); }
      else if k < 16 { EnIndexed1(k); }
      else if k < 24 { EnIndexed2(k); }
      else if k < 32 { EnIndexed3(k); }
      else if k < 40 { EnIndexed4(k); }
      else if k < 48 { EnIndexed5(k); }
      else if k < 56 { EnIndexed6(k); }
      else { EnIndexed7(k); }
  }

  // As above, the reverse direction is checked sixteen bytes at a time.
  lemma JpMatched0(c: char) ensures 0 <= LegacyJpToByte(c) < 16 ==> JpChar(LegacyJpToByte(c)) == c {}
  lemma JpMatched1(c: char) ensures 16 <= LegacyJpToByte(c) < 32 ==> JpChar(LegacyJpToByte(c)) == c {}
  lemma JpMatched2(c: char) ensures 32 <= LegacyJpToByte(c) < 48 ==> JpChar(LegacyJpToByte(c)) == c {}
  lemma JpMatched3(c: char) ensures 48 <= LegacyJpToByte(c) < 64 ==> JpChar(LegacyJpToByte(c)) == c {}
  lemma JpMatched(c: char)
    ensures LegacyJpToByte(c) != Unknown ==> JpChar(LegacyJpToByte(c)) == c
  {
    JpMatched0(c);
    JpMatched1(c);
    JpMatched2(c);
    JpMatched3(c);
  }

  lemma EnMatched0(c: char) ensures 0 <= LegacyEnToByte(c) < 16 ==> EnChar(LegacyEnToByte(c)) == c {}
  lemma EnMatched1(c: char) ensures 16 <= LegacyEnToByte(c) < 32 ==> EnChar(LegacyEnToByte(c)) == c {}
  lemma EnMatched2(c: char) ensures 32 <= LegacyEnToByte(c) < 48 ==> EnChar(LegacyEnToByte(c)) == c {}
  lemma EnMatched3(c: char) ensures 48 <= LegacyEnToByte(c) < 64 ==> EnChar(LegacyEnToByte(c)) == c {}
  lemma EnMatched(c: char)
    ensures LegacyEnToByte(c) != Unknown ==> EnChar(LegacyEnToByte(c)) == c
  {
    EnMatched0(c);
    EnMatched1(c);
    EnMatched2(c);
    EnMatched3(c);
  }

  /** A character the legacy lookup knows is the table entry of its byte. */
  lemma Matched(v: Version, c: char)
    ensures LegacyToByte(v, c) != Unknown ==> LegacyToByte(v, c) < 64 && Table(v)[LegacyToByte(v, c)] == c
  {
    match v
    case Japanese => JpMatched(c);
    case English => EnMatched(c);
  }

  /** No character appears twice in a table. */
  lemma TableDistinct(v: Version)
    ensures forall i, j :: 0 <= i < 64 && 0 <= j < 64 && Table(v)[i] == Table(v)[j] ==> i == j
  {
    forall i, j | 0 <= i < 64 && 0 <= j < 64 && Table(v)[i] == Table(v)[j]
      ensures i == j
    {
      Indexed(v, i);
      Indexed(v, j);
    }
  }

  /** The legacy lookup is the table index for table characters and
      `Unknown` for every other character. */
  lemma LegacyToByteTable(v: Version, c: char)
    ensures c in Table(v) ==> LegacyToByte(v, c) < 64 && Table(v)[LegacyToByte(v, c)] == c
    ensures c !in Table(v) <==> LegacyToByte(v, c) == Unknown
  {
    Matched(v, c);
    if c in Table(v) {
      var k :| 0 <= k < 64 && Table(v)[k] == c;
      Indexed(v, k);
    }
  }

  // ---------------------------------------------------------------------
  // Character ranges

  lemma JpCharRange(k: int)
    requires 0 <= k < 64
    ensures 'あ' <= JpChar(k)
  {
  }

  lemma EnCharRange(k: int)
    requires 0 <= k < 64
    ensures '!' <= EnChar(k) <= 'z'
  {
  }

  /** Every letter, digit and sign is at most 'z' and every hiragana is
      above it, which is what version detection relies on. */
  lemma TableRange(v: Version, c: char)
    requires c in Table(v)
    ensures v == English ==> '!' <= c <= 'z'
    ensures v == Japanese ==> 'あ' <= c
  {
    var k :| 0 <= k < 64 && Table(v)[k] == c;
    match v
    case Japanese => JpCharRange(k);
    case English => EnCharRange(k);
  }

  // ---------------------------------------------------------------------
  // Position lookup and the character converters

  /** The first position of `x` in `s` (the source's `position(..).unwrap()`). */
  function IndexOf<T(==)>(s: seq<T>, x: T): (r: nat)
    requires x in s
    ensures r < |s| && s[r] == x
    ensures forall j :: 0 <= j < r ==> s[j] != x
  {
    if s[0] == x then 0 else 1 + IndexOf(s[1..], x)
  }

  /** `jp_to_byte` / `en_to_byte`: the byte stored at the character's
      position. */
  function CharToByte(v: Version, c: char): (r: Byte)
    requires c in Table(v)
    ensures r < 64 && Table(v)[r] == c
  {
    ByteTableMembers(IndexOf(Table(v), c));
    ByteTable()[IndexOf(Table(v), c)]
  }

  /** `byte_to_jp` / `byte_to_en`: the character at the byte's position.
      The byte must be in the byte table, that is, below 0x40. */
  function ByteToChar(v: Version, b: Byte): (r: char)
    requires b < 64
    ensures r in Table(v) && r == Table(v)[b]
  {
    ByteTableMembers(b);
    ByteTableMembers(IndexOf(ByteTable(), b));
    Table(v)[IndexOf(ByteTable(), b)]
  }

  /** `en_to_jp` (from English) / `jp_to_en` (from Japanese): the character
      at the same position in the other table. */
  function OtherVersionChar(v: Version, c: char): (r: char)
    requires c in Table(v)
    ensures r in Table(v.Rev())
  {
    Table(v.Rev())[IndexOf(Table(v), c)]
  }

  /** Bytes to characters and back is the identity on valid bytes. */
  lemma ByteRoundTrip(v: Version, b: Byte)
    requires b < 64
    ensures CharToByte(v, ByteToChar(v, b)) == b
  {
    TableDistinct(v);
  }

  /** Characters to bytes and back is the identity on table characters. */
  lemma CharRoundTrip(v: Version, c: char)
    requires c in Table(v)
    ensures ByteToChar(v, CharToByte(v, c)) == c
  {
  }

  /** Converting a character to the other version keeps its byte. */
  lemma OtherVersionCharByte(v: Version, c: char)
    requires c in Table(v)
    ensures CharToByte(v.Rev(), OtherVersionChar(v, c)) == CharToByte(v, c)
  {
    TableDistinct(v);
    TableDistinct(v.Rev());
  }

  /** Converting to the other version and back gives the character back. */
  lemma OtherVersionCharTwice(v: Version, c: char)
    requires c in Table(v)
    ensures v.Rev().Rev() == v
    ensures OtherVersionChar(v.Rev(), OtherVersionChar(v, c)) == c
  {
    RevInvolution(v);
    TableDistinct(v);
    TableDistinct(v.Rev());
  }

  // ---------------------------------------------------------------------
  // Whole passwords

  /** Every character is in the version's table. */
  predicate ValidText(s: seq<char>, v: Version)
  {
    forall i :: 0 <= i < |s| ==> s[i] in Table(v)
  }

  /** Every byte is a valid password byte (in the byte table). */
  predicate ValidBytes(bytes: seq<Byte>)
  {
    forall i :: 0 <= i < |bytes| ==> bytes[i] < 64
  }

  /** `txt_to_dmp`: each character's byte. */
  function TxtToDmp(s: seq<char>, v: Version): (r: seq<Byte>)
    requires ValidText(s, v)
    ensures |r| == |s| && ValidBytes(r)
    ensures forall i :: 0 <= i < |s| ==> Table(v)[r[i]] == s[i]
  {
    seq(|s|, i requires 0 <= i < |s| => CharToByte(v, s[i]))
  }

  /** `dmp_to_txt`: each byte's character. */
  function DmpToTxt(bytes: seq<Byte>, v: Version): (r: seq<char>)
    requires ValidBytes(bytes)
    ensures |r| == |bytes| && ValidText(r, v)
    ensures forall i :: 0 <= i < |bytes| ==> r[i] == Table(v)[bytes[i]]
  {
    seq(|bytes|, i requires 0 <= i < |bytes| => ByteToChar(v, bytes[i]))
  }

  /** `txt_to_another_version`: each character converted to the other
      version's table. */
  function TxtToAnotherVersion(s: seq<char>, v: Version): (r: seq<char>)
    requires ValidText(s, v)
    ensures |r| == |s| && ValidText(r, v.Rev())
  {
    seq(|s|, i requires 0 <= i < |s| => OtherVersionChar(v, s[i]))
  }

  /** Bytes to text and back gives the bytes. */
  lemma DmpRoundTrip(bytes: seq<Byte>, v: Version)
    requires ValidBytes(bytes)
    ensures TxtToDmp(DmpToTxt(bytes, v), v) == bytes
  {
    TableDistinct(v);
  }

  /** Text to bytes and back gives the text. */
  lemma TxtRoundTrip(s: seq<char>, v: Version)
    requires ValidText(s, v)
    ensures DmpToTxt(TxtToDmp(s, v), v) == s
  {
  }

  /** Converting to the other version keeps every byte. */
  lemma TxtToAnotherVersionBytes(s: seq<char>, v: Version)
    requires ValidText(s, v)
    ensures TxtToDmp(TxtToAnotherVersion(s, v), v.Rev()) == TxtToDmp(s, v)
  {
    var t := TxtToAnotherVersion(s, v);
    forall i | 0 <= i < |s|
      ensures TxtToDmp(t, v.Rev())[i] == TxtToDmp(s, v)[i]
    {
      OtherVersionCharByte(v, s[i]);
    }
  }

  /** Converting with `v` and then with its reverse gives the text back. */
  lemma TxtToAnotherVersionTwice(s: seq<char>, v: Version)
    requires ValidText(s, v)
    ensures v.Rev().Rev() == v
    ensures TxtToAnotherVersion(TxtToAnotherVersion(s, v), v.Rev()) == s
  {
    RevInvolution(v);
    var t := TxtToAnotherVersion(s, v);
    forall i | 0 <= i < |s|
      ensures TxtToAnotherVersion(t, v.Rev())[i] == s[i]
    {
      OtherVersionCharTwice(v, s[i]);
    }
  }

  // ---------------------------------------------------------------------
  // Validity checks

  /** The check loop of `contains_invalid_*`: stop at the first element
      missing from the table. */
  method ContainsInvalid<T(==)>(s: seq<T>, table: seq<T>) returns (r: bool)
    ensures r <==> exists i :: 0 <= i < |s| && s[i] !in table
  {
    r := false;
    var i := 0;
    while i < |s|
      invariant 0 <= i <= |s|
      invariant forall j :: 0 <= j < i ==> s[j] in table
    {
      if s[i] !in table {
        r := true;
        break;
      }
      i := i + 1;
    }
  }

  /** `contains_invalid_char_jp` / `contains_invalid_char_en`: some character
      is outside the table, that is, the legacy lookup does not know it. */
  method ContainsInvalidChar(s: seq<char>, v: Version) returns (r: bool)
    ensures r <==> !ValidText(s, v)
    ensures r <==> exists i :: 0 <= i < |s| && LegacyToByte(v, s[i]) == Unknown
  {
    r := ContainsInvalid(s, Table(v));
    forall i | 0 <= i < |s| ensures s[i] !in Table(v) <==> LegacyToByte(v, s[i]) == Unknown {
      LegacyToByteTable(v, s[i]);
    }
  }

  /** `contains_invalid_byte`: some byte is 0x40 or more. */
  method ContainsInvalidByte(bytes: seq<Byte>) returns (r: bool)
    ensures r <==> !ValidBytes(bytes)
    ensures r <==> exists i :: 0 <= i < |bytes| && bytes[i] >= 0x40
  {
    r := ContainsInvalid(bytes, ByteTable());
    forall i | 0 <= i < |bytes| ensures bytes[i] in ByteTable() <==> bytes[i] < 64 {
      ByteTableMembers(bytes[i]);
    }
  }

  // ---------------------------------------------------------------------
  // Whitespace

  /** `char::is_whitespace`: the Unicode White_Space characters. */
  predicate IsWhitespace(c: char)
  {
    ('\t' <= c <= '\r') || c == ' ' || c == '\U{85}' || c == '\U{A0}' || c == '\U{1680}'
    || ('\U{2000}' <= c <= '\U{200A}') || c == '\U{2028}' || c == '\U{2029}'
    || c == '\U{202F}' || c == '\U{205F}' || c == '\U{3000}'
  }

  /** No password character is whitespace. */
  lemma TableNotWhitespace(v: Version, c: char)
    requires c in Table(v)
    ensures !IsWhitespace(c)
  {
    TableRange(v, c);
  }

  /** `remove_whitespace`: the characters that are not whitespace, in order. */
  function RemoveWhitespace(s: seq<char>): (r: seq<char>)
    ensures |r| <= |s|
    ensures forall i :: 0 <= i < |r| ==> !IsWhitespace(r[i])
    ensures forall c :: c in r <==> c in s && !IsWhitespace(c)
  {
    if |s| == 0 then []
    else
      var h: seq<char> := if IsWhitespace(s[0]) then [] else [s[0]];
      var t := RemoveWhitespace(s[1..]);
      assert s == [s[0]] + s[1..];
      assert forall c :: c in h + t <==> c in h || c in t;
      h + t
  }

  /** Stripping distributes over concatenation. */
  lemma {:induction false} RemoveWhitespaceAppend(a: seq<char>, b: seq<char>)
    ensures RemoveWhitespace(a + b) == RemoveWhitespace(a) + RemoveWhitespace(b)
    decreases |a|
  {
    if |a| > 0 {
      var h: seq<char> := if IsWhitespace(a[0]) then [] else [a[0]];
      assert (a + b)[0] == a[0];
      assert (a + b)[1..] == a[1..] + b;
      RemoveWhitespaceAppend(a[1..], b);
      var x, y := RemoveWhitespace(a[1..]), RemoveWhitespace(b);
      assert RemoveWhitespace(a + b) == h + (x + y);
      assert RemoveWhitespace(a) == h + x;
      assert h + (x + y) == (h + x) + y;
    } else {
      assert a + b == b;
    }
  }

  /** Text without whitespace is left as it is. */
  lemma {:induction false} RemoveWhitespaceKeeps(s: seq<char>)
    requires forall i :: 0 <= i < |s| ==> !IsWhitespace(s[i])
    ensures RemoveWhitespace(s) == s
    decreases |s|
  {
    if |s| > 0 {
      RemoveWhitespaceKeeps(s[1..]);
    }
  }

  /** Text made of whitespace only strips to nothing. */
  lemma {:induction false} RemoveWhitespaceBlank(w: seq<char>)
    requires forall i :: 0 <= i < |w| ==> IsWhitespace(w[i])
    ensures RemoveWhitespace(w) == []
    decreases |w|
  {
    if |w| > 0 {
      RemoveWhitespaceBlank(w[1..]);
    }
  }

  /** Stripping twice is stripping once. */
  lemma RemoveWhitespaceIdempotent(s: seq<char>)
    ensures RemoveWhitespace(RemoveWhitespace(s)) == RemoveWhitespace(s)
  {
    RemoveWhitespaceKeeps(RemoveWhitespace(s));
  }

  /** Valid password text has no whitespace to strip. */
  lemma RemoveWhitespaceValid(s: seq<char>, v: Version)
    requires ValidText(s, v)
    ensures RemoveWhitespace(s) == s
  {
    forall i | 0 <= i < |s| ensures !IsWhitespace(s[i]) {
      TableNotWhitespace(v, s[i]);
    }
    RemoveWhitespaceKeeps(s);
  }

  // ---------------------------------------------------------------------
  // Version detection

  /** `get_password_version` (and the legacy `get_save_type`): English when
      the first character is at most 'z'.  An empty string is a panic in
      the source. */
  function GetPasswordVersion(s: seq<char>): (r: Version)
    requires |s| > 0
    ensures r == English <==> s[0] <= 'z'
  {
    if s[0] <= 'z' then English else Japanese
  }

  /** Detection names the version of any valid non-empty password. */
  lemma VersionDetected(s: seq<char>, v: Version)
    requires |s| > 0 && ValidText(s, v)
    ensures GetPasswordVersion(s) == v
  {
    TableRange(v, s[0]);
  }

  // ---------------------------------------------------------------------
  // The legacy text-to-bytes conversion

  /** Legacy `txt_to_dmp`: strip whitespace, then the legacy lookup on each
      remaining character. */
  function LegacyTxtToDmp(s: seq<char>, v: Version): (r: seq<Byte>)
    ensures |r| == |RemoveWhitespace(s)|
  {
    seq(|RemoveWhitespace(s)|, i requires 0 <= i < |RemoveWhitespace(s)| => LegacyToByte(v, RemoveWhitespace(s)[i]))
  }

  /** The legacy conversion marks exactly the unknown characters with 0xFF,
      and on valid text agrees with `txt_to_dmp` of the stripped text. */
  lemma LegacyTxtToDmpAgrees(s: seq<char>, v: Version)
    ensures forall i :: 0 <= i < |LegacyTxtToDmp(s, v)| ==>
      (LegacyTxtToDmp(s, v)[i] == Unknown <==> RemoveWhitespace(s)[i] !in Table(v))
    ensures ValidText(RemoveWhitespace(s), v) ==>
      LegacyTxtToDmp(s, v) == TxtToDmp(RemoveWhitespace(s), v)
  {
    var t := RemoveWhitespace(s);
    forall i | 0 <= i < |t| ensures LegacyTxtToDmp(s, v)[i] == Unknown <==> t[i] !in Table(v) {
      LegacyToByteTable(v, t[i]);
    }
    if ValidText(t, v) {
      TableDistinct(v);
      forall i | 0 <= i < |t| ensures LegacyTxtToDmp(s, v)[i] == TxtToDmp(t, v)[i] {
        LegacyToByteTable(v, t[i]);
      }
    }
  }
}
