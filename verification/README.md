# Golden Sun password transfer — a Dafny model

This project models the core of a tool that moves a character's progress from a
*Golden Sun* save file to *Golden Sun: The Lost Age* by way of the in-game
password. It covers:

- **Reading the save file.** The model finds the first-game blocks among the
  sixteen 4 KiB blocks of a save file and chooses one block per save slot. It
  then decodes the character-progress record at fixed little-endian offsets:
  four levels, four djinn masks, six story flags, a 4×6 stats matrix, a 4×15
  item matrix and the coins.
- **Encoding the password.** This is `gen_password_bytes`. The record is
  packed into a bit string; which fields go in depends on the grade (Bronze,
  Silver or Gold). The bit string is zero-padded to 9, 39 or 173 bytes. Then:
  - A 16-bit key is derived with a CRC-like register.
  - The key is appended as a high byte and a low byte.
  - The stream is XOR-obfuscated with the key's low byte.
  - It is cut into 6-bit symbols, with a mod-64 line checksum after every nine.
  - Each symbol's position is added to it, modulo 64.
- **The symbol tables.** Each password symbol is a byte 0x00..0x3F. It is
  written as one of 64 hiragana (Japanese release) or as one of 64 letters,
  digits and signs (the other releases). The model covers the validity checks,
  whitespace stripping, version detection, and the conversions between bytes,
  text and the two alphabets.
- **The output layouts.**
  - The password text file puts a space after every fifth symbol, a line
    break after every tenth and an empty line after every fiftieth.
  - The cheat file writes the password into the password buffer of a
    regional build as little-endian 2-, 4- and 1-byte writes at rising
    addresses.
- **The enumerations.** Grades, versions and cheat regions, with the lookups
  and region addresses.

Module layout (one file per module, no nesting):

| file | module | models |
|---|---|---|
| bits.dfy | `Bits` | the `BitArray` operations; MSB-first numbers as bit strings |
| enums.dfy | `Enums` | src/util/enums.rs and src/enums.rs |
| savedata.dfy | `SaveData` | block location, block choice and record decoding |
| payload.dfy | `Payload` | the bit packing of the record |
| register.dfy | `KeyRegister` | the key register (16-bit, and the source's 64-bit form) |
| cipher.dfy | `Cipher` | appending the key bytes and the XOR |
| framing.dfy | `Framing` | 6-bit grouping, line checksums, positional scramble |
| encoder.dfy | `Encoder` | the whole of `gen_password_bytes` and its inverse |
| symbols.dfy | `Symbols` | the tables and converters, current and legacy |
| layout.dfy | `Layout` | the password text layout |
| cheat.dfy | `Cheat` | the cheat-code chunking |

### How the model is organised

- **Duplicate copies share one model.** The repository holds current and
  legacy copies of most of the core: src/subcmd/sav.rs next to src/sav.rs,
  src/text.rs and src/subcmd/txt.rs next to src/util/convert.rs, and
  src/output.rs next to src/util/output.rs. The encoder, the tables and the
  cheat chunking are each modelled once; the rows below cite the copy they
  follow.
- **Legacy variants are modelled separately where they behave differently.**
  These are:
  - the `match`-table lookups that map an unknown character to 0xFF;
  - the legacy `txt_to_dmp`, which strips whitespace itself;
  - the legacy block scan, where the last block wins and keys are slot+1;
  - the legacy six-valued region enumeration.
  Each is proved to agree with the current model where the two overlap. For
  the block scan the overlap is a slot whose only candidate block is not
  blank and does not lie before the block the current scan starts from.
  The legacy scan always starts at block 0, while the current one starts at
  the `loop_start_index` its caller passes (src/sav.rs:197): the first
  first-game block found by src/sav.rs:168-191, or the index that
  src/cmd/sav.rs:27-41 obtains.
  On such a slot both scans pick that block, and the legacy key is the
  slot plus one (`SaveData.LegacyIndexAgrees`, `SaveData.LegacyRecordAgrees`).
  Outside this overlap the two can differ. A candidate that lies before the
  start block is never read by the current scan (`SaveData.ScanDomain`), yet
  the legacy scan stores it.
- **Everything is a pure function of its inputs.**
  - Bits are `seq<Bit>` and bytes are integers below 256.
  - The key register is a `bv64` kept in its low 16 bits.
  - A save file is a `seq<Byte>` of at least 0x10000 bytes.
  - The source's `process::exit` calls are modelled as `Failure` results.
  - File writes are left out; the text and cheat lines are returned instead.
- **Inverses are proof devices only.** The inverse of each encoding stage is
  used only to prove that nothing is lost: unscrambling, checksum stripping,
  regrouping and decryption. The repository's decoder is in src/util/save.rs,
  which is not part of this model.

### Notes on the code

- **The XOR covers bytes `0..=size` only.** The loop at src/sav.rs:438-441
  runs over the payload bytes and the key-high byte, so the key-low byte,
  which is the XOR value itself, stays in the clear (`Cipher.Seal`,
  `Cipher.Encrypt`).
- **Gold's stats start at payload bit 64 and Silver's at bit 72.** Gold's
  stats follow the 64 common bits directly; Silver's follow the 8-bit
  item-presence byte (`Payload.PayloadBits`, `Payload.SilverTail`).
- **`sub_bits` does not zero-fill a read that runs past the end.** Its bounds
  test looks at the start index only (src/sav.rs:154). A read that starts in
  bounds and ends out of bounds would index past the end. The model's
  `Bits.SubBits` is defined for the two safe cases only, and every use is
  shown to be one of them.
- **The key round adds 0xFFFF_EFDF to the doubled register.** Modulo 2^16
  this is subtracting the generator 0x1021 (`KeyRegister.RoundSubtracts`),
  and only the low 16 bits reach the key (`KeyRegister.KeyAgrees`).
- **Two calls in the legacy src/output.rs name functions src/text.rs does not
  define.** It calls `text::byte_to_jp` (src/output.rs:38) and
  `text::byte_to_en` (src/output.rs:51); src/text.rs defines them as
  `convert_byte_to_jp` and `convert_byte_to_en`, which is what the model
  uses. The Japanese separator literal at src/output.rs:45 is mis-encoded;
  it is modelled as the ideographic space U+3000, which the current copy
  uses.

## Model

| member | source | states |
|---|---|---|
| Bits.PushBit | src/sav.rs:132-134 | appends one bit, `1` exactly when the value is odd, and keeps the earlier bits |
| Bits.PushBits | src/sav.rs:137-141 | appends exactly `n` bits after the unchanged earlier bits; read MSB first they encode `value mod 2^n` |
| Bits.ReplaceBits | src/sav.rs:144-148 | keeps the length and every bit outside `pos..pos+n-1`; the window then encodes `value mod 2^n` |
| Bits.SubBits | src/sav.rs:151-161 | when the start index is at or past the end the result is 0; when the end index is in bounds the result's bits (MSB first) are exactly `bits[lo..=hi]`, and it is below `2^(hi-lo+1)` |
| Bits.ToBitsValue | src/sav.rs:137-141 | the bits pushed for a value read back as that value modulo `2^n` |
| Bits.FromBitsToBits | src/sav.rs:151-161 | reading a bit string as a number and pushing it back at the same width gives the bit string back |
| Bits.FromBitsAppend | src/sav.rs:151-161 | reading MSB first, the bits of a concatenation weigh the left part by `2^|right|` |
| Bits.BitWeight | src/sav.rs:151-161 | bit `i` of a bit string is the matching binary digit of the number it reads as |
| Enums.GradeVariants | src/util/enums.rs:26-28 | the grade list contains every grade, each once |
| Enums.VersionVariants | src/util/enums.rs:57-59 | the version list contains every version, each once |
| Enums.Region.Address | src/util/enums.rs:82-93 | Japan alone has 0x0200A78A; USA and Europe, and only they, 0x0200A74A; Germany, France and Italy, and only they, 0x0200A742; Spain alone 0x0200A73E |
| Enums.RegionVariants | src/util/enums.rs:97-99 | the region list contains every region, each once |
| Enums.RevInvolution | src/util/enums.rs:47-54 | `rev` undoes itself; with the contract of `Version.Rev` it never returns its argument |
| Enums.GradeOfLength | src/cmd/txt.rs:25-33 | a password length names a grade exactly when it is that grade's length (260, 61, 16); every other length names none |
| Enums.ParseGrade | src/enums.rs:26-33 | "s" and only "s" gives Silver, "b" and only "b" gives Bronze; everything else falls back to Gold |
| Enums.ParseGradeLetter | src/enums.rs:26-33 | parsing a grade's own letter gives the grade back |
| Enums.ParseVersion | src/enums.rs:35-41 | "j" and only "j" selects Japanese; everything else is English |
| Enums.ParseVersionLetter | src/enums.rs:35-41 | parsing a version's own letter gives the version back |
| Enums.RevVersion | src/enums.rs:43-48 | the legacy swap never returns its argument and agrees with `rev` |
| Enums.RevVersionInvolution | src/enums.rs:43-48 | the legacy swap undoes itself |
| Enums.ParseLegacyRegion | src/enums.rs:50-60 | each of "j", "g", "s", "f", "i" selects its own region and no other string does; everything else is English |
| Enums.LegacyAddress | src/enums.rs:63-72 | German, French and Italian, and only they, share 0x0200A742 |
| Enums.LegacyAddressAgrees | src/util/enums.rs:82-93 | for every region letter the current tool accepts, the legacy parser and address table give the current address |
| SaveData.GetEventFlag | src/sav.rs:236-240 | the flag is 0 or 1 and is bit `flag & 7` (counting from the least significant) of byte `0x40 + (flag >> 3)`; the copy at src/subcmd/sav.rs:134-138 is the same |
| SaveData.OrAllBit | src/sav.rs:262-264 | a bit is set in an OR of words exactly when it is set in one of them |
| SaveData.PartyDjinn | src/sav.rs:262-264 | a djinn bit of element `j` is set exactly when some party member has it set in their u32 at `+0xF8+4j` |
| SaveData.Levels | src/sav.rs:258-260 | member `i`'s level is the byte at `0x500 + 0x14C*i + 0xF` |
| SaveData.Events | src/sav.rs:283-294 | the six story flags are the bits of flags 0x941, 0x951, 0x8B3, 0x8D1, 0x81E and 0x868 in that order |
| SaveData.Stats | src/sav.rs:266-277 | HP, EP, attack, defense and agility are the LE u16 at +0x10, +0x12, +0x18, +0x1A, +0x1C of the member's base; luck is the byte at +0x1E |
| SaveData.Items | src/sav.rs:279-281 | item slot `s` of member `i` is the LE u16 at `0x5D8 + 0x14C*i + 2s` |
| SaveData.GetSaveData | src/sav.rs:244-299 | the record has the source's array shapes and holds exactly the levels, djinn, events, stats, items and the LE u32 coins at 0x250; all reads are below 0xA30, inside a block's data |
| SaveData.CheckSaveType | src/sav.rs:168-191 | reports a first-game block exactly when one exists (the "CAMELOT" header and a known build date); the index is the first such block, or 16 when there is none |
| SaveData.BlockSave | src/sav.rs:220-226 | the data kept of a block is 0xA30 bytes long, so every read of `SaveData.GetSaveData` (the highest at 0x9EB) falls inside it |
| SaveData.ScanDomain | src/sav.rs:193-207 | after the scan, a slot has an entry exactly when some candidate block has that slot; a candidate has slot ≤ 2 and is a clear save unless every save is wanted |
| SaveData.ScanWinners | src/sav.rs:209-219 | each slot's entry is the candidate of highest priority, the earliest one when several tie |
| SaveData.ScanStep | src/sav.rs:210-219 | one more block keeps the winner property: a strictly higher priority replaces the kept block, anything else leaves it |
| SaveData.GetRawSaveData | src/sav.rs:193-232 | keys are slots 0..2, present exactly for the slots with a candidate; each value is the 0xA30 data bytes of that slot's winning block |
| SaveData.CompareHeader | src/subcmd/sav.rs:88-93 | the seven-byte comparison succeeds exactly when the block starts with "CAMELOT" |
| SaveData.LegacyIndexDomain | src/subcmd/sav.rs:95-121 | the legacy scan stores under key `slot + 1` exactly the slots of non-blank blocks with slot ≤ 2 that are clear, or any such block when every save is wanted |
| SaveData.LegacyIndexLast | src/subcmd/sav.rs:119-121 | for a repeated key, the last block scanned wins |
| SaveData.BlankCountAll | src/subcmd/sav.rs:124-127 | the blank count reaches 16 exactly when every block starts with 0xFF |
| SaveData.LegacyBlockStep | src/subcmd/sav.rs:80-121 | one block of the legacy scan: it fails exactly on a non-blank block without the header, reports blanks, and otherwise keeps the stored map in step with the scan so far |
| SaveData.GetRawSaveDataLegacy | src/subcmd/sav.rs:72-130 | fails with "not Golden Sun" exactly when a non-blank block lacks the header, and with "no data" exactly when all 16 blocks are blank; otherwise the map holds, under slot + 1, the data of the last stored block of each slot and nothing else |
| SaveData.LegacyIndexAgrees | src/subcmd/sav.rs:95-121 | for any start block of the current scan (src/sav.rs:197-219): when a slot has exactly one candidate block, that block is not blank, and no candidate for the slot lies before the start, the legacy scan from block 0 stores it under `slot + 1` exactly when the current scan keeps it under `slot`, and both pick that block |
| SaveData.LegacyRecordAgrees | src/subcmd/sav.rs:103-121 | for such a slot and any start block, a successful legacy result has key `slot + 1` exactly when the current map built from that start (src/sav.rs:193-232) has key `slot`, with the same clear flag and the same 0xA30 data bytes |
| Payload.Pack7 | src/sav.rs:306-315 | the 7 low bits of member `i`'s value sit at bits `7(3-i) .. 7(3-i)+6` of the 28-bit string |
| Payload.HeaderLayout | src/sav.rs:317-326 | the first 56 bits are `L[20..28] L[12..20] L[4..12] L[0..4] D[24..28] D[16..24] D[8..16] D[0..8]` |
| Payload.HeaderRoundTrip | src/sav.rs:306-326 | the 56 header bits unpack to the two 28-bit strings they came from, so every input bit appears exactly once |
| Payload.HeaderFields | src/sav.rs:306-326 | each level and djinn mask can be read back from the header modulo 128 |
| Payload.EventBits | src/sav.rs:328-334 | the event byte has bit `k` (weight `2^k`) equal to `events[k] & 1` for `k < 6` and two zero top bits |
| Payload.PresenceBits | src/sav.rs:342-358 | bit `j` of the flag byte is set exactly when some item id (`item & 0x1FF`) equals `0xC8 + j` |
| Payload.MemberStatBits | src/sav.rs:363-374 | one member's stats at widths 11, 11, 10, 10, 10, 8: each field reads back as the stat modulo its width |
| Payload.StatsBits | src/sav.rs:360-376 | 240 bits, person by person, each 60-bit block that person's stats |
| Payload.ItemIds | src/sav.rs:382-385 | the 60 item ids in person-major slot order, each `item & 0x1FF` |
| Payload.ItemIdBits | src/sav.rs:380-393 | `n` ids take `9n + n/7` bits: one sync bit after every seventh id |
| Payload.ItemIdPlacement | src/sav.rs:382-392 | id `t` sits at bit `9t + t/7` and, after every seventh id, the next bit is a zero sync bit |
| Payload.ItemIdValue | src/sav.rs:384-385 | the nine bits at id `t`'s place read back as that id modulo 512 |
| Payload.Quantity | src/sav.rs:400-406 | 0 when no slot holds the item; otherwise `item >> 11` of the last slot that holds it |
| Payload.MemberQuantityBits | src/sav.rs:398-408 | 115 bits: for each of the 23 stackable ids, a 5-bit field holding its quantity |
| Payload.PushFives | src/sav.rs:398-409 | every 5-bit field of the run reads back as its quantity |
| Payload.QuantityBits | src/sav.rs:397-409 | 460 bits, person by person, each person's 115 quantity bits |
| Payload.GoldTail | src/sav.rs:360-411 | Gold's own fields in order: the stats, 8 zero bits, the 548 item-id bits, the 460 quantity bits and the low 24 bits of the coins |
| Payload.SilverTail | src/sav.rs:342-376 | Silver's own fields: the presence byte and then the 240 stat bits |
| Payload.PackedLength | src/sav.rs:336-340 | the packed length never exceeds the `8 * size` bits it is padded to, so the padding loop never underflows |
| Payload.PayloadBits | src/sav.rs:303-411 | the packed payload is the 64 common bits followed by the grade's fields, 72, 312 or 1344 bits in all |
| Payload.Pad | src/sav.rs:413-416 | padding keeps the payload as a prefix, fills the rest with zeros and reaches exactly `8 * size` bits |
| KeyRegister.Register | src/sav.rs:419-431 | after every byte the register fits in 16 bits; how it relates to the source's unmasked `u64` is `KeyRegister.RegisterLow` |
| KeyRegister.RoundSubtracts | src/sav.rs:424-430 | a round doubles the register and, when bit 15 falls out, subtracts the generator 0x1021 modulo 2^16 |
| KeyRegister.Key | src/sav.rs:418-433 | the key is below 2^16 and is the 16-bit complement of the register |
| KeyRegister.RegisterLow | src/sav.rs:419-431 | the low 16 bits of the unmasked 64-bit register equal the 16-bit register after every byte |
| KeyRegister.KeyAgrees | src/sav.rs:419-433 | the key computed with the source's unmasked 64-bit register equals the 16-bit model's key |
| Cipher.Bytes | src/sav.rs:421-422 | the bytes read from a bit string are its 8-bit windows in order |
| Cipher.BytesInjective | src/sav.rs:421-422 | two bit strings with the same bytes are equal |
| Cipher.ReplaceByte | src/sav.rs:438-441 | replacing the 8 bits of byte `k` changes that byte and no other |
| Cipher.Xor8Involution | src/sav.rs:438-441 | XORing a byte twice with the same value gives it back |
| Cipher.XorLoop | src/sav.rs:438-441 | after the loop over bytes `0..n-1`, those bytes are XORed and the rest are unchanged |
| Cipher.KeyBitsValue | src/sav.rs:433-436 | the sixteen bits pushed for the key, `x_sum >> 8` then the low byte, read back (MSB first) as the key itself |
| Cipher.AppendBytes | src/sav.rs:434-436 | appending the key bytes adds exactly two bytes, high then low, after the unchanged payload |
| Cipher.Seal | src/sav.rs:434-441 | the sealed stream is the payload and the two key bytes with bytes `0..=size` XORed and the last byte in the clear |
| Cipher.UnsealSeal | src/sav.rs:434-441 | unsealing a sealed stream gives back the payload and both key bytes |
| Cipher.SealUnseal | src/sav.rs:434-441 | every stream of whole bytes (at least two) is the sealing of its unsealing |
| Cipher.Encrypt | src/sav.rs:418-441 | the encrypted stream is 16 bits longer than the payload and ends in the clear key-low byte |
| Cipher.DecryptEncrypt | src/sav.rs:418-441 | decrypting an encrypted payload succeeds and gives the payload back |
| Cipher.EncryptDecrypt | src/sav.rs:418-441 | whenever decryption succeeds, encrypting its result gives the input back |
| Framing.GroupCount | src/sav.rs:446-448 | the number of 6-bit groups is the smallest count covering the stream |
| Framing.Groups | src/sav.rs:447-458 | the split yields one entry per six bits, rounding up; the entries' contents are stated by `Framing.GroupAtBits` and `Framing.GroupsBits` |
| Framing.GroupAtBits | src/sav.rs:449-458 | a full group is its six bits MSB first; the short last group is the leftover bits shifted left, that is followed by zeros |
| Framing.GroupsBits | src/sav.rs:448-458 | the groups written back out are the stream followed by zeros up to a multiple of six |
| Framing.UngroupGroups | src/sav.rs:448-458 | regrouping the groups and cutting at the stream length gives the stream back |
| Framing.Checksummed | src/sav.rs:460-466 | a checksum entry is inserted after every nine entries, so `n` entries become `n + n/9` |
| Framing.ChecksummedEntry | src/sav.rs:460-466 | entry `t` of the input sits at position `t + t/9` |
| Framing.ChecksummedSum | src/sav.rs:461-465 | the checksum of line `c` is the sum of that line's nine data entries modulo 64; checksums do not feed the next line |
| Framing.StripChecksummed | src/sav.rs:460-466 | removing every tenth entry gives the data entries back |
| Framing.ValidChecksumsIff | src/sav.rs:460-466 | a stream has consistent line checksums exactly when it is the checksummed form of its data entries |
| Framing.Frame | src/sav.rs:443-467 | the loop with one accumulator and a push after every ninth output entry produces the checksummed groups of the stream |
| Framing.Scramble | src/sav.rs:469-473 | each entry has its position added, modulo 64 |
| Framing.UnscrambleScramble | src/sav.rs:469-473 | subtracting the positions undoes the scramble |
| Framing.ScrambleUnscramble | src/sav.rs:469-473 | the scramble undoes the subtraction, so it is a bijection |
| Framing.FramedRoundTrip | src/sav.rs:443-473 | unscrambling a framed stream gives consistent checksums, and stripping and regrouping give the stream back |
| Encoder.PaddedPayloadFields | src/sav.rs:413-416 | the padded payload starts with the packed fields and is zero after them |
| Encoder.StreamLengths | src/sav.rs:443-467 | for every grade the stream never leaves a five-bit tail, and the groups plus checksums number 16, 61 or 260 |
| Encoder.GenPasswordBytes | src/sav.rs:303-476 | a password has exactly the grade's length, 16, 61 or 260, and every entry is a 6-bit symbol |
| Encoder.DecodeEncode | src/sav.rs:418-475 | decoding an encoded padded payload succeeds, with consistent checksums, and gives the payload back |
| Encoder.DecodeGenerated | src/sav.rs:303-476 | decoding a generated password gives back the padded payload of the record |
| Encoder.GeneratedInjective | src/sav.rs:303-476 | records whose packed fields differ get different passwords |
| Encoder.GetPasswordBytes | src/sav.rs:478-481 | reading the record from a block and encoding it gives a password of the grade's length |
| Symbols.ByteTableMembers | src/util/convert.rs:44-49 | the byte table holds exactly 0x00..0x3F, each at its own index |
| Symbols.TableDistinct | src/util/convert.rs:6-41 | the 64 characters of each table are distinct |
| Symbols.TableRange | src/util/convert.rs:71-81 | every letter, digit or sign lies between '!' and 'z'; every hiragana is at or after 'あ', which is beyond 'z' |
| Symbols.Indexed | src/subcmd/txt.rs:206-372 | the legacy `match` lookups map entry `k` of each table to byte `k` |
| Symbols.Matched | src/subcmd/txt.rs:206-372 | whatever the legacy lookup maps to a byte other than 0xFF is the table entry at that byte |
| Symbols.LegacyToByteTable | src/subcmd/txt.rs:206-372 | the legacy lookup gives 0xFF exactly for characters outside the table, and the table index for the rest |
| Symbols.CharToByte | src/util/convert.rs:132-141 | a table character's byte is its position, below 0x40 |
| Symbols.ByteToChar | src/util/convert.rs:144-153 | a byte's character is the table entry at that byte |
| Symbols.OtherVersionChar | src/util/convert.rs:120-129 | the converted character is in the other version's table |
| Symbols.ByteRoundTrip | src/util/convert.rs:132-153 | byte to character to byte is the identity on 0x00..0x3F |
| Symbols.CharRoundTrip | src/text.rs:116-134 | character to byte to character is the identity on the table |
| Symbols.OtherVersionCharByte | src/util/convert.rs:120-141 | converting a character to the other version keeps its byte |
| Symbols.OtherVersionCharTwice | src/util/convert.rs:120-129 | converting to the other version and back gives the character back |
| Symbols.TxtToDmp | src/util/convert.rs:156-162 | the bytes have the text's length, are all below 0x40, and each one's character is the text's character |
| Symbols.DmpToTxt | src/util/convert.rs:174-180 | the text has the bytes' length, is valid, and each character is the table entry at its byte |
| Symbols.TxtToAnotherVersion | src/util/convert.rs:165-171 | the converted text has the same length and is valid text of the other version |
| Symbols.DmpRoundTrip | src/util/convert.rs:156-180 | bytes to text to bytes is the identity on valid bytes |
| Symbols.TxtRoundTrip | src/util/convert.rs:156-180 | text to bytes to text is the identity on valid text |
| Symbols.TxtToAnotherVersionBytes | src/util/convert.rs:165-171 | converting the text to the other version keeps every byte |
| Symbols.TxtToAnotherVersionTwice | src/text.rs:144-151 | converting with `v` and then with `rev(v)` gives the text back |
| Symbols.ContainsInvalidChar | src/util/convert.rs:84-105 | true exactly when some character is outside the version's table, that is, when the legacy lookup gives it 0xFF |
| Symbols.ContainsInvalidByte | src/util/convert.rs:108-117 | true exactly when some byte is 0x40 or more; the copy at src/text.rs:93-102 is the same |
| Symbols.RemoveWhitespace | src/util/convert.rs:67-69 | the result holds no whitespace and a character occurs in it exactly when it occurs in the input and is not whitespace |
| Symbols.RemoveWhitespaceKeeps | src/util/convert.rs:67-69 | text without whitespace is kept unchanged; with `Symbols.RemoveWhitespaceAppend` this fixes the filter character by character, in order |
| Symbols.RemoveWhitespaceAppend | src/util/convert.rs:67-69 | stripping a concatenation strips each part, so the kept characters keep their order |
| Symbols.RemoveWhitespaceIdempotent | src/util/convert.rs:67-69 | stripping twice is stripping once |
| Symbols.RemoveWhitespaceValid | src/util/convert.rs:67-69 | valid password text has nothing to strip |
| Symbols.GetPasswordVersion | src/util/convert.rs:74-81 | English exactly when the first character is at most 'z', Japanese otherwise |
| Symbols.VersionDetected | src/util/convert.rs:74-81 | the first-character test names the version of every valid non-empty password; src/text.rs:62-69 and `get_save_type` are the same test |
| Symbols.LegacyTxtToDmp | src/subcmd/txt.rs:374-381 | the output has one byte per non-whitespace character |
| Symbols.LegacyTxtToDmpAgrees | src/subcmd/txt.rs:374-381 | 0xFF appears exactly where a stripped character is outside the table; on valid text the result equals `txt_to_dmp` of the stripped text |
| Layout.Separator | src/util/output.rs:45-51 | a separator is whitespace only, one character after every fifth symbol and one more after every fiftieth: a line break at every tenth, a second line break at every fiftieth, the version's space at every other fifth |
| Layout.LayoutSeparators | src/util/output.rs:43-52 | after symbol `i` (from zero) comes a line break when `i + 1` is a multiple of 10, a second line break when it is a multiple of 50, the version's space when it is a multiple of 5 but not of 10, and nothing otherwise |
| Layout.LayoutShape | src/util/output.rs:43-52 | the laid-out text has `n + n/5 + n/50` characters, and symbol `i` sits at `i + i/5 + i/50` |
| Layout.LayoutStrips | src/util/output.rs:43-52 | stripping whitespace from the laid-out text gives the stripped input |
| Layout.WriteConvertedPasswordText | src/util/output.rs:36-52 | the loop builds the layout of the text, which strips back to the text |
| Layout.PasswordTextWithBytes | src/util/output.rs:32-34 | the file text for `n` bytes has `n + n/5 + n/50` characters |
| Layout.PasswordTextReadsBack | src/util/output.rs:32-52 | the password file reads back as the bytes it was written from, with either text-to-bytes conversion, and its first character names its version |
| Layout.LegacyWritePasswordText | src/output.rs:32-66 | the legacy writer, looking up each byte's character, builds the same text as the current one |
| Cheat.U16Bytes | src/util/output.rs:79 | a u16 read little-endian from two bytes writes back as the same two bytes and fits four hex digits |
| Cheat.U32Bytes | src/util/output.rs:82 | a u32 read little-endian from four bytes writes back as the same four bytes and fits eight hex digits |
| Cheat.ChunkArith | src/util/output.rs:76-94 | for a chunkable length: at least one four-byte write, and head, words and tail add up to the length |
| Cheat.PasswordLengthsChunk | src/util/output.rs:76-94 | the lengths 16, 61 and 260 are all chunkable |
| Cheat.ChunkedWritten | src/util/output.rs:79-91 | applying the codes in order writes exactly the password bytes, each once |
| Cheat.ChunkedContiguous | src/util/output.rs:79-91 | each code's address is the base plus the offset of its first byte |
| Cheat.ChunkedWidths | src/util/output.rs:79-91 | the widths are 2, then `(n-2)/4` fours, then 2, then 1 when the length is odd |
| Cheat.CheatCodes | src/util/output.rs:72-94 | the loop's codes write the password bytes in order at rising contiguous addresses, each value fits its width, with the widths above; the legacy copy at src/output.rs:79-101 is the same loop |
| Cheat.WriteCheatFile | src/util/output.rs:72-94 | the codes start at the chosen build's password buffer address (src/util/output.rs:74) and write the password there unchanged, at contiguous addresses with the chunk widths; the legacy copy takes the address at src/output.rs:81 |

## Left out

- File system and console effects are not modelled: `File::create`, `write_all`, `create_output_dir`, `create_sav_sub_dir`, `create_sub_dir` and `eprintln!`. The text and cheat codes are returned instead of written. The `process::exit` paths of src/subcmd/sav.rs:88-93 and 124-127 are modelled as `Failure` results.
- The `{:08X}:{:04X}` hex text of cheat lines is not modelled. A line is the triple (address, value, width); `Cheat.U16Bytes` and `Cheat.U32Bytes` show that the value fits its digits.
- The clap `PossibleValue` help text, the command-line parsing and the orchestration in src/main.rs, src/args.rs and src/cmd/*.rs are not modelled, apart from the length-to-grade rule (`Enums.GradeOfLength`).
- The repository's decoder, downgrade rules and password validation live in src/util/save.rs, which is not part of this model. The inverse functions here (`Encoder.DecodePassword`, `Cipher.Decrypt`, `Framing.Strip`, `Framing.Unscramble`) are proof devices, not models of that file.
- `HashMap` iteration order is not modelled; the block choice is a Dafny `map`.
- `char::is_whitespace` is modelled as the Unicode White_Space set that Rust uses, written out as code-point ranges. Unicode normalisation and UTF-8 encoding are not modelled. The UTF-8 check of the header at src/sav.rs:172 is modelled as a byte comparison with "CAMELOT".
- KeyRegister.KeyAgrees: the 64-bit register is modelled with wrap-around addition. A debug build would panic on an overflowing add; that is not modelled. Only the low 16 bits reach the key, and the lemma shows they are the same either way.
- Framing.Groups: requires that the stream length is not 5 more than a multiple of 6. At such a length the source's `max <= len` test lets a read run one bit past the end. The three stream lengths, 88, 328 and 1400 bits, never have that form (`Encoder.StreamLengths`).
- Cheat.CheatCodes: requires a chunkable length (2, or at least 8 with length mod 4 at most 1). For other lengths the source's loop reads past the end of the password or underflows `size - 2`. Every password length is chunkable (`Cheat.PasswordLengthsChunk`).
- Bits.SubBits: requires one of the two safe cases (start at or past the end, or end in bounds), because the source indexes out of bounds in the straddling case.
- Symbols.GetPasswordVersion: requires a non-empty string, because the source's `unwrap` panics on empty input.
- Symbols.CharToByte, Symbols.ByteToChar, Symbols.OtherVersionChar, Symbols.TxtToDmp, Symbols.DmpToTxt, Symbols.TxtToAnotherVersion: require a character of the version's table, or a byte below 0x40. The source's `position(..).unwrap()` panics on anything else (src/util/convert.rs:120-180, src/text.rs:105-151); that panic is not modelled. The command handlers reject such input first, with `contains_invalid_char_*` and `contains_invalid_byte` (`Symbols.ContainsInvalidChar`, `Symbols.ContainsInvalidByte`).
- The `u16` position add of the scramble (src/sav.rs:471) is not modelled as a wrap. Positions stay below 260, so the sum never exceeds a `u16`.
- The write of the memory dump file (`write_memory_dump_file`) is not modelled: it writes the password bytes unchanged.
