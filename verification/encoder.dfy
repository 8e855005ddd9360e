/** `gen_password_bytes` end to end: the packed payload padded to the
    grade's size, encrypted with its key, cut into checksummed six-bit
    entries and scrambled.  The inverse pipeline is here too, to show
    that nothing is lost on the way. */
module Encoder {
  import opened Bits
  import opened Enums
  import opened SaveData
  import opened Payload
  import opened Cipher
  import opened Framing

  /** The padded payload: the packed fields followed by zero bits up to
      `8 * size` bits. */
  function PaddedPayload(g: Grade, rec: Record): (r: seq<Bit>)
    ensures |r| == 8 * PayloadSize(g)
  {
    Pad(PayloadBits(g, rec), PayloadSize(g))
  }

  /** The padded payload starts with the packed fields and ends in zeros. */
  lemma PaddedPayloadFields(g: Grade, rec: Record)
    ensures PaddedPayload(g, rec)[..PackedLength(g)] == PayloadBits(g, rec)
    ensures forall i :: PackedLength(g) <= i < 8 * PayloadSize(g) ==> PaddedPayload(g, rec)[i] == 0
  {
  }

  /** Bit length of the encrypted stream for each grade: the payload and the
      two key bytes. */
  lemma StreamLengths(g: Grade, n: nat)
    requires n == 8 * PayloadSize(g) + 16
    ensures n % 6 != 5 && GroupCount(n) + GroupCount(n) / 9 == PasswordLength(g)
  {
  }

  /** Encryption, entries with checksums, and scrambling of a padded payload. */
  function EncodeStream(g: Grade, padded: seq<Bit>): (r: seq<Sym>)
    requires |padded| == 8 * PayloadSize(g)
    ensures |r| == PasswordLength(g)
  {
    var enc := Encrypt(padded);
    StreamLengths(g, |enc|);
    var gs := Groups(enc);
    Scramble(Checksummed(gs))
  }

  /** The inverse pipeline: unscramble, check and strip the checksums,
      regroup into the encrypted bit string and decrypt it.  A password of
      the wrong length, with a wrong checksum or with a wrong key yields
      nothing. */
  function DecodePassword(g: Grade, pw: seq<Sym>): (r: Option<seq<Bit>>)
    ensures r.Some? ==> |r.value| == 8 * PayloadSize(g)
  {
    var n := 8 * PayloadSize(g) + 16;
    var es := Unscramble(pw);
    StreamLengths(g, n);
    if |pw| != PasswordLength(g) || !ValidChecksums(es) then None
    else
      var entries := Strip(es);
      if |entries| != GroupCount(n) then None
      else Decrypt(Ungroup(entries, n))
  }

  /** Decoding an encoded stream gives back the padded payload, and the
      checksums of the encoding are valid. */
  lemma DecodeEncode(g: Grade, padded: seq<Bit>)
    requires |padded| == 8 * PayloadSize(g)
    ensures ValidChecksums(Unscramble(EncodeStream(g, padded)))
    ensures DecodePassword(g, EncodeStream(g, padded)) == Some(padded)
  {
    var enc := Encrypt(padded);
    var n := 8 * PayloadSize(g) + 16;
    StreamLengths(g, n);
    FramedRoundTrip(enc);
    DecryptEncrypt(padded);
    DecodeStream(g, EncodeStream(g, padded), Groups(enc), enc);
  }

  /** A password of the grade's length whose unscrambled entries carry valid
      checksums around the entries of `enc` decodes to what `enc` decrypts to. */
  lemma DecodeStream(g: Grade, pw: seq<Sym>, gs: seq<Sym>, enc: seq<Bit>)
    requires |enc| == 8 * PayloadSize(g) + 16 && |pw| == PasswordLength(g)
    requires ValidChecksums(Unscramble(pw)) && Strip(Unscramble(pw)) == gs
    requires |gs| == GroupCount(|enc|) && Ungroup(gs, |enc|) == enc
    ensures DecodePassword(g, pw) == Decrypt(enc)
  {
  }

  /** The password entries for a grade and a save record. */
  function GenPasswordBytes(g: Grade, rec: Record): (r: seq<Sym>)
    ensures |r| == PasswordLength(g)
  {
    EncodeStream(g, PaddedPayload(g, rec))
  }

  /** `get_password_bytes`: read the record out of the raw save and encode it. */
  function GetPasswordBytes(raw: seq<Byte>, g: Grade): (r: seq<Sym>)
    requires LastByteRead < |raw|
    ensures |r| == PasswordLength(g)
  {
    GenPasswordBytes(g, GetSaveData(raw))
  }

  /** Decoding a generated password gives back the padded payload, whose
      first bits are the packed fields. */
  lemma DecodeGenerated(g: Grade, rec: Record)
    ensures ValidChecksums(Unscramble(GenPasswordBytes(g, rec)))
    ensures DecodePassword(g, GenPasswordBytes(g, rec)) == Some(PaddedPayload(g, rec))
  {
    DecodeEncode(g, PaddedPayload(g, rec));
  }

  /** Two save records whose packed fields differ give different passwords. */
  lemma GeneratedInjective(g: Grade, a: Record, b: Record)
    requires PayloadBits(g, a) != PayloadBits(g, b)
    ensures GenPasswordBytes(g, a) != GenPasswordBytes(g, b)
  {
    PaddedPayloadFields(g, a);
    PaddedPayloadFields(g, b);
    DecodeGenerated(g, a);
    DecodeGenerated(g, b);
  }
}
