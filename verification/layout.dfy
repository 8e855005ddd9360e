/** The password text file: the password characters with a space after
    every fifth, a line break after every tenth and an empty line after
    every fiftieth.  Whitespace stripping undoes the layout, so the file
    reads back as the password it was written from. */
module Layout {
  import opened Bits
  import opened Enums
  import opened Symbols

  /** The space between groups of five: the ideographic space U+3000 in
      Japanese text, an ASCII space in English text. */
  function Space(v: Version): (r: char)
    ensures IsWhitespace(r)
  {
    match v
    case Japanese => '\U{3000}'
    case English => ' '
  }

  /** A multiple of 50 is a multiple of 10, and a multiple of 10 is a
      multiple of 5. */
  lemma Multiples(k: nat)
    ensures k % 50 == 0 ==> k % 10 == 0
    ensures k % 10 == 0 ==> k % 5 == 0
  {
    if k % 50 == 0 {
      DivModUnique(k, 10, 5 * (k / 50), 0);
    }
    if k % 10 == 0 {
      DivModUnique(k, 5, 2 * (k / 10), 0);
    }
  }

  /** What follows the `k`-th character (counting from one): two line
      breaks every 50, one every 10, the version's space every 5. */
  function Separator(v: Version, k: nat): (r: seq<char>)
    requires k > 0
    ensures |r| == (if k % 5 == 0 then 1 else 0) + (if k % 50 == 0 then 1 else 0)
    ensures k % 10 == 0 ==> |r| > 0 && r[0] == '\n'
    ensures k % 50 == 0 ==> |r| > 1 && r[1] == '\n'
    ensures k % 5 == 0 && k % 10 != 0 ==> |r| > 0 && r[0] == Space(v)
    ensures forall i :: 0 <= i < |r| ==> IsWhitespace(r[i])
  {
    Multiples(k);
    if k % 50 == 0 then "\n\n"
    else if k % 10 == 0 then "\n"
    else if k % 5 == 0 then [Space(v)]
    else []
  }

  /** Position in the laid-out text of character `i` (counting from zero):
      one separator character for every completed group of five and one
      more for every completed group of fifty. */
  function Pos(i: nat): nat
  {
    i + i / 5 + i / 50
  }

  /** One more character adds one to the count of completed groups of `d`
      exactly when it completes one. */
  lemma DivStep(n: nat, d: nat)
    requires n > 0 && d > 0
    ensures n / d == (n - 1) / d + (if n % d == 0 then 1 else 0)
  {
    var q, r := (n - 1) / d, (n - 1) % d;
    if r == d - 1 {
      DivModUnique(n, d, q + 1, 0);
    } else {
      DivModUnique(n, d, q, r + 1);
    }
  }

  /** The characters in order, each followed by its separator. */
  function Layout(s: seq<char>, v: Version): seq<char>
  {
    if |s| == 0 then []
    else Layout(s[..|s| - 1], v) + [s[|s| - 1]] + Separator(v, |s|)
  }

  /** One more character: the layout so far, the character, its separator. */
  lemma LayoutSnoc(s: seq<char>, i: nat, v: Version)
    requires i < |s|
    ensures Layout(s[..i + 1], v) == Layout(s[..i], v) + [s[i]] + Separator(v, i + 1)
  {
    assert s[..i + 1][..i] == s[..i];
  }

  /** The layout has one separator character per group of five and one more
      per group of fifty. */
  lemma {:induction false} LayoutLength(s: seq<char>, v: Version)
    ensures |Layout(s, v)| == Pos(|s|)
    decreases |s|
  {
    if |s| > 0 {
      LayoutLength(s[..|s| - 1], v);
      DivStep(|s|, 5);
      DivStep(|s|, 50);
    }
  }

  /** The layout of a prefix is a prefix of the layout. */
  lemma {:induction false} LayoutPrefix(s: seq<char>, i: nat, v: Version)
    requires i <= |s|
    ensures Layout(s[..i], v) <= Layout(s, v)
    decreases |s| - i
  {
    if i == |s| {
      assert s[..i] == s;
    } else {
      LayoutPrefix(s, i + 1, v);
      LayoutSnoc(s, i, v);
    }
  }

  /** Character `i` of the password sits at `Pos(i)` in its layout. */
  lemma {:induction false} LayoutShape(s: seq<char>, v: Version)
    ensures |Layout(s, v)| == Pos(|s|)
    ensures forall i :: 0 <= i < |s| ==> Pos(i) < |Layout(s, v)| && Layout(s, v)[Pos(i)] == s[i]
  {
    LayoutLength(s, v);
    forall i | 0 <= i < |s|
      ensures Pos(i) < |Layout(s, v)| && Layout(s, v)[Pos(i)] == s[i]
    {
      CharAt(s, i, v);
    }
  }

  /** `LayoutShape` for one character. */
  lemma CharAt(s: seq<char>, i: nat, v: Version)
    requires i < |s|
    ensures Pos(i) < |Layout(s, v)| && Layout(s, v)[Pos(i)] == s[i]
  {
    var upto := Layout(s[..i + 1], v);
    LayoutPrefix(s, i + 1, v);
    LayoutSnoc(s, i, v);
    LayoutLength(s[..i], v);
    assert upto[Pos(i)] == s[i];
  }

  /** What the layout puts after character `i` (counting from zero): a line
      break after every tenth character, a second one after every fiftieth,
      and the version's space after every other fifth. */
  lemma {:induction false} LayoutSeparators(s: seq<char>, v: Version)
    ensures forall i :: 0 <= i < |s| && (i + 1) % 10 == 0 ==>
      Pos(i) + 1 < |Layout(s, v)| && Layout(s, v)[Pos(i) + 1] == '\n'
    ensures forall i :: 0 <= i < |s| && (i + 1) % 50 == 0 ==>
      Pos(i) + 2 < |Layout(s, v)| && Layout(s, v)[Pos(i) + 2] == '\n'
    ensures forall i :: 0 <= i < |s| && (i + 1) % 5 == 0 && (i + 1) % 10 != 0 ==>
      Pos(i) + 1 < |Layout(s, v)| && Layout(s, v)[Pos(i) + 1] == Space(v)
    ensures forall i :: 0 <= i < |s| && (i + 1) % 5 != 0 && i + 1 < |s| ==>
      Pos(i + 1) == Pos(i) + 1
  {
    forall i | 0 <= i < |s|
      ensures (i + 1) % 10 == 0 ==>
        Pos(i) + 1 < |Layout(s, v)| && Layout(s, v)[Pos(i) + 1] == '\n'
      ensures (i + 1) % 50 == 0 ==>
        Pos(i) + 2 < |Layout(s, v)| && Layout(s, v)[Pos(i) + 2] == '\n'
      ensures (i + 1) % 5 == 0 && (i + 1) % 10 != 0 ==>
        Pos(i) + 1 < |Layout(s, v)| && Layout(s, v)[Pos(i) + 1] == Space(v)
      ensures (i + 1) % 5 != 0 && i + 1 < |s| ==> Pos(i + 1) == Pos(i) + 1
    {
      SeparatorChars(s, i, v);
    }
  }

  /** `LayoutSeparators` for one character. */
  lemma SeparatorChars(s: seq<char>, i: nat, v: Version)
    requires i < |s|
    ensures (i + 1) % 10 == 0 ==>
      Pos(i) + 1 < |Layout(s, v)| && Layout(s, v)[Pos(i) + 1] == '\n'
    ensures (i + 1) % 50 == 0 ==>
      Pos(i) + 2 < |Layout(s, v)| && Layout(s, v)[Pos(i) + 2] == '\n'
    ensures (i + 1) % 5 == 0 && (i + 1) % 10 != 0 ==>
      Pos(i) + 1 < |Layout(s, v)| && Layout(s, v)[Pos(i) + 1] == Space(v)
    ensures (i + 1) % 5 != 0 && i + 1 < |s| ==> Pos(i + 1) == Pos(i) + 1
  {
    var k := i + 1;
    var sep := Separator(v, k);
    SeparatorAt(s, i, v);
    Multiples(k);
    if k % 50 == 0 {
      assert sep == "\n\n";
    } else if k % 10 == 0 {
      assert sep == "\n";
    } else if k % 5 == 0 {
      assert sep == [Space(v)];
    } else {
      DivStep(k, 5);
      DivStep(k, 50);
    }
  }

  /** The separator after character `i` (at most two characters) follows
      it in the layout. */
  lemma SeparatorAt(s: seq<char>, i: nat, v: Version)
    requires i < |s|
    ensures Pos(i) + 1 + |Separator(v, i + 1)| <= |Layout(s, v)|
    ensures |Separator(v, i + 1)| > 0 ==> Layout(s, v)[Pos(i) + 1] == Separator(v, i + 1)[0]
    ensures |Separator(v, i + 1)| > 1 ==> Layout(s, v)[Pos(i) + 2] == Separator(v, i + 1)[1]
  {
    var sep := Separator(v, i + 1);
    var before := Layout(s[..i], v);
    var upto := Layout(s[..i + 1], v);
    LayoutPrefix(s, i + 1, v);
    LayoutSnoc(s, i, v);
    LayoutLength(s[..i], v);
    assert upto == before + [s[i]] + sep;
    if |sep| > 0 {
      assert upto[Pos(i) + 1] == sep[0];
    }
    if |sep| > 1 {
      assert upto[Pos(i) + 2] == sep[1];
    }
  }

  /** Removing whitespace from the laid-out text removes exactly the
      separators. */
  lemma {:induction false} LayoutStrips(s: seq<char>, v: Version)
    ensures RemoveWhitespace(Layout(s, v)) == RemoveWhitespace(s)
    decreases |s|
  {
    if |s| > 0 {
      var n := |s|;
      var p := s[..n - 1];
      var sep := Separator(v, n);
      LayoutStrips(p, v);
      RemoveWhitespaceAppend(Layout(p, v) + [s[n - 1]], sep);
      RemoveWhitespaceAppend(Layout(p, v), [s[n - 1]]);
      RemoveWhitespaceAppend(p, [s[n - 1]]);
      RemoveWhitespaceBlank(sep);
      assert p + [s[n - 1]] == s;
    }
  }

  /** `write_converted_password_text_file` without the file write: push
      each character, then its separator. */
  method WriteConvertedPasswordText(s: seq<char>, v: Version) returns (text: seq<char>)
    ensures text == Layout(s, v)
    ensures RemoveWhitespace(text) == RemoveWhitespace(s)
  {
    text := [];
    var i := 0;
    while i < |s|
      invariant 0 <= i <= |s|
      invariant text == Layout(s[..i], v)
    {
      LayoutSnoc(s, i, v);
      text := text + [s[i]];
      if (i + 1) % 50 == 0 {
        text := text + "\n\n";
      } else if (i + 1) % 10 == 0 {
        text := text + "\n";
      } else if (i + 1) % 5 == 0 {
        text := text + [Space(v)];
      }
      i := i + 1;
    }
    assert s[..i] == s;
    LayoutStrips(s, v);
  }

  /** `write_password_text_file_with_bytes` without the file write: the
      layout of the bytes' characters. */
  function PasswordTextWithBytes(bytes: seq<Byte>, v: Version): (r: seq<char>)
    requires ValidBytes(bytes)
    ensures |r| == Pos(|bytes|)
  {
    LayoutShape(DmpToTxt(bytes, v), v);
    Layout(DmpToTxt(bytes, v), v)
  }

  /** The password file reads back as the bytes it was written from: with
      `txt_to_dmp` after stripping whitespace, with the legacy `txt_to_dmp`
      (which strips it itself), and with the version detected from its
      first character. */
  lemma PasswordTextReadsBack(bytes: seq<Byte>, v: Version)
    requires ValidBytes(bytes)
    ensures ValidText(RemoveWhitespace(PasswordTextWithBytes(bytes, v)), v)
    ensures TxtToDmp(RemoveWhitespace(PasswordTextWithBytes(bytes, v)), v) == bytes
    ensures LegacyTxtToDmp(PasswordTextWithBytes(bytes, v), v) == bytes
    ensures |bytes| > 0 ==> GetPasswordVersion(RemoveWhitespace(PasswordTextWithBytes(bytes, v))) == v
  {
    var s := DmpToTxt(bytes, v);
    LayoutStrips(s, v);
    RemoveWhitespaceValid(s, v);
    DmpRoundTrip(bytes, v);
    LegacyTxtToDmpAgrees(PasswordTextWithBytes(bytes, v), v);
    if |bytes| > 0 {
      VersionDetected(s, v);
    }
  }

  /** The legacy separator pushes, one character at a time. */
  method PushLegacySeparator(text: seq<char>, v: Version, k: nat) returns (text': seq<char>)
    requires k > 0
    ensures text' == text + Separator(v, k)
  {
    text' := text;
    if k % 50 == 0 {
      text' := text' + ['\n'];
      text' := text' + ['\n'];
    } else if k % 10 == 0 {
      text' := text' + ['\n'];
    } else if k % 5 == 0 {
      text' := text' + [Space(v)];
    }
  }

  /** The legacy `write_password_text_file` without the file write: look
      each byte's character up and push it, then its separator. */
  method LegacyWritePasswordText(bytes: seq<Byte>, v: Version) returns (text: seq<char>)
    requires ValidBytes(bytes)
    ensures text == PasswordTextWithBytes(bytes, v)
  {
    ghost var s := DmpToTxt(bytes, v);
    text := [];
    var i := 0;
    while i < |bytes|
      invariant 0 <= i <= |bytes|
      invariant text == Layout(s[..i], v)
    {
      LayoutSnoc(s, i, v);
      var c := ByteToChar(v, bytes[i]);
      assert c == s[i];
      text := text + [c];
      text := PushLegacySeparator(text, v, i + 1);
      i := i + 1;
    }
    assert s[..i] == s;
  }
}
