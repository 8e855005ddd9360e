/** Password grades, password text versions and cheat regions, with the
    lookups the tool performs on them (current and legacy enumerations). */
module Enums {

  datatype Option<T> = None | Some(value: T)

  /** The outcome of an operation the source can abandon with an error. */
  datatype Result<T, E> = Success(value: T) | Failure(error: E)

  // ---------------------------------------------------------------------
  // Password grade

  datatype Grade = Gold | Silver | Bronze {
    predicate IsGold() { this == Gold }
    predicate IsSilver() { this == Silver }
    predicate IsBronze() { this == Bronze }
  }

  /** The grade list offered on the command line. */
  function GradeVariants(): (r: seq<Grade>)
    ensures forall g :: g in r
    ensures forall i, j :: 0 <= i < j < |r| ==> r[i] != r[j]
  {
    var r := [Gold, Silver, Bronze];
    assert forall g :: g in r by {
      forall g ensures g in r {
        assert g == r[0] || g == r[1] || g == r[2];
      }
    }
    r
  }

  /** Number of payload bytes before the key is appended. */
  function PayloadSize(g: Grade): (r: nat)
    ensures 8 <= r
  {
    match g
    case Bronze => 9
    case Silver => 39
    case Gold => 173
  }

  /** Number of password symbols a grade produces. */
  function PasswordLength(g: Grade): (r: nat)
    ensures r >= 16
  {
    match g
    case Bronze => 16
    case Silver => 61
    case Gold => 260
  }

  /** The grade of a password is decided by its length alone; any other
      length is rejected. */
  function GradeOfLength(n: nat): (r: Option<Grade>)
    ensures forall g :: r == Some(g) <==> PasswordLength(g) == n
  {
    if n == 260 then Some(Gold)
    else if n == 61 then Some(Silver)
    else if n == 16 then Some(Bronze)
    else None
  }

  /** The command-line spelling of a grade. */
  function GradeLetter(g: Grade): string
  {
    match g
    case Gold => "g"
    case Silver => "s"
    case Bronze => "b"
  }

  /** Legacy `get_password_grade`: unknown spellings fall back to gold. */
  function ParseGrade(s: string): (r: Grade)
    ensures r == Silver <==> s == "s"
    ensures r == Bronze <==> s == "b"
  {
    match s
    case "g" => Gold
    case "s" => Silver
    case "b" => Bronze
    case _ => Gold
  }

  /** Parsing the command-line spelling of a grade gives the grade back. */
  lemma ParseGradeLetter(g: Grade)
    ensures ParseGrade(GradeLetter(g)) == g
  {
  }

  // ---------------------------------------------------------------------
  // Password text version

  datatype Version = Japanese | English {
    /** The other version. */
    function Rev(): (r: Version)
      ensures r != this
    {
      match this
      case Japanese => English
      case English => Japanese
    }
  }

  lemma RevInvolution(v: Version)
    ensures v.Rev().Rev() == v
  {
  }

  function VersionVariants(): (r: seq<Version>)
    ensures forall v :: v in r
    ensures forall i, j :: 0 <= i < j < |r| ==> r[i] != r[j]
  {
    var r := [Japanese, English];
    assert forall v :: v in r by {
      forall v ensures v in r {
        assert v == r[0] || v == r[1];
      }
    }
    r
  }

  function VersionLetter(v: Version): string
  {
    match v
    case Japanese => "j"
    case English => "e"
  }

  /** Legacy `get_password_version`: only "j" selects Japanese. */
  function ParseVersion(s: string): (r: Version)
    ensures r == Japanese <==> s == "j"
  {
    if s == "j" then Japanese else English
  }

  lemma ParseVersionLetter(v: Version)
    ensures ParseVersion(VersionLetter(v)) == v
  {
  }

  /** Legacy `rev_password_version`, the same swap as `Version.Rev`. */
  function RevVersion(v: Version): (r: Version)
    ensures r != v && r == v.Rev()
  {
    match v
    case Japanese => English
    case English => Japanese
  }

  lemma RevVersionInvolution(v: Version)
    ensures RevVersion(RevVersion(v)) == v
  {
  }

  // ---------------------------------------------------------------------
  // Cheat regions (Golden Sun: The Lost Age password screen address)

  datatype Region = Japan | USA | Europe | Germany | Spain | France | Italy {
    /** Address of the password input buffer in this region's build. */
    function Address(): (r: nat)
      ensures r == 0x0200_A78A <==> this == Japan
      ensures r == 0x0200_A74A <==> this == USA || this == Europe
      ensures r == 0x0200_A742 <==> this == Germany || this == France || this == Italy
      ensures r == 0x0200_A73E <==> this == Spain
    {
      match this
      case Japan => 0x0200_A78A
      case USA | Europe => 0x0200_A74A
      case Germany | France | Italy => 0x0200_A742
      case Spain => 0x0200_A73E
    }
  }

  function RegionVariants(): (r: seq<Region>)
    ensures forall c :: c in r
    ensures forall i, j :: 0 <= i < j < |r| ==> r[i] != r[j]
  {
    var r := [Japan, USA, Europe, Germany, Spain, France, Italy];
    assert forall c :: c in r by {
      forall c ensures c in r {
        assert c == r[0] || c == r[1] || c == r[2] || c == r[3] || c == r[4] || c == r[5] || c == r[6];
      }
    }
    r
  }

  function RegionLetter(c: Region): string
  {
    match c
    case Japan => "j"
    case USA => "u"
    case Europe => "e"
    case Germany => "g"
    case Spain => "s"
    case France => "f"
    case Italy => "i"
  }

  /** The legacy six-valued cheat version. */
  datatype LegacyRegion = LJapanese | LEnglish | LGerman | LSpanish | LFrench | LItalian

  /** Legacy `get_cheat_version`: unknown spellings fall back to English. */
  function ParseLegacyRegion(s: string): (r: LegacyRegion)
    ensures r == LJapanese <==> s == "j"
    ensures r == LGerman <==> s == "g"
    ensures r == LSpanish <==> s == "s"
    ensures r == LFrench <==> s == "f"
    ensures r == LItalian <==> s == "i"
    ensures r == LEnglish <==> s !in {"j", "g", "s", "f", "i"}
  {
    match s
    case "j" => LJapanese
    case "e" => LEnglish
    case "g" => LGerman
    case "s" => LSpanish
    case "f" => LFrench
    case "i" => LItalian
    case _ => LEnglish
  }

  /** Legacy `get_cheat_address`. */
  function LegacyAddress(c: LegacyRegion): (r: nat)
    ensures r == 0x0200_A742 <==> c == LGerman || c == LFrench || c == LItalian
  {
    match c
    case LJapanese => 0x0200_A78A
    case LEnglish => 0x0200_A74A
    case LGerman => 0x0200_A742
    case LSpanish => 0x0200_A73E
    case LFrench => 0x0200_A742
    case LItalian => 0x0200_A742
  }

  /** Both address tables agree: whatever region letter the current tool
      accepts, the legacy parser and table give the same address (the legacy
      tool maps "u" to its English default, which is the USA address). */
  lemma LegacyAddressAgrees(c: Region)
    ensures LegacyAddress(ParseLegacyRegion(RegionLetter(c))) == c.Address()
  {
  }
}
