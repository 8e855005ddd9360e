/** Reading the character-progress record out of a Golden Sun save file.

    A save file is a sequence of sixteen 4 KiB blocks.  Each block starts with
    a 16-byte header ("CAMELOT", a slot number, a checksum, a priority) and is
    followed by the save data proper.  These functions locate the first
    Golden Sun block, choose one block per slot, and decode the fields the
    password encoder needs from a block's data at fixed little-endian offsets. */
module SaveData {
  import opened Bits
  import opened Enums

  type U16 = x: int | 0 <= x < 0x1_0000
  type U32 = x: int | 0 <= x < 0x1_0000_0000

  /** The record the password is generated from (`SaveData` in the source). */
  datatype SaveRecord = SaveRecord(
    levels: seq<Byte>,      // one per party member
    djinn: seq<bv32>,       // one presence mask per element
    events: seq<Byte>,      // story flags, 0 or 1
    stats: seq<seq<U16>>,   // per member: HP, EP, attack, defense, agility, luck
    items: seq<seq<U16>>,   // per member: 15 slots, `(quantity << 11) | id`
    coins: U32)
  {
    /** The fixed array shapes of the source's record. */
    predicate Valid()
    {
      && |levels| == 4 && |djinn| == 4 && |events| == 6
      && |stats| == 4 && (forall i :: 0 <= i < 4 ==> |stats[i]| == 6)
      && |items| == 4 && (forall i :: 0 <= i < 4 ==> |items[i]| == 15)
    }
  }

  /** A record with the source's fixed array shapes. */
  type Record = r: SaveRecord | r.Valid()
    witness SaveRecord([0, 0, 0, 0], [0, 0, 0, 0], [0, 0, 0, 0, 0, 0], seq(4, i => seq(6, j => 0)), seq(4, i => seq(15, j => 0)), 0)

  /** A save file holds 16 blocks of 0x1000 bytes. */
  const SlotCount: nat := 16
  /** Bytes of a block kept after the 16-byte header. */
  const DataLength: nat := 0xA30

  function LeU16(raw: seq<Byte>, off: nat): U16
    requires off + 2 <= |raw|
  {
    raw[off] as int + 256 * raw[off + 1] as int
  }

  function LeU32(raw: seq<Byte>, off: nat): U32
    requires off + 4 <= |raw|
  {
    raw[off] as int + 256 * raw[off + 1] as int + 0x1_0000 * raw[off + 2] as int + 0x100_0000 * raw[off + 3] as int
  }

  // ---------------------------------------------------------------------
  // Fields of one block's data

  /** `get_event_flag`: bit `flag & 7` of byte `0x40 + (flag >> 3)`. */
  function GetEventFlag(raw: seq<Byte>, flag: nat): (r: Byte)
    requires 0x40 + flag / 8 < |raw|
    ensures r <= 1
    ensures r == ToBits(raw[0x40 + flag / 8], 8)[7 - flag % 8]
  {
    (raw[0x40 + flag / 8] / Pow2(flag % 8)) % 2
  }

  /** The six story events the password carries, in password order. */
  const EventFlags: seq<nat> := [0x941, 0x951, 0x8B3, 0x8D1, 0x81E, 0x868]

  /** Start of party member `i`'s record inside the block data. */
  function PersonBase(i: nat): nat
  {
    0x500 + 0x14C * i
  }

  /** Offsets of HP, EP, attack, defense and agility (little-endian u16) and of
      luck (one byte) inside a member's record. */
  const StatOffsets: seq<nat> := [0x10, 0x12, 0x18, 0x1A, 0x1C, 0x1E]

  /** The highest byte `GetSaveData` reads; it lies inside a block's data. */
  const LastByteRead: nat := 0x9EB

  /** A little-endian u32 as a bit vector. */
  function LeWord(raw: seq<Byte>, off: nat): bv32
    requires off + 4 <= |raw|
  {
    (raw[off] as nat + 0x100 * raw[off + 1] as nat + 0x1_0000 * raw[off + 2] as nat + 0x100_0000 * raw[off + 3] as nat) as bv32
  }

  /** Member `i`'s presence mask for element `j`: the little-endian u32 at
      `0x5F8 + 0x14C * i + 4 * j`. */
  function DjinnWord(raw: seq<Byte>, i: nat, j: nat): bv32
    requires i < 4 && j < 4 && LastByteRead < |raw|
  {
    LeWord(raw, PersonBase(i) + 0xF8 + 4 * j)
  }

  predicate IsSet(w: bv32, b: bv5)
  {
    (w >> b) & 1 == 1
  }

  /** The bitwise OR of a list of masks, folded from the first. */
  function OrAll(ws: seq<bv32>): bv32
  {
    if |ws| == 0 then 0 else OrAll(ws[..|ws| - 1]) | ws[|ws| - 1]
  }

  lemma OrBit(a: bv32, c: bv32, b: bv5)
    ensures IsSet(a | c, b) <==> IsSet(a, b) || IsSet(c, b)
  {
  }

  /** A bit is set in the OR of a list exactly when some member has it set. */
  lemma {:induction false} OrAllBit(ws: seq<bv32>, b: bv5)
    ensures IsSet(OrAll(ws), b) <==> exists i :: 0 <= i < |ws| && IsSet(ws[i], b)
  {
    if |ws| > 0 {
      var init := ws[..|ws| - 1];
      OrAllBit(init, b);
      OrBit(OrAll(init), ws[|ws| - 1], b);
      if exists i :: 0 <= i < |ws| && IsSet(ws[i], b) {
        var i :| 0 <= i < |ws| && IsSet(ws[i], b);
        if i < |ws| - 1 {
          assert init[i] == ws[i];
        }
      }
      if exists i :: 0 <= i < |init| && IsSet(init[i], b) {
        var i :| 0 <= i < |init| && IsSet(init[i], b);
        assert ws[i] == init[i];
      }
    } else {
      assert (0 as bv32 >> b) & 1 == 0;
    }
  }

  /** The four members' masks for element `j`. */
  function MemberDjinn(raw: seq<Byte>, j: nat): (r: seq<bv32>)
    requires j < 4 && LastByteRead < |raw|
    ensures |r| == 4 && forall i :: 0 <= i < 4 ==> r[i] == DjinnWord(raw, i, j)
  {
    [DjinnWord(raw, 0, j), DjinnWord(raw, 1, j), DjinnWord(raw, 2, j), DjinnWord(raw, 3, j)]
  }

  /** A bit of the party's mask is set when some member's mask has it. */
  lemma PartyDjinnBit(raw: seq<Byte>, j: nat, b: bv5)
    requires j < 4 && LastByteRead < |raw|
    ensures IsSet(OrAll(MemberDjinn(raw, j)), b) <==> exists i :: 0 <= i < 4 && IsSet(DjinnWord(raw, i, j), b)
  {
    var ws := MemberDjinn(raw, j);
    OrAllBit(ws, b);
    if IsSet(OrAll(ws), b) {
      var i :| 0 <= i < 4 && IsSet(ws[i], b);
      assert IsSet(DjinnWord(raw, i, j), b);
    }
    if exists i :: 0 <= i < 4 && IsSet(DjinnWord(raw, i, j), b) {
      var i :| 0 <= i < 4 && IsSet(DjinnWord(raw, i, j), b);
      assert IsSet(ws[i], b);
    }
  }

  /** The party's mask for element `j`: the source ORs the four members' masks
      into a zeroed word, so an element's djinn counts as held when any member
      holds it. */
  function PartyDjinn(raw: seq<Byte>, j: nat): (r: bv32)
    requires j < 4 && LastByteRead < |raw|
    ensures forall b: bv5 :: IsSet(r, b) <==> exists i :: 0 <= i < 4 && IsSet(DjinnWord(raw, i, j), b)
  {
    var r := OrAll(MemberDjinn(raw, j));
    assert forall b: bv5 :: IsSet(r, b) <==> exists i :: 0 <= i < 4 && IsSet(DjinnWord(raw, i, j), b) by {
      forall b: bv5 ensures IsSet(r, b) <==> exists i :: 0 <= i < 4 && IsSet(DjinnWord(raw, i, j), b) {
        PartyDjinnBit(raw, j, b);
      }
    }
    r
  }

  function Stat(raw: seq<Byte>, i: nat, k: nat): (r: U16)
    requires i < 4 && k < 6 && LastByteRead < |raw|
    ensures k == 5 ==> r < 256
  {
    var off := PersonBase(i) + StatOffsets[k];
    if k == 5 then raw[off] else LeU16(raw, off)
  }

  function Item(raw: seq<Byte>, i: nat, s: nat): U16
    requires i < 4 && s < 15 && LastByteRead < |raw|
  {
    LeU16(raw, PersonBase(i) + 0xD8 + 2 * s)
  }

  function Levels(raw: seq<Byte>): (r: seq<Byte>)
    requires LastByteRead < |raw|
    ensures |r| == 4 && forall i :: 0 <= i < 4 ==> r[i] == raw[0x50F + 0x14C * i]
  {
    seq(4, i requires 0 <= i < 4 => raw[PersonBase(i) + 0xF])
  }

  function Djinn(raw: seq<Byte>): (r: seq<bv32>)
    requires LastByteRead < |raw|
    ensures |r| == 4
    ensures forall j, b: bv5 :: 0 <= j < 4 ==>
              (IsSet(r[j], b) <==> exists i :: 0 <= i < 4 && IsSet(DjinnWord(raw, i, j), b))
  {
    seq(4, j requires 0 <= j < 4 => PartyDjinn(raw, j))
  }

  function Events(raw: seq<Byte>): (r: seq<Byte>)
    requires LastByteRead < |raw|
    ensures |r| == 6
    ensures forall k :: 0 <= k < 6 ==> r[k] <= 1 && r[k] == ToBits(raw[0x40 + EventFlags[k] / 8], 8)[7 - EventFlags[k] % 8]
  {
    seq(6, k requires 0 <= k < 6 => GetEventFlag(raw, EventFlags[k]))
  }

  function Stats(raw: seq<Byte>): (r: seq<seq<U16>>)
    requires LastByteRead < |raw|
    ensures |r| == 4 && forall i :: 0 <= i < 4 ==> |r[i]| == 6
    ensures forall i, k :: 0 <= i < 4 && 0 <= k < 5 ==> r[i][k] == LeU16(raw, 0x500 + 0x14C * i + StatOffsets[k])
    ensures forall i :: 0 <= i < 4 ==> r[i][5] == raw[0x51E + 0x14C * i]
  {
    seq(4, i requires 0 <= i < 4 => seq(6, k requires 0 <= k < 6 => Stat(raw, i, k)))
  }

  function Items(raw: seq<Byte>): (r: seq<seq<U16>>)
    requires LastByteRead < |raw|
    ensures |r| == 4 && forall i :: 0 <= i < 4 ==> |r[i]| == 15
    ensures forall i, s :: 0 <= i < 4 && 0 <= s < 15 ==> r[i][s] == LeU16(raw, 0x5D8 + 0x14C * i + 2 * s)
  {
    seq(4, i requires 0 <= i < 4 => seq(15, s requires 0 <= s < 15 => Item(raw, i, s)))
  }

  /** `get_save_data`: the record decoded from one block's data.  Both copies
      of the source read the same fields; the legacy copy re-reads the events
      once per member, which yields the same values. */
  function GetSaveData(raw: seq<Byte>): (r: SaveRecord)
    requires LastByteRead < |raw|
    ensures r.Valid()
    ensures r.levels == Levels(raw) && r.djinn == Djinn(raw) && r.events == Events(raw)
    ensures r.stats == Stats(raw) && r.items == Items(raw)
    ensures r.coins == LeU32(raw, 0x250)
  {
    SaveRecord(Levels(raw), Djinn(raw), Events(raw), Stats(raw), Items(raw), LeU32(raw, 0x250))
  }

  // ---------------------------------------------------------------------
  // Locating the first Golden Sun block (`check_save_type_with_loop_start_index`)

  /** "CAMELOT" in ASCII. */
  const Camelot: seq<Byte> := [0x43, 0x41, 0x4D, 0x45, 0x4C, 0x4F, 0x54]

  /** Build dates of the six regional releases of the first game. */
  const BuildDates: seq<U16> := [0x159C, 0x1652, 0x1849, 0x1885, 0x1713, 0x1886]

  predicate HasCamelotHeader(raw: seq<Byte>, i: nat)
    requires i < SlotCount && |raw| >= 0x10000
  {
    raw[i * 0x1000 .. i * 0x1000 + 7] == Camelot
  }

  predicate IsFirstGameBlock(raw: seq<Byte>, i: nat)
    requires i < SlotCount && |raw| >= 0x10000
  {
    HasCamelotHeader(raw, i) && LeU16(raw, i * 0x1000 + 0x36) in BuildDates
  }

  /** The source scans the blocks in order and stops at the first one with the
      "CAMELOT" header and a known build date; without one it reports
      `(false, 16)`. */
  method CheckSaveType(raw: seq<Byte>) returns (found: bool, start: nat)
    requires |raw| >= 0x10000
    ensures found <==> exists i :: 0 <= i < SlotCount && IsFirstGameBlock(raw, i)
    ensures found ==> start < SlotCount && IsFirstGameBlock(raw, start)
    ensures forall i :: 0 <= i < start && i < SlotCount ==> !IsFirstGameBlock(raw, i)
    ensures !found ==> start == SlotCount
  {
    found, start := false, SlotCount;
    var i := 0;
    while i < SlotCount
      invariant 0 <= i <= SlotCount
      invariant !found && start == SlotCount
      invariant forall k :: 0 <= k < i ==> !IsFirstGameBlock(raw, k)
    {
      if raw[i * 0x1000 .. i * 0x1000 + 7] == Camelot {
        var date := LeU16(raw, i * 0x1000 + 0x36);
        var d := 0;
        while d < |BuildDates|
          invariant 0 <= d <= |BuildDates|
          invariant forall e :: 0 <= e < d ==> BuildDates[e] != date
        {
          if BuildDates[d] == date {
            assert IsFirstGameBlock(raw, i);
            return true, i;
          }
          d := d + 1;
        }
        assert !IsFirstGameBlock(raw, i);
      }
      i := i + 1;
    }
  }

  // ---------------------------------------------------------------------
  // Choosing one block per slot (`get_raw_save_data`, src/sav.rs)

  datatype RawSave = RawSave(priority: U16, isClear: bool, data: seq<Byte>)

  function SlotOf(raw: seq<Byte>, i: nat): Byte
    requires i < SlotCount && |raw| >= 0x10000
  {
    raw[i * 0x1000 + 0x07]
  }

  function PriorityOf(raw: seq<Byte>, i: nat): U16
    requires i < SlotCount && |raw| >= 0x10000
  {
    LeU16(raw, i * 0x1000 + 0x0A)
  }

  predicate IsClear(raw: seq<Byte>, i: nat)
    requires i < SlotCount && |raw| >= 0x10000
  {
    raw[i * 0x1000 + 0x410] == 0x01
  }

  /** A block takes part in the choice when its slot number is at most 2 and
      it is a clear save, or every save is wanted. */
  predicate IsCandidate(raw: seq<Byte>, all: bool, i: nat)
    requires i < SlotCount && |raw| >= 0x10000
  {
    SlotOf(raw, i) <= 2 && (IsClear(raw, i) || all)
  }

  /** The data kept of a block: the 0xA30 bytes after its header. */
  function BlockSave(raw: seq<Byte>, i: nat): (r: RawSave)
    requires i < SlotCount && |raw| >= 0x10000
    ensures |r.data| == DataLength
  {
    RawSave(PriorityOf(raw, i), IsClear(raw, i), raw[i * 0x1000 + 0x10 .. i * 0x1000 + 0xA40])
  }

  /** Block `i` is the block kept for slot `s` among the candidates in
      `start .. upto - 1`: it is a candidate of that slot, no candidate of the
      slot has a higher priority, and every earlier one has a lower priority
      (the earliest block wins a tie). */
  predicate IsWinner(raw: seq<Byte>, all: bool, start: nat, upto: nat, s: nat, i: nat)
    requires upto <= SlotCount && |raw| >= 0x10000
  {
    && start <= i < upto && IsCandidate(raw, all, i) && SlotOf(raw, i) == s
    && (forall j :: start <= j < upto && IsCandidate(raw, all, j) && SlotOf(raw, j) == s ==>
          PriorityOf(raw, j) <= PriorityOf(raw, i))
    && (forall j :: start <= j < i && IsCandidate(raw, all, j) && SlotOf(raw, j) == s ==>
          PriorityOf(raw, j) < PriorityOf(raw, i))
  }

  /** The source's two passes over blocks `start .. upto - 1`, recording for
      each slot the index of the block kept: candidates are taken in block
      order, and a candidate replaces the block already kept for its slot only
      when its priority is strictly higher. */
  function Scan(raw: seq<Byte>, all: bool, start: nat, upto: nat): (m: map<nat, nat>)
    requires upto <= SlotCount && |raw| >= 0x10000
    ensures forall s :: s in m ==> m[s] < upto
    decreases upto
  {
    if upto <= start then map[]
    else
      var m := Scan(raw, all, start, upto - 1);
      var i := upto - 1;
      if !IsCandidate(raw, all, i) then m
      else
        var s := SlotOf(raw, i) as nat;
        if s in m && PriorityOf(raw, i) <= PriorityOf(raw, m[s]) then m
        else m[s := i]
  }

  /** After the scan a slot has an entry exactly when some candidate block has
      that slot. */
  lemma {:induction false} ScanDomain(raw: seq<Byte>, all: bool, start: nat, upto: nat)
    requires upto <= SlotCount && |raw| >= 0x10000
    ensures forall s :: s in Scan(raw, all, start, upto) <==>
              exists i :: start <= i < upto && IsCandidate(raw, all, i) && SlotOf(raw, i) == s
    decreases upto
  {
    if upto > start {
      var n := upto - 1;
      ScanDomain(raw, all, start, n);
      var m := Scan(raw, all, start, n);
      var r := Scan(raw, all, start, upto);
      forall s
        ensures s in r <==> exists i :: start <= i < upto && IsCandidate(raw, all, i) && SlotOf(raw, i) == s
      {
        if exists i :: start <= i < upto && IsCandidate(raw, all, i) && SlotOf(raw, i) == s {
          var i :| start <= i < upto && IsCandidate(raw, all, i) && SlotOf(raw, i) == s;
          if i < n {
            assert s in m;
          }
        }
        if s in r && s !in m {
          assert IsCandidate(raw, all, n) && SlotOf(raw, n) == s;
        }
      }
    }
  }

  /** After the scan the entry of every slot is the winning block. */
  lemma {:induction false} ScanWinners(raw: seq<Byte>, all: bool, start: nat, upto: nat)
    requires upto <= SlotCount && |raw| >= 0x10000
    ensures forall s :: s in Scan(raw, all, start, upto) ==>
              IsWinner(raw, all, start, upto, s, Scan(raw, all, start, upto)[s])
    decreases upto
  {
    if upto > start {
      var n := upto - 1;
      ScanWinners(raw, all, start, n);
      ScanDomain(raw, all, start, n);
      forall s | s in Scan(raw, all, start, upto)
        ensures IsWinner(raw, all, start, upto, s, Scan(raw, all, start, upto)[s])
      {
        ScanStep(raw, all, start, upto, s);
      }
    }
  }

  /** After the scan a slot has an entry exactly when some candidate block has
      that slot, and the entry is the winning block. */
  lemma ScanKeeps(raw: seq<Byte>, all: bool, start: nat, upto: nat)
    requires upto <= SlotCount && |raw| >= 0x10000
    ensures forall s :: s in Scan(raw, all, start, upto) <==>
              exists i :: start <= i < upto && IsCandidate(raw, all, i) && SlotOf(raw, i) == s
    ensures forall s :: s in Scan(raw, all, start, upto) ==>
              IsWinner(raw, all, start, upto, s, Scan(raw, all, start, upto)[s])
  {
    ScanDomain(raw, all, start, upto);
    ScanWinners(raw, all, start, upto);
  }

  /** One step of `ScanWinners` for a single slot. */
  lemma ScanStep(raw: seq<Byte>, all: bool, start: nat, upto: nat, s: nat)
    requires start < upto <= SlotCount && |raw| >= 0x10000
    requires var m := Scan(raw, all, start, upto - 1);
      s in m ==> IsWinner(raw, all, start, upto - 1, s, m[s])
    requires (exists i :: start <= i < upto - 1 && IsCandidate(raw, all, i) && SlotOf(raw, i) == s) ==>
      s in Scan(raw, all, start, upto - 1)
    requires s in Scan(raw, all, start, upto)
    ensures IsWinner(raw, all, start, upto, s, Scan(raw, all, start, upto)[s])
  {
    var n := upto - 1;
    var m := Scan(raw, all, start, n);
    if IsCandidate(raw, all, n) && SlotOf(raw, n) == s && !(s in m && PriorityOf(raw, n) <= PriorityOf(raw, m[s])) {
      assert Scan(raw, all, start, upto)[s] == n;
      ScanStepTaken(raw, all, start, upto, s);
    } else {
      assert s in m && Scan(raw, all, start, upto)[s] == m[s];
      ScanStepKept(raw, all, start, upto, s, m[s]);
    }
  }

  /** The new block wins its slot when it beats the block kept so far. */
  lemma ScanStepTaken(raw: seq<Byte>, all: bool, start: nat, upto: nat, s: nat)
    requires start < upto <= SlotCount && |raw| >= 0x10000
    requires var m := Scan(raw, all, start, upto - 1);
      s in m ==> IsWinner(raw, all, start, upto - 1, s, m[s])
    requires (exists i :: start <= i < upto - 1 && IsCandidate(raw, all, i) && SlotOf(raw, i) == s) ==>
      s in Scan(raw, all, start, upto - 1)
    requires IsCandidate(raw, all, upto - 1) && SlotOf(raw, upto - 1) == s
    requires var m := Scan(raw, all, start, upto - 1);
      !(s in m && PriorityOf(raw, upto - 1) <= PriorityOf(raw, m[s]))
    ensures IsWinner(raw, all, start, upto, s, upto - 1)
  {
    var n := upto - 1;
    var m := Scan(raw, all, start, n);
    forall j | start <= j < upto && IsCandidate(raw, all, j) && SlotOf(raw, j) == s
      ensures PriorityOf(raw, j) <= PriorityOf(raw, n)
      ensures j < n ==> PriorityOf(raw, j) < PriorityOf(raw, n)
    {
      if j < n {
        assert s in m;
        assert IsWinner(raw, all, start, n, s, m[s]);
      }
    }
  }

  /** The block kept so far still wins its slot when the new block does not
      beat it. */
  lemma ScanStepKept(raw: seq<Byte>, all: bool, start: nat, upto: nat, s: nat, w: nat)
    requires start < upto <= SlotCount && |raw| >= 0x10000
    requires IsWinner(raw, all, start, upto - 1, s, w)
    requires !(IsCandidate(raw, all, upto - 1) && SlotOf(raw, upto - 1) == s)
      || PriorityOf(raw, upto - 1) <= PriorityOf(raw, w)
    ensures IsWinner(raw, all, start, upto, s, w)
  {
  }

  /** `get_raw_save_data` (src/sav.rs): scan blocks `start .. 15` and keep per
      slot (0, 1 or 2) the 0xA30 data bytes of the winning block.  The caller
      has checked that the file holds at least 0x10000 bytes. */
  function GetRawSaveData(all: bool, raw: seq<Byte>, start: nat): (m: map<nat, RawSave>)
    requires |raw| >= 0x10000
    ensures forall s :: s in m ==> s <= 2
    ensures forall s :: s in m <==> exists i :: start <= i < SlotCount && IsCandidate(raw, all, i) && SlotOf(raw, i) == s
    ensures forall s :: s in m ==> exists i :: IsWinner(raw, all, start, SlotCount, s, i) && m[s] == BlockSave(raw, i)
  {
    ScanKeeps(raw, all, start, SlotCount);
    var w := Scan(raw, all, start, SlotCount);
    map s | s in w :: BlockSave(raw, w[s])
  }

  // ---------------------------------------------------------------------
  // The legacy block scan (`get_raw_save_data`, src/subcmd/sav.rs)

  /** A block whose first byte is 0xFF holds no save. */
  predicate IsBlank(raw: seq<Byte>, i: nat)
    requires i < SlotCount && |raw| >= 0x10000
  {
    raw[i * 0x1000] == 0xFF
  }

  /** A non-blank block without the "CAMELOT" header makes the legacy scan
      reject the whole file. */
  predicate IsForeign(raw: seq<Byte>, i: nat)
    requires i < SlotCount && |raw| >= 0x10000
  {
    !IsBlank(raw, i) && !HasCamelotHeader(raw, i)
  }

  /** A block the legacy scan stores: not blank, slot at most 2, and clear
      unless every save is wanted. */
  predicate IsLegacyKept(raw: seq<Byte>, all: bool, i: nat)
    requires i < SlotCount && |raw| >= 0x10000
  {
    !IsBlank(raw, i) && SlotOf(raw, i) <= 2 && (IsClear(raw, i) || all)
  }

  /** Block `i` is the LAST block among the first `n` stored under key `k`:
      the legacy scan overwrites the entry of a slot each time it meets it. */
  predicate IsLastKept(raw: seq<Byte>, all: bool, n: nat, k: nat, i: nat)
    requires n <= SlotCount && |raw| >= 0x10000
  {
    && i < n && IsLegacyKept(raw, all, i) && SlotOf(raw, i) + 1 == k
    && forall j :: i < j < n && IsLegacyKept(raw, all, j) ==> SlotOf(raw, j) + 1 != k
  }

  /** Key of each stored block's entry mapped to the index of the block that
      fills it after the first `n` blocks. */
  function LegacyIndex(raw: seq<Byte>, all: bool, n: nat): (m: map<nat, nat>)
    requires n <= SlotCount && |raw| >= 0x10000
    ensures forall k :: k in m ==> m[k] < n
  {
    if n == 0 then map[]
    else
      var m := LegacyIndex(raw, all, n - 1);
      if IsLegacyKept(raw, all, n - 1) then m[SlotOf(raw, n - 1) + 1 := n - 1] else m
  }

  /** The entries after `n` blocks are keyed by the stored blocks' slots plus
      one. */
  lemma {:induction false} LegacyIndexDomain(raw: seq<Byte>, all: bool, n: nat)
    requires n <= SlotCount && |raw| >= 0x10000
    ensures forall k :: k in LegacyIndex(raw, all, n) <==>
              exists j :: 0 <= j < n && IsLegacyKept(raw, all, j) && SlotOf(raw, j) + 1 == k
  {
    if n > 0 {
      var p := n - 1;
      LegacyIndexDomain(raw, all, p);
      var m := LegacyIndex(raw, all, p);
      var r := LegacyIndex(raw, all, n);
      forall k
        ensures k in r <==> exists j :: 0 <= j < n && IsLegacyKept(raw, all, j) && SlotOf(raw, j) + 1 == k
      {
        if exists j :: 0 <= j < n && IsLegacyKept(raw, all, j) && SlotOf(raw, j) + 1 == k {
          var j :| 0 <= j < n && IsLegacyKept(raw, all, j) && SlotOf(raw, j) + 1 == k;
          if j < p {
            assert k in m;
          }
        }
      }
    }
  }

  /** Each entry after `n` blocks is filled by the last block stored under
      its key. */
  lemma {:induction false} LegacyIndexLast(raw: seq<Byte>, all: bool, n: nat)
    requires n <= SlotCount && |raw| >= 0x10000
    ensures forall k :: k in LegacyIndex(raw, all, n) ==> IsLastKept(raw, all, n, k, LegacyIndex(raw, all, n)[k])
  {
    if n > 0 {
      var p := n - 1;
      LegacyIndexLast(raw, all, p);
      var m := LegacyIndex(raw, all, p);
      var r := LegacyIndex(raw, all, n);
      forall k | k in r
        ensures IsLastKept(raw, all, n, k, r[k])
      {
        if IsLegacyKept(raw, all, p) && SlotOf(raw, p) + 1 == k {
          assert r[k] == p;
        } else {
          assert r[k] == m[k];
          assert IsLastKept(raw, all, p, k, m[k]);
        }
      }
    }
  }

  /** The entries after `n` blocks are keyed by the stored blocks' slots plus
      one, and each is filled by the last such block. */
  lemma LegacyIndexSpec(raw: seq<Byte>, all: bool, n: nat)
    requires n <= SlotCount && |raw| >= 0x10000
    ensures forall k :: k in LegacyIndex(raw, all, n) <==>
              exists j :: 0 <= j < n && IsLegacyKept(raw, all, j) && SlotOf(raw, j) + 1 == k
    ensures forall k :: k in LegacyIndex(raw, all, n) ==> IsLastKept(raw, all, n, k, LegacyIndex(raw, all, n)[k])
  {
    LegacyIndexDomain(raw, all, n);
    LegacyIndexLast(raw, all, n);
  }

  /** The legacy record of a block: its clear flag and its data bytes. */
  datatype LegacySave = LegacySave(isClear: bool, data: seq<Byte>)

  function LegacyBlockSave(raw: seq<Byte>, i: nat): (r: LegacySave)
    requires i < SlotCount && |raw| >= 0x10000
    ensures |r.data| == DataLength
  {
    LegacySave(IsClear(raw, i), raw[i * 0x1000 + 0x10 .. i * 0x1000 + 0xA40])
  }

  /** The stored records are those of the blocks an index names, under the
      same keys. */
  predicate Mirrors(raw: seq<Byte>, m: map<nat, LegacySave>, idx: map<nat, nat>)
    requires |raw| >= 0x10000
  {
    && m.Keys == idx.Keys
    && forall k :: k in idx ==> idx[k] < SlotCount && m[k] == LegacyBlockSave(raw, idx[k])
  }

  /** Storing block `i` under key `k` keeps the records in step with the
      index. */
  lemma MirrorsUpdate(raw: seq<Byte>, m: map<nat, LegacySave>, idx: map<nat, nat>, k: nat, i: nat)
    requires |raw| >= 0x10000 && i < SlotCount && Mirrors(raw, m, idx)
    ensures Mirrors(raw, m[k := LegacyBlockSave(raw, i)], idx[k := i])
  {
    var m', idx' := m[k := LegacyBlockSave(raw, i)], idx[k := i];
    assert m'.Keys == m.Keys + {k} && idx'.Keys == idx.Keys + {k};
  }

  /** The reasons the legacy scan stops the program. */
  datatype ScanError = NotGoldenSun | NoSaveData

  /** Number of blank blocks among the first `n`. */
  function BlankCount(raw: seq<Byte>, n: nat): (r: nat)
    requires n <= SlotCount && |raw| >= 0x10000
    ensures r <= n
  {
    if n == 0 then 0 else BlankCount(raw, n - 1) + (if IsBlank(raw, n - 1) then 1 else 0)
  }

  /** Every one of the first `n` blocks is blank exactly when `n` of them are
      counted. */
  lemma {:induction false} BlankCountAll(raw: seq<Byte>, n: nat)
    requires n <= SlotCount && |raw| >= 0x10000
    ensures BlankCount(raw, n) == n <==> forall i :: 0 <= i < n ==> IsBlank(raw, i)
  {
    if n > 0 {
      BlankCountAll(raw, n - 1);
    }
  }

  /** The legacy scan's byte-by-byte comparison of a block's first seven
      bytes with "CAMELOT". */
  method CompareHeader(raw: seq<Byte>, i: nat) returns (ok: bool)
    requires i < SlotCount && |raw| >= 0x10000
    ensures ok <==> HasCamelotHeader(raw, i)
  {
    var base := i * 0x1000;
    for j := 0 to 7
      invariant raw[base .. base + j] == Camelot[..j]
    {
      if raw[base + j] != Camelot[j] {
        assert raw[base .. base + 7][j] != Camelot[j];
        return false;
      }
      assert raw[base .. base + j + 1] == raw[base .. base + j] + [raw[base + j]];
      assert Camelot[..j + 1] == Camelot[..j] + [Camelot[j]];
    }
    return true;
  }

  /** One block of the legacy scan: a blank block is skipped, a block
      without the header stops the scan, and any other block is stored under
      its slot number plus one when it is kept. */
  method LegacyBlockStep(all: bool, raw: seq<Byte>, i: nat, m: map<nat, LegacySave>, ghost idx: map<nat, nat>)
      returns (ok: bool, isBlank: bool, m': map<nat, LegacySave>)
    requires |raw| >= 0x10000 && i < SlotCount
    requires idx == LegacyIndex(raw, all, i) && Mirrors(raw, m, idx)
    ensures ok <==> !IsForeign(raw, i)
    ensures isBlank <==> IsBlank(raw, i)
    ensures ok ==> Mirrors(raw, m', LegacyIndex(raw, all, i + 1))
  {
    var base := i * 0x1000;
    m' := m;
    if raw[base] == 0xFF {
      assert LegacyIndex(raw, all, i + 1) == idx;
      return true, true, m';
    }
    var isCamelot := CompareHeader(raw, i);
    if !isCamelot {
      return false, false, m';
    }
    if raw[base + 0x07] > 0x02 {
      assert LegacyIndex(raw, all, i + 1) == idx;
      return true, false, m';
    }
    var isClear := raw[base + 0x410] == 0x01;
    if !isClear && !all {
      assert LegacyIndex(raw, all, i + 1) == idx;
      return true, false, m';
    }
    var k := raw[base + 0x07] + 1;
    var save := LegacySave(isClear, raw[base + 0x10 .. base + 0xA40]);
    assert save == LegacyBlockSave(raw, i);
    assert LegacyIndex(raw, all, i + 1) == idx[k := i];
    MirrorsUpdate(raw, m, idx, k, i);
    m' := m[k := save];
    return true, false, m';
  }

  /** The records stored after the whole scan: one per key of a kept block,
      each the record of the last block kept under that key. */
  lemma LegacyStored(all: bool, raw: seq<Byte>, m: map<nat, LegacySave>)
    requires |raw| >= 0x10000 && Mirrors(raw, m, LegacyIndex(raw, all, SlotCount))
    ensures forall k :: k in m <==> exists i :: 0 <= i < SlotCount && IsLegacyKept(raw, all, i) && SlotOf(raw, i) + 1 == k
    ensures forall k :: k in m ==> exists i :: IsLastKept(raw, all, SlotCount, k, i) && m[k] == LegacyBlockSave(raw, i)
  {
    LegacyIndexSpec(raw, all, SlotCount);
    var w := LegacyIndex(raw, all, SlotCount);
    assert m.Keys == w.Keys;
    forall k | k in m
      ensures exists i :: IsLastKept(raw, all, SlotCount, k, i) && m[k] == LegacyBlockSave(raw, i)
    {
      assert IsLastKept(raw, all, SlotCount, k, w[k]);
    }
  }

  /** The legacy scan: blank blocks are counted and skipped, any other block
      must carry the "CAMELOT" header (else the program stops), blocks of
      slots above 2 and, unless every save is wanted, non-clear blocks are
      skipped, and the rest are stored under their slot number plus one, a
      later block overwriting an earlier one.  Sixteen blank blocks stop the
      program too.  The two stops are modelled as errors. */
  method GetRawSaveDataLegacy(all: bool, raw: seq<Byte>) returns (r: Result<map<nat, LegacySave>, ScanError>)
    requires |raw| >= 0x10000
    ensures r == Failure(NotGoldenSun) <==> exists i :: 0 <= i < SlotCount && IsForeign(raw, i)
    ensures r == Failure(NoSaveData) <==> forall i :: 0 <= i < SlotCount ==> IsBlank(raw, i)
    ensures r.Success? ==>
              forall k :: k in r.value <==> exists i :: 0 <= i < SlotCount && IsLegacyKept(raw, all, i) && SlotOf(raw, i) + 1 == k
    ensures r.Success? ==>
              forall k :: k in r.value ==> exists i :: IsLastKept(raw, all, SlotCount, k, i) && r.value[k] == LegacyBlockSave(raw, i)
  {
    var m: map<nat, LegacySave> := map[];
    ghost var idx: map<nat, nat> := map[];
    var blank := 0;
    for i := 0 to SlotCount
      invariant blank == BlankCount(raw, i)
      invariant forall j :: 0 <= j < i ==> !IsForeign(raw, j)
      invariant idx == LegacyIndex(raw, all, i)
      invariant Mirrors(raw, m, idx)
    {
      var ok, isBlank, m' := LegacyBlockStep(all, raw, i, m, idx);
      if !ok {
        return Failure(NotGoldenSun);
      }
      if isBlank {
        blank := blank + 1;
      }
      m := m';
      idx := LegacyIndex(raw, all, i + 1);
    }
    BlankCountAll(raw, SlotCount);
    if blank == 16 {
      return Failure(NoSaveData);
    }
    LegacyStored(all, raw, m);
    return Success(m);
  }

  /** Slot `s` has at most one candidate block, and that block is not blank. */
  predicate SoleCandidate(raw: seq<Byte>, all: bool, s: nat)
    requires |raw| >= 0x10000
  {
    forall i, j ::
      (0 <= i < SlotCount && 0 <= j < SlotCount &&
       IsCandidate(raw, all, i) && SlotOf(raw, i) == s &&
       IsCandidate(raw, all, j) && SlotOf(raw, j) == s) ==> i == j && !IsBlank(raw, i)
  }

  /** No block before `start` is a candidate for slot `s`: the current scan,
      which starts at `start`, misses none of the blocks the legacy scan
      sees for that slot. */
  predicate NoneBefore(raw: seq<Byte>, all: bool, s: nat, start: nat)
    requires |raw| >= 0x10000
  {
    forall i :: 0 <= i < start && i < SlotCount ==> !(IsCandidate(raw, all, i) && SlotOf(raw, i) == s)
  }

  /** On such a slot the winner of the current scan is the last block the
      legacy scan stores. */
  lemma SoleWinner(raw: seq<Byte>, all: bool, start: nat, s: nat, a: nat, b: nat)
    requires |raw| >= 0x10000 && SoleCandidate(raw, all, s) && NoneBefore(raw, all, s, start)
    requires IsWinner(raw, all, start, SlotCount, s, a)
    requires IsLastKept(raw, all, SlotCount, s + 1, b)
    ensures a == b
  {
    assert IsCandidate(raw, all, b);
  }

  /** The block scans agree on a slot that has at most one candidate block,
      and no blank one: the slot is kept by the current scan exactly when
      the legacy scan stores it under the slot number plus one, and both
      keep the same block. */
  lemma LegacyIndexAgrees(raw: seq<Byte>, all: bool, start: nat, s: nat)
    requires |raw| >= 0x10000
    requires SoleCandidate(raw, all, s) && NoneBefore(raw, all, s, start)
    ensures s in Scan(raw, all, start, SlotCount) <==> s + 1 in LegacyIndex(raw, all, SlotCount)
    ensures s in Scan(raw, all, start, SlotCount) ==>
      Scan(raw, all, start, SlotCount)[s] == LegacyIndex(raw, all, SlotCount)[s + 1]
  {
    var w := Scan(raw, all, start, SlotCount);
    var idx := LegacyIndex(raw, all, SlotCount);
    ScanKeeps(raw, all, start, SlotCount);
    LegacyIndexSpec(raw, all, SlotCount);
    if s in w {
      var i :| 0 <= i < SlotCount && IsCandidate(raw, all, i) && SlotOf(raw, i) == s;
      assert IsLegacyKept(raw, all, i);
      assert s + 1 in idx;
      SoleWinner(raw, all, start, s, w[s], idx[s + 1]);
    }
    if s + 1 in idx {
      var j :| 0 <= j < SlotCount && IsLegacyKept(raw, all, j) && SlotOf(raw, j) + 1 == s + 1;
      assert IsCandidate(raw, all, j);
    }
  }

  /** The records agree too: on such a slot the current result has an entry
      exactly when a successful legacy result has one under the slot number
      plus one, and the two carry the same clear flag and data bytes. */
  lemma LegacyRecordAgrees(raw: seq<Byte>, all: bool, start: nat, legacy: map<nat, LegacySave>, s: nat)
    requires |raw| >= 0x10000
    requires forall k :: k in legacy <==>
      exists i :: 0 <= i < SlotCount && IsLegacyKept(raw, all, i) && SlotOf(raw, i) + 1 == k
    requires forall k :: k in legacy ==>
      exists i :: IsLastKept(raw, all, SlotCount, k, i) && legacy[k] == LegacyBlockSave(raw, i)
    requires SoleCandidate(raw, all, s) && NoneBefore(raw, all, s, start)
    ensures s in GetRawSaveData(all, raw, start) <==> s + 1 in legacy
    ensures s in GetRawSaveData(all, raw, start) ==>
      GetRawSaveData(all, raw, start)[s].isClear == legacy[s + 1].isClear
      && GetRawSaveData(all, raw, start)[s].data == legacy[s + 1].data
  {
    LegacyKeysAgree(raw, all, start, legacy, s);
    if s in GetRawSaveData(all, raw, start) {
      LegacyValuesAgree(raw, all, start, legacy, s);
    }
  }

  lemma LegacyKeysAgree(raw: seq<Byte>, all: bool, start: nat, legacy: map<nat, LegacySave>, s: nat)
    requires |raw| >= 0x10000
    requires forall k :: k in legacy <==>
      exists i :: 0 <= i < SlotCount && IsLegacyKept(raw, all, i) && SlotOf(raw, i) + 1 == k
    requires SoleCandidate(raw, all, s) && NoneBefore(raw, all, s, start)
    ensures s in GetRawSaveData(all, raw, start) <==> s + 1 in legacy
  {
    if s in GetRawSaveData(all, raw, start) {
      var i :| 0 <= i < SlotCount && IsCandidate(raw, all, i) && SlotOf(raw, i) == s;
      assert IsLegacyKept(raw, all, i) && SlotOf(raw, i) + 1 == s + 1;
    }
    if s + 1 in legacy {
      var j :| 0 <= j < SlotCount && IsLegacyKept(raw, all, j) && SlotOf(raw, j) + 1 == s + 1;
      assert IsCandidate(raw, all, j) && SlotOf(raw, j) == s;
    }
  }

  lemma LegacyValuesAgree(raw: seq<Byte>, all: bool, start: nat, legacy: map<nat, LegacySave>, s: nat)
    requires |raw| >= 0x10000
    requires forall k :: k in legacy ==>
      exists i :: IsLastKept(raw, all, SlotCount, k, i) && legacy[k] == LegacyBlockSave(raw, i)
    requires SoleCandidate(raw, all, s) && NoneBefore(raw, all, s, start)
    requires s in GetRawSaveData(all, raw, start) && s + 1 in legacy
    ensures GetRawSaveData(all, raw, start)[s].isClear == legacy[s + 1].isClear
    ensures GetRawSaveData(all, raw, start)[s].data == legacy[s + 1].data
  {
    var m := GetRawSaveData(all, raw, start);
    var a :| IsWinner(raw, all, start, SlotCount, s, a) && m[s] == BlockSave(raw, a);
    var b :| IsLastKept(raw, all, SlotCount, s + 1, b) && legacy[s + 1] == LegacyBlockSave(raw, b);
    SoleWinner(raw, all, start, s, a, b);
    SameRecord(raw, a);
  }

  /** Both scans keep the same clear flag and data bytes of a block. */
  lemma SameRecord(raw: seq<Byte>, i: nat)
    requires i < SlotCount && |raw| >= 0x10000
    ensures BlockSave(raw, i).isClear == LegacyBlockSave(raw, i).isClear
    ensures BlockSave(raw, i).data == LegacyBlockSave(raw, i).data
  {
  }
}
