/** The first stage of `gen_password_bytes`: packing a character-progress
    record into the payload bit string.  The grade decides which fields go in:
    every grade carries the levels, djinn and story events; Bronze and Silver
    add a byte of Psynergy-item flags; Silver and Gold add the stats; Gold
    adds the item list, the stackable-item quantities and the coins. */
module Payload {
  import opened Bits
  import opened Enums
  import opened SaveData

  // ---------------------------------------------------------------------
  // Levels and djinn

  /** The 7 low bits of four values pushed in member order 3, 2, 1, 0, so
      member `i` occupies bits `7 * (3 - i) .. 7 * (3 - i) + 6`. */
  function Pack7(vs: seq<nat>): (r: seq<Bit>)
    requires |vs| == 4
    ensures |r| == 28
    ensures forall i :: 0 <= i < 4 ==> r[7 * (3 - i) .. 7 * (3 - i) + 7] == ToBits(vs[i], 7)
  {
    var r := PushBits(PushBits(PushBits(PushBits([], vs[3], 7), vs[2], 7), vs[1], 7), vs[0], 7);
    assert r == ToBits(vs[3], 7) + ToBits(vs[2], 7) + ToBits(vs[1], 7) + ToBits(vs[0], 7);
    r
  }

  /** The 56-bit header: the 28 level bits and the 28 djinn bits read back in
      bytes from the top, the level bits' 4-bit remainder and the djinn bits'
      4-bit head meeting in the middle byte. */
  function HeaderBits(levels: seq<nat>, djinn: seq<nat>): (r: seq<Bit>)
    requires |levels| == 4 && |djinn| == 4
    ensures |r| == 56
  {
    var l := Pack7(levels);
    var d := Pack7(djinn);
    var b := PushBits([], SubBits(l, 20, 27), 8);
    var b := PushBits(b, SubBits(l, 12, 19), 8);
    var b := PushBits(b, SubBits(l, 4, 11), 8);
    var b := PushBits(b, SubBits(l, 0, 3), 4);
    var b := PushBits(b, SubBits(d, 24, 27), 4);
    var b := PushBits(b, SubBits(d, 16, 23), 8);
    var b := PushBits(b, SubBits(d, 8, 15), 8);
    PushBits(b, SubBits(d, 0, 7), 8)
  }

  /** The header is a fixed rearrangement of the level and djinn bits. */
  lemma HeaderLayout(levels: seq<nat>, djinn: seq<nat>)
    requires |levels| == 4 && |djinn| == 4
    ensures var l, d := Pack7(levels), Pack7(djinn);
      HeaderBits(levels, djinn) == l[20..28] + l[12..20] + l[4..12] + l[0..4] + d[24..28] + d[16..24] + d[8..16] + d[0..8]
  {
    var l, d := Pack7(levels), Pack7(djinn);
    assert ToBits(SubBits(l, 20, 27), 8) == l[20..28];
    assert ToBits(SubBits(l, 12, 19), 8) == l[12..20];
    assert ToBits(SubBits(l, 4, 11), 8) == l[4..12];
    assert ToBits(SubBits(l, 0, 3), 4) == l[0..4];
    assert ToBits(SubBits(d, 24, 27), 4) == d[24..28];
    assert ToBits(SubBits(d, 16, 23), 8) == d[16..24];
    assert ToBits(SubBits(d, 8, 15), 8) == d[8..16];
    assert ToBits(SubBits(d, 0, 7), 8) == d[0..8];
  }

  /** The inverse rearrangement: the level bits and the djinn bits of a header. */
  function UnpackHeader(h: seq<Bit>): (r: (seq<Bit>, seq<Bit>))
    requires |h| == 56
    ensures |r.0| == 28 && |r.1| == 28
  {
    (h[24..28] + h[16..24] + h[8..16] + h[0..8], h[48..56] + h[40..48] + h[32..40] + h[28..32])
  }

  /** Unpacking undoes the header's rearrangement of any two 28-bit strings. */
  lemma UnpackRearranged(l: seq<Bit>, d: seq<Bit>)
    requires |l| == 28 && |d| == 28
    ensures UnpackHeader(l[20..28] + l[12..20] + l[4..12] + l[0..4] + d[24..28] + d[16..24] + d[8..16] + d[0..8]) == (l, d)
  {
    var la, lb, lc, ld := l[20..28], l[12..20], l[4..12], l[0..4];
    var da, db, dc, dd := d[24..28], d[16..24], d[8..16], d[0..8];
    var h := la + lb + lc + ld + da + db + dc + dd;
    assert h[0..8] == la && h[8..16] == lb && h[16..24] == lc && h[24..28] == ld;
    assert h[28..32] == da && h[32..40] == db && h[40..48] == dc && h[48..56] == dd;
    assert ld + lc + lb + la == l;
    assert dd + dc + db + da == d;
  }

  /** Every level and djinn bit lands in the header exactly once: unpacking
      the header gives back both 28-bit strings. */
  lemma HeaderRoundTrip(levels: seq<nat>, djinn: seq<nat>)
    requires |levels| == 4 && |djinn| == 4
    ensures UnpackHeader(HeaderBits(levels, djinn)) == (Pack7(levels), Pack7(djinn))
  {
    HeaderLayout(levels, djinn);
    UnpackRearranged(Pack7(levels), Pack7(djinn));
  }

  /** Each member's level and djinn mask can be read back from the header
      modulo 2^7. */
  lemma HeaderFields(levels: seq<nat>, djinn: seq<nat>, i: nat)
    requires |levels| == 4 && |djinn| == 4 && i < 4
    ensures var u := UnpackHeader(HeaderBits(levels, djinn));
      && FromBits(u.0[7 * (3 - i) .. 7 * (3 - i) + 7]) == levels[i] % 128
      && FromBits(u.1[7 * (3 - i) .. 7 * (3 - i) + 7]) == djinn[i] % 128
  {
    HeaderRoundTrip(levels, djinn);
    var a := 7 * (3 - i);
    assert Pack7(levels)[a .. a + 7] == ToBits(levels[i], 7);
    assert Pack7(djinn)[a .. a + 7] == ToBits(djinn[i], 7);
    ToBitsValue(levels[i], 7);
    ToBitsValue(djinn[i], 7);
    assert Pow2(7) == 128;
  }

  // ---------------------------------------------------------------------
  // Story events

  /** The event loop after handling indexes 7 down to `i`: an index below 6
      pushes the low bit of its event flag, indexes 6 and 7 push 0. */
  function EventLoop(events: seq<Byte>, i: nat): (r: seq<Bit>)
    requires |events| == 6 && i <= 8
    ensures |r| == 8 - i
    ensures forall k :: i <= k < 8 ==> r[7 - k] == (if k < 6 then events[k] % 2 else 0)
    decreases 8 - i
  {
    if i == 8 then []
    else PushBit(EventLoop(events, i + 1), if i < |events| then events[i] else 0)
  }

  /** The event byte: the bit of weight 2^k holds event `k`, the top two bits are 0. */
  function EventBits(events: seq<Byte>): (r: seq<Bit>)
    requires |events| == 6
    ensures |r| == 8 && r[0] == 0 && r[1] == 0
    ensures forall k :: 0 <= k < 6 ==> r[7 - k] == events[k] % 2
  {
    EventLoop(events, 0)
  }

  // ---------------------------------------------------------------------
  // Psynergy-item flags (Bronze and Silver)

  /** The eight Psynergy items whose presence Bronze and Silver passwords record. */
  const PresenceItems: seq<nat> := [0xC8, 0xC9, 0xCA, 0xCB, 0xCC, 0xCD, 0xCE, 0xCF]

  /** The 60 item ids (the low 9 bits of each slot), member by member, slot by slot. */
  function ItemIds(items: seq<seq<U16>>): (r: seq<nat>)
    requires |items| == 4 && forall i :: 0 <= i < 4 ==> |items[i]| == 15
    ensures |r| == 60
    ensures forall i, s :: 0 <= i < 4 && 0 <= s < 15 ==> r[15 * i + s] == items[i][s] % 512
  {
    seq(60, t requires 0 <= t < 60 => items[t / 15][t % 15] % 512)
  }

  /** One item's effect on the flag byte: the flag of weight 2^j (bit `7 - j`
      of the MSB-first byte) is raised when the id is the `j`-th Psynergy item. */
  function MarkPresence(flags: seq<Bit>, id: nat): (r: seq<Bit>)
    requires |flags| == 8
    ensures |r| == 8
    ensures forall j :: 0 <= j < 8 ==> (r[7 - j] == 1 <==> flags[7 - j] == 1 || id == PresenceItems[j])
  {
    seq(8, k requires 0 <= k < 8 => if id == PresenceItems[7 - k] then 1 else flags[k])
  }

  /** The flag byte accumulated over a list of item ids. */
  function PresenceBits(ids: seq<nat>): (r: seq<Bit>)
    ensures |r| == 8
    ensures forall j :: 0 <= j < 8 ==> (r[7 - j] == 1 <==> exists k :: 0 <= k < |ids| && ids[k] == PresenceItems[j])
  {
    if |ids| == 0 then Zeros(8)
    else
      var init := ids[..|ids| - 1];
      var r := MarkPresence(PresenceBits(init), ids[|ids| - 1]);
      assert forall j :: 0 <= j < 8 ==> (r[7 - j] == 1 <==> exists k :: 0 <= k < |ids| && ids[k] == PresenceItems[j]) by {
        forall j | 0 <= j < 8
          ensures r[7 - j] == 1 <==> exists k :: 0 <= k < |ids| && ids[k] == PresenceItems[j]
        {
          if exists k :: 0 <= k < |ids| && ids[k] == PresenceItems[j] {
            var k :| 0 <= k < |ids| && ids[k] == PresenceItems[j];
            if k < |ids| - 1 {
              assert init[k] == ids[k];
            }
          }
          if exists k :: 0 <= k < |init| && init[k] == PresenceItems[j] {
            var k :| 0 <= k < |init| && init[k] == PresenceItems[j];
            assert ids[k] == init[k];
          }
        }
      }
      r
  }

  // ---------------------------------------------------------------------
  // Stats (Silver and Gold)

  /** Width of stat field `k` (HP, EP, attack, defense, agility, luck). */
  function StatWidth(k: nat): nat
  {
    if k < 2 then 11 else if k < 5 then 10 else 8
  }

  /** Offset of stat field `k` inside a member's 60-bit stat block;
      `StatStart(6)` is the block's length. */
  function StatStart(k: nat): nat
    requires k <= 6
  {
    if k <= 2 then 11 * k else if k <= 5 then 22 + 10 * (k - 2) else 60
  }

  /** The first `k` stat fields of a member, each pushed at its width. */
  function StatPrefix(st: seq<U16>, k: nat): (r: seq<Bit>)
    requires |st| == 6 && k <= 6
    ensures |r| == StatStart(k)
  {
    if k == 0 then [] else PushBits(StatPrefix(st, k - 1), st[k - 1], StatWidth(k - 1))
  }

  /** Field `j` of the first `k` sits at its offset and holds the stat
      truncated to its width. */
  lemma {:induction false} StatPrefixFields(st: seq<U16>, k: nat, j: nat)
    requires |st| == 6 && j < k <= 6
    ensures FromBits(StatPrefix(st, k)[StatStart(j) .. StatStart(j + 1)]) == st[j] % Pow2(StatWidth(j))
  {
    if j == k - 1 {
      StatPrefixLast(st, k);
    } else {
      StatPrefixEarlier(st, k, j);
      StatPrefixFields(st, k - 1, j);
    }
  }

  /** The field pushed last is the tail of the prefix. */
  lemma StatPrefixLast(st: seq<U16>, k: nat)
    requires |st| == 6 && 0 < k <= 6
    ensures FromBits(StatPrefix(st, k)[StatStart(k - 1) .. StatStart(k)]) == st[k - 1] % Pow2(StatWidth(k - 1))
  {
    assert StatStart(k) == StatStart(k - 1) + StatWidth(k - 1);
    PushedField(StatPrefix(st, k - 1), st[k - 1], StatWidth(k - 1), StatStart(k - 1), StatStart(k));
  }

  /** Pushing one more field leaves the earlier fields in place. */
  lemma StatPrefixEarlier(st: seq<U16>, k: nat, j: nat)
    requires |st| == 6 && j + 1 < k <= 6
    ensures StatPrefix(st, k)[StatStart(j) .. StatStart(j + 1)] == StatPrefix(st, k - 1)[StatStart(j) .. StatStart(j + 1)]
  {
    StatStartMonotone(j + 1, k - 1);
    PrefixSlice(StatPrefix(st, k), StatPrefix(st, k - 1), StatStart(j), StatStart(j + 1));
  }

  lemma StatStartMonotone(a: nat, b: nat)
    requires a <= b <= 6
    ensures StatStart(a) <= StatStart(b)
  {
  }

  /** A member's stat block: HP and EP in 11 bits, attack, defense and
      agility in 10, luck in 8. */
  function MemberStatBits(st: seq<U16>): (r: seq<Bit>)
    requires |st| == 6
    ensures |r| == 60
    ensures forall k :: 0 <= k < 6 ==> FromBits(r[StatStart(k) .. StatStart(k + 1)]) == st[k] % Pow2(StatWidth(k))
  {
    forall k | 0 <= k < 6 {
      StatPrefixFields(st, 6, k);
    }
    StatPrefix(st, 6)
  }

  /** The four members' stat blocks in member order 0 .. 3. */
  function StatsBits(stats: seq<seq<U16>>): (r: seq<Bit>)
    requires |stats| == 4 && forall i :: 0 <= i < 4 ==> |stats[i]| == 6
    ensures |r| == 240
    ensures forall i :: 0 <= i < 4 ==> r[60 * i .. 60 * i + 60] == MemberStatBits(stats[i])
  {
    var parts := seq(4, i requires 0 <= i < 4 => MemberStatBits(stats[i]));
    var r := parts[0] + parts[1] + parts[2] + parts[3];
    Slice4(parts, 60);
    assert forall i :: 0 <= i < 4 ==> r[60 * i .. 60 * i + 60] == MemberStatBits(stats[i]) by {
      forall i | 0 <= i < 4
        ensures r[60 * i .. 60 * i + 60] == MemberStatBits(stats[i])
      {
        assert parts[i] == MemberStatBits(stats[i]);
      }
    }
    r
  }

  // ---------------------------------------------------------------------
  // Item list (Gold)

  /** How a count's quotient and remainder by 7 move when it grows by one. */
  lemma Div7Step(n: nat)
    ensures n % 7 == 6 ==> (n + 1) / 7 == n / 7 + 1 && (n + 1) % 7 == 0
    ensures n % 7 != 6 ==> (n + 1) / 7 == n / 7 && (n + 1) % 7 == n % 7 + 1
  {
  }

  /** The sync bits before id `t` cannot outnumber those before a later id. */
  lemma Div7Bound(t: nat, n: nat)
    requires t < n
    ensures t / 7 + (if t % 7 == 6 then 1 else 0) <= n / 7
  {
    Div7Step(t);
    assert (t + 1) / 7 <= n / 7;
  }

  /** The item-id loop: each id is pushed as 9 bits and a counter counts the
      ids; when it reaches 7 a 0 bit is pushed and the counter is reset.  The
      result is the bits and the counter. */
  function ItemIdLoop(ids: seq<nat>): (r: (seq<Bit>, nat))
    ensures r.1 == |ids| % 7
    ensures |r.0| == 9 * |ids| + |ids| / 7
  {
    if |ids| == 0 then ([], 0)
    else
      var (b, c) := ItemIdLoop(ids[..|ids| - 1]);
      Div7Step(|ids| - 1);
      var b' := PushBits(b, ids[|ids| - 1], 9);
      if c + 1 == 7 then (PushBit(b', 0), 0) else (b', c + 1)
  }

  function ItemIdBits(ids: seq<nat>): (r: seq<Bit>)
    ensures |r| == 9 * |ids| + |ids| / 7
  {
    ItemIdLoop(ids).0
  }

  /** The last id's 9 bits follow the earlier ids' bits, and a 0 bit
      follows them when it is a 7th id. */
  lemma ItemIdSnoc(ids: seq<nat>)
    requires |ids| > 0
    ensures var n := |ids| - 1;
      var b' := ItemIdBits(ids[..n]) + ToBits(ids[n], 9);
      && |b'| == 9 * n + n / 7 + 9 <= |ItemIdBits(ids)|
      && ItemIdBits(ids)[..|b'|] == b'
      && (n % 7 == 6 ==> ItemIdBits(ids)[|b'|] == 0)
  {
    var n := |ids| - 1;
    var b' := ItemIdBits(ids[..n]) + ToBits(ids[n], 9);
    var r := ItemIdBits(ids);
    assert r == b' || r == b' + [0];
    if n % 7 == 6 {
      assert r == b' + [0];
    }
  }

  /** An earlier id keeps its place when one more id is pushed. */
  lemma ItemIdCarry(ids: seq<nat>, t: nat)
    requires t < |ids| - 1
    requires var b := ItemIdBits(ids[..|ids| - 1]);
      && b[9 * t + t / 7 .. 9 * t + t / 7 + 9] == ToBits(ids[..|ids| - 1][t], 9)
      && (t % 7 == 6 ==> b[9 * t + t / 7 + 9] == 0)
    ensures ItemIdBits(ids)[9 * t + t / 7 .. 9 * t + t / 7 + 9] == ToBits(ids[t], 9)
    ensures t % 7 == 6 ==> ItemIdBits(ids)[9 * t + t / 7 + 9] == 0
  {
    var n := |ids| - 1;
    var b := ItemIdBits(ids[..n]);
    var b' := b + ToBits(ids[n], 9);
    var r := ItemIdBits(ids);
    ItemIdSnoc(ids);
    var p := 9 * t + t / 7;
    Div7Bound(t, n);
    assert ids[..n][t] == ids[t];
    assert b'[..|b|] == b;
    assert r[..|b|] == b;
    PrefixSlice(r, b, p, p + 9);
    if t % 7 == 6 {
      assert r[p + 9] == r[..|b|][p + 9];
    }
  }

  /** The last id sits right after the earlier ids' bits. */
  lemma ItemIdLast(ids: seq<nat>)
    requires |ids| > 0
    ensures var t := |ids| - 1;
      ItemIdBits(ids)[9 * t + t / 7 .. 9 * t + t / 7 + 9] == ToBits(ids[t], 9)
    ensures var t := |ids| - 1;
      t % 7 == 6 ==> ItemIdBits(ids)[9 * t + t / 7 + 9] == 0
  {
    var n := |ids| - 1;
    var b' := ItemIdBits(ids[..n]) + ToBits(ids[n], 9);
    ItemIdSnoc(ids);
    PrefixSlice(ItemIdBits(ids), b', 9 * n + n / 7, 9 * n + n / 7 + 9);
  }

  /** An id before the last one: its place in the bits of the ids before
      the last, carried over. */
  lemma {:induction false} ItemIdEarlier(ids: seq<nat>, t: nat)
    requires t < |ids| - 1
    ensures ItemIdBits(ids)[9 * t + t / 7 .. 9 * t + t / 7 + 9] == ToBits(ids[t], 9)
    ensures t % 7 == 6 ==> ItemIdBits(ids)[9 * t + t / 7 + 9] == 0
    decreases |ids|, 0
  {
    ItemIdPlacement(ids[..|ids| - 1], t);
    ItemIdCarry(ids, t);
  }

  /** Id `t` sits at bit `9 * t + t / 7`, and a 0 bit follows every 7th id. */
  lemma {:induction false} ItemIdPlacement(ids: seq<nat>, t: nat)
    requires t < |ids|
    ensures ItemIdBits(ids)[9 * t + t / 7 .. 9 * t + t / 7 + 9] == ToBits(ids[t], 9)
    ensures t % 7 == 6 ==> ItemIdBits(ids)[9 * t + t / 7 + 9] == 0
    decreases |ids|, 1
  {
    if t < |ids| - 1 {
      ItemIdEarlier(ids, t);
    } else {
      ItemIdLast(ids);
    }
  }

  /** Reading the 9 bits at id `t`'s position gives the id modulo 512. */
  lemma ItemIdValue(ids: seq<nat>, t: nat)
    requires t < |ids|
    ensures FromBits(ItemIdBits(ids)[9 * t + t / 7 .. 9 * t + t / 7 + 9]) == ids[t] % 512
  {
    ItemIdPlacement(ids, t);
    ToBitsValue(ids[t], 9);
  }

  // ---------------------------------------------------------------------
  // Stackable-item quantities (Gold)

  /** The 23 stackable items of the first game. */
  const Stackables: seq<nat> := [0xB4, 0xB5, 0xB6, 0xB7, 0xBA, 0xBB, 0xBC, 0xBD, 0xBF, 0xC0, 0xC1, 0xC2,
                                 0xC3, 0xC4, 0xE2, 0xE3, 0xE4, 0xE5, 0xEC, 0xEE, 0xEF, 0xF0, 0xF1]

  /** No slot holds `id`. */
  predicate NoneHolds(slots: seq<U16>, id: nat)
  {
    forall k :: 0 <= k < |slots| ==> slots[k] % 512 != id
  }

  /** Slot `k` is the last slot holding `id`. */
  predicate LastHolding(slots: seq<U16>, id: nat, k: nat)
  {
    k < |slots| && slots[k] % 512 == id && forall l :: k < l < |slots| ==> slots[l] % 512 != id
  }

  /** The quantity loop over one member's slots: every slot holding `id`
      overwrites the quantity with its top five bits, so the last one wins;
      without one the quantity stays 0. */
  function Quantity(slots: seq<U16>, id: nat): (q: nat)
    ensures q < 32
    ensures NoneHolds(slots, id) ==> q == 0
    ensures forall k: nat :: LastHolding(slots, id, k) ==> q == slots[k] / 2048
  {
    if |slots| == 0 then 0
    else
      var n := |slots| - 1;
      var q' := Quantity(slots[..n], id);
      TopFive(slots[n]);
      var q := if slots[n] % 512 == id then slots[n] / 2048 else q';
      QuantitySnoc(slots, id, q', q);
      q
  }

  /** The top five bits of a 16-bit word are below 32. */
  lemma TopFive(x: U16)
    ensures x / 2048 < 32
  {
    DivModUnique(x, 2048, x / 2048, x % 2048);
  }

  /** One more slot: it sets the quantity when it holds `id`, and otherwise
      the last earlier slot holding `id` still decides it. */
  lemma QuantitySnoc(slots: seq<U16>, id: nat, q': nat, q: nat)
    requires |slots| > 0
    requires NoneHolds(slots[..|slots| - 1], id) ==> q' == 0
    requires forall k: nat :: LastHolding(slots[..|slots| - 1], id, k) ==> q' == slots[k] / 2048
    requires q == if slots[|slots| - 1] % 512 == id then slots[|slots| - 1] / 2048 else q'
    ensures NoneHolds(slots, id) ==> q == 0
    ensures forall k: nat :: LastHolding(slots, id, k) ==> q == slots[k] / 2048
  {
    var n := |slots| - 1;
    var init := slots[..n];
    if slots[n] % 512 != id {
      if NoneHolds(slots, id) {
        assert NoneHolds(init, id);
      }
      forall k: nat | LastHolding(slots, id, k)
        ensures q == slots[k] / 2048
      {
        assert LastHolding(init, id, k);
      }
    }
  }

  /** Per member, the 23 quantities at 5 bits each: 115 bits a member. */
  function MemberQuantityBits(slots: seq<U16>): (r: seq<Bit>)
    ensures |r| == 115
    ensures forall m :: 0 <= m < 23 ==> FromBits(r[5 * m .. 5 * m + 5]) == Quantity(slots, Stackables[m])
  {
    var qs := seq(23, m requires 0 <= m < 23 => Quantity(slots, Stackables[m]));
    var r := PushFives(qs);
    assert forall m :: 0 <= m < 23 ==> FromBits(r[5 * m .. 5 * m + 5]) == Quantity(slots, Stackables[m]) by {
      forall m | 0 <= m < 23
        ensures FromBits(r[5 * m .. 5 * m + 5]) == Quantity(slots, Stackables[m])
      {
        assert FromBits(r[5 * m .. 5 * m + 5]) == qs[m];
      }
    }
    r
  }

  /** Quantities pushed one after another at 5 bits each. */
  function PushFives(qs: seq<nat>): (r: seq<Bit>)
    requires forall j :: 0 <= j < |qs| ==> qs[j] < 32
    ensures |r| == 5 * |qs|
    ensures forall j :: 0 <= j < |qs| ==> FromBits(r[5 * j .. 5 * j + 5]) == qs[j]
  {
    if |qs| == 0 then []
    else
      var n := |qs| - 1;
      var b := PushFives(qs[..n]);
      var r := PushBits(b, qs[n], 5);
      PushFivesStep(qs, b, r);
      r
  }

  /** One more quantity: the earlier fields keep their values and the new
      one follows them. */
  lemma PushFivesStep(qs: seq<nat>, b: seq<Bit>, r: seq<Bit>)
    requires |qs| > 0 && qs[|qs| - 1] < 32
    requires |b| == 5 * (|qs| - 1) && r == PushBits(b, qs[|qs| - 1], 5)
    requires forall j :: 0 <= j < |qs| - 1 ==> FromBits(b[5 * j .. 5 * j + 5]) == qs[..|qs| - 1][j]
    ensures |r| == 5 * |qs|
    ensures forall j :: 0 <= j < |qs| ==> FromBits(r[5 * j .. 5 * j + 5]) == qs[j]
  {
    var n := |qs| - 1;
    QuantityStep(b, r, qs[n], n, 5);
    forall j | 0 <= j < |qs|
      ensures FromBits(r[5 * j .. 5 * j + 5]) == qs[j]
    {
      if j < n {
        assert r[5 * j .. 5 * j + 5] == b[5 * j .. 5 * j + 5];
        assert qs[..n][j] == qs[j];
      }
    }
  }


  /** Appending a 5-bit quantity keeps the earlier 5-bit fields and stores the
      quantity in the new one. */
  lemma QuantityStep(b: seq<Bit>, r: seq<Bit>, q: nat, n: nat, w: nat)
    requires w == 5 && |b| == 5 * n && q < 32 && r == PushBits(b, q, w)
    ensures forall j :: 0 <= j < n ==> r[5 * j .. 5 * j + 5] == b[5 * j .. 5 * j + 5]
    ensures FromBits(r[5 * n .. 5 * n + 5]) == q
  {
    forall j | 0 <= j < n
      ensures r[5 * j .. 5 * j + 5] == b[5 * j .. 5 * j + 5]
    {
      PrefixSlice(r, b, 5 * j, 5 * j + 5);
    }
    PushedField(b, q, w, 5 * n, 5 * n + 5);
    assert Pow2(w) == 32;
    DivModUnique(q, Pow2(w), 0, q);
  }

  function QuantityBits(items: seq<seq<U16>>): (r: seq<Bit>)
    requires |items| == 4 && forall i :: 0 <= i < 4 ==> |items[i]| == 15
    ensures |r| == 460
    ensures forall i :: 0 <= i < 4 ==> r[115 * i .. 115 * i + 115] == MemberQuantityBits(items[i])
  {
    var parts := seq(4, i requires 0 <= i < 4 => MemberQuantityBits(items[i]));
    var r := parts[0] + parts[1] + parts[2] + parts[3];
    Slice4(parts, 115);
    assert forall i :: 0 <= i < 4 ==> r[115 * i .. 115 * i + 115] == MemberQuantityBits(items[i]) by {
      forall i | 0 <= i < 4
        ensures r[115 * i .. 115 * i + 115] == MemberQuantityBits(items[i])
      {
        assert parts[i] == MemberQuantityBits(items[i]);
      }
    }
    r
  }

  // ---------------------------------------------------------------------
  // The whole payload

  /** The payload's length before padding: the common 64 bits and more,
      never more than the `8 * size` bits it is padded to. */
  function PackedLength(g: Grade): (r: nat)
    ensures 64 <= r <= 8 * PayloadSize(g)
  {
    match g
    case Bronze => 72
    case Silver => 312
    case Gold => 1344
  }

  function LevelValues(rec: Record): (r: seq<nat>)
    ensures |r| == 4 && forall i :: 0 <= i < 4 ==> r[i] == rec.levels[i]
  {
    seq(4, i requires 0 <= i < 4 => rec.levels[i] as nat)
  }

  function DjinnValues(rec: Record): (r: seq<nat>)
    ensures |r| == 4 && forall i :: 0 <= i < 4 ==> r[i] == rec.djinn[i] as nat
  {
    [rec.djinn[0] as nat, rec.djinn[1] as nat, rec.djinn[2] as nat, rec.djinn[3] as nat]
  }

  /** The fields every grade carries: the header and the event byte. */
  function CommonBits(rec: Record): (r: seq<Bit>)
    ensures |r| == 64
    ensures r[..56] == HeaderBits(LevelValues(rec), DjinnValues(rec)) && r[56..64] == EventBits(rec.events)
  {
    var h := HeaderBits(LevelValues(rec), DjinnValues(rec));
    AppendSlices(h, EventBits(rec.events));
    h + EventBits(rec.events)
  }

  /** Where the Gold fields sit in the bits after the common ones. */
  predicate GoldFieldsAt(r: seq<Bit>, st: seq<Bit>, it: seq<Bit>, qs: seq<Bit>, coins: nat)
  {
    && |r| == 1280
    && r[..240] == st && r[240..248] == Zeros(8)
    && r[248..796] == it && r[796..1256] == qs && r[1256..1280] == ToBits(coins, 24)
  }

  function GoldConcat(st: seq<Bit>, it: seq<Bit>, qs: seq<Bit>, coins: nat): (r: seq<Bit>)
    requires |st| == 240 && |it| == 548 && |qs| == 460
    ensures GoldFieldsAt(r, st, it, qs, coins)
  {
    st + Zeros(8) + it + qs + ToBits(coins, 24)
  }

  /** The Gold fields after the common ones: the stats, a zero byte, the item
      list, the quantities and the coins. */
  function GoldTail(rec: Record): (r: seq<Bit>)
    ensures GoldFieldsAt(r, StatsBits(rec.stats), ItemIdBits(ItemIds(rec.items)), QuantityBits(rec.items), rec.coins)
  {
    var ids := ItemIds(rec.items);
    var it := ItemIdBits(ids);
    assert |ids| == 60 && |it| == 548;
    GoldConcat(StatsBits(rec.stats), it, QuantityBits(rec.items), rec.coins)
  }

  /** The Silver fields after the common ones: the Psynergy-item flags and the stats. */
  function SilverTail(rec: Record): (r: seq<Bit>)
    ensures |r| == 248
    ensures r[..8] == PresenceBits(ItemIds(rec.items)) && r[8..248] == StatsBits(rec.stats)
  {
    var p, st := PresenceBits(ItemIds(rec.items)), StatsBits(rec.stats);
    AppendSlices(p, st);
    p + st
  }

  /** The fields a grade adds after the common ones: Bronze only the
      Psynergy-item flags. */
  function GradeBits(g: Grade, rec: Record): (r: seq<Bit>)
    ensures |r| + 64 == PackedLength(g)
  {
    match g
    case Bronze => PresenceBits(ItemIds(rec.items))
    case Silver => SilverTail(rec)
    case Gold => GoldTail(rec)
  }

  /** The packed fields of a record for a grade, in the order the source
      pushes them: before padding a payload is 72, 312 or 1344 bits, never
      more than the `8 * size` bits it is padded to. */
  function PayloadBits(g: Grade, rec: Record): (r: seq<Bit>)
    ensures |r| == PackedLength(g)
    ensures r[..64] == CommonBits(rec) && r[64..] == GradeBits(g, rec)
  {
    AppendSlices(CommonBits(rec), GradeBits(g, rec));
    CommonBits(rec) + GradeBits(g, rec)
  }

  /** Every grade starts with the header and the event byte. */
  lemma PayloadCommon(g: Grade, rec: Record)
    ensures PayloadBits(g, rec)[..56] == HeaderBits(LevelValues(rec), DjinnValues(rec))
    ensures PayloadBits(g, rec)[56..64] == EventBits(rec.events)
  {
    var r := PayloadBits(g, rec);
    PrefixSlice(r, CommonBits(rec), 0, 56);
    PrefixSlice(r, CommonBits(rec), 56, 64);
  }

  /** The padding loop: zero bits up to `8 * size` bits. */
  function Pad(bits: seq<Bit>, size: nat): (r: seq<Bit>)
    requires |bits| <= 8 * size
    ensures |r| == 8 * size && r[..|bits|] == bits
    ensures forall i :: |bits| <= i < |r| ==> r[i] == 0
  {
    bits + Zeros(8 * size - |bits|)
  }
}
