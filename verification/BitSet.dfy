/**
 The bit set of core/math/HungarianSolver.cpp: 64-bit limbs, with the non-zero limbs threaded
 on a doubly linked list (`first`, `prev`, `next`; a limb's list slot is its index plus one, and
 slot 0 is the end of the list).  The class is proved to refine a finite set of indices.
 */
module BitSets {

  const SIGN_BIT: bv64 := 0x8000_0000_0000_0000

  // ----- one limb

  predicate Bit(limb: bv64, k: bv6) {
    (limb >> k) & 1 == 1
  }

  function TurnOn(limb: bv64, k: bv6): bv64 {
    limb | (1 << k)
  }

  function TurnOff(limb: bv64, k: bv6): bv64 {
    limb & !(1 << k)
  }

  lemma OrShift(limb: bv64, a: bv6, b: bv6)
    ensures Bit(limb | (1 << a), b) <==> a == b || Bit(limb, b)
  {
  }

  lemma BitOn(limb: bv64, a: bv6, b: bv6)
    ensures Bit(TurnOn(limb, a), b) <==> a == b || Bit(limb, b)
  {
    OrShift(limb, a, b);
  }

  lemma AndNotShift(limb: bv64, a: bv6, b: bv6)
    ensures Bit(limb & !(1 << a), b) <==> a != b && Bit(limb, b)
  {
  }

  lemma BitOff(limb: bv64, a: bv6, b: bv6)
    ensures Bit(TurnOff(limb, a), b) <==> a != b && Bit(limb, b)
  {
    AndNotShift(limb, a, b);
  }

  lemma OnIsNonZero(limb: bv64, a: bv6)
    ensures TurnOn(limb, a) != 0
  {
  }

  lemma OffOfZero(a: bv6)
    ensures TurnOff(0, a) == 0
  {
  }

  /** `x & -x` isolates one bit. */
  lemma LowestBit(x: bv64)
    requires x != 0
    ensures x & -x != 0
    ensures (x & -x) & ((x & -x) - 1) == 0
  {
  }

  lemma LowestBitIsBit(x: bv64, k: bv6)
    requires x & -x == 1 << k
    ensures Bit(x, k)
  {
  }

  lemma BitOfNonZero(limb: bv64, k: bv6)
    requires Bit(limb, k)
    ensures limb != 0
  {
  }

  function Shr(v: bv64, k: bv6): bv64 {
    v >> k
  }

  /** Right shift of a signed 64-bit value: the sign bit is copied in. */
  function ShiftRightSigned(v: bv64, k: bv6): bv64 {
    if v & SIGN_BIT != 0 then !Shr(!v, k) else Shr(v, k)
  }

  /** One test of `lb`: a set bit in the mask counts `k` and shifts the value by as much. */
  function Halve(s: (bv6, bv64), mask: bv64, k: bv6): (bv6, bv64) {
    if s.1 & mask != 0 then (s.0 | k, ShiftRightSigned(s.1, k)) else s
  }

  /** `lb`; its result is below 64, so six bits hold it. */
  function Lb(value: bv64): bv6 {
    var s1 := Halve((0, value), 0xFFFF_FFFF_0000_0000, 32);
    var s2 := Halve(s1, 0xFFFF_0000, 16);
    var s3 := Halve(s2, 0xFF00, 8);
    var s4 := Halve(s3, 0xF0, 4);
    var s5 := Halve(s4, 0xC, 2);
    if s5.1 & 2 != 0 then s5.0 | 1 else s5.0
  }

  /** Where a test leaves a value: what remains of it is not zero and at most `bound`. */
  predicate Remains(value: bv64, s: (bv6, bv64), bound: bv64) {
    s.1 == Shr(value, s.0) && 0 < s.1 <= bound
  }

  lemma ShiftThen16(v: bv64, r: bv6)
    requires r & 31 == 0
    ensures Shr(Shr(v, r), 16) == Shr(v, r | 16)
  {
    assert r == 0 || r == 32;
  }

  lemma ShiftThen8(v: bv64, r: bv6)
    requires r & 15 == 0
    ensures Shr(Shr(v, r), 8) == Shr(v, r | 8)
  {
    assert r == 0 || r == 16 || r == 32 || r == 48;
  }

  lemma ShiftThen4(v: bv64, r: bv6)
    requires r & 7 == 0
    ensures Shr(Shr(v, r), 4) == Shr(v, r | 4)
  {
    assert r == 0 || r == 8 || r == 16 || r == 24 || r == 32 || r == 40 || r == 48 || r == 56;
  }

  lemma ShiftThen2Low(v: bv64, r: bv6)
    requires r & 35 == 0
    ensures Shr(Shr(v, r), 2) == Shr(v, r | 2)
  {
    assert r == 0 || r == 4 || r == 8 || r == 12 || r == 16 || r == 20 || r == 24 || r == 28;
  }

  lemma ShiftThen2High(v: bv64, r: bv6)
    requires r & 35 == 32
    ensures Shr(Shr(v, r), 2) == Shr(v, r | 2)
  {
    assert r == 32 || r == 36 || r == 40 || r == 44 || r == 48 || r == 52 || r == 56 || r == 60;
  }

  lemma ShiftThen1Low(v: bv64, r: bv6)
    requires r & 33 == 0
    ensures Shr(Shr(v, r), 1) == Shr(v, r | 1)
  {
    assert r == 0 || r == 2 || r == 4 || r == 6 || r == 8 || r == 10 || r == 12 || r == 14 || r == 16 || r == 18
        || r == 20 || r == 22 || r == 24 || r == 26 || r == 28 || r == 30;
  }

  lemma ShiftThen1High(v: bv64, r: bv6)
    requires r & 33 == 32
    ensures Shr(Shr(v, r), 1) == Shr(v, r | 1)
  {
    assert r == 32 || r == 34 || r == 36 || r == 38 || r == 40 || r == 42 || r == 44 || r == 46 || r == 48 || r == 50
        || r == 52 || r == 54 || r == 56 || r == 58 || r == 60 || r == 62;
  }

  lemma Halve32(value: bv64)
    requires value & SIGN_BIT == 0 && value != 0
    ensures var s := Halve((0, value), 0xFFFF_FFFF_0000_0000, 32); s.0 & 31 == 0 && Remains(value, s, 0xFFFF_FFFF)
  {
    var s := Halve((0, value), 0xFFFF_FFFF_0000_0000, 32);
    assert s.0 == 0 || s.0 == 32;
  }

  lemma Halve16(value: bv64, s: (bv6, bv64))
    requires s.0 & 31 == 0 && Remains(value, s, 0xFFFF_FFFF)
    ensures var s' := Halve(s, 0xFFFF_0000, 16); s'.0 & 15 == 0 && Remains(value, s', 0xFFFF)
  {
    hide Shr;
    HalveBits16(s.1);
    ShiftThen16(value, s.0);
  }

  lemma HalveBits16(v: bv64)
    requires 0 < v <= 0xFFFF_FFFF
    ensures v & SIGN_BIT == 0
    ensures v & 0xFFFF_0000 == 0 ==> v <= 0xFFFF
    ensures v & 0xFFFF_0000 != 0 ==> 0 < Shr(v, 16) <= 0xFFFF
  {
  }

  lemma Halve8(value: bv64, s: (bv6, bv64))
    requires s.0 & 15 == 0 && Remains(value, s, 0xFFFF)
    ensures var s' := Halve(s, 0xFF00, 8); s'.0 & 7 == 0 && Remains(value, s', 0xFF)
  {
    hide Shr;
    HalveBits8(s.1);
    ShiftThen8(value, s.0);
  }

  lemma HalveBits8(v: bv64)
    requires 0 < v <= 0xFFFF
    ensures v & SIGN_BIT == 0
    ensures v & 0xFF00 == 0 ==> v <= 0xFF
    ensures v & 0xFF00 != 0 ==> 0 < Shr(v, 8) <= 0xFF
  {
  }

  lemma Halve4(value: bv64, s: (bv6, bv64))
    requires s.0 & 7 == 0 && Remains(value, s, 0xFF)
    ensures var s' := Halve(s, 0xF0, 4); s'.0 & 3 == 0 && Remains(value, s', 0xF)
  {
    hide Shr;
    HalveBits4(s.1);
    ShiftThen4(value, s.0);
  }

  lemma HalveBits4(v: bv64)
    requires 0 < v <= 0xFF
    ensures v & SIGN_BIT == 0
    ensures v & 0xF0 == 0 ==> v <= 0xF
    ensures v & 0xF0 != 0 ==> 0 < Shr(v, 4) <= 0xF
  {
  }

  lemma Halve2(value: bv64, s: (bv6, bv64))
    requires s.0 & 3 == 0 && Remains(value, s, 0xF)
    ensures var s' := Halve(s, 0xC, 2); s'.0 & 1 == 0 && Remains(value, s', 0x3)
  {
    hide Shr;
    HalveBits2(s.1);
    if s.0 & 32 == 0 {
      ShiftThen2Low(value, s.0);
    } else {
      ShiftThen2High(value, s.0);
    }
  }

  lemma HalveBits2(v: bv64)
    requires 0 < v <= 0xF
    ensures v & SIGN_BIT == 0
    ensures v & 0xC == 0 ==> v <= 0x3
    ensures v & 0xC != 0 ==> 0 < Shr(v, 2) <= 0x3
  {
  }

  lemma LbTests(value: bv64)
    requires value & SIGN_BIT == 0 && value != 0
    ensures Shr(value, Lb(value)) == 1
  {
    hide Halve, Remains, Shr;
    var s1 := Halve((0, value), 0xFFFF_FFFF_0000_0000, 32);
    var s2 := Halve(s1, 0xFFFF_0000, 16);
    var s3 := Halve(s2, 0xFF00, 8);
    var s4 := Halve(s3, 0xF0, 4);
    Halve32(value);
    Halve16(value, s1);
    Halve8(value, s2);
    Halve4(value, s3);
    Halve2(value, s4);
    LastBit(value, Halve(s4, 0xC, 2));
  }

  /** On a positive value `lb` is the floored binary logarithm: shifting by it leaves the leading 1. */
  lemma LbIsFlooredLogarithm(value: bv64)
    requires value & SIGN_BIT == 0 && value != 0
    ensures value >> Lb(value) == 1
  {
    hide Lb;
    LbTests(value);
  }

  lemma LastBit(value: bv64, s: (bv6, bv64))
    requires s.0 & 1 == 0 && Remains(value, s, 3)
    ensures Shr(value, if s.1 & 2 != 0 then s.0 | 1 else s.0) == 1
  {
    if s.0 & 32 == 0 {
      ShiftThen1Low(value, s.0);
    } else {
      ShiftThen1High(value, s.0);
    }
  }

  lemma OneBit(value: bv64, k: bv6)
    requires value & (value - 1) == 0 && value >> k == 1
    ensures value == 1 << k
  {
  }

  lemma OnlySign(value: bv64)
    requires value & (value - 1) == 0 && value & SIGN_BIT != 0
    ensures value == SIGN_BIT
  {
  }

  /** On an isolated bit, bit 63 included (where the value is negative), `lb` finds the bit. */
  lemma LbOfOneBit(value: bv64)
    requires value != 0 && value & (value - 1) == 0
    ensures value == 1 << Lb(value)
  {
    if value & SIGN_BIT == 0 {
      LbIsFlooredLogarithm(value);
      OneBit(value, Lb(value));
    } else {
      OnlySign(value);
    }
  }

  /** A non-zero limb has a bit, namely the one `lb` computes from `x & -x`. */
  lemma LbOfLowestBit(x: bv64)
    requires x != 0
    ensures Bit(x, Lb(x & -x))
  {
    hide Lb;
    LowestBit(x);
    LbOfOneBit(x & -x);
    LowestBitIsBit(x, Lb(x & -x));
  }

  function LowestIndex(limb: bv64): (rc: bv6)
    requires limb != 0
    ensures Bit(limb, rc)
  {
    LbOfLowestBit(limb);
    Lb(limb & -limb)
  }

  // ----- an index, its limb and its bit

  /** `i & 63` */
  function Offset(i: nat): bv6 {
    (i % 64) as bv6
  }

  lemma SmallRoundTrip(k: nat)
    requires k < 64
    ensures (k as bv6) as nat == k
  {
  }

  lemma OffsetInjective(i: nat, k: nat)
    requires i / 64 == k / 64
    ensures Offset(i) == Offset(k) <==> i == k
  {
    SmallRoundTrip(i % 64);
    SmallRoundTrip(k % 64);
  }

  lemma IndexOfBit(j: nat, k: bv6)
    ensures (64 * j + k as nat) / 64 == j
    ensures Offset(64 * j + k as nat) == k
  {
    assert (k as nat) as bv6 == k;
    assert (64 * j + k as nat) % 64 == k as nat;
  }

  // ----- the list of slots

  /** The slot at a position of a list; slot 0 off either end. */
  ghost function SlotAt(list: seq<nat>, k: int): nat {
    if 0 <= k < |list| then list[k] else 0
  }

  /** The links spell out `list`, whose slots are distinct: `next` and `prev` are mutually inverse on it. */
  ghost predicate Chain(list: seq<nat>, first: nat, prev: seq<nat>, next: seq<nat>) {
    |prev| == |next| && Slots(list, |next|) && first == SlotAt(list, 0) && NextLinks(list, next)
        && PrevLinks(list, prev)
  }

  ghost predicate Slots(list: seq<nat>, bound: nat) {
    && 0 < bound
    && (forall k | 0 <= k < |list| :: 1 <= list[k] < bound)
    && (forall k, l | 0 <= k < l < |list| :: list[k] != list[l])
  }

  ghost predicate NextLinks(list: seq<nat>, next: seq<nat>)
    requires Slots(list, |next|)
  {
    forall k {:trigger next[list[k]]} | 0 <= k < |list| :: next[list[k]] == SlotAt(list, k + 1)
  }

  ghost predicate PrevLinks(list: seq<nat>, prev: seq<nat>)
    requires Slots(list, |prev|)
  {
    forall k {:trigger prev[list[k]]} | 0 <= k < |list| :: prev[list[k]] == SlotAt(list, k - 1)
  }

  /** The four writes of `BitSet_set` put a new slot in front. */
  lemma ChainPush(list: seq<nat>, first: nat, prev: seq<nat>, next: seq<nat>, j: nat)
    requires Chain(list, first, prev, next) && 1 <= j < |next| && j !in list
    ensures Chain([j] + list, j, prev[first := j][j := 0], next[j := first])
  {
    var list', prev', next' := [j] + list, prev[first := j][j := 0], next[j := first];
    forall k | 0 <= k < |list'|
      ensures prev'[list'[k]] == SlotAt(list', k - 1) && next'[list'[k]] == SlotAt(list', k + 1)
    {
      if k > 0 {
        assert list'[k] == list[k - 1];
        assert list'[k] == first <==> k == 1;
      }
    }
  }

  /** The writes of `BitSet_unset` cut slot `list[at]` out. */
  lemma ChainCut(list: seq<nat>, first: nat, prev: seq<nat>, next: seq<nat>, at: nat)
    requires Chain(list, first, prev, next) && at < |list|
    ensures prev[list[at]] < |prev| && next[list[at]] < |next|
    ensures
      var j := list[at];
      var p, n := prev[j], next[j];
      Chain(list[..at] + list[at + 1..], if first == j then n else first, prev[n := p], next[p := n])
  {
    CutNext(list, next, at);
    CutPrev(list, prev, at);
  }

  lemma CutMembers(list: seq<nat>, at: nat)
    requires at < |list| && forall k, l | 0 <= k < l < |list| :: list[k] != list[l]
    ensures forall l :: l in list[..at] + list[at + 1..] <==> l in list && l != list[at]
  {
    assert list == list[..at] + [list[at]] + list[at + 1..];
  }

  lemma CutNext(list: seq<nat>, next: seq<nat>, at: nat)
    requires Slots(list, |next|) && NextLinks(list, next) && at < |list|
    ensures Slots(list[..at] + list[at + 1..], |next|)
    ensures next[list[at]] == SlotAt(list, at + 1)
    ensures NextLinks(list[..at] + list[at + 1..], next[SlotAt(list, at - 1) := next[list[at]]])
  {
    var list' := list[..at] + list[at + 1..];
    var next' := next[SlotAt(list, at - 1) := next[list[at]]];
    forall k | 0 <= k < |list'|
      ensures next'[list'[k]] == SlotAt(list', k + 1)
    {
      var o := if k < at then k else k + 1;
      assert next[list[o]] == SlotAt(list, o + 1);
    }
  }

  lemma CutPrev(list: seq<nat>, prev: seq<nat>, at: nat)
    requires Slots(list, |prev|) && PrevLinks(list, prev) && at < |list|
    ensures Slots(list[..at] + list[at + 1..], |prev|)
    ensures prev[list[at]] == SlotAt(list, at - 1)
    ensures PrevLinks(list[..at] + list[at + 1..], prev[SlotAt(list, at + 1) := prev[list[at]]])
  {
    var list' := list[..at] + list[at + 1..];
    var prev' := prev[SlotAt(list, at + 1) := prev[list[at]]];
    forall k | 0 <= k < |list'|
      ensures prev'[list'[k]] == SlotAt(list', k - 1)
    {
      var o := if k < at then k else k + 1;
      assert prev[list[o]] == SlotAt(list, o - 1);
    }
  }

  class BitSet {
    const size: nat
    const limbs: array<bv64>
    const prev: array<nat>
    const next: array<nat>
    var first: nat
    // the slots on the list, from `first` on
    ghost var list: seq<nat>

    ghost predicate Shape()
      reads this
    {
      && limbs.Length == (size + 63) / 64
      && prev.Length == next.Length == limbs.Length + 1
      && prev != next
    }

    ghost predicate Linked()
      requires Shape()
      reads this, prev, next
    {
      Chain(list, first, prev[..], next[..])
    }

    /** The list holds exactly the non-zero limbs. */
    ghost predicate ListsNonZero()
      requires Shape()
      reads this, limbs
    {
      forall j | 0 <= j < limbs.Length :: j + 1 in list <==> limbs[j] != 0
    }

    ghost predicate Has(i: nat)
      requires i / 64 < limbs.Length
      reads limbs
    {
      Bit(limbs[i / 64], Offset(i))
    }

    /** The abstract value: the indices whose bit is on. */
    ghost function Elems(): set<nat>
      reads limbs
    {
      set i: nat | i < 64 * limbs.Length && Has(i)
    }

    ghost predicate Valid()
      reads this, limbs, prev, next
    {
      Shape() && Linked() && ListsNonZero() && forall i | i in Elems() :: i < size
    }

    constructor (size: nat)
      ensures Valid() && Elems() == {} && this.size == size
      ensures fresh(limbs) && fresh(prev) && fresh(next)
    {
      var c := size / 64;
      if size % 64 != 0 {
        c := c + 1;
      }
      this.size := size;
      limbs := new bv64[c](_ => 0);
      prev := new nat[c + 1](_ => 0);
      next := new nat[c + 1](_ => 0);
      first := 0;
      list := [];
    }

    /** Puts slot `j` at the head of the list. */
    method Link(j: nat)
      requires Shape() && Linked() && 1 <= j <= limbs.Length && j !in list
      modifies this, prev, next
      ensures Shape() && Linked() && list == [j] + old(list)
    {
      ChainPush(list, first, prev[..], next[..], j);
      prev[first] := j;
      prev[j] := 0;
      next[j] := first;
      first := j;
      list := [j] + list;
    }

    /** Takes slot `j` off the list. */
    method Unlink(j: nat)
      requires Shape() && Linked() && 1 <= j <= limbs.Length && j in list
      modifies this, prev, next
      ensures Shape() && Linked()
      ensures forall l :: l in list <==> l in old(list) && l != j
    {
      hide NextLinks, PrevLinks;
      ghost var at :| 0 <= at < |list| && list[at] == j;
      ChainCut(list, first, prev[..], next[..], at);
      var p := prev[j];
      var n := next[j];
      prev[n] := p;
      next[p] := n;
      if first == j {
        first := n;
      }
      CutMembers(list, at);
      list := list[..at] + list[at + 1..];
    }

    method TurnBitOn(i: nat)
      requires i < 64 * limbs.Length
      modifies limbs
      ensures Elems() == old(Elems()) + {i}
      ensures limbs[i / 64] != 0
      ensures forall l | 0 <= l < limbs.Length && l != i / 64 :: limbs[l] == old(limbs[l])
    {
      limbs[i / 64] := TurnOn(limbs[i / 64], Offset(i));
      OnIsNonZero(old(limbs[i / 64]), Offset(i));
      forall k: nat | k < 64 * limbs.Length
        ensures Has(k) <==> old(Has(k)) || k == i
      {
        if k / 64 == i / 64 {
          OffsetInjective(i, k);
          BitOn(old(limbs[i / 64]), Offset(i), Offset(k));
        }
      }
    }

    method TurnBitOff(i: nat)
      requires i < 64 * limbs.Length
      modifies limbs
      ensures Elems() == old(Elems()) - {i}
      ensures old(limbs[i / 64]) == 0 ==> limbs[i / 64] == 0
      ensures forall l | 0 <= l < limbs.Length && l != i / 64 :: limbs[l] == old(limbs[l])
    {
      limbs[i / 64] := TurnOff(limbs[i / 64], Offset(i));
      OffOfZero(Offset(i));
      forall k: nat | k < 64 * limbs.Length
        ensures Has(k) <==> old(Has(k)) && k != i
      {
        if k / 64 == i / 64 {
          OffsetInjective(i, k);
          BitOff(old(limbs[i / 64]), Offset(i), Offset(k));
        }
      }
    }

    method Set(i: nat)
      requires Valid() && i < size
      modifies this, limbs, prev, next
      ensures Valid()
      ensures Elems() == old(Elems()) + {i}
    {
      var j := i / 64;
      var before := limbs[j];
      TurnBitOn(i);
      if (limbs[j] == 0) != (before == 0) {
        Link(j + 1);
      }
    }

    method Unset(i: nat)
      requires Valid() && i < size
      modifies this, limbs, prev, next
      ensures Valid()
      ensures Elems() == old(Elems()) - {i}
    {
      var j := i / 64;
      var before := limbs[j];
      TurnBitOff(i);
      if (limbs[j] == 0) != (before == 0) {
        Unlink(j + 1);
      }
    }

    lemma MemberIsListed(i: nat)
      requires Valid() && i in Elems()
      ensures i / 64 + 1 in list && first != 0
    {
      BitOfNonZero(limbs[i / 64], Offset(i));
      assert i / 64 + 1 in list;
    }

    lemma MemberAt(j: nat, rc: bv6)
      requires j < limbs.Length && Bit(limbs[j], rc)
      ensures 64 * j + rc as nat in Elems()
    {
      IndexOfBit(j, rc);
      assert Has(64 * j + rc as nat);
    }

    method FirstMember() returns (p: nat)
      requires Valid() && first != 0
      ensures p in Elems()
    {
      hide LowestIndex;
      var i := first - 1;
      assert list[0] in list;
      var rc := LowestIndex(limbs[i]);
      MemberAt(i, rc);
      p := 64 * i + rc as nat;
    }

    /** Some member of the set, or -1 when there is none. */
    method Any() returns (p: int)
      requires Valid()
      ensures p == -1 <==> Elems() == {}
      ensures p != -1 ==> p in Elems() && 0 <= p < size
    {
      if first == 0 {
        forall i | i in Elems()
          ensures false
        {
          MemberIsListed(i);
        }
        return -1;
      }
      p := FirstMember();
    }
  }
}
