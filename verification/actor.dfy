/** The actor definitions of engine/actor.h: attack flags, the attack
    record's defaults, the hit results and the actor flags. */
module Actors {
  import opened Bytes

  /** One bit set: a flag that can be tested on its own. */
  predicate SingleBit(x: bv32)
  {
    x != 0 && x & (x - 1) == 0
  }

  /** Flags that can be combined and tested independently: each one bit,
      no two alike. */
  predicate IndependentFlags(fs: seq<bv32>)
  {
    (forall i :: 0 <= i < |fs| ==> SingleBit(fs[i])) &&
    (forall i, j :: 0 <= i < j < |fs| ==> Misses(fs[i], fs[j]))
  }

  /** No bit in common. */
  predicate Misses(a: bv32, x: bv32)
  {
    a & x == 0
  }

  function Has(flags: bv32, f: bv32): bool
  {
    flags & f != 0
  }

  /** The flag when it is chosen, no bits otherwise. */
  function Pick(c: bool, f: bv32): bv32
  {
    if c then f else 0
  }

  /** The flag word with the chosen flags set: `fs[i]` is or-ed in when
      `chosen[i]` holds. */
  function Combine(fs: seq<bv32>, chosen: seq<bool>): bv32
    requires |chosen| == |fs|
  {
    if |fs| == 0 then 0
    else Pick(chosen[0], fs[0]) | Combine(fs[1..], chosen[1..])
  }

  // Small bit-vector facts, each on its own so the solver sees them apart
  // from any sequence reasoning.

  /** A flag's test reads whether it was chosen when the rest of the word
      misses it. */
  lemma PickRead(c: bool, f: bv32, rest: bv32)
    requires f != 0 && Misses(rest, f)
    ensures Has(Pick(c, f) | rest, f) == c
  {
    OrKeeps(Pick(c, f), rest, f);
    PickHas(c, f);
  }

  /** A test the flag misses reads the rest of the word whether or not the
      flag is chosen. */
  lemma PickSkipped(c: bool, f: bv32, rest: bv32, x: bv32)
    requires Misses(f, x)
    ensures Has(Pick(c, f) | rest, x) == Has(rest, x)
  {
    PickMisses(c, f, x);
    OrKeepsRight(Pick(c, f), rest, x);
  }

  lemma OrKeepsRight(a: bv32, b: bv32, x: bv32)
    requires Misses(a, x)
    ensures Has(a | b, x) == Has(b, x)
  {
    assert a | b == b | a;
    OrKeeps(b, a, x);
  }

  lemma OrMisses(a: bv32, b: bv32, x: bv32)
    requires Misses(a, x) && Misses(b, x)
    ensures Misses(a | b, x)
  {
  }

  lemma OrKeeps(a: bv32, b: bv32, x: bv32)
    requires Misses(b, x)
    ensures Has(a | b, x) == Has(a, x)
  {
  }

  lemma MissesSym(a: bv32, b: bv32)
    requires Misses(a, b)
    ensures Misses(b, a)
  {
  }

  lemma PickHas(c: bool, f: bv32)
    requires f != 0
    ensures Has(Pick(c, f), f) == c
  {
  }

  lemma PickMisses(c: bool, f: bv32, x: bv32)
    requires Misses(f, x)
    ensures Misses(Pick(c, f), x)
  {
  }

  /** A word built from flags that all miss x misses x too. */
  lemma {:induction false} CombineMisses(fs: seq<bv32>, chosen: seq<bool>, x: bv32)
    requires |chosen| == |fs|
    requires forall j :: 0 <= j < |fs| ==> Misses(fs[j], x)
    ensures Misses(Combine(fs, chosen), x)
  {
    if |fs| > 0 {
      var tail := fs[1..];
      assert forall j :: 0 <= j < |tail| ==> Misses(tail[j], x) by {
        forall j | 0 <= j < |tail| ensures Misses(tail[j], x) {
          assert tail[j] == fs[j + 1];
        }
      }
      CombineMisses(tail, chosen[1..], x);
      PickMisses(chosen[0], fs[0], x);
      OrMisses(Pick(chosen[0], fs[0]), Combine(tail, chosen[1..]), x);
    }
  }

  /** Testing a word built from independent flags recovers exactly the
      flags that were set: `(word & fs[i]) != 0` iff `fs[i]` was chosen. */
  lemma {:induction false} CombineRecovers(fs: seq<bv32>, chosen: seq<bool>, i: nat)
    requires IndependentFlags(fs) && |chosen| == |fs| && i < |fs|
    ensures Has(Combine(fs, chosen), fs[i]) == chosen[i]
  {
    if i == 0 {
      HeadRecovered(fs, chosen);
    } else {
      IndependentTail(fs);
      CombineRecovers(fs[1..], chosen[1..], i - 1);
      assert fs[1..][i - 1] == fs[i] && chosen[1..][i - 1] == chosen[i];
      assert Misses(fs[0], fs[i]);
      CombineUnfold(fs, chosen);
      PickSkipped(chosen[0], fs[0], Combine(fs[1..], chosen[1..]), fs[i]);
    }
  }

  lemma CombineUnfold(fs: seq<bv32>, chosen: seq<bool>)
    requires |chosen| == |fs| > 0
    ensures Combine(fs, chosen) == Pick(chosen[0], fs[0]) | Combine(fs[1..], chosen[1..])
  {
  }

  /** The first flag's test reads the first choice: no later flag shares
      its bit. */
  lemma HeadRecovered(fs: seq<bv32>, chosen: seq<bool>)
    requires IndependentFlags(fs) && |chosen| == |fs| > 0
    ensures Has(Combine(fs, chosen), fs[0]) == chosen[0]
  {
    var tail := fs[1..];
    assert forall j :: 0 <= j < |tail| ==> Misses(tail[j], fs[0]) by {
      forall j | 0 <= j < |tail| ensures Misses(tail[j], fs[0]) {
        assert tail[j] == fs[j + 1];
        MissesSym(fs[0], fs[j + 1]);
      }
    }
    CombineMisses(tail, chosen[1..], fs[0]);
    CombineUnfold(fs, chosen);
    PickRead(chosen[0], fs[0], Combine(tail, chosen[1..]));
  }

  lemma IndependentTail(fs: seq<bv32>)
    requires IndependentFlags(fs) && |fs| > 0
    ensures IndependentFlags(fs[1..])
  {
    var tail := fs[1..];
    forall a | 0 <= a < |tail| ensures SingleBit(tail[a]) {
      assert tail[a] == fs[a + 1];
    }
    forall a, b | 0 <= a < b < |tail| ensures Misses(tail[a], tail[b]) {
      assert tail[a] == fs[a + 1] && tail[b] == fs[b + 1];
    }
  }

  // HitDef::flag
  const CAN_BOUNCE: bv32 := 0x1
  const HITS_CROUCH: bv32 := 0x2
  const HITS_AIR: bv32 := 0x4
  const HITS_STAND: bv32 := 0x8
  const UNBLOCKABLE: bv32 := HITS_CROUCH | HITS_AIR | HITS_STAND
  const WALL_BOUNCE: bv32 := 0x10
  const DISABLE_COLLISION: bv32 := 0x20

  /** The attack flags are independent bits, and an unblockable attack is
      one that hits crouching, airborne and standing opponents alike. */
  lemma HitFlagsIndependent()
    ensures IndependentFlags([CAN_BOUNCE, HITS_CROUCH, HITS_AIR, HITS_STAND, WALL_BOUNCE, DISABLE_COLLISION])
    ensures forall f: bv32 :: Has(f & UNBLOCKABLE, HITS_CROUCH) == Has(f, HITS_CROUCH)
    ensures forall f: bv32 :: (f & UNBLOCKABLE == UNBLOCKABLE) <==> Has(f, HITS_CROUCH) && Has(f, HITS_AIR) && Has(f, HITS_STAND)
  {
  }

  // Actor::actorFlags
  const FLOOR_CHECK: bv32 := 0x1
  const FOLLOW_PARENT: bv32 := 0x2
  const NO_COLLISION: bv32 := 0x4

  const ACTOR_FLAGS: seq<bv32> := [FLOOR_CHECK, FOLLOW_PARENT, NO_COLLISION]

  /** The actor flags are independent: an actor's flag word built from any
      choice of them answers each flag's test with that flag's choice. */
  lemma ActorFlagsIndependent(chosen: seq<bool>, i: nat)
    requires |chosen| == |ACTOR_FLAGS| && i < |ACTOR_FLAGS|
    ensures IndependentFlags(ACTOR_FLAGS)
    ensures Has(Combine(ACTOR_FLAGS, chosen), ACTOR_FLAGS[i]) == chosen[i]
  {
    CombineRecovers(ACTOR_FLAGS, chosen, i);
  }

  /** a and b agree on every bit outside the mask. */
  predicate SameOutside(a: bv32, b: bv32, mask: bv32)
  {
    a & !mask == b & !mask
  }

  /** `GotoSequence` re-enables collision: the no-collision bit is cleared
      and every other bit kept. */
  function ClearNoCollision(flags: bv32): (r: bv32)
    ensures !Has(r, NO_COLLISION)
    ensures SameOutside(r, flags, NO_COLLISION)
  {
    flags & !NO_COLLISION
  }

  /** Taking a hit: an attack with the disable-collision flag sets the
      no-collision bit, and no other bit changes. */
  function TakeHitFlags(flags: bv32, hitFlags: bv32): (r: bv32)
    ensures Has(r, NO_COLLISION) <==> Has(flags, NO_COLLISION) || Has(hitFlags, DISABLE_COLLISION)
    ensures SameOutside(r, flags, NO_COLLISION)
  {
    if Has(hitFlags, DISABLE_COLLISION) then flags | NO_COLLISION else flags
  }

  /** Character collision is skipped when either character has the
      no-collision bit. */
  predicate CollisionSkipped(flags1: bv32, flags2: bv32)
  {
    Has(flags1, NO_COLLISION) || Has(flags2, NO_COLLISION)
  }

  /** A hit that disables collision stops the two characters pushing each
      other until the hit character's next sequence, which gives back the
      flags it had before the hit, apart from the no-collision bit. */
  lemma NoCollisionUntilNextSequence(flags: bv32, hitFlags: bv32, other: bv32)
    requires Has(hitFlags, DISABLE_COLLISION)
    ensures CollisionSkipped(TakeHitFlags(flags, hitFlags), other)
    ensures CollisionSkipped(ClearNoCollision(TakeHitFlags(flags, hitFlags)), other) <==> Has(other, NO_COLLISION)
    ensures ClearNoCollision(TakeHitFlags(flags, hitFlags)) == ClearNoCollision(flags)
  {
    var hit := TakeHitFlags(flags, hitFlags);
    assert Has(hit, NO_COLLISION);
    assert SameOutside(hit, flags, NO_COLLISION);
    assert !Has(ClearNoCollision(hit), NO_COLLISION);
  }

  /** The part of an attack definition the hit resolution reads. */
  datatype HitDef = HitDef(attackFlags: bv32, damage: int, hitStop: int, blockStop: int, blockstun: int)

  /** A fresh attack: no flags, no damage, no hitstop, and a block stop of
      -1, meaning "block with the hit stop". */
  function DefaultHitDef(): (h: HitDef)
    ensures h.attackFlags == 0 && h.damage == 0 && h.hitStop == 0 && h.blockstun == 0
    ensures BlockStop(h) == h.hitStop
  {
    HitDef(0, 0, 0, -1, 0)
  }

  /** The hitstop of a blocked hit: the block stop when one is set (not
      negative), the hit stop otherwise. */
  function BlockStop(h: HitDef): (s: int)
    ensures h.blockStop >= 0 ==> s == h.blockStop
    ensures h.blockStop < 0 ==> s == h.hitStop
  {
    if h.blockStop >= 0 then h.blockStop else h.hitStop
  }

  /** Actor::hitType: how a hit was taken, in the enum's order. */
  datatype HitType = NoHit | Hurt | Blocked | Counter

  function Ordinal(t: HitType): (n: nat)
    ensures n < 4
  {
    match t
    case NoHit => 0
    case Hurt => 1
    case Blocked => 2
    case Counter => 3
  }

  /** Reading a hit type back from the integer an actor stores it in
      (`comboType` is an `int`); no hit type has a value outside 0 to 3. */
  function FromOrdinal(n: int): (r: Option<HitType>)
    ensures r.Some? <==> 0 <= n < 4
  {
    if n == 0 then Some(NoHit)
    else if n == 1 then Some(Hurt)
    else if n == 2 then Some(Blocked)
    else if n == 3 then Some(Counter)
    else None
  }

  /** Storing a hit type as its integer and reading it back gives the same
      hit type, and every integer that reads back is the one stored, so
      comparing the stored integers compares the hit types. */
  lemma OrdinalRoundTrip(t: HitType, n: int)
    ensures FromOrdinal(Ordinal(t)) == Some(t)
    ensures FromOrdinal(n) == Some(t) <==> n == Ordinal(t)
  {
  }
}
