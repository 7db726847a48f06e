/** Game rules of engine/chara.cpp and engine/chara.h: mirrored input,
    the cancel table, the scripted random integer, hit resolution, wall
    contact, the draw list and the culling of finished child actors.
    Lua, sound and the sequence tables are outside the model; what the
    rules read from them is taken as plain input. */
module Chara {
  import opened Bytes
  import opened Actors

  // ---------------------------------------------------------------------
  // Mirrored input (GetInputRelative)

  /** The horizontal direction bits of a processed key. Their definitions
      are not part of this model; they are taken as the two bits of the
      literal mask 0xC that the mirroring clears. Swapping them does not
      depend on which of the two is left. */
  const KEY_LEFT: bv32 := 0x4
  const KEY_RIGHT: bv32 := 0x8
  const HORIZONTAL: bv32 := 0xC

  /** The key as seen facing the other way: left and right swapped, every
      other bit kept. */
  function Mirror(k: bv32): (r: bv32)
    ensures r & !HORIZONTAL == k & !HORIZONTAL
    ensures (r & KEY_LEFT != 0) == (k & KEY_RIGHT != 0) && (r & KEY_RIGHT != 0) == (k & KEY_LEFT != 0)
  {
    (k & !HORIZONTAL) | (if (k & KEY_RIGHT != 0) then KEY_LEFT else 0) | (if (k & KEY_LEFT != 0) then KEY_RIGHT else 0)
  }

  /** `GetInputRelative`: the last key as is when facing right (side > 0),
      mirrored otherwise. */
  function InputRelative(lastKey: bv32, side: int): (r: bv32)
    ensures side > 0 ==> r == lastKey
    ensures side <= 0 ==> r & !HORIZONTAL == lastKey & !HORIZONTAL
    ensures side <= 0 ==> (r & KEY_LEFT != 0) == (lastKey & KEY_RIGHT != 0) && (r & KEY_RIGHT != 0) == (lastKey & KEY_LEFT != 0)
  {
    if side > 0 then lastKey else Mirror(lastKey)
  }

  /** Swapping left and right by flipping both bits when exactly one is
      set. */
  function SwapHorizontal(k: bv32): bv32
  {
    if (k & KEY_LEFT == 0) == (k & KEY_RIGHT == 0) then k else k ^ HORIZONTAL
  }

  /** The mirror is the swap of the two horizontal bits. */
  lemma MirrorIsSwap(k: bv32)
    ensures Mirror(k) == SwapHorizontal(k)
  {
  }

  /** Mirroring twice gives the key back. */
  lemma MirrorInvolution(k: bv32)
    ensures Mirror(Mirror(k)) == k
  {
    MirrorIsSwap(k);
    MirrorIsSwap(Mirror(k));
  }

  /** A key is determined by its bits outside the mask and its two
      horizontal bits. */
  lemma BitsDetermine(a: bv32, b: bv32)
    requires a & !HORIZONTAL == b & !HORIZONTAL
    requires (a & KEY_LEFT != 0) == (b & KEY_LEFT != 0) && (a & KEY_RIGHT != 0) == (b & KEY_RIGHT != 0)
    ensures a == b
  {
  }

  // ---------------------------------------------------------------------
  // Cancel table (Character::Input)

  /** Whether a frame with this cancel type can be cancelled, given how the
      current sequence's last hit was taken: 1 always, 2 after any hit,
      3 after a hit, 4 after a block, anything else never. */
  function Cancellable(cancelType: int, comboType: HitType): (r: bool)
    ensures cancelType == 1 ==> r
    ensures r ==> 1 <= cancelType <= 4
    ensures comboType == NoHit ==> (r <==> cancelType == 1)
  {
    match cancelType
    case 1 => true
    case 2 => comboType != NoHit
    case 3 => comboType == Hurt
    case 4 => comboType == Blocked
    case _ => false
  }

  /** "Any hit" covers "after a hit" and "after a block", which exclude each
      other, and each type implies type 1. A counter-hit, which the scene
      stores as the combo type too, is a hit for "any hit" but neither
      "after a hit" nor "after a block". */
  lemma CancelTypesNest(comboType: HitType)
    ensures comboType != Counter ==>
              (Cancellable(2, comboType) <==> Cancellable(3, comboType) || Cancellable(4, comboType))
    ensures Cancellable(3, comboType) || Cancellable(4, comboType) ==> Cancellable(2, comboType)
    ensures Cancellable(2, Counter) && !Cancellable(3, Counter) && !Cancellable(4, Counter)
    ensures !(Cancellable(3, comboType) && Cancellable(4, comboType))
    ensures forall t :: Cancellable(t, comboType) ==> Cancellable(1, comboType)
  {
  }

  /** The normal and special cancel flags of a frame. */
  function CancelFlags(cancelType: seq<int>, comboType: HitType): (r: seq<bool>)
    requires |cancelType| == 2
    ensures |r| == 2 && forall i :: 0 <= i < 2 ==> r[i] == Cancellable(cancelType[i], comboType)
  {
    [Cancellable(cancelType[0], comboType), Cancellable(cancelType[1], comboType)]
  }

  // ---------------------------------------------------------------------
  // RandomInt (the scripting helper)

  const TWO64: nat := 0x1_0000_0000_0000_0000
  const U32_MAX: nat := 0xFFFF_FFFF

  datatype RandomError = DivisionByZero  // max - min + 1 wraps to 0

  /** `RandomInt(min, max)` with 64-bit unsigned arithmetic and the 32-bit
      RNG output `u`: scale u down by one more than the buckets that fit. */
  function RandomInt(min: nat, max: u32, u: u32): (r: Result<nat, RandomError>)
    requires min < TWO64
    ensures r.Err? <==> (max - min + 1) % TWO64 == 0
    ensures r.Ok? ==> r.value < TWO64
  {
    var range := (max - min + 1) % TWO64;
    if range == 0 then Err(DivisionByZero)
    else Ok((min + u / (U32_MAX / range + 1)) % TWO64)
  }

  /** For min <= max every RNG output gives a value in [min, max]. */
  lemma RandomIntInRange(min: nat, max: u32, u: u32)
    requires min <= max
    ensures RandomInt(min, max, u).Ok?
    ensures min <= RandomInt(min, max, u).value <= max
  {
    var range := max - min + 1;
    ModOfSmall(range);
    var q := u / (U32_MAX / range + 1);
    QuotientBelowRange(u, range);
    ModOfSmall(min + q);
    assert RandomInt(min, max, u) == Ok(min + q);
  }

  lemma ModOfSmall(x: int)
    requires 0 <= x < TWO64
    ensures x % TWO64 == x
  {
  }

  /** Dividing by one more than the bucket size leaves fewer than `range`
      buckets. */
  lemma QuotientBelowRange(u: nat, range: nat)
    requires 1 <= range <= U32_MAX + 1 && u <= U32_MAX
    ensures u / (U32_MAX / range + 1) <= range - 1
  {
    var d := U32_MAX / range + 1;
    assert U32_MAX < d * range by {
      assert U32_MAX == (U32_MAX / range) * range + U32_MAX % range;
    }
    assert u / d <= U32_MAX / d by {
      DivMonotone(u, U32_MAX, d);
    }
    if U32_MAX / d >= range {
      assert d * (U32_MAX / d) <= U32_MAX;
      MulMonotone(d, range, U32_MAX / d);
      assert false;
    }
  }

  lemma DivMonotone(a: nat, b: nat, d: nat)
    requires a <= b && d > 0
    ensures a / d <= b / d
  {
    if a / d > b / d {
      assert d * (a / d) <= a;
      assert b < d * (b / d + 1);
      MulMonotone(d, b / d + 1, a / d);
      assert false;
    }
  }

  lemma MulMonotone(d: nat, x: nat, y: nat)
    requires x <= y
    ensures d * x <= d * y
  {
  }

  // ---------------------------------------------------------------------
  // Hit resolution (Character::ResolveHit)

  // state::
  const STAND: int := 0
  const CROUCH: int := 1
  const AIR: int := 2
  const OTG: int := 3

  /** flag::canMove */
  const CAN_MOVE: bv32 := 0x1

  /** The properties of the defender's current frame. */
  datatype FrameProps = FrameProps(state: int, flags: bv32, chType: int)

  /** The directions of the sanitised key press. */
  datatype Held = Held(left: bool, right: bool, down: bool)

  /** The defender's fields hit resolution reads and writes. */
  datatype Defender = Defender(health: int, hitstop: int, isAlreadyBlocking: bool, blockTime: int, side: int)

  /** Holding back: away from where the defender faces. */
  function HoldsBack(keys: Held, side: int): bool
  {
    if side < 0 then keys.right else keys.left
  }

  predicate Grounded(state: int)
  {
    state == CROUCH || state == STAND
  }

  /** Down as resolution sees it: with `alwaysBlock` the defender crouches
      against attacks that hit standing, and stays crouched against ones
      that do not hit crouching. */
  function HeldDown(keys: Held, frame: FrameProps, hit: HitDef, alwaysBlock: bool): bool
  {
    keys.down || (alwaysBlock && (Has(hit.attackFlags, HITS_STAND) ||
                                  (frame.state == CROUCH && !Has(hit.attackFlags, HITS_CROUCH))))
  }

  /** The guard holds against the attack: it does not hit the air while
      airborne, crouchers while crouched, or standers while standing. */
  predicate Guards(hit: HitDef, state: int, down: bool)
  {
    !((Has(hit.attackFlags, HITS_AIR) && state == AIR) ||
      (Has(hit.attackFlags, HITS_CROUCH) && Grounded(state) && down) ||
      (Has(hit.attackFlags, HITS_STAND) && Grounded(state) && !down))
  }

  /** A block is tried when already blocking, or when the frame allows
      movement and back is held (or blocking is forced). */
  predicate TriesToBlock(d: Defender, frame: FrameProps, keys: Held, alwaysBlock: bool)
  {
    d.isAlreadyBlocking || (Has(frame.flags, CAN_MOVE) && (alwaysBlock || HoldsBack(keys, d.side)))
  }

  /** `ResolveHit`: a tried block that guards keeps the health, takes the
      block stop and the block stun; anything else takes the damage and
      the hit stop, and on a counter-hit frame the hit stop doubles plus
      two, plus five more in the air. */
  function ResolveHit(d: Defender, frame: FrameProps, keys: Held, hit: HitDef, alwaysBlock: bool): (r: (Defender, HitType))
    ensures r.1 == Blocked <==>
              TriesToBlock(d, frame, keys, alwaysBlock) && Guards(hit, frame.state, HeldDown(keys, frame, hit, alwaysBlock))
    ensures r.1 == Blocked ==> r.0.health == d.health && r.0.isAlreadyBlocking && r.0.blockTime == hit.blockstun
    ensures r.1 == Blocked ==> r.0.hitstop == BlockStop(hit)
    ensures r.1 != Blocked ==> r.0.health == d.health - hit.damage && !r.0.isAlreadyBlocking && r.0.blockTime == d.blockTime
    ensures r.1 != Blocked ==> (r.1 == Counter <==> frame.chType > 0) && (r.1 == Hurt <==> frame.chType <= 0)
    ensures r.1 == Hurt ==> r.0.hitstop == hit.hitStop
    ensures r.1 == Counter ==> r.0.hitstop == 2 * hit.hitStop + 2 + (if frame.state == AIR then 5 else 0)
    ensures r.0.side == d.side
  {
    var down := HeldDown(keys, frame, hit, alwaysBlock);
    if TriesToBlock(d, frame, keys, alwaysBlock) && Guards(hit, frame.state, down) then
      (d.(hitstop := BlockStop(hit), isAlreadyBlocking := true, blockTime := hit.blockstun), Blocked)
    else
      var hurt := d.(isAlreadyBlocking := false, hitstop := hit.hitStop, health := d.health - hit.damage);
      if frame.chType > 0 then
        (hurt.(hitstop := hurt.hitstop * 2 + 2 + 5 * (if frame.state == AIR then 1 else 0)), Counter)
      else (hurt, Hurt)
  }

  /** An unblockable attack is never blocked standing, crouching or in the
      air, whatever is held. */
  lemma UnblockableNotBlocked(d: Defender, frame: FrameProps, keys: Held, hit: HitDef, alwaysBlock: bool)
    requires hit.attackFlags & UNBLOCKABLE == UNBLOCKABLE
    requires frame.state == STAND || frame.state == CROUCH || frame.state == AIR
    ensures ResolveHit(d, frame, keys, hit, alwaysBlock).1 != Blocked
  {
    HitFlagsIndependent();
  }

  /** Forced blocking on the ground, on a frame that allows movement,
      blocks every attack that does not hit crouching. */
  lemma AlwaysBlockGuardsGround(d: Defender, frame: FrameProps, keys: Held, hit: HitDef)
    requires Grounded(frame.state) && Has(frame.flags, CAN_MOVE) && !Has(hit.attackFlags, HITS_CROUCH)
    ensures ResolveHit(d, frame, keys, hit, true).1 == Blocked
  {
  }

  /** Without a block in progress or forced, a block needs back held. */
  lemma BlockNeedsBack(d: Defender, frame: FrameProps, keys: Held, hit: HitDef)
    requires !d.isAlreadyBlocking && !HoldsBack(keys, d.side)
    ensures ResolveHit(d, frame, keys, hit, false).1 != Blocked
  {
  }

  /** Facing the other way with left and right swapped resolves the same
      hit the same way. */
  lemma ResolveHitMirrors(d: Defender, frame: FrameProps, keys: Held, hit: HitDef, alwaysBlock: bool)
    requires d.side != 0
    ensures var flipped := d.(side := -d.side);
            var swapped := keys.(left := keys.right, right := keys.left);
            ResolveHit(flipped, frame, swapped, hit, alwaysBlock).1 == ResolveHit(d, frame, keys, hit, alwaysBlock).1
  {
  }

  // ---------------------------------------------------------------------
  // Wall contact (Character::BoundaryCollision)

  /** How far from a wall a character stops. */
  const WALL_OFFSET: int := 10

  /** `touchedWall`: left wall -1, right wall 1, none 0. */
  const LEFT_WALL: int := -1
  const RIGHT_WALL: int := 1
  const NO_WALL: int := 0

  datatype WallResult = WallResult(x: int, touchedWall: int, bounced: bool)

  /** Wall contact: x is clamped to 10 inside the walls and the touched
      wall recorded; a wall bounce pending from a hit is spent on the
      contact (and the wall released), otherwise a wall the target already
      holds is released. */
  function BoundaryCollision(x: int, leftWall: int, rightWall: int, wallBounce: bool, targetWall: int): (r: WallResult)
    ensures r.touchedWall in {LEFT_WALL, NO_WALL, RIGHT_WALL}
    ensures x <= leftWall + WALL_OFFSET ==> r.x == leftWall + WALL_OFFSET
    ensures leftWall + WALL_OFFSET < x < rightWall - WALL_OFFSET ==> r.x == x && r.touchedWall == NO_WALL && !r.bounced
    ensures r.bounced <==> wallBounce && (x <= leftWall + WALL_OFFSET || x >= rightWall - WALL_OFFSET)
    ensures r.touchedWall != NO_WALL ==> r.touchedWall != targetWall && !r.bounced
    ensures r.touchedWall == LEFT_WALL ==> r.x == leftWall + WALL_OFFSET
    ensures r.touchedWall == RIGHT_WALL ==> r.x == rightWall - WALL_OFFSET
  {
    var (x1, touched) :=
      if x <= leftWall + WALL_OFFSET then (leftWall + WALL_OFFSET, LEFT_WALL)
      else if x >= rightWall - WALL_OFFSET then (rightWall - WALL_OFFSET, RIGHT_WALL)
      else (x, NO_WALL);
    if touched != NO_WALL && wallBounce then WallResult(x1, NO_WALL, true)
    else if touched == targetWall then WallResult(x1, NO_WALL, false)
    else WallResult(x1, touched, false)
  }

  /** Two characters never hold the same wall: if the target holds one, a
      character pushed against it does not. */
  lemma OneCharacterPerWall(x: int, leftWall: int, rightWall: int, wallBounce: bool, targetWall: int)
    requires targetWall != NO_WALL
    ensures BoundaryCollision(x, leftWall, rightWall, wallBounce, targetWall).touchedWall != targetWall
  {
  }

  // ---------------------------------------------------------------------
  // Character defaults (chara.h)

  /** A character's hit-related defaults; `hurtSeq` -1 means no pending hurt
      sequence. */
  datatype CharacterState = CharacterState(health: int, hurtSeq: int, touchedWall: int, isAlreadyBlocking: bool, hitFlags: bv32)

  const START_HEALTH: int := 10000

  function NewCharacter(): (c: CharacterState)
    ensures c.health == START_HEALTH && c.touchedWall == NO_WALL && !c.isAlreadyBlocking && c.hitFlags == 0
    ensures InputFrame(c, 7) == CurrentFrame
  {
    CharacterState(10000, -1, 0, false, 0)
  }

  datatype InputSource = CurrentFrame | HurtFrame(sequence: nat)

  /** The frame `Input` reads: the first frame of the pending hurt
      sequence if there is one, the current frame otherwise. */
  function InputFrame(c: CharacterState, sequences: nat): (r: InputSource)
    ensures c.hurtSeq < 0 <==> r == CurrentFrame
    ensures r.HurtFrame? ==> r.sequence == c.hurtSeq
  {
    if c.hurtSeq >= 0 then HurtFrame(c.hurtSeq) else CurrentFrame
  }

  // ---------------------------------------------------------------------
  // The draw list (Player::DrawList, Player::FillDrawList)

  /** Slots for every actor of both players, and the next free slot. */
  datatype DrawList<T> = DrawList(v: seq<Option<T>>, middle: int)

  /** `std::vector::resize`: keep what fits, pad with empty slots. */
  function Resize<T>(v: seq<Option<T>>, n: nat): (r: seq<Option<T>>)
    ensures |r| == n
    ensures forall i :: 0 <= i < n ==> r[i] == (if i < |v| then v[i] else None)
  {
    if |v| >= n then v[..n] else v + seq(n - |v|, _ => None)
  }

  /** `DrawList::Init`: room for both players' children and characters,
      filled from the start. */
  function Init<T>(dl: DrawList<T>, children1: nat, children2: nat): (r: DrawList<T>)
    ensures |r.v| == children1 + children2 + 2 && r.middle == 0
    ensures forall i :: 0 <= i < |r.v| && i < |dl.v| ==> r.v[i] == dl.v[i]
  {
    DrawList(Resize(dl.v, children1 + children2 + 2), 0)
  }

  /** The order a player's actors are drawn in: its children last to
      first, then the character. */
  function DrawOrder<T>(children: seq<T>, charObj: T): (r: seq<Option<T>>)
    ensures |r| == |children| + 1 && r[|children|] == Some(charObj)
    ensures forall i :: 0 <= i < |children| ==> r[i] == Some(children[|children| - 1 - i])
  {
    seq(|children|, i requires 0 <= i < |children| => Some(children[|children| - 1 - i])) + [Some(charObj)]
  }

  /** `FillDrawList`: the player's actors go into the next slots in draw
      order; the result is the character's slot. */
  function FillDrawList<T>(dl: DrawList<T>, children: seq<T>, charObj: T): (r: (DrawList<T>, int))
    requires 0 <= dl.middle && dl.middle + |children| + 1 <= |dl.v|
    ensures |r.0.v| == |dl.v| && r.0.middle == dl.middle + |children| + 1 && r.1 == r.0.middle - 1
    ensures r.0.v[dl.middle..r.0.middle] == DrawOrder(children, charObj)
    ensures r.0.v[..dl.middle] == dl.v[..dl.middle] && r.0.v[r.0.middle..] == dl.v[r.0.middle..]
    ensures r.0.v[r.1] == Some(charObj)
  {
    var m := dl.middle;
    var end := m + |children| + 1;
    var v := dl.v[..m] + DrawOrder(children, charObj) + dl.v[end..];
    assert v[m..end] == DrawOrder(children, charObj);
    (DrawList(v, end), end - 1)
  }

  /** Init then both players' fills: the list is exactly the actors of the
      player filled first, then those of the player filled second, each
      children last to first then the character, and every slot is used.
      The scene fills player 2 (`players[1]`) first. */
  lemma DrawListFilled<T>(dl: DrawList<T>, firstChildren: seq<T>, firstChar: T, secondChildren: seq<T>, secondChar: T)
    ensures var d0 := Init(dl, |firstChildren|, |secondChildren|);
            var f1 := FillDrawList(d0, firstChildren, firstChar);
            var f2 := FillDrawList(f1.0, secondChildren, secondChar);
            f2.0.v == DrawOrder(firstChildren, firstChar) + DrawOrder(secondChildren, secondChar) &&
            f2.0.middle == |f2.0.v| && f1.1 == |firstChildren| && f2.1 == |firstChildren| + |secondChildren| + 1
  {
    var d0 := Init(dl, |firstChildren|, |secondChildren|);
    var f1 := FillDrawList(d0, firstChildren, firstChar);
    var f2 := FillDrawList(f1.0, secondChildren, secondChar);
    var n1 := |firstChildren| + 1;
    assert f2.0.v[..n1] == f1.0.v[..n1] == DrawOrder(firstChildren, firstChar);
    assert f2.0.v == f2.0.v[..n1] + f2.0.v[n1..];
  }

  // ---------------------------------------------------------------------
  // Child culling (Player::Update)

  /** The elements whose flag is set, in order. */
  function Filter<T>(xs: seq<T>, keep: seq<bool>): (r: seq<T>)
    requires |keep| == |xs|
    ensures |r| <= |xs|
  {
    if |xs| == 0 then [] else (if keep[0] then [xs[0]] else []) + Filter(xs[1..], keep[1..])
  }

  /** The positions whose flag is set, in increasing order. */
  function KeptIndices(keep: seq<bool>, from: nat): (r: seq<nat>)
    ensures forall j :: 0 <= j < |r| ==> from <= r[j] < from + |keep| && keep[r[j] - from]
    ensures forall i, j :: 0 <= i < j < |r| ==> r[i] < r[j]
    ensures forall p :: from <= p < from + |keep| && keep[p - from] ==> p in r
    decreases |keep|
  {
    if |keep| == 0 then []
    else
      var rest := KeptIndices(keep[1..], from + 1);
      (if keep[0] then [from] else []) + rest
  }

  /** The kept children are exactly those at the kept positions, in
      order: nothing dropped that survives, nothing reordered. */
  lemma {:induction false} FilterAt<T>(xs: seq<T>, keep: seq<bool>)
    requires |keep| == |xs|
    ensures |Filter(xs, keep)| == |KeptIndices(keep, 0)|
    ensures forall j :: 0 <= j < |Filter(xs, keep)| ==> Filter(xs, keep)[j] == xs[KeptIndices(keep, 0)[j]]
    decreases |xs|
  {
    if |xs| > 0 {
      FilterAt(xs[1..], keep[1..]);
      KeptIndicesShift(keep[1..], 0);
    }
  }

  lemma {:induction false} KeptIndicesShift(keep: seq<bool>, from: nat)
    ensures |KeptIndices(keep, from + 1)| == |KeptIndices(keep, from)|
    ensures forall j :: 0 <= j < |KeptIndices(keep, from)| ==> KeptIndices(keep, from + 1)[j] == KeptIndices(keep, from)[j] + 1
    decreases |keep|
  {
    if |keep| > 0 {
      KeptIndicesShift(keep[1..], from + 1);
    }
  }

  /** `Player::Update`'s two loops: existing children whose update
      returns false are erased in place; new children that survive their
      first update are appended. */
  method UpdateChildren<T>(children: seq<T>, alive: seq<bool>, newChildren: seq<T>, newAlive: seq<bool>)
    returns (kept: seq<T>)
    requires |alive| == |children| && |newAlive| == |newChildren|
    ensures kept == Filter(children, alive) + Filter(newChildren, newAlive)
  {
    kept := EraseDead(children, alive);
    kept := AppendSurvivors(kept, newChildren, newAlive);
  }

  /** The first loop: erase each child whose update returns false. */
  method EraseDead<T>(children: seq<T>, alive: seq<bool>) returns (kept: seq<T>)
    requires |alive| == |children|
    ensures kept == Filter(children, alive)
  {
    kept := children;
    var it := 0;
    var k := 0;
    while k < |children|
      invariant 0 <= k <= |children| && 0 <= it <= |kept|
      invariant kept[..it] + Filter(children[k..], alive[k..]) == Filter(children, alive)
      invariant kept[it..] == children[k..]
    {
      FilterStep(children[k..], alive[k..]);
      assert children[k..][1..] == children[k + 1..] && alive[k..][1..] == alive[k + 1..];
      if alive[k] {
        assert kept[..it + 1] == kept[..it] + [children[k]];
        it := it + 1;
      } else {
        var rest := kept[..it] + kept[it + 1..];
        assert rest[..it] == kept[..it] && rest[it..] == kept[it + 1..];
        kept := rest;
      }
      k := k + 1;
    }
    assert kept == kept[..it];
  }

  /** The second loop: move each new child that survives its update to
      the end of the children, erasing the rest. */
  method AppendSurvivors<T>(children: seq<T>, newChildren: seq<T>, newAlive: seq<bool>) returns (kept: seq<T>)
    requires |newAlive| == |newChildren|
    ensures kept == children + Filter(newChildren, newAlive)
  {
    kept := children;
    var pending := newChildren;
    var n := 0;
    var j := 0;
    while n < |newChildren|
      invariant 0 <= n <= |newChildren| && 0 <= j <= |pending|
      invariant pending[..j] + Filter(newChildren[n..], newAlive[n..]) == Filter(newChildren, newAlive)
      invariant pending[j..] == newChildren[n..]
      invariant kept == children + pending[..j]
    {
      FilterStep(newChildren[n..], newAlive[n..]);
      assert newChildren[n..][1..] == newChildren[n + 1..] && newAlive[n..][1..] == newAlive[n + 1..];
      if newAlive[n] {
        kept := kept + [pending[j]];
        assert pending[..j + 1] == pending[..j] + [pending[j]];
        j := j + 1;
      } else {
        var rest := pending[..j] + pending[j + 1..];
        assert rest[..j] == pending[..j] && rest[j..] == pending[j + 1..];
        pending := rest;
      }
      n := n + 1;
    }
  }

  lemma FilterStep<T>(xs: seq<T>, keep: seq<bool>)
    requires |keep| == |xs| > 0
    ensures Filter(xs, keep) == (if keep[0] then [xs[0]] else []) + Filter(xs[1..], keep[1..])
  {
  }
}
