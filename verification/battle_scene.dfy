/** The battle scene of engine/battle_scene.cpp: the frame loop's
    bookkeeping (which player updates first, which input a frame reads,
    the frame counter), the debug keys, saving and loading a state, the
    pause gate and the replay file. The characters' own logic, the
    renderer, sound and the network are not part of this module: the world
    a frame produces is a value the caller supplies, and so are the inputs
    the network synchronises. */
module BattleScene {
  import opened Bytes
  import CommandInputs

  datatype PlayerId = Player1 | Player2

  /** The players as the scene sees them: their update priorities and
      everything else (characters, children, Lua state, random generator,
      particles, camera) as one opaque value. */
  datatype World<W> = World(priority1: int, priority2: int, rest: W)

  function Priority<W>(w: World<W>, p: PlayerId): int
  {
    if p == Player1 then w.priority1 else w.priority2
  }

  /** What `SaveState` records: the frame counter, the length of the input
      buffers and the world. */
  datatype State<W> = State(gameTicks: nat, lastInputSize: nat, world: W)

  /** The part of `BattleScene` the frame loop and the key handler touch.
      `saved` is `savedState`; `None` is a state whose character pointer is
      still null, i.e. nothing was saved. `online` is a running GGPO
      session. */
  datatype Scene<W> = Scene(
    gameTicks: nat,
    pause: bool,
    step: bool,
    drawBoxes: bool,
    online: bool,
    inputs1: CommandInputs.InputBuffer,
    inputs2: CommandInputs.InputBuffer,
    world: World<W>,
    saved: Option<State<World<W>>>)

  /** The scene when the loop starts: frame 0, no pause, no boxes, empty
      buffers, nothing saved, and player 1 given priority 1 over player 2's
      default 0. */
  function NewScene<W>(rest: W, online: bool): (s: Scene<W>)
    ensures s.gameTicks == 0 && !s.pause && !s.step && !s.drawBoxes && s.saved.None?
    ensures s.world.priority1 > s.world.priority2
    ensures InSync(s)
  {
    var empty := CommandInputs.InputBuffer(0, []);
    Scene(0, false, false, false, online, empty, empty, World(1, 0, rest), None)
  }

  // ---------------------------------------------------------------------
  // Match type

  /** Which players the AI controls: type 1 hands player 2 to it, type 2
      both players. */
  datatype AiPlayers = AiPlayers(player1: bool, player2: bool)

  function AiFor(matchType: int): (a: AiPlayers)
    ensures a.player2 <==> matchType >= 1
    ensures a.player1 <==> matchType == 2
  {
    AiPlayers(matchType == 2, matchType >= 1)
  }

  /** No match type gives player 1 to the AI while player 2 stays human,
      and only types 0, 1 and 2 differ. */
  lemma AiNeverOnlyPlayer1(matchType: int)
    ensures AiFor(matchType).player1 ==> AiFor(matchType).player2
    ensures matchType > 2 ==> AiFor(matchType) == AiFor(1)
    ensures matchType < 0 ==> AiFor(matchType) == AiFor(0)
  {
  }

  // ---------------------------------------------------------------------
  // AdvanceFrame

  /** One frame's result: the scene after it and the order in which the
      players were updated. */
  datatype Frame<W> = Frame(scene: Scene<W>, order: seq<PlayerId>)

  /** `AdvanceFrame`: choose the update order from the priorities, point
      both input buffers at the current frame, let the players run (their
      result is `next`), and count the frame. */
  function AdvanceFrame<W>(s: Scene<W>, next: World<W>): (f: Frame<W>)
    ensures |f.order| == 2 && f.order[0] != f.order[1]
    ensures Priority(s.world, f.order[0]) >= Priority(s.world, f.order[1])
    ensures f.order[0] == Player2 <==> s.world.priority2 > s.world.priority1
    ensures f.scene.gameTicks == s.gameTicks + 1
    ensures f.scene.inputs1.lastLoc == s.gameTicks && f.scene.inputs1.buffer == s.inputs1.buffer
    ensures f.scene.inputs2.lastLoc == s.gameTicks && f.scene.inputs2.buffer == s.inputs2.buffer
    ensures f.scene.world == next
    ensures f.scene == s.(gameTicks := f.scene.gameTicks, inputs1 := f.scene.inputs1, inputs2 := f.scene.inputs2, world := next)
  {
    var order := if s.world.priority1 >= s.world.priority2 then [Player1, Player2] else [Player2, Player1];
    var scene := s.(
      gameTicks := s.gameTicks + 1,
      inputs1 := s.inputs1.(lastLoc := s.gameTicks),
      inputs2 := s.inputs2.(lastLoc := s.gameTicks),
      world := next);
    Frame(scene, order)
  }

  /** The keys the players read during a frame: `back()` of each buffer
      once `lastLoc` points at the frame. */
  function FrameKeys<W>(s: Scene<W>): (keys: (u32, u32))
    requires s.gameTicks < |s.inputs1.buffer| && s.gameTicks < |s.inputs2.buffer|
    ensures keys.0 == s.inputs1.buffer[s.gameTicks] && keys.1 == s.inputs2.buffer[s.gameTicks]
  {
    var f := AdvanceFrame(s, s.world);
    (CommandInputs.Back(f.scene.inputs1), CommandInputs.Back(f.scene.inputs2))
  }

  /** The scene as it starts the match lets player 1 update first. */
  lemma Player1StartsFirst<W>(rest: W, online: bool, next: World<W>)
    ensures AdvanceFrame(NewScene(rest, online), next).order == [Player1, Player2]
  {
  }

  /** Only the priorities decide the order: swapping them swaps the order,
      except on a tie, where player 1 keeps going first. */
  lemma SwappedPriorities<W>(s: Scene<W>, next: World<W>)
    ensures var t := s.(world := s.world.(priority1 := s.world.priority2, priority2 := s.world.priority1));
            s.world.priority1 != s.world.priority2 ==>
              AdvanceFrame(t, next).order[0] == AdvanceFrame(s, next).order[1]
    ensures s.world.priority1 == s.world.priority2 ==> AdvanceFrame(s, next).order[0] == Player1
  {
  }

  // ---------------------------------------------------------------------
  // Live play and the replay invariant

  /** Between frames of a local or online match both buffers hold exactly
      one key per frame played, and a saved state is one such moment. This
      is what the assertion before writing the replay demands. */
  ghost predicate InSync<W>(s: Scene<W>)
  {
    |s.inputs1.buffer| == s.gameTicks && |s.inputs2.buffer| == s.gameTicks &&
    (s.saved.Some? ==> s.saved.value.lastInputSize == s.saved.value.gameTicks)
  }

  /** Append this frame's keys to both buffers. */
  function Push<W>(s: Scene<W>, key1: u32, key2: u32): (t: Scene<W>)
    ensures t.inputs1.buffer == s.inputs1.buffer + [key1] && t.inputs2.buffer == s.inputs2.buffer + [key2]
    ensures t == s.(inputs1 := t.inputs1, inputs2 := t.inputs2)
    ensures t.inputs1.lastLoc == s.inputs1.lastLoc && t.inputs2.lastLoc == s.inputs2.lastLoc
  {
    s.(inputs1 := s.inputs1.(buffer := s.inputs1.buffer + [key1]),
       inputs2 := s.inputs2.(buffer := s.inputs2.buffer + [key2]))
  }

  /** A local frame: push both keys, then advance. */
  function LocalFrame<W>(s: Scene<W>, key1: u32, key2: u32, next: World<W>): (f: Frame<W>)
    ensures f.scene.gameTicks == s.gameTicks + 1
  {
    AdvanceFrame(Push(s, key1, key2), next)
  }

  /** An online frame: when the local input was accepted the synchronised
      keys are pushed and the frame advances; otherwise nothing happens.
      GGPO's rollback callback advances the same way with `Some`. */
  function OnlineFrame<W>(s: Scene<W>, synced: Option<(u32, u32)>, next: World<W>): (t: Scene<W>)
    ensures synced.None? ==> t == s
    ensures synced.Some? ==> t.gameTicks == s.gameTicks + 1
  {
    match synced
    case None => s
    case Some(keys) => LocalFrame(s, keys.0, keys.1, next).scene
  }

  /** In a live frame each player reads exactly the key pushed for it, the
      earlier keys stay as they were, and the buffers stay in step with the
      frame counter. */
  lemma {:induction false} LocalFrameReadsPushedKeys<W>(s: Scene<W>, key1: u32, key2: u32, next: World<W>)
    requires InSync(s)
    ensures var p := Push(s, key1, key2);
            p.gameTicks < |p.inputs1.buffer| && p.gameTicks < |p.inputs2.buffer| &&
            FrameKeys(p) == (key1, key2)
    ensures var t := LocalFrame(s, key1, key2, next).scene;
            InSync(t) && t.inputs1.buffer[..s.gameTicks] == s.inputs1.buffer &&
            t.inputs2.buffer[..s.gameTicks] == s.inputs2.buffer
  {
    var p := Push(s, key1, key2);
    assert p.gameTicks == |s.inputs1.buffer|;
  }

  lemma OnlineFrameKeepsSync<W>(s: Scene<W>, synced: Option<(u32, u32)>, next: World<W>)
    requires InSync(s)
    ensures InSync(OnlineFrame(s, synced, next))
  {
    if synced.Some? {
      LocalFrameReadsPushedKeys(s, synced.value.0, synced.value.1, next);
    }
  }

  // ---------------------------------------------------------------------
  // Save and load

  /** `SaveState`: the frame counter, the length of player 1's buffer and
      the world. */
  function SaveState<W>(s: Scene<W>): (st: State<World<W>>)
    ensures st.gameTicks == s.gameTicks && st.lastInputSize == |s.inputs1.buffer| && st.world == s.world
  {
    State(s.gameTicks, |s.inputs1.buffer|, s.world)
  }

  /** `vector::resize`: cut to `n` keys, or extend with zero keys. */
  function ResizeKeys(b: seq<u32>, n: nat): (r: seq<u32>)
    ensures |r| == n
    ensures forall i :: 0 <= i < n && i < |b| ==> r[i] == b[i]
    ensures forall i :: |b| <= i < n ==> r[i] == 0
  {
    if n <= |b| then b[..n] else b + seq(n - |b|, _ => 0)
  }

  /** `LoadState`: without a save nothing changes; otherwise both buffers
      are resized to the saved length and the world and frame counter come
      back. `lastLoc` is left where it was. */
  function LoadState<W>(s: Scene<W>, saved: Option<State<World<W>>>): (t: Scene<W>)
    ensures saved.None? ==> t == s
    ensures saved.Some? ==>
      t.gameTicks == saved.value.gameTicks && t.world == saved.value.world &&
      |t.inputs1.buffer| == saved.value.lastInputSize && |t.inputs2.buffer| == saved.value.lastInputSize &&
      t.inputs1.lastLoc == s.inputs1.lastLoc && t.inputs2.lastLoc == s.inputs2.lastLoc &&
      t == s.(gameTicks := t.gameTicks, world := t.world, inputs1 := t.inputs1, inputs2 := t.inputs2)
  {
    match saved
    case None => s
    case Some(st) =>
      s.(inputs1 := s.inputs1.(buffer := ResizeKeys(s.inputs1.buffer, st.lastInputSize)),
         inputs2 := s.inputs2.(buffer := ResizeKeys(s.inputs2.buffer, st.lastInputSize)),
         world := st.world,
         gameTicks := st.gameTicks)
  }

  /** Loading a state saved at scene `s0` into any later scene whose
      buffers only grew since then restores `s0`'s frame counter, world and
      buffers exactly. */
  lemma {:induction false} SaveLoadRoundTrip<W>(s0: Scene<W>, s1: Scene<W>)
    requires InSync(s0)
    requires |s1.inputs1.buffer| >= |s0.inputs1.buffer| && s1.inputs1.buffer[..|s0.inputs1.buffer|] == s0.inputs1.buffer
    requires |s1.inputs2.buffer| >= |s0.inputs2.buffer| && s1.inputs2.buffer[..|s0.inputs2.buffer|] == s0.inputs2.buffer
    ensures var t := LoadState(s1, Some(SaveState(s0)));
            t.gameTicks == s0.gameTicks && t.world == s0.world &&
            t.inputs1.buffer == s0.inputs1.buffer && t.inputs2.buffer == s0.inputs2.buffer
  {
    var t := LoadState(s1, Some(SaveState(s0)));
    assert |s0.inputs1.buffer| == |s0.inputs2.buffer|;
    assert t.inputs1.buffer == s1.inputs1.buffer[..|s0.inputs1.buffer|];
    assert t.inputs2.buffer == s1.inputs2.buffer[..|s0.inputs2.buffer|];
  }

  /** Loading keeps the buffers in step with the frame counter. */
  lemma LoadKeepsSync<W>(s: Scene<W>, saved: Option<State<World<W>>>)
    requires InSync(s)
    requires saved.Some? ==> saved.value.lastInputSize == saved.value.gameTicks
    ensures InSync(LoadState(s, saved).(saved := s.saved))
  {
  }

  // ---------------------------------------------------------------------
  // Debug keys

  datatype Key = F1 | F2 | KeyH | KeyP | Space | OtherKey
  datatype KeyEvent = KeyEvent(down: bool, key: Key)

  /** The scene after a key and whether the handler took the key. */
  datatype Handled<W> = Handled(scene: Scene<W>, handled: bool)

  /** `KeyHandle`: only key presses count. F1 saves and F2 loads, both only
      outside an online session; H toggles the hitboxes and P the pause;
      Space requests one step while paused. Any other key is left to the
      caller. */
  function KeyHandle<W>(s: Scene<W>, e: KeyEvent): (r: Handled<W>)
    ensures r.handled <==> e.down && e.key != OtherKey
    ensures !r.handled ==> r.scene == s
    ensures r.scene.drawBoxes != s.drawBoxes <==> e == KeyEvent(true, KeyH)
    ensures r.scene.pause != s.pause <==> e == KeyEvent(true, KeyP)
    ensures r.scene.step <==> s.step || (e == KeyEvent(true, Space) && s.pause)
    ensures r.scene.online == s.online
    ensures r.scene.saved != s.saved ==> e == KeyEvent(true, F1) && !s.online
    ensures r.scene.gameTicks != s.gameTicks || r.scene.world != s.world ==> e == KeyEvent(true, F2) && !s.online && s.saved.Some?
  {
    if !e.down then Handled(s, false)
    else
      match e.key
      case F1 => Handled(if s.online then s else s.(saved := Some(SaveState(s))), true)
      case F2 => Handled(if s.online then s else LoadState(s, s.saved), true)
      case KeyH => Handled(s.(drawBoxes := !s.drawBoxes), true)
      case KeyP => Handled(s.(pause := !s.pause), true)
      case Space => Handled(if s.pause then s.(step := true) else s, true)
      case OtherKey => Handled(s, false)
  }

  /** Pressing H or P twice restores the scene. */
  lemma TogglesCancel<W>(s: Scene<W>, k: Key)
    requires k == KeyH || k == KeyP
    ensures KeyHandle(KeyHandle(s, KeyEvent(true, k)).scene, KeyEvent(true, k)).scene == s
  {
  }

  /** F1 then F2 in a local match is a no-op on the frame counter, the
      world and the buffers. */
  lemma SaveThenLoad<W>(s: Scene<W>)
    requires InSync(s) && !s.online
    ensures var t := KeyHandle(KeyHandle(s, KeyEvent(true, F1)).scene, KeyEvent(true, F2)).scene;
            t.gameTicks == s.gameTicks && t.world == s.world &&
            t.inputs1 == s.inputs1 && t.inputs2 == s.inputs2 && t.saved == Some(SaveState(s))
  {
    var u := KeyHandle(s, KeyEvent(true, F1)).scene;
    SaveLoadRoundTrip(s, u);
  }

  /** No key breaks the buffers' agreement with the frame counter. */
  lemma {:induction false} KeyHandleKeepsSync<W>(s: Scene<W>, e: KeyEvent)
    requires InSync(s)
    ensures InSync(KeyHandle(s, e).scene)
  {
    if e.down && e.key == F2 && !s.online {
      LoadKeepsSync(s, s.saved);
    }
  }

  // ---------------------------------------------------------------------
  // GGPO's saves and rollbacks

  /** Where `AdvanceFrame` tells GGPO that the frame is done. GGPO's save
      callback runs inside `ggpo_advance_frame` and records the scene with
      `SaveState`. As written the call comes before `++gameTicks`, so the
      save sees the new keys and world but the old frame counter; the
      corrected order counts the frame first. */
  datatype SaveOrder = SaveThenCount | CountThenSave

  /** The state GGPO records at the end of a frame that started from the
      pushed scene `p` and produced the world `next`. */
  function FrameSave<W>(p: Scene<W>, next: World<W>, order: SaveOrder): (st: State<World<W>>)
    ensures st.world == next && st.lastInputSize == |p.inputs1.buffer|
    ensures order == SaveThenCount ==> st.gameTicks == p.gameTicks
    ensures order == CountThenSave ==> st.gameTicks == p.gameTicks + 1
  {
    var done := AdvanceFrame(p, next).scene;
    SaveState(if order == SaveThenCount then done.(gameTicks := p.gameTicks) else done)
  }

  /** In the corrected order GGPO records exactly what `SaveState` records
      once the frame is over, a state taken between frames; as written it
      records a buffer one key longer than its frame counter. */
  lemma FrameSaveBetweenFrames<W>(s: Scene<W>, key1: u32, key2: u32, next: World<W>)
    requires InSync(s)
    ensures FrameSave(Push(s, key1, key2), next, CountThenSave) == SaveState(LocalFrame(s, key1, key2, next).scene)
    ensures var st := FrameSave(Push(s, key1, key2), next, CountThenSave);
            st.lastInputSize == st.gameTicks
    ensures var st := FrameSave(Push(s, key1, key2), next, SaveThenCount);
            st.lastInputSize == st.gameTicks + 1
  {
  }

  /** A live match together with the states GGPO has saved so far, oldest
      first. */
  datatype Session<W> = Session(scene: Scene<W>, saves: seq<State<World<W>>>)

  /** Between frames the buffers are in step with the counter and every
      state GGPO holds was taken between frames. */
  ghost predicate SessionInSync<W>(s: Session<W>)
  {
    InSync(s.scene) &&
    forall i :: 0 <= i < |s.saves| ==> s.saves[i].lastInputSize == s.saves[i].gameTicks
  }

  /** Everything that can happen between two frames of a live match: a
      key, a local frame, an online frame (the main loop's, or GGPO's
      rollback callback advancing with synchronised keys), or GGPO's load
      callback handing back the save with the given index. */
  datatype LiveEvent<W> =
    | Press(e: KeyEvent)
    | Local(key1: u32, key2: u32, next: World<W>)
    | Online(synced: Option<(u32, u32)>, next: World<W>)
    | Rollback(index: nat)

  /** One event. An online frame that advances also leaves GGPO a save,
      taken where `order` puts `ggpo_advance_frame`; a rollback to an index
      GGPO does not hold loads nothing. */
  function LiveStep<W>(s: Session<W>, ev: LiveEvent<W>, order: SaveOrder): (t: Session<W>)
    ensures ev.Local? ==> t.scene.gameTicks == s.scene.gameTicks + 1
    ensures ev.Online? && ev.synced.Some? ==>
      t.saves == s.saves + [FrameSave(Push(s.scene, ev.synced.value.0, ev.synced.value.1), ev.next, order)]
    ensures !(ev.Online? && ev.synced.Some?) ==> t.saves == s.saves
    ensures ev.Rollback? && ev.index < |s.saves| ==>
      t.scene.gameTicks == s.saves[ev.index].gameTicks && t.scene.world == s.saves[ev.index].world
  {
    match ev
    case Press(e) => Session(KeyHandle(s.scene, e).scene, s.saves)
    case Local(k1, k2, next) => Session(LocalFrame(s.scene, k1, k2, next).scene, s.saves)
    case Online(synced, next) =>
      (match synced
       case None => s
       case Some(keys) =>
         Session(OnlineFrame(s.scene, synced, next),
                 s.saves + [FrameSave(Push(s.scene, keys.0, keys.1), next, order)]))
    case Rollback(i) => Session(LoadState(s.scene, if i < |s.saves| then Some(s.saves[i]) else None), s.saves)
  }

  function Run<W>(s: Session<W>, evs: seq<LiveEvent<W>>, order: SaveOrder): (t: Session<W>)
    decreases |evs|
  {
    if |evs| == 0 then s else Run(LiveStep(s, evs[0], order), evs[1..], order)
  }

  /** One event of a match played in the corrected order keeps the
      buffers, the counter and GGPO's saves in step. */
  lemma {:induction false} LiveStepKeepsSync<W>(s: Session<W>, ev: LiveEvent<W>)
    requires SessionInSync(s)
    ensures SessionInSync(LiveStep(s, ev, CountThenSave))
  {
    var t := LiveStep(s, ev, CountThenSave);
    match ev {
      case Press(e) => KeyHandleKeepsSync(s.scene, e);
      case Local(k1, k2, next) => LocalFrameReadsPushedKeys(s.scene, k1, k2, next);
      case Online(synced, next) =>
        OnlineFrameKeepsSync(s.scene, synced, next);
        if synced.Some? {
          FrameSaveBetweenFrames(s.scene, synced.value.0, synced.value.1, next);
          assert forall i :: 0 <= i < |t.saves| ==> t.saves[i].lastInputSize == t.saves[i].gameTicks by {
            forall i | 0 <= i < |t.saves|
              ensures t.saves[i].lastInputSize == t.saves[i].gameTicks
            {
              if i < |s.saves| {
                assert t.saves[i] == s.saves[i];
              }
            }
          }
        }
      case Rollback(i) => LoadKeepsSync(s.scene, if i < |s.saves| then Some(s.saves[i]) else None);
    }
  }

  /** With GGPO told of the frame after the counter moves, whatever keys,
      frames and rollbacks happen during a live match, when the loop ends
      both buffers hold one key per frame played: the assertion guarding
      the replay write holds. */
  lemma {:induction false} ReplayAssertionHolds<W>(s: Session<W>, evs: seq<LiveEvent<W>>)
    requires SessionInSync(s)
    ensures var t := Run(s, evs, CountThenSave).scene;
            |t.inputs1.buffer| == |t.inputs2.buffer| == t.gameTicks
    ensures SessionInSync(Run(s, evs, CountThenSave))
    decreases |evs|
  {
    if |evs| > 0 {
      LiveStepKeepsSync(s, evs[0]);
      ReplayAssertionHolds(LiveStep(s, evs[0], CountThenSave), evs[1..]);
    }
  }

  /** As written, one online frame followed by a rollback to the save it
      left makes the buffers one key longer than the frame counter, so the
      assertion guarding the replay write fails if the match ends there;
      the frame GGPO then replays reads the keys of the frame before
      instead of the keys it was given, and the gap stays. */
  lemma {:induction false} RollbackDesyncsAsWritten<W>(s: Session<W>, keys: (u32, u32), next: World<W>,
                                                      keys2: (u32, u32), next2: World<W>)
    requires SessionInSync(s)
    ensures var t := Run(s, [Online(Some(keys), next), Rollback(|s.saves|)], SaveThenCount).scene;
            |t.inputs1.buffer| == |t.inputs2.buffer| == t.gameTicks + 1 &&
            t.gameTicks == s.scene.gameTicks && t.world == next
    ensures var t := Run(s, [Online(Some(keys), next), Rollback(|s.saves|)], SaveThenCount).scene;
            var p := Push(t, keys2.0, keys2.1);
            p.gameTicks < |p.inputs1.buffer| && p.gameTicks < |p.inputs2.buffer| &&
            FrameKeys(p) == keys
    ensures var u := Run(s, [Online(Some(keys), next), Rollback(|s.saves|), Online(Some(keys2), next2)], SaveThenCount).scene;
            |u.inputs1.buffer| == u.gameTicks + 1
  {
    var s1 := LiveStep(s, Online(Some(keys), next), SaveThenCount);
    var s2 := LiveStep(s1, Rollback(|s.saves|), SaveThenCount);
    var s3 := LiveStep(s2, Online(Some(keys2), next2), SaveThenCount);
    assert Run(s, [Online(Some(keys), next), Rollback(|s.saves|)], SaveThenCount) == s2 by {
      assert [Online(Some(keys), next), Rollback(|s.saves|)][1..] == [Rollback(|s.saves|)];
      assert Run(s1, [Rollback(|s.saves|)], SaveThenCount) == Run(s2, [], SaveThenCount);
    }
    assert Run(s, [Online(Some(keys), next), Rollback(|s.saves|), Online(Some(keys2), next2)], SaveThenCount) == s3 by {
      assert [Online(Some(keys), next), Rollback(|s.saves|), Online(Some(keys2), next2)][1..]
          == [Rollback(|s.saves|), Online(Some(keys2), next2)];
      assert [Rollback(|s.saves|), Online(Some(keys2), next2)][1..] == [Online(Some(keys2), next2)];
      assert Run(s2, [Online(Some(keys2), next2)], SaveThenCount) == Run(s3, [], SaveThenCount);
    }
    var g := s.scene.gameTicks;
    assert s1.saves[|s.saves|] == State(g, g + 1, next);
    assert |s2.scene.inputs1.buffer| == g + 1 && |s2.scene.inputs2.buffer| == g + 1;
    assert s2.scene.inputs1.buffer[g] == keys.0 && s2.scene.inputs2.buffer[g] == keys.1;
  }

  /** The smallest case: from the start of an online match, one frame and
      a rollback to its save leave one key per buffer at frame 0. */
  lemma FirstRollbackDesyncs<W>(rest: W, keys: (u32, u32), next: World<W>)
    ensures var t := Run(Session(NewScene(rest, true), []), [Online(Some(keys), next), Rollback(0)], SaveThenCount).scene;
            |t.inputs1.buffer| == 1 && t.gameTicks == 0
  {
    var s := Session(NewScene(rest, true), []);
    RollbackDesyncsAsWritten(s, keys, next, keys, next);
  }

  // ---------------------------------------------------------------------
  // The pause gate

  /** What the loop does after the events: whether it advances a frame,
      and the step request left over. */
  datatype Gate = Gate(advance: bool, step: bool)

  function PauseGate(pause: bool, step: bool): (g: Gate)
    ensures !pause ==> g.advance && g.step == step
    ensures pause ==> (g.advance <==> step) && !g.step
  {
    if pause then (if !step then Gate(false, step) else Gate(true, false)) else Gate(true, step)
  }

  /** While paused, one Space press advances exactly one frame: the next
      pass without a new press does not advance. */
  lemma OneFramePerStep()
    ensures PauseGate(true, true).advance
    ensures !PauseGate(true, PauseGate(true, true).step).advance
  {
  }

  /** A step requested while paused and not used before unpausing
      survives: the next pause then advances one frame without a press. */
  lemma StepSurvivesUnpause<W>(s: Scene<W>)
    requires s.pause && !s.step
    ensures var a := KeyHandle(s, KeyEvent(true, Space)).scene;
            var b := KeyHandle(a, KeyEvent(true, KeyP)).scene;
            var g := PauseGate(b.pause, b.step);
            g.advance && g.step && PauseGate(true, g.step).advance
  {
  }

  // ---------------------------------------------------------------------
  // The replay file

  /** `size_t` is eight bytes on the 64-bit targets the game builds for. */
  const SIZE_T_BYTES: nat := 8

  /** A replay: the count of frames, a size_t, then that many 32-bit keys
      for player 1 and as many for player 2, all in the machine's
      little-endian order. */
  function WriteReplay(keys1: seq<u32>, keys2: seq<u32>): (file: seq<byte>)
    requires |keys1| == |keys2| && |keys1| < Pow256(SIZE_T_BYTES)
    ensures |file| == SIZE_T_BYTES + 8 * |keys1|
    ensures FromLE(file[..SIZE_T_BYTES]) == |keys1|
  {
    FromLEOfLE(|keys1|, SIZE_T_BYTES);
    var file := LE(|keys1|, SIZE_T_BYTES) + LE32s(keys1) + LE32s(keys2);
    assert file[..SIZE_T_BYTES] == LE(|keys1|, SIZE_T_BYTES);
    file
  }

  datatype ReplayError = NoReplayFile | ShortHeader

  datatype Replay = Replay(frames: nat, keys1: seq<u32>, keys2: seq<u32>)

  /** One `read` of `n` keys into a vector already resized (zero-filled)
      to `n`: the bytes available are copied and the rest stay zero. The
      flag says whether the stream is still good, i.e. all bytes came. */
  function ReadKeys(avail: seq<byte>, n: nat): (r: (seq<u32>, bool))
    ensures |r.0| == n
    ensures r.1 <==> |avail| >= 4 * n
    ensures r.1 ==> r.0 == FromLE32s(avail[..4 * n])
  {
    var k := if |avail| >= 4 * n then 4 * n else |avail|;
    var bytes := avail[..k] + seq(4 * n - k, _ => 0 as byte);
    assert r1: |avail| >= 4 * n ==> bytes == avail[..4 * n];
    (FromLE32s(bytes), |avail| >= 4 * n)
  }

  /** The replay branch of `PlayLoop`: no file ends the scene; otherwise
      the frame count, then player 1's keys, then player 2's. A short file
      leaves zero keys where bytes were missing, and once a read comes up
      short the stream has failed, so player 2 gets no bytes at all. A
      header shorter than a size_t leaves the count uninitialised; that is
      the error `ShortHeader`. */
  function ReadReplay(file: Option<seq<byte>>): (r: Result<Replay, ReplayError>)
    ensures file.None? <==> r == Err(NoReplayFile)
    ensures r.Ok? ==> |r.value.keys1| == |r.value.keys2| == r.value.frames
    ensures file.Some? && |file.value| < SIZE_T_BYTES <==> r == Err(ShortHeader)
  {
    match file
    case None => Err(NoReplayFile)
    case Some(f) =>
      if |f| < SIZE_T_BYTES then Err(ShortHeader)
      else
        var n := FromLE(f[..SIZE_T_BYTES]);
        var body := f[SIZE_T_BYTES..];
        var first := ReadKeys(body, n);
        var rest := if first.1 then body[4 * n..] else [];
        var second := ReadKeys(rest, n);
        Ok(Replay(n, first.0, second.0))
  }

  /** Reading back a written replay gives the recorded keys, whatever
      follows them in the file. */
  lemma {:induction false} ReplayRoundTrip(keys1: seq<u32>, keys2: seq<u32>, trailing: seq<byte>)
    requires |keys1| == |keys2| && |keys1| < Pow256(SIZE_T_BYTES)
    ensures ReadReplay(Some(WriteReplay(keys1, keys2) + trailing)) == Ok(Replay(|keys1|, keys1, keys2))
  {
    var n := |keys1|;
    var tail := LE32s(keys2) + trailing;
    var f := WriteReplay(keys1, keys2) + trailing;
    WrittenLayout(keys1, keys2, trailing);
    ReadKeysOfWritten(keys1, tail);
    ReadKeysOfWritten(keys2, trailing);
    ReadReplayOk(f, n, keys1, keys2);
  }

  /** Where the parts of a written replay sit in the file. */
  lemma WrittenLayout(keys1: seq<u32>, keys2: seq<u32>, trailing: seq<byte>)
    requires |keys1| == |keys2| && |keys1| < Pow256(SIZE_T_BYTES)
    ensures var f := WriteReplay(keys1, keys2) + trailing;
            |f| >= SIZE_T_BYTES && FromLE(f[..SIZE_T_BYTES]) == |keys1| &&
            f[SIZE_T_BYTES..] == LE32s(keys1) + (LE32s(keys2) + trailing) &&
            f[SIZE_T_BYTES..][4 * |keys1|..] == LE32s(keys2) + trailing
  {
    var head := LE(|keys1|, SIZE_T_BYTES);
    assert WriteReplay(keys1, keys2) == head + LE32s(keys1) + LE32s(keys2);
    FromLEOfLE(|keys1|, SIZE_T_BYTES);
    SplitThree(head, LE32s(keys1), LE32s(keys2), trailing);
  }

  /** Where the parts of `h + a + b + t` start. */
  lemma SplitThree<T>(h: seq<T>, a: seq<T>, b: seq<T>, t: seq<T>)
    ensures var f := h + a + b + t;
            f[..|h|] == h && f[|h|..] == a + (b + t) && f[|h|..][|a|..] == b + t
  {
    var f := h + a + b + t;
    assert f == h + (a + (b + t));
  }

  /** The successful path of `ReadReplay`, one step at a time. */
  lemma ReadReplayOk(f: seq<byte>, n: nat, k1: seq<u32>, k2: seq<u32>)
    requires |f| >= SIZE_T_BYTES && FromLE(f[..SIZE_T_BYTES]) == n
    requires ReadKeys(f[SIZE_T_BYTES..], n) == (k1, true)
    requires ReadKeys(f[SIZE_T_BYTES..][4 * n..], n) == (k2, true)
    ensures ReadReplay(Some(f)) == Ok(Replay(n, k1, k2))
  {
  }

  /** Reading `|ks|` keys from their little-endian bytes gives them back
      and leaves the stream good. */
  lemma ReadKeysOfWritten(ks: seq<u32>, trailing: seq<byte>)
    ensures ReadKeys(LE32s(ks) + trailing, |ks|) == (ks, true)
  {
    assert (LE32s(ks) + trailing)[..4 * |ks|] == LE32s(ks);
    FromLE32sOfLE32s(ks);
  }

  /** A file that announces one frame but holds nothing after the count
      plays that frame with key 0 for both players instead of being
      refused. */
  lemma TruncatedReplayPlaysZeros(f: seq<byte>)
    requires f == [1, 0, 0, 0, 0, 0, 0, 0]
    ensures ReadReplay(Some(f)) == Ok(Replay(1, [0], [0]))
  {
    assert f[..SIZE_T_BYTES] == f;
    CountOfOne(f);
    HeaderOnlyReplay(f, 1);
    NoBytesReadAsZero();
  }

  /** A file holding only the count: both players' keys are read from an
      exhausted stream. */
  lemma HeaderOnlyReplay(f: seq<byte>, n: nat)
    requires |f| == SIZE_T_BYTES && FromLE(f[..SIZE_T_BYTES]) == n
    ensures ReadReplay(Some(f)) == Ok(Replay(n, ReadKeys([], n).0, ReadKeys([], n).0))
  {
    assert f[SIZE_T_BYTES..] == [];
  }

  lemma CountOfOne(f: seq<byte>)
    requires f == [1, 0, 0, 0, 0, 0, 0, 0]
    ensures FromLE(f) == 1
  {
    assert FromLE(f[7..]) == 0;
    assert FromLE(f[6..]) == 0;
    assert FromLE(f[5..]) == 0;
    assert FromLE(f[4..]) == 0;
    assert FromLE(f[3..]) == 0;
    assert FromLE(f[2..]) == 0;
    assert FromLE(f[1..]) == 0;
  }

  /** Reading one key from an exhausted stream leaves it 0 and fails. */
  lemma NoBytesReadAsZero()
    ensures ReadKeys([], 1) == ([0], false)
  {
    var zeros: seq<byte> := [0, 0, 0, 0];
    var none: seq<byte> := [];
    assert FromLE32s(zeros) == [0] by {
      assert zeros[..4] == zeros && zeros[4..] == [];
      FromLE4(zeros);
    }
    assert none[..0] + seq(4, _ => 0 as byte) == zeros;
  }

  /** The scene a replay starts from: the recorded keys, frame 0. */
  function StartReplay<W>(r: Replay, rest: W): (s: Scene<W>)
    requires |r.keys1| == |r.keys2| == r.frames
    ensures ReplayReady(s, r.frames) && s.gameTicks == 0
  {
    NewScene(rest, false).(
      inputs1 := CommandInputs.InputBuffer(0, r.keys1),
      inputs2 := CommandInputs.InputBuffer(0, r.keys2))
  }

  /** During playback both buffers hold the whole recording. */
  ghost predicate ReplayReady<W>(s: Scene<W>, n: nat)
  {
    |s.inputs1.buffer| == n && |s.inputs2.buffer| == n
  }

  /** One pass of the replay loop after the pause gate: close once every
      recorded frame has been played, otherwise advance. */
  datatype Pass<W> = Close(scene: Scene<W>) | Advance(frame: Frame<W>)

  function ReplayPass<W>(s: Scene<W>, n: nat, next: World<W>): (p: Pass<W>)
    ensures p.Close? <==> s.gameTicks >= n
    ensures p.Close? ==> p.scene == s
    ensures p.Advance? ==> p.frame.scene.gameTicks == s.gameTicks + 1
  {
    if s.gameTicks >= n then Close(s) else Advance(AdvanceFrame(s, next))
  }

  /** Every frame that playback advances reads keys inside the recording,
      and the recording itself is never changed. */
  lemma ReplayReadsRecording<W>(s: Scene<W>, n: nat, next: World<W>)
    requires ReplayReady(s, n)
    ensures ReplayPass(s, n, next).Advance? ==>
      s.gameTicks < |s.inputs1.buffer| && s.gameTicks < |s.inputs2.buffer| &&
      ReplayReady(ReplayPass(s, n, next).frame.scene, n)
  {
  }

  /** The replay loop with nobody touching a key: it plays every recorded
      frame from the current one, in order, and then closes. `next(t)` is
      the world the players produce in frame `t`. */
  method PlayReplay<W>(s0: Scene<W>, n: nat, next: nat -> World<W>) returns (s: Scene<W>, read1: seq<u32>, read2: seq<u32>)
    requires ReplayReady(s0, n)
    ensures s0.gameTicks <= n ==> s.gameTicks == n && read1 == s0.inputs1.buffer[s0.gameTicks..] && read2 == s0.inputs2.buffer[s0.gameTicks..]
    ensures s0.gameTicks > n ==> s == s0 && read1 == [] && read2 == []
    ensures s.inputs1.buffer == s0.inputs1.buffer && s.inputs2.buffer == s0.inputs2.buffer
  {
    s := s0;
    read1 := [];
    read2 := [];
    var pass := ReplayPass(s, n, next(s.gameTicks));
    while pass.Advance?
      invariant ReplayReady(s, n)
      invariant s.inputs1.buffer == s0.inputs1.buffer && s.inputs2.buffer == s0.inputs2.buffer
      invariant s0.gameTicks <= s.gameTicks
      invariant s0.gameTicks > n ==> s == s0 && read1 == [] && read2 == []
      invariant s0.gameTicks <= n ==> (s.gameTicks <= n &&
        read1 == s0.inputs1.buffer[s0.gameTicks..s.gameTicks] && read2 == s0.inputs2.buffer[s0.gameTicks..s.gameTicks])
      invariant pass == ReplayPass(s, n, next(s.gameTicks))
      decreases n - s.gameTicks
    {
      var keys := FrameKeys(s);
      read1 := read1 + [keys.0];
      read2 := read2 + [keys.1];
      s := pass.frame.scene;
      pass := ReplayPass(s, n, next(s.gameTicks));
    }
  }
}
