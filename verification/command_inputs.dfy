/** The input records of engine/command_inputs.h: the processed input
    buffer, a motion's defaults and the command flags. */
module CommandInputs {
  import opened Bytes
  import Actors

  /** `InputBuffer`: a vector of processed keys and the position of the
      current one. The vector can be longer than the part in use. */
  datatype InputBuffer = InputBuffer(lastLoc: nat, buffer: seq<u32>)

  /** `size()`: the length in use. */
  function Size(b: InputBuffer): (n: nat)
    ensures n >= 1 && n - 1 == b.lastLoc
  {
    b.lastLoc + 1
  }

  /** `operator[]`: plain indexing into the vector. */
  function At(b: InputBuffer, i: nat): (k: u32)
    requires i < |b.buffer|
    ensures k == b.buffer[i]
  {
    b.buffer[i]
  }

  /** `back()`: the key at `lastLoc`. */
  function Back(b: InputBuffer): (k: u32)
    requires b.lastLoc < |b.buffer|
    ensures k == At(b, Size(b) - 1)
  {
    b.buffer[b.lastLoc]
  }

  /** `size()` and `back()` follow `lastLoc` whatever the vector holds:
      changing the vector's contents or length changes neither the size
      nor which position `back()` reads. */
  lemma SizeIgnoresVector(b: InputBuffer, other: seq<u32>)
    requires b.lastLoc < |b.buffer| && b.lastLoc < |other|
    ensures Size(b.(buffer := other)) == Size(b)
    ensures Back(b.(buffer := other)) == other[b.lastLoc]
  {
  }

  /** With keys stored past `lastLoc`, `back()` is not the vector's last
      element. */
  lemma BackIsNotLastElement()
    ensures var b := InputBuffer(0, [1, 2]); Back(b) == 1 && b.buffer[|b.buffer| - 1] == 2
  {
  }

  /** The parts of `MotionData` with defaults that mean something. */
  datatype MotionData = MotionData(hasCondition: bool, startBuf: int, addBuf: int, seqRef: int, flags: int, priority: int)

  /** No sequence is -1. */
  const NO_SEQUENCE: int := -1

  /** A default motion: no sequence, and the lowest priority an int can
      express (a smaller value is a higher priority). */
  function DefaultMotion(): (m: MotionData)
    ensures m.seqRef == NO_SEQUENCE && m.flags == 0 && !m.hasCondition
    ensures m.priority == 0x7FFF_FFFF
  {
    MotionData(false, 0, 0, -1, 0, 0x7FFF_FFFF)
  }

  /** During hitstop the engine keeps the command to perform afterwards:
      a command with a sequence replaces the kept one only when its
      priority is strictly higher (its value strictly smaller). */
  function BufferInHitstop(kept: MotionData, command: MotionData): (r: MotionData)
    ensures r == command || r == kept
    ensures r.priority <= kept.priority
    ensures command.seqRef > 0 && command.priority < kept.priority ==> r == command
    ensures r != kept ==> command.seqRef > 0 && command.priority < kept.priority
  {
    if command.seqRef > 0 && command.priority < kept.priority then command else kept
  }

  /** The kept command after a run of hitstop frames, one command each. */
  function BufferAll(kept: MotionData, commands: seq<MotionData>): MotionData
    decreases |commands|
  {
    if |commands| == 0 then kept
    else BufferAll(BufferInHitstop(kept, commands[0]), commands[1..])
  }

  /** After a run of hitstop frames the kept command is the one kept before
      or one of the frames' commands, and no frame's command with a
      sequence has a higher priority than it. */
  lemma {:induction false} BufferedIsHighestPriority(kept: MotionData, commands: seq<MotionData>)
    ensures var r := BufferAll(kept, commands);
            r.priority <= kept.priority &&
            (forall k :: 0 <= k < |commands| && commands[k].seqRef > 0 ==> r.priority <= commands[k].priority) &&
            (r == kept || r in commands)
    decreases |commands|
  {
    if |commands| > 0 {
      var next := BufferInHitstop(kept, commands[0]);
      BufferedIsHighestPriority(next, commands[1..]);
      var r := BufferAll(kept, commands);
      assert r == BufferAll(next, commands[1..]);
      forall k | 0 <= k < |commands| && commands[k].seqRef > 0
        ensures r.priority <= commands[k].priority
      {
        if k > 0 {
          assert commands[k] == commands[1..][k - 1];
        }
      }
    }
  }

  /** The first frame after hitstop performs the kept command if it has a
      sequence, and the frame's own command otherwise; the kept command is
      reset to a default motion either way. */
  function AfterHitstop(kept: MotionData, command: MotionData): (r: (MotionData, MotionData))
    ensures r.1 == DefaultMotion()
    ensures kept.seqRef > 0 ==> r.0 == kept
    ensures kept.seqRef <= 0 ==> r.0 == command
  {
    (if kept.seqRef > 0 then kept else command, DefaultMotion())
  }

  /** Starting from the reset kept command, a command with a sequence is
      kept during hitstop iff its priority is strictly higher than the
      default's. A command left at the default priority is dropped: the
      frame after hitstop performs that frame's own command instead. */
  lemma DefaultIsLowestPriority(command: MotionData, next: MotionData)
    requires command.seqRef > 0
    ensures BufferInHitstop(DefaultMotion(), command) == command <==> command.priority < 0x7FFF_FFFF
    ensures command.priority >= 0x7FFF_FFFF ==>
              AfterHitstop(BufferInHitstop(DefaultMotion(), command), next).0 == next
  {
  }

  // CommandInputs flags
  const NEUTRAL_MOVE: bv32 := 0x1
  const REPEATABLE: bv32 := 0x2
  const WIPE_BUFFER: bv32 := 0x4
  const INTERRUPTS: bv32 := 0x8
  const INTERRUPTIBLE: bv32 := 0x10
  const NO_COMBO: bv32 := 0x20

  const COMMAND_FLAGS: seq<bv32> := [NEUTRAL_MOVE, REPEATABLE, WIPE_BUFFER, INTERRUPTS, INTERRUPTIBLE, NO_COMBO]

  /** The command flags are independent: a motion's flag word built from
      any choice of them answers each flag's test (the wipe-buffer and
      interruptible tests after a command is performed, among others) with
      that flag's choice. */
  lemma CommandFlagsIndependent(chosen: seq<bool>, i: nat)
    requires |chosen| == |COMMAND_FLAGS| && i < |COMMAND_FLAGS|
    ensures Actors.IndependentFlags(COMMAND_FLAGS)
    ensures Actors.Has(Actors.Combine(COMMAND_FLAGS, chosen), COMMAND_FLAGS[i]) == chosen[i]
  {
    Actors.CombineRecovers(COMMAND_FLAGS, chosen, i);
  }
}
