/** The renderer's own bookkeeping, without the Vulkan calls: whether frames
    should be drawn at all (`shouldDraw`, cleared while the window is
    minimised), which of the buffered frames is current, the texture format
    chosen for a loaded image, and the uniform-buffer alignment round-up.
    Window state, fence waits and swapchain acquisition results are inputs. */
module Renderer {
  import opened Bytes
  import opened Bits

  /** Frames in flight. */
  const BUFFERED_FRAMES: nat := 2
  /** Width of `size_t` on the engine's targets. */
  const SIZE_T_BITS: nat := 64

  /** Vulkan format codes the engine uses (section 43.1 of the Vulkan
      specification numbers them). */
  const R8_UINT: int := 13
  const R8_SRGB: int := 15
  const R8G8B8A8_SRGB: int := 43
  const BC3_SRGB_BLOCK: int := 138

  datatype State = State(shouldDraw: bool, currentFrame: nat)

  /** The current frame always names one of the buffered frames. */
  predicate Valid(s: State)
  {
    s.currentFrame < BUFFERED_FRAMES
  }

  /** The SDL events the renderer looks at; everything else is `Other`. */
  datatype Event =
    | WindowMinimized
    | WindowRestored
    | WindowSizeChanged
    | OtherWindowEvent
    | Other

  /** Building the swapchain: on a minimised window drawing is switched off
      and nothing is built; otherwise the swapchain is built and drawing is
      switched on. Returns the new state and whether a swapchain was built. */
  function CreateSwapchain(s: State, minimized: bool): (r: (State, bool))
    ensures r.1 <==> !minimized
    ensures r.0.shouldDraw <==> !minimized
    ensures r.0.currentFrame == s.currentFrame
  {
    if minimized then (s.(shouldDraw := false), false) else (s.(shouldDraw := true), true)
  }

  /** Window events: minimise stops drawing, restore resumes it, a resize
      rebuilds the swapchain, which draws again iff the window is not
      minimised; each of these reports the event as handled. Returns the
      new state and whether the event was handled. */
  function HandleEvents(s: State, ev: Event, minimized: bool): (r: (State, bool))
    ensures r.1 <==> ev.WindowMinimized? || ev.WindowRestored? || ev.WindowSizeChanged?
    ensures !r.1 ==> r.0 == s
    ensures ev.WindowMinimized? ==> !r.0.shouldDraw
    ensures ev.WindowRestored? ==> r.0.shouldDraw
    ensures ev.WindowSizeChanged? ==> (r.0.shouldDraw <==> !minimized)
    ensures r.0.currentFrame == s.currentFrame
  {
    match ev
    case WindowMinimized => (s.(shouldDraw := false), true)
    case WindowRestored => (s.(shouldDraw := true), true)
    case WindowSizeChanged => (CreateSwapchain(s, minimized).0, true)
    case _ => (s, false)
  }

  /** Whether drawing is on depends only on the last window event that
      touched it: after a minimise, drawing comes back with a restore or
      with a resize of a window that is no longer minimised, and stays off
      after a resize of a window that still is. Events the renderer does not
      handle leave it as it was. */
  lemma DrawingFollowsLastEvent(s: State, ev: Event, minimized: bool, ev2: Event, minimized2: bool)
    requires ev.WindowMinimized?
    ensures var t := HandleEvents(HandleEvents(s, ev, minimized).0, ev2, minimized2).0;
            (t.shouldDraw <==> ev2.WindowRestored? || (ev2.WindowSizeChanged? && !minimized2))
            && t.currentFrame == s.currentFrame
  {
  }

  /** Starting a frame. It fails when drawing is off, when the frame's
      fence wait times out, or when the swapchain is out of date (which
      rebuilds it). Returns the new state and whether drawing may proceed. */
  function Acquire(s: State, fenceTimedOut: bool, outOfDate: bool, minimized: bool): (r: (State, bool))
    ensures r.1 <==> s.shouldDraw && !fenceTimedOut && !outOfDate
    ensures !(s.shouldDraw && !fenceTimedOut && outOfDate) ==> r.0 == s
    ensures r.0.currentFrame == s.currentFrame
    ensures r.0.shouldDraw ==> s.shouldDraw
  {
    if !s.shouldDraw then (s, false)
    else if fenceTimedOut then (s, false)
    else if outOfDate then (CreateSwapchain(s, minimized).0, false)
    else (s, true)
  }

  /** Ending a frame: a no-op while drawing is off, otherwise the next
      buffered frame becomes current. */
  function Submit(s: State): (r: State)
    ensures !s.shouldDraw ==> r == s
    ensures r.shouldDraw == s.shouldDraw
    ensures Valid(s) ==> Valid(r)
    ensures s.shouldDraw && s.currentFrame < BUFFERED_FRAMES ==> r.currentFrame != s.currentFrame
  {
    if !s.shouldDraw then s
    else s.(currentFrame := (s.currentFrame + 1) % BUFFERED_FRAMES)
  }

  function SubmitN(s: State, k: nat): State
  {
    if k == 0 then s else Submit(SubmitN(s, k - 1))
  }

  /** While drawing stays on, k submits advance the current frame by k,
      round the ring of buffered frames. */
  lemma {:induction false} SubmitCycles(s: State, k: nat)
    requires Valid(s) && s.shouldDraw
    ensures SubmitN(s, k).shouldDraw
    ensures SubmitN(s, k).currentFrame == (s.currentFrame + k) % BUFFERED_FRAMES
  {
    if k > 0 {
      SubmitCycles(s, k - 1);
      var c := s.currentFrame + k - 1;
      DivModUnique(c, BUFFERED_FRAMES, c / BUFFERED_FRAMES, c % BUFFERED_FRAMES);
      ModAdd1(c);
    }
  }

  lemma ModAdd1(c: nat)
    ensures (c % BUFFERED_FRAMES + 1) % BUFFERED_FRAMES == (c + 1) % BUFFERED_FRAMES
  {
    var q := c / BUFFERED_FRAMES;
    if c % BUFFERED_FRAMES == 0 {
      DivModUnique(c + 1, BUFFERED_FRAMES, q, 1);
    } else {
      DivModUnique(c + 1, BUFFERED_FRAMES, q + 1, 0);
    }
  }

  /** The secondary command buffer to record into: none while drawing is
      off, otherwise the current frame's. */
  function GetCommand(s: State): (r: Option<nat>)
    ensures r.None? <==> !s.shouldDraw
    ensures r.Some? ==> r.value == s.currentFrame
  {
    if !s.shouldDraw then None else Some(s.currentFrame)
  }

  /** The texture format for a loaded image: block-compressed images use
      BC3, one byte per pixel is an unsigned index texture, four is sRGB
      colour. Any other depth is unsupported (`None`). */
  function TextureFormat(compressed: bool, bytesPerPixel: int): (r: Option<int>)
    ensures r.None? <==> !compressed && bytesPerPixel != 1 && bytesPerPixel != 4
    ensures compressed ==> r == Some(BC3_SRGB_BLOCK)
    ensures !compressed && bytesPerPixel == 1 ==> r == Some(R8_UINT)
    ensures !compressed && bytesPerPixel == 4 ==> r == Some(R8G8B8A8_SRGB)
  {
    if compressed then Some(BC3_SRGB_BLOCK)
    else if bytesPerPixel == 1 then Some(R8_UINT)
    else if bytesPerPixel == 4 then Some(R8G8B8A8_SRGB)
    else None
  }

  /** Only uncompressed one-byte images get a format at or below `R8_SRGB`. */
  lemma IndexedFormatsOnly(compressed: bool, bytesPerPixel: int)
    requires TextureFormat(compressed, bytesPerPixel).Some?
    ensures TextureFormat(compressed, bytesPerPixel).value <= R8_SRGB
            <==> !compressed && bytesPerPixel == 1
  {
  }

  /** Staging bytes for a palette texture: four bytes per texel. */
  function PaletteStagingSize(width: nat, height: nat): (r: nat)
    ensures width > 0 && height > 0 ==> r >= width && r >= height
    ensures r % 4 == 0 && r / 4 == width * height
  {
    height * width * 4
  }

  /** `(x + a - 1) & ~(a - 1)` in unsigned arithmetic of the given width
      (`size_t`, `SIZE_T_BITS` wide on the engine's targets); alignment 0
      leaves the size as it is. */
  function PadToAlignment(x: nat, alignment: nat, width: nat): (r: nat)
    requires x < Pow2(width) && alignment < Pow2(width)
    ensures r < Pow2(width)
    ensures alignment == 0 ==> r == x
  {
    if alignment > 0 then
      And((x + alignment - 1) % Pow2(width), Not(alignment - 1, width))
    else x
  }

  lemma PadToAlignmentIsMask(x: nat, alignment: nat, width: nat)
    requires 0 < alignment < Pow2(width) && x + alignment - 1 < Pow2(width)
    ensures PadToAlignment(x, alignment, width) == And(x + alignment - 1, Pow2(width) - alignment)
  {
    DivModUnique(x + alignment - 1, Pow2(width), 0, x + alignment - 1);
  }

  /** Without overflow, the mask rounds x + a - 1 down to a multiple of a. */
  lemma PadToAlignmentIsRoundDown(x: nat, alignment: nat, k: nat, width: nat)
    requires k < width && alignment == Pow2(k) < Pow2(width)
    requires x + alignment - 1 < Pow2(width)
    ensures PadToAlignment(x, alignment, width)
            == (x + alignment - 1) - (x + alignment - 1) % alignment
  {
    PadToAlignmentIsMask(x, alignment, width);
    AndMask(x + alignment - 1, width, k);
  }

  /** With a power-of-two alignment, and no overflow, the result is the
      least multiple of the alignment that is at least x. */
  lemma PadToAlignmentRoundsUp(x: nat, alignment: nat, k: nat, width: nat)
    requires k < width && alignment == Pow2(k) < Pow2(width)
    requires x + alignment - 1 < Pow2(width)
    ensures PadToAlignment(x, alignment, width) % alignment == 0
    ensures x <= PadToAlignment(x, alignment, width) < x + alignment
  {
    PadToAlignmentIsRoundDown(x, alignment, k, width);
    TruncateMultiple(x + alignment - 1, alignment);
  }
}
