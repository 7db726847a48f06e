/** The frame editor's viewing state in tools/frametool/main_frame.cpp:
    the sequence/frame cursor and its keys, dragging the view and the zoom
    levels. Drawing and the menus are not part of this module. */
module FrameTool {

  // ---------------------------------------------------------------------
  // Integer conversions

  const TWO32: int := 0x1_0000_0000
  const TWO64: int := 0x1_0000_0000_0000_0000

  /** The value a 32-bit `int` holds after assigning `x` to it: the low 32
      bits, read as two's complement. */
  function ToInt32(x: int): (r: int)
    ensures -0x8000_0000 <= r < 0x8000_0000
    ensures -0x8000_0000 <= x < 0x8000_0000 ==> r == x
  {
    var low := x % TWO32;
    if low < 0x8000_0000 then low else low - TWO32
  }

  /** `size() - 1` computed as `size_t` and stored back into an `int`: the
      last index, or -1 for an empty list (the subtraction wraps to the
      largest `size_t`, whose low 32 bits are all ones). */
  function LastIndex(n: nat): (r: int)
    requires n < 0x8000_0000
    ensures n > 0 ==> r == n - 1
    ensures n == 0 ==> r == -1
  {
    ToInt32((n - 1) % TWO64)
  }

  /** The clamp both cursor moves share: below zero becomes zero, at or
      past the end becomes the last index. */
  function Clamp(v: int, n: nat): (r: int)
    requires n < 0x8000_0000
    ensures n > 0 ==> 0 <= r < n
    ensures n > 0 && 0 <= v < n ==> r == v
    ensures n > 0 && v < 0 ==> r == 0
    ensures n > 0 && v >= n ==> r == n - 1
    ensures n == 0 ==> r == (if v < 0 then 0 else -1)
  {
    if v < 0 then 0 else if v >= n then LastIndex(n) else v
  }

  // ---------------------------------------------------------------------
  // The cursor

  /** The loaded framedata as far as the cursor sees it: the frame count
      of each sequence. */
  type Shape = seq<nat>

  /** Counts an `int` cursor can address. */
  ghost predicate Addressable(shape: Shape)
  {
    |shape| < 0x8000_0000 && forall i :: 0 <= i < |shape| ==> shape[i] < 0x8000_0000
  }

  /** `currState`: the sequence and frame on screen. */
  datatype Cursor = Cursor(sequence: int, frame: int)

  /** A cursor on an existing sequence, whose frame is on an existing
      frame; a sequence without frames leaves the frame at 0 or -1, which
      drawing checks for. */
  ghost predicate OnData(shape: Shape, c: Cursor)
  {
    0 <= c.sequence < |shape| &&
    (if shape[c.sequence] == 0 then c.frame == -1 || c.frame == 0 else 0 <= c.frame < shape[c.sequence])
  }

  /** `AdvancePattern`: move by `dir` sequences, clamp, and go back to the
      first frame. */
  function AdvancePattern(shape: Shape, c: Cursor, dir: int): (r: Cursor)
    requires Addressable(shape)
    requires -0x8000_0000 <= c.sequence + dir < 0x8000_0000
    ensures r.frame == 0
    ensures |shape| > 0 ==> 0 <= r.sequence < |shape|
    ensures |shape| > 0 ==> r.sequence == Max(0, Min(c.sequence + dir, |shape| - 1))
    ensures |shape| == 0 ==> r.sequence == (if c.sequence + dir < 0 then 0 else -1)
  {
    Cursor(Clamp(c.sequence + dir, |shape|), 0)
  }

  /** `AdvanceFrame`: move by `dir` frames within the current sequence and
      clamp. The sequence must exist: the source indexes the list with it
      unchecked. */
  function AdvanceFrame(shape: Shape, c: Cursor, dir: int): (r: Cursor)
    requires Addressable(shape)
    requires 0 <= c.sequence < |shape|
    requires -0x8000_0000 <= c.frame + dir < 0x8000_0000
    ensures r.sequence == c.sequence
    ensures shape[c.sequence] > 0 ==> r.frame == Max(0, Min(c.frame + dir, shape[c.sequence] - 1))
    ensures shape[c.sequence] == 0 ==> r.frame == (if c.frame + dir < 0 then 0 else -1)
  {
    Cursor(c.sequence, Clamp(c.frame + dir, shape[c.sequence]))
  }

  function Min(a: int, b: int): int
  {
    if a <= b then a else b
  }

  function Max(a: int, b: int): int
  {
    if a >= b then a else b
  }

  /** With data loaded, moving either way keeps the cursor on the data. */
  lemma MovesStayOnData(shape: Shape, c: Cursor, dir: int)
    requires Addressable(shape) && OnData(shape, c) && (dir == 1 || dir == -1)
    ensures AdvanceFrame(shape, c, dir).sequence == c.sequence
    ensures OnData(shape, AdvanceFrame(shape, c, dir))
    ensures OnData(shape, AdvancePattern(shape, c, dir))
  {
  }

  /** Moving one step and back returns to the same sequence unless the
      first move hit a bound. */
  lemma PatternStepBack(shape: Shape, c: Cursor, dir: int)
    requires Addressable(shape) && OnData(shape, c) && (dir == 1 || dir == -1)
    requires 0 <= c.sequence + dir < |shape|
    ensures AdvancePattern(shape, AdvancePattern(shape, c, dir), -dir).sequence == c.sequence
  {
  }

  /** Without data the cursor cannot get onto a sequence: pressing Down
      leaves it at -1, so a later Left or Right would index outside the
      list. */
  lemma EmptyDataCursor(c: Cursor)
    requires 0 <= c.sequence + 1 < 0x8000_0000
    ensures AdvancePattern([], c, 1).sequence == -1
  {
  }

  // ---------------------------------------------------------------------
  // Keys and the mouse

  datatype Key = Up | Down | Left | Right | OtherKey

  /** The editor's view: the cursor, the view's pan offset and the zoom. */
  datatype View = View(cursor: Cursor, x: int, y: int, zoomIdx: int, scale: real)

  /** `HandleKeys`: Up and Down move through sequences, Left and Right
      through frames; they report the key as handled. Other keys change
      nothing. */
  function HandleKeys(shape: Shape, v: View, k: Key): (r: (View, bool))
    requires Addressable(shape)
    requires -0x8000_0000 < v.cursor.sequence < 0x7FFF_FFFF && -0x8000_0000 < v.cursor.frame < 0x7FFF_FFFF
    requires k == Left || k == Right ==> 0 <= v.cursor.sequence < |shape|
    ensures r.1 <==> k != OtherKey
    ensures !r.1 ==> r.0 == v
    ensures r.0 == v.(cursor := r.0.cursor)
    ensures k == Up ==> r.0.cursor == AdvancePattern(shape, v.cursor, -1)
    ensures k == Down ==> r.0.cursor == AdvancePattern(shape, v.cursor, 1)
    ensures k == Left ==> r.0.cursor == AdvanceFrame(shape, v.cursor, -1)
    ensures k == Right ==> r.0.cursor == AdvanceFrame(shape, v.cursor, 1)
  {
    match k
    case Up => (v.(cursor := AdvancePattern(shape, v.cursor, -1)), true)
    case Down => (v.(cursor := AdvancePattern(shape, v.cursor, 1)), true)
    case Left => (v.(cursor := AdvanceFrame(shape, v.cursor, -1)), true)
    case Right => (v.(cursor := AdvanceFrame(shape, v.cursor, 1)), true)
    case OtherKey => (v, false)
  }

  /** A cursor on the data stays on addressable values, so every key can
      be pressed again. */
  lemma {:induction false} KeysKeepCursorOnData(shape: Shape, v: View, k: Key)
    requires Addressable(shape) && OnData(shape, v.cursor)
    ensures OnData(shape, HandleKeys(shape, v, k).0.cursor)
  {
    match k
    case Up => MovesStayOnData(shape, v.cursor, -1);
    case Down => MovesStayOnData(shape, v.cursor, 1);
    case Left => MovesStayOnData(shape, v.cursor, -1);
    case Right => MovesStayOnData(shape, v.cursor, 1);
    case OtherKey =>
  }

  /** `HandleMouseDrag`: only a left-button drag pans the view, following
      the mouse horizontally and against it vertically. */
  function HandleMouseDrag(v: View, dx: int, dy: int, dragLeft: bool, dragRight: bool): (r: View)
    ensures !dragLeft ==> r == v
    ensures dragLeft ==> r.x - v.x == dx && v.y - r.y == dy
    ensures r == v.(x := r.x, y := r.y)
  {
    if dragLeft then v.(x := v.x + dx, y := v.y - dy) else v
  }

  /** Dragging back by the same amount undoes a drag. */
  lemma DragUndo(v: View, dx: int, dy: int, right: bool)
    ensures HandleMouseDrag(HandleMouseDrag(v, dx, dy, true, right), -dx, -dy, true, right) == v
  {
  }

  // ---------------------------------------------------------------------
  // Zoom

  /** The scales the zoom menu offers, in the menu's order. */
  const ZOOM_SCALES: seq<real> := [0.5, 1.0, 1.5, 2.0, 3.0, 4.0]

  /** `SetZoom`: the level is always recorded; a level the menu offers
      sets its scale, any other level keeps the scale there was. */
  function SetZoom(v: View, level: int): (r: View)
    ensures r.zoomIdx == level
    ensures 0 <= level < |ZOOM_SCALES| ==> r.scale == ZOOM_SCALES[level]
    ensures !(0 <= level < |ZOOM_SCALES|) ==> r.scale == v.scale
    ensures r == v.(zoomIdx := level, scale := r.scale)
  {
    var scale := match level
      case 0 => 0.5
      case 1 => 1.0
      case 2 => 1.5
      case 3 => 2.0
      case 4 => 3.0
      case 5 => 4.0
      case _ => v.scale;
    v.(zoomIdx := level, scale := scale)
  }

  /** The default zoom level is 3, which is twice the natural size. */
  const DEFAULT_ZOOM: int := 3

  /** Levels are ordered by scale, and the level saved on exit
      (`zoom_idx`) brings back the same scale at the next start whatever
      the uninitialised scale was. */
  lemma ZoomLevels(v: View, level: int, startScale: real)
    ensures forall i, j :: 0 <= i < j < |ZOOM_SCALES| ==> ZOOM_SCALES[i] < ZOOM_SCALES[j]
    ensures SetZoom(v, DEFAULT_ZOOM).scale == 2.0
    ensures 0 <= level < |ZOOM_SCALES| ==>
      var saved := SetZoom(v, level).zoomIdx;
      SetZoom(v.(scale := startScale), saved).scale == SetZoom(v, level).scale
  {
  }
}
