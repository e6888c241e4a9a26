/** The crop tool of src/components/edit/EditImage.tsx: which handle a
    pointer outside the crop region picks (`updateCursor`), how dragging a
    handle moves the region's edges and mirrors the handle when the region
    gets too small (`updateCutInfo`), how dragging the region moves it
    (`updateRegion`), and the `cut`/`reset` switch. The DOM, the mask
    elements, event listeners and animation frames are outside the model;
    rectangles arrive as parameters and pixel values are whole numbers. */
module EditImage {
  import opened Wrappers

  /** The `Position` enum: which handle is being dragged. */
  datatype Position = Left | LeftTop | Top | RightTop | Right | RightBottom | Bottom | LeftBottom

  /** Where a handle sits along one axis: before the region (left or top),
      not on that axis, or after it (right or bottom). */
  datatype Side = Before | Within | After

  function Horizontal(p: Position): Side {
    match p
    case Left | LeftTop | LeftBottom => Before
    case Right | RightTop | RightBottom => After
    case Top | Bottom => Within
  }

  function Vertical(p: Position): Side {
    match p
    case Top | LeftTop | RightTop => Before
    case Bottom | LeftBottom | RightBottom => After
    case Left | Right => Within
  }

  /** The handle on the given sides; none inside the region. */
  function HandleAt(h: Side, v: Side): (r: Option<Position>)
    ensures r.None? <==> h == Within && v == Within
    ensures r.Some? ==> Horizontal(r.value) == h && Vertical(r.value) == v
  {
    match (h, v)
    case (Before, Before) => Some(LeftTop)
    case (Before, Within) => Some(Left)
    case (Before, After) => Some(LeftBottom)
    case (Within, Before) => Some(Top)
    case (Within, Within) => None
    case (Within, After) => Some(Bottom)
    case (After, Before) => Some(RightTop)
    case (After, Within) => Some(Right)
    case (After, After) => Some(RightBottom)
  }

  /** A handle is determined by its two sides. */
  lemma SidesDetermineHandle(p: Position)
    ensures HandleAt(Horizontal(p), Vertical(p)) == Some(p)
  {
  }

  /** A bounding client rectangle. */
  datatype Rect = Rect(left: int, right: int, top: int, bottom: int)

  predicate Proper(r: Rect) {
    r.left <= r.right && r.top <= r.bottom
  }

  const Cursors: seq<string> := ["auto", "nwse-resize", "nesw-resize", "ew-resize", "ns-resize"]

  /** What `updateCursor` leaves behind: the handle remembered and the
      cursor given to the editor's parent, if one is set. */
  datatype Pick = Pick(position: Position, cursor: Option<string>)

  /** `updateCursor(e)`: ignored while the button is down; otherwise the
      corners are tested first (top-left or bottom-right, then top-right or
      bottom-left), then the left and right edges, then top and bottom. A
      pointer not beyond any edge changes nothing. */
  function UpdateCursor(down: bool, region: Rect, x: int, y: int, position: Position): (r: Pick)
    ensures down || (region.left <= x <= region.right && region.top <= y <= region.bottom) ==> r == Pick(position, None)
    ensures !down && x < region.left && y < region.top ==> r == Pick(LeftTop, Some(Cursors[1]))
    ensures !down && x > region.right && y > region.bottom ==> r.position in {LeftTop, RightBottom}
    ensures r.cursor.Some? ==> r.cursor.value in Cursors[1..]
  {
    if down then Pick(position, None)
    else if (x < region.left && y < region.top) || (x > region.right && y > region.bottom) then
      Pick(if x < region.left && y < region.top then LeftTop else RightBottom, Some(Cursors[1]))
    else if (x > region.right && y < region.top) || (x < region.left && y > region.bottom) then
      Pick(if x > region.right && y < region.top then RightTop else LeftBottom, Some(Cursors[2]))
    else if x < region.left || x > region.right then
      Pick(if x < region.left then Left else Right, Some(Cursors[3]))
    else if y < region.top || y > region.bottom then
      Pick(if y < region.top then Top else Bottom, Some(Cursors[4]))
    else Pick(position, None)
  }

  /** Where `v` lies against the interval `lo..hi`. */
  function SideOf(v: int, lo: int, hi: int): Side {
    if v < lo then Before else if v > hi then After else Within
  }

  /** The resize cursor of each handle: the two diagonals, then the two
      axes. */
  function CursorOf(p: Position): string {
    match p
    case LeftTop | RightBottom => Cursors[1]
    case RightTop | LeftBottom => Cursors[2]
    case Left | Right => Cursors[3]
    case Top | Bottom => Cursors[4]
  }

  /** For a proper region the chain of tests picks exactly the handle on
      the pointer's sides, with that handle's cursor. */
  lemma CursorPicksSides(region: Rect, x: int, y: int, position: Position)
    requires Proper(region)
    ensures var h := HandleAt(SideOf(x, region.left, region.right), SideOf(y, region.top, region.bottom));
      UpdateCursor(false, region, x, y, position) ==
        if h.Some? then Pick(h.value, Some(CursorOf(h.value))) else Pick(position, None)
  {
  }

  /** A CSS length of the crop box: pixels, or the initial `100%`. */
  datatype Length = Px(px: int) | Full

  /** `cutInfo`: the crop box's offset in its parent and its size. */
  datatype CutInfo = CutInfo(left: int, top: int, width: Length, height: Length)

  /** `cutStyle`: the whole image. */
  const FullCut := CutInfo(0, 0, Full, Full)

  /** `minSize = 3 * berder`. */
  const MinSize: int := 9

  function AtLeast(v: int, bound: int): int {
    if v < bound then bound else v
  }

  function AtMost(v: int, bound: int): int {
    if v > bound then bound else v
  }

  /** The mirrors of the flip table: across the vertical axis, across the
      horizontal axis, and through the centre. */
  function MirrorH(p: Position): Position {
    match p
    case Left => Right
    case Right => Left
    case LeftTop => RightTop
    case RightTop => LeftTop
    case LeftBottom => RightBottom
    case RightBottom => LeftBottom
    case Top => Top
    case Bottom => Bottom
  }

  function MirrorV(p: Position): Position {
    match p
    case Top => Bottom
    case Bottom => Top
    case LeftTop => LeftBottom
    case LeftBottom => LeftTop
    case RightTop => RightBottom
    case RightBottom => RightTop
    case Left => Left
    case Right => Right
  }

  function MirrorBoth(p: Position): Position {
    MirrorH(MirrorV(p))
  }

  /** Each mirror undoes itself, and the two axis mirrors commute. */
  lemma MirrorsAreInvolutions(p: Position)
    ensures MirrorH(MirrorH(p)) == p && MirrorV(MirrorV(p)) == p && MirrorBoth(MirrorBoth(p)) == p
    ensures MirrorH(MirrorV(p)) == MirrorV(MirrorH(p))
  {
  }

  /** A mirror swaps the side on its own axis and keeps the other. */
  function Opposite(s: Side): Side {
    match s
    case Before => After
    case After => Before
    case Within => Within
  }

  lemma MirrorsSwapSides(p: Position)
    ensures Horizontal(MirrorH(p)) == Opposite(Horizontal(p)) && Vertical(MirrorH(p)) == Vertical(p)
    ensures Vertical(MirrorV(p)) == Opposite(Vertical(p)) && Horizontal(MirrorV(p)) == Horizontal(p)
  {
  }

  /** `updateCutInfo(e)` once the pointer has been clamped to the parent's
      top-left corner: one case per handle, as the `switch` has them. */
  function Drag(position: Position, parent: Rect, rect: Rect, x: int, y: int, cut: CutInfo): (Position, CutInfo) {
    match position
    case Left =>
      var x1 := AtMost(x, parent.right - MinSize);
      var width := rect.right - x1;
      (if width <= MinSize then Right else Left,
       cut.(left := x1 - parent.left, width := Px(width)))
    case LeftTop =>
      var x1 := AtMost(x, parent.right - MinSize);
      var y1 := AtMost(y, parent.bottom - MinSize);
      var width := rect.right - x1;
      var height := rect.bottom - y1;
      (if width <= MinSize && height <= MinSize then RightBottom
       else if width <= MinSize then RightTop
       else if height <= MinSize then LeftBottom
       else LeftTop,
       cut.(left := x1 - parent.left, width := Px(width), top := y1 - parent.top, height := Px(height)))
    case Top =>
      var y1 := AtMost(y, parent.bottom - MinSize);
      var height := rect.bottom - y1;
      (if height <= MinSize then Bottom else Top,
       cut.(top := y1 - parent.top, height := Px(height)))
    case RightTop =>
      var x1 := AtMost(x, parent.right);
      var y1 := AtMost(y, parent.bottom - MinSize);
      var width := x1 - rect.left;
      var height := rect.bottom - y1;
      (if width <= MinSize && height <= MinSize then LeftBottom
       else if width <= MinSize then LeftTop
       else if height <= MinSize then RightBottom
       else RightTop,
       cut.(width := Px(width), top := y1 - parent.top, height := Px(height)))
    case Right =>
      var x1 := AtMost(x, parent.right);
      var width := x1 - rect.left;
      (if width <= MinSize then Left else Right,
       cut.(width := Px(width)))
    case RightBottom =>
      var x1 := AtMost(x, parent.right);
      var y1 := AtMost(y, parent.bottom);
      var width := x1 - rect.left;
      var height := y1 - rect.top;
      (if width <= MinSize && height <= MinSize then LeftTop
       else if width <= MinSize then LeftBottom
       else if height <= MinSize then RightTop
       else RightBottom,
       cut.(width := Px(width), height := Px(height)))
    case Bottom =>
      var y1 := AtMost(y, parent.bottom);
      var height := y1 - rect.top;
      (if height <= MinSize then Top else Bottom,
       cut.(height := Px(height)))
    case LeftBottom =>
      var x1 := AtMost(x, parent.right - MinSize);
      var y1 := AtMost(y, parent.bottom);
      var width := rect.right - x1;
      var height := y1 - rect.top;
      (if width <= MinSize && height <= MinSize then RightTop
       else if width <= MinSize then RightBottom
       else if height <= MinSize then LeftTop
       else LeftBottom,
       cut.(left := x1 - parent.left, width := Px(width), height := Px(height)))
  }

  /** `updateCutInfo(e)`: nothing unless the button is down; the pointer is
      first kept right of and below the parent's top-left corner. */
  function UpdateCutInfo(down: bool, position: Position, parent: Rect, rect: Rect, x: int, y: int, cut: CutInfo): (r: (Position, CutInfo))
    ensures !down ==> r == (position, cut)
    ensures down ==> r == Drag(position, parent, rect, AtLeast(x, parent.left), AtLeast(y, parent.top), cut)
  {
    if !down then (position, cut)
    else Drag(position, parent, rect, AtLeast(x, parent.left), AtLeast(y, parent.top), cut)
  }

  /** One axis of a handle drag, described once for both axes: the pointer
      coordinate `v` already kept at or after the parent's start `lo`; `hi`
      the parent's end, `start` and `end` the region's edges on this axis.
      A handle before the region moves the start edge, stopping `MinSize`
      short of the parent's end; a handle after it moves the end edge,
      stopping at the parent's end. Yields the new offset (if it moved),
      the new size, and whether the handle flips. */
  datatype Axis = Axis(offset: Option<int>, size: Option<int>, flips: bool)

  function AxisDrag(side: Side, v: int, lo: int, hi: int, start: int, end: int): Axis {
    match side
    case Before =>
      var v1 := AtMost(v, hi - MinSize);
      Axis(Some(v1 - lo), Some(end - v1), end - v1 <= MinSize)
    case After =>
      var v1 := AtMost(v, hi);
      Axis(None, Some(v1 - start), v1 - start <= MinSize)
    case Within => Axis(None, None, false)
  }

  function Apply(a: Axis, offset: int, size: Length): (int, Length) {
    (a.offset.GetOr(offset), if a.size.Some? then Px(a.size.value) else size)
  }

  /** The eight cases of the `switch` are one rule per axis: each axis the
      handle lies on moves one edge of the box, and the handle is mirrored
      across every axis whose size fell to `MinSize` or below. */
  lemma DragIsPerAxis(position: Position, parent: Rect, rect: Rect, x: int, y: int, cut: CutInfo)
    ensures var h := AxisDrag(Horizontal(position), x, parent.left, parent.right, rect.left, rect.right);
      var v := AxisDrag(Vertical(position), y, parent.top, parent.bottom, rect.top, rect.bottom);
      var (p1, cut1) := Drag(position, parent, rect, x, y, cut);
      && p1 == (if h.flips then MirrorH else (q: Position) => q)((if v.flips then MirrorV(position) else position))
      && (cut1.left, cut1.width) == Apply(h, cut.left, cut.width)
      && (cut1.top, cut1.height) == Apply(v, cut.top, cut.height)
  {
  }

  /** Dragging a start edge keeps the opposite edge where it was and keeps
      the new start inside the parent, `MinSize` short of its end. */
  lemma StartEdgeStaysInside(side: Side, v: int, lo: int, hi: int, start: int, end: int)
    requires side == Before && lo <= v && lo + MinSize <= hi
    ensures var a := AxisDrag(side, v, lo, hi, start, end);
      && a.offset.Some? && a.size.Some?
      && 0 <= a.offset.value <= hi - lo - MinSize
      && lo + a.offset.value + a.size.value == end
  {
  }

  /** Dragging an end edge keeps the start edge and stops the end edge at
      the parent's end. */
  lemma EndEdgeStaysInside(side: Side, v: int, lo: int, hi: int, start: int, end: int)
    requires side == After && lo <= v && lo <= hi
    ensures var a := AxisDrag(side, v, lo, hi, start, end);
      && a.offset.None? && a.size.Some?
      && lo <= start + a.size.value <= hi
  {
  }

  /** A handle that flips has a size at most `MinSize` on that axis, and a
      handle off the axis never flips on it. */
  lemma FlipNeedsSmallSize(side: Side, v: int, lo: int, hi: int, start: int, end: int)
    ensures var a := AxisDrag(side, v, lo, hi, start, end);
      && (a.flips <==> a.size.Some? && a.size.value <= MinSize)
      && (side == Within ==> a == Axis(None, None, false))
  {
  }

  /** `updateRegion(e)`: the region moves with the pointer, its offset kept
      at least 0 and then at most the parent's size less the region's. The
      remembered pointer becomes this event's. */
  function MoveRegion(cut: CutInfo, downX: int, downY: int, x: int, y: int, parentWidth: int, parentHeight: int, width: int, height: int): (r: (CutInfo, int, int))
    ensures r.1 == x && r.2 == y
    ensures r.0.width == cut.width && r.0.height == cut.height
    ensures width <= parentWidth ==> 0 <= r.0.left <= parentWidth - width
    ensures height <= parentHeight ==> 0 <= r.0.top <= parentHeight - height
    ensures 0 <= cut.left + (x - downX) <= parentWidth - width ==> r.0.left == cut.left + (x - downX)
    ensures 0 <= cut.top + (y - downY) <= parentHeight - height ==> r.0.top == cut.top + (y - downY)
  {
    var left := AtMost(AtLeast(cut.left + (x - downX), 0), parentWidth - width);
    var top := AtMost(AtLeast(cut.top + (y - downY), 0), parentHeight - height);
    (cut.(left := left, top := top), x, y)
  }

  function Distance(a: int, b: int): nat {
    if a < b then b - a else a - b
  }

  /** When the region fits its parent, the new offset is the allowed offset
      nearest to where the pointer would take it. */
  lemma MoveIsNearestInside(cut: CutInfo, downX: int, downY: int, x: int, y: int, parentWidth: int, parentHeight: int, width: int, height: int, z: int)
    requires width <= parentWidth && 0 <= z <= parentWidth - width
    ensures var left := MoveRegion(cut, downX, downY, x, y, parentWidth, parentHeight, width, height).0.left;
      Distance(left, cut.left + (x - downX)) <= Distance(z, cut.left + (x - downX))
  {
  }

  /** A region wider than its parent is pushed past the parent's left edge:
      the upper bound is applied last. */
  lemma WideRegionLeavesParent(cut: CutInfo, downX: int, downY: int, x: int, y: int, parentWidth: int, parentHeight: int, width: int, height: int)
    requires width > parentWidth
    ensures MoveRegion(cut, downX, downY, x, y, parentWidth, parentHeight, width, height).0.left == parentWidth - width < 0
  {
  }

  /** The crop switch, the crop box, whether the document listeners for
      picking and dragging handles are attached, and the parent's cursor. */
  datatype Editor = Editor(cutState: bool, cut: CutInfo, listening: bool, cursor: string)

  /** Listeners are attached exactly while cropping. */
  predicate Consistent(e: Editor) {
    e.listening == e.cutState
  }

  /** `reset()`: when not cropping, the crop box returns to the whole image,
      the listeners are removed and the cursor is `auto`; when cropping, the
      listeners are attached. */
  function Reset(e: Editor): (r: Editor)
    ensures Consistent(r) && r.cutState == e.cutState
    ensures !e.cutState ==> r.cut == FullCut && r.cursor == Cursors[0]
    ensures e.cutState ==> r.cut == e.cut && r.cursor == e.cursor
  {
    if !e.cutState then Editor(false, FullCut, false, Cursors[0])
    else e.(listening := true)
  }

  /** `cut(e)`: the switch is toggled, then `reset()`. */
  function Cut(e: Editor): (r: Editor)
    ensures Consistent(r) && r.cutState == !e.cutState
    ensures e.cutState ==> r.cut == FullCut
  {
    Reset(e.(cutState := !e.cutState))
  }

  /** The editor's state after `save(e)`. The crop region is rendered only
      while cropping, so with cropping off `save` returns at once and
      nothing changes; otherwise cropping stops and `reset()` runs. */
  function AfterSave(e: Editor): (r: Editor)
    ensures !e.cutState ==> r == e
    ensures e.cutState ==> !r.cutState && !r.listening && r.cut == FullCut && r.cursor == Cursors[0]
    ensures Consistent(e) ==> Consistent(r)
  {
    if !e.cutState then e else Reset(e.(cutState := false))
  }

  /** Toggling twice returns the switch and leaves the whole image as the
      crop box, whichever way it started. */
  lemma CutTwice(e: Editor)
    ensures Cut(Cut(e)).cutState == e.cutState
    ensures Cut(Cut(e)).cut == FullCut
    ensures Consistent(Cut(Cut(e)))
  {
  }
}
