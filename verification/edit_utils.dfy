/** The geometry of src/components/edit/utils.js: the bounding box of a
    drawn stroke (`getRectInfo`), the cells `createMosaic` samples, and the
    canvas placement of `setCanvasSize`. The canvas calls themselves
    (`drawLine`, `drawRect`, `drawMosaic`, `cropPicture`) are outside the
    model. Coordinates are whole pixels. */
module EditUtils {
  import opened Wrappers

  datatype Point = Point(x: int, y: int)

  /** `[left, top, width, height]`. For no points the JavaScript result is
      `[Infinity, Infinity, -Infinity, -Infinity]`, written `Unbounded`. */
  datatype RectInfo = Box(left: int, top: int, width: int, height: int) | Unbounded

  function Min(a: Option<int>, b: int): int {
    if a.Some? && a.value < b then a.value else b
  }

  function Max(a: int, b: int): int {
    if a < b then b else a
  }

  /** `getRectInfo(pointList)`: the reduction starts from `Infinity` for the
      minima and from 0 for the maxima. So the box holds every point, its
      left and top edges are attained by points, and its right and bottom
      edges are attained by points or are 0, whichever is larger. */
  method GetRectInfo(points: seq<Point>) returns (r: RectInfo)
    ensures |points| == 0 <==> r.Unbounded?
    ensures r.Box? ==> forall i :: 0 <= i < |points| ==>
      r.left <= points[i].x <= r.left + r.width && r.top <= points[i].y <= r.top + r.height
    ensures r.Box? ==> exists i :: 0 <= i < |points| && points[i].x == r.left
    ensures r.Box? ==> exists i :: 0 <= i < |points| && points[i].y == r.top
    ensures r.Box? ==> r.left + r.width >= 0 && (r.left + r.width == 0 || exists i :: 0 <= i < |points| && points[i].x == r.left + r.width)
    ensures r.Box? ==> r.top + r.height >= 0 && (r.top + r.height == 0 || exists i :: 0 <= i < |points| && points[i].y == r.top + r.height)
  {
    var minX: Option<int> := None;
    var minY: Option<int> := None;
    var maxX, maxY := 0, 0;
    var n := 0;
    while n < |points|
      invariant 0 <= n <= |points|
      invariant minX.Some? <==> n > 0
      invariant minY.Some? <==> n > 0
      invariant forall i :: 0 <= i < n ==> minX.Some? && minX.value <= points[i].x <= maxX
      invariant forall i :: 0 <= i < n ==> minY.Some? && minY.value <= points[i].y <= maxY
      invariant minX.Some? ==> exists i :: 0 <= i < n && points[i].x == minX.value
      invariant minY.Some? ==> exists i :: 0 <= i < n && points[i].y == minY.value
      invariant maxX >= 0 && (maxX == 0 || exists i :: 0 <= i < n && points[i].x == maxX)
      invariant maxY >= 0 && (maxY == 0 || exists i :: 0 <= i < n && points[i].y == maxY)
    {
      var p := points[n];
      minX := Some(Min(minX, p.x));
      minY := Some(Min(minY, p.y));
      maxX := Max(maxX, p.x);
      maxY := Max(maxY, p.y);
      n := n + 1;
    }
    if n == 0 {
      r := Unbounded;
    } else {
      r := Box(minX.value, minY.value, maxX - minX.value, maxY - minY.value);
    }
  }

  /** A box of at least one point has a non-negative size: the point lies
      between its edges. */
  lemma NonNegativeSize(points: seq<Point>, r: RectInfo)
    requires |points| > 0 && r.Box?
    requires forall i :: 0 <= i < |points| ==>
      r.left <= points[i].x <= r.left + r.width && r.top <= points[i].y <= r.top + r.height
    ensures r.width >= 0 && r.height >= 0
  {
    assert r.left <= points[0].x <= r.left + r.width;
  }

  /** `createMosaic` steps over the image in blocks of 4 * 5 pixels. */
  const Block: nat := 20

  /** How many multiples of `Block` lie below `n`. */
  function Steps(n: nat): (k: nat)
    ensures k * Block >= n && (k == 0 || (k - 1) * Block < n)
  {
    (n + Block - 1) / Block
  }

  predicate OnGrid(c: (nat, nat), width: nat, height: nat) {
    c.0 < width && c.1 < height && c.0 % Block == 0 && c.1 % Block == 0
  }

  /** Where `createMosaic` reads the colour of cell `(i, j)`: the first
      byte of that pixel in the RGBA data. */
  function Index(c: (nat, nat), width: nat): nat {
    (c.0 + c.1 * width) * 4
  }

  /** Every byte read (`index` to `index + 3`) lies inside the
      `4 * width * height` bytes of the image data. */
  lemma IndexInBounds(c: (nat, nat), width: nat, height: nat)
    requires c.0 < width && c.1 < height
    ensures Index(c, width) + 3 < 4 * width * height
  {
    assert c.1 * width <= (height - 1) * width by {
      assert c.1 <= height - 1;
    }
    assert (height - 1) * width == height * width - width;
  }

  /** The cells `createMosaic` visits, in its order: columns outside, rows
      inside. Exactly the points of the `Block` grid inside the image, each
      once, and every byte read is inside the data. */
  method SampleGrid(width: nat, height: nat) returns (cells: seq<(nat, nat)>)
    ensures forall c: (nat, nat) :: c in cells <==> OnGrid(c, width, height)
    ensures |cells| == Steps(width) * Steps(height)
    ensures forall c: (nat, nat) :: c in cells ==> Index(c, width) + 3 < 4 * width * height
  {
    cells := [];
    var i: nat := 0;
    while i < width
      invariant i % Block == 0 && i <= Steps(width) * Block
      invariant forall c: (nat, nat) :: c in cells <==> OnGrid(c, width, height) && c.0 < i
      invariant |cells| == (i / Block) * Steps(height)
    {
      var j: nat := 0;
      ghost var before := |cells|;
      while j < height
        invariant j % Block == 0 && j <= Steps(height) * Block
        invariant forall c: (nat, nat) :: c in cells <==> OnGrid(c, width, height) && (c.0 < i || (c.0 == i && c.1 < j))
        invariant |cells| == before + j / Block
      {
        cells := cells + [(i, j)];
        j := j + Block;
      }
      assert j / Block == Steps(height);
      i := i + Block;
    }
    assert i / Block == Steps(width);
    forall c | c in cells ensures Index(c, width) + 3 < 4 * width * height {
      IndexInBounds(c, width, height);
    }
  }

  /** The blocks painted from the sampled cells (`fillRect(i, j, block,
      block)`) cover every pixel of the image. */
  lemma GridCovers(width: nat, height: nat, px: nat, py: nat)
    requires px < width && py < height
    ensures var c := ((px / Block) * Block, (py / Block) * Block);
      OnGrid(c, width, height) && c.0 <= px < c.0 + Block && c.1 <= py < c.1 + Block
  {
  }

  /** A canvas's size and its CSS offset; the offset may be a half pixel. */
  datatype Canvas = Canvas(width: int, height: int, left: real, top: real)

  /** `setCanvasSize(canvas, {left, top, width, height, lineWidth})`, with
      `lineWidth` defaulting to 0. */
  function SetCanvasSize(left: int, top: int, width: int, height: int, lineWidth: Option<int>): (c: Canvas)
    ensures var lw := lineWidth.GetOr(0);
      && c.width - lw == width && c.height - lw == height
      && c.left + lw as real / 2.0 == left as real && c.top + lw as real / 2.0 == top as real
  {
    var lw := lineWidth.GetOr(0);
    Canvas(width + lw, height + lw, left as real - lw as real / 2.0, top as real - lw as real / 2.0)
  }

  /** The canvas keeps the box's centre and leaves half a line width of
      margin on every side, so a stroke along the box's edge is not cut. */
  lemma CanvasFramesBox(left: int, top: int, width: int, height: int, lineWidth: Option<int>)
    ensures var c := SetCanvasSize(left, top, width, height, lineWidth);
      var half := lineWidth.GetOr(0) as real / 2.0;
      && c.left + c.width as real / 2.0 == left as real + width as real / 2.0
      && c.top + c.height as real / 2.0 == top as real + height as real / 2.0
      && c.left + half == left as real && c.left + c.width as real - half == (left + width) as real
      && c.top + half == top as real && c.top + c.height as real - half == (top + height) as real
  {
  }
}
