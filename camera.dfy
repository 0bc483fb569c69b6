/** The camera, its character buffer, the pixel loop that fills the buffer
    by tracing one ray per character cell, and the assembly of the buffer
    into the text that is drawn on screen. */
module Render {
  import opened Options
  import opened Vectors
  import opened Spheres
  import opened Shading
  import opened Tracing
  import RealFacts

  /** Window size in pixels; a character cell is 8 pixels wide and 16 high,
      so the grid has Height / 16 rows and Width / 8 columns (GridConstants
      checks the values written here). */
  const Width: int := 1920
  const Height: int := 1080
  const Rows: int := 67
  const Cols: int := 240

  /** The buffer row that the pixel loop never reaches; it is the first line
      of the displayed text. */
  const LastRow: int := Rows - 1

  /** Half the grid in each direction as the pixel loop computes it with
      truncating division (GridConstants: TruncDiv(Cols, 2) and
      TruncDiv(Rows, 2)). */
  const HalfCols: int := 120
  const HalfRows: int := 33

  /** Distance from the camera to the projection plane. */
  const D: real := 1.0

  /** The near end of the ray window used for every pixel. */
  const NearLimit: real := 1.0

  function Abs(a: int): int {
    if a < 0 then -a else a
  }

  lemma EuclideanBounds(n: nat, d: nat)
    requires d > 0
    ensures d * (n / d) <= n < d * (n / d) + d
  {
  }

  function TruncDivPositive(a: int, d: int): (q: int)
    requires d > 0
    ensures 0 <= a ==> 0 <= a - d * q < d
    ensures a < 0 ==> -d < a - d * q <= 0
  {
    if a >= 0 then
      EuclideanBounds(a, d);
      a / d
    else
      EuclideanBounds(-a, d);
      -((-a) / d)
  }

  /** Integer division as Rust's `/` on `i32` computes it: the quotient is
      truncated toward zero, so the remainder a - b * q is smaller than the
      divisor in magnitude and has the sign of the dividend. Dafny's own `/`
      is Euclidean and differs for negative dividends. */
  function TruncDiv(a: int, b: int): (q: int)
    requires b != 0
    ensures var r: int := a - b * q; 0 <= a ==> 0 <= r < Abs(b)
    ensures var r: int := a - b * q; a < 0 ==> -Abs(b) < r <= 0
  {
    if b > 0 then TruncDivPositive(a, b)
    else
      var q := TruncDivPositive(a, -b);
      assert a - b * -q == a - (-b) * q;
      -q
  }

  /** The grid has an odd number of rows, so the loop bounds are not
      symmetric: -67 / 2 truncates to -33 where the Euclidean quotient would
      be -34. */
  lemma GridConstants()
    ensures Rows == Height / 16 && Cols == Width / 8
    ensures TruncDiv(-Rows, 2) == -HalfRows && TruncDiv(Rows, 2) == HalfRows
    ensures TruncDiv(-Cols, 2) == -HalfCols && TruncDiv(Cols, 2) == HalfCols
    ensures (-Rows) / 2 == -34
  {
  }

  /** The pixel loop's ranges: -COLS/2 <= x < COLS/2, -ROWS/2 <= y < ROWS/2. */
  predicate InLoop(x: int, y: int) {
    TruncDiv(-Cols, 2) <= x < TruncDiv(Cols, 2) && TruncDiv(-Rows, 2) <= y < TruncDiv(Rows, 2)
  }

  /** The buffer cell (row, column) that pixel (x, y) is written to. */
  function CellOf(x: int, y: int): (int, int) {
    (y + TruncDiv(Rows, 2), x + TruncDiv(Cols, 2))
  }

  /** The pixel whose value is written to cell (row, col). */
  function PixelOf(row: int, col: int): (int, int) {
    (col - TruncDiv(Cols, 2), row - TruncDiv(Rows, 2))
  }

  /** Every pixel of the loop lands on a cell inside the buffer, and never in
      its last row. */
  lemma CellInBounds(x: int, y: int)
    requires InLoop(x, y)
    ensures 0 <= CellOf(x, y).0 < Rows - 1
    ensures 0 <= CellOf(x, y).1 < Cols
  {
    GridConstants();
  }

  /** Distinct pixels are written to distinct cells. */
  lemma CellOfInjective(x1: int, y1: int, x2: int, y2: int)
    requires InLoop(x1, y1) && InLoop(x2, y2)
    requires CellOf(x1, y1) == CellOf(x2, y2)
    ensures x1 == x2 && y1 == y2
  {
  }

  /** Every cell outside the last row is the cell of exactly one pixel of the
      loop, and no pixel of the loop writes the last row. */
  lemma CellsCoveredOnce(row: int, col: int)
    requires 0 <= row < Rows && 0 <= col < Cols
    ensures row < Rows - 1 <==> InLoop(PixelOf(row, col).0, PixelOf(row, col).1)
    ensures row < Rows - 1 ==> CellOf(PixelOf(row, col).0, PixelOf(row, col).1) == (row, col)
    ensures forall x, y :: InLoop(x, y) && CellOf(x, y) == (row, col) ==> (x, y) == PixelOf(row, col)
  {
    GridConstants();
  }

  /** The size of the projection plane seen by the camera. */
  datatype Viewport = Viewport(width: real, height: real)

  /** The point on the projection plane for a pixel given in centred
      coordinates, for a grid of Rows x Cols cells at depth D. This is the
      value Camera.PixelToViewport computes, written over the viewport alone
      rather than over the camera's fields, so that ViewChar and the
      invariants of Camera.Update can refer to it without reading the heap. */
  function ViewportPoint(viewport: Viewport, x: real, y: real): Vec3 {
    Vec3(x * viewport.width / Cols as real, y * viewport.height / Rows as real, D)
  }

  /** The character seen through pixel (x, y) by a camera at `position`
      with the given rotation and viewport: the ray through the rotated
      viewport point, traced over the window (NearLimit, +infinity). */
  function ViewChar(position: Vec3, rotation: Mat3, viewport: Viewport, x: int, y: int, spheres: seq<Sphere>, sqrt: real -> real): char
    requires IsSqrt(sqrt)
  {
    RayChar(position, Apply(rotation, ViewportPoint(viewport, x as real, y as real)), NearLimit, Infinity, spheres, sqrt)
  }

  class Camera {
    var position: Vec3
    var rotation: Mat3
    var viewport: Viewport
    /** One character per cell, indexed [row, column]. */
    const buffer: array2<char>

    ghost predicate Valid()
      reads this
    {
      buffer.Length0 == Rows && buffer.Length1 == Cols
    }

    /** The camera as the program starts: at the origin, unrotated, with a
        unit viewport and a blank buffer. */
    constructor ()
      ensures Valid()
      ensures position == Zero && rotation == Identity && viewport == Viewport(1.0, 1.0)
      ensures forall row, col :: 0 <= row < Rows && 0 <= col < Cols ==> buffer[row, col] == ' '
      ensures TopRowBlank()
      ensures fresh(buffer)
    {
      position := Zero;
      rotation := Identity;
      viewport := Viewport(1.0, 1.0);
      buffer := new char[Rows, Cols]((_, _) => ' ');
    }

    /** The width of the buffer, which is the number of columns. */
    function BufferWidth(): (w: int)
      requires Valid()
      reads this
      ensures w == Cols
    {
      buffer.Length1
    }

    /** The height of the buffer, which is the number of rows. */
    function BufferHeight(): (h: int)
      requires Valid()
      reads this
      ensures h == Rows
    {
      buffer.Length0
    }

    /** The point on the projection plane for a pixel given in centred
        coordinates: one buffer width spans the viewport width, one buffer
        height the viewport height, at depth D. */
    function PixelToViewport(x: real, y: real): (v: Vec3)
      requires Valid()
      reads this
      ensures v.z == D
      ensures v.x * (Cols as real) == x * viewport.width
      ensures v.y * (Rows as real) == y * viewport.height
      ensures v == ViewportPoint(viewport, x, y)
    {
      RealFacts.DivCancel(x * viewport.width, BufferWidth() as real);
      RealFacts.DivCancel(y * viewport.height, BufferHeight() as real);
      Vec3(x * viewport.width / BufferWidth() as real, y * viewport.height / BufferHeight() as real, D)
    }

    /** The pixel grid spans the viewport horizontally: the loop's first
        column maps to the left edge and its exclusive upper bound to the
        right edge. */
    lemma ViewportEdges(y: real)
      requires Valid()
      ensures PixelToViewport(TruncDiv(-Cols, 2) as real, y).x == -viewport.width / 2.0
      ensures PixelToViewport(TruncDiv(Cols, 2) as real, y).x == viewport.width / 2.0
    {
      GridConstants();
    }

    ghost predicate TopRowBlank()
      requires Valid()
      reads this, buffer
    {
      forall col :: 0 <= col < Cols ==> buffer[LastRow, col] == ' '
    }

    /** One column of the pixel loop: for the fixed x, every y of the
        row range traces its ray and writes the cell of (x, y). Afterwards
        column x + HalfCols holds the traced characters in all rows but the
        last, and every other cell is as it was. */
    method RenderColumn(x: int, spheres: seq<Sphere>, sqrt: real -> real)
      requires Valid() && IsSqrt(sqrt)
      requires -HalfCols <= x < HalfCols
      modifies buffer
      ensures forall row, col :: 0 <= row < Rows - 1 && col == x + HalfCols ==>
                buffer[row, col] == ViewChar(position, rotation, viewport, x, row - HalfRows, spheres, sqrt)
      ensures forall row, col :: 0 <= row < Rows && 0 <= col < Cols && !(col == x + HalfCols && row < Rows - 1) ==>
                buffer[row, col] == old(buffer[row, col])
    {
      GridConstants();
      ghost var col := x + HalfCols;
      var width, height := Cols, Rows;
      var y := TruncDiv(-height, 2);
      while y < TruncDiv(height, 2)
        invariant TruncDiv(-height, 2) <= y <= TruncDiv(height, 2)
        invariant forall row :: 0 <= row < y + HalfRows ==>
                    buffer[row, col] == ViewChar(position, rotation, viewport, x, row - HalfRows, spheres, sqrt)
        invariant forall row, c :: 0 <= row < Rows && 0 <= c < Cols && !(c == col && row < y + HalfRows) ==>
                    buffer[row, c] == old(buffer[row, c])
      {
        var d := Apply(rotation, PixelToViewport(x as real, y as real));
        var chr := TraceRay(position, d, NearLimit, Infinity, spheres, sqrt);
        buffer[y + TruncDiv(height, 2), x + TruncDiv(width, 2)] := chr;
        y := y + 1;
      }
    }

    /** Renders the scene into the buffer: every cell except those of the
        last row receives the character of its pixel, and the last row keeps
        what it held. */
    method Update(spheres: seq<Sphere>, sqrt: real -> real)
      requires Valid() && IsSqrt(sqrt)
      modifies buffer
      ensures forall row, col :: 0 <= row < Rows - 1 && 0 <= col < Cols ==>
                buffer[row, col] == ViewChar(position, rotation, viewport, PixelOf(row, col).0, PixelOf(row, col).1, spheres, sqrt)
      ensures forall col :: 0 <= col < Cols ==> buffer[LastRow, col] == old(buffer[LastRow, col])
    {
      GridConstants();
      var width := Cols;
      var x := TruncDiv(-width, 2);
      while x < TruncDiv(width, 2)
        invariant TruncDiv(-width, 2) <= x <= TruncDiv(width, 2)
        invariant forall row, col :: 0 <= row < Rows - 1 && 0 <= col < x + HalfCols ==>
                    buffer[row, col] == ViewChar(position, rotation, viewport, col - HalfCols, row - HalfRows, spheres, sqrt)
        invariant forall row, col :: 0 <= row < Rows && x + HalfCols <= col < Cols ==>
                    buffer[row, col] == old(buffer[row, col])
        invariant forall col :: 0 <= col < Cols ==> buffer[LastRow, col] == old(buffer[LastRow, col])
      {
        RenderColumn(x, spheres, sqrt);
        x := x + 1;
      }
    }

    /** Character j of line k of the displayed text: row Rows - 1 - k of the
        buffer, then a line break. */
    function LineChar(k: int, j: int): char
      requires Valid() && 0 <= k < Rows && 0 <= j <= Cols
      reads this, buffer
    {
      if j == Cols then '\n' else buffer[Rows - 1 - k, j]
    }

    /** The text drawn on screen: the buffer's rows from last to first, each
        followed by a line break. */
    method Display() returns (s: string)
      requires Valid()
      ensures |s| == Rows * (Cols + 1)
      ensures forall k, j :: 0 <= k < Rows && 0 <= j <= Cols ==> s[k * (Cols + 1) + j] == LineChar(k, j)
      ensures TopRowBlank() ==> forall j :: 0 <= j < Cols ==> s[j] == ' '
    {
      s := [];
      var k := 0;
      while k < Rows
        invariant 0 <= k <= Rows
        invariant |s| == k * (Cols + 1)
        invariant forall k', j :: 0 <= k' < k && 0 <= j <= Cols ==> s[k' * (Cols + 1) + j] == LineChar(k', j)
      {
        var row := Rows - 1 - k;
        var j := 0;
        while j < Cols
          invariant 0 <= j <= Cols
          invariant |s| == k * (Cols + 1) + j
          invariant forall k', j' :: 0 <= k' < k && 0 <= j' <= Cols ==> s[k' * (Cols + 1) + j'] == LineChar(k', j')
          invariant forall j' :: 0 <= j' < j ==> s[k * (Cols + 1) + j'] == LineChar(k, j')
        {
          s := s + [buffer[row, j]];
          j := j + 1;
        }
        s := s + "\n";
        k := k + 1;
      }
      if TopRowBlank() {
        forall j | 0 <= j < Cols
          ensures s[j] == ' '
        {
          assert s[0 * (Cols + 1) + j] == LineChar(0, j);
        }
      }
    }
  }
}
