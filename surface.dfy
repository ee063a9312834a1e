/**
 * The window's pixel buffer: an RGBA image whose bounds are fixed when it is
 * made, with a rectangle copy from another image and a clear to transparent
 * black.
 */
module Surface {

  type Byte = x: int | 0 <= x < 0x100

  datatype RGBA = RGBA(r: Byte, g: Byte, b: Byte, a: Byte)

  const Transparent: RGBA := RGBA(0, 0, 0, 0)

  const Two63: int := 0x8000_0000_0000_0000
  const Two64: int := 0x1_0000_0000_0000_0000

  /** Go's `int`, 64 bits wide. */
  type Int64 = x: int | -Two63 <= x < Two63

  predicate IsInt64(x: int) { -Two63 <= x < Two63 }

  /** Two's-complement wrap-around of an integer into a 64-bit `int`. */
  function Wrap64(v: int): (w: Int64)
    ensures IsInt64(v) ==> w == v
    ensures (w - v) % Two64 == 0
  {
    (v + Two63) % Two64 - Two63
  }

  /** The distance from `st` up to `p`, counted modulo 2^64: the number of
      increments of a wrapping 64-bit counter that starts at `st` and ends
      at `p`. */
  function Offset(p: int, st: int): (d: int)
    ensures 0 <= d < Two64
    ensures 0 <= p - st < Two64 ==> d == p - st
  {
    (p - st) % Two64
  }

  /** A rectangle of the image package: the points (x, y) with
      minX <= x < maxX and minY <= y < maxY. Its width and height are
      computed on 64-bit `int`s and wrap around. */
  datatype Rect = Rect(minX: Int64, minY: Int64, maxX: Int64, maxY: Int64) {
    function Dx(): (d: Int64)
      ensures IsInt64(maxX - minX) ==> d == maxX - minX
      ensures (d - (maxX - minX)) % Two64 == 0
    {
      Wrap64(maxX - minX)
    }
    function Dy(): (d: Int64)
      ensures IsInt64(maxY - minY) ==> d == maxY - minY
      ensures (d - (maxY - minY)) % Two64 == 0
    {
      Wrap64(maxY - minY)
    }
    predicate Contains(x: int, y: int) { minX <= x < maxX && minY <= y < maxY }
  }

  function Min(a: int, b: int): (m: int)
    ensures m <= a && m <= b && (m == a || m == b)
  {
    if a <= b then a else b
  }

  function Max(a: int, b: int): (m: int)
    ensures m >= a && m >= b && (m == a || m == b)
  {
    if a <= b then b else a
  }

  /** image.Rect: the rectangle with the two given corners, reordered so that
      each minimum is at most its maximum. */
  function RectOf(x0: Int64, y0: Int64, x1: Int64, y1: Int64): (r: Rect)
    ensures r.minX <= r.maxX && r.minY <= r.maxY
    ensures (r.minX, r.maxX) == (x0, x1) || (r.minX, r.maxX) == (x1, x0)
    ensures (r.minY, r.maxY) == (y0, y1) || (r.minY, r.maxY) == (y1, y0)
  {
    Rect(Min(x0, x1), Min(y0, y1), Max(x0, x1), Max(y0, y1))
  }

  /** Pixels by column: g[i][j] is the pixel at offset (i, j) from the
      bounds' minimum corner. */
  type Grid = seq<seq<RGBA>>

  ghost predicate Rectangular(g: Grid, w: nat, h: nat)
  {
    |g| == w && forall i :: 0 <= i < w ==> |g[i]| == h
  }

  /** The pixel at offset (i, j), transparent black outside the grid, as the
      image package answers for a point outside the bounds. */
  function Cell(g: Grid, i: int, j: int): (c: RGBA)
    ensures 0 <= i < |g| && 0 <= j < |g[i]| ==> c == g[i][j]
    ensures !(0 <= i < |g| && 0 <= j < |g[i]|) ==> c == Transparent
  {
    if 0 <= i < |g| && 0 <= j < |g[i]| then g[i][j] else Transparent
  }

  /** A w-by-h grid of transparent black. */
  function Empty(w: nat, h: nat): (g: Grid)
    ensures Rectangular(g, w, h)
  {
    seq(w, _ => seq(h, _ => Transparent))
  }

  /** A source image with its own bounds' minimum corner. */
  datatype Image = Image(minX: int, minY: int, columns: Grid) {
    /** The absolute point (x, y) has a stored pixel. */
    predicate Contains(x: int, y: int) {
      0 <= x - minX < |columns| && 0 <= y - minY < |columns[x - minX]|
    }

    /** image.RGBA.At: the stored pixel at the absolute point (x, y), and
        transparent black at a point outside the image. */
    function At(x: int, y: int): (c: RGBA)
      ensures Contains(x, y) ==> c == columns[x - minX][y - minY]
      ensures !Contains(x, y) ==> c == Transparent
    {
      Cell(columns, x - minX, y - minY)
    }
  }

  /** The pixels after Clear, for a grid whose minimum corner is at
      (minX, minY): Clear sets the absolute points (x, y) with 0 <= x < width
      and 0 <= y < height, so a cell is cleared when its absolute point lies
      there. */
  function ClearGrid(g: Grid, minX: int, minY: int, h: nat): (c: Grid)
    ensures Rectangular(c, |g|, h)
  {
    seq(|g|, i requires 0 <= i < |g| =>
      seq(h, j requires 0 <= j < h =>
        if 0 <= minX + i < |g| && 0 <= minY + j < h then Transparent else Cell(g, i, j)))
  }

  /** The absolute points CopyRGBA(src, r) writes: (Wrap64(r.minX + x),
      Wrap64(r.minY + y)) for 0 <= x < r.Dx() and 0 <= y < r.Dy(), all on
      64-bit `int`s. */
  predicate Covers(r: Rect, p: int, q: int)
  {
    IsInt64(p) && IsInt64(q) && Offset(p, r.minX) < r.Dx() && Offset(q, r.minY) < r.Dy()
  }

  /** The pixels after CopyRGBA(src, r): a cell whose absolute point the copy
      writes takes the source pixel at that point's offset from r's minimum
      corner. */
  function CopyGrid(g: Grid, minX: int, minY: int, h: nat, src: Image, r: Rect): (c: Grid)
    ensures Rectangular(c, |g|, h)
  {
    seq(|g|, i requires 0 <= i < |g| =>
      seq(h, j requires 0 <= j < h =>
        if Covers(r, minX + i, minY + j) then src.At(Offset(minX + i, r.minX), Offset(minY + j, r.minY))
        else Cell(g, i, j)))
  }

  lemma ClearGridAt(g: Grid, minX: int, minY: int, h: nat, i: int, j: int)
    requires 0 <= i < |g| && 0 <= j < h
    ensures ClearGrid(g, minX, minY, h)[i][j]
         == if 0 <= minX + i < |g| && 0 <= minY + j < h then Transparent else Cell(g, i, j)
  {
    var c := ClearGrid(g, minX, minY, h);
    assert |c[i]| == h;
  }

  lemma CopyGridAt(g: Grid, minX: int, minY: int, h: nat, src: Image, r: Rect, i: int, j: int)
    requires 0 <= i < |g| && 0 <= j < h
    ensures CopyGrid(g, minX, minY, h, src, r)[i][j]
         == if Covers(r, minX + i, minY + j) then src.At(Offset(minX + i, r.minX), Offset(minY + j, r.minY))
            else Cell(g, i, j)
  {
    var c := CopyGrid(g, minX, minY, h, src, r);
    assert |c[i]| == h;
  }

  /** A wrapping 64-bit counter started at `st` and advanced x < 2^63 times
      stands at p exactly when p is a 64-bit int at distance x from st. */
  lemma WrapHits(st: Int64, x: int, p: int)
    requires 0 <= x < Two63
    ensures Wrap64(st + x) == p <==> IsInt64(p) && Offset(p, st) == x
  {
    var v := st + x;
    if v < Two63 {
      assert Wrap64(v) == v;
    } else {
      assert Wrap64(v) == v - Two64 by {
        assert (v + Two63) % Two64 == v + Two63 - Two64;
      }
    }
    if IsInt64(p) {
      if p - st >= 0 {
        assert Offset(p, st) == p - st;
      } else {
        assert Offset(p, st) == p - st + Two64 by {
          assert (p - st) % Two64 == p - st + Two64;
        }
      }
    }
  }

  lemma WrapHitsAll(st: Int64, x: int)
    requires 0 <= x < Two63
    ensures forall p :: Wrap64(st + x) == p <==> IsInt64(p) && Offset(p, st) == x
  {
    forall p
      ensures Wrap64(st + x) == p <==> IsInt64(p) && Offset(p, st) == x
    {
      WrapHits(st, x, p);
    }
  }

  lemma GridExtensionality(a: Grid, b: Grid, w: nat, h: nat)
    requires Rectangular(a, w, h) && Rectangular(b, w, h)
    requires forall i, j :: 0 <= i < w && 0 <= j < h ==> a[i][j] == b[i][j]
    ensures a == b
  {
    forall i | 0 <= i < w
      ensures a[i] == b[i]
    {
    }
  }

  class SdlBuffer {
    const minX: int
    const minY: int
    const pix: array2<RGBA>

    /** The buffer's bounds contain the absolute point (x, y). */
    predicate InBounds(x: int, y: int)
    {
      minX <= x < minX + pix.Length0 && minY <= y < minY + pix.Length1
    }

    ghost function Grid(): (g: Grid)
      reads pix
      ensures Rectangular(g, pix.Length0, pix.Length1)
    {
      seq(pix.Length0, i requires 0 <= i < pix.Length0 reads pix =>
        seq(pix.Length1, j requires 0 <= j < pix.Length1 reads pix => pix[i, j]))
    }

    /** The pixel at the absolute point (x, y); transparent black outside
        the bounds. */
    function At(x: int, y: int): (c: RGBA)
      reads pix
      ensures c == Cell(Grid(), x - minX, y - minY)
      ensures !InBounds(x, y) ==> c == Transparent
    {
      if InBounds(x, y) then pix[x - minX, y - minY] else Transparent
    }

    /** NewSdlBuffer(width, height): an image over image.Rect(0, 0, width,
        height), all transparent black. */
    constructor (width: Int64, height: Int64)
      ensures (minX, minY) == (RectOf(0, 0, width, height).minX, RectOf(0, 0, width, height).minY)
      ensures (minX + pix.Length0, minY + pix.Length1)
           == (RectOf(0, 0, width, height).maxX, RectOf(0, 0, width, height).maxY)
      ensures Grid() == Empty(pix.Length0, pix.Length1)
      ensures fresh(pix)
    {
      var r := RectOf(0, 0, width, height);
      minX, minY := r.minX, r.minY;
      pix := new RGBA[r.maxX - r.minX, r.maxY - r.minY]((_, _) => Transparent);
      new;
      GridExtensionality(Grid(), Empty(pix.Length0, pix.Length1), pix.Length0, pix.Length1);
    }

    /** image.RGBA.Set: writes the pixel at (x, y) if the point is within the
        bounds, and does nothing otherwise. */
    method Set(x: int, y: int, c: RGBA)
      modifies pix
      ensures forall i, j :: 0 <= i < pix.Length0 && 0 <= j < pix.Length1 ==>
        pix[i, j] == if minX + i == x && minY + j == y then c else old(pix[i, j])
    {
      if InBounds(x, y) {
        pix[x - minX, y - minY] := c;
      }
    }

    /** Copies the rectangle of `src` that starts at its origin onto r: the
        pixel at (r.minX + x, r.minY + y) becomes src's pixel at (x, y), with
        the sizes and the sums computed on wrapping 64-bit `int`s. */
    method CopyRGBA(src: Image, r: Rect)
      modifies pix
      ensures Grid() == CopyGrid(old(Grid()), minX, minY, pix.Length1, src, r)
    {
      var xbound := r.Dx();
      var w, h := pix.Length0, pix.Length1;
      var x := 0;
      while x < xbound
        invariant 0 <= x && (0 <= xbound ==> x <= xbound) && (xbound < 0 ==> x == 0)
        invariant forall i, j :: 0 <= i < w && 0 <= j < h ==>
          pix[i, j] == if IsInt64(minX + i) && IsInt64(minY + j)
                          && Offset(minX + i, r.minX) < x && Offset(minY + j, r.minY) < r.Dy()
                       then src.At(Offset(minX + i, r.minX), Offset(minY + j, r.minY)) else old(pix[i, j])
      {
        CopyColumn(src, r, x);
        x := x + 1;
      }
      forall i, j | 0 <= i < w && 0 <= j < h
        ensures Grid()[i][j] == CopyGrid(old(Grid()), minX, minY, h, src, r)[i][j]
      {
        CopyGridAt(old(Grid()), minX, minY, h, src, r, i, j);
      }
      GridExtensionality(Grid(), CopyGrid(old(Grid()), minX, minY, h, src, r), w, h);
    }

    /** The inner loop of CopyRGBA, for the column x of r. */
    method CopyColumn(src: Image, r: Rect, x: int)
      requires 0 <= x < Two63
      modifies pix
      ensures forall i, j :: 0 <= i < pix.Length0 && 0 <= j < pix.Length1 ==>
        pix[i, j] == if IsInt64(minX + i) && IsInt64(minY + j)
                        && Offset(minX + i, r.minX) == x && Offset(minY + j, r.minY) < r.Dy()
                     then src.At(x, Offset(minY + j, r.minY)) else old(pix[i, j])
    {
      var ybound := r.Dy();
      var w, h := pix.Length0, pix.Length1;
      WrapHitsAll(r.minX, x);
      var y := 0;
      while y < ybound
        invariant 0 <= y && (0 <= ybound ==> y <= ybound) && (ybound < 0 ==> y == 0)
        invariant forall i, j :: 0 <= i < w && 0 <= j < h ==>
          pix[i, j] == if IsInt64(minX + i) && IsInt64(minY + j)
                          && Offset(minX + i, r.minX) == x && Offset(minY + j, r.minY) < y
                       then src.At(x, Offset(minY + j, r.minY)) else old(pix[i, j])
      {
        WrapHitsAll(r.minY, y);
        Set(Wrap64(r.minX + x), Wrap64(r.minY + y), src.At(x, y));
        y := y + 1;
      }
    }

    /** Sets every point (x, y) with 0 <= x < width and 0 <= y < height of
        the bounds' size to transparent black. */
    method Clear()
      modifies pix
      ensures Grid() == ClearGrid(old(Grid()), minX, minY, pix.Length1)
    {
      var w, h := pix.Length0, pix.Length1;
      var x := 0;
      while x < w
        invariant 0 <= x <= w
        invariant forall i, j :: 0 <= i < w && 0 <= j < h ==>
          pix[i, j] == if 0 <= minX + i < x && 0 <= minY + j < h then Transparent else old(pix[i, j])
      {
        ClearColumn(x);
        x := x + 1;
      }
      forall i, j | 0 <= i < w && 0 <= j < h
        ensures Grid()[i][j] == ClearGrid(old(Grid()), minX, minY, h)[i][j]
      {
        ClearGridAt(old(Grid()), minX, minY, h, i, j);
      }
      GridExtensionality(Grid(), ClearGrid(old(Grid()), minX, minY, h), w, h);
    }

    /** The inner loop of Clear, for the absolute column x. */
    method ClearColumn(x: int)
      modifies pix
      ensures forall i, j :: 0 <= i < pix.Length0 && 0 <= j < pix.Length1 ==>
        pix[i, j] == if minX + i == x && 0 <= minY + j < pix.Length1 then Transparent else old(pix[i, j])
    {
      var w, h := pix.Length0, pix.Length1;
      var y := 0;
      while y < h
        invariant 0 <= y <= h
        invariant forall i, j :: 0 <= i < w && 0 <= j < h ==>
          pix[i, j] == if minX + i == x && 0 <= minY + j < y then Transparent else old(pix[i, j])
      {
        Set(x, y, Transparent);
        y := y + 1;
      }
    }
  }

  //////////////////////////////////////////////////////////////////////
  // Properties of the pixel updates
  //////////////////////////////////////////////////////////////////////

  /** A buffer whose bounds start at the origin (every buffer made with
      non-negative sizes) is entirely transparent black after Clear. */
  lemma ClearFromOrigin(g: Grid, h: nat)
    requires Rectangular(g, |g|, h)
    ensures ClearGrid(g, 0, 0, h) == Empty(|g|, h)
  {
    GridExtensionality(ClearGrid(g, 0, 0, h), Empty(|g|, h), |g|, h);
  }

  /** Clearing twice is clearing once. */
  lemma ClearIdempotent(g: Grid, minX: int, minY: int, h: nat)
    requires Rectangular(g, |g|, h)
    ensures ClearGrid(ClearGrid(g, minX, minY, h), minX, minY, h) == ClearGrid(g, minX, minY, h)
  {
    var once := ClearGrid(g, minX, minY, h);
    GridExtensionality(ClearGrid(once, minX, minY, h), once, |g|, h);
  }

  /** Every point the copy writes holds the source pixel read from the
      source's own origin: for 0 <= x < r.Dx() and 0 <= y < r.Dy(), the
      destination point is (Wrap64(r.minX + x), Wrap64(r.minY + y)). */
  lemma CopyInside(g: Grid, minX: int, minY: int, h: nat, src: Image, r: Rect, x: int, y: int)
    requires 0 <= x < r.Dx() && 0 <= y < r.Dy()
    requires 0 <= Wrap64(r.minX + x) - minX < |g| && 0 <= Wrap64(r.minY + y) - minY < h
    ensures CopyGrid(g, minX, minY, h, src, r)[Wrap64(r.minX + x) - minX][Wrap64(r.minY + y) - minY]
         == src.At(x, y)
  {
    var i, j := Wrap64(r.minX + x) - minX, Wrap64(r.minY + y) - minY;
    WrapHits(r.minX, x, minX + i);
    WrapHits(r.minY, y, minY + j);
    CopyGridAt(g, minX, minY, h, src, r, i, j);
  }

  /** Every point the copy does not write keeps its pixel. */
  lemma CopyOutside(g: Grid, minX: int, minY: int, h: nat, src: Image, r: Rect, i: int, j: int)
    requires Rectangular(g, |g|, h)
    requires 0 <= i < |g| && 0 <= j < h && !Covers(r, minX + i, minY + j)
    ensures CopyGrid(g, minX, minY, h, src, r)[i][j] == g[i][j]
  {
    CopyGridAt(g, minX, minY, h, src, r, i, j);
  }

  /** The copy overwrites: what the destination held at a written point has
      no bearing on the result. */
  lemma CopyOverwrites(g1: Grid, g2: Grid, minX: int, minY: int, h: nat, src: Image, r: Rect, i: int, j: int)
    requires |g1| == |g2| && 0 <= i < |g1| && 0 <= j < h && Covers(r, minX + i, minY + j)
    ensures CopyGrid(g1, minX, minY, h, src, r)[i][j] == CopyGrid(g2, minX, minY, h, src, r)[i][j]
  {
    CopyGridAt(g1, minX, minY, h, src, r, i, j);
    CopyGridAt(g2, minX, minY, h, src, r, i, j);
  }

  /** When neither size of r overflows, the copy writes exactly the points
      of r, each from its offset to r's minimum corner. */
  lemma CoversWithoutWrap(r: Rect, p: Int64, q: Int64)
    requires IsInt64(r.maxX - r.minX) && IsInt64(r.maxY - r.minY)
    ensures Covers(r, p, q) <==> r.Contains(p, q)
    ensures r.Contains(p, q) ==> Offset(p, r.minX) == p - r.minX && Offset(q, r.minY) == q - r.minY
  {
    if p - r.minX < 0 {
      assert Offset(p, r.minX) == p - r.minX + Two64 by {
        assert (p - r.minX) % Two64 == p - r.minX + Two64;
      }
    }
    if q - r.minY < 0 {
      assert Offset(q, r.minY) == q - r.minY + Two64 by {
        assert (q - r.minY) % Two64 == q - r.minY + Two64;
      }
    }
  }

  /** A rectangle that spans the whole 64-bit range has a wrapped-around
      width of -1, so the copy writes nothing, although r contains the
      buffer's points. */
  lemma WrappedWidthCopiesNothing(g: Grid, h: nat, src: Image)
    requires Rectangular(g, |g|, h)
    ensures Rect(-Two63, 0, Two63 - 1, 1).Dx() == -1
    ensures CopyGrid(g, 0, 0, h, src, Rect(-Two63, 0, Two63 - 1, 1)) == g
  {
    var r := Rect(-Two63, 0, Two63 - 1, 1);
    assert r.Dx() == -1 by {
      assert (Two63 - 1 + Two63 + Two63) % Two64 == Two63 - 1;
    }
    CopyEmptyRect(g, 0, 0, h, src, r);
  }

  /** A rectangle without width or height changes nothing. */
  lemma CopyEmptyRect(g: Grid, minX: int, minY: int, h: nat, src: Image, r: Rect)
    requires Rectangular(g, |g|, h)
    requires r.Dx() <= 0 || r.Dy() <= 0
    ensures CopyGrid(g, minX, minY, h, src, r) == g
  {
    forall i, j | 0 <= i < |g| && 0 <= j < h
      ensures CopyGrid(g, minX, minY, h, src, r)[i][j] == g[i][j]
    {
      CopyGridAt(g, minX, minY, h, src, r, i, j);
    }
    GridExtensionality(CopyGrid(g, minX, minY, h, src, r), g, |g|, h);
  }
}
