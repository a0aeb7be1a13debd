/** Binary morphology over masks of booleans (true is white), seen as grids
    of rows, and the conversion between row-major buffers and grids. A
    structuring element is the list of offsets (row, column), relative to
    its anchor, at which it is non-zero. */
module Morphology {

  type Offset = (int, int)

  /** Every row of `g` has `w` samples. */
  predicate IsGrid<T>(g: seq<seq<T>>, w: nat) {
    forall r :: 0 <= r < |g| ==> |g[r]| == w
  }

  lemma MulMono(a: int, b: int, w: nat)
    requires a <= b
    ensures a * w <= b * w
  {
    assert b * w - a * w == (b - a) * w;
  }

  /** Pixel (r, c) of an h-by-w row-major buffer lies inside the buffer. */
  lemma IndexInRange(h: nat, w: nat, r: int, c: int)
    requires 0 <= r < h && 0 <= c < w
    ensures 0 <= r * w + c < h * w
  {
    RowInRange(h, w, r);
  }

  /** Row r of an h-by-w row-major buffer lies inside the buffer. */
  lemma RowInRange(h: nat, w: nat, r: int)
    requires 0 <= r < h
    ensures 0 <= r * w && r * w + w <= h * w
  {
    MulMono(r + 1, h, w);
    MulMono(0, r, w);
  }

  /** The rows of an h-by-w row-major buffer. */
  function ToGrid<T>(h: nat, w: nat, m: seq<T>): (g: seq<seq<T>>)
    requires |m| == h * w
    ensures |g| == h && IsGrid(g, w)
  {
    seq(h, r requires 0 <= r < h => RowInRange(h, w, r); Row(w, m, r * w))
  }

  /** The w samples starting at `start`. */
  function Row<T>(w: nat, m: seq<T>, start: int): (row: seq<T>)
    requires 0 <= start && start + w <= |m|
    ensures |row| == w && forall c :: 0 <= c < w ==> row[c] == m[start + c]
  {
    m[start..start + w]
  }

  /** Cell (r, c) of the grid is sample r * w + c of the buffer. */
  lemma ToGridCell<T>(h: nat, w: nat, m: seq<T>, r: int, c: int)
    requires |m| == h * w && 0 <= r < h && 0 <= c < w
    ensures 0 <= r * w + c < |m| && ToGrid(h, w, m)[r][c] == m[r * w + c]
  {
    RowInRange(h, w, r);
  }

  /** Sample i of a row-major buffer of width w sits at row i / w, column
      i % w. */
  lemma RowCol(h: nat, w: nat, i: int)
    requires w > 0 && 0 <= i < h * w
    ensures 0 <= i / w < h && 0 <= i % w < w
    ensures (i / w) * w + i % w == i
  {
  }

  /** The rows of a grid laid end to end (`numpy.ravel`). */
  function Flatten<T>(g: seq<seq<T>>): (m: seq<T>)
  {
    if g == [] then [] else Flatten(g[..|g| - 1]) + g[|g| - 1]
  }

  lemma {:induction false} FlattenLength<T>(g: seq<seq<T>>, w: nat)
    requires IsGrid(g, w)
    ensures |Flatten(g)| == |g| * w
  {
    if g != [] {
      FlattenLength(g[..|g| - 1], w);
      assert |Flatten(g)| == (|g| - 1) * w + w;
    }
  }

  /** Cell (r, c) of a grid is sample r * w + c of its flattening. */
  lemma {:induction false} FlattenCell<T>(g: seq<seq<T>>, w: nat, r: int, c: int)
    requires IsGrid(g, w) && 0 <= r < |g| && 0 <= c < w
    ensures 0 <= r * w + c < |g| * w
    ensures |Flatten(g)| == |g| * w && Flatten(g)[r * w + c] == g[r][c]
  {
    FlattenLength(g, w);
    IndexInRange(|g|, w, r, c);
    var n := |g| - 1;
    var front := g[..n];
    FlattenLength(front, w);
    if r < n {
      FlattenCell(front, w, r, c);
      assert g[r] == front[r];
    } else {
      assert r * w + c == |Flatten(front)| + c;
    }
  }

  /** Cutting a buffer into rows and laying them end to end gives the
      buffer back. */
  lemma FlattenToGrid<T>(h: nat, w: nat, m: seq<T>)
    requires w > 0 && |m| == h * w
    ensures Flatten(ToGrid(h, w, m)) == m
  {
    var g := ToGrid(h, w, m);
    FlattenLength(g, w);
    forall i | 0 <= i < |m| ensures Flatten(g)[i] == m[i] {
      RowCol(h, w, i);
      FlattenCell(g, w, i / w, i % w);
      ToGridCell(h, w, m, i / w, i % w);
    }
  }

  /** Laying a grid's rows end to end and cutting again gives the grid
      back. */
  lemma ToGridOfFlatten<T>(g: seq<seq<T>>, w: nat)
    requires IsGrid(g, w)
    ensures |Flatten(g)| == |g| * w
    ensures ToGrid(|g|, w, Flatten(g)) == g
  {
    FlattenLength(g, w);
    var t := ToGrid(|g|, w, Flatten(g));
    forall r | 0 <= r < |g| ensures t[r] == g[r] {
      forall c | 0 <= c < w ensures t[r][c] == g[r][c] {
        FlattenCell(g, w, r, c);
        ToGridCell(|g|, w, Flatten(g), r, c);
      }
    }
  }

  /** Sample i of a buffer is cell (i / w, i % w) of its grid. */
  lemma ToGridAt<T>(h: nat, w: nat, m: seq<T>, i: int)
    requires w > 0 && |m| == h * w && 0 <= i < |m|
    ensures 0 <= i / w < h && 0 <= i % w < w
    ensures ToGrid(h, w, m)[i / w][i % w] == m[i]
  {
    RowCol(h, w, i);
    ToGridCell(h, w, m, i / w, i % w);
  }

  /** Sample i of a flattened grid is cell (i / w, i % w) of the grid. */
  lemma FlattenAt<T>(g: seq<seq<T>>, w: nat, i: int)
    requires w > 0 && IsGrid(g, w) && 0 <= i < |g| * w
    ensures 0 <= i / w < |g| && 0 <= i % w < w
    ensures |Flatten(g)| == |g| * w && Flatten(g)[i] == g[i / w][i % w]
  {
    RowCol(|g|, w, i);
    FlattenCell(g, w, i / w, i % w);
  }

  /** The sample an element reaches from (r, c) through offset `o`, or
      `outside` when that position lies off the grid. */
  function At(g: seq<seq<bool>>, w: nat, r: int, c: int, o: Offset, outside: bool): bool
    requires IsGrid(g, w)
  {
    var r', c' := r + o.0, c + o.1;
    if 0 <= r' < |g| && 0 <= c' < w then g[r'][c'] else outside
  }

  /** Binary dilation: white where some reached in-grid sample is white.
      Off-grid positions count as black, which is OpenCV's default border
      for dilation and scipy's `border_value=0`. */
  function Dilate(g: seq<seq<bool>>, w: nat, k: seq<Offset>): (d: seq<seq<bool>>)
    requires IsGrid(g, w)
    ensures |d| == |g| && IsGrid(d, w)
    ensures forall r, c :: 0 <= r < |g| && 0 <= c < w ==>
      (d[r][c] <==> exists j :: 0 <= j < |k| && At(g, w, r, c, k[j], false))
  {
    seq(|g|, r requires 0 <= r < |g| =>
      seq(w, c requires 0 <= c < w => exists j :: 0 <= j < |k| && At(g, w, r, c, k[j], false)))
  }

  /** Binary erosion: white where every reached sample is white. Off-grid
      positions read as `outside`: white for OpenCV's default border,
      black for scipy's default `border_value=0`. */
  function Erode(g: seq<seq<bool>>, w: nat, k: seq<Offset>, outside: bool): (e: seq<seq<bool>>)
    requires IsGrid(g, w)
    ensures |e| == |g| && IsGrid(e, w)
    ensures forall r, c :: 0 <= r < |g| && 0 <= c < w ==>
      (e[r][c] <==> forall j :: 0 <= j < |k| ==> At(g, w, r, c, k[j], outside))
  {
    seq(|g|, r requires 0 <= r < |g| =>
      seq(w, c requires 0 <= c < w => forall j :: 0 <= j < |k| ==> At(g, w, r, c, k[j], outside)))
  }

  /** Closing: dilation followed by erosion with the same element. */
  function Close(g: seq<seq<bool>>, w: nat, k: seq<Offset>, outside: bool): (r: seq<seq<bool>>)
    requires IsGrid(g, w)
    ensures |r| == |g| && IsGrid(r, w)
  {
    Erode(Dilate(g, w, k), w, k, outside)
  }

  /** Opening: erosion followed by dilation with the same element. */
  function Open(g: seq<seq<bool>>, w: nat, k: seq<Offset>, outside: bool): (r: seq<seq<bool>>)
    requires IsGrid(g, w)
    ensures |r| == |g| && IsGrid(r, w)
  {
    Dilate(Erode(g, w, k, outside), w, k)
  }

  predicate HasOrigin(k: seq<Offset>) {
    exists j :: 0 <= j < |k| && k[j] == (0, 0)
  }

  /** The offset pointing the opposite way. */
  function Mirror(o: Offset): Offset {
    (-o.0, -o.1)
  }

  /** Every offset has its mirror image in the element. */
  predicate Symmetric(k: seq<Offset>) {
    forall j {:trigger Mirror(k[j])} :: 0 <= j < |k| ==> exists j' :: 0 <= j' < |k| && k[j'] == Mirror(k[j])
  }

  /** A dilation by an element containing its anchor never turns a white
      sample black. */
  lemma DilateKeepsWhite(g: seq<seq<bool>>, w: nat, k: seq<Offset>, r: int, c: int)
    requires IsGrid(g, w) && 0 <= r < |g| && 0 <= c < w
    requires HasOrigin(k) && g[r][c]
    ensures Dilate(g, w, k)[r][c]
  {
    var j :| 0 <= j < |k| && k[j] == (0, 0);
    assert At(g, w, r, c, k[j], false);
  }

  /** A closing by a symmetric element, with off-grid positions read as
      white during erosion, never turns a white sample black. */
  lemma CloseKeepsWhite(g: seq<seq<bool>>, w: nat, k: seq<Offset>, r: int, c: int)
    requires IsGrid(g, w) && 0 <= r < |g| && 0 <= c < w
    requires Symmetric(k) && g[r][c]
    ensures Close(g, w, k, true)[r][c]
  {
    var d := Dilate(g, w, k);
    forall j | 0 <= j < |k| ensures At(d, w, r, c, k[j], true) {
      var o := k[j];
      var r', c' := r + o.0, c + o.1;
      if 0 <= r' < |g| && 0 <= c' < w {
        var j' :| 0 <= j' < |k| && k[j'] == Mirror(o);
        assert At(g, w, r', c', k[j'], false);
      }
    }
  }

  /** An opening by a symmetric element, with off-grid positions read as
      white during erosion, never turns a black sample white. */
  lemma OpenKeepsBlack(g: seq<seq<bool>>, w: nat, k: seq<Offset>, r: int, c: int)
    requires IsGrid(g, w) && 0 <= r < |g| && 0 <= c < w
    requires Symmetric(k) && !g[r][c]
    ensures !Open(g, w, k, true)[r][c]
  {
    var e := Erode(g, w, k, true);
    forall j | 0 <= j < |k| ensures !At(e, w, r, c, k[j], false) {
      var j' :| 0 <= j' < |k| && k[j'] == Mirror(k[j]);
      ErodeBlackNeighbour(g, w, k, r, c, j, j');
    }
  }

  /** Erosion (off-grid read as white) is black at every in-grid position
      from which the element reaches a black sample; here the position is
      reached from (r, c) by `k[j]` and leads back through its mirror `k[j']`. */
  lemma ErodeBlackNeighbour(g: seq<seq<bool>>, w: nat, k: seq<Offset>, r: int, c: int, j: int, j': int)
    requires IsGrid(g, w) && 0 <= r < |g| && 0 <= c < w && !g[r][c]
    requires 0 <= j < |k| && 0 <= j' < |k| && k[j'] == Mirror(k[j])
    ensures !At(Erode(g, w, k, true), w, r, c, k[j], false)
  {
    var r', c' := r + k[j].0, c + k[j].1;
    if 0 <= r' < |g| && 0 <= c' < w {
      assert r' + k[j'].0 == r && c' + k[j'].1 == c;
      assert !At(g, w, r', c', k[j'], true);
      assert !Erode(g, w, k, true)[r'][c'];
    }
  }

  /** A cell in the first or last row or column. */
  predicate OnFrame(h: nat, w: nat, r: int, c: int) {
    r == 0 || r == h - 1 || c == 0 || c == w - 1
  }

  /** The 3x3 element of ones, anchored at its centre
      (`np.ones((3, 3))`). */
  function Ones3(): (k: seq<Offset>)
    ensures |k| == 9
    ensures forall j :: 0 <= j < |k| ==> -1 <= k[j].0 <= 1 && -1 <= k[j].1 <= 1
  {
    [(-1, -1), (-1, 0), (-1, 1), (0, -1), (0, 0), (0, 1), (1, -1), (1, 0), (1, 1)]
  }

  lemma Ones3Shape()
    ensures HasOrigin(Ones3()) && Symmetric(Ones3())
  {
    var k := Ones3();
    assert k[4] == (0, 0);
    assert k[0] == Mirror(k[8]) && k[1] == Mirror(k[7]) && k[2] == Mirror(k[6]) && k[3] == Mirror(k[5]);
    assert k[8] == Mirror(k[0]) && k[7] == Mirror(k[1]) && k[6] == Mirror(k[2]) && k[5] == Mirror(k[3]);
    assert k[4] == Mirror(k[4]);
  }

  /** When off-grid positions read as black, erosion by the 3x3 element
      blackens every cell of the outer frame. */
  lemma ErodeOnes3BlackensFrame(g: seq<seq<bool>>, w: nat, r: int, c: int)
    requires IsGrid(g, w) && 0 <= r < |g| && 0 <= c < w
    requires OnFrame(|g|, w, r, c)
    ensures !Erode(g, w, Ones3(), false)[r][c]
  {
    var k := Ones3();
    if r == 0 {
      assert !At(g, w, r, c, k[1], false);
    } else if r == |g| - 1 {
      assert !At(g, w, r, c, k[7], false);
    } else if c == 0 {
      assert !At(g, w, r, c, k[3], false);
    } else {
      assert !At(g, w, r, c, k[5], false);
    }
  }

  /** Away from the frame the 3x3 element stays inside the grid, so the
      border convention does not matter there and closing keeps every
      white cell white. */
  lemma CloseOnes3KeepsInteriorWhite(g: seq<seq<bool>>, w: nat, r: int, c: int)
    requires IsGrid(g, w) && 0 <= r < |g| && 0 <= c < w
    requires !OnFrame(|g|, w, r, c) && g[r][c]
    ensures Close(g, w, Ones3(), false)[r][c]
  {
    var k := Ones3();
    Ones3Shape();
    CloseKeepsWhite(g, w, k, r, c);
    var d := Dilate(g, w, k);
    forall j | 0 <= j < |k| ensures At(d, w, r, c, k[j], false) {
      assert At(d, w, r, c, k[j], true);
    }
  }

  /** The rows of an n-by-n all-ones element anchored at its centre
      (n / 2, n / 2), OpenCV's default anchor. */
  function SquareRows(n: nat): (g: seq<seq<Offset>>)
    ensures |g| == n && IsGrid(g, n)
    ensures forall r, c :: 0 <= r < n && 0 <= c < n ==> g[r][c] == (r - n / 2, c - n / 2)
  {
    seq(n, r requires 0 <= r < n => seq(n, c requires 0 <= c < n => (r - n / 2, c - n / 2)))
  }

  /** `np.ones((n, n))` as a structuring element. */
  function Square(n: nat): seq<Offset> {
    Flatten(SquareRows(n))
  }

  /** The square holds exactly the offsets whose row and column lie in
      -(n / 2) .. n - 1 - n / 2. */
  lemma SquareMembers(n: nat, o: Offset)
    ensures |Square(n)| == n * n
    ensures (exists j :: 0 <= j < |Square(n)| && Square(n)[j] == o) <==>
      -(n / 2) <= o.0 < n - n / 2 && -(n / 2) <= o.1 < n - n / 2
  {
    var g := SquareRows(n);
    FlattenLength(g, n);
    if -(n / 2) <= o.0 < n - n / 2 && -(n / 2) <= o.1 < n - n / 2 {
      var r, c := o.0 + n / 2, o.1 + n / 2;
      FlattenCell(g, n, r, c);
      assert Square(n)[r * n + c] == o;
    }
    if exists j :: 0 <= j < |Square(n)| && Square(n)[j] == o {
      var j :| 0 <= j < |Square(n)| && Square(n)[j] == o;
      FlattenAt(g, n, j);
    }
  }

  /** A square of side at least one contains its anchor. */
  lemma SquareHasOrigin(n: nat)
    requires n >= 1
    ensures HasOrigin(Square(n))
  {
    SquareMembers(n, (0, 0));
  }

  /** `cv2.getStructuringElement(cv2.MORPH_ELLIPSE, (5, 5))`, anchored at
      its centre: rows 00100 / 11111 / 11111 / 11111 / 00100. */
  function Ellipse5(): (k: seq<Offset>)
    ensures |k| == 17
  {
    [(-2, 0),
     (-1, -2), (-1, -1), (-1, 0), (-1, 1), (-1, 2),
     (0, -2), (0, -1), (0, 0), (0, 1), (0, 2),
     (1, -2), (1, -1), (1, 0), (1, 1), (1, 2),
     (2, 0)]
  }

  lemma Ellipse5Shape()
    ensures HasOrigin(Ellipse5()) && Symmetric(Ellipse5())
  {
    var k := Ellipse5();
    assert k[8] == (0, 0);
    Ellipse5MirrorsTop();
    Ellipse5MirrorsBottom();
    assert k[8] == Mirror(k[8]);
  }

  /** The offsets above the anchor row, and the first of it, are mirrored
      by the ones read from the other end. */
  lemma Ellipse5MirrorsTop()
    ensures var k := Ellipse5();
      k[0] == Mirror(k[16]) && k[1] == Mirror(k[15]) && k[2] == Mirror(k[14]) && k[3] == Mirror(k[13]) &&
      k[4] == Mirror(k[12]) && k[5] == Mirror(k[11]) && k[6] == Mirror(k[10]) && k[7] == Mirror(k[9])
  {
  }

  lemma Ellipse5MirrorsBottom()
    ensures var k := Ellipse5();
      k[16] == Mirror(k[0]) && k[15] == Mirror(k[1]) && k[14] == Mirror(k[2]) && k[13] == Mirror(k[3]) &&
      k[12] == Mirror(k[4]) && k[11] == Mirror(k[5]) && k[10] == Mirror(k[6]) && k[9] == Mirror(k[7])
  {
  }
}
