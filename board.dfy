/** Board geometry chosen when a puzzle is built: the host size clamped into fixed ranges,
    the grid from `bestGrid`, and the largest square piece size whose grid fits the board. */
module Board {
  import opened Wrappers
  import opened Grid

  /** `Math.max(lo, Math.min(hi, v))`. */
  function Clamp(v: nat, lo: nat, hi: nat): (r: nat)
    ensures lo <= hi ==> lo <= r <= hi
    ensures lo <= v <= hi ==> r == v
    ensures v < lo || hi < lo ==> r == lo
    ensures lo <= hi < v ==> r == hi
  {
    var m := if v < hi then v else hi;
    if lo < m then m else lo
  }

  /** `Math.max(720, Math.min(980, host.clientWidth || 860))`. */
  function BoardWidth(clientWidth: nat): (w: nat)
    ensures 720 <= w <= 980
    ensures clientWidth == 0 ==> w == 860
    ensures 720 <= clientWidth <= 980 ==> w == clientWidth
    ensures 0 < clientWidth < 720 ==> w == 720
    ensures clientWidth > 980 ==> w == 980
  {
    Clamp(if clientWidth == 0 then 860 else clientWidth, 720, 980)
  }

  /** `Math.max(520, Math.min(720, host.clientHeight || 640))`. */
  function BoardHeight(clientHeight: nat): (h: nat)
    ensures 520 <= h <= 720
    ensures clientHeight == 0 ==> h == 640
    ensures 520 <= clientHeight <= 720 ==> h == clientHeight
    ensures 0 < clientHeight < 520 ==> h == 520
    ensures clientHeight > 720 ==> h == 720
  {
    Clamp(if clientHeight == 0 then 640 else clientHeight, 520, 720)
  }

  /** `Math.floor(Math.min(W / cols, H / rows))`: the largest whole piece size for which
      `cols` pieces fit across the board and `rows` pieces fit down it. */
  function PieceSize(width: nat, height: nat, cols: nat, rows: nat): (p: nat)
    requires cols >= 1 && rows >= 1
    ensures p * cols <= width && p * rows <= height
    ensures (p + 1) * cols > width || (p + 1) * rows > height
    ensures cols <= width && rows <= height ==> p >= 1
  {
    var a, b := width / cols, height / rows;
    DivBounds(width, cols);
    DivBounds(height, rows);
    if a <= b then
      MulLe(a, b, rows);
      DivAtLeastOne(width, cols);
      a
    else
      MulLe(b, a, cols);
      DivAtLeastOne(height, rows);
      b
  }

  lemma DivBounds(x: nat, d: nat)
    requires d >= 1
    ensures (x / d) * d <= x < (x / d + 1) * d
  {
    assert x == (x / d) * d + x % d;
  }

  lemma DivAtLeastOne(x: nat, d: nat)
    requires 1 <= d
    ensures d <= x ==> x / d >= 1
  {
    DivBounds(x, d);
  }

  datatype Layout = Layout(width: nat, height: nat, cols: nat, rows: nat, pieceSize: nat)

  /** The geometry part of `buildHeadbreakerPuzzle`, once the image has loaded: board size,
      grid and piece size. `None` is the source's fallback grid, reached only for a count below 1. */
  method PlanBoard(piecesCount: int, clientWidth: nat, clientHeight: nat, imageWidth: nat, imageHeight: nat)
    returns (r: Option<Layout>)
    ensures r.Some? <==> piecesCount >= 1
    ensures r.Some? ==>
      && r.value.width == BoardWidth(clientWidth) && r.value.height == BoardHeight(clientHeight)
      && IsBestGrid(piecesCount, Target(imageWidth, imageHeight), Dims(r.value.cols, r.value.rows))
      && r.value.cols * r.value.rows == piecesCount
      && r.value.pieceSize * r.value.cols <= r.value.width
      && r.value.pieceSize * r.value.rows <= r.value.height
      && ((r.value.pieceSize + 1) * r.value.cols > r.value.width
          || (r.value.pieceSize + 1) * r.value.rows > r.value.height)
  {
    var w := BoardWidth(clientWidth);
    var h := BoardHeight(clientHeight);
    var g := BestGrid(piecesCount, imageWidth, imageHeight);
    if g.None? {
      r := None;
    } else {
      var size := PieceSize(w, h, g.value.cols, g.value.rows);
      r := Some(Layout(w, h, g.value.cols, g.value.rows, size));
    }
  }
}
