/**
 * Geometry and contents of the two image blits, OverlayImage (opaque copy)
 * and DrawImage (alpha compositing), on 4-byte buffers without row padding.
 * A destination of W x H pixels is 4W bytes per row; a source of sw x sh
 * pixels is 4sw bytes per row.
 */
module Blits {
  import opened Common
  import opened PixelOps

  /**
   * The clipped rectangle of a blit at (x, y): `cols` pixels of `rows` rows,
   * destination row y0 + r taking source row sy0 + r and destination column
   * x + c taking source column c.
   */
  datatype Clip = Clip(x: nat, y0: nat, sy0: nat, cols: int, rows: int)

  /** The clipping arithmetic of OverlayImage and DrawImage (for x >= 0 only: see README). */
  function ClipOf(dstW: nat, dstH: nat, srcW: nat, srcH: nat, x: nat, y: int): (k: Clip)
    ensures k.x == x && k.y0 == y + k.sy0
    ensures k.cols > 0 && k.rows > 0 ==> Fits(k, dstW, dstH, srcW, srcH)
  {
    var cut := if y < 0 then y else 0;
    var cols := srcW - (if x + srcW > dstW then x + srcW - dstW else 0);
    var rows := srcH + cut - (if y + srcH > dstH then y + srcH - dstH else 0);
    Clip(x, y - cut, -cut, cols, rows)
  }

  /** A non-empty rectangle that lies inside both images. */
  predicate Fits(k: Clip, dstW: nat, dstH: nat, srcW: nat, srcH: nat)
  {
    && k.cols > 0 && k.rows > 0
    && k.x + k.cols <= dstW && k.y0 + k.rows <= dstH
    && k.cols <= srcW && k.sy0 + k.rows <= srcH
  }

  /**
   * The clipped rectangle is exactly the set of source pixels whose target
   * lies inside the destination.
   */
  lemma ClipExact(dstW: nat, dstH: nat, srcW: nat, srcH: nat, x: nat, y: int, c: nat, r: nat)
    requires c < srcW && r < srcH
    ensures var k := ClipOf(dstW, dstH, srcW, srcH, x, y);
      (x + c < dstW && 0 <= y + r < dstH) <==> (c < k.cols && k.sy0 <= r < k.sy0 + k.rows)
  {
  }

  /** First byte of destination pixel (x + c, y0 + r). */
  function DstPixel(W: nat, k: Clip, r: nat, c: nat): nat
  {
    (k.y0 + r) * (4 * W) + 4 * (k.x + c)
  }

  /** First byte of source pixel (c, sy0 + r). */
  function SrcPixel(sw: nat, k: Clip, r: nat, c: nat): nat
  {
    (k.sy0 + r) * (4 * sw) + 4 * c
  }

  lemma PixelsInRange(W: nat, H: nat, sw: nat, sh: nat, k: Clip, r: nat, c: nat)
    requires Fits(k, W, H, sw, sh) && r < k.rows && c < k.cols
    ensures 0 <= DstPixel(W, k, r, c) && DstPixel(W, k, r, c) + 4 <= 4 * W * H
    ensures 0 <= SrcPixel(sw, k, r, c) && SrcPixel(sw, k, r, c) + 4 <= 4 * sw * sh
  {
    var dr, sr: nat := k.y0 + r, k.sy0 + r;
    MulLeftMono(dr + 1, H, 4 * W);
    MulLeftMono(sr + 1, sh, 4 * sw);
    assert (dr + 1) * (4 * W) == dr * (4 * W) + 4 * W;
    assert (sr + 1) * (4 * sw) == sr * (4 * sw) + 4 * sw;
    assert H * (4 * W) == 4 * W * H;
    assert sh * (4 * sw) == 4 * sw * sh;
  }

  /** Position of a byte inside the clipped rectangle: row r of it, byte t of that row. */
  datatype Slot = Slot(r: nat, t: nat)

  /** Where destination byte j lies in the rectangle, if it does. */
  function SlotOf(j: nat, W: nat, k: Clip): Option<Slot>
    requires W > 0
  {
    var row, col := j / (4 * W), j % (4 * W);
    if k.y0 <= row < k.y0 + k.rows && 4 * k.x <= col < 4 * (k.x + k.cols)
    then Some(Slot(row - k.y0, col - 4 * k.x))
    else None
  }

  lemma SlotOfAt(W: nat, k: Clip, r: nat, t: nat)
    requires W > 0 && k.x + k.cols <= W
    requires r < k.rows && t < 4 * k.cols
    ensures (k.y0 + r) * (4 * W) + 4 * k.x + t >= 0
    ensures SlotOf((k.y0 + r) * (4 * W) + 4 * k.x + t, W, k) == Some(Slot(r, t))
  {
    MulAddMod(k.y0 + r, 4 * W, 4 * k.x + t);
  }

  lemma SlotOfInverse(j: nat, W: nat, k: Clip)
    requires W > 0 && SlotOf(j, W, k).Some?
    ensures var s := SlotOf(j, W, k).value;
      s.r < k.rows && s.t < 4 * k.cols && j == (k.y0 + s.r) * (4 * W) + 4 * k.x + s.t
  {
  }

  /** `n` bytes of s from si copied over d from di (Array.Copy between distinct arrays). */
  function Spliced(d: seq<byte>, di: nat, s: seq<byte>, si: nat, n: nat): (r: seq<byte>)
    requires di + n <= |d| && si + n <= |s|
    ensures |r| == |d|
  {
    seq<byte>(|d|, j requires 0 <= j < |d| => if di <= j < di + n then s[si + j - di] else d[j])
  }

  // ---------------------------------------------------------------------
  // OverlayImage

  /** The destination after the first n rows of the rectangle are copied from the source. */
  function Blitted(dst: seq<byte>, W: nat, H: nat, src: seq<byte>, sw: nat, sh: nat, k: Clip, n: nat): (q: seq<byte>)
    requires |dst| == 4 * W * H && |src| == 4 * sw * sh && Fits(k, W, H, sw, sh) && n <= k.rows
    ensures |q| == |dst|
  {
    seq<byte>(|dst|, j requires 0 <= j < |dst| =>
      match SlotOf(j, W, k)
      case Some(s) =>
        if s.r < n then
          PixelsInRange(W, H, sw, sh, k, s.r, s.t / 4);
          src[SrcPixel(sw, k, s.r, s.t / 4) + s.t % 4]
        else dst[j]
      case None => dst[j])
  }

  /** Copying row n of the rectangle extends a blit of n rows to n + 1. */
  lemma BlitRowStep(dst: seq<byte>, W: nat, H: nat, src: seq<byte>, sw: nat, sh: nat, k: Clip, n: nat)
    requires |dst| == 4 * W * H && |src| == 4 * sw * sh && Fits(k, W, H, sw, sh) && n < k.rows
    ensures DstPixel(W, k, n, 0) + 4 * k.cols <= |dst| && SrcPixel(sw, k, n, 0) + 4 * k.cols <= |src|
    ensures Blitted(dst, W, H, src, sw, sh, k, n + 1)
         == Spliced(Blitted(dst, W, H, src, sw, sh, k, n), DstPixel(W, k, n, 0), src, SrcPixel(sw, k, n, 0), 4 * k.cols)
  {
    PixelsInRange(W, H, sw, sh, k, n, k.cols - 1);
    var di, si := DstPixel(W, k, n, 0), SrcPixel(sw, k, n, 0);
    var before := Blitted(dst, W, H, src, sw, sh, k, n);
    var after := Blitted(dst, W, H, src, sw, sh, k, n + 1);
    var spliced := Spliced(before, di, src, si, 4 * k.cols);
    forall j | 0 <= j < |dst| ensures after[j] == spliced[j] {
      if di <= j < di + 4 * k.cols {
        var t := j - di;
        SlotOfAt(W, k, n, t);
        assert SrcPixel(sw, k, n, t / 4) + t % 4 == si + t;
      } else if SlotOf(j, W, k).Some? {
        SlotOfInverse(j, W, k);
      }
    }
  }

  /** Every source pixel whose target is inside the destination is copied there. */
  lemma BlitCopiesVisible(dst: seq<byte>, W: nat, H: nat, src: seq<byte>, sw: nat, sh: nat,
                          x: nat, y: int, c: nat, r: nat, e: nat)
    requires |dst| == 4 * W * H && |src| == 4 * sw * sh && e < 4
    requires c < sw && r < sh && x + c < W && 0 <= y + r < H
    ensures var k := ClipOf(W, H, sw, sh, x, y);
      && Fits(k, W, H, sw, sh)
      && 0 <= (y + r) * (4 * W) + 4 * (x + c) + e < |dst|
      && 0 <= r * (4 * sw) + 4 * c + e < |src|
      && Blitted(dst, W, H, src, sw, sh, k, k.rows)[(y + r) * (4 * W) + 4 * (x + c) + e] == src[r * (4 * sw) + 4 * c + e]
  {
    var k := ClipOf(W, H, sw, sh, x, y);
    ClipExact(W, H, sw, sh, x, y, c, r);
    var rr: nat := r - k.sy0;
    PixelsInRange(W, H, sw, sh, k, rr, c);
    SlotOfAt(W, k, rr, 4 * c + e);
    assert (4 * c + e) / 4 == c && (4 * c + e) % 4 == e;
  }

  /** Bytes outside the target of the whole source image never change. */
  lemma BlitFrame(dst: seq<byte>, W: nat, H: nat, src: seq<byte>, sw: nat, sh: nat, x: nat, y: int, j: nat)
    requires |dst| == 4 * W * H && |src| == 4 * sw * sh && j < |dst|
    requires var k := ClipOf(W, H, sw, sh, x, y); k.cols > 0 && k.rows > 0
    requires var row, px := j / (4 * W), j % (4 * W) / 4; !(y <= row < y + sh && x <= px < x + sw)
    ensures var k := ClipOf(W, H, sw, sh, x, y); Blitted(dst, W, H, src, sw, sh, k, k.rows)[j] == dst[j]
  {
    var k := ClipOf(W, H, sw, sh, x, y);
    assert SlotOf(j, W, k).None?;
  }

  /** The bytes of row r of the rectangle lie inside both images. */
  lemma RowInRange(W: nat, H: nat, sw: nat, sh: nat, k: Clip, r: nat)
    requires Fits(k, W, H, sw, sh) && r < k.rows
    ensures DstPixel(W, k, r, 0) + 4 * k.cols <= 4 * W * H && SrcPixel(sw, k, r, 0) + 4 * k.cols <= 4 * sw * sh
  {
    PixelsInRange(W, H, sw, sh, k, r, k.cols - 1);
  }

  /**
   * An image blitted onto itself, its bytes read as an sw by sh source:
   * the image after the first n rows of the rectangle are copied, each row
   * read from the image as the earlier rows left it (one Array.Copy per
   * row, each within the one array).
   */
  function SelfBlitted(img: seq<byte>, W: nat, H: nat, sw: nat, sh: nat, k: Clip, n: nat): (q: seq<byte>)
    requires |img| == 4 * W * H == 4 * sw * sh && Fits(k, W, H, sw, sh) && n <= k.rows
    ensures |q| == |img|
  {
    if n == 0 then img
    else
      var p := SelfBlitted(img, W, H, sw, sh, k, n - 1);
      RowInRange(W, H, sw, sh, k, n - 1);
      Spliced(p, DstPixel(W, k, n - 1, 0), p, SrcPixel(sw, k, n - 1, 0), 4 * k.cols)
  }

  /**
   * An image blitted onto itself at its own width with no row moved down
   * (y <= 0) copies the image as it was: no row is overwritten before it
   * is read.
   */
  lemma {:induction false} SelfBlitUpward(img: seq<byte>, W: nat, H: nat, k: Clip, n: nat)
    requires |img| == 4 * W * H && Fits(k, W, H, W, H) && n <= k.rows && k.y0 <= k.sy0
    ensures SelfBlitted(img, W, H, W, H, k, n) == Blitted(img, W, H, img, W, H, k, n)
  {
    if n > 0 {
      SelfBlitUpward(img, W, H, k, n - 1);
      BlitRowStep(img, W, H, img, W, H, k, n - 1);
      var p := Blitted(img, W, H, img, W, H, k, n - 1);
      var di, si, len := DstPixel(W, k, n - 1, 0), SrcPixel(W, k, n - 1, 0), 4 * k.cols;
      forall j | si <= j < si + len ensures p[j] == img[j] {
        MulAddMod(k.sy0 + n - 1, 4 * W, j - si);
      }
      assert Spliced(p, di, p, si, len) == Spliced(p, di, img, si, len);
    }
  }

  // ---------------------------------------------------------------------
  // DrawImage

  /**
   * The pixels at destination byte d and source byte s have combined alpha
   * 0, that is, both have alpha 0: compositing them divides by zero.
   */
  predicate BothClear(dst: seq<byte>, d: nat, src: seq<byte>, s: nat)
  {
    d + 4 <= |dst| && s + 4 <= |src| && dst[d + ALPHA] == 0 && src[s + ALPHA] == 0
  }

  /** BothClear for pixel (r, c) of the rectangle. */
  predicate ClearPixel(dst: seq<byte>, W: nat, src: seq<byte>, sw: nat, k: Clip, r: nat, c: nat)
  {
    BothClear(dst, DstPixel(W, k, r, c), src, SrcPixel(sw, k, r, c))
  }

  /** Pixel (r, c) comes before pixel (dr, dc) in the row-major order of DrawImage's loops. */
  predicate Before(r: nat, c: nat, dr: nat, dc: nat)
  {
    r < dr || (r == dr && c < dc)
  }

  /** No pixel before (dr, dc) makes the compositing divide by zero. */
  predicate Composable(dst: seq<byte>, W: nat, H: nat, src: seq<byte>, sw: nat, sh: nat, k: Clip, dr: nat, dc: nat)
    requires |dst| == 4 * W * H && |src| == 4 * sw * sh && Fits(k, W, H, sw, sh)
  {
    forall r: nat, c: nat ::
      r < k.rows && c < k.cols && Before(r, c, dr, dc) ==> !ClearPixel(dst, W, src, sw, k, r, c)
  }

  /**
   * Byte j of the destination after every pixel of the rectangle before
   * (dr, dc) is composited.  A pixel of combined alpha 0 is left as it was:
   * DrawImage never gets past one (it divides by zero there), so this case
   * only fills in the function for pixels the method never reaches.
   */
  function CompositedByte(dst: seq<byte>, W: nat, H: nat, src: seq<byte>, sw: nat, sh: nat, k: Clip, dr: nat, dc: nat, j: nat): byte
    requires |dst| == 4 * W * H && |src| == 4 * sw * sh && Fits(k, W, H, sw, sh) && j < |dst|
  {
    match SlotOf(j, W, k)
    case Some(s) =>
      var d, sp := DstPixel(W, k, s.r, s.t / 4), SrcPixel(sw, k, s.r, s.t / 4);
      PixelsInRange(W, H, sw, sh, k, s.r, s.t / 4);
      if Before(s.r, s.t / 4, dr, dc) && !BothClear(dst, d, src, sp) then CompositeByte(dst, d, src, sp, s.t % 4)
      else dst[j]
    case None => dst[j]
  }

  /** The destination after every pixel of the rectangle before (dr, dc) is composited. */
  function Composited(dst: seq<byte>, W: nat, H: nat, src: seq<byte>, sw: nat, sh: nat, k: Clip, dr: nat, dc: nat): (q: seq<byte>)
    requires |dst| == 4 * W * H && |src| == 4 * sw * sh && Fits(k, W, H, sw, sh)
    ensures |q| == |dst|
  {
    seq<byte>(|dst|, j requires 0 <= j < |dst| => CompositedByte(dst, W, H, src, sw, sh, k, dr, dc, j))
  }

  /** Byte e of rectangle pixel (r, c) after the pixels before (dr, dc) are composited. */
  lemma CompositedAt(dst: seq<byte>, W: nat, H: nat, src: seq<byte>, sw: nat, sh: nat, k: Clip, dr: nat, dc: nat,
                     r: nat, c: nat, e: nat)
    requires |dst| == 4 * W * H && |src| == 4 * sw * sh && Fits(k, W, H, sw, sh)
    requires r < k.rows && c < k.cols && e < 4
    ensures 0 <= DstPixel(W, k, r, c) && DstPixel(W, k, r, c) + 4 <= |dst|
    ensures 0 <= SrcPixel(sw, k, r, c) && SrcPixel(sw, k, r, c) + 4 <= |src|
    ensures Composited(dst, W, H, src, sw, sh, k, dr, dc)[DstPixel(W, k, r, c) + e]
         == if Before(r, c, dr, dc) && !ClearPixel(dst, W, src, sw, k, r, c)
            then CompositeByte(dst, DstPixel(W, k, r, c), src, SrcPixel(sw, k, r, c), e)
            else dst[DstPixel(W, k, r, c) + e]
  {
    PixelsInRange(W, H, sw, sh, k, r, c);
    SlotOfAt(W, k, r, 4 * c + e);
    assert (4 * c + e) / 4 == c && (4 * c + e) % 4 == e;
    assert DstPixel(W, k, r, c) + e == (k.y0 + r) * (4 * W) + 4 * k.x + (4 * c + e);
  }

  /** Compositing pixel (r, c) extends the composite by that pixel's four bytes. */
  lemma CompositeStep(dst: seq<byte>, W: nat, H: nat, src: seq<byte>, sw: nat, sh: nat, k: Clip, r: nat, c: nat)
    requires |dst| == 4 * W * H && |src| == 4 * sw * sh && Fits(k, W, H, sw, sh)
    requires r < k.rows && c < k.cols
    requires !ClearPixel(dst, W, src, sw, k, r, c)
    ensures 0 <= DstPixel(W, k, r, c) && DstPixel(W, k, r, c) + 4 <= |dst|
    ensures 0 <= SrcPixel(sw, k, r, c) && SrcPixel(sw, k, r, c) + 4 <= |src|
    ensures var d, s := DstPixel(W, k, r, c), SrcPixel(sw, k, r, c);
      Composited(dst, W, H, src, sw, sh, k, r, c + 1)
      == Composited(dst, W, H, src, sw, sh, k, r, c)
           [d := CompositeByte(dst, d, src, s, 0)]
           [d + 1 := CompositeByte(dst, d, src, s, 1)]
           [d + 2 := CompositeByte(dst, d, src, s, 2)]
           [d + 3 := CompositeByte(dst, d, src, s, 3)]
  {
    PixelsInRange(W, H, sw, sh, k, r, c);
    var d, s := DstPixel(W, k, r, c), SrcPixel(sw, k, r, c);
    var before := Composited(dst, W, H, src, sw, sh, k, r, c);
    var after := Composited(dst, W, H, src, sw, sh, k, r, c + 1);
    var expected := before[d := CompositeByte(dst, d, src, s, 0)]
                          [d + 1 := CompositeByte(dst, d, src, s, 1)]
                          [d + 2 := CompositeByte(dst, d, src, s, 2)]
                          [d + 3 := CompositeByte(dst, d, src, s, 3)];
    forall j | 0 <= j < |dst| ensures after[j] == expected[j] {
      if d <= j < d + 4 {
        CompositedAt(dst, W, H, src, sw, sh, k, r, c + 1, r, c, j - d);
      } else {
        CompositeStepElsewhere(dst, W, H, src, sw, sh, k, r, c, j);
      }
    }
  }

  /** Moving past pixel (r, c) changes no byte outside that pixel. */
  lemma CompositeStepElsewhere(dst: seq<byte>, W: nat, H: nat, src: seq<byte>, sw: nat, sh: nat, k: Clip, r: nat, c: nat, j: nat)
    requires |dst| == 4 * W * H && |src| == 4 * sw * sh && Fits(k, W, H, sw, sh)
    requires r < k.rows && c < k.cols && j < |dst|
    requires !(DstPixel(W, k, r, c) <= j < DstPixel(W, k, r, c) + 4)
    ensures CompositedByte(dst, W, H, src, sw, sh, k, r, c + 1, j) == CompositedByte(dst, W, H, src, sw, sh, k, r, c, j)
  {
    if SlotOf(j, W, k).Some? {
      SlotOfInverse(j, W, k);
    }
  }

  /** Getting past a pixel that does not divide by zero extends the safe prefix by one pixel. */
  lemma ComposableStep(dst: seq<byte>, W: nat, H: nat, src: seq<byte>, sw: nat, sh: nat, k: Clip, r: nat, c: nat)
    requires |dst| == 4 * W * H && |src| == 4 * sw * sh && Fits(k, W, H, sw, sh)
    requires Composable(dst, W, H, src, sw, sh, k, r, c) && !ClearPixel(dst, W, src, sw, k, r, c)
    ensures Composable(dst, W, H, src, sw, sh, k, r, c + 1)
  {
    forall r': nat, c': nat | r' < k.rows && c' < k.cols && Before(r', c', r, c + 1)
      ensures !ClearPixel(dst, W, src, sw, k, r', c')
    {
      if r' != r || c' != c {
        assert Before(r', c', r, c);
      }
    }
  }

  /** The safe prefix up to the end of a row is the safe prefix up to the start of the next. */
  lemma ComposableNextRow(dst: seq<byte>, W: nat, H: nat, src: seq<byte>, sw: nat, sh: nat, k: Clip, r: nat)
    requires |dst| == 4 * W * H && |src| == 4 * sw * sh && Fits(k, W, H, sw, sh)
    ensures Composable(dst, W, H, src, sw, sh, k, r, k.cols) == Composable(dst, W, H, src, sw, sh, k, r + 1, 0)
  {
    assert forall r': nat, c': nat :: c' < k.cols ==> (Before(r', c', r, k.cols) <==> Before(r', c', r + 1, 0));
  }

  /** Finishing a row of the rectangle is the same as starting the next one. */
  lemma CompositeNextRow(dst: seq<byte>, W: nat, H: nat, src: seq<byte>, sw: nat, sh: nat, k: Clip, r: nat)
    requires |dst| == 4 * W * H && |src| == 4 * sw * sh && Fits(k, W, H, sw, sh)
    ensures Composited(dst, W, H, src, sw, sh, k, r, k.cols) == Composited(dst, W, H, src, sw, sh, k, r + 1, 0)
  {
    var a := Composited(dst, W, H, src, sw, sh, k, r, k.cols);
    var b := Composited(dst, W, H, src, sw, sh, k, r + 1, 0);
    forall j | 0 <= j < |dst| ensures a[j] == b[j] {
      if SlotOf(j, W, k).Some? {
        SlotOfInverse(j, W, k);
      }
    }
  }

  // ---------------------------------------------------------------------
  // DrawImage of an image onto itself

  /** (r, c) is a pixel of the rectangle, the end of one of its rows, or the end of the rectangle. */
  predicate Reached(k: Clip, r: nat, c: nat)
  {
    (r < k.rows && c <= k.cols) || (r == k.rows && c == 0)
  }

  /**
   * Pixel (r, c) of the rectangle composited within the image p: DrawImage
   * reads both pixels from p before it writes the target pixel.
   */
  function SelfCompositePixel(p: seq<byte>, W: nat, H: nat, sw: nat, sh: nat, k: Clip, r: nat, c: nat): (q: seq<byte>)
    requires |p| == 4 * W * H == 4 * sw * sh && Fits(k, W, H, sw, sh) && r < k.rows && c < k.cols
    requires !ClearPixel(p, W, p, sw, k, r, c)
    ensures |q| == |p|
  {
    PixelsInRange(W, H, sw, sh, k, r, c);
    var d, s := DstPixel(W, k, r, c), SrcPixel(sw, k, r, c);
    p[d := CompositeByte(p, d, p, s, 0)]
     [d + 1 := CompositeByte(p, d, p, s, 1)]
     [d + 2 := CompositeByte(p, d, p, s, 2)]
     [d + 3 := CompositeByte(p, d, p, s, 3)]
  }

  /**
   * An image composited onto itself, its bytes read as an sw by sh source:
   * the image once every pixel of the rectangle before (r, c) is
   * composited in row-major order, each pixel read as the earlier ones left
   * the image.  A pixel of combined alpha 0 is left as it was: DrawImage
   * stops there (see SelfComposable).
   */
  function SelfComposited(img: seq<byte>, W: nat, H: nat, sw: nat, sh: nat, k: Clip, r: nat, c: nat): (q: seq<byte>)
    requires |img| == 4 * W * H == 4 * sw * sh && Fits(k, W, H, sw, sh) && Reached(k, r, c)
    ensures |q| == |img|
    decreases r, c
  {
    if c > 0 then
      var p := SelfComposited(img, W, H, sw, sh, k, r, c - 1);
      if ClearPixel(p, W, p, sw, k, r, c - 1) then p else SelfCompositePixel(p, W, H, sw, sh, k, r, c - 1)
    else if r > 0 then SelfComposited(img, W, H, sw, sh, k, r - 1, k.cols)
    else img
  }

  /** DrawImage of an image onto itself gets past every pixel before (r, c) without dividing by zero. */
  predicate SelfComposable(img: seq<byte>, W: nat, H: nat, sw: nat, sh: nat, k: Clip, r: nat, c: nat)
    requires |img| == 4 * W * H == 4 * sw * sh && Fits(k, W, H, sw, sh) && Reached(k, r, c)
    decreases r, c
  {
    if c > 0 then
      var p := SelfComposited(img, W, H, sw, sh, k, r, c - 1);
      SelfComposable(img, W, H, sw, sh, k, r, c - 1) && !ClearPixel(p, W, p, sw, k, r, c - 1)
    else if r > 0 then SelfComposable(img, W, H, sw, sh, k, r - 1, k.cols)
    else true
  }

  /** Getting past every pixel before (r2, c2) gets past every pixel before an earlier (r1, c1). */
  lemma {:induction false} SelfComposablePrefix(img: seq<byte>, W: nat, H: nat, sw: nat, sh: nat, k: Clip,
                                                r1: nat, c1: nat, r2: nat, c2: nat)
    requires |img| == 4 * W * H == 4 * sw * sh && Fits(k, W, H, sw, sh) && Reached(k, r1, c1) && Reached(k, r2, c2)
    requires Before(r1, c1, r2, c2) || (r1 == r2 && c1 == c2)
    requires SelfComposable(img, W, H, sw, sh, k, r2, c2)
    ensures SelfComposable(img, W, H, sw, sh, k, r1, c1)
    decreases r2, c2
  {
    if r1 == r2 && c1 == c2 {
    } else if c2 > 0 {
      SelfComposablePrefix(img, W, H, sw, sh, k, r1, c1, r2, c2 - 1);
    } else {
      SelfComposablePrefix(img, W, H, sw, sh, k, r1, c1, r2 - 1, k.cols);
    }
  }

  /** A pixel that divides by zero stops DrawImage of an image onto itself before any later position. */
  lemma SelfClearBlocks(img: seq<byte>, W: nat, H: nat, sw: nat, sh: nat, k: Clip, r: nat, c: nat, dr: nat, dc: nat)
    requires |img| == 4 * W * H == 4 * sw * sh && Fits(k, W, H, sw, sh)
    requires r < k.rows && c < k.cols && Reached(k, dr, dc) && Before(r, c, dr, dc)
    requires var p := SelfComposited(img, W, H, sw, sh, k, r, c); ClearPixel(p, W, p, sw, k, r, c)
    ensures !SelfComposable(img, W, H, sw, sh, k, dr, dc)
  {
    if SelfComposable(img, W, H, sw, sh, k, dr, dc) {
      SelfComposablePrefix(img, W, H, sw, sh, k, r, c + 1, dr, dc);
    }
  }

  /**
   * The source rectangle starts at or after the target rectangle in the
   * image (a draw onto itself at an offset y * W + x <= 0), so the source
   * bytes of each pixel are never the target of an earlier pixel.
   */
  predicate Forward(k: Clip, W: nat)
  {
    k.y0 * W + k.x <= k.sy0 * W
  }

  /** The arithmetic of SourceAhead: a target byte at or after a source pixel is not that of an earlier pixel. */
  lemma TargetNotBefore(W: nat, k: Clip, r: nat, c: nat, sr: nat, t: nat, j: nat)
    requires k.x + k.cols <= W && Forward(k, W) && t < 4 * k.cols
    requires j == (k.y0 + sr) * (4 * W) + 4 * k.x + t && SrcPixel(W, k, r, c) <= j
    ensures !Before(sr, t / 4, r, c)
  {
    var m := 4 * W;
    var R, S := (k.y0 + r) * m, (k.sy0 + r) * m;
    assert R + 4 * k.x <= S by {
      assert R == 4 * (k.y0 * W) + r * m;
      assert S == 4 * (k.sy0 * W) + r * m;
    }
    if sr < r {
      assert (k.y0 + sr + 1) * m == (k.y0 + sr) * m + m;
      MulLeftMono(k.y0 + sr + 1, k.y0 + r, m);
    } else if sr == r {
      assert 4 * c <= t;
    }
  }

  /** In a forward draw onto itself, compositing the pixels before (r, c) leaves the source of (r, c) as it was. */
  lemma SourceAhead(img: seq<byte>, W: nat, H: nat, k: Clip, r: nat, c: nat, j: nat)
    requires |img| == 4 * W * H && Fits(k, W, H, W, H) && Forward(k, W)
    requires r < k.rows && c < k.cols && SrcPixel(W, k, r, c) <= j < SrcPixel(W, k, r, c) + 4
    ensures j < |img| && Composited(img, W, H, img, W, H, k, r, c)[j] == img[j]
  {
    PixelsInRange(W, H, W, H, k, r, c);
    if SlotOf(j, W, k).Some? {
      SlotOfInverse(j, W, k);
      var sl := SlotOf(j, W, k).value;
      TargetNotBefore(W, k, r, c, sl.r, sl.t, j);
    }
  }

  /** In a forward draw onto itself, the pixels before (r, c) leave both bytes that pixel (r, c) reads as they were. */
  lemma PixelUntouched(img: seq<byte>, W: nat, H: nat, k: Clip, r: nat, c: nat)
    requires |img| == 4 * W * H && Fits(k, W, H, W, H) && Forward(k, W) && r < k.rows && c < k.cols
    ensures DstPixel(W, k, r, c) + 4 <= |img| && SrcPixel(W, k, r, c) + 4 <= |img|
    ensures var p, d := Composited(img, W, H, img, W, H, k, r, c), DstPixel(W, k, r, c);
      forall j :: d <= j < d + 4 ==> p[j] == img[j]
    ensures var p, s := Composited(img, W, H, img, W, H, k, r, c), SrcPixel(W, k, r, c);
      forall j :: s <= j < s + 4 ==> p[j] == img[j]
  {
    var p, d, s := Composited(img, W, H, img, W, H, k, r, c), DstPixel(W, k, r, c), SrcPixel(W, k, r, c);
    PixelsInRange(W, H, W, H, k, r, c);
    forall j | d <= j < d + 4 ensures p[j] == img[j] {
      CompositedAt(img, W, H, img, W, H, k, r, c, r, c, j - d);
    }
    forall j | s <= j < s + 4 ensures p[j] == img[j] {
      SourceAhead(img, W, H, k, r, c, j);
    }
  }

  /** One pixel of SelfCompositeForward: both draws take pixel (r, c) from the same bytes. */
  lemma SelfForwardStep(img: seq<byte>, W: nat, H: nat, k: Clip, r: nat, c: nat)
    requires |img| == 4 * W * H && Fits(k, W, H, W, H) && Forward(k, W) && r < k.rows && c < k.cols
    requires SelfComposable(img, W, H, W, H, k, r, c) && Composable(img, W, H, img, W, H, k, r, c)
    requires SelfComposited(img, W, H, W, H, k, r, c) == Composited(img, W, H, img, W, H, k, r, c)
    ensures SelfComposable(img, W, H, W, H, k, r, c + 1) == Composable(img, W, H, img, W, H, k, r, c + 1)
    ensures SelfComposable(img, W, H, W, H, k, r, c + 1) ==>
              SelfComposited(img, W, H, W, H, k, r, c + 1) == Composited(img, W, H, img, W, H, k, r, c + 1)
  {
    var p := Composited(img, W, H, img, W, H, k, r, c);
    PixelUntouched(img, W, H, k, r, c);
    assert ClearPixel(p, W, p, W, k, r, c) == ClearPixel(img, W, img, W, k, r, c) by {
      var d, s := DstPixel(W, k, r, c), SrcPixel(W, k, r, c);
      assert p[d + ALPHA] == img[d + ALPHA] && p[s + ALPHA] == img[s + ALPHA];
    }
    if ClearPixel(img, W, img, W, k, r, c) {
      assert Before(r, c, r, c + 1);
    } else {
      ComposableStep(img, W, H, img, W, H, k, r, c);
      SelfForwardPixel(img, W, H, k, r, c);
    }
  }

  /** The pixel of SelfForwardStep that does not divide by zero: both composites write the same four bytes. */
  lemma SelfForwardPixel(img: seq<byte>, W: nat, H: nat, k: Clip, r: nat, c: nat)
    requires |img| == 4 * W * H && Fits(k, W, H, W, H) && Forward(k, W) && r < k.rows && c < k.cols
    requires !ClearPixel(img, W, img, W, k, r, c)
    requires var p := Composited(img, W, H, img, W, H, k, r, c); !ClearPixel(p, W, p, W, k, r, c)
    ensures SelfCompositePixel(Composited(img, W, H, img, W, H, k, r, c), W, H, W, H, k, r, c)
         == Composited(img, W, H, img, W, H, k, r, c + 1)
  {
    var p := Composited(img, W, H, img, W, H, k, r, c);
    var d, s := DstPixel(W, k, r, c), SrcPixel(W, k, r, c);
    PixelUntouched(img, W, H, k, r, c);
    CompositeStep(img, W, H, img, W, H, k, r, c);
    forall e | 0 <= e < 4 ensures CompositeByte(p, d, p, s, e) == CompositeByte(img, d, img, s, e) {
      assert p[d + e] == img[d + e] && p[s + e] == img[s + e];
      assert p[d + ALPHA] == img[d + ALPHA] && p[s + ALPHA] == img[s + ALPHA];
    }
  }

  /**
   * A forward draw of an image onto itself composites exactly as a draw
   * from an untouched copy of the image would: it stops at the same pixel
   * and, up to there, leaves the same image.
   */
  lemma {:induction false} SelfCompositeForward(img: seq<byte>, W: nat, H: nat, k: Clip, r: nat, c: nat)
    requires |img| == 4 * W * H && Fits(k, W, H, W, H) && Reached(k, r, c) && Forward(k, W)
    ensures SelfComposable(img, W, H, W, H, k, r, c) == Composable(img, W, H, img, W, H, k, r, c)
    ensures SelfComposable(img, W, H, W, H, k, r, c) ==>
              SelfComposited(img, W, H, W, H, k, r, c) == Composited(img, W, H, img, W, H, k, r, c)
    decreases r, c
  {
    if c > 0 {
      SelfCompositeForward(img, W, H, k, r, c - 1);
      if SelfComposable(img, W, H, W, H, k, r, c - 1) {
        SelfForwardStep(img, W, H, k, r, c - 1);
      }
    } else if r > 0 {
      SelfCompositeForward(img, W, H, k, r - 1, k.cols);
      ComposableNextRow(img, W, H, img, W, H, k, r - 1);
      CompositeNextRow(img, W, H, img, W, H, k, r - 1);
    } else {
      var a := Composited(img, W, H, img, W, H, k, 0, 0);
      forall j | 0 <= j < |img| ensures a[j] == img[j] {
      }
    }
  }
}
