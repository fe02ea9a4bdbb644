/**
 * The pixel arithmetic of the interactive image, as functions on the raw
 * byte sequence.  Bytes of a pixel are stored in the order blue, green,
 * red, alpha; a 4-byte buffer has no row padding, so its pixel k occupies
 * bytes 4k .. 4k+3.  Every bulk operation of the image class is proved to
 * leave its array equal to one of these functions of the old contents.
 */
module PixelOps {
  import opened Common

  const BLUE: nat := 0
  const GREEN: nat := 1
  const RED: nat := 2
  const ALPHA: nat := 3

  datatype Color = Color(a: byte, r: byte, g: byte, b: byte)

  datatype PixelFormat = Format32bppArgb | Format24bppRgb | Format8bppIndexed | OtherFormat(code: int)

  /** The byte of a colour stored at channel offset k of a pixel. */
  function ChannelOf(c: Color, k: nat): byte
    requires k < 4
  {
    if k == BLUE then c.b else if k == GREEN then c.g else if k == RED then c.r else c.a
  }

  /** Bytes per pixel of each format; any other format is unsupported. */
  function FormatBytes(f: PixelFormat): (r: Result<nat>)
    ensures r.Ok? <==> !f.OtherFormat?
    ensures r.Ok? ==> r.value in {1, 3, 4}
    ensures r == Ok(4) <==> f == Format32bppArgb
    ensures r == Ok(1) <==> f == Format8bppIndexed
  {
    match f
    case Format32bppArgb => Ok(4)
    case Format24bppRgb => Ok(3)
    case Format8bppIndexed => Ok(1)
    case OtherFormat(_) => Err(UnsupportedFormat)
  }

  /** Bytes added after each row so that a row ends on a 4-byte boundary. */
  function Padding(width: nat, bpp: nat): (r: nat)
    ensures r < 4 && (width * bpp + r) % 4 == 0
    ensures r == 0 <==> (width * bpp) % 4 == 0
  {
    (4 - (width * bpp) % 4) % 4
  }

  lemma FourBytesNeedNoPadding(width: nat)
    ensures Padding(width, 4) == 0
  {
    assert (width * 4) % 4 == 0;
  }

  /** The size of the pixel array: padded rows times height. */
  function StorageLength(width: nat, height: nat, bpp: nat): nat
  {
    width * bpp * height + height * Padding(width, bpp)
  }

  lemma StorageLengthIsPaddedRows(width: nat, height: nat, bpp: nat)
    ensures StorageLength(width, height, bpp) == height * (width * bpp + Padding(width, bpp))
    ensures StorageLength(width, height, bpp) % 4 == 0
  {
    var stride := width * bpp + Padding(width, bpp);
    assert width * bpp * height + height * Padding(width, bpp) == height * stride;
    var m := stride / 4;
    assert stride == m * 4;
    assert height * stride == (height * m) * 4;
  }

  /** A 4-byte buffer is exactly 4 bytes per pixel. */
  lemma StorageLength4(width: nat, height: nat)
    ensures StorageLength(width, height, 4) == 4 * width * height
  {
    FourBytesNeedNoPadding(width);
  }

  /** Every buffer is a whole number of 4-byte words, and a 4-byte buffer has no padding. */
  lemma StorageFacts(width: nat, height: nat, bpp: nat)
    requires width > 0 && height > 0 && bpp > 0
    ensures StorageLength(width, height, bpp) % 4 == 0 && StorageLength(width, height, bpp) >= 4
    ensures bpp == 4 ==> StorageLength(width, height, bpp) == 4 * width * height
  {
    StorageLengthIsPaddedRows(width, height, bpp);
    StorageLength4(width, height);
    var stride := width * bpp + Padding(width, bpp);
    MulAtLeast(width, bpp);
    MulAtLeast(height, stride);
  }

  /** C#'s `%` by a positive divisor, which keeps the sign of the dividend. */
  function CRem(a: int, d: int): (r: int)
    requires d > 0
    ensures a >= 0 ==> 0 <= r < d
    ensures a < 0 ==> -d < r <= 0
  {
    if a >= 0 then a % d else -((-a) % d)
  }

  /**
   * The array length the image constructor computes from an int width and
   * height, before it allocates: row bytes plus padding, times the height.
   */
  function SignedStorageLength(w: int, h: int, bpp: nat): int
  {
    var line := w * bpp;
    line * h + h * ((4 - CRem(line, 4)) % 4)
  }

  /**
   * For a size that is not negative this is the storage length.  It is
   * negative exactly when the row bytes and the height pull opposite ways:
   * a positive height with at least 4 negative row bytes (a padded row of
   * fewer rounds to 0), or a negative height with positive row bytes.
   */
  lemma SignedStorageLengthSign(w: int, h: int, bpp: nat)
    ensures w >= 0 && h >= 0 ==> SignedStorageLength(w, h, bpp) == StorageLength(w, h, bpp)
    ensures SignedStorageLength(w, h, bpp) < 0 <==> (h > 0 && w * bpp <= -4) || (h < 0 && w * bpp > 0)
  {
    var line := w * bpp;
    var stride := line + (4 - CRem(line, 4)) % 4;
    assert SignedStorageLength(w, h, bpp) == h * stride;
    if line > 0 {
      assert stride > 0;
    } else if line <= -4 {
      assert (4 - CRem(line, 4)) % 4 == (-line) % 4;
      assert stride < 0;
    } else {
      assert stride == 0;
    }
    if h > 0 && stride != 0 {
      MulAtLeast(h, if stride > 0 then stride else -stride);
    } else if h < 0 && stride != 0 {
      MulAtLeast(-h, if stride > 0 then stride else -stride);
    }
  }

  /** Bytes strictly between two stops of a strided loop are not visited. */
  lemma StrideGap(i: nat, j: nat, offset: nat, stride: nat)
    requires stride > 0 && OnStride(i, offset, stride) && i < j < i + stride
    ensures !OnStride(j, offset, stride)
  {
    SlotOfByte(i - offset, j - i, stride);
  }

  /** A 1-byte buffer is a mask: any non-black colour is stored as 255, black as 0. */
  function Mask(c: Color): (r: byte)
    ensures r == 0 || r == 255
    ensures r == 0 <==> c.r == 0 && c.g == 0 && c.b == 0
  {
    if c.r > 0 || c.g > 0 || c.b > 0 then 255 else 0
  }

  // ---------------------------------------------------------------------
  // Single pixels

  /** Where GetPixel and SetPixel look for pixel (x, y): rows are taken to be width*bpp bytes long. */
  function UnpaddedIndex(x: nat, y: nat, width: nat, bpp: nat): nat
  {
    bpp * x + y * (width * bpp)
  }

  /** Where the 8-bit setters look for pixel (x, y): rows include their padding. */
  function PaddedIndex(x: nat, y: nat, width: nat, bpp: nat): nat
  {
    UnpaddedIndex(x, y, width, bpp) + Padding(width, bpp) * y
  }

  /** Every in-bounds pixel lies wholly inside the padded storage. */
  lemma PaddedIndexInRange(x: nat, y: nat, width: nat, height: nat, bpp: nat)
    requires x < width && y < height
    ensures PaddedIndex(x, y, width, bpp) + bpp <= StorageLength(width, height, bpp)
  {
    var pad := Padding(width, bpp);
    var row := width * bpp;
    var stride := row + pad;
    StorageLengthIsPaddedRows(width, height, bpp);
    MulLeftMono(x + 1, width, bpp);
    MulSucc(x, bpp);
    MulComm(bpp, x);
    MulLeftMono(y + 1, height, stride);
    MulSucc(y, stride);
    MulDistrib(y, row, pad);
    MulComm(pad, y);
    assert PaddedIndex(x, y, width, bpp) == x * bpp + y * stride;
  }

  /** The unpadded index of an in-bounds pixel is never past its padded index, so it is in range too. */
  lemma UnpaddedIndexInRange(x: nat, y: nat, width: nat, height: nat, bpp: nat)
    requires x < width && y < height
    ensures UnpaddedIndex(x, y, width, bpp) <= PaddedIndex(x, y, width, bpp)
    ensures UnpaddedIndex(x, y, width, bpp) + bpp <= StorageLength(width, height, bpp)
  {
    PaddedIndexInRange(x, y, width, height, bpp);
  }

  /** On a 4-byte buffer, two different in-bounds pixels occupy disjoint bytes. */
  lemma DistinctPixelsDisjoint(x: nat, y: nat, x': nat, y': nat, width: nat)
    requires x < width && x' < width && (x, y) != (x', y')
    ensures UnpaddedIndex(x, y, width, 4) + 4 <= UnpaddedIndex(x', y', width, 4)
         || UnpaddedIndex(x', y', width, 4) + 4 <= UnpaddedIndex(x, y, width, 4)
  {
    var k, k' := y * width + x, y' * width + x';
    assert UnpaddedIndex(x, y, width, 4) == 4 * k by {
      assert y * (width * 4) == 4 * (y * width);
    }
    assert UnpaddedIndex(x', y', width, 4) == 4 * k' by {
      assert y' * (width * 4) == 4 * (y' * width);
    }
    if y < y' {
      MulLeftMono(y + 1, y', width);
    } else if y' < y {
      MulLeftMono(y' + 1, y, width);
    }
    assert k != k';
  }

  /** The colour GetPixel reads at byte i: four bytes with alpha, or three with alpha 255. */
  function ReadPixel(p: seq<byte>, i: nat, bpp: nat): (r: Result<Color>)
    ensures r.Err? <==> i + (if bpp == 4 then 3 else 2) >= |p|
    ensures r.Ok? && bpp != 4 ==> r.value.a == 255
    ensures r.Ok? ==> r.value.b == p[i] && r.value.g == p[i + 1] && r.value.r == p[i + 2]
  {
    if bpp == 4 then
      if i + 3 < |p| then Ok(Color(p[i + 3], p[i + 2], p[i + 1], p[i])) else Err(IndexOutOfRange)
    else
      if i + 2 < |p| then Ok(Color(255, p[i + 2], p[i + 1], p[i])) else Err(IndexOutOfRange)
  }

  /** SetPixel's writes on a 3- or 4-byte buffer: blue, green, red and, with 4 bytes, alpha. */
  function WrittenPixel(p: seq<byte>, i: nat, bpp: nat, c: Color): (r: seq<byte>)
    requires bpp in {3, 4} && i + bpp <= |p|
    ensures |r| == |p|
    ensures forall j :: 0 <= j < |p| && !(i <= j < i + bpp) ==> r[j] == p[j]
  {
    var q := p[i := c.b][i + 1 := c.g][i + 2 := c.r];
    if bpp == 4 then q[i + 3 := c.a] else q
  }

  /** Reading back a written pixel gives the colour written (alpha read as 255 without an alpha byte). */
  lemma ReadAfterWrite(p: seq<byte>, i: nat, bpp: nat, c: Color)
    requires bpp in {3, 4} && i + bpp <= |p|
    ensures ReadPixel(WrittenPixel(p, i, bpp, c), i, bpp) == Ok(if bpp == 4 then c else c.(a := 255))
  {
  }

  // ---------------------------------------------------------------------
  // Single-channel loops: every byte at offset, offset + stride, ... < |p|

  /** True when byte j is visited by a loop `for (i = offset; i < n; i += stride)`. */
  predicate OnStride(j: int, offset: nat, stride: nat)
    requires stride > 0
  {
    j >= offset && SlotStart(j - offset, stride)
  }

  /** Every visited byte set to v (RemoveRed/Green/Blue/Alpha, SetAlpha). */
  function FilledChannel(p: seq<byte>, offset: nat, stride: nat, v: byte): seq<byte>
    requires stride > 0
  {
    seq<byte>(|p|, j requires 0 <= j < |p| => if OnStride(j, offset, stride) then v else p[j])
  }

  /** Channel k of every 4-byte pixel moved by shift and saturated to [0, 255]. */
  function Shifted(p: seq<byte>, k: nat, shift: int): seq<byte>
    requires k < 4
  {
    seq<byte>(|p|, j requires 0 <= j < |p| => if j % 4 == k then Clamp(p[j] + shift) else p[j])
  }

  /** Shifting back restores every channel value that did not saturate. */
  lemma ShiftBackRestores(p: seq<byte>, k: nat, shift: int)
    requires k < 4
    requires forall j :: 0 <= j < |p| && j % 4 == k ==> 0 <= p[j] + shift <= 255
    ensures Shifted(Shifted(p, k, shift), k, -shift) == p
  {
    var q := Shifted(Shifted(p, k, shift), k, -shift);
    forall j | 0 <= j < |p| ensures q[j] == p[j] {
      if j % 4 == k {
        assert Shifted(p, k, shift)[j] == p[j] + shift;
      }
    }
  }

  /** Saturation: a shift never leaves the byte range and never moves a channel the other way. */
  lemma ShiftedSaturates(p: seq<byte>, k: nat, shift: int, j: nat)
    requires k < 4 && j < |p| && j % 4 == k
    ensures shift >= 0 ==> Shifted(p, k, shift)[j] == if p[j] + shift > 255 then 255 else p[j] + shift
    ensures shift <= 0 ==> Shifted(p, k, shift)[j] == if p[j] + shift < 0 then 0 else p[j] + shift
    ensures shift >= 0 ==> p[j] <= Shifted(p, k, shift)[j]
    ensures shift <= 0 ==> Shifted(p, k, shift)[j] <= p[j]
  {
  }

  // ---------------------------------------------------------------------
  // Slots: a loop `for (i = 0; i < n; i += bpp)` cuts the buffer into slots
  // of bpp bytes, each starting at a multiple of bpp.

  /** The start of the slot of width bpp holding byte j. */
  function SlotBase(j: nat, bpp: nat): (b: nat)
    requires bpp > 0
    ensures b <= j < b + bpp
  {
    if j < bpp then 0 else SlotBase(j - bpp, bpp) + bpp
  }

  /** True when a slot starts at byte i. */
  predicate SlotStart(i: nat, bpp: nat)
    requires bpp > 0
  {
    SlotBase(i, bpp) == i
  }

  /** The slot start is the largest multiple of bpp not above j. */
  lemma {:induction false} SlotBaseIsDiv(j: nat, bpp: nat)
    requires bpp > 0
    ensures SlotBase(j, bpp) == (j / bpp) * bpp && j - SlotBase(j, bpp) == j % bpp
  {
    if j < bpp {
      DivModUnique(j, bpp, 0, j);
    } else {
      SlotBaseIsDiv(j - bpp, bpp);
      var q, r := (j - bpp) / bpp, (j - bpp) % bpp;
      assert (q + 1) * bpp == q * bpp + bpp;
      DivModUnique(j, bpp, q + 1, r);
    }
  }

  lemma SlotStartIsMultiple(i: nat, bpp: nat)
    requires bpp > 0
    ensures SlotStart(i, bpp) <==> i % bpp == 0
  {
    SlotBaseIsDiv(i, bpp);
  }

  /** Byte e of the slot starting at i lies in that slot. */
  lemma {:induction false} SlotOfByte(i: nat, e: nat, bpp: nat)
    requires bpp > 0 && SlotStart(i, bpp) && e < bpp
    ensures SlotBase(i + e, bpp) == i
  {
    if i >= bpp {
      SlotOfByte(i - bpp, e, bpp);
    }
  }

  /** Every slot base is itself a slot start. */
  lemma {:induction false} SlotBaseIsStart(j: nat, bpp: nat)
    requires bpp > 0
    ensures SlotStart(SlotBase(j, bpp), bpp)
  {
    if j >= bpp {
      SlotBaseIsStart(j - bpp, bpp);
    }
  }

  /** Every multiple of the slot size starts a slot. */
  lemma {:induction false} SlotStartTimes(k: nat, bpp: nat)
    requires bpp > 0
    ensures SlotStart(k * bpp, bpp)
  {
    if k > 0 {
      SlotStartTimes(k - 1, bpp);
      assert k * bpp == (k - 1) * bpp + bpp;
    }
  }

  /** Slots never straddle a slot start i. */
  lemma SlotBounds(j: nat, i: nat, bpp: nat)
    requires bpp > 0 && SlotStart(i, bpp)
    ensures j < i ==> SlotBase(j, bpp) + bpp <= i
    ensures j >= i ==> SlotBase(j, bpp) >= i
  {
    var b := SlotBase(j, bpp);
    SlotBaseIsStart(j, bpp);
    if b < i < b + bpp {
      SlotOfByte(b, i - b, bpp);
    }
  }

  /** The slot holding the end n of a buffer whose last slot starts at i. */
  lemma TailBase(i: nat, n: nat, bpp: nat)
    requires bpp > 0 && SlotStart(i, bpp) && i <= n <= i + bpp
    ensures SlotBase(n, bpp) == if n == i + bpp then n else i
  {
    if n < i + bpp {
      SlotOfByte(i, n - i, bpp);
    } else {
      SlotOfByte(i, 0, bpp);
    }
  }

  /** The buffer ends with an incomplete slot of one or two bytes. */
  predicate ShortTail(n: nat, bpp: nat)
    requires bpp > 0
  {
    0 < n - SlotBase(n, bpp) < 3
  }

  lemma ShortTailIsMod(n: nat, bpp: nat)
    requires bpp > 0
    ensures ShortTail(n, bpp) <==> 0 < n % bpp < 3
  {
    SlotBaseIsDiv(n, bpp);
  }

  /** Only a 3-byte buffer can end short: every buffer length is a multiple of 4. */
  lemma ShortTailOfFormat(n: nat, bpp: nat)
    requires bpp in {3, 4} && n % 4 == 0
    ensures ShortTail(n, bpp) <==> bpp == 3 && n % 3 != 0
  {
    ShortTailIsMod(n, bpp);
  }

  /** A one-colour table matches exactly when its colour does. */
  lemma FirstMatchSingle(from: Color, b: byte, g: byte, r: byte)
    ensures FirstMatch([from], b, g, r) == if from.b == b && from.g == g && from.r == r then Some(0) else None
  {
  }

  /** Between two slot starts i < n lies at least one whole slot. */
  lemma NextSlot(i: nat, n: nat, bpp: nat)
    requires bpp > 0 && SlotStart(i, bpp) && SlotStart(n, bpp) && i < n
    ensures i + bpp <= n && SlotStart(i + bpp, bpp)
  {
    SlotBounds(i, n, bpp);
  }

  // ---------------------------------------------------------------------
  // Whole-pixel operations on 4-byte buffers

  /** Pixels whose blue, green and red equal c get alpha 0 (SetTransparent). */
  function Transparent(p: seq<byte>, c: Color): seq<byte>
  {
    seq<byte>(|p|, j requires 0 <= j < |p| =>
      var i: nat := SlotBase(j, 4);
      if j - i == ALPHA && p[i] == c.b && p[i + 1] == c.g && p[i + 2] == c.r then 0 else p[j])
  }

  lemma TransparentIdempotent(p: seq<byte>, c: Color)
    ensures Transparent(Transparent(p, c), c) == Transparent(p, c)
  {
    var t := Transparent(p, c);
    forall j | 0 <= j < |p| ensures Transparent(t, c)[j] == t[j] {
      var i: nat := SlotBase(j, 4);
      if j - i == ALPHA {
        SlotBaseIsStart(j, 4);
        SlotOfByte(i, 0, 4);
        SlotOfByte(i, 1, 4);
        SlotOfByte(i, 2, 4);
        assert t[i] == p[i] && t[i + 1] == p[i + 1] && t[i + 2] == p[i + 2];
      }
    }
  }

  /** Blue, green and red replaced by 255 minus their value; alpha kept. */
  function Inverted(p: seq<byte>): seq<byte>
  {
    seq<byte>(|p|, j requires 0 <= j < |p| => if j % 4 == ALPHA then p[j] else 255 - p[j])
  }

  lemma {:induction false} InvertedInvolution(p: seq<byte>)
    ensures Inverted(Inverted(p)) == p
  {
    var q := Inverted(Inverted(p));
    forall j | 0 <= j < |p| ensures q[j] == p[j] {
      var once := Inverted(p);
      assert once[j] == if j % 4 == ALPHA then p[j] else 255 - p[j];
    }
  }

  /** Whole pixels equal to `from` (all four bytes) become `to` (ChangeColor on a 4-byte buffer). */
  function Recolored4(p: seq<byte>, from: Color, to: Color): seq<byte>
  {
    seq<byte>(|p|, j requires 0 <= j < |p| =>
      var i: nat := SlotBase(j, 4);
      if i + 4 <= |p| && PixelIs(p, i, from) then ChannelOf(to, j - i) else p[j])
  }

  predicate PixelIs(p: seq<byte>, i: nat, c: Color)
    requires i + 4 <= |p|
  {
    p[i] == c.b && p[i + 1] == c.g && p[i + 2] == c.r && p[i + 3] == c.a
  }

  /** The four bytes of a colour in storage order. */
  function PixelBytes(c: Color): (r: seq<byte>)
    ensures |r| == 4 && forall e :: 0 <= e < 4 ==> r[e] == ChannelOf(c, e)
  {
    [c.b, c.g, c.r, c.a]
  }

  /** The pixel at slot start i after a replacement: `to` if it was `from`, unchanged otherwise. */
  lemma Recolored4Pixel(p: seq<byte>, from: Color, to: Color, i: nat, e: nat)
    requires SlotStart(i, 4) && i + 4 <= |p| && e < 4
    ensures Recolored4(p, from, to)[i + e] == if PixelIs(p, i, from) then ChannelOf(to, e) else p[i + e]
  {
    SlotOfByte(i, e, 4);
  }

  /** Replacing a pixel twice gives the same pixel as replacing it once. */
  lemma Recolored4PixelTwice(p: seq<byte>, from: Color, to: Color, i: nat, e: nat)
    requires SlotStart(i, 4) && i + 4 <= |p| && e < 4
    ensures Recolored4(Recolored4(p, from, to), from, to)[i + e] == Recolored4(p, from, to)[i + e]
  {
    var once := Recolored4(p, from, to);
    Recolored4Pixel(p, from, to, i, 0);
    Recolored4Pixel(p, from, to, i, 1);
    Recolored4Pixel(p, from, to, i, 2);
    Recolored4Pixel(p, from, to, i, 3);
    Recolored4Pixel(p, from, to, i, e);
    Recolored4Pixel(once, from, to, i, e);
  }

  /** After a replacement no pixel still has the replaced colour, so repeating it changes nothing. */
  lemma Recolored4Idempotent(p: seq<byte>, from: Color, to: Color)
    ensures Recolored4(Recolored4(p, from, to), from, to) == Recolored4(p, from, to)
  {
    var once := Recolored4(p, from, to);
    forall j | 0 <= j < |p| ensures Recolored4(once, from, to)[j] == once[j] {
      var i: nat := SlotBase(j, 4);
      if i + 4 <= |p| {
        SlotBaseIsStart(j, 4);
        Recolored4PixelTwice(p, from, to, i, j - i);
      }
    }
  }

  /** Pixel k takes the bytes of pixel n-1-k (Rotate180 on a 4-byte buffer). */
  function Rotated180(p: seq<byte>): seq<byte>
  {
    seq<byte>(|p|, j requires 0 <= j < |p| =>
      var i: nat := SlotBase(j, 4);
      if i + 4 <= |p| then p[|p| - 4 - i + (j - i)] else p[j])
  }

  lemma Rotated180Pixel(p: seq<byte>, i: nat, e: nat)
    requires SlotStart(i, 4) && i + 4 <= |p| && e < 4
    ensures Rotated180(p)[i + e] == p[|p| - 4 - i + e]
  {
    SlotOfByte(i, e, 4);
  }

  lemma Rotated180Involution(p: seq<byte>)
    requires |p| % 4 == 0
    ensures Rotated180(Rotated180(p)) == p
  {
    forall j | 0 <= j < |p| ensures Rotated180(Rotated180(p))[j] == p[j] {
      Rotated180Twice(p, j);
    }
  }

  lemma Rotated180Twice(p: seq<byte>, j: nat)
    requires |p| % 4 == 0 && j < |p|
    ensures Rotated180(Rotated180(p))[j] == p[j]
  {
    var once := Rotated180(p);
    SlotStartIsMultiple(|p|, 4);
    var i: nat := SlotBase(j, 4);
    SlotBaseIsStart(j, 4);
    SlotBounds(j, |p|, 4);
    var i' := |p| - 4 - i;
    SlotStartIsMultiple(i, 4);
    SlotStartIsMultiple(i', 4);
    Rotated180Pixel(p, i', j - i);
    Rotated180Pixel(once, i, j - i);
  }

  // ---------------------------------------------------------------------
  // Slot-wise operations over any stride that touch bytes i, i+1 and i+2
  // of each slot.

  /** Byte e of a slot starting at i whose colour bytes all lie below n. */
  lemma ColourOfSlotAt(n: nat, i: nat, e: nat, bpp: nat)
    requires bpp > 0 && SlotStart(i, bpp) && e < bpp && i + 2 < n
    ensures SlotBase(i + e, bpp) == i
    ensures InColourOfSlot(n, i + e, bpp) <==> e < 3
  {
    SlotOfByte(i, e, bpp);
  }

  /** From a slot start i with fewer than three bytes left, no byte is a colour byte of a complete slot. */
  lemma PastLastSlot(n: nat, i: nat, j: nat, bpp: nat)
    requires bpp > 0 && SlotStart(i, bpp) && n <= i + 2 && i <= j
    ensures !InColourOfSlot(n, j, bpp)
  {
    SlotBounds(j, i, bpp);
  }

  /** True when byte j is one of the three colour bytes of a slot whose colour bytes lie inside the buffer. */
  predicate InColourOfSlot(n: nat, j: nat, bpp: nat)
    requires bpp > 0
  {
    j - SlotBase(j, bpp) < 3 && SlotBase(j, bpp) + 2 < n
  }

  function GrayLevel(b: byte, g: byte, r: byte): (v: byte)
    ensures 3 * v <= b + g + r < 3 * v + 3
  {
    (b + g + r) / 3
  }

  /** Blue, green and red of every complete slot set to their integer mean (SetAsGrayScale). */
  function Grayed(p: seq<byte>, bpp: nat): seq<byte>
    requires bpp > 0
  {
    seq<byte>(|p|, j requires 0 <= j < |p| =>
      var i: nat := SlotBase(j, bpp);
      if InColourOfSlot(|p|, j, bpp) then GrayLevel(p[i], p[i + 1], p[i + 2]) else p[j])
  }

  /** The colour bytes of a complete slot all become the slot's gray level. */
  lemma GrayedSlot(p: seq<byte>, bpp: nat, i: nat, j: nat)
    requires bpp >= 3 && SlotStart(i, bpp) && i + 2 < |p| && i <= j < i + bpp && j < |p|
    ensures Grayed(p, bpp)[j] == if j - i < 3 then GrayLevel(p[i], p[i + 1], p[i + 2]) else p[j]
  {
    ColourOfSlotAt(|p|, i, j - i, bpp);
    assert i + (j - i) == j;
    assert SlotBase(j, bpp) == i;
    if j - i < 3 {
      assert InColourOfSlot(|p|, j, bpp);
    } else {
      assert !InColourOfSlot(|p|, j, bpp);
    }
  }

  lemma GrayedByteTwice(p: seq<byte>, bpp: nat, j: nat)
    requires bpp >= 3 && j < |p|
    ensures Grayed(Grayed(p, bpp), bpp)[j] == Grayed(p, bpp)[j]
  {
    var once := Grayed(p, bpp);
    if InColourOfSlot(|p|, j, bpp) {
      var i: nat := SlotBase(j, bpp);
      SlotBaseIsStart(j, bpp);
      var v := GrayLevel(p[i], p[i + 1], p[i + 2]);
      GrayedSlot(p, bpp, i, i);
      GrayedSlot(p, bpp, i, i + 1);
      GrayedSlot(p, bpp, i, i + 2);
      assert once[i] == v && once[i + 1] == v && once[i + 2] == v;
      assert GrayLevel(v, v, v) == v;
      GrayedSlot(p, bpp, i, j);
      GrayedSlot(once, bpp, i, j);
    }
  }

  /** Graying a gray buffer changes nothing. */
  lemma GrayedIdempotent(p: seq<byte>, bpp: nat)
    requires bpp >= 3
    ensures Grayed(Grayed(p, bpp), bpp) == Grayed(p, bpp)
  {
    forall j | 0 <= j < |p| ensures Grayed(Grayed(p, bpp), bpp)[j] == Grayed(p, bpp)[j] {
      GrayedByteTwice(p, bpp, j);
    }
  }

  /** Colour c has blue b, green g and red r (alpha is not compared). */
  predicate SameColour(c: Color, b: byte, g: byte, r: byte)
  {
    c.b == b && c.g == g && c.r == r
  }

  /** Index of the first colour of `from` whose blue, green and red match. */
  function FirstMatch(from: seq<Color>, b: byte, g: byte, r: byte): (m: Option<nat>)
    ensures m.Some? ==> m.value < |from| && SameColour(from[m.value], b, g, r)
    ensures m.Some? ==> forall t :: 0 <= t < m.value ==> !SameColour(from[t], b, g, r)
    ensures m.None? ==> forall t :: 0 <= t < |from| ==> !SameColour(from[t], b, g, r)
  {
    MatchFrom(from, 0, b, g, r)
  }

  /** The first match at index k or later. */
  function MatchFrom(from: seq<Color>, k: nat, b: byte, g: byte, r: byte): (m: Option<nat>)
    requires k <= |from|
    ensures m.Some? ==> k <= m.value < |from| && SameColour(from[m.value], b, g, r)
    ensures m.Some? ==> forall t :: k <= t < m.value ==> !SameColour(from[t], b, g, r)
    ensures m.None? ==> forall t :: k <= t < |from| ==> !SameColour(from[t], b, g, r)
    decreases |from| - k
  {
    if k == |from| then None
    else if SameColour(from[k], b, g, r) then Some(k)
    else MatchFrom(from, k + 1, b, g, r)
  }

  /**
   * Blue, green and red of every complete slot replaced by the partner of the
   * first matching colour (ChangeColors); alpha is never compared or written.
   */
  function RecoloredMany(p: seq<byte>, bpp: nat, from: seq<Color>, to: seq<Color>): seq<byte>
    requires bpp > 0 && |from| == |to|
  {
    seq<byte>(|p|, j requires 0 <= j < |p| =>
      var i: nat := SlotBase(j, bpp);
      if InColourOfSlot(|p|, j, bpp) then MatchedChannel(from, to, p[i], p[i + 1], p[i + 2], p[j], j - i)
      else p[j])
  }

  /** Channel e of the partner of the first colour matching (b, g, r), or `keep` when none matches. */
  function MatchedChannel(from: seq<Color>, to: seq<Color>, b: byte, g: byte, r: byte, keep: byte, e: nat): byte
    requires |from| == |to| && e < 4
  {
    match FirstMatch(from, b, g, r)
    case Some(m) => ChannelOf(to[m], e)
    case None => keep
  }

  /** Byte j of a slot starting at i whose colour bytes lie inside the buffer, given the slot's match m. */
  lemma RecoloredManySlot(p: seq<byte>, bpp: nat, from: seq<Color>, to: seq<Color>, i: nat, j: nat, m: Option<nat>)
    requires bpp > 0 && |from| == |to| && SlotStart(i, bpp) && i + 2 < |p| && i <= j < i + bpp && j < |p|
    requires m == FirstMatch(from, p[i], p[i + 1], p[i + 2])
    ensures RecoloredMany(p, bpp, from, to)[j] == if j - i < 3 && m.Some? then ChannelOf(to[m.value], j - i) else p[j]
  {
    ColourOfSlotAt(|p|, i, j - i, bpp);
    assert i + (j - i) == j;
    assert SlotBase(j, bpp) == i;
    var q := RecoloredMany(p, bpp, from, to);
    if j - i < 3 {
      assert InColourOfSlot(|p|, j, bpp);
      assert q[j] == MatchedChannel(from, to, p[i], p[i + 1], p[i + 2], p[j], j - i);
    } else {
      assert !InColourOfSlot(|p|, j, bpp);
      assert q[j] == p[j];
    }
  }

  /** With an identity table (every colour mapped to itself) ChangeColors changes nothing. */
  lemma RecoloredManyIdentity(p: seq<byte>, bpp: nat, from: seq<Color>)
    requires bpp > 0
    ensures RecoloredMany(p, bpp, from, from) == p
  {
    forall j | 0 <= j < |p| ensures RecoloredMany(p, bpp, from, from)[j] == p[j] {
      IdentityKeepsByte(p, bpp, from, j);
    }
  }

  lemma IdentityKeepsByte(p: seq<byte>, bpp: nat, from: seq<Color>, j: nat)
    requires bpp > 0 && j < |p|
    ensures RecoloredMany(p, bpp, from, from)[j] == p[j]
  {
    var i: nat := SlotBase(j, bpp);
    if InColourOfSlot(|p|, j, bpp) {
      SlotBaseIsStart(j, bpp);
      var m := FirstMatch(from, p[i], p[i + 1], p[i + 2]);
      RecoloredManySlot(p, bpp, from, from, i, j, m);
      if m.Some? {
        IdentityMatchKeeps(from[m.value], p[i], p[i + 1], p[i + 2], j - i);
      }
    }
  }

  /** A colour matching a slot's blue, green and red reproduces those bytes. */
  lemma IdentityMatchKeeps(c: Color, b: byte, g: byte, r: byte, d: nat)
    requires d < 3 && SameColour(c, b, g, r)
    ensures ChannelOf(c, d) == [b, g, r][d]
  {
  }

  /** A 3-byte slot of a non-4-byte buffer equal to `from` becomes `to` (ChangeColor's other branch). */
  function Recolored3(p: seq<byte>, bpp: nat, from: Color, to: Color): seq<byte>
    requires bpp > 0
  {
    RecoloredMany(p, bpp, [from], [to])
  }

  /**
   * ChangeColor on a buffer that is not 4 bytes per pixel reads bytes i, i+1,
   * i+2 of each slot with a short-circuit test, so an incomplete last slot
   * throws only when its readable bytes match.
   */
  predicate Recolor3Faults(p: seq<byte>, bpp: nat, from: Color)
    requires bpp > 0
  {
    var i := SlotBase(|p|, bpp);
    && i < |p|
    && p[i] == from.b
    && (i + 1 == |p| || p[i + 1] == from.g)
  }

  /** The fault condition read off the incomplete slot that starts at i. */
  lemma Recolor3FaultsAt(p: seq<byte>, bpp: nat, from: Color, i: nat)
    requires bpp > 2 && SlotStart(i, bpp) && i < |p| <= i + 2
    ensures Recolor3Faults(p, bpp, from) <==> p[i] == from.b && (i + 1 == |p| || p[i + 1] == from.g)
  {
    SlotOfByte(i, |p| - i, bpp);
  }

  /** Every byte of a cleared buffer (the 3-byte loop stops at the first incomplete pixel). */
  function Cleared(p: seq<byte>, bpp: nat, c: Color): seq<byte>
    requires bpp in {1, 3, 4}
  {
    seq<byte>(|p|, j requires 0 <= j < |p| =>
      if bpp == 1 then Mask(c)
      else if SlotBase(j, bpp) + bpp <= |p| then ChannelOf(c, j - SlotBase(j, bpp))
      else p[j])
  }

  // ---------------------------------------------------------------------
  // Alpha compositing of DrawImage: weights dstA*(255-srcA) and srcA, with
  // the combined alpha not divided back by 255.

  function BlendedAlpha(dstA: byte, srcA: byte): (r: int)
    ensures r >= 0
    ensures r == 0 <==> dstA == 0 && srcA == 0
  {
    srcA + dstA * (255 - srcA)
  }

  lemma MulSucc(a: int, b: int)
    ensures (a + 1) * b == a * b + b
  {
  }

  lemma MulComm(a: int, b: int)
    ensures a * b == b * a
  {
  }

  lemma MulDistrib(a: int, b: int, c: int)
    ensures a * (b + c) == a * b + a * c
  {
  }

  lemma MulLeftMono(a: int, b: int, c: int)
    requires a <= b && c >= 0
    ensures a * c <= b * c
  {
    assert b * c - a * c == (b - a) * c;
  }

  lemma DivBetween(num: int, den: int, lo: int, hi: int)
    requires den > 0 && lo * den <= num <= hi * den
    ensures lo <= num / den <= hi
  {
    var q := num / den;
    assert num == q * den + num % den;
    if q < lo {
      MulLeftMono(q + 1, lo, den);
    }
    if q > hi {
      MulLeftMono(hi + 1, q, den);
    }
  }

  /** The integer weighted mean of two values, which lies between them. */
  function WeightedMean(x: int, wx: int, y: int, wy: int): (r: int)
    requires wx >= 0 && wy >= 0 && wx + wy > 0
    ensures x <= y ==> x <= r <= y
    ensures y <= x ==> y <= r <= x
  {
    var lo := if x <= y then x else y;
    var hi := if x <= y then y else x;
    MulLeftMono(lo, x, wx);
    MulLeftMono(lo, y, wy);
    MulLeftMono(x, hi, wx);
    MulLeftMono(y, hi, wy);
    assert lo * (wx + wy) == lo * wx + lo * wy;
    assert hi * (wx + wy) == hi * wx + hi * wy;
    DivBetween(x * wx + y * wy, wx + wy, lo, hi);
    (x * wx + y * wy) / (wx + wy)
  }

  /**
   * One colour channel of the composite: the mean of the destination value
   * weighted by dstA * (255 - srcA) and the source value weighted by srcA.
   */
  function BlendedChannel(dstC: byte, dstA: byte, srcC: byte, srcA: byte): (r: byte)
    requires dstA != 0 || srcA != 0
    ensures dstC <= srcC ==> dstC <= r <= srcC
    ensures srcC <= dstC ==> srcC <= r <= dstC
  {
    var wx: int := dstA * (255 - srcA);
    assert wx + srcA == BlendedAlpha(dstA, srcA) && wx >= 0;
    WeightedMean(dstC, wx, srcC, srcA)
  }

  /** Byte c of a destination pixel after DrawImage composites the source pixel over it. */
  function CompositeByte(dst: seq<byte>, di: nat, src: seq<byte>, si: nat, c: nat): (r: byte)
    requires di + 4 <= |dst| && si + 4 <= |src| && c < 4
    requires dst[di + ALPHA] != 0 || src[si + ALPHA] != 0
  {
    if c == ALPHA then Clamp(BlendedAlpha(dst[di + ALPHA], src[si + ALPHA]))
    else BlendedChannel(dst[di + c], dst[di + ALPHA], src[si + c], src[si + ALPHA])
  }

  /** CompositeByte reads only the four bytes of the destination pixel. */
  lemma CompositeByteLocal(a: seq<byte>, b: seq<byte>, di: nat, src: seq<byte>, si: nat, c: nat)
    requires di + 4 <= |a| && di + 4 <= |b| && si + 4 <= |src| && c < 4
    requires a[di..di + 4] == b[di..di + 4]
    requires a[di + ALPHA] != 0 || src[si + ALPHA] != 0
    ensures b[di + ALPHA] != 0 || src[si + ALPHA] != 0
    ensures CompositeByte(a, di, src, si, c) == CompositeByte(b, di, src, si, c)
  {
    assert a[di + ALPHA] == a[di..di + 4][ALPHA] == b[di + ALPHA];
    assert a[di + c] == a[di..di + 4][c] == b[di + c];
  }

  /** An opaque source pixel replaces the destination pixel outright, as OverlayImage would. */
  lemma OpaqueSourceCopies(dst: seq<byte>, di: nat, src: seq<byte>, si: nat, c: nat)
    requires di + 4 <= |dst| && si + 4 <= |src| && c < 4 && src[si + ALPHA] == 255
    ensures BlendedAlpha(dst[di + ALPHA], src[si + ALPHA]) == 255
    ensures CompositeByte(dst, di, src, si, c) == src[si + c]
  {
    if c != ALPHA {
      var s: int := src[si + c];
      DivModUnique(s * 255, 255, s, 0);
    }
  }

  /**
   * A fully transparent source keeps the destination colour, but because the
   * combined alpha is not divided by 255 any non-zero destination alpha
   * becomes 255 (and a zero one divides by zero).
   */
  lemma TransparentSourceKeepsColour(dst: seq<byte>, di: nat, src: seq<byte>, si: nat, c: nat)
    requires di + 4 <= |dst| && si + 4 <= |src| && c < 4
    requires src[si + ALPHA] == 0 && dst[di + ALPHA] > 0
    ensures CompositeByte(dst, di, src, si, c) == if c == ALPHA then 255 else dst[di + c]
  {
    var a: int := dst[di + ALPHA];
    if c != ALPHA {
      var d: int := dst[di + c];
      DivModUnique(d * (a * 255), a * 255, d, 0);
    } else {
      MulLeftMono(1, a, 255);
    }
  }
}
