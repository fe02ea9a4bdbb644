/**
 * The interactive image: a byte array of 1, 3 or 4 bytes per pixel (blue,
 * green, red, alpha) whose rows are padded to a multiple of 4 bytes, and a
 * flag telling the display bitmap that it must be refreshed.  Every
 * operation is proved to leave the array equal to a function of the old
 * contents defined in PixelOps or Blits.
 */
module Pixels {
  import opened Common
  import opened PixelOps
  import opened Blits

  // ---------------------------------------------------------------------
  // The loops of the image operations.  Each works on the pixel array alone
  // and is proved to leave it equal to the PixelOps function of its old
  // contents that specifies it.

  /** Sets every byte of a to v. */
  method FillBytes(a: array<byte>, v: byte)
    modifies a
    ensures a[..] == seq(a.Length, _ => v)
  {
    var i := 0;
    while i < a.Length
      invariant 0 <= i <= a.Length
      invariant forall j {:trigger a[j]} :: 0 <= j < i ==> a[j] == v
    {
      a[i] := v;
      i := i + 1;
    }
  }

  /** Stores the first n channels of c (blue, green, red, alpha) at bytes i .. i+n-1. */
  method StoreColour(a: array<byte>, i: nat, n: nat, c: Color)
    requires n <= 4 && i + n <= a.Length
    modifies a
    ensures forall j {:trigger a[j]} :: 0 <= j < a.Length ==> a[j] == if i <= j < i + n then ChannelOf(c, j - i) else old(a[j])
  {
    var k := 0;
    while k < n
      invariant k <= n
      invariant forall j {:trigger a[j]} :: 0 <= j < a.Length ==> a[j] == if i <= j < i + k then ChannelOf(c, j - i) else old(a[j])
    {
      a[i + k] := ChannelOf(c, k);
      k := k + 1;
    }
  }

  /** The loop `for (i = offset; i < n; i += stride) pixels[i] = v`. */
  method FillChannel(a: array<byte>, offset: nat, stride: nat, v: byte)
    requires stride > 0
    modifies a
    ensures a[..] == FilledChannel(old(a[..]), offset, stride, v)
  {
    ghost var p := a[..];
    ghost var q := FilledChannel(p, offset, stride, v);
    var i := offset;
    while i < a.Length
      invariant OnStride(i, offset, stride)
      invariant forall j {:trigger a[j]} :: 0 <= j < a.Length && j < i ==> a[j] == q[j]
      invariant forall j {:trigger a[j]} :: i <= j < a.Length ==> a[j] == p[j]
    {
      forall j | i < j < i + stride ensures !OnStride(j, offset, stride) {
        StrideGap(i, j, offset, stride);
      }
      a[i] := v;
      i := i + stride;
    }
    assert a[..] == q;
  }

  /** The saturating loop of the four Shift operations over channel k of each 4-byte pixel. */
  method ShiftChannel(a: array<byte>, k: nat, shift: int)
    requires k < 4
    modifies a
    ensures a[..] == Shifted(old(a[..]), k, shift)
  {
    ghost var p := a[..];
    ghost var q := Shifted(p, k, shift);
    var i := k;
    while i < a.Length
      invariant i % 4 == k
      invariant forall j {:trigger a[j]} :: 0 <= j < a.Length && j < i ==> a[j] == q[j]
      invariant forall j {:trigger a[j]} :: i <= j < a.Length ==> a[j] == p[j]
    {
      if a[i] + shift < 0 {
        a[i] := 0;
      } else if a[i] + shift > 255 {
        a[i] := 255;
      } else {
        a[i] := a[i] + shift;
      }
      i := i + 4;
    }
    assert a[..] == q;
  }

  /** The loop of SetTransparent: alpha 0 for each pixel whose blue, green and red equal c. */
  method MarkTransparent(a: array<byte>, c: Color)
    requires a.Length % 4 == 0
    modifies a
    ensures a[..] == Transparent(old(a[..]), c)
  {
    SlotStartIsMultiple(a.Length, 4);
    ghost var p := a[..];
    ghost var q := Transparent(p, c);
    var i := 0;
    while i < a.Length
      invariant SlotStart(i, 4) && i <= a.Length
      invariant forall j {:trigger a[j]} :: 0 <= j < i ==> a[j] == q[j]
      invariant forall j {:trigger a[j]} :: i <= j < a.Length ==> a[j] == p[j]
    {
      NextSlot(i, a.Length, 4);
      if c.b == a[i] && c.g == a[i + 1] && c.r == a[i + 2] {
        a[i + 3] := 0;
      }
      forall j | i <= j < i + 4 ensures a[j] == q[j] {
        SlotOfByte(i, j - i, 4);
      }
      i := i + 4;
    }
    assert a[..] == q;
  }

  /** The loop of InvertColors: blue, green and red of each pixel become 255 minus their value. */
  method InvertPixels(a: array<byte>)
    requires a.Length % 4 == 0
    modifies a
    ensures a[..] == Inverted(old(a[..]))
  {
    ghost var p := a[..];
    ghost var q := Inverted(p);
    var i := 0;
    while i < a.Length
      invariant i % 4 == 0 && i <= a.Length
      invariant forall j {:trigger a[j]} :: 0 <= j < i ==> a[j] == q[j]
      invariant forall j {:trigger a[j]} :: i <= j < a.Length ==> a[j] == p[j]
    {
      a[i] := 255 - a[i];
      a[i + 1] := 255 - a[i + 1];
      a[i + 2] := 255 - a[i + 2];
      i := i + 4;
    }
    assert a[..] == q;
  }

  /** One pixel of the 4-byte loop of ChangeColor. */
  method Recolor4Pixel(a: array<byte>, i: nat, from: Color, to: Color, ghost p: seq<byte>)
    requires SlotStart(i, 4) && i + 4 <= a.Length == |p|
    requires forall j {:trigger a[j]} :: i <= j < i + 4 ==> a[j] == p[j]
    modifies a
    ensures forall j {:trigger a[j]} :: 0 <= j < a.Length ==> a[j] == if i <= j < i + 4 then Recolored4(p, from, to)[j] else old(a[j])
  {
    ghost var q := Recolored4(p, from, to);
    if a[i] == from.b && a[i + 1] == from.g && a[i + 2] == from.r && a[i + 3] == from.a {
      StoreColour(a, i, 4, to);
    }
    forall j | i <= j < i + 4 ensures a[j] == q[j] {
      Recolored4Pixel(p, from, to, i, j - i);
    }
  }

  /** The 4-byte loop of ChangeColor: every pixel equal to `from` in all four bytes becomes `to`. */
  method Recolor4(a: array<byte>, from: Color, to: Color)
    requires a.Length % 4 == 0
    modifies a
    ensures a[..] == Recolored4(old(a[..]), from, to)
  {
    SlotStartIsMultiple(a.Length, 4);
    ghost var p := a[..];
    ghost var q := Recolored4(p, from, to);
    var i := 0;
    while i < a.Length
      invariant SlotStart(i, 4) && i <= a.Length
      invariant forall j {:trigger a[j]} :: 0 <= j < i ==> a[j] == q[j]
      invariant forall j {:trigger a[j]} :: i <= j < a.Length ==> a[j] == p[j]
    {
      NextSlot(i, a.Length, 4);
      Recolor4Pixel(a, i, from, to, p);
      i := i + 4;
    }
    assert a[..] == q;
  }

  /** One slot of the 3-byte loop of ChangeColor, whose three colour bytes lie inside the array. */
  method Recolor3Slot(a: array<byte>, i: nat, from: Color, to: Color, ghost p: seq<byte>)
    requires SlotStart(i, 3) && i + 3 <= a.Length == |p|
    requires forall j {:trigger a[j]} :: i <= j < i + 3 ==> a[j] == p[j]
    modifies a
    ensures forall j {:trigger a[j]} :: 0 <= j < a.Length ==> a[j] == if i <= j < i + 3 then Recolored3(p, 3, from, to)[j] else old(a[j])
  {
    ghost var q := Recolored3(p, 3, from, to);
    ghost var m := FirstMatch([from], p[i], p[i + 1], p[i + 2]);
    FirstMatchSingle(from, a[i], a[i + 1], a[i + 2]);
    var hit := a[i] == from.b && a[i + 1] == from.g && a[i + 2] == from.r;
    if hit {
      StoreColour(a, i, 3, to);
    }
    forall j | 0 <= j < a.Length ensures a[j] == (if i <= j < i + 3 then q[j] else old(a[j])) {
      if i <= j < i + 3 {
        RecoloredManySlot(p, 3, [from], [to], i, j, m);
        if hit {
          assert a[j] == ChannelOf(to, j - i);
        } else {
          assert a[j] == p[j];
        }
      }
    }
  }

  /**
   * The loop of ChangeColor on a buffer that is not 4 bytes per pixel: slots
   * of 3 bytes whose blue, green and red equal `from` take `to`.  The test
   * short-circuits, so an incomplete last slot throws only when its readable
   * bytes match.
   */
  method Recolor3(a: array<byte>, from: Color, to: Color) returns (o: Outcome)
    modifies a
    ensures a[..] == Recolored3(old(a[..]), 3, from, to)
    ensures o.Fail? <==> Recolor3Faults(old(a[..]), 3, from)
    ensures o.Fail? ==> o.error == IndexOutOfRange
  {
    ghost var p := a[..];
    ghost var q := Recolored3(p, 3, from, to);
    var i := 0;
    while i < a.Length
      invariant SlotStart(i, 3)
      invariant forall j {:trigger a[j]} :: 0 <= j < a.Length && j < i ==> a[j] == q[j]
      invariant forall j {:trigger a[j]} :: i <= j < a.Length ==> a[j] == p[j]
      invariant i >= a.Length ==> !Recolor3Faults(p, 3, from)
    {
      if i + 2 >= a.Length {
        Recolor3FaultsAt(p, 3, from, i);
        forall j | i <= j < a.Length ensures q[j] == p[j] {
          PastLastSlot(a.Length, i, j, 3);
        }
        if a[i] == from.b && (i + 1 == a.Length || a[i + 1] == from.g) {
          return Fail(IndexOutOfRange);
        }
      } else {
        Recolor3Slot(a, i, from, to, p);
        if i + 3 >= a.Length {
          TailBase(i, a.Length, 3);
        }
        assert SlotStart(i + 3, 3);
      }
      i := i + 3;
    }
    assert a[..] == q;
    o := Pass;
  }

  /** The search of ChangeColors for the first colour of `from` matching blue, green and red. */
  method FindColour(from: seq<Color>, b: byte, g: byte, r: byte) returns (k: nat)
    ensures k <= |from|
    ensures FirstMatch(from, b, g, r) == if k < |from| then Some(k) else None
  {
    k := 0;
    while k < |from| && !SameColour(from[k], b, g, r)
      invariant k <= |from|
      invariant forall t :: 0 <= t < k ==> !SameColour(from[t], b, g, r)
    {
      k := k + 1;
    }
  }

  /** One slot of the loop of ChangeColors, whose three colour bytes lie inside the array. */
  method RecolorSlot(a: array<byte>, i: nat, bpp: nat, from: seq<Color>, to: seq<Color>, ghost p: seq<byte>)
    requires bpp >= 3 && |from| == |to| && SlotStart(i, bpp) && i + 2 < a.Length == |p|
    requires forall j {:trigger a[j]} :: i <= j < i + bpp && j < a.Length ==> a[j] == p[j]
    modifies a
    ensures forall j {:trigger a[j]} :: 0 <= j < a.Length ==>
      a[j] == (if i <= j < i + bpp then RecoloredMany(p, bpp, from, to)[j] else old(a[j]))
  {
    var k := FindColour(from, a[i], a[i + 1], a[i + 2]);
    StoreMatch(a, i, bpp, from, to, k, p);
  }

  /** The store of RecolorSlot once the search has returned k (|from| when nothing matched). */
  method StoreMatch(a: array<byte>, i: nat, bpp: nat, from: seq<Color>, to: seq<Color>, k: nat, ghost p: seq<byte>)
    requires bpp >= 3 && |from| == |to| && SlotStart(i, bpp) && i + 2 < a.Length == |p|
    requires forall j {:trigger a[j]} :: i <= j < i + bpp && j < a.Length ==> a[j] == p[j]
    requires FirstMatch(from, p[i], p[i + 1], p[i + 2]) == if k < |from| then Some(k) else None
    modifies a
    ensures forall j {:trigger a[j]} :: 0 <= j < a.Length ==>
      a[j] == (if i <= j < i + bpp then RecoloredMany(p, bpp, from, to)[j] else old(a[j]))
  {
    ghost var q := RecoloredMany(p, bpp, from, to);
    ghost var m := FirstMatch(from, p[i], p[i + 1], p[i + 2]);
    if k < |from| {
      StoreColour(a, i, 3, to[k]);
    }
    forall j | i <= j < i + bpp && j < a.Length ensures a[j] == q[j] {
      RecoloredManySlot(p, bpp, from, to, i, j, m);
    }
  }

  /**
   * The loop of ChangeColors: the colour bytes of each slot take the colour
   * paired with the first entry of `from` they match.  All three colour
   * bytes are read before the search, so a last slot of fewer than three
   * bytes throws.
   */
  method RecolorSlots(a: array<byte>, bpp: nat, from: seq<Color>, to: seq<Color>) returns (o: Outcome)
    requires bpp >= 3 && |from| == |to|
    modifies a
    ensures a[..] == RecoloredMany(old(a[..]), bpp, from, to)
    ensures o.Fail? <==> ShortTail(a.Length, bpp)
    ensures o.Fail? ==> o.error == IndexOutOfRange
  {
    ghost var p := a[..];
    ghost var q := RecoloredMany(p, bpp, from, to);
    var i := 0;
    while i < a.Length
      invariant SlotStart(i, bpp)
      invariant forall j {:trigger a[j]} :: 0 <= j < a.Length && j < i ==> a[j] == q[j]
      invariant forall j {:trigger a[j]} :: i <= j < a.Length ==> a[j] == p[j]
      invariant i >= a.Length ==> !ShortTail(a.Length, bpp)
    {
      if i + 2 >= a.Length {
        TailBase(i, a.Length, bpp);
        forall j | i <= j < a.Length ensures q[j] == p[j] {
          PastLastSlot(a.Length, i, j, bpp);
        }
        return Fail(IndexOutOfRange);
      }
      RecolorSlot(a, i, bpp, from, to, p);
      if i + bpp >= a.Length {
        TailBase(i, a.Length, bpp);
      }
      assert SlotStart(i + bpp, bpp);
      i := i + bpp;
    }
    assert a[..] == q;
    o := Pass;
  }

  /** One slot of the loop of SetAsGrayScale, whose three colour bytes lie inside the array. */
  method GraySlot(a: array<byte>, i: nat, bpp: nat, ghost p: seq<byte>)
    requires bpp >= 3 && SlotStart(i, bpp) && i + 2 < a.Length == |p|
    requires forall j {:trigger a[j]} :: i <= j < i + bpp && j < a.Length ==> a[j] == p[j]
    modifies a
    ensures forall j {:trigger a[j]} :: 0 <= j < a.Length ==>
      a[j] == (if i <= j < i + bpp then Grayed(p, bpp)[j] else old(a[j]))
  {
    ghost var q := Grayed(p, bpp);
    var v := GrayLevel(a[i], a[i + 1], a[i + 2]);
    assert v == GrayLevel(p[i], p[i + 1], p[i + 2]);
    StoreColour(a, i, 3, Color(255, v, v, v));
    forall j | 0 <= j < a.Length ensures a[j] == (if i <= j < i + bpp then q[j] else old(a[j])) {
      if i <= j < i + bpp {
        GrayedSlot(p, bpp, i, j);
        if j < i + 3 {
          assert a[j] == v == q[j];
        } else {
          assert old(a[j]) == p[j] == q[j];
        }
      }
    }
  }

  /**
   * The loop of SetAsGrayScale: the colour bytes of each slot become their
   * integer mean; a last slot of fewer than three bytes throws.
   */
  method GraySlots(a: array<byte>, bpp: nat) returns (o: Outcome)
    requires bpp >= 3
    modifies a
    ensures a[..] == Grayed(old(a[..]), bpp)
    ensures o.Fail? <==> ShortTail(a.Length, bpp)
    ensures o.Fail? ==> o.error == IndexOutOfRange
  {
    ghost var p := a[..];
    ghost var q := Grayed(p, bpp);
    var i := 0;
    while i < a.Length
      invariant SlotStart(i, bpp)
      invariant forall j {:trigger a[j]} :: 0 <= j < a.Length && j < i ==> a[j] == q[j]
      invariant forall j {:trigger a[j]} :: i <= j < a.Length ==> a[j] == p[j]
      invariant i >= a.Length ==> !ShortTail(a.Length, bpp)
    {
      if i + 2 >= a.Length {
        TailBase(i, a.Length, bpp);
        forall j | i <= j < a.Length ensures q[j] == p[j] {
          PastLastSlot(a.Length, i, j, bpp);
        }
        return Fail(IndexOutOfRange);
      }
      GraySlot(a, i, bpp, p);
      if i + bpp >= a.Length {
        TailBase(i, a.Length, bpp);
      }
      assert SlotStart(i + bpp, bpp);
      i := i + bpp;
    }
    assert a[..] == q;
    o := Pass;
  }

  /** One whole slot of the 3- or 4-byte loops of Clear. */
  method ClearSlot(a: array<byte>, i: nat, bpp: nat, c: Color, ghost p: seq<byte>)
    requires bpp in {3, 4} && SlotStart(i, bpp) && i + bpp <= a.Length == |p|
    modifies a
    ensures forall j {:trigger a[j]} :: 0 <= j < a.Length ==>
      a[j] == (if i <= j < i + bpp then Cleared(p, bpp, c)[j] else old(a[j]))
  {
    ghost var q := Cleared(p, bpp, c);
    StoreColour(a, i, bpp, c);
    forall j | i <= j < i + bpp ensures a[j] == q[j] {
      SlotOfByte(i, j - i, bpp);
    }
  }

  /** The loop of Clear on a 1-byte buffer: the mask of c everywhere. */
  method ClearMask(a: array<byte>, c: Color)
    modifies a
    ensures a[..] == Cleared(old(a[..]), 1, c)
  {
    ghost var q := Cleared(a[..], 1, c);
    var m: byte := 0;
    if c.r > 0 || c.g > 0 || c.b > 0 {
      m := 255;
    }
    assert m == Mask(c);
    FillBytes(a, m);
    forall j | 0 <= j < a.Length ensures a[j] == q[j] {
      assert a[j] == a[..][j];
    }
    assert a[..] == q;
  }

  /**
   * The loop of Clear on a 3- or 4-byte buffer: c in every slot.  The 3-byte
   * loop writes red first, so an incomplete last slot throws before any of
   * it is written.
   */
  method ClearColour(a: array<byte>, bpp: nat, c: Color) returns (o: Outcome)
    requires bpp in {3, 4} && (bpp == 4 ==> a.Length % 4 == 0)
    modifies a
    ensures a[..] == Cleared(old(a[..]), bpp, c)
    ensures o.Fail? <==> ShortTail(a.Length, bpp)
    ensures o.Fail? ==> o.error == IndexOutOfRange
  {
    ghost var p := a[..];
    ghost var q := Cleared(p, bpp, c);
    if bpp == 4 {
      SlotStartIsMultiple(a.Length, 4);
    }
    var i := 0;
    while i < a.Length
      invariant SlotStart(i, bpp)
      invariant forall j {:trigger a[j]} :: 0 <= j < a.Length && j < i ==> a[j] == q[j]
      invariant forall j {:trigger a[j]} :: i <= j < a.Length ==> a[j] == p[j]
      invariant i >= a.Length ==> !ShortTail(a.Length, bpp)
    {
      if i + 2 >= a.Length {
        TailBase(i, a.Length, bpp);
        forall j | i <= j < a.Length ensures q[j] == p[j] {
          SlotBounds(j, i, bpp);
        }
        return Fail(IndexOutOfRange);
      }
      if bpp == 4 {
        NextSlot(i, a.Length, 4);
      }
      ClearSlot(a, i, bpp, c, p);
      if i + bpp >= a.Length {
        TailBase(i, a.Length, bpp);
      }
      assert SlotStart(i + bpp, bpp);
      i := i + bpp;
    }
    assert a[..] == q;
    o := Pass;
  }

  /** The loops of Clear, by bytes per pixel. */
  method ClearSlots(a: array<byte>, bpp: nat, c: Color) returns (o: Outcome)
    requires bpp in {1, 3, 4} && (bpp == 4 ==> a.Length % 4 == 0)
    modifies a
    ensures a[..] == Cleared(old(a[..]), bpp, c)
    ensures o.Fail? <==> bpp != 1 && ShortTail(a.Length, bpp)
    ensures o.Fail? ==> o.error == IndexOutOfRange
  {
    if bpp == 1 {
      ClearMask(a, c);
      return Pass;
    }
    o := ClearColour(a, bpp, c);
  }

  /** Exchanges bytes x and y through a holder variable. */
  method SwapBytes(a: array<byte>, x: nat, y: nat)
    requires x < a.Length && y < a.Length
    modifies a
    ensures forall j {:trigger a[j]} :: 0 <= j < a.Length ==> a[j] == if j == x then old(a[y]) else if j == y then old(a[x]) else old(a[j])
  {
    var holder := a[x];
    a[x] := a[y];
    a[y] := holder;
  }

  /**
   * The body of the loop of Rotate180: pixel i and pixel m swap, alpha
   * first, then red, green and blue.  The middle pixel of an odd pixel
   * count swaps with itself.
   */
  method SwapPixels(a: array<byte>, i: nat, m: nat)
    requires i <= m && m + 4 <= a.Length && (i == m || i + 4 <= m)
    modifies a
    ensures forall j {:trigger a[j]} :: 0 <= j < a.Length ==>
      a[j] == if i <= j < i + 4 then old(a[m + (j - i)])
      else if m <= j < m + 4 then old(a[i + (j - m)])
      else old(a[j])
  {
    SwapBytes(a, i + ALPHA, m + ALPHA);
    SwapBytes(a, i + RED, m + RED);
    SwapBytes(a, i + GREEN, m + GREEN);
    SwapBytes(a, i + BLUE, m + BLUE);
  }

  /** The two pixels the loop of Rotate180 swaps are each other's rotated image. */
  lemma RotatedPair(p: seq<byte>, i: nat, m: nat)
    requires SlotStart(i, 4) && SlotStart(m, 4) && m == |p| - 4 - i && i <= m
    ensures forall j :: i <= j < i + 4 ==> Rotated180(p)[j] == p[m + (j - i)]
    ensures forall j :: m <= j < m + 4 ==> Rotated180(p)[j] == p[i + (j - m)]
  {
    forall j | i <= j < i + 4 ensures Rotated180(p)[j] == p[m + (j - i)] {
      Rotated180Pixel(p, i, j - i);
      assert i + (j - i) == j;
    }
    forall j | m <= j < m + 4 ensures Rotated180(p)[j] == p[i + (j - m)] {
      Rotated180Pixel(p, m, j - m);
      assert m + (j - m) == j;
    }
  }

  /** The loop of Rotate180 on a 4-byte buffer: pixel k and pixel count-1-k swap. */
  method RotatePixels(a: array<byte>)
    requires a.Length % 4 == 0
    modifies a
    ensures a[..] == Rotated180(old(a[..]))
  {
    ghost var p := a[..];
    ghost var q := Rotated180(p);
    var n := a.Length;
    ghost var h := n / 4;
    assert n == 4 * h;
    DivModUnique(n, 2, 2 * h, 0);
    var i := 0;
    ghost var k := 0;
    while i < n / 2
      invariant i == 4 * k && 2 * i <= n + 4
      invariant forall j {:trigger a[j]} :: 0 <= j < n ==> a[j] == if j < i || j >= n - i then q[j] else p[j]
    {
      var m := n - 4 - i;
      label Step:
      assert m == (h - 1 - k) * 4 && m - i == 4 * (h - 1 - 2 * k) && h - 1 - 2 * k >= 0;
      SlotStartTimes(k, 4);
      SlotStartTimes(h - 1 - k, 4);
      RotatedPair(p, i, m);
      SwapPixels(a, i, m);
      forall j | 0 <= j < n ensures a[j] == if j < i + 4 || j >= n - (i + 4) then q[j] else p[j] {
        if i <= j < i + 4 {
          assert a[j] == old@Step(a[m + (j - i)]);
        } else if m <= j < m + 4 {
          assert a[j] == old@Step(a[i + (j - m)]);
        } else {
          assert a[j] == old@Step(a[j]);
        }
      }
      i := i + 4;
      k := k + 1;
    }
    assert n - i <= i;
    assert a[..] == q;
  }

  /**
   * Array.Copy of n bytes from src at si to dst at di.  The source bytes
   * are taken as they were before the copy, also when src and dst are one
   * array and the ranges overlap.
   */
  method CopyBytes(src: array<byte>, si: nat, dst: array<byte>, di: nat, n: nat)
    requires si + n <= src.Length && di + n <= dst.Length
    modifies dst
    ensures dst[..] == Spliced(old(dst[..]), di, old(src[..]), si, n)
  {
    ghost var p, q := dst[..], src[..];
    var s := src[si..si + n];
    var t := 0;
    while t < n
      invariant t <= n
      invariant forall j {:trigger dst[j]} :: 0 <= j < dst.Length ==>
        dst[j] == (if di <= j < di + t then s[j - di] else p[j])
    {
      dst[di + t] := s[t];
      t := t + 1;
    }
    assert dst[..] == Spliced(p, di, q, si, n);
  }

  /**
   * The row loop of OverlayImage: one Array.Copy per row of the clipped
   * rectangle.  When the source is the destination array itself, each row
   * is read as the earlier rows left it.
   */
  method OverlayRows(dst: array<byte>, W: nat, H: nat, src: array<byte>, sw: nat, sh: nat, k: Clip)
    requires dst.Length == 4 * W * H && src.Length == 4 * sw * sh && Fits(k, W, H, sw, sh)
    modifies dst
    ensures src != dst ==> dst[..] == Blitted(old(dst[..]), W, H, src[..], sw, sh, k, k.rows)
    ensures src == dst ==> dst[..] == SelfBlitted(old(dst[..]), W, H, sw, sh, k, k.rows)
  {
    ghost var p := dst[..];
    var row := 0;
    while row < k.rows
      invariant 0 <= row <= k.rows
      invariant src != dst ==> dst[..] == Blitted(p, W, H, src[..], sw, sh, k, row)
      invariant src == dst ==> dst[..] == SelfBlitted(p, W, H, sw, sh, k, row)
    {
      if src != dst {
        BlitRowStep(p, W, H, src[..], sw, sh, k, row);
      }
      RowInRange(W, H, sw, sh, k, row);
      CopyBytes(src, (k.sy0 + row) * (4 * sw), dst, (k.y0 + row) * (4 * W) + 4 * k.x, 4 * k.cols);
      row := row + 1;
    }
  }

  /**
   * One pixel of DrawImage: combined alpha A = srcA + dstA * (255 - srcA),
   * each colour the integer mean of the two weighted by dstA * (255 - srcA)
   * and srcA, alpha written as A saturated to 255.  The caller has checked
   * A != 0.  Both pixels are read before the first write, so src may be dst.
   */
  method BlendPixel(dst: array<byte>, d: nat, src: array<byte>, s: nat)
    requires d + 4 <= dst.Length && s + 4 <= src.Length
    requires dst[d + ALPHA] != 0 || src[s + ALPHA] != 0
    modifies dst
    ensures var p, q := old(dst[..]), old(src[..]);
      dst[..] == p[d := CompositeByte(p, d, q, s, 0)]
                  [d + 1 := CompositeByte(p, d, q, s, 1)]
                  [d + 2 := CompositeByte(p, d, q, s, 2)]
                  [d + 3 := CompositeByte(p, d, q, s, 3)]
  {
    ghost var p: seq<byte>, q: seq<byte> := dst[..], src[..];
    var thisA, thatA := dst[d + ALPHA], src[s + ALPHA];
    var w: int := thisA * (255 - thatA);
    var a: int := thatA + w;
    assert a == BlendedAlpha(thisA, thatA);
    var r := BlendedChannel(dst[d + RED], thisA, src[s + RED], thatA);
    var g := BlendedChannel(dst[d + GREEN], thisA, src[s + GREEN], thatA);
    var b := BlendedChannel(dst[d + BLUE], thisA, src[s + BLUE], thatA);
    if a > 255 {
      a := 255;
    }
    dst[d + ALPHA] := a;
    dst[d + BLUE] := b;
    dst[d + GREEN] := g;
    dst[d + RED] := r;
    assert dst[..] == p[d := CompositeByte(p, d, q, s, 0)]
                       [d + 1 := CompositeByte(p, d, q, s, 1)]
                       [d + 2 := CompositeByte(p, d, q, s, 2)]
                       [d + 3 := CompositeByte(p, d, q, s, 3)];
  }

  /**
   * The body of DrawImage's inner loop, as a step from pixel (r, c) to the
   * next; p is the destination before the loops.
   */
  method CompositePixel(dst: array<byte>, W: nat, H: nat, src: array<byte>, sw: nat, sh: nat, k: Clip,
                        r: nat, c: nat, ghost p: seq<byte>)
    requires |p| == dst.Length == 4 * W * H && src.Length == 4 * sw * sh && Fits(k, W, H, sw, sh)
    requires r < k.rows && c < k.cols
    requires src != dst ==> dst[..] == Composited(p, W, H, src[..], sw, sh, k, r, c) && !ClearPixel(p, W, src[..], sw, k, r, c)
    requires src == dst ==> dst[..] == SelfComposited(p, W, H, sw, sh, k, r, c) && !ClearPixel(dst[..], W, dst[..], sw, k, r, c)
    modifies dst
    ensures src != dst ==> dst[..] == Composited(p, W, H, src[..], sw, sh, k, r, c + 1)
    ensures src == dst ==> dst[..] == SelfComposited(p, W, H, sw, sh, k, r, c + 1)
  {
    var d, s := DstPixel(W, k, r, c), SrcPixel(sw, k, r, c);
    PixelsInRange(W, H, sw, sh, k, r, c);
    if src != dst {
      ghost var cur := dst[..];
      CompositedAt(p, W, H, src[..], sw, sh, k, r, c, r, c, 0);
      CompositedAt(p, W, H, src[..], sw, sh, k, r, c, r, c, 1);
      CompositedAt(p, W, H, src[..], sw, sh, k, r, c, r, c, 2);
      CompositedAt(p, W, H, src[..], sw, sh, k, r, c, r, c, 3);
      assert cur[d..d + 4] == p[d..d + 4];
      CompositeByteLocal(cur, p, d, src[..], s, 0);
      CompositeByteLocal(cur, p, d, src[..], s, 1);
      CompositeByteLocal(cur, p, d, src[..], s, 2);
      CompositeByteLocal(cur, p, d, src[..], s, 3);
      CompositeStep(p, W, H, src[..], sw, sh, k, r, c);
    }
    BlendPixel(dst, d, src, s);
  }

  /** A clear pixel before (dr, dc) leaves the prefix up to (dr, dc) not composable. */
  lemma ClearBlocks(dst: seq<byte>, W: nat, H: nat, src: seq<byte>, sw: nat, sh: nat, k: Clip, r: nat, c: nat, dr: nat, dc: nat)
    requires |dst| == 4 * W * H && |src| == 4 * sw * sh && Fits(k, W, H, sw, sh)
    requires r < k.rows && c < k.cols && Before(r, c, dr, dc) && ClearPixel(dst, W, src, sw, k, r, c)
    ensures !Composable(dst, W, H, src, sw, sh, k, dr, dc)
  {
  }

  /** The row offsets DrawImage adds to reach pixel `col` of clipped row `row`. */
  lemma RowOffsets(W: nat, sw: nat, k: Clip, row: nat, col: nat)
    ensures (k.y0 + row) * (4 * W) + 4 * k.x + col * 4 == DstPixel(W, k, row, col)
    ensures (k.sy0 + row) * (4 * sw) + col * 4 == SrcPixel(sw, k, row, col)
  {
  }

  /** The inner loop of DrawImage: one row of the clipped rectangle, left to right. */
  method CompositeRow(dst: array<byte>, W: nat, H: nat, src: array<byte>, sw: nat, sh: nat, k: Clip,
                      row: nat, ghost p: seq<byte>)
    returns (o: Outcome, ghost stopCol: nat)
    requires |p| == dst.Length == 4 * W * H && src.Length == 4 * sw * sh && Fits(k, W, H, sw, sh)
    requires row < k.rows
    requires src != dst ==> dst[..] == Composited(p, W, H, src[..], sw, sh, k, row, 0)
                            && Composable(p, W, H, src[..], sw, sh, k, row, 0)
    requires src == dst ==> dst[..] == SelfComposited(p, W, H, sw, sh, k, row, 0)
                            && SelfComposable(p, W, H, sw, sh, k, row, 0)
    modifies dst
    ensures o.Fail? ==> o.error == DivideByZero && stopCol < k.cols
    ensures src != dst ==>
      && (o == Pass <==> Composable(p, W, H, src[..], sw, sh, k, row, k.cols))
      && (o == Pass ==> dst[..] == Composited(p, W, H, src[..], sw, sh, k, row, k.cols))
      && (o.Fail? ==> && ClearPixel(p, W, src[..], sw, k, row, stopCol)
                      && Composable(p, W, H, src[..], sw, sh, k, row, stopCol)
                      && dst[..] == Composited(p, W, H, src[..], sw, sh, k, row, stopCol))
    ensures src == dst ==>
      && (o == Pass <==> SelfComposable(p, W, H, sw, sh, k, row, k.cols))
      && (o == Pass ==> dst[..] == SelfComposited(p, W, H, sw, sh, k, row, k.cols))
      && (o.Fail? ==> && ClearPixel(dst[..], W, dst[..], sw, k, row, stopCol)
                      && SelfComposable(p, W, H, sw, sh, k, row, stopCol)
                      && dst[..] == SelfComposited(p, W, H, sw, sh, k, row, stopCol))
  {
    ghost var q := src[..];
    stopCol := 0;
    var sourceRow := (k.sy0 + row) * (4 * sw);
    var targetRow := (k.y0 + row) * (4 * W) + 4 * k.x;
    var col := 0;
    while col < k.cols
      invariant 0 <= col <= k.cols
      invariant src != dst ==> && src[..] == q
                               && dst[..] == Composited(p, W, H, q, sw, sh, k, row, col)
                               && Composable(p, W, H, q, sw, sh, k, row, col)
      invariant src == dst ==> && dst[..] == SelfComposited(p, W, H, sw, sh, k, row, col)
                               && SelfComposable(p, W, H, sw, sh, k, row, col)
    {
      var d, s := targetRow + col * 4, sourceRow + col * 4;
      RowOffsets(W, sw, k, row, col);
      o := CompositeAt(dst, W, H, src, sw, sh, k, row, col, d, s, p);
      if o.Fail? {
        return o, col;
      }
      col := col + 1;
    }
    o := Pass;
  }

  /**
   * One pass of the inner loop of DrawImage, at column c of clipped row r
   * (bytes d and s of the two arrays): when both alphas are 0 the combined
   * alpha is 0 and the division throws, so the row stops there and no
   * later pixel of it is reached; otherwise the pixel is composited.
   */
  method CompositeAt(dst: array<byte>, W: nat, H: nat, src: array<byte>, sw: nat, sh: nat, k: Clip,
                     r: nat, c: nat, d: nat, s: nat, ghost p: seq<byte>)
    returns (o: Outcome)
    requires |p| == dst.Length == 4 * W * H && src.Length == 4 * sw * sh && Fits(k, W, H, sw, sh)
    requires r < k.rows && c < k.cols && d == DstPixel(W, k, r, c) && s == SrcPixel(sw, k, r, c)
    requires src != dst ==> dst[..] == Composited(p, W, H, src[..], sw, sh, k, r, c)
                            && Composable(p, W, H, src[..], sw, sh, k, r, c)
    requires src == dst ==> dst[..] == SelfComposited(p, W, H, sw, sh, k, r, c)
                            && SelfComposable(p, W, H, sw, sh, k, r, c)
    modifies dst
    ensures o.Fail? ==> o.error == DivideByZero && dst[..] == old(dst[..])
    ensures src != dst ==>
      && (o.Fail? ==> ClearPixel(p, W, src[..], sw, k, r, c) && !Composable(p, W, H, src[..], sw, sh, k, r, k.cols))
      && (o == Pass ==> && dst[..] == Composited(p, W, H, src[..], sw, sh, k, r, c + 1)
                        && Composable(p, W, H, src[..], sw, sh, k, r, c + 1))
    ensures src == dst ==>
      && (o.Fail? ==> ClearPixel(dst[..], W, dst[..], sw, k, r, c) && !SelfComposable(p, W, H, sw, sh, k, r, k.cols))
      && (o == Pass ==> && dst[..] == SelfComposited(p, W, H, sw, sh, k, r, c + 1)
                        && SelfComposable(p, W, H, sw, sh, k, r, c + 1))
  {
    PixelsInRange(W, H, sw, sh, k, r, c);
    if src != dst {
      CompositedAt(p, W, H, src[..], sw, sh, k, r, c, r, c, ALPHA);
    }
    if dst[d + ALPHA] == 0 && src[s + ALPHA] == 0 {
      if src != dst {
        ClearBlocks(p, W, H, src[..], sw, sh, k, r, c, r, k.cols);
      } else {
        SelfClearBlocks(p, W, H, sw, sh, k, r, c, r, k.cols);
      }
      return Fail(DivideByZero);
    }
    if src != dst {
      ComposableStep(p, W, H, src[..], sw, sh, k, r, c);
    } else {
      assert SelfComposable(p, W, H, sw, sh, k, r, c + 1);
    }
    CompositePixel(dst, W, H, src, sw, sh, k, r, c, p);
    o := Pass;
  }

  /**
   * The nested loops of DrawImage over a clipped rectangle of 4-byte
   * images, in row-major order.  The first pixel whose two alphas are both
   * 0 divides by zero: the loops stop there, every earlier pixel already
   * composited.
   */
  method CompositeRect(dst: array<byte>, W: nat, H: nat, src: array<byte>, sw: nat, sh: nat, k: Clip)
    returns (o: Outcome, ghost stopRow: nat, ghost stopCol: nat)
    requires dst.Length == 4 * W * H && src.Length == 4 * sw * sh && Fits(k, W, H, sw, sh)
    modifies dst
    ensures o.Fail? ==> o.error == DivideByZero && stopRow < k.rows && stopCol < k.cols
    ensures src != dst ==>
      && (o == Pass <==> Composable(old(dst[..]), W, H, src[..], sw, sh, k, k.rows, 0))
      && (o == Pass ==> dst[..] == Composited(old(dst[..]), W, H, src[..], sw, sh, k, k.rows, 0))
      && (o.Fail? ==> && ClearPixel(old(dst[..]), W, src[..], sw, k, stopRow, stopCol)
                      && Composable(old(dst[..]), W, H, src[..], sw, sh, k, stopRow, stopCol)
                      && dst[..] == Composited(old(dst[..]), W, H, src[..], sw, sh, k, stopRow, stopCol))
    ensures src == dst ==>
      && (o == Pass <==> SelfComposable(old(dst[..]), W, H, sw, sh, k, k.rows, 0))
      && (o == Pass ==> dst[..] == SelfComposited(old(dst[..]), W, H, sw, sh, k, k.rows, 0))
      && (o.Fail? ==> && ClearPixel(dst[..], W, dst[..], sw, k, stopRow, stopCol)
                      && SelfComposable(old(dst[..]), W, H, sw, sh, k, stopRow, stopCol)
                      && dst[..] == SelfComposited(old(dst[..]), W, H, sw, sh, k, stopRow, stopCol))
  {
    ghost var p, q := dst[..], src[..];
    stopRow, stopCol := 0, 0;
    var row := 0;
    while row < k.rows
      invariant 0 <= row <= k.rows
      invariant src != dst ==> && src[..] == q
                               && dst[..] == Composited(p, W, H, q, sw, sh, k, row, 0)
                               && Composable(p, W, H, q, sw, sh, k, row, 0)
      invariant src == dst ==> && dst[..] == SelfComposited(p, W, H, sw, sh, k, row, 0)
                               && SelfComposable(p, W, H, sw, sh, k, row, 0)
    {
      o, stopCol := CompositeRow(dst, W, H, src, sw, sh, k, row, p);
      if o.Fail? {
        if src == dst && SelfComposable(p, W, H, sw, sh, k, k.rows, 0) {
          SelfComposablePrefix(p, W, H, sw, sh, k, row, k.cols, k.rows, 0);
        }
        return o, row, stopCol;
      }
      if src != dst {
        ComposableNextRow(p, W, H, q, sw, sh, k, row);
        CompositeNextRow(p, W, H, q, sw, sh, k, row);
      }
      row := row + 1;
    }
    o := Pass;
  }

  class Image {
    const width: nat
    const height: nat
    /** Bytes per pixel. */
    const bpp: nat
    /** width * bpp: the unpadded length of a row. */
    const bytesLine: nat
    /** Padding bytes after each row. */
    const byteBoundary: nat
    /** Length of the pixel array. */
    const bytes: nat
    const pixels: array<byte>
    var needsRefresh: bool

    ghost predicate Valid()
    {
      && width > 0 && height > 0
      && bpp in {1, 3, 4}
      && bytesLine == width * bpp
      && byteBoundary == Padding(width, bpp)
      && bytes == StorageLength(width, height, bpp)
      && pixels.Length == bytes
      // consequences of the above (StorageFacts), kept for the loops
      && bytes % 4 == 0 && bytes >= 4
      && (bpp == 4 ==> bytes == 4 * width * height)
    }

    /** A blank image: every byte 150.  The format must be one of the three supported ones. */
    constructor (w: nat, h: nat, format: PixelFormat)
      requires w > 0 && h > 0 && FormatBytes(format).Ok?
      ensures Valid() && fresh(pixels)
      ensures width == w && height == h && bpp == FormatBytes(format).value
      ensures pixels[..] == seq(StorageLength(w, h, bpp), _ => 150)
      ensures needsRefresh
    {
      var b := FormatBytes(format).value;
      var line := w * b;
      var boundary := (4 - line % 4) % 4;
      var n := line * h + h * boundary;
      var a := new byte[n];
      FillBytes(a, 150);
      StorageFacts(w, h, b);
      width, height, bpp, bytesLine, byteBoundary, bytes, pixels := w, h, b, line, boundary, n, a;
      needsRefresh := true;
    }

    /**
     * Construction with the C# constructor's failures as errors, in the order they
     * are raised: an unsupported format throws before anything else, a
     * negative array length (see SignedStorageLengthSign) overflows the
     * allocation, and the display bitmap rejects any other size that is not
     * positive.
     */
    static method Create(w: int, h: int, format: PixelFormat) returns (r: Result<Image>)
      ensures r == Err(UnsupportedFormat) <==> format.OtherFormat?
      ensures r == Err(Overflow) <==> !format.OtherFormat? && SignedStorageLength(w, h, FormatBytes(format).value) < 0
      ensures r == Err(InvalidArgument) <==>
        !format.OtherFormat? && SignedStorageLength(w, h, FormatBytes(format).value) >= 0 && (w <= 0 || h <= 0)
      ensures r.Ok? ==> fresh(r.value) && fresh(r.value.pixels) && r.value.Valid()
      ensures r.Ok? ==> r.value.width == w && r.value.height == h && r.value.bpp == FormatBytes(format).value
    {
      if format.OtherFormat? {
        r := Err(UnsupportedFormat);
      } else if SignedStorageLength(w, h, FormatBytes(format).value) < 0 {
        r := Err(Overflow);
      } else if w <= 0 || h <= 0 {
        r := Err(InvalidArgument);
      } else {
        var image := new Image(w, h, format);
        r := Ok(image);
      }
    }

    predicate InBounds(x: int, y: int)
    {
      0 <= x < width && 0 <= y < height
    }

    /**
     * The colour of pixel (x, y).  Rows are addressed without their padding;
     * on a 1-byte buffer the read of green and red can run past the array.
     */
    function GetPixel(x: int, y: int): (r: Result<Color>)
      requires Valid()
      reads pixels
      ensures !InBounds(x, y) <==> r == Err(OutOfRange)
      ensures InBounds(x, y) && bpp != 1 ==> r.Ok?
      ensures InBounds(x, y) ==> r == ReadPixel(pixels[..], UnpaddedIndex(x, y, width, bpp), bpp)
    {
      if !InBounds(x, y) then Err(OutOfRange)
      else
        UnpaddedIndexInRange(x, y, width, height, bpp);
        ReadPixel(pixels[..], UnpaddedIndex(x, y, width, bpp), bpp)
    }

    /**
     * Sets pixel (x, y).  A 1-byte buffer stores the mask of the colour at
     * the padded position; a 3- or 4-byte buffer stores the colour at the
     * unpadded position.
     */
    method SetPixel(x: int, y: int, c: Color) returns (o: Outcome)
      requires Valid()
      modifies this, pixels
      ensures o == Fail(OutOfRange) <==> !InBounds(x, y)
      ensures o.Fail? || o == Pass
      ensures !InBounds(x, y) ==> pixels[..] == old(pixels[..]) && needsRefresh == old(needsRefresh)
      ensures InBounds(x, y) ==> needsRefresh
      ensures InBounds(x, y) && bpp == 1 ==>
        PaddedIndex(x, y, width, 1) < pixels.Length
        && pixels[..] == old(pixels[..])[PaddedIndex(x, y, width, 1) := Mask(c)]
      ensures InBounds(x, y) && bpp != 1 ==>
        UnpaddedIndex(x, y, width, bpp) + bpp <= pixels.Length
        && pixels[..] == WrittenPixel(old(pixels[..]), UnpaddedIndex(x, y, width, bpp), bpp, c)
        && GetPixel(x, y) == Ok(if bpp == 4 then c else c.(a := 255))
    {
      if !InBounds(x, y) {
        return Fail(OutOfRange);
      }
      var startIndex := bpp * x + y * bytesLine;
      if bpp == 1 {
        var boundary := (4 - bytesLine % 4) % 4;
        startIndex := bpp * x + y * bytesLine + boundary * y;
        // The source returns early when startIndex >= pixels.Length; that never happens.
        PaddedIndexInRange(x, y, width, height, bpp);
        var value: byte := if c.r > 0 || c.g > 0 || c.b > 0 then 255 else 0;
        pixels[startIndex] := value;
      } else {
        UnpaddedIndexInRange(x, y, width, height, bpp);
        pixels[startIndex] := c.b;
        pixels[startIndex + 1] := c.g;
        pixels[startIndex + 2] := c.r;
        if bpp == 4 {
          pixels[startIndex + 3] := c.a;
        }
        ReadAfterWrite(old(pixels[..]), startIndex, bpp, c);
      }
      needsRefresh := true;
      o := Pass;
    }

    /**
     * Stores one byte at the padded position of (x, y) without a bounds
     * check of its own (the source's checks are debug assertions); an index
     * outside the array throws.  The refresh flag is not touched.
     */
    method SetPixel8Bit(x: int, y: int, v: byte) returns (o: Outcome)
      requires Valid()
      modifies pixels
      ensures var i := bpp * x + y * bytesLine + byteBoundary * y;
        && (o == Pass <==> 0 <= i < pixels.Length)
        && (o.Fail? ==> o.error == IndexOutOfRange && pixels[..] == old(pixels[..]))
        && (o == Pass ==> pixels[..] == old(pixels[..])[i := v])
      ensures InBounds(x, y) ==> o == Pass
    {
      var startIndex := bpp * x + y * bytesLine + byteBoundary * y;
      if InBounds(x, y) {
        PaddedIndexInRange(x, y, width, height, bpp);
      }
      if startIndex < 0 || startIndex >= pixels.Length {
        return Fail(IndexOutOfRange);
      }
      pixels[startIndex] := v;
      o := Pass;
    }

    // -------------------------------------------------------------------
    // Single-channel loops

    /** Sets every red byte (offset 2 of each pixel) to 0, whatever the format. */
    method RemoveRed()
      requires Valid()
      modifies this, pixels
      ensures pixels[..] == FilledChannel(old(pixels[..]), RED, bpp, 0) && needsRefresh
    {
      FillChannel(pixels, RED, bpp, 0);
      needsRefresh := true;
    }

    /** Sets every green byte (offset 1 of each pixel) to 0, whatever the format. */
    method RemoveGreen()
      requires Valid()
      modifies this, pixels
      ensures pixels[..] == FilledChannel(old(pixels[..]), GREEN, bpp, 0) && needsRefresh
    {
      FillChannel(pixels, GREEN, bpp, 0);
      needsRefresh := true;
    }

    /** Sets every blue byte (offset 0 of each pixel) to 0, whatever the format. */
    method RemoveBlue()
      requires Valid()
      modifies this, pixels
      ensures pixels[..] == FilledChannel(old(pixels[..]), BLUE, bpp, 0) && needsRefresh
    {
      FillChannel(pixels, BLUE, bpp, 0);
      needsRefresh := true;
    }

    /** Sets every alpha byte to 0 on a 4-byte buffer; other buffers are left alone. */
    method RemoveAlpha()
      requires Valid()
      modifies this, pixels
      ensures pixels[..] == if bpp == 4 then FilledChannel(old(pixels[..]), ALPHA, 4, 0) else old(pixels[..])
      ensures needsRefresh
    {
      if bpp == 4 {
        FillChannel(pixels, ALPHA, 4, 0);
      }
      needsRefresh := true;
    }

    /** Sets every alpha byte to `alpha` on a 4-byte buffer; other buffers are left alone. */
    method SetAlpha(alpha: byte)
      requires Valid()
      modifies this, pixels
      ensures pixels[..] == if bpp == 4 then FilledChannel(old(pixels[..]), ALPHA, 4, alpha) else old(pixels[..])
      ensures needsRefresh
    {
      if bpp == 4 {
        FillChannel(pixels, ALPHA, 4, alpha);
      }
      needsRefresh := true;
    }

    /** Adds `shift` to every red byte of a 4-byte buffer, saturating at 0 and 255. */
    method ShiftRed(shift: int)
      requires Valid()
      modifies this, pixels
      ensures pixels[..] == if bpp == 4 then Shifted(old(pixels[..]), RED, shift) else old(pixels[..])
      ensures needsRefresh
    {
      if bpp == 4 {
        ShiftChannel(pixels, RED, shift);
      }
      needsRefresh := true;
    }

    /** Adds `shift` to every green byte of a 4-byte buffer, saturating at 0 and 255. */
    method ShiftGreen(shift: int)
      requires Valid()
      modifies this, pixels
      ensures pixels[..] == if bpp == 4 then Shifted(old(pixels[..]), GREEN, shift) else old(pixels[..])
      ensures needsRefresh
    {
      if bpp == 4 {
        ShiftChannel(pixels, GREEN, shift);
      }
      needsRefresh := true;
    }

    /** Adds `shift` to every blue byte of a 4-byte buffer, saturating at 0 and 255. */
    method ShiftBlue(shift: int)
      requires Valid()
      modifies this, pixels
      ensures pixels[..] == if bpp == 4 then Shifted(old(pixels[..]), BLUE, shift) else old(pixels[..])
      ensures needsRefresh
    {
      if bpp == 4 {
        ShiftChannel(pixels, BLUE, shift);
      }
      needsRefresh := true;
    }

    /** Adds `shift` to every alpha byte of a 4-byte buffer, saturating at 0 and 255. */
    method ShiftAlpha(shift: int)
      requires Valid()
      modifies this, pixels
      ensures pixels[..] == if bpp == 4 then Shifted(old(pixels[..]), ALPHA, shift) else old(pixels[..])
      ensures needsRefresh
    {
      if bpp == 4 {
        ShiftChannel(pixels, ALPHA, shift);
      }
      needsRefresh := true;
    }

    // -------------------------------------------------------------------
    // Whole-buffer colour operations

    /** Gives alpha 0 to every pixel whose blue, green and red equal c (4-byte buffers only). */
    method SetTransparent(c: Color)
      requires Valid()
      modifies this, pixels
      ensures bpp == 4 ==> pixels[..] == Transparent(old(pixels[..]), c)
      ensures bpp != 4 ==> pixels[..] == old(pixels[..])
      ensures needsRefresh
    {
      if bpp == 4 {
        MarkTransparent(pixels, c);
      }
      needsRefresh := true;
    }

    /** Inverts blue, green and red of a 4-byte buffer; any other buffer is not supported. */
    method InvertColors() returns (o: Outcome)
      requires Valid()
      modifies this, pixels
      ensures o == Pass <==> bpp == 4
      ensures o.Fail? ==> o.error == UnsupportedFormat && pixels[..] == old(pixels[..]) && needsRefresh == old(needsRefresh)
      ensures o == Pass ==> pixels[..] == Inverted(old(pixels[..])) && needsRefresh
    {
      if bpp != 4 {
        return Fail(UnsupportedFormat);
      }
      InvertPixels(pixels);
      needsRefresh := true;
      o := Pass;
    }

    /**
     * Replaces every pixel equal to `from` by `to`: on a 4-byte buffer all
     * four bytes are compared and written, on a 3-byte buffer blue, green
     * and red of each 3-byte slot.
     */
    method ChangeColor(from: Color, to: Color) returns (o: Outcome)
      requires Valid() && bpp != 1
      modifies this, pixels
      ensures bpp == 4 ==> o == Pass && pixels[..] == Recolored4(old(pixels[..]), from, to)
      ensures bpp == 3 ==> pixels[..] == Recolored3(old(pixels[..]), 3, from, to)
      ensures bpp == 3 ==> (o.Fail? <==> Recolor3Faults(old(pixels[..]), 3, from))
      ensures o.Fail? ==> o.error == IndexOutOfRange && needsRefresh == old(needsRefresh)
      ensures o == Pass ==> needsRefresh
    {
      if bpp == 4 {
        Recolor4(pixels, from, to);
        o := Pass;
      } else {
        o := Recolor3(pixels, from, to);
        if o.Fail? {
          return;
        }
      }
      needsRefresh := true;
    }

    /**
     * Replaces each colour of `from` by the colour at the same position of
     * `to`, comparing and writing blue, green and red only.  The two tables
     * must have the same length.
     */
    method ChangeColors(from: seq<Color>, to: seq<Color>) returns (o: Outcome)
      requires Valid() && bpp != 1
      modifies this, pixels
      ensures |from| != |to| <==> o == Fail(LengthMismatch)
      ensures |from| != |to| ==> pixels[..] == old(pixels[..]) && needsRefresh == old(needsRefresh)
      ensures |from| == |to| ==> pixels[..] == RecoloredMany(old(pixels[..]), bpp, from, to)
      ensures |from| == |to| ==> (o.Fail? <==> bpp == 3 && bytes % 3 != 0)
      ensures |from| == |to| && o.Fail? ==> o.error == IndexOutOfRange && needsRefresh == old(needsRefresh)
      ensures o == Pass ==> needsRefresh
    {
      if |from| != |to| {
        return Fail(LengthMismatch);
      }
      o := RecolorSlots(pixels, bpp, from, to);
      ShortTailOfFormat(bytes, bpp);
      if o.Fail? {
        return;
      }
      needsRefresh := true;
    }

    /** Sets blue, green and red of every slot to their integer mean. */
    method SetAsGrayScale() returns (o: Outcome)
      requires Valid() && bpp != 1
      modifies this, pixels
      ensures pixels[..] == Grayed(old(pixels[..]), bpp)
      ensures o.Fail? <==> bpp == 3 && bytes % 3 != 0
      ensures o.Fail? ==> o.error == IndexOutOfRange && needsRefresh == old(needsRefresh)
      ensures o == Pass ==> needsRefresh
    {
      o := GraySlots(pixels, bpp);
      ShortTailOfFormat(bytes, bpp);
      if o.Fail? {
        return;
      }
      needsRefresh := true;
    }

    /** Fills the image with one colour; the refresh flag is not touched. */
    method Clear(c: Color) returns (o: Outcome)
      requires Valid()
      modifies pixels
      ensures pixels[..] == Cleared(old(pixels[..]), bpp, c)
      ensures o.Fail? <==> bpp == 3 && bytes % 3 != 0
      ensures o.Fail? ==> o.error == IndexOutOfRange
    {
      o := ClearSlots(pixels, bpp, c);
      if bpp != 1 {
        ShortTailOfFormat(bytes, bpp);
      }
    }

    /**
     * Turns the image upside down.  On a buffer that is not 4 bytes per
     * pixel the first swap reads past the end of the array (index
     * n + 3 - bpp) before it writes anything.
     */
    method Rotate180() returns (o: Outcome)
      requires Valid()
      modifies this, pixels
      ensures o == Pass <==> bpp == 4
      ensures o.Fail? ==> o.error == IndexOutOfRange && pixels[..] == old(pixels[..]) && needsRefresh == old(needsRefresh)
      ensures o == Pass ==> pixels[..] == Rotated180(old(pixels[..])) && needsRefresh
    {
      if bpp != 4 {
        return Fail(IndexOutOfRange);
      }
      RotatePixels(pixels);
      needsRefresh := true;
      o := Pass;
    }

    /** Both images are 4 bytes per pixel and the clipped rectangle of a blit at (x, y) is not empty. */
    ghost predicate BlitApplies(toDraw: Image, x: nat, y: int)
      reads this, toDraw
    {
      var k := ClipOf(width, height, toDraw.width, toDraw.height, x, y);
      bpp == 4 && toDraw.bpp == 4 && k.cols > 0 && k.rows > 0
    }

    /**
     * Copies toDraw over this image with its top-left corner at (x, y),
     * clipped to this image, ignoring transparency.  Nothing is copied
     * unless both images are 4 bytes per pixel.
     */
    method OverlayImage(toDraw: Image, x: nat, y: int)
      requires Valid() && toDraw.Valid()
      modifies this, pixels
      ensures needsRefresh
      ensures var k := ClipOf(width, height, toDraw.width, toDraw.height, x, y);
        pixels[..] == if !BlitApplies(toDraw, x, y) then old(pixels[..])
                      else if toDraw.pixels == pixels
                      then SelfBlitted(old(pixels[..]), width, height, toDraw.width, toDraw.height, k, k.rows)
                      else Blitted(old(pixels[..]), width, height, toDraw.pixels[..], toDraw.width, toDraw.height, k, k.rows)
    {
      var k := ClipOf(width, height, toDraw.width, toDraw.height, x, y);
      if bpp == 4 && toDraw.bpp == 4 && k.cols > 0 && k.rows > 0 {
        OverlayRows(pixels, width, height, toDraw.pixels, toDraw.width, toDraw.height, k);
      }
      needsRefresh := true;
    }

    /**
     * Composites toDraw over this image with its top-left corner at (x, y),
     * clipped to this image.  Nothing is drawn unless both images are 4 bytes
     * per pixel.  The first pixel (in row-major order) where both alphas are 0
     * divides by zero: the pixels before it stay composited and the refresh
     * flag is not set.  toDraw may be this image: each pixel is then read as
     * the earlier pixels left it (SelfComposited).
     */
    method DrawImage(toDraw: Image, x: nat, y: int) returns (o: Outcome)
      requires Valid() && toDraw.Valid()
      modifies this, pixels
      ensures !BlitApplies(toDraw, x, y) ==> o == Pass && pixels[..] == old(pixels[..])
      ensures var k := ClipOf(width, height, toDraw.width, toDraw.height, x, y);
        BlitApplies(toDraw, x, y) && toDraw.pixels != pixels ==>
          && (o == Pass <==> Composable(old(pixels[..]), width, height, toDraw.pixels[..], toDraw.width, toDraw.height, k, k.rows, 0))
          && (o == Pass ==> pixels[..] == Composited(old(pixels[..]), width, height, toDraw.pixels[..], toDraw.width, toDraw.height, k, k.rows, 0))
      ensures var k := ClipOf(width, height, toDraw.width, toDraw.height, x, y);
        BlitApplies(toDraw, x, y) && toDraw.pixels == pixels ==>
          && (o == Pass <==> SelfComposable(old(pixels[..]), width, height, toDraw.width, toDraw.height, k, k.rows, 0))
          && (o == Pass ==> pixels[..] == SelfComposited(old(pixels[..]), width, height, toDraw.width, toDraw.height, k, k.rows, 0))
      ensures o == Pass ==> needsRefresh
      ensures o.Fail? ==> o.error == DivideByZero && needsRefresh == old(needsRefresh) && BlitApplies(toDraw, x, y)
      ensures var k := ClipOf(width, height, toDraw.width, toDraw.height, x, y);
        o.Fail? && toDraw.pixels != pixels ==> exists r: nat, c: nat ::
          && r < k.rows && c < k.cols
          && ClearPixel(old(pixels[..]), width, toDraw.pixels[..], toDraw.width, k, r, c)
          && Composable(old(pixels[..]), width, height, toDraw.pixels[..], toDraw.width, toDraw.height, k, r, c)
          && pixels[..] == Composited(old(pixels[..]), width, height, toDraw.pixels[..], toDraw.width, toDraw.height, k, r, c)
      ensures var k := ClipOf(width, height, toDraw.width, toDraw.height, x, y);
        o.Fail? && toDraw.pixels == pixels ==> exists r: nat, c: nat ::
          && r < k.rows && c < k.cols
          && ClearPixel(pixels[..], width, pixels[..], toDraw.width, k, r, c)
          && SelfComposable(old(pixels[..]), width, height, toDraw.width, toDraw.height, k, r, c)
          && pixels[..] == SelfComposited(old(pixels[..]), width, height, toDraw.width, toDraw.height, k, r, c)
    {
      var k := ClipOf(width, height, toDraw.width, toDraw.height, x, y);
      if bpp == 4 && toDraw.bpp == 4 && k.cols > 0 && k.rows > 0 {
        ghost var r, c;
        o, r, c := CompositeRect(pixels, width, height, toDraw.pixels, toDraw.width, toDraw.height, k);
        if o.Fail? {
          return;
        }
      } else {
        o := Pass;
      }
      needsRefresh := true;
    }
  }
}
