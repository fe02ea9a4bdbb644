# SnowStorm core in Dafny

This project models the core of the SnowStorm screensaver. The screensaver animates falling
snowflakes: each flake is a small pixel pattern that turns as it falls, is blown by wind fields,
and leaves a short trail. The population of flakes grows while the machine keeps up, then winds
down, and after a pause it starts again. The model covers five parts of the C# program.

- **The interactive image** (`Interactive8BitImage`, modules `PixelOps`, `Blits`, `Pixels`).
  - Storage is a byte array of 1, 3 or 4 bytes per pixel in B, G, R, A order. Each row is padded to a
    multiple of 4 bytes.
  - The class `Pixels.Image` keeps the array and the `needsRefresh` flag.
  - Every operation is a method whose loop is proved to leave the array equal to a function of its old
    contents. That function is stated in `PixelOps` or `Blits`, and the properties the code promises are
    proved about it: involutions, idempotence, saturation bounds, frames, clipping and the compositing
    arithmetic.
- **Flake geometry** (`SnowFlake`, modules `Shapes`, `Rotation`, `Flakes`).
  - Filled square, circle and diamond shapes, and the jagged line.
  - Adding and removing point lists with their mirror images across y = x.
  - The rotation tables: cell insertion, the diagonal-neighbour fill and the quarter-turn closure.
  - The flake class, with its trail and its bounds-checked drawing into a 1-byte mask image.
- **The flake pool** (`SnowDrift`, module `Drift`).
  - An array of flakes with an active flag, a count of pending removals, a count of turned-off flakes
    and the lowest turned-off index.
  - The class invariant ties the counters to a ghost sequence of the active flags. The turned-off count
    is the number of inactive flakes, and the lowest index is the first inactive one, or `int.MaxValue`
    when every flake is active.
- **The population controller** (`SnowStormDrawer.Update`, module `Drawer`).
  - A snowing / winding-down / empty-and-restart state machine with integer rate formulas.
  - The stopwatch readings are inputs of the tick.
- **The frame-rate counter** (`FpsCounter`, module `Fps`).
  - A ring of frame durations with a running total that always equals the sum of the ring.

## Design decisions

- **Random draws.** `Random.Int` is modelled as an arbitrary choice from its inclusive range
  (`Chance.Int`). Every property below holds whatever values are drawn.
- **Wind and rotation as parameters.**
  - The wind fields are a function parameter `wind(field, position)`.
  - The trigonometric rotation used to build the rotation tables is a function parameter.
- **Null cells.** A null `List<Point>` cell of a rotation matrix is an empty sequence.
  - The fill pass fills exactly the cells that no sampled point reached. Those are the cells that are
    still empty, so the two tests agree.
  - Drawing through a cell that does not exist is a `NullReference` error.
- **Exceptions.** An exception becomes an `Outcome` or `Result` error, and the contract states the state
  left behind. Examples are `GetPixel` out of range, `Clear` on a 3-byte image whose length is not a
  multiple of 3, and `DrawImage` with both alphas 0.
- **Drawing an image onto itself.** `OverlayImage` and `DrawImage` accept the image itself as `toDraw`.
  - `Array.Copy` copies as if through a temporary buffer, so each row of a self-overlay is read as the
    earlier rows left it (`Blits.SelfBlitted`).
  - `DrawImage` reads both pixels before it writes, so each pixel of a self-draw is read as the earlier
    pixels left it (`Blits.SelfComposited`).
- **Flake identity.** Each flake records, as a ghost constant, the slot of the pool it was created for.
  The pool's invariant says that the flake at slot i was created for slot i, which makes the flakes of
  the pool pairwise distinct objects.
- **The tick's hidden counts.** The active count and the pending removals left by the drift update in
  the middle of a snowing tick are returned as ghost results of `Drawer.SnowStormDrawer.Update`, so
  that the number of flakes added can be stated as `AddRate` of that count. The flake states that
  update left are a ghost result too, so that a fast cycle can state that every old flake made its
  step before the new ones were added.

### Behaviour of the code worth knowing

- **Neighbour average.** The fill of an empty rotation cell averages only the four **diagonal**
  neighbours of its 3×3 window, because of the test `i != row && j != column`
  (SnowStorm/SnowFlake.cs:314).
- **Compositing.** `DrawImage` composites with alphas in 0..255 without dividing by 255.
  - The new alpha is `srcA + dstA * (255 - srcA)`, clamped to 255.
  - Each channel is `(dst * dstA * (255 - srcA) + src * srcA) / alpha` before the clamp.
  - The result is still a weighted mean of the two channels, and an opaque source is still copied.
- **Pixel addressing.** `GetPixel`/`SetPixel` on 3- and 4-byte images ignore the row padding. The
  1-byte path and `SetPixel8Bit` include it.
- **Flake pool.** Flakes are pooled: a flake is turned off and later reactivated by index.
- **Population control.** It is timing-based: flakes are added while the last cycle was shorter than the
  measured budget.
- **Unsupported formats.** `InvertColors` and `Rotate180` on an image that is not 4 bytes per pixel
  throw. `Rotate180` throws before writing anything.

## Model

| member | source | states |
|---|---|---|
| Common.Clamp | SnowStorm/Interactive8BitImage.cs:813-816 | the result is the value itself inside [0, 255], 0 below and 255 above |
| Chance.Int | SnowStorm/Random.cs:33-36 | a draw lies in the inclusive range [lo, hi] |
| Fps.SumZeros | SnowStorm/Utility/FpsCounter.cs:32 | a freshly allocated window sums to 0 |
| Fps.SumNonNegative | SnowStorm/Utility/FpsCounter.cs:56-59 | a window of non-negative durations has a non-negative total |
| Fps.SumUpdate | SnowStorm/Utility/FpsCounter.cs:56-59 | overwriting one slot changes the sum by the new value minus the old one, which is how the running total is updated |
| Fps.FpsOf | SnowStorm/Utility/FpsCounter.cs:63-67 | 0 for a zero total; otherwise the integer quotient r of 1000·frames by the total, r·total ≤ 1000·frames < (r+1)·total |
| Fps.FpsCounter.constructor | SnowStorm/Utility/FpsCounter.cs:27-34 | a window of frameCount zeros, total, index and rate 0, and the invariant (total = sum of window, index in range, rate = FpsOf) |
| Fps.FpsCounter.Create | SnowStorm/Utility/FpsCounter.cs:29-30 | construction fails (the ArgumentException) exactly when frameCount ≤ 0 |
| Fps.FpsCounter.MarkFrame | SnowStorm/Utility/FpsCounter.cs:51-68 | only the slot at the old index is overwritten, the index advances cyclically, the total tracks the new sum and the invariant is kept; the window array itself stays the same |
| PixelOps.FormatBytes | SnowStorm/Interactive8BitImage.cs:359-383 | 32-bit ARGB has 4 bytes per pixel, 24-bit RGB 3 and 8-bit indexed 1; every other format is an error |
| PixelOps.Padding | SnowStorm/Interactive8BitImage.cs:91-94 | the row padding is below 4, makes the row length a multiple of 4, and is 0 exactly when the row already is one |
| PixelOps.FourBytesNeedNoPadding | SnowStorm/Interactive8BitImage.cs:91-94 | a 4-byte image has no row padding |
| PixelOps.StorageLengthIsPaddedRows | SnowStorm/Interactive8BitImage.cs:96-97 | the storage length is height·(row + padding), a multiple of 4 |
| PixelOps.StorageLength4 | SnowStorm/Interactive8BitImage.cs:96-97 | a 4-byte image stores exactly 4·width·height bytes |
| PixelOps.StorageFacts | SnowStorm/Interactive8BitImage.cs:91-103 | a non-empty image has at least 4 bytes, a multiple of 4 |
| PixelOps.CRem | SnowStorm/Interactive8BitImage.cs:94 | C#'s `%` by a positive divisor: the remainder lies in [0, d) for a non-negative dividend and in (−d, 0] for a negative one |
| PixelOps.SignedStorageLengthSign | SnowStorm/Interactive8BitImage.cs:91-103 | for a non-negative size the byte count is the padded storage length; it is negative exactly when the height is positive and the row length is at most −4, or the height is negative and the row length positive |
| PixelOps.Mask | SnowStorm/Interactive8BitImage.cs:435 | the 1-byte value of a colour is 0 or 255, and 0 exactly when red, green and blue are all 0 |
| PixelOps.PaddedIndexInRange | SnowStorm/Interactive8BitImage.cs:428-433 | the padded offset of an in-bounds pixel lies inside the storage, so the early return of the 1-byte SetPixel never fires |
| PixelOps.UnpaddedIndexInRange | SnowStorm/Interactive8BitImage.cs:398 | the unpadded offset used by GetPixel/SetPixel is at most the padded one and its bytes lie inside the storage |
| PixelOps.DistinctPixelsDisjoint | SnowStorm/Interactive8BitImage.cs:424-446 | two different pixels of a 4-byte image occupy disjoint bytes |
| PixelOps.ReadPixel | SnowStorm/Interactive8BitImage.cs:398-408 | reading fails exactly when its last byte is past the end; B, G, R come from the three bytes at the offset; alpha is 255 unless the image has 4 bytes per pixel |
| PixelOps.WrittenPixel | SnowStorm/Interactive8BitImage.cs:438-446 | writing a pixel changes no byte outside its own bytes |
| PixelOps.ReadAfterWrite | SnowStorm/Interactive8BitImage.cs:391-449 | reading a pixel just written returns the colour written (with alpha 255 on a 3-byte image) |
| PixelOps.ShiftedSaturates | SnowStorm/Interactive8BitImage.cs:244-319 | a shifted channel byte is the old value plus the shift clamped to [0, 255], and moves only in the shift's direction |
| PixelOps.ShiftBackRestores | SnowStorm/Interactive8BitImage.cs:244-319 | shifting a channel and shifting it back restores the image when no byte saturated |
| PixelOps.ShortTailIsMod | SnowStorm/Interactive8BitImage.cs:700-706 | a per-pixel loop that touches three bytes runs past the end exactly when the length modulo the pixel size is 1 or 2 |
| PixelOps.ShortTailOfFormat | SnowStorm/Interactive8BitImage.cs:698-707 | on a storage whose length is a multiple of 4, only a 3-byte image whose length is not a multiple of 3 runs past the end |
| PixelOps.TransparentIdempotent | SnowStorm/Interactive8BitImage.cs:477-491 | making a colour transparent twice is the same as once |
| PixelOps.InvertedInvolution | SnowStorm/Interactive8BitImage.cs:621-638 | inverting the colours twice restores the image |
| PixelOps.Recolored4Pixel | SnowStorm/Interactive8BitImage.cs:500-512 | on a 4-byte image a pixel equal to the old colour in all four bytes gets the new colour, and any other pixel is unchanged |
| PixelOps.Recolored4Idempotent | SnowStorm/Interactive8BitImage.cs:500-512 | replacing a colour twice is the same as once |
| PixelOps.Recolor3FaultsAt | SnowStorm/Interactive8BitImage.cs:514-525 | the 3-byte colour replacement runs past the end exactly when the trailing partial pixel's bytes match the old colour as far as they go |
| PixelOps.Rotated180Pixel | SnowStorm/Interactive8BitImage.cs:835-859 | after the rotation the pixel at offset i is the old pixel at offset n − 4 − i |
| PixelOps.Rotated180Involution | SnowStorm/Interactive8BitImage.cs:835-859 | rotating by 180° twice restores the image |
| PixelOps.GrayLevel | SnowStorm/Interactive8BitImage.cs:568 | the gray level v is the integer mean of B, G, R: 3v ≤ B+G+R < 3v+3 |
| PixelOps.GrayedSlot | SnowStorm/Interactive8BitImage.cs:566-572 | after the conversion a pixel's B, G, R all equal its old gray level and its alpha is unchanged |
| PixelOps.GrayedIdempotent | SnowStorm/Interactive8BitImage.cs:564-575 | converting to grayscale twice is the same as once |
| PixelOps.FirstMatch | SnowStorm/Interactive8BitImage.cs:546-555 | the index found is the first colour whose B, G, R match; no colour matches when none is found |
| PixelOps.RecoloredManySlot | SnowStorm/Interactive8BitImage.cs:540-556 | a pixel's B, G, R become those of the replacement paired with its first matching colour; alpha and unmatched pixels are unchanged |
| PixelOps.RecoloredManyIdentity | SnowStorm/Interactive8BitImage.cs:535-559 | replacing every colour by itself leaves the image unchanged |
| PixelOps.BlendedAlpha | SnowStorm/Interactive8BitImage.cs:782 | the composite alpha is non-negative and is 0 exactly when both alphas are 0, the divisor that throws |
| PixelOps.WeightedMean | SnowStorm/Interactive8BitImage.cs:784-791 | a weighted integer mean lies between the two values |
| PixelOps.BlendedChannel | SnowStorm/Interactive8BitImage.cs:784-791 | a composite colour channel lies between the destination's and the source's channel |
| PixelOps.CompositeByteLocal | SnowStorm/Interactive8BitImage.cs:776-821 | a composite byte depends only on the four bytes of its own destination pixel |
| PixelOps.OpaqueSourceCopies | SnowStorm/Interactive8BitImage.cs:779-821 | an opaque source pixel is copied: alpha 255 and the source's channels |
| PixelOps.TransparentSourceKeepsColour | SnowStorm/Interactive8BitImage.cs:779-821 | a transparent source over a visible destination keeps the destination's colour and makes alpha 255 (the alpha is not divided by 255) |
| Blits.ClipOf | SnowStorm/Interactive8BitImage.cs:648-667 | the clipped rectangle starts at x, skips the rows above the top edge, and fits both images whenever it is non-empty |
| Blits.ClipExact | SnowStorm/Interactive8BitImage.cs:648-669 | a source pixel lies in the clipped rectangle exactly when its target lies inside the destination |
| Blits.PixelsInRange | SnowStorm/Interactive8BitImage.cs:671-674 | every clipped pixel's bytes lie inside both arrays |
| Blits.BlitRowStep | SnowStorm/Interactive8BitImage.cs:672-674 | copying one more row is one Array.Copy of that row's bytes |
| Blits.BlitCopiesVisible | SnowStorm/Interactive8BitImage.cs:646-680 | each byte of a source pixel whose target is inside the destination is copied to that target |
| Blits.BlitFrame | SnowStorm/Interactive8BitImage.cs:646-680 | no destination byte outside the placed source rectangle changes |
| Blits.SelfBlitUpward | SnowStorm/Interactive8BitImage.cs:669-675 | an overlay of an image onto itself whose source rows lie at or below their targets reads every row before it is overwritten, so it equals the blit from an untouched copy |
| Blits.CompositedAt | SnowStorm/Interactive8BitImage.cs:767-825 | each clipped pixel reached before the stop point holds the composite of its old bytes with the source pixel, unless both alphas are 0; every other byte of the rectangle's pixels keeps its old value |
| Blits.CompositeStep | SnowStorm/Interactive8BitImage.cs:776-821 | compositing one more pixel writes exactly its four bytes |
| Blits.SelfComposablePrefix | SnowStorm/Interactive8BitImage.cs:767-825 | a draw of an image onto itself that gets past every pixel before some position gets past every pixel before any earlier one |
| Blits.SelfClearBlocks | SnowStorm/Interactive8BitImage.cs:776-782 | a pixel of an image drawn onto itself whose current alphas are both 0 stops the draw before every later position |
| Blits.SourceAhead | SnowStorm/Interactive8BitImage.cs:769-778 | when the source rectangle starts at or after its target in the image, compositing the earlier pixels leaves the source bytes of each pixel untouched |
| Blits.SelfCompositeForward | SnowStorm/Interactive8BitImage.cs:767-825 | a draw of an image onto itself whose source starts at or after its target stops where, and leaves what, a draw from an untouched copy of the image would |
| Pixels.FillBytes | SnowStorm/Interactive8BitImage.cs:105-106 | every byte is set to the value |
| Pixels.FillChannel | SnowStorm/Interactive8BitImage.cs:196-238 | the bytes of one channel are set to the value and no other byte changes |
| Pixels.ShiftChannel | SnowStorm/Interactive8BitImage.cs:244-319 | the array becomes the saturating shift of one channel of the old array |
| Pixels.MarkTransparent | SnowStorm/Interactive8BitImage.cs:477-491 | the array becomes the old array with the alpha of every pixel of the given colour set to 0 |
| Pixels.InvertPixels | SnowStorm/Interactive8BitImage.cs:627-635 | the array becomes the old array with B, G, R inverted |
| Pixels.Recolor4 | SnowStorm/Interactive8BitImage.cs:500-512 | the array becomes the 4-byte colour replacement of the old array |
| Pixels.Recolor3 | SnowStorm/Interactive8BitImage.cs:514-525 | the array becomes the 3-byte colour replacement of the old array, and the call fails exactly when the trailing partial pixel matches |
| Pixels.FindColour | SnowStorm/Interactive8BitImage.cs:546-555 | the inner search returns the first matching index, or the length when nothing matches |
| Pixels.RecolorSlots | SnowStorm/Interactive8BitImage.cs:540-556 | the array becomes the multi-colour replacement of the old array, failing exactly when the last pixel is short |
| Pixels.GraySlots | SnowStorm/Interactive8BitImage.cs:566-572 | the array becomes the grayscale of the old array, failing exactly when the last pixel is short |
| Pixels.ClearMask | SnowStorm/Interactive8BitImage.cs:690-697 | every byte of a 1-byte image becomes the colour's mask value |
| Pixels.ClearColour | SnowStorm/Interactive8BitImage.cs:698-720 | every pixel of a 3- or 4-byte image gets the colour (with alpha on 4 bytes), failing exactly when the last pixel is short |
| Pixels.ClearSlots | SnowStorm/Interactive8BitImage.cs:682-721 | the array becomes the cleared image, failing only for a short 3-byte tail |
| Pixels.RotatePixels | SnowStorm/Interactive8BitImage.cs:839-856 | the array becomes the 180° rotation of the old array |
| Pixels.CopyBytes | SnowStorm/Interactive8BitImage.cs:673-674 | the destination becomes the old destination with n bytes of the old source spliced in, also when both are one array and the ranges overlap, as Array.Copy copies through a temporary |
| Pixels.OverlayRows | SnowStorm/Interactive8BitImage.cs:669-675 | the destination becomes the row-by-row blit of the clipped rectangle; on an image overlaid onto itself each row is copied from the image as the earlier rows left it (SelfBlitted) |
| Pixels.BlendPixel | SnowStorm/Interactive8BitImage.cs:779-821 | both pixels are read before the first write, so exactly the four bytes of the destination pixel become the composite of the old destination and old source pixels, also when both lie in one array |
| Pixels.CompositePixel | SnowStorm/Interactive8BitImage.cs:779-821 | compositing one more pixel moves the array one step along the composite; on an image drawn onto itself, one step along SelfComposited, the pixel read as the earlier ones left it |
| Pixels.CompositeAt | SnowStorm/Interactive8BitImage.cs:776-821 | a pixel whose two alphas are both 0 fails with DivideByZero, changing nothing, and no later pixel of the row can be reached; any other pixel is composited and the row gets one pixel further |
| Pixels.CompositeRow | SnowStorm/Interactive8BitImage.cs:769-823 | a row completes exactly when no pixel in it has both alphas 0; otherwise it stops with DivideByZero at the first such pixel, everything before it composited; on an image drawn onto itself the alphas are those the earlier pixels left |
| Pixels.CompositeRect | SnowStorm/Interactive8BitImage.cs:767-825 | the rectangle completes exactly when it is composable; otherwise it stops with DivideByZero at the first pixel with both alphas 0, everything before it composited; on an image drawn onto itself each pixel is read as the earlier ones left it |
| Pixels.Image.constructor | SnowStorm/Interactive8BitImage.cs:78-111 | the image has the given size and the format's pixel size, padded storage with every byte 150, and needs a refresh |
| Pixels.Image.Create | SnowStorm/Interactive8BitImage.cs:78-111 | construction fails with UnsupportedFormat exactly for an unsupported format; otherwise with Overflow exactly when the byte count computed with C#'s `%` is negative, as `new byte[]` throws; otherwise with InvalidArgument exactly for a non-positive size; on success the image has the given size and the format's pixel size |
| Pixels.Image.GetPixel | SnowStorm/Interactive8BitImage.cs:391-411 | out-of-range coordinates fail with OutOfRange; otherwise the pixel is read at the unpadded offset, which always succeeds on 3- and 4-byte images |
| Pixels.Image.SetPixel | SnowStorm/Interactive8BitImage.cs:419-449 | out-of-range coordinates fail with nothing changed; a 1-byte image gets the mask value at the padded offset; otherwise only the pixel's bytes change and GetPixel returns the colour |
| Pixels.Image.SetPixel8Bit | SnowStorm/Interactive8BitImage.cs:457-471 | the byte at the padded offset is set when that offset is in the array, which it always is for in-bounds coordinates; otherwise IndexOutOfRange with nothing changed |
| Pixels.Image.RemoveRed | SnowStorm/Interactive8BitImage.cs:196-202 | every byte at offset 2 plus a multiple of the pixel size (the red byte of each pixel, for every format) becomes 0 and nothing else changes |
| Pixels.Image.RemoveGreen | SnowStorm/Interactive8BitImage.cs:207-213 | every byte at offset 1 plus a multiple of the pixel size (the green byte of each pixel, for every format) becomes 0 and nothing else changes |
| Pixels.Image.RemoveBlue | SnowStorm/Interactive8BitImage.cs:218-224 | every byte at offset 0 plus a multiple of the pixel size (the blue byte of each pixel, for every format) becomes 0 and nothing else changes |
| Pixels.Image.RemoveAlpha | SnowStorm/Interactive8BitImage.cs:229-238 | on a 4-byte image every alpha becomes 0; other images are unchanged |
| Pixels.Image.SetAlpha | SnowStorm/Interactive8BitImage.cs:325-334 | on a 4-byte image every alpha becomes the value; other images are unchanged |
| Pixels.Image.ShiftRed | SnowStorm/Interactive8BitImage.cs:285-299 | on a 4-byte image the red channel is shifted with saturation and no other channel changes; other images are unchanged |
| Pixels.Image.ShiftGreen | SnowStorm/Interactive8BitImage.cs:265-279 | on a 4-byte image the green channel is shifted with saturation and no other channel changes; other images are unchanged |
| Pixels.Image.ShiftBlue | SnowStorm/Interactive8BitImage.cs:244-259 | on a 4-byte image the blue channel is shifted with saturation and no other channel changes; other images are unchanged |
| Pixels.Image.ShiftAlpha | SnowStorm/Interactive8BitImage.cs:305-319 | on a 4-byte image the alpha channel is shifted with saturation and no other channel changes; other images are unchanged |
| Pixels.Image.SetTransparent | SnowStorm/Interactive8BitImage.cs:477-491 | on a 4-byte image the pixels of the colour become transparent; other images are unchanged |
| Pixels.Image.InvertColors | SnowStorm/Interactive8BitImage.cs:621-638 | a 4-byte image has its B, G, R inverted; any other image fails with nothing changed |
| Pixels.Image.ChangeColor | SnowStorm/Interactive8BitImage.cs:498-528 | the 4-byte replacement compares and writes all four bytes; the 3-byte one compares and writes B, G, R and fails exactly when the trailing partial pixel matches |
| Pixels.Image.ChangeColors | SnowStorm/Interactive8BitImage.cs:535-559 | arrays of different lengths fail with nothing changed; otherwise each pixel takes its first match's colour, failing on a 3-byte image whose length is not a multiple of 3 |
| Pixels.Image.SetAsGrayScale | SnowStorm/Interactive8BitImage.cs:564-575 | every pixel's B, G, R become its gray level, failing on a 3-byte image whose length is not a multiple of 3 |
| Pixels.Image.Clear | SnowStorm/Interactive8BitImage.cs:682-721 | a 1-byte image becomes all mask bytes; every pixel of a 3- or 4-byte image gets the colour; only a 3-byte image whose length is not a multiple of 3 fails |
| Pixels.Image.Rotate180 | SnowStorm/Interactive8BitImage.cs:835-859 | a 4-byte image is rotated by 180°; any other image fails with nothing changed |
| Pixels.Image.OverlayImage | SnowStorm/Interactive8BitImage.cs:646-680 | when both images are 4-byte and the clip is non-empty, the array becomes the clipped blit, row by row from the image as earlier rows left it when toDraw is this image; otherwise it is unchanged; the refresh flag is set |
| Pixels.Image.DrawImage | SnowStorm/Interactive8BitImage.cs:729-830 | when the blit applies, it succeeds exactly when no clipped pixel has both alphas 0, and the array becomes the composite; on failure it stops at the first such pixel with the earlier pixels composited and the refresh flag as it was; drawing an image onto itself reads each pixel as the earlier ones left it |
| Shapes.MaxFlakeRadiusIsMax | SnowStorm/SnowFlake.cs:22-26 | the largest flake radius is the maximum of the flake sizes |
| Shapes.FloorSqrt | SnowStorm/SnowFlake.cs:572 | the circle's column height is the integer square root: r² ≤ n < (r+1)² |
| Shapes.HeightIsShape | SnowStorm/SnowFlake.cs:556-590 | a point lies within its column's height exactly when it lies in the square, circle or diamond |
| Shapes.ShapeMirrorSymmetric | SnowStorm/SnowFlake.cs:544-600 | each shape is symmetric under swapping x and y |
| Shapes.FullShape | SnowStorm/SnowFlake.cs:551-597 | the list holds exactly the points of the shape, each once |
| Shapes.QuarterShape | SnowStorm/SnowFlake.cs:607-660 | the list holds exactly the non-negative points of the shape, each once |
| Shapes.GetRandomShape | SnowStorm/SnowFlake.cs:544-600 | the list is one of the three shapes of the radius, without duplicates |
| Shapes.GetRandomQuarterShape | SnowStorm/SnowFlake.cs:607-660 | the list is one of the three quarter shapes of the radius, without duplicates |
| Shapes.CreateJaggedLine | SnowStorm/SnowFlake.cs:472-495 | the line has one point per column x in [0, radius), with 0 ≤ y ≤ x and each step clamped from a move of at most 3 |
| Shapes.Reflect | SnowStorm/SnowFlake.cs:677-678 | the reflected list is each point with x and y swapped, in order |
| Shapes.AddPixel | SnowStorm/SnowFlake.cs:693-710 | the flake gets the points appended, followed by their mirror images; earlier entries are unchanged |
| Shapes.IndexOf | SnowStorm/SnowFlake.cs:684 | the first index of the point, or −1 when it is absent |
| Shapes.RemoveFirst | SnowStorm/SnowFlake.cs:684 | List.Remove deletes the first occurrence only, and reports whether there was one |
| Shapes.RemoveEach | SnowStorm/SnowFlake.cs:683-684 | removing a list deletes one occurrence per entry at most: the multiset difference |
| Shapes.RemovePixel | SnowStorm/SnowFlake.cs:668-685 | the flake loses the points and their mirror images, one occurrence each, and shrinks by at most 2n |
| Shapes.PairsBalanced | SnowStorm/SnowFlake.cs:702-704 | points together with their mirror images hold every point as often as its mirror |
| Shapes.AddPixelKeepsBalance | SnowStorm/SnowFlake.cs:693-710 | adding points keeps a mirror-balanced flake balanced |
| Shapes.RemovePixelKeepsBalance | SnowStorm/SnowFlake.cs:668-685 | removing points keeps a mirror-balanced flake balanced |
| Rotation.MapRotatedPoint | SnowStorm/SnowFlake.cs:207-228 | the point is appended to the cell of its back-rotated position when that cell is in the first quadrant of the matrix and lacks it; no other cell changes and no duplicate is added |
| Rotation.RoundHalfEven | SnowStorm/SnowFlake.cs:324-325 | the rounded quotient is within half a unit of a/n and is even on a tie |
| Rotation.AddCell | SnowStorm/SnowFlake.cs:315-319 | the sums of a cell's x and y coordinates |
| Rotation.SumRow | SnowStorm/SnowFlake.cs:313-319 | one row of the window adds the cells off the centre row and column |
| Rotation.SumWindow | SnowStorm/SnowFlake.cs:306-319 | the window sums exactly the points of the four diagonal neighbours |
| Rotation.WindowIsDiagonals | SnowStorm/SnowFlake.cs:312-314 | the cells the 3×3 window counts are the four diagonal neighbours |
| Rotation.GetAverageOfSurroundingPoints | SnowStorm/SnowFlake.cs:295-330 | the cell gains one point, the half-to-even mean of its diagonal neighbours' points, exactly when they hold any; no other cell changes |
| Rotation.TurnsOfPoint | SnowStorm/SnowFlake.cs:275-283 | a point is among the three quarter turns of p exactly when turning it one, two or three times gives p |
| Rotation.OrbitOfTurn | SnowStorm/SnowFlake.cs:275-283 | a quarter turn of a point in a list's orbit is in the orbit |
| Rotation.AddTurns | SnowStorm/SnowFlake.cs:275-283 | the list keeps its prefix and gains exactly the missing quarter turns of the point, without duplicates |
| Rotation.Rotate90Closure | SnowStorm/SnowFlake.cs:269-284 | the list keeps its original points as a prefix, contains exactly the quarter-turn orbit, is closed under (x, y) → (y, −x) and gains no duplicates |
| Rotation.FillPass | SnowStorm/SnowFlake.cs:252-259 | only first-quadrant cells that were empty change, so every listed point stays where it was, and the table keeps its shape |
| Rotation.CloseCell | SnowStorm/SnowFlake.cs:269-284 | one cell is closed under quarter turns and no other cell changes |
| Rotation.ClosePass | SnowStorm/SnowFlake.cs:266-285 | every first-quadrant cell keeps its points as a prefix, gains exactly their quarter-turn orbit and is closed under quarter turns; other cells are unchanged |
| Rotation.MapColumn | SnowStorm/SnowFlake.cs:243-247 | every sampled point (x, y) of the column is listed in the first-quadrant cell its back-rotation hashes to, and points listed before stay listed |
| Rotation.MapAngle | SnowStorm/SnowFlake.cs:235-286 | every point of the square [−2R, 2R]² is listed in the cell its back-rotation hashes to whenever that cell is in the first quadrant; the table lists points only in first-quadrant cells, none twice, and every first-quadrant cell is closed under quarter turns |
| Rotation.InitRotationHash | SnowStorm/SnowFlake.cs:335-348 | 90 fresh tables of the full dimension, each well formed and closed; in table `angle` every sampled point is listed in the first-quadrant cell that `turnBack(angle, ·)`, the rotation by −angle degrees, maps it to |
| Flakes.Trunc | SnowStorm/SnowFlake.cs:129 | the (int) cast truncates toward zero |
| Flakes.Blend | SnowStorm/SnowFlake.cs:739-740 | the inertia-weighted blend lies between the acceleration and the old velocity |
| Flakes.Accelerated | SnowStorm/SnowFlake.cs:735-745 | the new velocity lies between the wind reading and the old velocity in each component, the vertical one raised to at least the minimum falling speed |
| Flakes.RecordedIsSuffix | SnowStorm/SnowFlake.cs:761-762 | appending each position and dropping the oldest keeps the last positions, so the trail length never changes |
| Flakes.Moved | SnowStorm/SnowFlake.cs:809-810 | offsetting a cell's points by the flake position |
| Flakes.DrawStopped | SnowStorm/SnowFlake.cs:797-843 | a missing cell, or an unchecked write past the array, makes the pattern undrawable, and what was drawn so far is accounted for |
| Flakes.PlotPoint | SnowStorm/SnowFlake.cs:813 | one write of 255; it fails with IndexOutOfRange, changing nothing, exactly when it is unchecked and past the end of the array |
| Flakes.PlotCell | SnowStorm/SnowFlake.cs:803-814 | every point of a cell is whitened (inside the image on the checked path); the call fails exactly when an unchecked write falls outside the array |
| Flakes.SnowFlake.constructor | SnowStorm/SnowFlake.cs:112-131 | the kinematic state is as given, the pattern is one of the patterns passed in, the trail holds trailLength copies of the truncated start position, and the flake starts inactive |
| Flakes.SnowFlake.ReInit | SnowStorm/SnowFlake.cs:718-730 | position, velocity and inertia are reset, the pattern is one of the patterns passed in, and the trail and the active flag are untouched |
| Flakes.SnowFlake.InBounds | SnowStorm/SnowFlake.cs:770-774 | a flake in the field is drawn around a pixel of the field |
| Flakes.SnowFlake.FastPath | SnowStorm/SnowFlake.cs:788-795 | the unchecked path is taken only when every pixel of the 60×60 box around the flake's pixel lies in the image, so the flake is in bounds |
| Flakes.SnowFlake.FastPathExactly | SnowStorm/SnowFlake.cs:788-795 | the unchecked path is taken exactly when the whole box lies in the image, as Rectangle.Contains decides |
| Flakes.SnowFlake.Accelerate | SnowStorm/SnowFlake.cs:735-745 | the velocity is the inertia-weighted blend with the wind, with the vertical part at least the minimum falling speed; nothing else changes |
| Flakes.SnowFlake.Move | SnowStorm/SnowFlake.cs:750-763 | the position advances by the velocity, and the trail drops its oldest entry and appends the new truncated position |
| Flakes.SnowFlake.Draw | SnowStorm/SnowFlake.cs:780-849 | drawing succeeds exactly when the pattern is drawable; only pattern and trail points are whitened, on the slow path only inside the image; on success every pattern and trail point shows; the image is flagged for refresh exactly when the trail was drawn and some trail point lies inside it |
| Flakes.SnowFlake.DrawPixel | SnowStorm/SnowFlake.cs:797-814 | one pattern pixel draws its cell's points, failing on a missing cell or an unchecked write past the end |
| Flakes.SnowFlake.DrawPattern | SnowStorm/SnowFlake.cs:784-844 | the pattern alone succeeds exactly when it is drawable, fails with IndexOutOfRange or NullReference otherwise, whitens only the pattern's points (only inside the image on the slow path), and on success shows them all |
| Flakes.SnowFlake.DrawPoints | SnowStorm/SnowFlake.cs:797-843 | the pattern loop succeeds exactly when every cell exists and every unchecked write is in the array; only drawn points change |
| Flakes.SnowFlake.DrawTrail | SnowStorm/SnowFlake.cs:846-848 | only trail points inside the image are whitened, every trail point inside the image shows, and SetPixel flags the image for refresh exactly when some trail point lies inside it |
| Flakes.GetRandomFlakeSize | SnowStorm/SnowFlake.cs:137-140 | the size is one of 20, 15, 7 and 3 |
| Drift.CountSet | SnowStorm/SnowDrift.cs:120-121 | setting one flag moves the active and inactive counts by one exactly when it changes |
| Drift.FirstOffCount | SnowStorm/SnowDrift.cs:117-120 | an inactive flake exists exactly when the turned-off count is positive |
| Drift.TurnOffFlags | SnowStorm/SnowDrift.cs:245-251 | turning a flake off raises the inactive count by one and lowers the lowest index to it when smaller |
| Drift.TurnOnFlags | SnowStorm/SnowDrift.cs:119-129 | turning on the lowest inactive flake lowers the inactive count by one, and every earlier flake is active |
| Drift.AppendOnFlags | SnowStorm/SnowDrift.cs:142-143 | appending an active flake keeps the inactive count and the absence of inactive flakes |
| Drift.EdgePoint | SnowStorm/SnowDrift.cs:180-206 | a spawn point lies in the field, on the top edge or on the upwind side edge |
| Drift.EdgePointCovers | SnowStorm/SnowDrift.cs:186-203 | draws below the width give the top-edge point at that x; draws past the width give the side-edge point at that height |
| Drift.Consumed | SnowStorm/SnowDrift.cs:237-246 | an update that finds k active flakes outside the field uses one pending removal for each while any is left: the pending count drops by k, or to 0 when it was at most k |
| Drift.ConsumedStep | SnowStorm/SnowDrift.cs:237-246 | one more flake outside the field uses one more removal exactly when one is still pending |
| Drift.Outside | SnowStorm/SnowDrift.cs:229-230 | the number of active flakes outside the field among the first k is at most k |
| Drift.SnowDrift.constructor | SnowStorm/SnowDrift.cs:78-103 | the field is enlarged by 40 (twice the largest flake radius) in each dimension, the mask image is 1 byte per pixel, the pool has the configured capacity, the general wind is in [−5, 5]×[1, 4], and exactly one flake is active when the capacity is positive |
| Drift.SnowDrift.SnowFlakeCount | SnowStorm/SnowDrift.cs:265-268 | the count is the number of active flakes |
| Drift.SnowDrift.RemoveFlakes | SnowStorm/SnowDrift.cs:148-153 | the pending removals become min(old + n, numFlakes), and nothing else changes |
| Drift.SnowDrift.NewFlakePosition | SnowStorm/SnowDrift.cs:180-206 | the position is a spawn point on the field's edge |
| Drift.SnowDrift.AddFlakes | SnowStorm/SnowDrift.cs:109-146 | in priority order it cancels a pending removal, reactivates the lowest inactive flake, or appends a new active flake (of a valid size, with a pattern of that size) while below capacity; the invariant is kept and the count rises by at most one, and not at all when a removal is cancelled |
| Drift.SnowDrift.Reactivate | SnowStorm/SnowDrift.cs:117-130 | the lowest inactive flake is turned on and the scan finds the next inactive flake (or int.MaxValue) |
| Drift.SnowDrift.ScanOn | SnowStorm/SnowDrift.cs:124-125 | the scan stops at the first inactive index from its start, or at numFlakes |
| Drift.SnowDrift.Append | SnowStorm/SnowDrift.cs:131-145 | a fresh active flake is appended, with wind field numFlakes mod 100, inertia in [25, 40], zero velocity, a spawn position and a pattern of its size; the earlier flakes keep their states |
| Drift.SnowDrift.Push | SnowStorm/SnowDrift.cs:143 | the flake is stored at numFlakes, the slot it was created for, and the count grows by one |
| Drift.SnowDrift.NewFlake | SnowStorm/SnowDrift.cs:137-142 | a fresh active flake of a valid size with a pattern of that size, inertia in [25, 40], zero velocity, a spawn position and the wind field of its slot, created for slot numFlakes |
| Drift.SnowDrift.UpdateFlake | SnowStorm/SnowDrift.cs:225-260 | the flake is turned off exactly when it is active, has left the field and a removal is pending, which moves one removal from pending to turned off; an active flake takes its step (Stepped: re-spawned at rest with a new inertia and pattern if outside the field, then its velocity becomes the wind blend, its position moves by it and the trail records it); an inactive flake and every other flake are unchanged |
| Drift.SnowDrift.Advance | SnowStorm/SnowDrift.cs:229-258 | an active flake outside the field is re-spawned and turned off if a removal is pending; then it is blown, so its whole update is Stepped |
| Drift.SnowDrift.Recycle | SnowStorm/SnowDrift.cs:231-252 | the flake is re-spawned at a spawn point at rest with a new inertia and pattern, keeping its trail, and turned off exactly when a removal is pending |
| Drift.SnowDrift.Blow | SnowStorm/SnowDrift.cs:257-258 | the velocity becomes the inertia-weighted blend with the wind reading at the flake's position, the position moves by the new velocity, the trail records the new position, and inertia, pattern and flag are kept |
| Drift.SnowDrift.Respawn | SnowStorm/SnowDrift.cs:232-234 | the flake restarts at a spawn point with zero velocity, a new inertia in [25, 40] and a pattern of its size, keeping its trail and its flag |
| Drift.SnowDrift.TurnOff | SnowStorm/SnowDrift.cs:243-252 | the flake is turned off, pending decreases and turned-off increases by one, and the lowest index is updated |
| Drift.SnowDrift.Update | SnowStorm/SnowDrift.cs:211-260 | pending plus turned-off is conserved; the removals left pending are exactly the old ones less one per active flake found outside the field, down to 0; active flakes less pending removals are conserved; every flake made its step, an inactive one unchanged, and only flakes that were outside the field are turned off |
| Drift.SnowDrift.UpdatedAdvanced | SnowStorm/SnowDrift.cs:211-260 | once the update has reached every flake, each flake has made its step from its old state, whatever its flag is now |
| Drift.SnowDrift.AddBatch | SnowStorm/SnowStormDrawer.cs:198-199 | n calls of AddFlakes raise the count by at most n, and raise the count less pending removals by exactly n unless the pool ends full with no removal pending; the flakes already there keep their slots and states |
| Drift.SnowDrift.UpdateNext | SnowStorm/SnowDrift.cs:213-216 | one more flake is updated; the pending removals follow Consumed over the flakes seen so far, and pending plus turned-off is conserved |
| Drawer.AddRate | SnowStorm/SnowStormDrawer.cs:188-195 | flakes added per fast cycle: always in [1, 20], exactly 20 from a count of 200, and at most 1 + count/10 below it |
| Drawer.RemoveRate | SnowStorm/SnowStormDrawer.cs:224-235 | flakes removed per batch: always in [1, 14], and exactly 10 from a count of 200 |
| Drawer.AddRateMonotone | SnowStorm/SnowStormDrawer.cs:188-195 | the add rate never falls as the count grows |
| Drawer.RemoveRateMonotoneBelowLimit | SnowStorm/SnowStormDrawer.cs:224-231 | below 200 flakes the removal batch never falls as the count grows |
| Drawer.SnowStormDrawer.constructor | SnowStorm/SnowStormDrawer.cs:97-122 | a new drift, snowing, with the budget one tenth of the sampled ticks |
| Drawer.SnowStormDrawer.Update | SnowStorm/SnowStormDrawer.cs:175-255 | the tick does what Ticked states for its phase: snowing as in Snowed; winding down as in WoundDown, with the snowing flag, the slow-cycle counter and the budget kept; an empty drift restarts after 10000 ms with the budget averaged with a new sample and exactly one active flake when the pool has room, and before that nothing changes |
| Drawer.SnowStormDrawer.Restart | SnowStorm/SnowStormDrawer.cs:244-253 | the budget becomes the average of the old one and the new sample, and a fresh drift starts snowing |
| Drawer.SnowStormDrawer.Settle | SnowStorm/SnowStormDrawer.cs:216-254 | with flakes left, it winds down as WoundDown states and keeps the budget and the stopped flag; once empty, a restart after 10000 ms, and before that the drift's flakes, flags and pending removals stay as they were |
| Drawer.SnowStormDrawer.Snow | SnowStorm/SnowStormDrawer.cs:182-215 | Snowed: the drift update uses one pending removal per active flake found outside the field (Consumed) and conserves active-less-pending; under budget exactly AddRate of the active count after that update is added, raising active-less-pending by as many unless the pool fills, the old flakes keep their slots and have each made their step, and the slow-cycle counter resets; over budget the counter grows, one removal is requested once it exceeds 10, capped at the pool size, and every flake has made its step with no flake added; snowing stops exactly at 90000 ms |
| Drawer.SnowStormDrawer.FastCycle | SnowStorm/SnowStormDrawer.cs:184-203 | the drift update consumes pending removals as Consumed states and every old flake makes its step; then AddRate of the active count after that update is added, raising active-less-pending by as many unless the pool fills, the old flakes keeping their slots and stepped states |
| Drawer.SnowStormDrawer.UpdateDrift | SnowStorm/SnowStormDrawer.cs:184 | the pending removals become Consumed of the old ones by the active flakes outside the field, active-less-pending is conserved, the pool keeps its flakes and every flake has made its step |
| Drawer.SnowStormDrawer.SlowCycle | SnowStorm/SnowStormDrawer.cs:184-211 | the drift update consumes pending removals as Consumed states and every flake makes its step; past 10 slow cycles one removal is requested, capped at the pool size; no flake is added and the pool keeps its flakes |
| Drawer.SnowStormDrawer.WindDown | SnowStorm/SnowStormDrawer.cs:219-242 | WoundDown: past 500 ms a batch of RemoveRate(count) removals is requested, capped at the pool size, and the timer restarts; the drift update then consumes the capped pending removals as Consumed states, every flake makes its step, the pool keeps its flakes and the count does not grow |

## Left out

- **Bitmap interop.** The `Interactive8BitImage(Bitmap)` constructor, `GetImage`/`SetBitImage`,
  `CopyToBitmap`, `RandomizeBytes` and the `Graphics.DrawImage`/`DrawString` calls are foreign library
  I/O. They are not part of this model.
- **Floating point.**
  - Real arithmetic stands for `float`. `Accelerate` and `Move` compute positions and velocities exactly,
    with no single-precision rounding.
  - The flake's rotation speed and angle, `RotatePointAroundCenter` and the 45° pattern builders
    (`Build8AngleFlake`, `BuildJaggedFlake`, `InitSnowFlakePatterns`) are not modelled.
  - The trigonometric rotation is a function parameter of the table builders.
  - The rotation table a flake draws through is a parameter of `Draw`.
- **Rounded mean.** `Rotation.GetAverageOfSurroundingPoints` rounds the exact quotient half to even. The
  source rounds a single-precision quotient; the two agree for the small sums the tables hold.
- **Concurrency.**
  - `Parallel.For` in `SnowDrift.Update` is a sequential loop over the flakes.
  - The `lock` around the removal bookkeeping disappears.
  - The background pattern task is not modelled.
- **Wind fields.** `WindField` is not part of this model. Its acceleration is the parameter
  `wind(field, position)`.
- **Timing.** Stopwatch readings, `Thread.Sleep` and `TimerSampling` become inputs of the tick. The
  restart of the drift stopwatch is a returned flag. The field `calculationTime` is the tick's input
  `cycleTicks`; besides that comparison it is only read by the statistics overlay of `Draw`.
- **Order of independent writes.** `Drawer.SnowStormDrawer.Snow` sets the snowing flag and the
  slow-cycle counter before the drift update rather than after it. Neither is read by the drift, so the
  resulting state is the same. `FpsCounter.Start`/`Stop` only drive the stopwatch
  and are not modelled.
- **Settings and UI.**
  - `LoadUserSettings` and the settings file are not modelled. The trail length and the pool capacity
    are constructor parameters.
  - The WinForms UI is not modelled.
  - `SnowDrift.Draw` and `SnowStormDrawer.Draw` are not modelled. They clear the mask, draw every active
    flake with `SnowFlake.Draw` and hand the bitmap to GDI+.
- **Pattern library.** The library is a parameter: a map from flake size to non-empty pattern lists.
- **32-bit arithmetic.** C# `int` arithmetic is unbounded here. The frame total,
  `1000 * frames / total`, `algorithmTicks`, the pixel offsets and the byte count of a new image are
  never taken modulo 2³², so a size whose byte count wraps around is not modelled.
- **Point lists as values.** `Shapes.AddPixel` and `Shapes.RemovePixel` return the new list instead of
  changing the caller's `List<Point>`, so aliasing of that list is not captured.
- **Fenced-off defects.**
  - `Pixels.Image.OverlayImage` and `Pixels.Image.DrawImage` take `x ≥ 0`. Their clipping for a negative
    x moves the destination offset before the image instead of skipping source columns.
  - `Pixels.Image.ChangeColor`, `Pixels.Image.ChangeColors` and `Pixels.Image.SetAsGrayScale` require an
    image of 3 or 4 bytes per pixel. On a 1-byte image they read and write the neighbouring pixels' bytes.
  - `Pixels.Image.GetPixel` on a 1-byte image is modelled as written: it reads three bytes and fails past
    the end.
- **Weaker contracts.**
  - `Rotation.MapAngle` and `Rotation.InitRotationHash` state that every sampled point is listed in the
    cell of its back-rotated position. They do not state the converse, that a cell holds nothing but
    those points, its fill mean and their quarter turns. What an empty cell receives is stated per cell
    by `Rotation.GetAverageOfSurroundingPoints`.
  - `Rotation.FillPass` states which cells may change, and that a non-empty cell keeps its contents.
    What an empty cell receives is stated by `Rotation.GetAverageOfSurroundingPoints`.
  - `Shapes.GetRandomShape` and `Shapes.GetRandomQuarterShape` state that the list is one of the three
    shapes. The drawn shape kind is not returned.
