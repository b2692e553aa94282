/**
 * The geometric half of the dynamic tiling planner: `dynamic_preprocess`
 * resizes the image to a whole number of tiles, crops it into square tiles in
 * row-major order and may append a thumbnail of the whole image; `load_image`
 * runs it with at most six tiles and a thumbnail.
 */
module Tiling {
  import opened Wrappers
  import opened AspectRatio
  import DivMod

  /** A decoded image, known only by its size in pixels. */
  datatype Image = Image(width: nat, height: nat)

  /** A crop rectangle as PIL takes it: left and upper inclusive, right and lower exclusive. */
  datatype Box = Box(left: int, upper: int, right: int, lower: int)

  /** One entry of `processed_images`: a crop of the resized canvas, or the whole image shrunk to one tile. */
  datatype Tile = Crop(box: Box) | Thumbnail

  datatype PreprocessError =
    | ZeroHeight        // `orig_width / orig_height` divides by zero
    | NonPositiveSize   // the canvas or a tile would have no pixels

  /** The box of tile `k` on a canvas `perRow` tiles wide (the loop body of the crop loop). */
  function CropBox(k: int, perRow: int, imageSize: int): Box
    requires 0 < perRow
  {
    Box((k % perRow) * imageSize, (k / perRow) * imageSize,
        (k % perRow + 1) * imageSize, (k / perRow + 1) * imageSize)
  }

  /** Pixel `(x, y)` lies inside box `b`. */
  predicate Covers(b: Box, x: int, y: int) {
    b.left <= x < b.right && b.upper <= y < b.lower
  }

  /** A valid grid and a positive tile size. */
  predicate ValidLayout(g: Grid, imageSize: int) {
    1 <= g.cols && 1 <= g.rows && 0 < imageSize
  }

  /** Tile `k` is an `imageSize` square that lies inside the resized canvas `[0, cols*s] x [0, rows*s]`. */
  lemma CropBoxInCanvas(g: Grid, imageSize: int, k: int)
    requires ValidLayout(g, imageSize) && 0 <= k < Count(g)
    ensures var b := CropBox(k, g.cols, imageSize);
      && b.right - b.left == imageSize && b.lower - b.upper == imageSize
      && 0 <= b.left && b.right <= g.cols * imageSize
      && 0 <= b.upper && b.lower <= g.rows * imageSize
  {
    var c, r := k % g.cols, k / g.cols;
    assert k == r * g.cols + c;
    if g.rows <= r {
      DivMod.MulMonotone(g.rows, r, g.cols);
    }
    DivMod.MulMonotone(c + 1, g.cols, imageSize);
    DivMod.MulMonotone(r + 1, g.rows, imageSize);
    DivMod.MulMonotone(0, c, imageSize);
    DivMod.MulMonotone(0, r, imageSize);
  }

  /** Row-major order: tile `r * cols + c` is the one in column `c` of row `r`. */
  lemma CropBoxRowMajor(g: Grid, imageSize: int, r: int, c: int)
    requires ValidLayout(g, imageSize) && 0 <= r < g.rows && 0 <= c < g.cols
    ensures 0 <= r * g.cols + c < Count(g)
    ensures CropBox(r * g.cols + c, g.cols, imageSize)
         == Box(c * imageSize, r * imageSize, (c + 1) * imageSize, (r + 1) * imageSize)
  {
    DivMod.DivModUnique(r * g.cols + c, g.cols, r, c);
    DivMod.MulMonotone(r, g.rows - 1, g.cols);
    DivMod.MulMonotone(0, r, g.cols);
  }

  /** A pixel inside tile `k` determines `k`: its column band is `k mod cols` and its row band `k div cols`. */
  lemma CropBoxLocates(g: Grid, imageSize: int, k: int, x: int, y: int)
    requires ValidLayout(g, imageSize) && Covers(CropBox(k, g.cols, imageSize), x, y)
    ensures x / imageSize == k % g.cols && y / imageSize == k / g.cols
  {
    DivMod.BandOf(x, imageSize, k % g.cols);
    DivMod.BandOf(y, imageSize, k / g.cols);
  }

  /** No pixel lies in two different tiles. */
  lemma CropBoxesDisjoint(g: Grid, imageSize: int, k1: int, k2: int, x: int, y: int)
    requires ValidLayout(g, imageSize) && k1 != k2
    ensures !(Covers(CropBox(k1, g.cols, imageSize), x, y) && Covers(CropBox(k2, g.cols, imageSize), x, y))
  {
    if Covers(CropBox(k1, g.cols, imageSize), x, y) && Covers(CropBox(k2, g.cols, imageSize), x, y) {
      CropBoxLocates(g, imageSize, k1, x, y);
      CropBoxLocates(g, imageSize, k2, x, y);
    }
  }

  /** Every pixel of the resized canvas lies in some tile `k < cols*rows`. */
  lemma CropBoxesCover(g: Grid, imageSize: int, x: int, y: int) returns (k: int)
    requires ValidLayout(g, imageSize)
    requires 0 <= x < g.cols * imageSize && 0 <= y < g.rows * imageSize
    ensures 0 <= k < Count(g) && Covers(CropBox(k, g.cols, imageSize), x, y)
  {
    var c, r := x / imageSize, y / imageSize;
    assert x == c * imageSize + x % imageSize;
    assert y == r * imageSize + y % imageSize;
    if g.cols <= c {
      DivMod.MulMonotone(g.cols, c, imageSize);
    }
    if g.rows <= r {
      DivMod.MulMonotone(g.rows, r, imageSize);
    }
    if c < 0 {
      DivMod.MulMonotone(c + 1, 0, imageSize);
    }
    if r < 0 {
      DivMod.MulMonotone(r + 1, 0, imageSize);
    }
    CropBoxRowMajor(g, imageSize, r, c);
    k := r * g.cols + c;
  }

  /** Number of entries `dynamic_preprocess` returns for a grid with `blocks` tiles. */
  function TileCount(blocks: int, useThumbnail: bool): int {
    if useThumbnail && blocks != 1 then blocks + 1 else blocks
  }

  /**
   * `dynamic_preprocess`: choose the grid closest to the image's aspect ratio
   * among those with `minNum..maxNum` tiles, emit its crops row by row and, when
   * asked and there is more than one crop, a thumbnail of the whole image.
   */
  method DynamicPreprocess(image: Image, minNum: int, maxNum: int, imageSize: int, useThumbnail: bool)
    returns (result: Result<seq<Tile>, PreprocessError>)
    ensures image.height == 0 <==> result == Failure(ZeroHeight)
    ensures image.height != 0 && imageSize <= 0 <==> result == Failure(NonPositiveSize)
    ensures image.height != 0 && 0 < imageSize ==> result.Success?
    ensures result.Success? ==>
      var g := TargetAspectRatio(minNum, maxNum, image.width, image.height, imageSize);
      && ValidLayout(g, imageSize)
      && |result.value| == TileCount(Count(g), useThumbnail)
      && (forall k | 0 <= k < Count(g) :: result.value[k] == Crop(CropBox(k, g.cols, imageSize)))
      && (useThumbnail && Count(g) != 1 ==> result.value[Count(g)] == Thumbnail)
  {
    if image.height == 0 {
      return Failure(ZeroHeight);
    }
    var targetRatios := TargetRatios(minNum, maxNum);
    TargetRatiosAdmissible(minNum, maxNum);
    var target := FindClosestAspectRatio(targetRatios, image.width, image.height, imageSize);
    ChosenGridInRange(minNum, maxNum, image.width, image.height, imageSize);
    if imageSize <= 0 {
      return Failure(NonPositiveSize);
    }
    var targetWidth := imageSize * target.cols;
    var blocks := target.cols * target.rows;
    var perRow := targetWidth / imageSize;
    DivMod.DivModUnique(targetWidth, imageSize, target.cols, 0);
    assert perRow == target.cols;
    var processed: seq<Tile> := [];
    for k := 0 to blocks
      invariant |processed| == k
      invariant forall m | 0 <= m < k :: processed[m] == Crop(CropBox(m, target.cols, imageSize))
    {
      processed := processed + [Crop(CropBox(k, perRow, imageSize))];
    }
    assert |processed| == blocks;
    if useThumbnail && |processed| != 1 {
      processed := processed + [Thumbnail];
    }
    return Success(processed);
  }

  /**
   * The tiling `load_image` asks for: at most six crops and a thumbnail, so one
   * entry (a single crop, no thumbnail) or three to seven entries.
   */
  method LoadImage(image: Image, inputSize: int) returns (result: Result<seq<Tile>, PreprocessError>)
    ensures image.height == 0 <==> result == Failure(ZeroHeight)
    ensures image.height != 0 && inputSize <= 0 <==> result == Failure(NonPositiveSize)
    ensures image.height != 0 && 0 < inputSize ==> result.Success?
    ensures result.Success? ==> image.height != 0
    ensures result.Success? && image.height != 0 ==>
      var g := TargetAspectRatio(1, 6, image.width, image.height, inputSize);
      && ValidLayout(g, inputSize)
      && |result.value| == TileCount(Count(g), true)
      && (forall k | 0 <= k < Count(g) :: result.value[k] == Crop(CropBox(k, g.cols, inputSize)))
      && (Count(g) != 1 ==> result.value[Count(g)] == Thumbnail)
    ensures result.Success? ==> |result.value| == 1 || 3 <= |result.value| <= 7
    ensures result.Success? ==> result.value[0].Crop? && (1 < |result.value| ==> result.value[|result.value| - 1] == Thumbnail)
  {
    result := DynamicPreprocess(image, 1, 6, inputSize, true);
    if image.height != 0 {
      ChosenGridInRange(1, 6, image.width, image.height, inputSize);
      TargetRatiosEmpty(1, 6);
    }
  }

  /**
   * The worked example continued: a 896 x 448 image with a thumbnail gives two
   * 448-pixel crops side by side and the thumbnail, three entries in all.
   */
  lemma WideImageTiles()
    ensures var g := TargetAspectRatio(1, 6, 896, 448, 448);
      && g == Grid(2, 1)
      && TileCount(Count(g), true) == 3
      && CropBox(0, g.cols, 448) == Box(0, 0, 448, 448)
      && CropBox(1, g.cols, 448) == Box(448, 0, 896, 448)
  {
    WideImageExample();
  }
}
