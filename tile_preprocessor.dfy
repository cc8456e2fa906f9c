/**
 * Preparing the candidate tiles: every input image is resized to the square size
 * (`resizeimages`) and paired with its average colour (the first loop of `Mosaic`).
 *
 * The resampler itself is a foreign library; it is a function parameter here, and
 * callers state what is assumed of it (that it returns a size × size image).
 */
module TilePreprocessor {
  import opened Wrappers
  import opened ColorMath

  /** A resized tile with its average colour attached. */
  datatype TileImage = TileImage(img: Image, avgColor: Color)

  /** Every tile of the list holds a `size` × `size` image. */
  ghost predicate TilesSized(tiles: seq<TileImage>, size: nat) {
    forall k {:trigger tiles[k]} :: 0 <= k < |tiles| ==> IsSquareImage(tiles[k].img, size)
  }

  /** The resampler applied to every image of the list. */
  function ResizedTiles(imgs: seq<Image>, size: nat, resize: (Image, nat) -> Image): seq<Image> {
    seq(|imgs|, k requires 0 <= k < |imgs| => resize(imgs[k], size))
  }

  /** `resizeimages`: resamples every image, one result per input, in input order. */
  method ResizeImages(imgs: seq<Image>, size: nat, resize: (Image, nat) -> Image) returns (result: seq<Image>)
    ensures |result| == |imgs|
    ensures forall k :: 0 <= k < |imgs| ==> result[k] == resize(imgs[k], size)
    ensures result == ResizedTiles(imgs, size, resize)
  {
    result := [];
    for i := 0 to |imgs|
      invariant |result| == i
      invariant forall k :: 0 <= k < i ==> result[k] == resize(imgs[k], size)
    {
      result := result + [resize(imgs[i], size)];
    }
  }

  /** The prepared tile list for a list of resized images. */
  function Prepared(resized: seq<Image>, size: nat): (tiles: seq<TileImage>)
    requires size > 0
    requires AllSquare(resized, size)
    ensures TilesSized(tiles, size)
  {
    seq(|resized|, k requires 0 <= k < |resized| => TileImage(resized[k], ImageAverage(resized[k]).value))
  }

  /**
   * The first loop of `Mosaic`: appends each resized tile with its average colour.
   * The list keeps the length and the order of its input, and every attached colour
   * is the exact average of its own tile.
   */
  method PrepareTiles(resized: seq<Image>, size: nat) returns (tileImgs: seq<TileImage>)
    requires size > 0
    requires AllSquare(resized, size)
    ensures |tileImgs| == |resized|
    ensures forall k :: 0 <= k < |resized| ==>
      tileImgs[k].img == resized[k] && ImageAverage(resized[k]) == Some(tileImgs[k].avgColor)
    ensures tileImgs == Prepared(resized, size)
  {
    tileImgs := [];
    for i := 0 to |resized|
      invariant |tileImgs| == i
      invariant forall k :: 0 <= k < i ==>
        tileImgs[k].img == resized[k] && ImageAverage(resized[k]) == Some(tileImgs[k].avgColor)
    {
      var avg := AvgColor(resized[i]);
      tileImgs := tileImgs + [TileImage(resized[i], avg.value)];
    }
  }

  /** A tile painted in one colour carries exactly that colour as its average. */
  lemma UniformTileAverage(resized: seq<Image>, size: nat, k: nat, p: Pixel)
    requires size > 0
    requires AllSquare(resized, size) && k < |resized|
    requires forall y, x :: 0 <= y < size && 0 <= x < size ==> resized[k].px[y][x] == p
    ensures Prepared(resized, size)[k].avgColor == ColorOf(p)
  {
    UniformRegionAverage(resized[k], 0, size, 0, size, p);
  }
}
