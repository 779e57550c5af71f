/** `SaliencyMap`: a saliency image brought to the size of the image it
    refers to, read as grey levels column by column or binarised at a
    threshold. The image codec, the greyscale conversion and the bicubic
    resampler are parameters; only the size and type they guarantee is
    modelled. */
module SaliencyMaps {
  import opened Wrappers
  import opened Images
  import opened FileUtil
  import opened Confusion

  /** A greyscale conversion keeps the size and yields a `TYPE_BYTE_GRAY` image. */
  ghost predicate GreyConverter(grey: Image -> Image) {
    forall img: Image :: img.WellFormed() ==> grey(img).HasSize(img.Width(), img.Height()) && grey(img).kind == ByteGray
  }

  /** A resampler to a positive size yields an image of that size and of the
      type of its input. */
  ghost predicate Resampler(scale: (Image, int, int) -> Image) {
    forall img: Image, w: int, h: int :: img.WellFormed() && w > 0 && h > 0 ==>
      scale(img, w, h).HasSize(w, h) && scale(img, w, h).kind == img.kind
  }

  /** The map kept for a decoded image: converted to grey unless it already
      is grey, then resampled unless it already has the requested size. */
  function Prepared(img: Image, width: int, height: int, grey: Image -> Image, scale: (Image, int, int) -> Image): (r: Image)
    requires img.WellFormed() && GreyConverter(grey) && Resampler(scale)
    requires width > 0 && height > 0
    ensures r.HasSize(width, height) && r.kind == ByteGray
    ensures img.kind == ByteGray && img.HasSize(width, height) ==> r == img
    ensures img.kind != ByteGray && img.HasSize(width, height) ==> r == grey(img)
  {
    var g := if img.kind != ByteGray then grey(img) else img;
    if g.Width() != width || g.Height() != height then scale(g, width, height) else g
  }

  /** The pixel `getBinaryMap(t)` leaves at a pixel of grey word `argb`. */
  function BinaryPixel(argb: int, t: int): (p: int)
    ensures p == WHITE <==> LowByte(argb) >= t
    ensures p == WHITE || p == BLACK
  {
    if LowByte(argb) >= t then WHITE else BLACK
  }

  class SaliencyMap {
    var imageName: Option<string>
    var saliencyMap: Option<Image>

    predicate Valid()
      reads this
    {
      saliencyMap.Some? ==> saliencyMap.value.WellFormed()
    }

    /** `SaliencyMap(file, width, height)` through `loadSaliencyMap`: nothing
        is set when the file does not decode; otherwise the name is the base
        name of the file and the map is the prepared image. The base name
        must exist (`getFileNameWithoutEnding` throws otherwise) and the
        requested size must be positive (the resampler throws otherwise). */
    constructor (file: File, width: int, height: int, grey: Image -> Image, scale: (Image, int, int) -> Image)
      requires file.Valid() && GreyConverter(grey) && Resampler(scale)
      requires file.decoded.Some? ==> HasBaseName(file.name) && width > 0 && height > 0
      ensures Valid()
      ensures file.decoded.None? ==> imageName.None? && saliencyMap.None?
      ensures file.decoded.Some? ==>
                && imageName == Some(FileNameWithoutEnding(file.name))
                && saliencyMap == Some(Prepared(file.decoded.value, width, height, grey, scale))
    {
      imageName := None;
      saliencyMap := file.decoded;
      new;
      if saliencyMap.Some? {
        imageName := Some(FileNameWithoutEnding(file.name));
        if saliencyMap.value.kind != ByteGray {
          saliencyMap := Some(grey(saliencyMap.value));
        }
        if saliencyMap.value.Width() != width || saliencyMap.value.Height() != height {
          saliencyMap := Some(scale(saliencyMap.value, width, height));
        }
      }
    }

    /** `getWidth`: -1 when no map was loaded. */
    function GetWidth(): (r: int)
      requires Valid()
      reads this
      ensures saliencyMap.None? <==> r == -1
      ensures saliencyMap.Some? ==> r == saliencyMap.value.Width() && r > 0
    {
      if saliencyMap.Some? then saliencyMap.value.Width() else -1
    }

    /** `getHeight`: -1 when no map was loaded. */
    function GetHeight(): (r: int)
      requires Valid()
      reads this
      ensures saliencyMap.None? <==> r == -1
      ensures saliencyMap.Some? ==> r == saliencyMap.value.Height() && r > 0
    {
      if saliencyMap.Some? then saliencyMap.value.Height() else -1
    }

    /** `getMapValues`: `null` without a map; otherwise a new array of the
        grey levels, column by column (see `GreyLevelsFlat`). */
    method GetMapValues() returns (r: Option<array<int>>)
      requires Valid()
      ensures saliencyMap.None? <==> r.None?
      ensures r.Some? ==> fresh(r.value) && r.value[..] == Flatten(GreyLevels(saliencyMap.value))
    {
      if saliencyMap.None? {
        return None;
      }
      var img := saliencyMap.value;
      var w, h := img.Width(), img.Height();
      ghost var g := GreyLevels(img);
      FlattenLength(g, w, h);
      var result := new int[w * h];
      var i := 0;
      for x := 0 to w
        invariant i == |Flatten(g[..x])| <= result.Length
        invariant result[..i] == Flatten(g[..x])
      {
        FlatPrefixBound(g, w, h, x, 0);
        for y := 0 to h
          invariant i == |Flatten(g[..x])| + y <= result.Length
          invariant result[..i] == Flatten(g[..x]) + g[x][..y]
        {
          FlatPrefixBound(g, w, h, x, y);
          result[i] := LowByte(img.pixels[x][y]);
          FlatStep(g, x, y);
          i := i + 1;
        }
        FlatColumn(g, w, h, x);
      }
      FlatWhole(g, w);
      assert result[..] == result[..i];
      return Some(result);
    }

    /** `getBinaryMap(t)`: a new binary image of the map's size in which a
        pixel is white exactly when its grey level is at least `t`. */
    method GetBinaryMap(t: int) returns (r: Image)
      requires Valid() && saliencyMap.Some?
      ensures r.HasSize(saliencyMap.value.Width(), saliencyMap.value.Height()) && r.kind == ByteBinary
      ensures forall x, y :: 0 <= x < r.Width() && 0 <= y < r.Height() ==>
                r.pixels[x][y] == BinaryPixel(saliencyMap.value.pixels[x][y], t)
    {
      var img := saliencyMap.value;
      var w, h := img.Width(), img.Height();
      r := Blank(ByteBinary, w, h);
      for x := 0 to w
        invariant r.HasSize(w, h) && r.kind == ByteBinary
        invariant forall i, j :: 0 <= i < w && 0 <= j < h ==>
                    r.pixels[i][j] == if i < x then BinaryPixel(img.pixels[i][j], t) else BLACK
      {
        for y := 0 to h
          invariant r.HasSize(w, h) && r.kind == ByteBinary
          invariant forall i, j :: 0 <= i < w && 0 <= j < h ==>
                      r.pixels[i][j] == if i < x || (i == x && j < y) then BinaryPixel(img.pixels[i][j], t) else BLACK
        {
          if LowByte(img.pixels[x][y]) >= t {
            r := SetRGB(r, x, y, WHITE);
          }
        }
      }
    }
  }

  /** The white pixels of `getBinaryMap(t)` are the pixels the sweep counts
      as predicted salient at threshold `t`. */
  lemma BinaryMapCounts(m: Image, b: Image, t: int)
    requires m.WellFormed() && b.HasSize(m.Width(), m.Height())
    requires forall x, y :: 0 <= x < m.Width() && 0 <= y < m.Height() ==> b.pixels[x][y] == BinaryPixel(m.pixels[x][y], t)
    ensures |Flatten(WhiteMask(b))| == |Flatten(GreyLevels(m))|
    ensures CountTrue(Flatten(WhiteMask(b))) == CountAtLeast(Flatten(GreyLevels(m)), t)
  {
    var mask, levels := WhiteMask(b), GreyLevels(m);
    FlattenZip(mask, levels, m.Width(), m.Height(), (p: bool, v: int) => p <==> v >= t);
    CountTrueIsCountAtLeast(Flatten(mask), Flatten(levels), t);
  }
}
