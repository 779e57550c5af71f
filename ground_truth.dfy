/** `GroundTruth`: a binary mask of the salient object, read from an image
    or thresholded from the probability grid of a rectangle description,
    and the evaluation of a saliency map against it by precision and recall
    (Achanta et al., CVPR 2009) and the F-measure (Chinchor, MUC-4, 1992). */
module GroundTruths {
  import opened Wrappers
  import opened JavaLang
  import opened Images
  import opened FileUtil
  import opened Confusion
  import opened GroundTruthDescriptions
  import opened SaliencyMaps

  // ---------------------------------------------------------------------
  // Rectangles on the probability grid

  /** Pixel (i, j) lies in the rectangle. */
  predicate Covers(r: Rectangle, i: int, j: int) {
    r.x <= i < r.x + r.width && r.y <= j < r.y + r.height
  }

  /** The in-place clipping of the constructor: a rectangle reaching past
      the right or bottom edge of a `w`-by-`h` grid is cut back to it; the
      left and top edges are left alone. */
  function Clip(r: Rectangle, w: int, h: int): (c: Rectangle)
    ensures c.x == r.x && c.y == r.y
    ensures c.x + c.width == (if r.x + r.width > w then w else r.x + r.width)
    ensures c.y + c.height == (if r.y + r.height > h then h else r.y + r.height)
  {
    var r1 := if r.x + r.width > w then r.(width := w - r.x) else r;
    if r1.y + r1.height > h then r1.(height := h - r1.y) else r1
  }

  /** A clipped rectangle covers the pixels of the original inside the
      right and bottom edges. */
  lemma ClipCovers(r: Rectangle, w: int, h: int, i: int, j: int)
    ensures Covers(Clip(r, w, h), i, j) <==> Covers(r, i, j) && i < w && j < h
  {
  }

  function Clipped(rs: seq<Rectangle>, w: int, h: int): (cs: seq<Rectangle>)
    ensures |cs| == |rs|
    ensures forall k :: 0 <= k < |rs| ==> cs[k] == Clip(rs[k], w, h)
  {
    seq(|rs|, k requires 0 <= k < |rs| => Clip(rs[k], w, h))
  }

  /** Number of rectangles that cover pixel (i, j). */
  function CoverCount(rs: seq<Rectangle>, i: int, j: int): (n: nat)
    ensures n <= |rs|
  {
    if |rs| == 0 then 0
    else CoverCount(rs[..|rs| - 1], i, j) + (if Covers(rs[|rs| - 1], i, j) then 1 else 0)
  }

  lemma CoverCountAppend(rs: seq<Rectangle>, r: Rectangle, i: int, j: int)
    ensures CoverCount(rs + [r], i, j) == CoverCount(rs, i, j) + (if Covers(r, i, j) then 1 else 0)
  {
    assert (rs + [r])[..|rs|] == rs;
  }

  /** On the grid, clipping changes no pixel's cover count. */
  lemma {:induction false} ClippedCoverCount(rs: seq<Rectangle>, w: int, h: int, i: int, j: int)
    requires i < w && j < h
    ensures CoverCount(Clipped(rs, w, h), i, j) == CoverCount(rs, i, j)
  {
    if |rs| > 0 {
      var n := |rs| - 1;
      ClippedCoverCount(rs[..n], w, h, i, j);
      ClipCovers(rs[n], w, h, i, j);
      assert Clipped(rs, w, h)[..n] == Clipped(rs[..n], w, h);
    }
  }

  /** The value the constructor accumulates at pixel (i, j): `1/N` for each
      of the `N` rectangles that covers it. */
  function Probability(rs: seq<Rectangle>, i: int, j: int): (p: real)
    ensures 0.0 <= p <= 1.0
    ensures p == 0.0 <==> CoverCount(rs, i, j) == 0
    ensures p == 1.0 <==> |rs| > 0 && CoverCount(rs, i, j) == |rs|
    ensures |rs| > 0 ==> p * |rs| as real == CoverCount(rs, i, j) as real
  {
    if |rs| == 0 then 0.0 else CoverCount(rs, i, j) as real / |rs| as real
  }

  /** The constructor throws unless the size is not negative, a grid with
      rectangles has a first column, and no clipped rectangle with pixels
      in it starts left of or above the grid. */
  predicate Buildable(rs: seq<Rectangle>, size: Dimension) {
    && size.width >= 0 && size.height >= 0
    && (|rs| > 0 ==> size.width > 0)
    && forall k :: 0 <= k < |rs| ==> InsideFromTopLeft(Clip(rs[k], size.width, size.height))
  }

  predicate InsideFromTopLeft(c: Rectangle) {
    c.width > 0 && c.height > 0 ==> c.x >= 0 && c.y >= 0
  }

  /** The threshold of `setBinaryThreshold`, clamped to [0, 1]. */
  function Clamp(t: real): (c: real)
    ensures 0.0 <= c <= 1.0
    ensures 0.0 <= t <= 1.0 ==> c == t
    ensures t < 0.0 ==> c == 0.0
    ensures t > 1.0 ==> c == 1.0
  {
    if t < 0.0 then 0.0 else if t > 1.0 then 1.0 else t
  }

  /** Pixel (i, j) of the thresholded description is salient. */
  predicate Salient(rs: seq<Rectangle>, t: real, i: int, j: int) {
    Probability(rs, i, j) > Clamp(t)
  }

  /** A pixel is salient exactly when more than the fraction `Clamp(t)` of
      the rectangles cover it; at the default threshold 0.5 that is a strict
      majority. */
  lemma SalientIff(rs: seq<Rectangle>, t: real, i: int, j: int)
    ensures Salient(rs, t, i, j) <==> CoverCount(rs, i, j) as real > Clamp(t) * |rs| as real
  {
    if |rs| > 0 {
      FractionAbove(Clamp(t), CoverCount(rs, i, j) as real, |rs| as real);
    }
  }

  /** A fraction `c / n` exceeds `t` exactly when `c` exceeds `t * n`. */
  lemma FractionAbove(t: real, c: real, n: real)
    requires n > 0.0
    ensures c / n > t <==> c > t * n
  {
    ScaleOrder(t, c / n, n);
    assert c / n * n == c;
  }

  /** At a threshold of 0 or below every covered pixel is salient; at 1 or
      above no pixel is. */
  lemma SalientAtTheEnds(rs: seq<Rectangle>, t: real, i: int, j: int)
    ensures t <= 0.0 ==> (Salient(rs, t, i, j) <==> CoverCount(rs, i, j) > 0)
    ensures t >= 1.0 ==> !Salient(rs, t, i, j)
  {
  }

  /** Raising the threshold only removes salient pixels. */
  lemma SalientMonotone(rs: seq<Rectangle>, t: real, u: real, i: int, j: int)
    requires t <= u && Salient(rs, u, i, j)
    ensures Salient(rs, t, i, j)
  {
  }

  /** The salient flags of a thresholded description, column by column. */
  function DescriptionMask(rs: seq<Rectangle>, w: nat, h: nat, t: real): (g: seq<seq<bool>>)
    ensures IsGrid(g, w, h)
    ensures forall x, y :: 0 <= x < w && 0 <= y < h ==> (g[x][y] <==> Salient(rs, t, x, y))
  {
    seq(w, x => seq(h, y => Salient(rs, t, x, y)))
  }

  /** The name `loadGroundTruthImage` keeps: the file name up to its last dot. */
  function WithoutExtension(name: string): (r: string)
    ensures r <= name
    ensures '.' !in name ==> r == name
    ensures '.' in name ==> |r| < |name| && name[|r|] == '.' && '.' !in name[|r| + 1..]
  {
    name[..NameEnd(name)]
  }

  /** Adds `f` to pixels `y0 <= y < y1` of column `x`, as the innermost
      loop of the constructor does. */
  method AddToColumn(grid: array2<real>, x: int, y0: int, y1: int, f: real)
    requires y0 < y1 ==> 0 <= x < grid.Length0 && 0 <= y0 && y1 <= grid.Length1
    modifies grid
    ensures forall i, j :: 0 <= i < grid.Length0 && 0 <= j < grid.Length1 ==>
              grid[i, j] == old(grid[i, j]) + (if i == x && y0 <= j < y1 then f else 0.0)
  {
    var y := y0;
    while y < y1
      invariant y == y0 || y0 < y <= y1
      invariant forall i, j :: 0 <= i < grid.Length0 && 0 <= j < grid.Length1 ==>
                  grid[i, j] == old(grid[i, j]) + (if i == x && y0 <= j < y then f else 0.0)
    {
      grid[x, y] := grid[x, y] + f;
      y := y + 1;
    }
  }

  /** Adds `f` to every grid pixel of `r`, as the two inner loops of the
      constructor do; `r` must not reach outside the grid. */
  method AddRectangle(grid: array2<real>, r: Rectangle, f: real)
    requires r.width > 0 && r.height > 0 ==>
               0 <= r.x && r.x + r.width <= grid.Length0 && 0 <= r.y && r.y + r.height <= grid.Length1
    modifies grid
    ensures forall i, j :: 0 <= i < grid.Length0 && 0 <= j < grid.Length1 ==>
              grid[i, j] == old(grid[i, j]) + (if Covers(r, i, j) then f else 0.0)
  {
    var x := r.x;
    while x < r.x + r.width
      invariant x == r.x || r.x < x <= r.x + r.width
      invariant forall i, j :: 0 <= i < grid.Length0 && 0 <= j < grid.Length1 ==>
                  grid[i, j] == old(grid[i, j]) + (if r.x <= i < x && r.y <= j < r.y + r.height then f else 0.0)
    {
      AddToColumn(grid, x, r.y, r.y + r.height, f);
      x := x + 1;
    }
  }

  /** The rectangle loop of the description constructor: clips each
      rectangle of `d` in place and adds `1/N` to its pixels of `grid`. */
  method AccumulateRectangles(d: GroundTruthDescription, grid: array2<real>)
    requires Buildable(d.rectangles, Dimension(grid.Length0, grid.Length1))
    requires forall x, y :: 0 <= x < grid.Length0 && 0 <= y < grid.Length1 ==> grid[x, y] == 0.0
    modifies d, grid
    ensures d.imageName == old(d.imageName) && d.imagePath == old(d.imagePath)
    ensures d.imageSize == old(d.imageSize) && d.valid == old(d.valid)
    ensures d.rectangles == Clipped(old(d.rectangles), grid.Length0, grid.Length1)
    ensures forall x, y :: 0 <= x < grid.Length0 && 0 <= y < grid.Length1 ==>
              grid[x, y] == Probability(old(d.rectangles), x, y)
  {
    ghost var rects := d.rectangles;
    var w, h := grid.Length0, grid.Length1;
    var n := |d.rectangles|;
    // `1f / n`; with no rectangle it is never added, so any value will do
    var greyFactor := if n == 0 then 0.0 else 1.0 / n as real;
    ghost var done: seq<Rectangle> := [];
    var k := 0;
    while k < n
      invariant 0 <= k <= n == |rects| && |done| == k
      invariant d.rectangles == done + rects[k..]
      invariant forall m :: 0 <= m < k ==> done[m] == Clip(rects[m], w, h)
      invariant forall x, y :: 0 <= x < w && 0 <= y < h ==> grid[x, y] == Shares(CoverCount(done, x, y), n)
      invariant d.imageName == old(d.imageName) && d.imagePath == old(d.imagePath)
      invariant d.imageSize == old(d.imageSize) && d.valid == old(d.valid)
    {
      assert d.rectangles[k] == rects[k];
      var rect := ClipRectangle(d.rectangles[k], w, h);
      StoreClipped(d, k, rect, done, rects);
      AddShare(grid, done, rect, n, greyFactor);
      ClipsStep(done, rects, k, rect, w, h);
      done := done + [rect];
      k := k + 1;
    }
    assert done == Clipped(rects, w, h);
    forall x, y | 0 <= x < w && 0 <= y < h
      ensures grid[x, y] == Probability(rects, x, y)
    {
      ClippedShares(rects, w, h, x, y);
    }
  }

  /** The in-place cut of one rectangle back to the right and bottom edges. */
  method ClipRectangle(r: Rectangle, w: int, h: int) returns (c: Rectangle)
    ensures c == Clip(r, w, h)
  {
    c := r;
    if c.x + c.width > w {
      c := c.(width := w - c.x);
    }
    if c.y + c.height > h {
      c := c.(height := h - c.y);
    }
  }

  lemma ClipsStep(done: seq<Rectangle>, rects: seq<Rectangle>, k: nat, rect: Rectangle, w: int, h: int)
    requires k < |rects| && |done| == k && rect == Clip(rects[k], w, h)
    requires forall m :: 0 <= m < k ==> done[m] == Clip(rects[m], w, h)
    ensures forall m :: 0 <= m < k + 1 ==> (done + [rect])[m] == Clip(rects[m], w, h)
  {
  }

  /** Puts the clipped rectangle `k` back in place of the original. */
  method StoreClipped(d: GroundTruthDescription, k: nat, rect: Rectangle, ghost done: seq<Rectangle>, ghost rects: seq<Rectangle>)
    requires k < |rects| && |done| == k && d.rectangles == done + rects[k..]
    modifies d
    ensures d.rectangles == (done + [rect]) + rects[k + 1..]
    ensures d.imageName == old(d.imageName) && d.imagePath == old(d.imagePath)
    ensures d.imageSize == old(d.imageSize) && d.valid == old(d.valid)
  {
    d.rectangles := d.rectangles[k := rect];
    assert d.rectangles == (done + [rect]) + rects[k + 1..];
  }

  /** On the grid, the shares of the clipped rectangles are the probability
      of the original ones. */
  lemma ClippedShares(rs: seq<Rectangle>, w: int, h: int, x: int, y: int)
    requires x < w && y < h
    ensures Shares(CoverCount(Clipped(rs, w, h), x, y), |rs|) == Probability(rs, x, y)
  {
    ClippedCoverCount(rs, w, h, x, y);
  }

  /** Adding `1/n` over a rectangle's pixels adds one share where it
      covers. */
  method AddShare(grid: array2<real>, ghost done: seq<Rectangle>, rect: Rectangle, n: nat, greyFactor: real)
    requires n > 0 && greyFactor == 1.0 / n as real
    requires rect.width > 0 && rect.height > 0 ==>
               0 <= rect.x && rect.x + rect.width <= grid.Length0 && 0 <= rect.y && rect.y + rect.height <= grid.Length1
    requires forall x, y :: 0 <= x < grid.Length0 && 0 <= y < grid.Length1 ==> grid[x, y] == Shares(CoverCount(done, x, y), n)
    modifies grid
    ensures forall x, y :: 0 <= x < grid.Length0 && 0 <= y < grid.Length1 ==> grid[x, y] == Shares(CoverCount(done + [rect], x, y), n)
  {
    AddRectangle(grid, rect, greyFactor);
    forall x, y | 0 <= x < grid.Length0 && 0 <= y < grid.Length1
      ensures grid[x, y] == Shares(CoverCount(done + [rect], x, y), n)
    {
      CoverCountAppend(done, rect, x, y);
      if Covers(rect, x, y) {
        OneMoreShare(CoverCount(done, x, y), n);
      }
    }
  }

  /** `c` shares of `1/n`. */
  function Shares(c: nat, n: nat): real {
    if n == 0 then 0.0 else c as real / n as real
  }

  /** One more addition of `1f / n` is one more share. */
  lemma OneMoreShare(c: nat, n: nat)
    requires n > 0
    ensures Shares(c, n) + 1.0 / n as real == Shares(c + 1, n)
  {
  }

  // ---------------------------------------------------------------------
  // The ground truth object

  /** Precision and recall of the single-threshold evaluation; a zero
      denominator gives NaN. */
  datatype Scores = Scores(precision: Double, recall: Double)

  class GroundTruth {
    var imageName: Option<string>
    var binaryGroundTruth: Option<Image>
    var greyGroundTruth: array2?<real>

    predicate Valid()
      reads this
    {
      binaryGroundTruth.Some? ==> binaryGroundTruth.value.WellFormed()
    }

    /** `GroundTruth(File)` through `loadGroundTruthImage`: a directory, or
        a read that throws, leaves every field `null`; otherwise the mask is
        the decoded image (`null` when no codec reads it) and the name is the
        file name up to its last dot. */
    constructor FromFile(file: File)
      requires file.Valid()
      ensures Valid()
      ensures file.readThrows ==> imageName.None?
      ensures !file.readThrows ==> imageName == Some(WithoutExtension(file.name))
      ensures binaryGroundTruth == file.decoded && greyGroundTruth == null
    {
      imageName, binaryGroundTruth, greyGroundTruth := None, None, null;
      if !file.readThrows {
        binaryGroundTruth := file.decoded;
        var name := file.name;
        var pos := LastIndexOf(name, '.');
        if pos != -1 {
          name := name[..pos];
        }
        imageName := Some(name);
      }
    }

    /** `GroundTruth(GroundTruthDescription)`: clips the description's
        rectangles in place and adds `1/N` to the probability of every
        pixel of each rectangle, so the probability of a pixel is the
        fraction of the `N` rectangles that cover it. */
    constructor FromDescription(d: GroundTruthDescription)
      requires d.imageSize.Some? && Buildable(d.rectangles, d.imageSize.value)
      modifies d
      ensures d.imageName == old(d.imageName) && d.imagePath == old(d.imagePath)
      ensures d.imageSize == old(d.imageSize) && d.valid == old(d.valid)
      ensures Valid() && binaryGroundTruth.None? && imageName == d.imageName
      ensures greyGroundTruth != null && fresh(greyGroundTruth)
      ensures greyGroundTruth.Length0 == d.imageSize.value.width && greyGroundTruth.Length1 == d.imageSize.value.height
      ensures forall x, y :: 0 <= x < greyGroundTruth.Length0 && 0 <= y < greyGroundTruth.Length1 ==>
                greyGroundTruth[x, y] == Probability(old(d.rectangles), x, y)
      ensures d.rectangles == Clipped(old(d.rectangles), d.imageSize.value.width, d.imageSize.value.height)
    {
      var size := d.imageSize.value;
      imageName := d.imageName;
      binaryGroundTruth := None;
      var grid := new real[size.width, size.height]((i, j) => 0.0);
      greyGroundTruth := grid;
      new;
      AccumulateRectangles(d, grid);
    }

    /** `setBinaryThreshold`: nothing happens without a probability grid;
        otherwise the mask becomes a new binary image that is white exactly
        where the probability exceeds the clamped threshold. A grid without
        columns or rows cannot be binarised (Java throws). */
    method SetBinaryThreshold(threshold: real)
      requires Valid()
      requires greyGroundTruth != null ==> greyGroundTruth.Length0 > 0 && greyGroundTruth.Length1 > 0
      modifies this
      ensures Valid() && imageName == old(imageName) && greyGroundTruth == old(greyGroundTruth)
      ensures greyGroundTruth == null ==> binaryGroundTruth == old(binaryGroundTruth)
      ensures greyGroundTruth != null ==>
                && binaryGroundTruth.Some?
                && binaryGroundTruth.value.HasSize(greyGroundTruth.Length0, greyGroundTruth.Length1)
                && binaryGroundTruth.value.kind == ByteBinary
                && forall x, y :: 0 <= x < greyGroundTruth.Length0 && 0 <= y < greyGroundTruth.Length1 ==>
                     binaryGroundTruth.value.pixels[x][y] == (if greyGroundTruth[x, y] > Clamp(threshold) then WHITE else BLACK)
    {
      var grey := greyGroundTruth;
      if grey == null {
        return;
      }
      var t := threshold;
      if t < 0.0 {
        t := 0.0;
      } else if t > 1.0 {
        t := 1.0;
      }
      var w, h := grey.Length0, grey.Length1;
      var img := Blank(ByteBinary, w, h);
      for x := 0 to w
        modifies {}
        invariant img.HasSize(w, h) && img.kind == ByteBinary
        invariant forall i, j :: 0 <= i < w && 0 <= j < h ==>
                    img.pixels[i][j] == if i < x && grey[i, j] > t then WHITE else BLACK
      {
        for y := 0 to h
          modifies {}
          invariant img.HasSize(w, h) && img.kind == ByteBinary
          invariant forall i, j :: 0 <= i < w && 0 <= j < h ==>
                      img.pixels[i][j] == if (i < x || (i == x && j < y)) && grey[i, j] > t then WHITE else BLACK
        {
          if grey[x, y] > t {
            img := SetRGB(img, x, y, WHITE);
          }
        }
      }
      binaryGroundTruth := Some(img);
    }

    /** `getRelativeObjectSize`: -1 without a mask; otherwise the fraction
        of white pixels, which lies in [0, 1]. */
    method GetRelativeObjectSize() returns (r: real)
      requires Valid()
      ensures binaryGroundTruth.None? ==> r == -1.0
      ensures binaryGroundTruth.Some? ==>
                var img := binaryGroundTruth.value;
                && |Flatten(WhiteMask(img))| == img.Width() * img.Height()
                && r == Ratio(CountTrue(Flatten(WhiteMask(img))), |Flatten(WhiteMask(img))|)
                && 0.0 <= r <= 1.0
    {
      if binaryGroundTruth.None? {
        return -1.0;
      }
      var img := binaryGroundTruth.value;
      var w, h := img.Width(), img.Height();
      ghost var mask := WhiteMask(img);
      ghost var seen: seq<bool> := [];
      var i := 0;
      for x := 0 to w
        invariant seen == Flatten(mask[..x]) && i == CountTrue(seen)
      {
        for y := 0 to h
          invariant seen == Flatten(mask[..x]) + mask[x][..y] && i == CountTrue(seen)
        {
          CountTrueAppend(seen, mask[x][y]);
          FlatStep(mask, x, y);
          if img.pixels[x][y] == WHITE {
            i := i + 1;
          }
          seen := seen + [mask[x][y]];
        }
        FlatColumn(mask, w, h, x);
      }
      FlatWhole(mask, w);
      FlattenLength(mask, w, h);
      FlatBound(w, h, 0, 0);
      r := i as real / (w * h) as real;
      assert r == Ratio(i, |seen|);
    }

    /** `getValues`: `null` without a mask; otherwise a new array of the
        salient flags, white meaning salient, column by column. */
    method GetValues() returns (r: Option<array<bool>>)
      requires Valid()
      ensures binaryGroundTruth.None? <==> r.None?
      ensures r.Some? ==> fresh(r.value) && r.value[..] == Flatten(WhiteMask(binaryGroundTruth.value))
    {
      if binaryGroundTruth.None? {
        return None;
      }
      var img := binaryGroundTruth.value;
      var w, h := img.Width(), img.Height();
      ghost var g := WhiteMask(img);
      FlattenLength(g, w, h);
      var result := new bool[w * h](_ => false);
      var i := 0;
      for x := 0 to w
        invariant i == |Flatten(g[..x])| <= result.Length
        invariant result[..i] == Flatten(g[..x])
        invariant forall k :: i <= k < result.Length ==> !result[k]
      {
        FlatPrefixBound(g, w, h, x, 0);
        for y := 0 to h
          invariant i == |Flatten(g[..x])| + y <= result.Length
          invariant result[..i] == Flatten(g[..x]) + g[x][..y]
          invariant forall k :: i <= k < result.Length ==> !result[k]
        {
          FlatPrefixBound(g, w, h, x, y);
          if img.pixels[x][y] == WHITE {
            result[i] := true;
          }
          FlatStep(g, x, y);
          i := i + 1;
        }
        FlatColumn(g, w, h, x);
      }
      FlatWhole(g, w);
      assert result[..] == result[..i];
      return Some(result);
    }

    /** `evaluate(saliencyMap, binaryThreshold)`: `null` without a mask or
        when the sizes differ; otherwise true positives over predicted
        pixels and over salient pixels, with no guard against a zero
        denominator (see `ScoresAgreeWithSweep`). */
    method EvaluateAt(sm: SaliencyMap, binaryThreshold: int) returns (r: Option<Scores>)
      requires Valid() && sm.Valid()
      ensures binaryGroundTruth.None? ==> r.None?
      ensures binaryGroundTruth.Some? ==>
                var gt := binaryGroundTruth.value;
                if sm.GetWidth() != gt.Width() || sm.GetHeight() != gt.Height() then r.None?
                else
                  var g, s := Flatten(WhiteMask(gt)), Flatten(GreyLevels(sm.saliencyMap.value));
                  |g| == |s| &&
                  r == Some(Scores(
                    Divide(CountMatch(g, s, binaryThreshold) as real, CountAtLeast(s, binaryThreshold) as real),
                    Divide(CountMatch(g, s, binaryThreshold) as real, CountTrue(g) as real)))
    {
      if binaryGroundTruth.None? {
        return None;
      }
      var gt := binaryGroundTruth.value;
      if sm.GetWidth() != gt.Width() || sm.GetHeight() != gt.Height() {
        return None;
      }
      var values := sm.GetMapValues();
      FlattenLength(WhiteMask(gt), gt.Width(), gt.Height());
      FlattenLength(GreyLevels(sm.saliencyMap.value), gt.Width(), gt.Height());
      var truePositive, falsePositive, falseNegative := CountConfusion(gt, values.value, binaryThreshold);
      return Some(Scores(
        Divide(truePositive as real, (truePositive + falsePositive) as real),
        Divide(truePositive as real, (truePositive + falseNegative) as real)));
    }

    /** `evaluate(saliencyMap)`: `null` when the sizes differ; otherwise the
        table of the threshold sweep over the flattened mask and grey
        levels. The mask must exist (Java dereferences it first). The two
        `null` checks on the flattened values cannot fire once the sizes
        agree, so they are not modelled as branches. */
    method Evaluate(sm: SaliencyMap) returns (r: Option<Table>)
      requires Valid() && sm.Valid() && binaryGroundTruth.Some?
      ensures var gt := binaryGroundTruth.value;
        if sm.GetWidth() != gt.Width() || sm.GetHeight() != gt.Height() then r.None?
        else
          var g, s := Flatten(WhiteMask(gt)), Flatten(GreyLevels(sm.saliencyMap.value));
          |g| == |s| && r == Some(Sweep(g, s))
    {
      var gt := binaryGroundTruth.value;
      if sm.GetWidth() != gt.Width() || sm.GetHeight() != gt.Height() {
        return None;
      }
      var values := sm.GetMapValues();
      var saliencyValues := values.value;
      var mask := GetValues();
      var groundTruthValues := mask.value;
      FlattenLength(WhiteMask(gt), gt.Width(), gt.Height());
      FlattenLength(GreyLevels(sm.saliencyMap.value), gt.Width(), gt.Height());
      var table := SweepTable(groundTruthValues, saliencyValues);
      return Some(table);
    }

    /** `getWidth`: -1 without a mask. */
    function GetWidth(): (r: int)
      requires Valid()
      reads this
      ensures binaryGroundTruth.None? <==> r == -1
      ensures binaryGroundTruth.Some? ==> r == binaryGroundTruth.value.Width() && r > 0
    {
      if binaryGroundTruth.Some? then binaryGroundTruth.value.Width() else -1
    }

    /** `getHeight`: -1 without a mask. */
    function GetHeight(): (r: int)
      requires Valid()
      reads this
      ensures binaryGroundTruth.None? <==> r == -1
      ensures binaryGroundTruth.Some? ==> r == binaryGroundTruth.value.Height() && r > 0
    {
      if binaryGroundTruth.Some? then binaryGroundTruth.value.Height() else -1
    }
  }

  /** The pixel loop of the single-threshold evaluation: true positives,
      false positives and false negatives of the mask of `gt` against the
      grey levels `saliencyValues` at `binaryThreshold`. */
  method CountConfusion(gt: Image, saliencyValues: array<int>, binaryThreshold: int)
      returns (truePositive: nat, falsePositive: nat, falseNegative: nat)
    requires gt.WellFormed() && saliencyValues.Length == gt.Width() * gt.Height()
    ensures var g, s := Flatten(WhiteMask(gt)), saliencyValues[..];
      && |g| == |s|
      && truePositive == CountMatch(g, s, binaryThreshold)
      && truePositive + falsePositive == CountAtLeast(s, binaryThreshold)
      && truePositive + falseNegative == CountTrue(g)
  {
    var w, h := gt.Width(), gt.Height();
    ghost var mask := WhiteMask(gt);
    ghost var s := saliencyValues[..];
    FlattenLength(mask, w, h);
    truePositive, falsePositive, falseNegative := 0, 0, 0;
    var i := 0;
    for x := 0 to w
      invariant i == |Flatten(mask[..x])| <= saliencyValues.Length
      invariant truePositive == CountMatch(Flatten(mask[..x]), s[..i], binaryThreshold)
      invariant truePositive + falsePositive == CountAtLeast(s[..i], binaryThreshold)
      invariant truePositive + falseNegative == CountTrue(Flatten(mask[..x]))
    {
      FlatPrefixBound(mask, w, h, x, 0);
      FlatColumn(mask, w, h, x);
      truePositive, falsePositive, falseNegative, i :=
        CountColumn(gt, saliencyValues, binaryThreshold, x, i, truePositive, falsePositive, falseNegative);
    }
    FlatWhole(mask, w);
    assert s[..i] == s;
  }

  /** The inner pixel loop over column `x`, carrying on the counts and the
      flat index `i` of the columns before it. */
  method CountColumn(gt: Image, saliencyValues: array<int>, binaryThreshold: int, x: nat, i0: nat,
                     tp0: nat, fp0: nat, fn0: nat)
      returns (truePositive: nat, falsePositive: nat, falseNegative: nat, i: nat)
    requires gt.WellFormed() && x < gt.Width() && saliencyValues.Length == gt.Width() * gt.Height()
    requires i0 == |Flatten(WhiteMask(gt)[..x])| && i0 + gt.Height() <= saliencyValues.Length
    requires tp0 == CountMatch(Flatten(WhiteMask(gt)[..x]), saliencyValues[..i0], binaryThreshold)
    requires tp0 + fp0 == CountAtLeast(saliencyValues[..i0], binaryThreshold)
    requires tp0 + fn0 == CountTrue(Flatten(WhiteMask(gt)[..x]))
    ensures i == i0 + gt.Height()
    ensures var seen := Flatten(WhiteMask(gt)[..x]) + WhiteMask(gt)[x][..gt.Height()];
      && |seen| == i
      && truePositive == CountMatch(seen, saliencyValues[..i], binaryThreshold)
      && truePositive + falsePositive == CountAtLeast(saliencyValues[..i], binaryThreshold)
      && truePositive + falseNegative == CountTrue(seen)
  {
    var h := gt.Height();
    ghost var mask := WhiteMask(gt);
    ghost var s := saliencyValues[..];
    ghost var seen: seq<bool> := Flatten(mask[..x]);
    assert seen == Flatten(mask[..x]) + mask[x][..0];
    truePositive, falsePositive, falseNegative, i := tp0, fp0, fn0, i0;
    for y := 0 to h
      invariant seen == Flatten(mask[..x]) + mask[x][..y] && i == |seen| == i0 + y
      invariant truePositive == CountMatch(seen, s[..i], binaryThreshold)
      invariant truePositive + falsePositive == CountAtLeast(s[..i], binaryThreshold)
      invariant truePositive + falseNegative == CountTrue(seen)
    {
      FlatPrefixBound(mask, gt.Width(), h, x, y);
      CountsAppend(seen, s[..i], mask[x][y], s[i], binaryThreshold);
      assert s[..i + 1] == s[..i] + [s[i]];
      if gt.pixels[x][y] == WHITE {
        if saliencyValues[i] >= binaryThreshold {
          truePositive := truePositive + 1;
        } else {
          falseNegative := falseNegative + 1;
        }
      } else if saliencyValues[i] >= binaryThreshold {
        falsePositive := falsePositive + 1;
      }
      FlatStep(mask, x, y);
      seen := seen + [mask[x][y]];
      i := i + 1;
    }
  }

  /** The threshold loop of the sweep: row `t` of the result holds the
      precision and recall at threshold `t`, for `t` in 0..255. */
  method SweepTable(groundTruthValues: array<bool>, saliencyValues: array<int>) returns (table: Table)
    requires groundTruthValues.Length == saliencyValues.Length
    ensures table == Sweep(groundTruthValues[..], saliencyValues[..])
  {
    ghost var g, s := groundTruthValues[..], saliencyValues[..];
    var result := new PR[NUM_GREYSCALES](_ => PR(0.0, 0.0));
    for binaryThreshold := 0 to NUM_GREYSCALES
      modifies result
      invariant forall u :: 0 <= u < binaryThreshold ==> result[u] == Row(g, s, u)
    {
      var nGroundTruth, nSaliency, nMatch := CountAt(groundTruthValues, saliencyValues, binaryThreshold);
      var precision, recall := 0.0, 0.0;
      if nSaliency > 0 {
        precision := nMatch as real / nSaliency as real;
      }
      if nGroundTruth > 0 {
        recall := nMatch as real / nGroundTruth as real;
      }
      RowOfCounts(g, s, binaryThreshold, nGroundTruth, nSaliency, nMatch);
      result[binaryThreshold] := PR(precision, recall);
    }
    assert result[..] == Sweep(g, s);
    return result[..];
  }

  /** Row `t` from the three counts, each ratio 0 on an empty denominator. */
  lemma RowOfCounts(g: seq<bool>, s: seq<int>, t: int, nGroundTruth: nat, nSaliency: nat, nMatch: nat)
    requires |g| == |s|
    requires nGroundTruth == CountTrue(g) && nSaliency == CountAtLeast(s, t) && nMatch == CountMatch(g, s, t)
    ensures Row(g, s, t) == PR(if nSaliency > 0 then nMatch as real / nSaliency as real else 0.0,
                               if nGroundTruth > 0 then nMatch as real / nGroundTruth as real else 0.0)
  {
  }

  /** The inner loop of the sweep: the three counts at one threshold. */
  method CountAt(groundTruthValues: array<bool>, saliencyValues: array<int>, binaryThreshold: int)
      returns (nGroundTruth: nat, nSaliency: nat, nMatch: nat)
    requires groundTruthValues.Length == saliencyValues.Length
    ensures nGroundTruth == CountTrue(groundTruthValues[..])
    ensures nSaliency == CountAtLeast(saliencyValues[..], binaryThreshold)
    ensures nMatch == CountMatch(groundTruthValues[..], saliencyValues[..], binaryThreshold)
  {
    ghost var g, s := groundTruthValues[..], saliencyValues[..];
    nGroundTruth, nSaliency, nMatch := 0, 0, 0;
    for i := 0 to groundTruthValues.Length
      invariant nGroundTruth == CountTrue(g[..i])
      invariant nSaliency == CountAtLeast(s[..i], binaryThreshold)
      invariant nMatch == CountMatch(g[..i], s[..i], binaryThreshold)
    {
      CountsAppend(g[..i], s[..i], g[i], s[i], binaryThreshold);
      assert g[..i + 1] == g[..i] + [g[i]];
      assert s[..i + 1] == s[..i] + [s[i]];
      if groundTruthValues[i] {
        nGroundTruth := nGroundTruth + 1;
        if saliencyValues[i] >= binaryThreshold {
          nSaliency := nSaliency + 1;
          nMatch := nMatch + 1;
        }
      } else if saliencyValues[i] >= binaryThreshold {
        nSaliency := nSaliency + 1;
      }
    }
    assert g[..groundTruthValues.Length] == g && s[..groundTruthValues.Length] == s;
  }

  /** Where both denominators are positive the single-threshold scores are
      row `t` of the sweep; where one is zero, its numerator is zero too, so
      the score is NaN rather than the sweep's 0. */
  lemma ScoresAgreeWithSweep(g: seq<bool>, s: seq<int>, t: int)
    requires |g| == |s|
    ensures var m := CountMatch(g, s, t) as real;
      && (CountAtLeast(s, t) > 0 ==> Divide(m, CountAtLeast(s, t) as real) == Finite(Row(g, s, t).precision))
      && (CountAtLeast(s, t) == 0 ==> Divide(m, CountAtLeast(s, t) as real).NaN?)
      && (CountTrue(g) > 0 ==> Divide(m, CountTrue(g) as real) == Finite(Row(g, s, t).recall))
      && (CountTrue(g) == 0 ==> Divide(m, CountTrue(g) as real).NaN?)
  {
    MatchBounds(g, s, t);
  }

  // ---------------------------------------------------------------------
  // F-measure

  /** `getFMeasure`: `((1 + beta^2) * P * R) / (beta^2 * P + R)`. */
  function FMeasure(precision: real, recall: real, beta: real): (f: Double)
    ensures f.Finite? <==> beta * beta * precision + recall != 0.0
  {
    Divide((1.0 + beta * beta) * precision * recall, beta * beta * precision + recall)
  }

  /** `getF1Measure`: the F-measure with `beta = 1`. */
  function F1Measure(precision: real, recall: real): (f: Double)
    ensures f == FMeasure(precision, recall, 1.0)
    ensures f.Finite? <==> precision + recall != 0.0
  {
    FMeasure(precision, recall, 1.0)
  }

  /** F1 is the harmonic mean: it lies between the smaller and the larger of
      precision and recall, and equals them when they agree. */
  lemma F1IsHarmonicMean(p: real, r: real)
    requires 0.0 <= p && 0.0 <= r && p + r > 0.0
    ensures F1Measure(p, r).Finite?
    ensures F1Measure(p, r).value * (p + r) == 2.0 * p * r
    ensures (if p <= r then p else r) <= F1Measure(p, r).value <= (if p <= r then r else p)
    ensures p == r ==> F1Measure(p, r) == Finite(p)
  {
    var f := F1Measure(p, r).value;
    var lo, hi := if p <= r then p else r, if p <= r then r else p;
    assert f * (p + r) == 2.0 * p * r;
    assert 2.0 * p * r - lo * (p + r) == lo * (hi - lo);
    assert hi * (p + r) - 2.0 * p * r == hi * (hi - lo);
    assert lo * (hi - lo) >= 0.0 && hi * (hi - lo) >= 0.0;
    ScaleOrder(lo, f, p + r);
    ScaleOrder(f, hi, p + r);
  }

  /** Scores from the table keep the F-measure in [0, 1]. */
  lemma FMeasureInUnitInterval(p: real, r: real, beta: real)
    requires 0.0 <= p <= 1.0 && 0.0 <= r <= 1.0 && beta * beta * p + r > 0.0
    ensures FMeasure(p, r, beta).Finite? && 0.0 <= FMeasure(p, r, beta).value <= 1.0
  {
    var b := beta * beta;
    var d := b * p + r;
    var f := FMeasure(p, r, beta).value;
    assert b >= 0.0;
    assert f * d == (1.0 + b) * p * r;
    assert (1.0 + b) * p * r == b * p * r + p * r;
    assert b * p * r <= b * p by {
      assert b * p - b * p * r == (b * p) * (1.0 - r);
      assert b * p >= 0.0;
    }
    assert p * r <= r by {
      assert r - p * r == r * (1.0 - p);
    }
    assert p * r >= 0.0 && b * p * r >= 0.0;
    ScaleOrder(0.0, f, d);
    ScaleOrder(f, 1.0, d);
  }

  /** With `beta = 0` the F-measure is the precision; with precision and
      recall both 0 it is NaN. */
  lemma FMeasureLimits(p: real, r: real)
    ensures r != 0.0 ==> FMeasure(p, r, 0.0) == Finite(p)
    ensures FMeasure(0.0, 0.0, 1.0).NaN?
  {
  }
}
