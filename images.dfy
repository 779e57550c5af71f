/** `java.awt.image.BufferedImage` as the evaluation tool uses it: a
    width-by-height raster of 32-bit ARGB words read with `getRGB(x, y)`
    and written with `setRGB(x, y, argb)`, and the column-major flattening
    shared by the ground truth and the saliency map. */
module Images {
  import opened Wrappers

  /** Number of grey levels of a saliency map, and so of binarisation
      thresholds in the sweep. */
  const NUM_GREYSCALES: nat := 256

  /** `0xFFFFFFFF`: opaque white, the only value that counts as salient. */
  const WHITE: int := 0xFFFF_FFFF

  /** `0xFF000000`: opaque black, the value `getRGB` reports for every pixel
      of a freshly created binary image. */
  const BLACK: int := 0xFF00_0000

  /** The image type `getType()` reports, as far as the tool distinguishes it. */
  datatype ImageKind = ByteGray | ByteBinary | OtherKind

  /** A decoded raster; `pixels[x][y]` is the ARGB word of pixel (x, y). */
  datatype Image = Image(kind: ImageKind, pixels: seq<seq<int>>) {

    /** A `BufferedImage` is never empty and all its columns are equally long. */
    predicate WellFormed() {
      && |pixels| > 0
      && |pixels[0]| > 0
      && forall x :: 0 <= x < |pixels| ==> |pixels[x]| == |pixels[0]|
    }

    function Width(): int { |pixels| }

    function Height(): int { if |pixels| == 0 then 0 else |pixels[0]| }

    predicate HasSize(w: int, h: int) { WellFormed() && Width() == w && Height() == h }
  }

  /** `new BufferedImage(w, h, kind)` as seen through `getRGB`: every pixel
      opaque black. */
  function Blank(kind: ImageKind, w: nat, h: nat): (r: Image)
    requires w > 0 && h > 0
    ensures r.HasSize(w, h) && r.kind == kind
    ensures forall x, y :: 0 <= x < w && 0 <= y < h ==> r.pixels[x][y] == BLACK
  {
    Image(kind, seq(w, x => seq(h, y => BLACK)))
  }

  /** `setRGB(x, y, argb)`: only pixel (x, y) changes. */
  function SetRGB(img: Image, x: int, y: int, argb: int): (r: Image)
    requires img.WellFormed() && 0 <= x < img.Width() && 0 <= y < img.Height()
    ensures r.HasSize(img.Width(), img.Height()) && r.kind == img.kind
    ensures r.pixels[x][y] == argb
    ensures forall i, j :: 0 <= i < img.Width() && 0 <= j < img.Height() && (i != x || j != y) ==>
              r.pixels[i][j] == img.pixels[i][j]
  {
    Image(img.kind, img.pixels[x := img.pixels[x][y := argb]])
  }

  /** `argb & 0xFF`: the low byte, which is the grey level of a grey image.
      Dafny's `%` is Euclidean, so this is also right for negative words. */
  function LowByte(argb: int): (b: int)
    ensures 0 <= b < NUM_GREYSCALES
    ensures 0 <= argb < NUM_GREYSCALES ==> b == argb
  {
    argb % 256
  }

  // ---------------------------------------------------------------------
  // Grids and column-major flattening

  /** `g` has `w` columns of `h` entries each. */
  predicate IsGrid<T>(g: seq<seq<T>>, w: nat, h: nat) {
    |g| == w && forall x :: 0 <= x < w ==> |g[x]| == h
  }

  /** The salient flag of every pixel: white means salient. */
  function WhiteMask(img: Image): (g: seq<seq<bool>>)
    requires img.WellFormed()
    ensures IsGrid(g, img.Width(), img.Height())
    ensures forall x, y :: 0 <= x < img.Width() && 0 <= y < img.Height() ==>
              (g[x][y] <==> img.pixels[x][y] == WHITE)
  {
    seq(img.Width(), x requires 0 <= x < img.Width() =>
      seq(img.Height(), y requires 0 <= y < img.Height() => img.pixels[x][y] == WHITE))
  }

  /** The grey level (low byte) of every pixel. */
  function GreyLevels(img: Image): (g: seq<seq<int>>)
    requires img.WellFormed()
    ensures IsGrid(g, img.Width(), img.Height())
    ensures forall x, y :: 0 <= x < img.Width() && 0 <= y < img.Height() ==>
              g[x][y] == LowByte(img.pixels[x][y])
  {
    seq(img.Width(), x requires 0 <= x < img.Width() =>
      seq(img.Height(), y requires 0 <= y < img.Height() => LowByte(img.pixels[x][y])))
  }

  /** Column 0 top to bottom, then column 1, and so on. */
  function Flatten<T>(g: seq<seq<T>>): seq<T> {
    if |g| == 0 then [] else Flatten(g[..|g| - 1]) + g[|g| - 1]
  }

  lemma MulMonotone(a: int, b: int, h: nat)
    requires a <= b
    ensures a * h <= b * h
  {
  }

  lemma {:induction false} FlattenLength<T>(g: seq<seq<T>>, w: nat, h: nat)
    requires IsGrid(g, w, h)
    ensures |Flatten(g)| == w * h
  {
    if w > 0 {
      FlattenLength(g[..w - 1], w - 1, h);
    }
  }

  /** Pixel (x, y) sits at flat index `x * h + y`. */
  lemma {:induction false} FlattenIndex<T>(g: seq<seq<T>>, w: nat, h: nat, x: int, y: int)
    requires IsGrid(g, w, h)
    requires 0 <= x < w && 0 <= y < h
    ensures 0 <= x * h + y < |Flatten(g)|
    ensures Flatten(g)[x * h + y] == g[x][y]
  {
    var init := g[..w - 1];
    FlattenLength(init, w - 1, h);
    FlattenLength(g, w, h);
    MulMonotone(x, w - 1, h);
    if x < w - 1 {
      FlattenIndex(init, w - 1, h, x, y);
      MulMonotone(x + 1, w - 1, h);
    }
  }

  /** Flattening one more column appends that column. */
  lemma FlatColumn<T>(g: seq<seq<T>>, w: nat, h: nat, x: nat)
    requires IsGrid(g, w, h) && x < w
    ensures Flatten(g[..x]) + g[x][..h] == Flatten(g[..x + 1])
  {
    assert g[..x + 1][..x] == g[..x];
    assert g[x][..h] == g[x];
  }

  /** Reading pixel (x, y) extends the flattened prefix by that pixel. */
  lemma FlatStep<T>(g: seq<seq<T>>, x: nat, y: nat)
    requires x < |g| && y < |g[x]|
    ensures Flatten(g[..x]) + g[x][..y + 1] == Flatten(g[..x]) + g[x][..y] + [g[x][y]]
  {
    assert g[x][..y + 1] == g[x][..y] + [g[x][y]];
  }

  /** Every column read: the whole flattening. */
  lemma FlatWhole<T>(g: seq<seq<T>>, w: nat)
    requires |g| == w
    ensures Flatten(g[..w]) == Flatten(g)
  {
    assert g[..w] == g;
  }

  /** Pixel (x, y) of a `w`-by-`h` grid has a flat index below `w * h`, and
      column `x` ends where column `x + 1` starts. */
  lemma FlatBound(w: nat, h: nat, x: int, y: int)
    requires 0 <= x < w && 0 <= y < h
    ensures x * h + y < w * h
    ensures (x + 1) * h == x * h + h
  {
    MulMonotone(x + 1, w, h);
  }

  /** Before pixel (x, y) come the first `x` columns and `y` entries of
      column `x`: fewer than the `w * h` entries of the whole grid. */
  lemma FlatPrefixBound<T>(g: seq<seq<T>>, w: nat, h: nat, x: int, y: int)
    requires IsGrid(g, w, h) && 0 <= x < w && 0 <= y < h
    ensures |Flatten(g[..x])| + y < w * h
    ensures |Flatten(g[..x + 1])| <= w * h
  {
    FlattenLength(g[..x], x, h);
    FlattenLength(g[..x + 1], x + 1, h);
    FlatBound(w, h, x, y);
  }

  /** A relation that holds between corresponding pixels of two grids of the
      same shape holds between corresponding entries of their flattenings. */
  lemma {:induction false} FlattenZip<A, B>(a: seq<seq<A>>, b: seq<seq<B>>, w: nat, h: nat, rel: (A, B) -> bool)
    requires IsGrid(a, w, h) && IsGrid(b, w, h)
    requires forall x, y :: 0 <= x < w && 0 <= y < h ==> rel(a[x][y], b[x][y])
    ensures |Flatten(a)| == |Flatten(b)| == w * h
    ensures forall i :: 0 <= i < |Flatten(a)| ==> rel(Flatten(a)[i], Flatten(b)[i])
  {
    FlattenLength(a, w, h);
    FlattenLength(b, w, h);
    if w > 0 {
      var a0, b0 := a[..w - 1], b[..w - 1];
      FlattenZip(a0, b0, w - 1, h, rel);
      assert Flatten(a) == Flatten(a0) + a[w - 1];
      assert Flatten(b) == Flatten(b0) + b[w - 1];
      forall i | 0 <= i < |Flatten(a)|
        ensures rel(Flatten(a)[i], Flatten(b)[i])
      {
        if i >= |Flatten(a0)| {
          assert Flatten(a)[i] == a[w - 1][i - |Flatten(a0)|];
          assert Flatten(b)[i] == b[w - 1][i - |Flatten(a0)|];
        } else {
          assert Flatten(a)[i] == Flatten(a0)[i];
          assert Flatten(b)[i] == Flatten(b0)[i];
        }
      }
    }
  }

  /** The flattened grey levels hold `w * h` values in [0, 255], the one of
      pixel (x, y) at index `x * h + y`. */
  lemma GreyLevelsFlat(img: Image)
    requires img.WellFormed()
    ensures |Flatten(GreyLevels(img))| == img.Width() * img.Height()
    ensures forall i :: 0 <= i < |Flatten(GreyLevels(img))| ==> 0 <= Flatten(GreyLevels(img))[i] < NUM_GREYSCALES
    ensures forall x, y :: 0 <= x < img.Width() && 0 <= y < img.Height() ==>
              0 <= x * img.Height() + y < |Flatten(GreyLevels(img))| &&
              Flatten(GreyLevels(img))[x * img.Height() + y] == LowByte(img.pixels[x][y])
  {
    var g, w, h := GreyLevels(img), img.Width(), img.Height();
    FlattenZip(g, g, w, h, (u: int, v: int) => 0 <= u < NUM_GREYSCALES);
    forall x, y | 0 <= x < w && 0 <= y < h
      ensures 0 <= x * h + y < |Flatten(g)| && Flatten(g)[x * h + y] == LowByte(img.pixels[x][y])
    {
      FlattenIndex(g, w, h, x, y);
    }
  }

  /** A file of a directory listing: its name, what the image codec
      decodes from it (`None` when it is not a readable image), and whether
      reading it throws an `IOException` outright (a directory, or a file
      the codec cannot open). */
  datatype File = File(name: string, decoded: Option<Image>, readThrows: bool) {
    /** A decoded image is a proper raster, and a read that throws decodes
        nothing. */
    predicate Valid() { decoded.Some? ==> !readThrows && decoded.value.WellFormed() }
  }
}
