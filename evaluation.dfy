/** The two evaluation loops of `Main`: one over the descriptions of a
    ground-truth file (`evaluateWithGroundTruthFile`) and one over the files
    of a ground-truth directory (`evaluateWithGroundTruthImages`), and the
    map of relative ground-truth sizes they fill (`relativeGtSizes`) with
    the mean `saveGtSizesToFile` reports. An exception thrown anywhere in a
    loop reaches the `catch` of `main` and ends the run; that is an
    aborted run here. */
module Evaluation {
  import opened Wrappers
  import opened JavaLang
  import opened Images
  import opened FileUtil
  import opened Confusion
  import opened GroundTruthDescriptions
  import opened SaliencyMaps
  import opened GroundTruths
  import opened Means

  /** Every decoded image of a listing is a proper raster. */
  predicate ValidFiles(files: seq<File>) {
    forall k :: 0 <= k < |files| ==> files[k].Valid()
  }

  /** What one ground truth contributes to a run: nothing, an exception
      that ends the run, or its recorded size and its table (`null` when
      the saliency map does not match its size). */
  datatype Entry = Skipped | Crashed | Scored(name: string, relativeSize: real, table: Option<Table>)

  /** The run: ended by an exception (or `exit`), or the per-entry tables. */
  datatype Run = Aborted | Completed(results: seq<Option<Table>>)

  /** A valid description has a name and a size. */
  lemma ValidHasNameAndSize(text: string)
    requires Parse(text).valid
    ensures Parse(text).name.Some? && Parse(text).size.Some?
  {
    ValidIff(text);
    ValidContents(text);
  }

  /** The table of a described ground truth against the saliency map image
      `img`: the thresholded description swept against the map prepared
      to the description's size. */
  function DescriptionTable(rs: seq<Rectangle>, size: Dimension, threshold: real, img: Image,
                            grey: Image -> Image, scale: (Image, int, int) -> Image): (table: Table)
    requires size.width > 0 && size.height > 0 && img.WellFormed() && GreyConverter(grey) && Resampler(scale)
    ensures |table| == NUM_GREYSCALES
  {
    var mask := DescriptionMask(rs, size.width, size.height, threshold);
    var levels := GreyLevels(Prepared(img, size.width, size.height, grey, scale));
    FlattenLength(mask, size.width, size.height);
    FlattenLength(levels, size.width, size.height);
    Sweep(Flatten(mask), Flatten(levels))
  }

  /** One iteration of `evaluateWithGroundTruthFile`. An invalid description
      is skipped; a name without a base name throws; no matching saliency
      map skips; the description constructor throws unless the description
      is buildable, and thresholding throws for an empty size; a decoded map
      without a base name throws. The size is recorded before thresholding,
      while no mask exists, so it is always -1. */
  function DescriptionEntry(text: string, files: seq<File>, threshold: real,
                            grey: Image -> Image, scale: (Image, int, int) -> Image): Entry
    requires ValidFiles(files) && GreyConverter(grey) && Resampler(scale)
  {
    var d := Parse(text);
    if !d.valid then Skipped
    else
      ValidHasNameAndSize(text);
      var name := d.name.value;
      if !HasBaseName(name) then Crashed
      else match FirstMatch(FileNameWithoutEnding(name), files)
        case None => Skipped
        case Some(k) => DescribedEntry(name, d.size.value, d.rects, files[k], threshold, grey, scale)
  }

  /** A described ground truth with its matching saliency map file. */
  function DescribedEntry(name: string, size: Dimension, rs: seq<Rectangle>, mapFile: File, threshold: real,
                          grey: Image -> Image, scale: (Image, int, int) -> Image): Entry
    requires mapFile.Valid() && GreyConverter(grey) && Resampler(scale)
  {
    if !Buildable(rs, size) || size.width < 1 || size.height < 1 then Crashed
    else if mapFile.decoded.Some? && !HasBaseName(mapFile.name) then Crashed
    else Scored(name, -1.0,
                if mapFile.decoded.None? then None
                else Some(DescriptionTable(rs, size, threshold, mapFile.decoded.value, grey, scale)))
  }

  /** The relative size of a ground-truth mask: its fraction of white pixels. */
  function RelativeSize(gt: Image): (r: real)
    requires gt.WellFormed()
    ensures 0.0 <= r <= 1.0
  {
    Ratio(CountTrue(Flatten(WhiteMask(gt))), |Flatten(WhiteMask(gt))|)
  }

  /** The table of a ground-truth mask against the saliency map image `img`. */
  function ImageTable(gt: Image, img: Image, grey: Image -> Image, scale: (Image, int, int) -> Image): (table: Table)
    requires gt.WellFormed() && img.WellFormed() && GreyConverter(grey) && Resampler(scale)
    ensures |table| == NUM_GREYSCALES
  {
    var mask := WhiteMask(gt);
    var levels := GreyLevels(Prepared(img, gt.Width(), gt.Height(), grey, scale));
    FlattenLength(mask, gt.Width(), gt.Height());
    FlattenLength(levels, gt.Width(), gt.Height());
    Sweep(Flatten(mask), Flatten(levels))
  }

  /** One iteration of `evaluateWithGroundTruthImages`. A file name without
      a base name throws; no matching saliency map skips; otherwise the size
      is recorded, and a ground truth that does not decode throws (the map
      is resampled to size -1, or `evaluate` dereferences the missing mask),
      as does a decoded map without a base name. */
  function ImageEntry(file: File, files: seq<File>, grey: Image -> Image, scale: (Image, int, int) -> Image): Entry
    requires file.Valid() && ValidFiles(files) && GreyConverter(grey) && Resampler(scale)
  {
    if !HasBaseName(file.name) then Crashed
    else match FirstMatch(FileNameWithoutEnding(file.name), files)
      case None => Skipped
      case Some(k) => MatchedEntry(file, files[k], grey, scale)
  }

  /** A ground-truth file with its matching saliency map file. */
  function MatchedEntry(file: File, mapFile: File, grey: Image -> Image, scale: (Image, int, int) -> Image): Entry
    requires file.Valid() && mapFile.Valid() && GreyConverter(grey) && Resampler(scale)
  {
    if file.decoded.None? then Crashed
    else if mapFile.decoded.Some? && !HasBaseName(mapFile.name) then Crashed
    else
      var gt := file.decoded.value;
      Scored(WithoutExtension(file.name), RelativeSize(gt),
             if mapFile.decoded.None? then None else Some(ImageTable(gt, mapFile.decoded.value, grey, scale)))
  }

  /** `f` applied to every element, in order. */
  ghost function Each<A, B>(xs: seq<A>, f: A --> B): (ys: seq<B>)
    requires forall k :: 0 <= k < |xs| ==> f.requires(xs[k])
    ensures |ys| == |xs|
  {
    if |xs| == 0 then [] else Each(xs[..|xs| - 1], f) + [f(xs[|xs| - 1])]
  }

  lemma {:induction false} EachAt<A, B>(xs: seq<A>, f: A --> B, i: nat)
    requires forall k :: 0 <= k < |xs| ==> f.requires(xs[k])
    requires i < |xs|
    ensures Each(xs, f)[i] == f(xs[i])
  {
    if i < |xs| - 1 {
      EachAt(xs[..|xs| - 1], f, i);
    }
  }

  /** The entries of the descriptions, in order. */
  ghost function DescriptionEntries(descriptions: seq<string>, files: seq<File>, threshold: real,
                                    grey: Image -> Image, scale: (Image, int, int) -> Image): (es: seq<Entry>)
    requires ValidFiles(files) && GreyConverter(grey) && Resampler(scale)
    ensures |es| == |descriptions|
  {
    Each(descriptions, DescriptionEntryOf(files, threshold, grey, scale))
  }

  ghost function DescriptionEntryOf(files: seq<File>, threshold: real,
                                    grey: Image -> Image, scale: (Image, int, int) -> Image): string -> Entry
    requires ValidFiles(files) && GreyConverter(grey) && Resampler(scale)
  {
    text => DescriptionEntry(text, files, threshold, grey, scale)
  }

  /** The entries of the ground-truth files, in order. */
  ghost function ImageEntries(groundTruthFiles: seq<File>, files: seq<File>,
                              grey: Image -> Image, scale: (Image, int, int) -> Image): (es: seq<Entry>)
    requires ValidFiles(groundTruthFiles) && ValidFiles(files) && GreyConverter(grey) && Resampler(scale)
    ensures |es| == |groundTruthFiles|
  {
    Each(groundTruthFiles, ImageEntryOf(files, grey, scale))
  }

  ghost function ImageEntryOf(files: seq<File>, grey: Image -> Image, scale: (Image, int, int) -> Image): (f: File --> Entry)
    requires ValidFiles(files) && GreyConverter(grey) && Resampler(scale)
    ensures forall file: File :: file.Valid() ==> f.requires(file)
  {
    (file: File) requires file.Valid() => ImageEntry(file, files, grey, scale)
  }

  predicate AnyCrash(es: seq<Entry>) {
    exists k :: 0 <= k < |es| && es[k].Crashed?
  }

  /** The table an entry leaves in its slot of the result array. */
  function TableOf(e: Entry): Option<Table> {
    if e.Scored? then e.table else None
  }

  /** The table each entry leaves in its slot, in order. */
  function Tables(es: seq<Entry>): (ts: seq<Option<Table>>)
    ensures |ts| == |es|
    ensures forall k :: 0 <= k < |es| ==> ts[k] == TableOf(es[k])
  {
    if |es| == 0 then [] else Tables(es[..|es| - 1]) + [TableOf(es[|es| - 1])]
  }

  /** The sizes map after `put` for every scored entry, in order. */
  function RecordAll(m: map<string, real>, es: seq<Entry>): map<string, real> {
    if |es| == 0 then m
    else
      var e := es[|es| - 1];
      var r := RecordAll(m, es[..|es| - 1]);
      if e.Scored? then r[e.name := e.relativeSize] else r
  }

  /** The tables of the scored entries, in order: the prefix of the result
      array the directory loop fills (`result[iFile++]`). */
  function Packed(es: seq<Entry>): (ps: seq<Option<Table>>)
    ensures |ps| <= |es|
  {
    if |es| == 0 then []
    else
      var e := es[|es| - 1];
      if e.Scored? then Packed(es[..|es| - 1]) + [e.table] else Packed(es[..|es| - 1])
  }

  /** The state `Main` keeps across a run: the relative ground-truth sizes
      by image name. */
  class Evaluator {
    var relativeGtSizes: map<string, real>

    constructor ()
      ensures relativeGtSizes == map[]
    {
      relativeGtSizes := map[];
    }

    /** One iteration of `evaluateWithGroundTruthFile`, run through the
        description, ground-truth and saliency-map classes. */
    method EvaluateDescription(text: string, files: seq<File>, threshold: real,
                               grey: Image -> Image, scale: (Image, int, int) -> Image) returns (e: Entry)
      requires ValidFiles(files) && GreyConverter(grey) && Resampler(scale)
      modifies this
      ensures e == DescriptionEntry(text, files, threshold, grey, scale)
      ensures !e.Crashed? ==> relativeGtSizes == RecordAll(old(relativeGtSizes), [e])
    {
      var gtd := new GroundTruthDescription(text);
      if !gtd.valid {
        return Skipped;
      }
      ValidHasNameAndSize(text);
      var name := gtd.imageName.value;
      if !HasBaseName(name) {
        return Crashed;
      }
      var sMapFile := FindFile(FileNameWithoutEnding(name), files);
      if sMapFile.None? {
        return Skipped;
      }
      e := EvaluateMatched(gtd, sMapFile.value, threshold, grey, scale);
    }

    /** The rest of an iteration of `evaluateWithGroundTruthFile` once a
        saliency map file matches: build the ground truth, record its size,
        threshold it and evaluate it against the map. */
    method EvaluateMatched(gtd: GroundTruthDescription, file: File, threshold: real,
                           grey: Image -> Image, scale: (Image, int, int) -> Image) returns (e: Entry)
      requires gtd.imageName.Some? && gtd.imageSize.Some?
      requires file.Valid() && GreyConverter(grey) && Resampler(scale)
      modifies this, gtd
      ensures e == DescribedEntry(old(gtd.imageName.value), old(gtd.imageSize.value), old(gtd.rectangles), file, threshold, grey, scale)
      ensures !e.Crashed? ==> relativeGtSizes == RecordAll(old(relativeGtSizes), [e])
    {
      var name := gtd.imageName.value;
      var size := gtd.imageSize.value;
      if !Buildable(gtd.rectangles, size) {
        return Crashed;
      }
      ghost var rects := gtd.rectangles;
      var gt := new GroundTruth.FromDescription(gtd);
      var relativeSize := gt.GetRelativeObjectSize();
      relativeGtSizes := relativeGtSizes[name := relativeSize];
      if size.width < 1 || size.height < 1 {
        return Crashed;
      }
      gt.SetBinaryThreshold(threshold);
      if file.decoded.Some? {
        DescribedTable(gt.binaryGroundTruth.value, rects, size, threshold, file.decoded.value, grey, scale);
        if !HasBaseName(file.name) {
          return Crashed;
        }
      }
      var table := MatchAgainst(gt, file, grey, scale);
      e := Scored(name, relativeSize, table);
      assert [e][..0] == [];
    }

    /** One iteration of `evaluateWithGroundTruthImages`. */
    method EvaluateImage(file: File, files: seq<File>, grey: Image -> Image, scale: (Image, int, int) -> Image)
      returns (e: Entry)
      requires file.Valid() && ValidFiles(files) && GreyConverter(grey) && Resampler(scale)
      modifies this
      ensures e == ImageEntry(file, files, grey, scale)
      ensures !e.Crashed? ==> relativeGtSizes == RecordAll(old(relativeGtSizes), [e])
    {
      var gt := new GroundTruth.FromFile(file);
      if !HasBaseName(file.name) {
        return Crashed;
      }
      var sMapFile := FindFile(FileNameWithoutEnding(file.name), files);
      if sMapFile.None? {
        return Skipped;
      }
      e := EvaluateMatchedImage(gt, file, sMapFile.value, grey, scale);
    }

    /** The rest of an iteration of `evaluateWithGroundTruthImages` once a
        saliency map file matches: record the size of the ground truth and
        evaluate it against the map. */
    method EvaluateMatchedImage(gt: GroundTruth, file: File, mapFile: File,
                                grey: Image -> Image, scale: (Image, int, int) -> Image) returns (e: Entry)
      requires gt.Valid() && gt.binaryGroundTruth == file.decoded
      requires file.readThrows ==> gt.imageName.None?
      requires !file.readThrows ==> gt.imageName == Some(WithoutExtension(file.name))
      requires file.Valid() && mapFile.Valid() && GreyConverter(grey) && Resampler(scale)
      modifies this
      ensures e == MatchedEntry(file, mapFile, grey, scale)
      ensures !e.Crashed? ==> relativeGtSizes == RecordAll(old(relativeGtSizes), [e])
    {
      var relativeSize := gt.GetRelativeObjectSize();
      if gt.imageName.None? {
        // the size goes in under the key `null`, and the unread ground
        // truth then throws
        return Crashed;
      }
      relativeGtSizes := relativeGtSizes[gt.imageName.value := relativeSize];
      if gt.binaryGroundTruth.None? {
        return Crashed;
      }
      if mapFile.decoded.Some? && !HasBaseName(mapFile.name) {
        return Crashed;
      }
      var table := MatchAgainst(gt, mapFile, grey, scale);
      e := Scored(gt.imageName.value, relativeSize, table);
      assert [e][..0] == [];
    }

    /** The iteration of `evaluateWithGroundTruthFile` at `i`: entry `i`
        of the run, with its size recorded unless it crashed. */
    method NextDescription(descriptions: seq<string>, i: nat, files: seq<File>, threshold: real,
                           grey: Image -> Image, scale: (Image, int, int) -> Image, ghost initial: map<string, real>)
      returns (e: Entry)
      requires ValidFiles(files) && GreyConverter(grey) && Resampler(scale) && i < |descriptions|
      requires relativeGtSizes == RecordAll(initial, DescriptionEntries(descriptions, files, threshold, grey, scale)[..i])
      modifies this
      ensures e == DescriptionEntries(descriptions, files, threshold, grey, scale)[i]
      ensures !e.Crashed? ==>
        relativeGtSizes == RecordAll(initial, DescriptionEntries(descriptions, files, threshold, grey, scale)[..i + 1])
    {
      ghost var es := DescriptionEntries(descriptions, files, threshold, grey, scale);
      e := EvaluateDescription(descriptions[i], files, threshold, grey, scale);
      EachAt(descriptions, DescriptionEntryOf(files, threshold, grey, scale), i);
      RecordNext(initial, es, i);
    }

    /** The iteration of `evaluateWithGroundTruthImages` at `i`: entry `i`
        of the run, with its size recorded unless it crashed. */
    method NextImage(groundTruthFiles: seq<File>, i: nat, files: seq<File>,
                     grey: Image -> Image, scale: (Image, int, int) -> Image, ghost initial: map<string, real>)
      returns (e: Entry)
      requires ValidFiles(groundTruthFiles) && ValidFiles(files) && GreyConverter(grey) && Resampler(scale)
      requires i < |groundTruthFiles|
      requires relativeGtSizes == RecordAll(initial, ImageEntries(groundTruthFiles, files, grey, scale)[..i])
      modifies this
      ensures e == ImageEntries(groundTruthFiles, files, grey, scale)[i]
      ensures !e.Crashed? ==>
        relativeGtSizes == RecordAll(initial, ImageEntries(groundTruthFiles, files, grey, scale)[..i + 1])
    {
      ghost var es := ImageEntries(groundTruthFiles, files, grey, scale);
      e := EvaluateImage(groundTruthFiles[i], files, grey, scale);
      EachAt(groundTruthFiles, ImageEntryOf(files, grey, scale), i);
      RecordNext(initial, es, i);
    }

    /** `evaluateWithGroundTruthFile`: the file content is split into
        descriptions at blank lines, and slot `k` of the result holds the
        table of description `k` (`null` when it was skipped or its map
        did not match). A file that cannot be read ends the run. */
    method EvaluateWithGroundTruthFile(content: Option<string>, files: seq<File>, threshold: real,
                                       grey: Image -> Image, scale: (Image, int, int) -> Image) returns (run: Run)
      requires ValidFiles(files) && GreyConverter(grey) && Resampler(scale)
      modifies this
      ensures content.None? ==> run.Aborted? && relativeGtSizes == old(relativeGtSizes)
      ensures content.Some? ==>
        var es := DescriptionEntries(Split(content.value, "\n\n"), files, threshold, grey, scale);
        && (run.Aborted? <==> AnyCrash(es))
        && (run.Completed? ==> run.results == Tables(es) && relativeGtSizes == RecordAll(old(relativeGtSizes), es))
    {
      if content.None? {
        return Aborted;
      }
      var descriptions := Split(content.value, "\n\n");
      ghost var es := DescriptionEntries(descriptions, files, threshold, grey, scale);
      var result := new Option<Table>[|descriptions|](_ => None);
      for iDescr := 0 to |descriptions|
        invariant !AnyCrash(es[..iDescr])
        invariant result[..iDescr] == Tables(es[..iDescr])
        invariant forall k :: iDescr <= k < result.Length ==> result[k] == None
        invariant relativeGtSizes == RecordAll(old(relativeGtSizes), es[..iDescr])
      {
        var e := NextDescription(descriptions, iDescr, files, threshold, grey, scale, old(relativeGtSizes));
        if e.Crashed? {
          CrashFound(es, iDescr);
          return Aborted;
        }
        StoreTable(result, iDescr, e, es);
      }
      assert es[..|descriptions|] == es;
      assert result[..] == result[..|descriptions|];
      return Completed(result[..]);
    }

    /** `evaluateWithGroundTruthImages`: the result array has one slot per
        ground-truth file; the tables of the matched files fill a prefix in
        listing order and the rest stay `null`. A directory that does not
        exist ends the run. */
    method EvaluateWithGroundTruthImages(listing: Option<seq<File>>, files: seq<File>,
                                         grey: Image -> Image, scale: (Image, int, int) -> Image) returns (run: Run)
      requires listing.Some? ==> ValidFiles(listing.value)
      requires ValidFiles(files) && GreyConverter(grey) && Resampler(scale)
      modifies this
      ensures listing.None? ==> run.Aborted? && relativeGtSizes == old(relativeGtSizes)
      ensures listing.Some? ==>
        var es := ImageEntries(listing.value, files, grey, scale);
        && (run.Aborted? <==> AnyCrash(es))
        && (run.Completed? ==>
              && |run.results| == |es|
              && run.results[..|Packed(es)|] == Packed(es)
              && (forall k :: |Packed(es)| <= k < |es| ==> run.results[k] == None)
              && relativeGtSizes == RecordAll(old(relativeGtSizes), es))
    {
      if listing.None? {
        return Aborted;
      }
      var groundTruthFiles := listing.value;
      ghost var es := ImageEntries(groundTruthFiles, files, grey, scale);
      var result := new Option<Table>[|groundTruthFiles|](_ => None);
      var iFile := 0;
      for i := 0 to |groundTruthFiles|
        invariant !AnyCrash(es[..i])
        invariant iFile == |Packed(es[..i])| <= i
        invariant result[..iFile] == Packed(es[..i])
        invariant forall k :: iFile <= k < result.Length ==> result[k] == None
        invariant relativeGtSizes == RecordAll(old(relativeGtSizes), es[..i])
      {
        var e := NextImage(groundTruthFiles, i, files, grey, scale, old(relativeGtSizes));
        if e.Crashed? {
          CrashFound(es, i);
          return Aborted;
        }
        iFile := PackTable(result, iFile, i, e, es);
      }
      assert es[..|groundTruthFiles|] == es;
      return Completed(result[..]);
    }

    /** `saveGtSizesToFile`: the sizes are summed over the key set, the sum
        becomes -1 when writing the file fails, and it is divided by the
        number of sizes. */
    method SaveGtSizesToFile(writeFails: bool) returns (mean: Double)
      ensures mean == MeanGtSize(relativeGtSizes, writeFails)
    {
      var result := 0.0;
      if writeFails {
        result := -1.0;
      } else {
        var imageNames := relativeGtSizes.Keys;
        var remaining := imageNames;
        while remaining != {}
          invariant remaining <= imageNames
          invariant result + SizeSum(relativeGtSizes, remaining) == SizeSum(relativeGtSizes, imageNames)
          decreases |remaining|
        {
          var currImageName :| currImageName in remaining;
          SizeSumRemove(relativeGtSizes, remaining, currImageName);
          result := result + relativeGtSizes[currImageName];
          remaining := remaining - {currImageName};
        }
      }
      mean := Divide(result, |relativeGtSizes| as real);
    }
  }

  /** A crashed entry is a crash of the run. */
  lemma CrashFound(es: seq<Entry>, i: nat)
    requires i < |es| && es[i].Crashed?
    ensures AnyCrash(es)
  {
  }

  /** Slot `i` of the description loop's result after entry `i`: its table
      when it was scored, `null` otherwise. */
  method StoreTable(result: array<Option<Table>>, i: nat, e: Entry, ghost es: seq<Entry>)
    requires i < result.Length && i < |es| && e == es[i] && !e.Crashed?
    requires !AnyCrash(es[..i]) && result[..i] == Tables(es[..i])
    requires forall k :: i <= k < result.Length ==> result[k] == None
    modifies result
    ensures !AnyCrash(es[..i + 1]) && result[..i + 1] == Tables(es[..i + 1])
    ensures forall k :: i + 1 <= k < result.Length ==> result[k] == None
  {
    ghost var filled := result[..i];
    if e.Scored? {
      result[i] := e.table;
    }
    assert result[..i + 1] == filled + [TableOf(e)];
    assert es[..i + 1] == es[..i] + [e];
    TablesAppend(es[..i], e);
    NoCrashAppend(es[..i], e);
  }

  /** The directory loop's result after entry `i`: a scored entry's table
      goes to the next free slot (`result[iFile++]`). */
  method PackTable(result: array<Option<Table>>, iFile: nat, i: nat, e: Entry, ghost es: seq<Entry>)
    returns (next: nat)
    requires i < |es| && e == es[i] && !e.Crashed? && result.Length == |es|
    requires !AnyCrash(es[..i]) && iFile == |Packed(es[..i])| <= i && result[..iFile] == Packed(es[..i])
    requires forall k :: iFile <= k < result.Length ==> result[k] == None
    modifies result
    ensures !AnyCrash(es[..i + 1]) && next == |Packed(es[..i + 1])| <= i + 1
    ensures result[..next] == Packed(es[..i + 1])
    ensures forall k :: next <= k < result.Length ==> result[k] == None
  {
    assert es[..i + 1] == es[..i] + [e];
    PackedAppend(es[..i], e);
    NoCrashAppend(es[..i], e);
    next := iFile;
    if e.Scored? {
      result[iFile] := e.table;
      next := iFile + 1;
    }
  }

  /** The saliency map loaded at the size of `gt` and `gt` evaluated
      against it: `null` when the map file does not decode. */
  method MatchAgainst(gt: GroundTruth, mapFile: File, grey: Image -> Image, scale: (Image, int, int) -> Image)
    returns (table: Option<Table>)
    requires gt.Valid() && gt.binaryGroundTruth.Some? && mapFile.Valid() && GreyConverter(grey) && Resampler(scale)
    requires mapFile.decoded.Some? ==> HasBaseName(mapFile.name)
    ensures mapFile.decoded.None? ==> table.None?
    ensures mapFile.decoded.Some? ==>
      table == Some(ImageTable(gt.binaryGroundTruth.value, mapFile.decoded.value, grey, scale))
  {
    var sMap := new SaliencyMap(mapFile, gt.GetWidth(), gt.GetHeight(), grey, scale);
    table := gt.Evaluate(sMap);
  }

  /** Against a thresholded description, the table of its mask is the
      table of the description. */
  lemma DescribedTable(mask: Image, rs: seq<Rectangle>, size: Dimension, t: real, img: Image,
                       grey: Image -> Image, scale: (Image, int, int) -> Image)
    requires size.width > 0 && size.height > 0 && mask.HasSize(size.width, size.height)
    requires img.WellFormed() && GreyConverter(grey) && Resampler(scale)
    requires forall x, y :: 0 <= x < size.width && 0 <= y < size.height ==>
      mask.pixels[x][y] == (if Probability(rs, x, y) > Clamp(t) then WHITE else BLACK)
    ensures ImageTable(mask, img, grey, scale) == DescriptionTable(rs, size, t, img, grey, scale)
  {
    ThresholdedMask(mask, rs, size.width, size.height, t);
  }

  lemma TablesAppend(es: seq<Entry>, e: Entry)
    ensures Tables(es + [e]) == Tables(es) + [TableOf(e)]
  {
    assert (es + [e])[..|es|] == es;
  }

  lemma PackedAppend(es: seq<Entry>, e: Entry)
    ensures Packed(es + [e]) == if e.Scored? then Packed(es) + [e.table] else Packed(es)
  {
    assert (es + [e])[..|es|] == es;
  }

  lemma NoCrashAppend(es: seq<Entry>, e: Entry)
    requires !AnyCrash(es) && !e.Crashed?
    ensures !AnyCrash(es + [e])
  {
    forall k | 0 <= k < |es + [e]|
      ensures !(es + [e])[k].Crashed?
    {
      if k < |es| {
        assert (es + [e])[k] == es[k];
      }
    }
  }

  /** Entry `i` extends the map recorded for the entries before it by
      itself alone. */
  lemma RecordNext(m: map<string, real>, es: seq<Entry>, i: nat)
    requires i < |es|
    ensures RecordAll(m, es[..i + 1]) == RecordAll(RecordAll(m, es[..i]), [es[i]])
  {
    assert es[..i + 1] == es[..i] + [es[i]];
    RecordAppend(m, es[..i], es[i]);
  }

  /** One more entry extends the recorded map by that entry alone. */
  lemma RecordAppend(m: map<string, real>, es: seq<Entry>, e: Entry)
    ensures RecordAll(m, es + [e]) == RecordAll(RecordAll(m, es), [e])
  {
    assert (es + [e])[..|es|] == es;
    assert [e][..0] == [];
  }

  /** `relativeGtSizes` is keyed by image name: a later scored entry under
      a name already recorded overwrites its size, and an entry that is not
      scored records nothing. */
  lemma LaterNameOverwrites(m: map<string, real>, es: seq<Entry>, e: Entry)
    ensures e.Scored? ==> RecordAll(m, es + [e]) == RecordAll(m, es)[e.name := e.relativeSize]
    ensures e.Scored? ==> RecordAll(m, es + [e])[e.name] == e.relativeSize
    ensures !e.Scored? ==> RecordAll(m, es + [e]) == RecordAll(m, es)
  {
    assert (es + [e])[..|es|] == es;
  }

  /** In description mode an entry is skipped exactly when the description
      is invalid or no saliency map name contains its base name, and a
      scored entry leaves `null` exactly when its map does not decode. */
  lemma DescriptionSlots(text: string, files: seq<File>, threshold: real,
                         grey: Image -> Image, scale: (Image, int, int) -> Image)
    requires ValidFiles(files) && GreyConverter(grey) && Resampler(scale)
    ensures var e, d := DescriptionEntry(text, files, threshold, grey, scale), Parse(text);
      && (e.Skipped? <==>
            !d.valid || (d.name.Some? && HasBaseName(d.name.value) && FirstMatch(FileNameWithoutEnding(d.name.value), files).None?))
      && (e.Scored? ==>
            && d.valid && d.name == Some(e.name)
            && FirstMatch(FileNameWithoutEnding(e.name), files).Some?
            && (e.table.None? <==> files[FirstMatch(FileNameWithoutEnding(e.name), files).value].decoded.None?))
  {
    if Parse(text).valid {
      ValidHasNameAndSize(text);
    }
  }

  /** In directory mode an entry is skipped exactly when no saliency map
      name contains the file's base name, and a scored entry leaves `null`
      exactly when its map does not decode. */
  lemma ImageSlots(file: File, files: seq<File>, grey: Image -> Image, scale: (Image, int, int) -> Image)
    requires file.Valid() && ValidFiles(files) && GreyConverter(grey) && Resampler(scale)
    ensures var e := ImageEntry(file, files, grey, scale);
      && (e.Skipped? <==> HasBaseName(file.name) && FirstMatch(FileNameWithoutEnding(file.name), files).None?)
      && (e.Scored? ==>
            && e.name == WithoutExtension(file.name) && file.decoded.Some?
            && FirstMatch(FileNameWithoutEnding(file.name), files).Some?
            && (e.table.None? <==> files[FirstMatch(FileNameWithoutEnding(file.name), files).value].decoded.None?))
  {
  }

  /** The mask `setBinaryThreshold` leaves on a described ground truth is
      the thresholded description. */
  lemma ThresholdedMask(img: Image, rs: seq<Rectangle>, w: nat, h: nat, t: real)
    requires img.HasSize(w, h)
    requires forall x, y :: 0 <= x < w && 0 <= y < h ==>
      img.pixels[x][y] == (if Probability(rs, x, y) > Clamp(t) then WHITE else BLACK)
    ensures WhiteMask(img) == DescriptionMask(rs, w, h, t)
  {
    var a, b := WhiteMask(img), DescriptionMask(rs, w, h, t);
    forall x | 0 <= x < w
      ensures a[x] == b[x]
    {
    }
  }

  // ---------------------------------------------------------------------
  // What a run leaves for the means

  /** An entry whose table, if any, is a full table in [0, 1]. */
  predicate UnitEntry(e: Entry) {
    e.Scored? && e.table.Some? ==> InUnitInterval(e.table.value)
  }

  lemma DescriptionEntryFacts(text: string, files: seq<File>, threshold: real,
                              grey: Image -> Image, scale: (Image, int, int) -> Image)
    requires ValidFiles(files) && GreyConverter(grey) && Resampler(scale)
    ensures UnitEntry(DescriptionEntry(text, files, threshold, grey, scale))
    ensures DescriptionEntry(text, files, threshold, grey, scale).Scored? ==>
      DescriptionEntry(text, files, threshold, grey, scale).relativeSize == -1.0
  {
    var e := DescriptionEntry(text, files, threshold, grey, scale);
    if e.Scored? && e.table.Some? {
      var d := Parse(text);
      ValidHasNameAndSize(text);
      var k := FirstMatch(FileNameWithoutEnding(d.name.value), files).value;
      var size := d.size.value;
      var img := files[k].decoded.value;
      var mask := DescriptionMask(d.rects, size.width, size.height, threshold);
      var levels := GreyLevels(Prepared(img, size.width, size.height, grey, scale));
      FlattenLength(mask, size.width, size.height);
      FlattenLength(levels, size.width, size.height);
      SweepInUnitInterval(Flatten(mask), Flatten(levels));
    }
  }

  lemma ImageEntryFacts(file: File, files: seq<File>, grey: Image -> Image, scale: (Image, int, int) -> Image)
    requires file.Valid() && ValidFiles(files) && GreyConverter(grey) && Resampler(scale)
    ensures UnitEntry(ImageEntry(file, files, grey, scale))
    ensures ImageEntry(file, files, grey, scale).Scored? ==>
      0.0 <= ImageEntry(file, files, grey, scale).relativeSize <= 1.0
  {
    var e := ImageEntry(file, files, grey, scale);
    if e.Scored? && e.table.Some? {
      var k := FirstMatch(FileNameWithoutEnding(file.name), files).value;
      var gt := file.decoded.value;
      var img := files[k].decoded.value;
      var mask := WhiteMask(gt);
      var levels := GreyLevels(Prepared(img, gt.Width(), gt.Height(), grey, scale));
      FlattenLength(mask, gt.Width(), gt.Height());
      FlattenLength(levels, gt.Width(), gt.Height());
      SweepInUnitInterval(Flatten(mask), Flatten(levels));
    }
  }

  /** In description mode every table lies in [0, 1] and every recorded
      size is -1. */
  lemma DescriptionEntriesFacts(descriptions: seq<string>, files: seq<File>, threshold: real,
                                grey: Image -> Image, scale: (Image, int, int) -> Image)
    requires ValidFiles(files) && GreyConverter(grey) && Resampler(scale)
    ensures forall k :: 0 <= k < |descriptions| ==>
      var e := DescriptionEntries(descriptions, files, threshold, grey, scale)[k];
      UnitEntry(e) && (e.Scored? ==> e.relativeSize == -1.0)
  {
    var f := DescriptionEntryOf(files, threshold, grey, scale);
    forall k | 0 <= k < |descriptions|
      ensures UnitEntry(Each(descriptions, f)[k])
      ensures Each(descriptions, f)[k].Scored? ==> Each(descriptions, f)[k].relativeSize == -1.0
    {
      EachAt(descriptions, f, k);
      DescriptionEntryFacts(descriptions[k], files, threshold, grey, scale);
    }
  }

  /** In directory mode every table lies in [0, 1] and every recorded size
      is a fraction in [0, 1]. */
  lemma ImageEntriesFacts(groundTruthFiles: seq<File>, files: seq<File>,
                          grey: Image -> Image, scale: (Image, int, int) -> Image)
    requires ValidFiles(groundTruthFiles) && ValidFiles(files) && GreyConverter(grey) && Resampler(scale)
    ensures forall k :: 0 <= k < |groundTruthFiles| ==>
      var e := ImageEntries(groundTruthFiles, files, grey, scale)[k];
      UnitEntry(e) && (e.Scored? ==> 0.0 <= e.relativeSize <= 1.0)
  {
    var f := ImageEntryOf(files, grey, scale);
    forall k | 0 <= k < |groundTruthFiles|
      ensures UnitEntry(Each(groundTruthFiles, f)[k])
      ensures Each(groundTruthFiles, f)[k].Scored? ==> 0.0 <= Each(groundTruthFiles, f)[k].relativeSize <= 1.0
    {
      EachAt(groundTruthFiles, f, k);
      ImageEntryFacts(groundTruthFiles[k], files, grey, scale);
    }
  }

  /** Recording entries whose sizes lie in [lo, hi] keeps every size of the
      map in [lo, hi]. */
  lemma {:induction false} RecordedBounds(m: map<string, real>, es: seq<Entry>, lo: real, hi: real)
    requires forall name :: name in m ==> lo <= m[name] <= hi
    requires forall k :: 0 <= k < |es| && es[k].Scored? ==> lo <= es[k].relativeSize <= hi
    ensures forall name :: name in RecordAll(m, es) ==> lo <= RecordAll(m, es)[name] <= hi
  {
    if |es| > 0 {
      var prefix := es[..|es| - 1];
      assert forall k :: 0 <= k < |prefix| ==> prefix[k] == es[k];
      RecordedBounds(m, prefix, lo, hi);
    }
  }

  /** The tables of entries in [0, 1] are full tables in [0, 1]. */
  lemma TablesInUnitInterval(es: seq<Entry>)
    requires forall k :: 0 <= k < |es| ==> UnitEntry(es[k])
    ensures FullTables(Tables(es)) && UnitTables(Tables(es))
  {
    var ts := Tables(es);
    forall k | 0 <= k < |ts| && ts[k].Some?
      ensures InUnitInterval(ts[k].value)
    {
      assert UnitEntry(es[k]);
    }
    assert FullTables(ts);
  }

  lemma {:induction false} PackedInUnitInterval(es: seq<Entry>)
    requires forall k :: 0 <= k < |es| ==> UnitEntry(es[k])
    ensures forall k :: 0 <= k < |Packed(es)| && Packed(es)[k].Some? ==> InUnitInterval(Packed(es)[k].value)
  {
    if |es| > 0 {
      var prefix := es[..|es| - 1];
      assert forall k :: 0 <= k < |prefix| ==> prefix[k] == es[k];
      PackedInUnitInterval(prefix);
    }
  }

  /** A completed description run started on an empty map (as `main`
      does) leaves sizes whose mean is -1, and tables whose mean per
      threshold lies in [0, 1]. */
  lemma DescriptionRunMeans(descriptions: seq<string>, files: seq<File>, threshold: real,
                            grey: Image -> Image, scale: (Image, int, int) -> Image)
    requires ValidFiles(files) && GreyConverter(grey) && Resampler(scale)
    ensures var es := DescriptionEntries(descriptions, files, threshold, grey, scale);
      && (|RecordAll(map[], es)| > 0 ==> MeanGtSize(RecordAll(map[], es), false) == Finite(-1.0))
      && FullTables(Tables(es))
      && forall t :: 0 <= t < NUM_GREYSCALES ==>
           0.0 <= MeanTable(Tables(es))[t].precision <= 1.0 && 0.0 <= MeanTable(Tables(es))[t].recall <= 1.0
  {
    var es := DescriptionEntries(descriptions, files, threshold, grey, scale);
    DescriptionEntriesFacts(descriptions, files, threshold, grey, scale);
    RecordedBounds(map[], es, -1.0, -1.0);
    if |RecordAll(map[], es)| > 0 {
      MeanGtSizeUnknown(RecordAll(map[], es));
    }
    TablesInUnitInterval(es);
    MeanInUnitInterval(Tables(es));
  }

  /** A completed directory run started on an empty map leaves sizes whose
      mean lies in [0, 1], and result tables whose mean per threshold lies
      in [0, 1]. */
  lemma ImageRunMeans(groundTruthFiles: seq<File>, files: seq<File>, results: seq<Option<Table>>,
                      grey: Image -> Image, scale: (Image, int, int) -> Image)
    requires ValidFiles(groundTruthFiles) && ValidFiles(files) && GreyConverter(grey) && Resampler(scale)
    requires var es := ImageEntries(groundTruthFiles, files, grey, scale);
      && |results| == |es| && results[..|Packed(es)|] == Packed(es)
      && (forall k :: |Packed(es)| <= k < |es| ==> results[k] == None)
    ensures var es := ImageEntries(groundTruthFiles, files, grey, scale);
      && (|RecordAll(map[], es)| > 0 ==>
            MeanGtSize(RecordAll(map[], es), false).Finite? &&
            0.0 <= MeanGtSize(RecordAll(map[], es), false).value <= 1.0)
      && FullTables(results)
      && forall t :: 0 <= t < NUM_GREYSCALES ==>
           0.0 <= MeanTable(results)[t].precision <= 1.0 && 0.0 <= MeanTable(results)[t].recall <= 1.0
  {
    var es := ImageEntries(groundTruthFiles, files, grey, scale);
    ImageEntriesFacts(groundTruthFiles, files, grey, scale);
    RecordedBounds(map[], es, 0.0, 1.0);
    if |RecordAll(map[], es)| > 0 {
      MeanGtSizeInUnitInterval(RecordAll(map[], es));
    }
    PackedInUnitInterval(es);
    var n := |Packed(es)|;
    forall k | 0 <= k < |results| && results[k].Some?
      ensures InUnitInterval(results[k].value)
    {
      assert k < n;
      assert results[k] == results[..n][k];
    }
    MeanInUnitInterval(results);
  }
}
