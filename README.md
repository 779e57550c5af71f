# Saliency Evaluation Tool — a verified model

The Saliency Evaluation Tool scores saliency maps against ground truths, image by image. It follows the precision/recall protocol of Achanta et al. (CVPR 2009). A saliency map is a greyscale image. A ground truth is either a binary mask image or a textual description of rectangles in the format of Liu et al. (CVPR 2007). For every threshold 0..255 the tool binarises the map, counts the pixels it gets right, and reports precision and recall. Over a corpus it reports the mean of these per threshold, the F-measure, and the mean relative size of the salient objects.

This project models the evaluation core of the tool in Dafny and proves properties of that model.

- `wrappers.dfy` (`Wrappers`): `Option`, which stands for Java's `null`.
- `java_lang.dfy` (`JavaLang`): the parts of the Java class library that the core relies on:
  - IEEE division of `double`s, as `Double`;
  - `trim`, `StringTokenizer`, `Integer.parseInt`, `indexOf`/`lastIndexOf`, `contains`, `startsWith`;
  - ASCII case folding;
  - `split` on a literal separator.
- `images.dfy` (`Images`): a `BufferedImage` as a value `Image` of ARGB words, `pixels[x][y]`, and the column-major flattening that both the ground truth and the saliency map use.
- `file_util.dfy` (`FileUtil`): `getFileNameWithoutEnding` and `findFile`.
- `confusion.dfy` (`Confusion`): the counts of the threshold sweep, its 256-row table with 0 on an empty denominator, and the properties of that table.
- `ground_truth_description.dfy` (`GroundTruthDescriptions`): the description parser, as the class `GroundTruthDescription` whose methods assign its fields step by step, beside the functions that specify what it reads. Also a writer of the format, with the round trip proved.
- `saliency_map.dfy` (`SaliencyMaps`): the class `SaliencyMap`: loading with grey conversion and resampling decided by type and size, the flattened grey levels, and the binary map.
- `ground_truth.dfy` (`GroundTruths`): the class `GroundTruth`:
  - the rectangle probability grid, as a Dafny `array2`, filled in nested loops;
  - the strict-threshold binarisation;
  - the relative object size and the flattened mask;
  - both `evaluate` overloads;
  - the F-measure.
- `command_line.dfy` (`CommandLine`): `parseCommandLineParameters` as the class `Options`, holding the static configuration fields of `Main`.
- `means.dfy` (`Means`): `determineMeanPerThreshold`, both as written and corrected, and the mean that `saveGtSizesToFile` returns.
- `evaluation.dfy` (`Evaluation`): the two evaluation loops of `Main`, how they fill the result array, and the `relativeGtSizes` map they fill, as the class `Evaluator`.

Every loop of the source that updates variables is a Dafny method with loop invariants. Each such method is proved against a function of its inputs, and the source's promises are lemmas about that function.

### Services of the surroundings, as parameters

- **Image decoding.** A `File` of a directory listing carries its name and what the codec decodes from it (`None` when it is not an image).
- **Image conversions.** The greyscale conversion and the bicubic resampler are function parameters. They are constrained only by the size and type they guarantee (`GreyConverter`, `Resampler`).
- **`Double.parseDouble`** is a function parameter.
- **Reading the ground-truth file** and listing the ground-truth directory are `Option` inputs; `None` means the read or listing failed.
- **Writing the sizes file** is reduced to whether the write fails.

### Exceptions and exits

An exception that a Java member throws becomes a `requires` on the Dafny member. An exception inside an evaluation loop propagates to the `catch` of `main` and ends the run; the loops model this as `Crashed` entries and an `Aborted` run. `System.exit` in the argument parser is the `Usage` or `Exit` outcome.

### Behaviour of the code worth noting

- `saveGtSizesToFile` (Main.java:470-489) divides the sum of every recorded size by the number of sizes, although its Javadoc (Main.java:453) promises the "average size of relative ground truth size". The sum includes the -1 that `getRelativeObjectSize` returns for a ground truth without a mask.
- In description mode, the size is recorded at Main.java:252, before `setBinaryThreshold` builds a mask at Main.java:253. So every recorded size is -1, and the mean size is -1 whenever a size is recorded (`Evaluation.DescriptionRunMeans`).
- In the description constructor (GroundTruth.java:91-105) each of N rectangles adds 1/N to the pixels it covers. With exact arithmetic a pixel's probability therefore never exceeds 1 (`GroundTruths.Probability`). Only float rounding could push it past 1, and rounding is not modelled.
- `determineMeanPerThreshold` bounds both loops by 256 (Main.java:609-611), while its comment at Main.java:607 says they determine the actual number of evaluated images; see Findings.

## Model

| member | source | states |
|---|---|---|
| JavaLang.Divide | CognitiveVision/evaluation/SaliencyEvaluationTool/SaliencyEvaluationTool/src/de/unibonn/informatik/ivs/set/GroundTruth.java:247-249 | Double division of exact values: finite exactly when the divisor is non-zero (and then the quotient times the divisor is the dividend), NaN exactly for 0/0, otherwise an infinity with the dividend's sign |
| JavaLang.Trim | CognitiveVision/evaluation/SaliencyEvaluationTool/SaliencyEvaluationTool/src/de/unibonn/informatik/ivs/set/GroundTruthDescription.java:86 | `trim` removes only characters at or below the space, and only from the ends: the result occurs in the input with nothing but such characters before and after it, and it neither starts nor ends with one |
| JavaLang.TrimDetermined | CognitiveVision/evaluation/SaliencyEvaluationTool/SaliencyEvaluationTool/src/de/unibonn/informatik/ivs/set/GroundTruthDescription.java:86 | Those properties determine the result: any such string with visible ends is the trimmed string |
| JavaLang.TrimIdempotent | CognitiveVision/evaluation/SaliencyEvaluationTool/SaliencyEvaluationTool/src/de/unibonn/informatik/ivs/set/GroundTruthDescription.java:86 | Trimming twice is trimming once |
| JavaLang.LastIndexOf | CognitiveVision/evaluation/SaliencyEvaluationTool/SaliencyEvaluationTool/src/de/unibonn/informatik/ivs/set/FileUtil.java:195-199 | `lastIndexOf(c)` is -1 exactly when `c` is absent; otherwise it is the index of a `c` with no `c` after it |
| JavaLang.IndexOf | CognitiveVision/evaluation/SaliencyEvaluationTool/SaliencyEvaluationTool/src/de/unibonn/informatik/ivs/set/Main.java:655 | `indexOf(c)` is -1 exactly when `c` is absent; otherwise it is the index of a `c` with no `c` before it |
| JavaLang.Tokens | CognitiveVision/evaluation/SaliencyEvaluationTool/SaliencyEvaluationTool/src/de/unibonn/informatik/ivs/set/GroundTruthDescription.java:87 | A `StringTokenizer` with a single delimiter yields only non-empty tokens that are free of the delimiter |
| JavaLang.TokensContent | CognitiveVision/evaluation/SaliencyEvaluationTool/SaliencyEvaluationTool/src/de/unibonn/informatik/ivs/set/GroundTruthDescription.java:87 | The tokens, one after another, are exactly the characters of the text other than the delimiter, in order |
| JavaLang.TokensOfJoin | CognitiveVision/evaluation/SaliencyEvaluationTool/SaliencyEvaluationTool/src/de/unibonn/informatik/ivs/set/GroundTruthDescription.java:87-98 | Tokenising non-empty, delimiter-free tokens joined by the delimiter gives back exactly those tokens |
| JavaLang.ParseInt | CognitiveVision/evaluation/SaliencyEvaluationTool/SaliencyEvaluationTool/src/de/unibonn/informatik/ivs/set/GroundTruthDescription.java:95-105 | `Integer.parseInt` accepts only values in the 32-bit range and never accepts the empty string |
| JavaLang.ParseIntShowInt | CognitiveVision/evaluation/SaliencyEvaluationTool/SaliencyEvaluationTool/src/de/unibonn/informatik/ivs/set/GroundTruthDescription.java:102-105 | Every 32-bit integer's decimal text parses back to that integer |
| JavaLang.Split | CognitiveVision/evaluation/SaliencyEvaluationTool/SaliencyEvaluationTool/src/de/unibonn/informatik/ivs/set/Main.java:230 | `split("\n\n")`: a text without the separator comes back whole, otherwise as its pieces between occurrences with the trailing empty pieces dropped (the pieces rejoin to the text by `JoinWithPieces`, and `DropTrailingEmpty` states the drop) |
| JavaLang.IndexOfSeq | CognitiveVision/evaluation/SaliencyEvaluationTool/SaliencyEvaluationTool/src/de/unibonn/informatik/ivs/set/Main.java:230 | The separator search finds the first occurrence of the separator, or reports that there is none |
| JavaLang.JoinWithPieces | CognitiveVision/evaluation/SaliencyEvaluationTool/SaliencyEvaluationTool/src/de/unibonn/informatik/ivs/set/Main.java:230 | The pieces between the separators, glued back with the separator, restore the input |
| JavaLang.DropTrailingEmpty | CognitiveVision/evaluation/SaliencyEvaluationTool/SaliencyEvaluationTool/src/de/unibonn/informatik/ivs/set/Main.java:230 | `split` drops the trailing empty pieces: the result is a prefix, it does not end in an empty piece, and only empty pieces are dropped |
| JavaLang.StartsWith | CognitiveVision/evaluation/SaliencyEvaluationTool/SaliencyEvaluationTool/src/de/unibonn/informatik/ivs/set/Main.java:641-644 | `startsWith`: the string begins with the given prefix |
| JavaLang.Contains | CognitiveVision/evaluation/SaliencyEvaluationTool/SaliencyEvaluationTool/src/de/unibonn/informatik/ivs/set/FileUtil.java:219 | `contains`: the query occurs at some index of the string as a contiguous run |
| JavaLang.LowerChar | CognitiveVision/evaluation/SaliencyEvaluationTool/SaliencyEvaluationTool/src/de/unibonn/informatik/ivs/set/Main.java:642-644 | Case folding maps A-Z onto a-z and leaves every other character alone |
| JavaLang.ToLowerCase | CognitiveVision/evaluation/SaliencyEvaluationTool/SaliencyEvaluationTool/src/de/unibonn/informatik/ivs/set/Main.java:642-644 | `toLowerCase` keeps the length and folds each character by `LowerChar` |
| JavaLang.EqualsIgnoreCase | CognitiveVision/evaluation/SaliencyEvaluationTool/SaliencyEvaluationTool/src/de/unibonn/informatik/ivs/set/Main.java:661-699 | `equalsIgnoreCase`: the two strings have the same length and agree character by character after case folding |
| Images.Blank | CognitiveVision/evaluation/SaliencyEvaluationTool/SaliencyEvaluationTool/src/de/unibonn/informatik/ivs/set/GroundTruth.java:125 | A new binary image has the requested size, and every pixel reads as opaque black |
| Images.SetRGB | CognitiveVision/evaluation/SaliencyEvaluationTool/SaliencyEvaluationTool/src/de/unibonn/informatik/ivs/set/GroundTruth.java:131 | `setRGB` changes exactly the one pixel it names and keeps the size and type |
| Images.LowByte | CognitiveVision/evaluation/SaliencyEvaluationTool/SaliencyEvaluationTool/src/de/unibonn/informatik/ivs/set/SaliencyMap.java:169 | `argb & 0xFF` lies in 0..255 and leaves a value already in that range unchanged |
| Images.WhiteMask | CognitiveVision/evaluation/SaliencyEvaluationTool/SaliencyEvaluationTool/src/de/unibonn/informatik/ivs/set/GroundTruth.java:341 | The salient flag of pixel (x, y) is true exactly when it is `0xFFFFFFFF` |
| Images.GreyLevels | CognitiveVision/evaluation/SaliencyEvaluationTool/SaliencyEvaluationTool/src/de/unibonn/informatik/ivs/set/SaliencyMap.java:169 | The value of pixel (x, y) is its low byte |
| Images.FlattenLength | CognitiveVision/evaluation/SaliencyEvaluationTool/SaliencyEvaluationTool/src/de/unibonn/informatik/ivs/set/GroundTruth.java:334 | Flattening a W-by-H grid yields W*H entries |
| Images.FlattenIndex | CognitiveVision/evaluation/SaliencyEvaluationTool/SaliencyEvaluationTool/src/de/unibonn/informatik/ivs/set/GroundTruth.java:334-344 | Column-major order: pixel (x, y) sits at flat index x*H+y |
| Images.FlattenZip | CognitiveVision/evaluation/SaliencyEvaluationTool/SaliencyEvaluationTool/src/de/unibonn/informatik/ivs/set/SaliencyMap.java:163-171 | Ground-truth flags and map values are flattened in the same order, so corresponding pixels meet at the same index |
| Images.GreyLevelsFlat | CognitiveVision/evaluation/SaliencyEvaluationTool/SaliencyEvaluationTool/src/de/unibonn/informatik/ivs/set/SaliencyMap.java:158-174 | The flattened map has W*H values, each in 0..255, with the value of pixel (x, y) at x*H+y |
| FileUtil.NameStart | CognitiveVision/evaluation/SaliencyEvaluationTool/SaliencyEvaluationTool/src/de/unibonn/informatik/ivs/set/FileUtil.java:195-197 | The base name starts after the last backslash; only when there is no backslash, after the last slash; and at 0 when there is neither |
| FileUtil.NameEnd | CognitiveVision/evaluation/SaliencyEvaluationTool/SaliencyEvaluationTool/src/de/unibonn/informatik/ivs/set/FileUtil.java:199-200 | The base name ends at the last dot, or at the end of the string when there is no dot |
| FileUtil.FileNameWithoutEnding | CognitiveVision/evaluation/SaliencyEvaluationTool/SaliencyEvaluationTool/src/de/unibonn/informatik/ivs/set/FileUtil.java:193-203 | The result is the text between the start and end of the base name. It holds no backslash, and no slash when the path has no backslash. The part cut off is a dot followed by text without a dot |
| FileUtil.PlainNameUnchanged | CognitiveVision/evaluation/SaliencyEvaluationTool/SaliencyEvaluationTool/src/de/unibonn/informatik/ivs/set/FileUtil.java:193-203 | A name with no separator and no dot is returned unchanged |
| FileUtil.DotBeforeSlashHasNoBaseName | CognitiveVision/evaluation/SaliencyEvaluationTool/SaliencyEvaluationTool/src/de/unibonn/informatik/ivs/set/FileUtil.java:199-202 | For `a.b/c` the last dot comes before the start of the base name, so `substring` throws |
| FileUtil.FirstMatch | CognitiveVision/evaluation/SaliencyEvaluationTool/SaliencyEvaluationTool/src/de/unibonn/informatik/ivs/set/FileUtil.java:215-223 | The index of the first file whose name contains the query, or none exactly when no file's name does |
| FileUtil.FindFile | CognitiveVision/evaluation/SaliencyEvaluationTool/SaliencyEvaluationTool/src/de/unibonn/informatik/ivs/set/FileUtil.java:215-223 | `findFile` returns the first file, in array order, whose name contains the query, and `null` exactly when none does |
| Confusion.CountTrue | CognitiveVision/evaluation/SaliencyEvaluationTool/SaliencyEvaluationTool/src/de/unibonn/informatik/ivs/set/GroundTruth.java:302-304 | `nGroundTruth`: the number of salient pixels, at most the number of pixels |
| Confusion.CountAtLeast | CognitiveVision/evaluation/SaliencyEvaluationTool/SaliencyEvaluationTool/src/de/unibonn/informatik/ivs/set/GroundTruth.java:306-312 | `nSaliency`: the number of pixels whose value is at least the threshold |
| Confusion.CountMatch | CognitiveVision/evaluation/SaliencyEvaluationTool/SaliencyEvaluationTool/src/de/unibonn/informatik/ivs/set/GroundTruth.java:302-309 | `nMatch`: the number of salient pixels whose value is at least the threshold |
| Confusion.Row | CognitiveVision/evaluation/SaliencyEvaluationTool/SaliencyEvaluationTool/src/de/unibonn/informatik/ivs/set/GroundTruth.java:315-316 | Precision `nMatch/nSaliency` and recall `nMatch/nGroundTruth`, each 0 when its denominator is 0 |
| Confusion.CountsAppend | CognitiveVision/evaluation/SaliencyEvaluationTool/SaliencyEvaluationTool/src/de/unibonn/informatik/ivs/set/GroundTruth.java:300-313 | One more pixel adds its own contribution to each of the three counts |
| Confusion.Ratio | CognitiveVision/evaluation/SaliencyEvaluationTool/SaliencyEvaluationTool/src/de/unibonn/informatik/ivs/set/GroundTruth.java:315-316 | A ratio is 0 on an empty denominator; otherwise it is the exact quotient, at most 1 when the numerator does not exceed the denominator, and exactly 1 when they are equal and positive |
| Confusion.Sweep | CognitiveVision/evaluation/SaliencyEvaluationTool/SaliencyEvaluationTool/src/de/unibonn/informatik/ivs/set/GroundTruth.java:289-321 | The table has 256 rows, and row t is the precision/recall pair at threshold t |
| Confusion.MatchBounds | CognitiveVision/evaluation/SaliencyEvaluationTool/SaliencyEvaluationTool/src/de/unibonn/informatik/ivs/set/GroundTruth.java:300-313 | No more matches than predicted pixels, and no more than salient pixels |
| Confusion.CountsMonotone | CognitiveVision/evaluation/SaliencyEvaluationTool/SaliencyEvaluationTool/src/de/unibonn/informatik/ivs/set/GroundTruth.java:293-313 | Raising the threshold never adds a predicted pixel or a match |
| Confusion.EverythingAtZero | CognitiveVision/evaluation/SaliencyEvaluationTool/SaliencyEvaluationTool/src/de/unibonn/informatik/ivs/set/GroundTruth.java:300-313 | With no negative value, threshold 0 predicts every pixel and matches every salient one |
| Confusion.CountsStep | CognitiveVision/evaluation/SaliencyEvaluationTool/SaliencyEvaluationTool/src/de/unibonn/informatik/ivs/set/GroundTruth.java:293-313 | Going from threshold t to t+1 loses exactly the pixels of value t: the histogram refinement of the sweep |
| Confusion.NothingAboveTop | CognitiveVision/evaluation/SaliencyEvaluationTool/SaliencyEvaluationTool/src/de/unibonn/informatik/ivs/set/GroundTruth.java:293 | With values in 0..255 nothing is predicted at threshold 256 |
| Confusion.CountTrueIsCountAtLeast | CognitiveVision/evaluation/SaliencyEvaluationTool/SaliencyEvaluationTool/src/de/unibonn/informatik/ivs/set/SaliencyMap.java:192 | When the flags are exactly `value >= t`, the number of set flags is the number of pixels predicted salient at t |
| Confusion.RowInUnitInterval | CognitiveVision/evaluation/SaliencyEvaluationTool/SaliencyEvaluationTool/src/de/unibonn/informatik/ivs/set/GroundTruth.java:315-316 | Precision and recall of every row lie in [0, 1] |
| Confusion.SweepInUnitInterval | CognitiveVision/evaluation/SaliencyEvaluationTool/SaliencyEvaluationTool/src/de/unibonn/informatik/ivs/set/GroundTruth.java:289-321 | Every row of a sweep lies in [0, 1] |
| Confusion.RecallNonIncreasing | CognitiveVision/evaluation/SaliencyEvaluationTool/SaliencyEvaluationTool/src/de/unibonn/informatik/ivs/set/GroundTruth.java:293-316 | Recall never increases as the threshold rises |
| Confusion.RecallOneAtZero | CognitiveVision/evaluation/SaliencyEvaluationTool/SaliencyEvaluationTool/src/de/unibonn/informatik/ivs/set/GroundTruth.java:300-316 | With no negative value and at least one salient pixel, recall at threshold 0 is 1 |
| GroundTruthDescriptions.Lines | CognitiveVision/evaluation/SaliencyEvaluationTool/SaliencyEvaluationTool/src/de/unibonn/informatik/ivs/set/GroundTruthDescription.java:86-87 | The lines the parser reads are the non-empty newline-separated runs of the trimmed text |
| GroundTruthDescriptions.ParseSize | CognitiveVision/evaluation/SaliencyEvaluationTool/SaliencyEvaluationTool/src/de/unibonn/informatik/ivs/set/GroundTruthDescription.java:93-95 | A size line gives the dimension of its first two space-separated fields when both are integers; a missing or non-integer field, which throws in Java, gives none |
| GroundTruthDescriptions.ParseRect | CognitiveVision/evaluation/SaliencyEvaluationTool/SaliencyEvaluationTool/src/de/unibonn/informatik/ivs/set/GroundTruthDescription.java:101-106 | A rectangle token gives the rectangle at (left, top) of size (right-left+1, bottom-top+1) when its first four fields are integers, and none otherwise |
| GroundTruthDescriptions.ParseRects | CognitiveVision/evaluation/SaliencyEvaluationTool/SaliencyEvaluationTool/src/de/unibonn/informatik/ivs/set/GroundTruthDescription.java:98-109 | The rectangle loop: the tokens of the third line read in order by `ParseRect`, up to the first one it rejects |
| GroundTruthDescriptions.ParseLines | CognitiveVision/evaluation/SaliencyEvaluationTool/SaliencyEvaluationTool/src/de/unibonn/informatik/ivs/set/GroundTruthDescription.java:89-118 | The fields `parseDescription` assigns before it stops: the path from line 1, the name when the path has a base name, the size from line 2, the rectangles from line 3, and `valid` only when all of them are read |
| GroundTruthDescriptions.Parse | CognitiveVision/evaluation/SaliencyEvaluationTool/SaliencyEvaluationTool/src/de/unibonn/informatik/ivs/set/GroundTruthDescription.java:80-119 | The parse of a description text is `ParseLines` of its lines; `ValidIff`, `ValidContents` and `StopsEarly` state what it decides |
| GroundTruthDescriptions.ReadAll | CognitiveVision/evaluation/SaliencyEvaluationTool/SaliencyEvaluationTool/src/de/unibonn/informatik/ivs/set/GroundTruthDescription.java:99-109 | Reading stops at the first rejected token. The items read come from the leading tokens, in order. Reading is complete exactly when every token is accepted, and after a stop the next token is the rejected one |
| GroundTruthDescriptions.StopsEarly | CognitiveVision/evaluation/SaliencyEvaluationTool/SaliencyEvaluationTool/src/de/unibonn/informatik/ivs/set/GroundTruthDescription.java:84-118 | A missing line, a path without a base name or a bad size line leaves the description invalid. It has no rectangles, and exactly the fields read before the failure are set |
| GroundTruthDescriptions.ReachesRectangles | CognitiveVision/evaluation/SaliencyEvaluationTool/SaliencyEvaluationTool/src/de/unibonn/informatik/ivs/set/GroundTruthDescription.java:89-111 | Once the third line is reached, the path, the name and the size are set. The rectangles and the flag come from reading the third line's `;` tokens |
| GroundTruthDescriptions.ValidOnlyIfComplete | CognitiveVision/evaluation/SaliencyEvaluationTool/SaliencyEvaluationTool/src/de/unibonn/informatik/ivs/set/GroundTruthDescription.java:84-118 | A valid description has three lines, a base name in the first, a size in the second and a rectangle in every token of the third |
| GroundTruthDescriptions.ValidIfComplete | CognitiveVision/evaluation/SaliencyEvaluationTool/SaliencyEvaluationTool/src/de/unibonn/informatik/ivs/set/GroundTruthDescription.java:84-118 | Such a description is valid |
| GroundTruthDescriptions.ValidIff | CognitiveVision/evaluation/SaliencyEvaluationTool/SaliencyEvaluationTool/src/de/unibonn/informatik/ivs/set/GroundTruthDescription.java:84-118 | `valid` holds exactly when all the lines are complete |
| GroundTruthDescriptions.ValidContents | CognitiveVision/evaluation/SaliencyEvaluationTool/SaliencyEvaluationTool/src/de/unibonn/informatik/ivs/set/GroundTruthDescription.java:86-111 | A valid description has one rectangle per token of the third line, in textual order; the base name of the first line; and the first two fields of the second |
| GroundTruthDescriptions.InvalidKeepsPrefix | CognitiveVision/evaluation/SaliencyEvaluationTool/SaliencyEvaluationTool/src/de/unibonn/informatik/ivs/set/GroundTruthDescription.java:97-118 | A failure in the third line keeps, in order, the rectangles of the tokens before the first bad token |
| GroundTruthDescriptions.TokensAppend | CognitiveVision/evaluation/SaliencyEvaluationTool/SaliencyEvaluationTool/src/de/unibonn/informatik/ivs/set/GroundTruthDescription.java:94-101 | Tokenising two texts glued by the delimiter gives the tokens of each in turn |
| GroundTruthDescriptions.DelimitersIgnored | CognitiveVision/evaluation/SaliencyEvaluationTool/SaliencyEvaluationTool/src/de/unibonn/informatik/ivs/set/GroundTruthDescription.java:87 | Delimiters at the start, at the end or several in a row yield no tokens |
| GroundTruthDescriptions.ExtraSizeFieldsIgnored | CognitiveVision/evaluation/SaliencyEvaluationTool/SaliencyEvaluationTool/src/de/unibonn/informatik/ivs/set/GroundTruthDescription.java:93-95 | Fields after the second one of the size line do not change the size |
| GroundTruthDescriptions.ExtraRectFieldsIgnored | CognitiveVision/evaluation/SaliencyEvaluationTool/SaliencyEvaluationTool/src/de/unibonn/informatik/ivs/set/GroundTruthDescription.java:101-106 | Fields after the fourth one of a rectangle token do not change the rectangle |
| GroundTruthDescriptions.SameFieldsSameRect | CognitiveVision/evaluation/SaliencyEvaluationTool/SaliencyEvaluationTool/src/de/unibonn/informatik/ivs/set/GroundTruthDescription.java:101-106 | A rectangle token is decided by its first four fields |
| GroundTruthDescriptions.RectTextParses | CognitiveVision/evaluation/SaliencyEvaluationTool/SaliencyEvaluationTool/src/de/unibonn/informatik/ivs/set/GroundTruthDescription.java:101-106 | The token `l t r b` becomes the rectangle at (l, t) of width r-l+1 and height b-t+1: inclusive corners |
| GroundTruthDescriptions.SizeLineParses | CognitiveVision/evaluation/SaliencyEvaluationTool/SaliencyEvaluationTool/src/de/unibonn/informatik/ivs/set/GroundTruthDescription.java:93-95 | The line `w h` parses to the dimension (w, h) |
| GroundTruthDescriptions.RectLineParses | CognitiveVision/evaluation/SaliencyEvaluationTool/SaliencyEvaluationTool/src/de/unibonn/informatik/ivs/set/GroundTruthDescription.java:97-109 | A `;`-joined list of rectangle tokens reads back completely, as the rectangles in order |
| GroundTruthDescriptions.FormatLines | CognitiveVision/evaluation/SaliencyEvaluationTool/SaliencyEvaluationTool/src/de/unibonn/informatik/ivs/set/GroundTruthDescription.java:86-87 | A three-line description splits back into its three lines after trimming |
| GroundTruthDescriptions.FormatRoundTrip | CognitiveVision/evaluation/SaliencyEvaluationTool/SaliencyEvaluationTool/src/de/unibonn/informatik/ivs/set/GroundTruthDescription.java:80-119 | Parsing a well-formed three-line description recovers the path, the base name, the size and every rectangle in order, and it is valid |
| GroundTruthDescriptions.ReadAllStep | CognitiveVision/evaluation/SaliencyEvaluationTool/SaliencyEvaluationTool/src/de/unibonn/informatik/ivs/set/GroundTruthDescription.java:99-108 | Reading one more accepted token appends its rectangle |
| GroundTruthDescriptions.FailureStops | CognitiveVision/evaluation/SaliencyEvaluationTool/SaliencyEvaluationTool/src/de/unibonn/informatik/ivs/set/GroundTruthDescription.java:99-118 | After a bad token the rectangles are those of the tokens before it, and reading is incomplete |
| GroundTruthDescriptions.GroundTruthDescription.constructor | CognitiveVision/evaluation/SaliencyEvaluationTool/SaliencyEvaluationTool/src/de/unibonn/informatik/ivs/set/GroundTruthDescription.java:61-65 | The constructor starts from an empty list. Its fields are the parse of the text: path, name, size, rectangles and flag |
| GroundTruthDescriptions.GroundTruthDescription.ParseDescription | CognitiveVision/evaluation/SaliencyEvaluationTool/SaliencyEvaluationTool/src/de/unibonn/informatik/ivs/set/GroundTruthDescription.java:80-119 | Assigns each field it reaches, keeps the old value of the others, and appends the parsed rectangles. `valid` becomes whether it reached the end |
| GroundTruthDescriptions.GroundTruthDescription.ReadLines | CognitiveVision/evaluation/SaliencyEvaluationTool/SaliencyEvaluationTool/src/de/unibonn/informatik/ivs/set/GroundTruthDescription.java:89-118 | The same, from the tokenised lines on |
| GroundTruthDescriptions.GroundTruthDescription.ReadRectangles | CognitiveVision/evaluation/SaliencyEvaluationTool/SaliencyEvaluationTool/src/de/unibonn/informatik/ivs/set/GroundTruthDescription.java:97-111 | The token loop appends the rectangles read up to the first bad token. `valid` is set exactly when every token parsed, and no other field changes |
| GroundTruthDescriptions.GroundTruthDescription.IsValid | CognitiveVision/evaluation/SaliencyEvaluationTool/SaliencyEvaluationTool/src/de/unibonn/informatik/ivs/set/GroundTruthDescription.java:126-129 | `isValid` is the flag |
| SaliencyMaps.Prepared | CognitiveVision/evaluation/SaliencyEvaluationTool/SaliencyEvaluationTool/src/de/unibonn/informatik/ivs/set/SaliencyMap.java:104-106 | The kept map has the requested size and is grey. A grey map of the right size is not touched. A non-grey map of the right size is only converted, never resampled |
| SaliencyMaps.BinaryPixel | CognitiveVision/evaluation/SaliencyEvaluationTool/SaliencyEvaluationTool/src/de/unibonn/informatik/ivs/set/SaliencyMap.java:192 | A pixel becomes white exactly when its low byte is at least the threshold, and black otherwise |
| SaliencyMaps.SaliencyMap.constructor | CognitiveVision/evaluation/SaliencyEvaluationTool/SaliencyEvaluationTool/src/de/unibonn/informatik/ivs/set/SaliencyMap.java:95-108 | Nothing is set when the file does not decode. Otherwise the name is the file's base name and the map is the prepared image |
| SaliencyMaps.SaliencyMap.GetWidth | CognitiveVision/evaluation/SaliencyEvaluationTool/SaliencyEvaluationTool/src/de/unibonn/informatik/ivs/set/SaliencyMap.java:130-134 | -1 exactly when no map was loaded, otherwise the map's (positive) width |
| SaliencyMaps.SaliencyMap.GetHeight | CognitiveVision/evaluation/SaliencyEvaluationTool/SaliencyEvaluationTool/src/de/unibonn/informatik/ivs/set/SaliencyMap.java:145-149 | -1 exactly when no map was loaded, otherwise the map's (positive) height |
| SaliencyMaps.SaliencyMap.GetMapValues | CognitiveVision/evaluation/SaliencyEvaluationTool/SaliencyEvaluationTool/src/de/unibonn/informatik/ivs/set/SaliencyMap.java:158-174 | `null` exactly when no map was loaded. Otherwise a new array holding the column-major flattening of the grey levels |
| SaliencyMaps.SaliencyMap.GetBinaryMap | CognitiveVision/evaluation/SaliencyEvaluationTool/SaliencyEvaluationTool/src/de/unibonn/informatik/ivs/set/SaliencyMap.java:184-198 | A new binary image of the map's size, white exactly where the grey level is at least t |
| SaliencyMaps.BinaryMapCounts | CognitiveVision/evaluation/SaliencyEvaluationTool/SaliencyEvaluationTool/src/de/unibonn/informatik/ivs/set/SaliencyMap.java:184-198 | The white pixels of the binary map are exactly the pixels the sweep predicts salient at t |
| GroundTruths.Covers | CognitiveVision/evaluation/SaliencyEvaluationTool/SaliencyEvaluationTool/src/de/unibonn/informatik/ivs/set/GroundTruth.java:99-104 | Pixel (i, j) is covered when it lies in columns x..x+width-1 and rows y..y+height-1, the ranges of the two pixel loops |
| GroundTruths.CoverCount | CognitiveVision/evaluation/SaliencyEvaluationTool/SaliencyEvaluationTool/src/de/unibonn/informatik/ivs/set/GroundTruth.java:93-106 | The number of rectangles covering a pixel, never more than the number of rectangles |
| GroundTruths.Clip | CognitiveVision/evaluation/SaliencyEvaluationTool/SaliencyEvaluationTool/src/de/unibonn/informatik/ivs/set/GroundTruth.java:96-97 | Clipping cuts the right and bottom edges back to the grid and keeps the top-left corner; the left and top edges are never clipped |
| GroundTruths.ClipCovers | CognitiveVision/evaluation/SaliencyEvaluationTool/SaliencyEvaluationTool/src/de/unibonn/informatik/ivs/set/GroundTruth.java:96-97 | A clipped rectangle covers exactly the original's pixels left of the right edge and above the bottom edge |
| GroundTruths.Clipped | CognitiveVision/evaluation/SaliencyEvaluationTool/SaliencyEvaluationTool/src/de/unibonn/informatik/ivs/set/GroundTruth.java:93-97 | Every rectangle is replaced by its clipped version, in place |
| GroundTruths.ClippedCoverCount | CognitiveVision/evaluation/SaliencyEvaluationTool/SaliencyEvaluationTool/src/de/unibonn/informatik/ivs/set/GroundTruth.java:96-105 | On the grid, clipping changes no pixel's cover count |
| GroundTruths.Probability | CognitiveVision/evaluation/SaliencyEvaluationTool/SaliencyEvaluationTool/src/de/unibonn/informatik/ivs/set/GroundTruth.java:91-105 | A pixel's probability is its cover count over N. It lies in [0, 1], is 0 exactly when nothing covers the pixel, and is 1 exactly when every rectangle does |
| GroundTruths.Buildable | CognitiveVision/evaluation/SaliencyEvaluationTool/SaliencyEvaluationTool/src/de/unibonn/informatik/ivs/set/GroundTruth.java:89-104 | The description constructor runs without an exception exactly when the size is not negative, a grid with rectangles has a first column, and every clipped rectangle with pixels starts inside the grid |
| GroundTruths.Salient | CognitiveVision/evaluation/SaliencyEvaluationTool/SaliencyEvaluationTool/src/de/unibonn/informatik/ivs/set/GroundTruth.java:127-131 | A pixel turns white when its probability is above the clamped threshold |
| GroundTruths.Clamp | CognitiveVision/evaluation/SaliencyEvaluationTool/SaliencyEvaluationTool/src/de/unibonn/informatik/ivs/set/GroundTruth.java:122-123 | The threshold is clamped to [0, 1] |
| GroundTruths.SalientIff | CognitiveVision/evaluation/SaliencyEvaluationTool/SaliencyEvaluationTool/src/de/unibonn/informatik/ivs/set/GroundTruth.java:131 | A pixel is salient exactly when more than the clamped fraction of the rectangles cover it; at 0.5 that is a strict majority |
| GroundTruths.SalientAtTheEnds | CognitiveVision/evaluation/SaliencyEvaluationTool/SaliencyEvaluationTool/src/de/unibonn/informatik/ivs/set/GroundTruth.java:122-131 | At a threshold of 0 or less every covered pixel is salient; at 1 or more none is |
| GroundTruths.SalientMonotone | CognitiveVision/evaluation/SaliencyEvaluationTool/SaliencyEvaluationTool/src/de/unibonn/informatik/ivs/set/GroundTruth.java:131 | Raising the threshold only removes salient pixels |
| GroundTruths.DescriptionMask | CognitiveVision/evaluation/SaliencyEvaluationTool/SaliencyEvaluationTool/src/de/unibonn/informatik/ivs/set/GroundTruth.java:127-133 | The mask of a thresholded description is a W-by-H grid whose flags are the salient pixels |
| GroundTruths.WithoutExtension | CognitiveVision/evaluation/SaliencyEvaluationTool/SaliencyEvaluationTool/src/de/unibonn/informatik/ivs/set/GroundTruth.java:172-174 | The name is cut at its last dot, and kept whole when it has no dot |
| GroundTruths.AddToColumn | CognitiveVision/evaluation/SaliencyEvaluationTool/SaliencyEvaluationTool/src/de/unibonn/informatik/ivs/set/GroundTruth.java:101-104 | Adds the share to the given rows of one column and changes nothing else |
| GroundTruths.AddRectangle | CognitiveVision/evaluation/SaliencyEvaluationTool/SaliencyEvaluationTool/src/de/unibonn/informatik/ivs/set/GroundTruth.java:99-105 | Adds the share to exactly the pixels the rectangle covers |
| GroundTruths.AccumulateRectangles | CognitiveVision/evaluation/SaliencyEvaluationTool/SaliencyEvaluationTool/src/de/unibonn/informatik/ivs/set/GroundTruth.java:91-106 | Clips every rectangle in place, and leaves each pixel holding its probability over the original rectangles |
| GroundTruths.ClipRectangle | CognitiveVision/evaluation/SaliencyEvaluationTool/SaliencyEvaluationTool/src/de/unibonn/informatik/ivs/set/GroundTruth.java:96-97 | The two in-place `if`s compute the clip |
| GroundTruths.StoreClipped | CognitiveVision/evaluation/SaliencyEvaluationTool/SaliencyEvaluationTool/src/de/unibonn/informatik/ivs/set/GroundTruth.java:96-97 | The clipped rectangle replaces rectangle k of the description, and every other field of the description is unchanged |
| GroundTruths.AddShare | CognitiveVision/evaluation/SaliencyEvaluationTool/SaliencyEvaluationTool/src/de/unibonn/informatik/ivs/set/GroundTruth.java:99-105 | Adding 1/N over a rectangle adds one share to exactly the pixels it covers |
| GroundTruths.OneMoreShare | CognitiveVision/evaluation/SaliencyEvaluationTool/SaliencyEvaluationTool/src/de/unibonn/informatik/ivs/set/GroundTruth.java:103 | c shares of 1/N, plus 1/N, are c+1 shares |
| GroundTruths.GroundTruth.FromFile | CognitiveVision/evaluation/SaliencyEvaluationTool/SaliencyEvaluationTool/src/de/unibonn/informatik/ivs/set/GroundTruth.java:154-181 | A directory, or a read that throws, leaves the name and the mask `null`. Otherwise the mask is the decoded image (`null` when no codec reads it) and the name is the file name up to its last dot. There is no probability grid |
| GroundTruths.GroundTruth.FromDescription | CognitiveVision/evaluation/SaliencyEvaluationTool/SaliencyEvaluationTool/src/de/unibonn/informatik/ivs/set/GroundTruth.java:86-107 | Makes a fresh W-by-H grid in which every pixel holds the fraction of the original rectangles that cover it. It clips the description's rectangles in place, copies the name and has no mask yet |
| GroundTruths.GroundTruth.SetBinaryThreshold | CognitiveVision/evaluation/SaliencyEvaluationTool/SaliencyEvaluationTool/src/de/unibonn/informatik/ivs/set/GroundTruth.java:118-134 | Does nothing without a grid. Otherwise the mask becomes a new binary image of the grid's size, white exactly where the probability exceeds the clamped threshold |
| GroundTruths.GroundTruth.GetRelativeObjectSize | CognitiveVision/evaluation/SaliencyEvaluationTool/SaliencyEvaluationTool/src/de/unibonn/informatik/ivs/set/GroundTruth.java:189-204 | -1 without a mask; otherwise the white pixels over W*H, a value in [0, 1] |
| GroundTruths.GroundTruth.GetValues | CognitiveVision/evaluation/SaliencyEvaluationTool/SaliencyEvaluationTool/src/de/unibonn/informatik/ivs/set/GroundTruth.java:330-347 | `null` exactly without a mask. Otherwise a new array of W*H salient flags, column-major |
| GroundTruths.GroundTruth.EvaluateAt | CognitiveVision/evaluation/SaliencyEvaluationTool/SaliencyEvaluationTool/src/de/unibonn/informatik/ivs/set/GroundTruth.java:217-252 | `null` without a mask or on a size mismatch. Otherwise precision is TP/(TP+FP) and recall is TP/(TP+FN), in IEEE division with no zero guard |
| GroundTruths.GroundTruth.Evaluate | CognitiveVision/evaluation/SaliencyEvaluationTool/SaliencyEvaluationTool/src/de/unibonn/informatik/ivs/set/GroundTruth.java:266-322 | `null` on a size mismatch; otherwise the 256-row sweep of the flattened mask against the flattened grey levels |
| GroundTruths.GroundTruth.GetWidth | CognitiveVision/evaluation/SaliencyEvaluationTool/SaliencyEvaluationTool/src/de/unibonn/informatik/ivs/set/GroundTruth.java:399-403 | -1 exactly without a mask, otherwise the mask's width |
| GroundTruths.GroundTruth.GetHeight | CognitiveVision/evaluation/SaliencyEvaluationTool/SaliencyEvaluationTool/src/de/unibonn/informatik/ivs/set/GroundTruth.java:411-415 | -1 exactly without a mask, otherwise the mask's height |
| GroundTruths.CountConfusion | CognitiveVision/evaluation/SaliencyEvaluationTool/SaliencyEvaluationTool/src/de/unibonn/informatik/ivs/set/GroundTruth.java:226-245 | The pixel loop leaves TP as the matches, TP+FP as the predicted pixels and TP+FN as the salient pixels |
| GroundTruths.CountColumn | CognitiveVision/evaluation/SaliencyEvaluationTool/SaliencyEvaluationTool/src/de/unibonn/informatik/ivs/set/GroundTruth.java:234-244 | One column of that loop carries the three identities on by that column |
| GroundTruths.SweepTable | CognitiveVision/evaluation/SaliencyEvaluationTool/SaliencyEvaluationTool/src/de/unibonn/informatik/ivs/set/GroundTruth.java:289-321 | The threshold loop yields exactly the sweep |
| GroundTruths.RowOfCounts | CognitiveVision/evaluation/SaliencyEvaluationTool/SaliencyEvaluationTool/src/de/unibonn/informatik/ivs/set/GroundTruth.java:315-316 | A row of the sweep is its three counts combined with the zero-on-empty-denominator rule |
| GroundTruths.CountAt | CognitiveVision/evaluation/SaliencyEvaluationTool/SaliencyEvaluationTool/src/de/unibonn/informatik/ivs/set/GroundTruth.java:295-313 | The inner loop at one threshold counts the salient pixels, the predicted pixels and the matches |
| GroundTruths.ScoresAgreeWithSweep | CognitiveVision/evaluation/SaliencyEvaluationTool/SaliencyEvaluationTool/src/de/unibonn/informatik/ivs/set/GroundTruth.java:247-249 | Where a denominator is positive, the single-threshold score equals the sweep's row t. Where it is zero, the numerator is zero too, so the score is NaN where the sweep has 0 |
| GroundTruths.FMeasure | CognitiveVision/evaluation/SaliencyEvaluationTool/SaliencyEvaluationTool/src/de/unibonn/informatik/ivs/set/GroundTruth.java:385-391 | The F-measure is finite exactly when its denominator beta^2 * P + R is non-zero |
| GroundTruths.F1Measure | CognitiveVision/evaluation/SaliencyEvaluationTool/SaliencyEvaluationTool/src/de/unibonn/informatik/ivs/set/GroundTruth.java:369-372 | F1 is the F-measure with beta = 1, finite exactly when P + R is non-zero |
| GroundTruths.F1IsHarmonicMean | CognitiveVision/evaluation/SaliencyEvaluationTool/SaliencyEvaluationTool/src/de/unibonn/informatik/ivs/set/GroundTruth.java:369-372 | F1 is the harmonic mean 2PR/(P+R). It lies between P and R, and equals them when they agree |
| GroundTruths.FMeasureInUnitInterval | CognitiveVision/evaluation/SaliencyEvaluationTool/SaliencyEvaluationTool/src/de/unibonn/informatik/ivs/set/GroundTruth.java:385-391 | For P and R in [0, 1] and a non-zero denominator, the F-measure lies in [0, 1] |
| GroundTruths.FMeasureLimits | CognitiveVision/evaluation/SaliencyEvaluationTool/SaliencyEvaluationTool/src/de/unibonn/informatik/ivs/set/GroundTruth.java:385-391 | With beta = 0 the F-measure is the precision, and F(0, 0) is NaN |
| CommandLine.ModeOf | CognitiveVision/evaluation/SaliencyEvaluationTool/SaliencyEvaluationTool/src/de/unibonn/informatik/ivs/set/Main.java:661-666 | A `mode` value selects one of the three modes, or keeps the current mode when it names none |
| CommandLine.AsksForHelp | CognitiveVision/evaluation/SaliencyEvaluationTool/SaliencyEvaluationTool/src/de/unibonn/informatik/ivs/set/Main.java:641-644 | The argument starts with `/?`, or, lower-cased, with `/h`, `-h` or `--h` |
| CommandLine.ParseBoolean | CognitiveVision/evaluation/SaliencyEvaluationTool/SaliencyEvaluationTool/src/de/unibonn/informatik/ivs/set/Main.java:701 | `Boolean.parseBoolean`: true exactly for `true` in any case |
| CommandLine.Key | CognitiveVision/evaluation/SaliencyEvaluationTool/SaliencyEvaluationTool/src/de/unibonn/informatik/ivs/set/Main.java:655-658 | The key of an argument is the text before its first `=` |
| CommandLine.Value | CognitiveVision/evaluation/SaliencyEvaluationTool/SaliencyEvaluationTool/src/de/unibonn/informatik/ivs/set/Main.java:655-659 | The value of an argument is the text after its first `=`, later `=` characters included |
| CommandLine.Assign | CognitiveVision/evaluation/SaliencyEvaluationTool/SaliencyEvaluationTool/src/de/unibonn/informatik/ivs/set/Main.java:655-716 | An argument without `=` cannot be interpreted; otherwise its key and value go through the key chain |
| CommandLine.AssignKey | CognitiveVision/evaluation/SaliencyEvaluationTool/SaliencyEvaluationTool/src/de/unibonn/informatik/ivs/set/Main.java:661-682 | `mode`, `pathGT`, `fileGT`, `pathSM` and `pathResult`, in any case, set their own field; any other key goes on to `AssignLaterKey` |
| CommandLine.AssignLaterKey | CognitiveVision/evaluation/SaliencyEvaluationTool/SaliencyEvaluationTool/src/de/unibonn/informatik/ivs/set/Main.java:683-706 | `thresholdGT` and `thresholdSize` set their field when the value parses as a double and cannot be interpreted otherwise; `pathIm`, `pathDef` and `saveGT` set theirs; any other key cannot be interpreted |
| CommandLine.Reset | CognitiveVision/evaluation/SaliencyEvaluationTool/SaliencyEvaluationTool/src/de/unibonn/informatik/ivs/set/Main.java:634-637 | Every parse starts from mode evaluate with no ground-truth directory and no ground-truth file |
| CommandLine.ParseArgs | CognitiveVision/evaluation/SaliencyEvaluationTool/SaliencyEvaluationTool/src/de/unibonn/informatik/ivs/set/Main.java:632-718 | The settings are reset; a first argument asking for help ends with the usage text; otherwise the arguments are applied in order and the run exits at the first one that cannot be interpreted |
| CommandLine.LaterKeyValueWins | CognitiveVision/evaluation/SaliencyEvaluationTool/SaliencyEvaluationTool/src/de/unibonn/informatik/ivs/set/Main.java:667-698 | A path key assigned twice keeps its second value: the first assignment always succeeds and the second overwrites it |
| CommandLine.DifferAt | CognitiveVision/evaluation/SaliencyEvaluationTool/SaliencyEvaluationTool/src/de/unibonn/informatik/ivs/set/Main.java:661-699 | Keys that differ at one position after case folding are not equal ignoring case, so no path key reaches another key branch |
| CommandLine.InterpretableAnywhere | CognitiveVision/evaluation/SaliencyEvaluationTool/SaliencyEvaluationTool/src/de/unibonn/informatik/ivs/set/Main.java:651-717 | Whether an argument can be interpreted does not depend on the settings reached so far |
| CommandLine.ApplyInOrder | CognitiveVision/evaluation/SaliencyEvaluationTool/SaliencyEvaluationTool/src/de/unibonn/informatik/ivs/set/Main.java:651-717 | A failure, if any, is reported at an index of the argument list |
| CommandLine.FirstRejected | CognitiveVision/evaluation/SaliencyEvaluationTool/SaliencyEvaluationTool/src/de/unibonn/informatik/ivs/set/Main.java:651-717 | The run stops at the first rejected argument, and gets through exactly when every argument is accepted |
| CommandLine.RejectionSticks | CognitiveVision/evaluation/SaliencyEvaluationTool/SaliencyEvaluationTool/src/de/unibonn/informatik/ivs/set/Main.java:705-715 | Once an argument is rejected, the later ones change nothing |
| CommandLine.ApplyAll | CognitiveVision/evaluation/SaliencyEvaluationTool/SaliencyEvaluationTool/src/de/unibonn/informatik/ivs/set/Main.java:651-717 | A failure is reported at an index of the argument list |
| CommandLine.FirstBadArgument | CognitiveVision/evaluation/SaliencyEvaluationTool/SaliencyEvaluationTool/src/de/unibonn/informatik/ivs/set/Main.java:651-717 | Parsing exits at the first argument that cannot be interpreted, and proceeds exactly when all can |
| CommandLine.ExitSticks | CognitiveVision/evaluation/SaliencyEvaluationTool/SaliencyEvaluationTool/src/de/unibonn/informatik/ivs/set/Main.java:705-715 | The arguments after the first bad one are never applied |
| CommandLine.Options.constructor | CognitiveVision/evaluation/SaliencyEvaluationTool/SaliencyEvaluationTool/src/de/unibonn/informatik/ivs/set/Main.java:63-115 | The fields start at their declared defaults: evaluate mode, `.` for the result and copy paths, thresholds 0.5, no saving |
| CommandLine.Options.ParseCommandLineParameters | CognitiveVision/evaluation/SaliencyEvaluationTool/SaliencyEvaluationTool/src/de/unibonn/informatik/ivs/set/Main.java:632-718 | The new settings and the outcome are the parse of the arguments from the old settings: reset, then the help check, then the arguments in order up to the first bad one |
| CommandLine.Options.NextArgument | CognitiveVision/evaluation/SaliencyEvaluationTool/SaliencyEvaluationTool/src/de/unibonn/informatik/ivs/set/Main.java:653-716 | One pass of the loop either extends the applied prefix by one argument or ends the run there |
| CommandLine.Options.Interpret | CognitiveVision/evaluation/SaliencyEvaluationTool/SaliencyEvaluationTool/src/de/unibonn/informatik/ivs/set/Main.java:653-716 | The argument is split at its first `=` and the named field is assigned. It reports whether the argument could be interpreted, and the fields are unchanged when it could not |
| CommandLine.Options.SetField | CognitiveVision/evaluation/SaliencyEvaluationTool/SaliencyEvaluationTool/src/de/unibonn/informatik/ivs/set/Main.java:661-682 | The first half of the key chain, assigning as `AssignKey` does |
| CommandLine.Options.SetLaterField | CognitiveVision/evaluation/SaliencyEvaluationTool/SaliencyEvaluationTool/src/de/unibonn/informatik/ivs/set/Main.java:683-706 | The second half of the key chain; an unknown key or an unparsable number is not interpretable |
| CommandLine.KeysIgnoreCase | CognitiveVision/evaluation/SaliencyEvaluationTool/SaliencyEvaluationTool/src/de/unibonn/informatik/ivs/set/Main.java:661-706 | Keys match without regard to case |
| CommandLine.SameKeySameField | CognitiveVision/evaluation/SaliencyEvaluationTool/SaliencyEvaluationTool/src/de/unibonn/informatik/ivs/set/Main.java:661-706 | Keys equal up to case assign the same field |
| CommandLine.SplitsAtFirstEquals | CognitiveVision/evaluation/SaliencyEvaluationTool/SaliencyEvaluationTool/src/de/unibonn/informatik/ivs/set/Main.java:655-659 | An argument is split at its first `=`: the key has none, and the value is everything after it |
| CommandLine.UnknownModeKept | CognitiveVision/evaluation/SaliencyEvaluationTool/SaliencyEvaluationTool/src/de/unibonn/informatik/ivs/set/Main.java:661-666 | A mode value that names no mode leaves the settings unchanged |
| CommandLine.LaterPathWins | CognitiveVision/evaluation/SaliencyEvaluationTool/SaliencyEvaluationTool/src/de/unibonn/informatik/ivs/set/Main.java:667-698 | For a path key, a later assignment overrides an earlier one |
| CommandLine.NoArgumentsReset | CognitiveVision/evaluation/SaliencyEvaluationTool/SaliencyEvaluationTool/src/de/unibonn/informatik/ivs/set/Main.java:635-637 | With no arguments the run proceeds on the settings with the mode and the two ground-truth paths reset |
| CommandLine.HelpFirst | CognitiveVision/evaluation/SaliencyEvaluationTool/SaliencyEvaluationTool/src/de/unibonn/informatik/ivs/set/Main.java:639-648 | A first argument that asks for help prints the usage, whatever follows it |
| CommandLine.HelpSpellings | CognitiveVision/evaluation/SaliencyEvaluationTool/SaliencyEvaluationTool/src/de/unibonn/informatik/ivs/set/Main.java:641-644 | An argument asks for help exactly when it starts with `/?`, with `/` or `-` followed by `h` or `H`, or with `--` followed by `h` or `H` |
| CommandLine.ExitAtFirstBad | CognitiveVision/evaluation/SaliencyEvaluationTool/SaliencyEvaluationTool/src/de/unibonn/informatik/ivs/set/Main.java:651-717 | Without a help request, the run proceeds exactly when every argument can be interpreted. An exit names the first argument that cannot be |
| Means.CountPresent | CognitiveVision/evaluation/SaliencyEvaluationTool/SaliencyEvaluationTool/src/de/unibonn/informatik/ivs/set/Main.java:608-609 | `actualResults`: the number of slots holding a table, at most the number of slots |
| Means.MeanSum | CognitiveVision/evaluation/SaliencyEvaluationTool/SaliencyEvaluationTool/src/de/unibonn/informatik/ivs/set/Main.java:611-620 | Row t of the mean: row t of each present table divided by the count, summed in slot order |
| Means.MeanTable | CognitiveVision/evaluation/SaliencyEvaluationTool/SaliencyEvaluationTool/src/de/unibonn/informatik/ivs/set/Main.java:603-624 | The mean table has 256 rows; `Means.MeanOfOne` (one table is its own mean), `Means.NonesIgnored` (`null` slots do not change it) and `Means.MeanInUnitInterval` (tables in [0, 1] give a mean in [0, 1]) state what it means |
| Means.MeanAsWritten | CognitiveVision/evaluation/SaliencyEvaluationTool/SaliencyEvaluationTool/src/de/unibonn/informatik/ivs/set/Main.java:609-611 | As written, there is a result exactly when there are at least 256 tables |
| Means.AverageTables | CognitiveVision/evaluation/SaliencyEvaluationTool/SaliencyEvaluationTool/src/de/unibonn/informatik/ivs/set/Main.java:605-621 | The counting loop and the accumulation loop over the first `count` tables compute the mean of those tables |
| Means.DetermineMeanPerThreshold | CognitiveVision/evaluation/SaliencyEvaluationTool/SaliencyEvaluationTool/src/de/unibonn/informatik/ivs/set/Main.java:603-624 | With loops bounded by the number of images, the result is the mean over every evaluated image |
| Means.DetermineMeanPerThresholdAsWritten | CognitiveVision/evaluation/SaliencyEvaluationTool/SaliencyEvaluationTool/src/de/unibonn/informatik/ivs/set/Main.java:603-624 | With loops bounded by 256, it throws for fewer than 256 images and otherwise averages the first 256 |
| Means.MeanOfNothing | CognitiveVision/evaluation/SaliencyEvaluationTool/SaliencyEvaluationTool/src/de/unibonn/informatik/ivs/set/Main.java:605-621 | With every table `null`, no division happens and every mean stays 0 |
| Means.NonesIgnored | CognitiveVision/evaluation/SaliencyEvaluationTool/SaliencyEvaluationTool/src/de/unibonn/informatik/ivs/set/Main.java:615 | Images without a table play no part in the mean |
| Means.MeanOfOne | CognitiveVision/evaluation/SaliencyEvaluationTool/SaliencyEvaluationTool/src/de/unibonn/informatik/ivs/set/Main.java:603-624 | The mean of a single evaluated image is its own table |
| Means.MeanInUnitInterval | CognitiveVision/evaluation/SaliencyEvaluationTool/SaliencyEvaluationTool/src/de/unibonn/informatik/ivs/set/Main.java:611-621 | When every table lies in [0, 1], so does every mean |
| Means.FewImagesHaveNoMean | CognitiveVision/evaluation/SaliencyEvaluationTool/SaliencyEvaluationTool/src/de/unibonn/informatik/ivs/set/Main.java:609-611 | A result array with a single slot holding a table gives no result as written, though that table is the intended mean |
| Means.LateImagesIgnored | CognitiveVision/evaluation/SaliencyEvaluationTool/SaliencyEvaluationTool/src/de/unibonn/informatik/ivs/set/Main.java:609-611 | After 256 unevaluated images, one evaluated image gives an all-zero mean as written, though its own table is the intended mean |
| Means.SizeSum | CognitiveVision/evaluation/SaliencyEvaluationTool/SaliencyEvaluationTool/src/de/unibonn/informatik/ivs/set/Main.java:471-475 | The sum of the recorded sizes over a key set, visiting the keys in an unspecified order |
| Means.SizeSumRemove | CognitiveVision/evaluation/SaliencyEvaluationTool/SaliencyEvaluationTool/src/de/unibonn/informatik/ivs/set/Main.java:471-475 | The sum over the key set does not depend on the order the keys are visited |
| Means.MeanGtSize | CognitiveVision/evaluation/SaliencyEvaluationTool/SaliencyEvaluationTool/src/de/unibonn/informatik/ivs/set/Main.java:456-492 | The mean size is finite exactly when a size has been recorded |
| Means.MeanGtSizeInUnitInterval | CognitiveVision/evaluation/SaliencyEvaluationTool/SaliencyEvaluationTool/src/de/unibonn/informatik/ivs/set/Main.java:470-489 | Sizes in [0, 1] have a mean in [0, 1] |
| Means.MeanGtSizeUnknown | CognitiveVision/evaluation/SaliencyEvaluationTool/SaliencyEvaluationTool/src/de/unibonn/informatik/ivs/set/Main.java:489 | All-unknown sizes (-1) have mean -1 |
| Means.MeanGtSizeEdges | CognitiveVision/evaluation/SaliencyEvaluationTool/SaliencyEvaluationTool/src/de/unibonn/informatik/ivs/set/Main.java:483-489 | With no recorded size the mean is NaN, and negative infinity when the write fails. With sizes, a failed write gives -1/n |
| Evaluation.DescriptionEntry | CognitiveVision/evaluation/SaliencyEvaluationTool/SaliencyEvaluationTool/src/de/unibonn/informatik/ivs/set/Main.java:239-271 | One description: an invalid one is skipped; a name without a base name throws; no matching saliency map skips; otherwise `DescribedEntry` |
| Evaluation.DescribedEntry | CognitiveVision/evaluation/SaliencyEvaluationTool/SaliencyEvaluationTool/src/de/unibonn/informatik/ivs/set/Main.java:251-259 | Throws when the ground-truth constructor throws (not `Buildable`), when the size is empty so no binary image can be made, or when a decoded map has no base name; otherwise the size -1 is recorded and the slot gets the sweep, or `null` when the map does not decode |
| Evaluation.ImageEntry | CognitiveVision/evaluation/SaliencyEvaluationTool/SaliencyEvaluationTool/src/de/unibonn/informatik/ivs/set/Main.java:309-327 | One ground-truth file: a name without a base name throws; no matching saliency map skips; otherwise `MatchedEntry` |
| Evaluation.MatchedEntry | CognitiveVision/evaluation/SaliencyEvaluationTool/SaliencyEvaluationTool/src/de/unibonn/informatik/ivs/set/Main.java:314-320 | Throws when the ground truth did not decode or a decoded map has no base name; otherwise the relative size is recorded under the name up to its last dot, and the slot gets the sweep, or `null` when the map does not decode |
| Evaluation.AnyCrash | CognitiveVision/evaluation/SaliencyEvaluationTool/SaliencyEvaluationTool/src/de/unibonn/informatik/ivs/set/Main.java:235-272 | Some entry of the run throws, which ends the loop with an exception |
| Evaluation.RecordAll | CognitiveVision/evaluation/SaliencyEvaluationTool/SaliencyEvaluationTool/src/de/unibonn/informatik/ivs/set/Main.java:252 | The sizes map after one `put` per scored entry in order (as also at Main.java:314), a later name overwriting an earlier one |
| Evaluation.ValidHasNameAndSize | CognitiveVision/evaluation/SaliencyEvaluationTool/SaliencyEvaluationTool/src/de/unibonn/informatik/ivs/set/GroundTruthDescription.java:89-95 | A valid description has a name and a size |
| Evaluation.DescriptionTable | CognitiveVision/evaluation/SaliencyEvaluationTool/SaliencyEvaluationTool/src/de/unibonn/informatik/ivs/set/Main.java:251-259 | A described ground truth's table has 256 rows |
| Evaluation.RelativeSize | CognitiveVision/evaluation/SaliencyEvaluationTool/SaliencyEvaluationTool/src/de/unibonn/informatik/ivs/set/GroundTruth.java:189-204 | The relative size of a mask lies in [0, 1] |
| Evaluation.ImageTable | CognitiveVision/evaluation/SaliencyEvaluationTool/SaliencyEvaluationTool/src/de/unibonn/informatik/ivs/set/Main.java:316-320 | A ground-truth image's table has 256 rows |
| Evaluation.Tables | CognitiveVision/evaluation/SaliencyEvaluationTool/SaliencyEvaluationTool/src/de/unibonn/informatik/ivs/set/Main.java:232-259 | Slot k of the description result holds entry k's table, and `null` when there is none |
| Evaluation.Packed | CognitiveVision/evaluation/SaliencyEvaluationTool/SaliencyEvaluationTool/src/de/unibonn/informatik/ivs/set/Main.java:299-320 | The tables of the scored entries, in order, are never more than the entries |
| Evaluation.Evaluator.constructor | CognitiveVision/evaluation/SaliencyEvaluationTool/SaliencyEvaluationTool/src/de/unibonn/informatik/ivs/set/Main.java:164 | A run starts with an empty size map |
| Evaluation.Evaluator.EvaluateDescription | CognitiveVision/evaluation/SaliencyEvaluationTool/SaliencyEvaluationTool/src/de/unibonn/informatik/ivs/set/Main.java:239-271 | One description iteration yields its entry and records its size unless it crashes |
| Evaluation.Evaluator.EvaluateMatched | CognitiveVision/evaluation/SaliencyEvaluationTool/SaliencyEvaluationTool/src/de/unibonn/informatik/ivs/set/Main.java:251-259 | Builds the ground truth, records its size (still -1), then thresholds it and evaluates it against the prepared map |
| Evaluation.Evaluator.EvaluateImage | CognitiveVision/evaluation/SaliencyEvaluationTool/SaliencyEvaluationTool/src/de/unibonn/informatik/ivs/set/Main.java:309-327 | One directory iteration yields its entry and records its size unless it crashes |
| Evaluation.Evaluator.EvaluateMatchedImage | CognitiveVision/evaluation/SaliencyEvaluationTool/SaliencyEvaluationTool/src/de/unibonn/informatik/ivs/set/Main.java:314-320 | Records the mask's size, then evaluates the mask against the prepared map |
| Evaluation.Evaluator.NextDescription | CognitiveVision/evaluation/SaliencyEvaluationTool/SaliencyEvaluationTool/src/de/unibonn/informatik/ivs/set/Main.java:235-272 | Iteration i yields entry i of the run and extends the recorded map by it |
| Evaluation.Evaluator.NextImage | CognitiveVision/evaluation/SaliencyEvaluationTool/SaliencyEvaluationTool/src/de/unibonn/informatik/ivs/set/Main.java:303-328 | Iteration i yields entry i of the run and extends the recorded map by it |
| Evaluation.Evaluator.EvaluateWithGroundTruthFile | CognitiveVision/evaluation/SaliencyEvaluationTool/SaliencyEvaluationTool/src/de/unibonn/informatik/ivs/set/Main.java:224-275 | An unreadable file ends the run. Otherwise the content is split at blank lines, and the run aborts exactly when some entry crashes. If it completes, slot k holds description k's table (or `null`) and the map records every scored entry |
| Evaluation.Evaluator.EvaluateWithGroundTruthImages | CognitiveVision/evaluation/SaliencyEvaluationTool/SaliencyEvaluationTool/src/de/unibonn/informatik/ivs/set/Main.java:289-332 | A missing directory ends the run, and the run aborts exactly when some entry crashes. If it completes, the scored tables fill a prefix in listing order, the rest stay `null`, and the map records every scored entry |
| Evaluation.Evaluator.SaveGtSizesToFile | CognitiveVision/evaluation/SaliencyEvaluationTool/SaliencyEvaluationTool/src/de/unibonn/informatik/ivs/set/Main.java:456-492 | The sum of the sizes over the key set (-1 when the write fails), divided in IEEE arithmetic by the number of sizes |
| Evaluation.StoreTable | CognitiveVision/evaluation/SaliencyEvaluationTool/SaliencyEvaluationTool/src/de/unibonn/informatik/ivs/set/Main.java:259 | After entry i, slot i holds its table and the later slots are still `null` |
| Evaluation.PackTable | CognitiveVision/evaluation/SaliencyEvaluationTool/SaliencyEvaluationTool/src/de/unibonn/informatik/ivs/set/Main.java:320 | A scored entry's table goes into the next free slot (`result[iFile++]`) |
| Evaluation.MatchAgainst | CognitiveVision/evaluation/SaliencyEvaluationTool/SaliencyEvaluationTool/src/de/unibonn/informatik/ivs/set/Main.java:257-259 | The map is loaded at the ground truth's size. It is `null` when the file does not decode, otherwise the sweep of the mask against the prepared map |
| Evaluation.DescribedTable | CognitiveVision/evaluation/SaliencyEvaluationTool/SaliencyEvaluationTool/src/de/unibonn/informatik/ivs/set/Main.java:253-259 | Against a thresholded description, the table of its mask is the table of the description |
| Evaluation.ThresholdedMask | CognitiveVision/evaluation/SaliencyEvaluationTool/SaliencyEvaluationTool/src/de/unibonn/informatik/ivs/set/GroundTruth.java:118-134 | The mask `setBinaryThreshold` leaves is the thresholded description |
| Evaluation.LaterNameOverwrites | CognitiveVision/evaluation/SaliencyEvaluationTool/SaliencyEvaluationTool/src/de/unibonn/informatik/ivs/set/Main.java:252 | A later scored entry under a name already recorded overwrites its size; an entry that is not scored records nothing |
| Evaluation.DescriptionSlots | CognitiveVision/evaluation/SaliencyEvaluationTool/SaliencyEvaluationTool/src/de/unibonn/informatik/ivs/set/Main.java:239-271 | In description mode an entry is skipped exactly when it is invalid or no map matches. A scored entry's slot is `null` exactly when its map does not decode |
| Evaluation.ImageSlots | CognitiveVision/evaluation/SaliencyEvaluationTool/SaliencyEvaluationTool/src/de/unibonn/informatik/ivs/set/Main.java:309-327 | In directory mode an entry is skipped exactly when no map matches. A scored entry's slot is `null` exactly when its map does not decode |
| Evaluation.DescriptionEntryFacts | CognitiveVision/evaluation/SaliencyEvaluationTool/SaliencyEvaluationTool/src/de/unibonn/informatik/ivs/set/Main.java:252-259 | A description entry's table lies in [0, 1], and its recorded size is -1 |
| Evaluation.ImageEntryFacts | CognitiveVision/evaluation/SaliencyEvaluationTool/SaliencyEvaluationTool/src/de/unibonn/informatik/ivs/set/Main.java:314-320 | A directory entry's table lies in [0, 1], and its recorded size lies in [0, 1] |
| Evaluation.DescriptionEntriesFacts | CognitiveVision/evaluation/SaliencyEvaluationTool/SaliencyEvaluationTool/src/de/unibonn/informatik/ivs/set/Main.java:235-272 | So for every description entry |
| Evaluation.ImageEntriesFacts | CognitiveVision/evaluation/SaliencyEvaluationTool/SaliencyEvaluationTool/src/de/unibonn/informatik/ivs/set/Main.java:303-328 | So for every directory entry |
| Evaluation.RecordedBounds | CognitiveVision/evaluation/SaliencyEvaluationTool/SaliencyEvaluationTool/src/de/unibonn/informatik/ivs/set/Main.java:252 | Recording sizes within bounds keeps every size in the map within them |
| Evaluation.TablesInUnitInterval | CognitiveVision/evaluation/SaliencyEvaluationTool/SaliencyEvaluationTool/src/de/unibonn/informatik/ivs/set/Main.java:232-259 | The description result holds only full tables in [0, 1] |
| Evaluation.PackedInUnitInterval | CognitiveVision/evaluation/SaliencyEvaluationTool/SaliencyEvaluationTool/src/de/unibonn/informatik/ivs/set/Main.java:299-320 | The packed directory result holds only tables in [0, 1] |
| Evaluation.DescriptionRunMeans | CognitiveVision/evaluation/SaliencyEvaluationTool/SaliencyEvaluationTool/src/de/unibonn/informatik/ivs/set/Main.java:164-192 | After a description run the mean size is -1 whenever a size was recorded, and every mean precision and recall lies in [0, 1] |
| Evaluation.ImageRunMeans | CognitiveVision/evaluation/SaliencyEvaluationTool/SaliencyEvaluationTool/src/de/unibonn/informatik/ivs/set/Main.java:164-192 | After a directory run the mean size lies in [0, 1], and every mean precision and recall lies in [0, 1] |

All paths in the source column are under `CognitiveVision/evaluation/SaliencyEvaluationTool/SaliencyEvaluationTool/src/de/unibonn/informatik/ivs/set/`. The constructor of `SaliencyMap` also covers `SaliencyMap.java:64-67`, and `GroundTruth.FromFile` also covers `GroundTruth.java:64-67`.

## Left out

- Floating point: `double` and `float` values are exact reals. Rounding is not modelled, for example N additions of `1f/N` not summing to exactly 1. `Double` keeps NaN and the infinities only where a division by zero can happen.
- 32-bit overflow: the model's integers are unbounded. This affects `x2-x1+1` in the rectangle parser, the clip arithmetic and `getWidth()*getHeight()`.
- `JavaLang.LowerChar` (and so `EqualsIgnoreCase` and the help check) folds only ASCII letters, while Java folds case by Unicode rules. A key or mode value written with non-ASCII letters may therefore be judged differently.
- `Double.parseDouble` and `Boolean.parseBoolean` beyond case-insensitive `true`: `parseDouble` is a parameter, so the numbers it accepts are not modelled.
- `ImageUtil` (`loadImage`, `greyImage`, `scaleImage`, `saveImageAsPng`) and `ImageIO.read`:
  - the codec, the grey conversion and the resampler are parameters;
  - saving the binary ground-truth images (Main.java:255) is I/O and is not modelled.
- `FileUtil.readFile`, `copyFile`, `copyDefinedFiles` and `addFilesToMap`: file-system work.
- The plots, the result-file writers, printing and timing in `Main`: I/O and UI.
- `main` itself is not modelled. This covers its mode dispatch, the exits for missing paths and directories (Main.java:131-175), and the copy modes.
- The `exists` checks of `loadGroundTruthImage` and of the two evaluation loops: a listed file always exists, and a missing directory is the `None` listing. A listed directory and a read that throws are both the `readThrows` state of `Images.File`.
- `Evaluation.Evaluator.EvaluateMatchedImage`: when the ground-truth read threw, Java stores the size under the key `null` before the run ends with an exception. The size map has no `null` key, so that store is not modelled, like the rest of the state of an aborted run.
- `JavaLang.ParseInt` accepts only the ASCII digits 0-9, while `Integer.parseInt` (through `Character.digit`) also accepts the decimal digits of other scripts, such as Arabic-Indic digits. A size or rectangle line written with such digits parses in Java and is invalid here.
- `GroundTruth(String)`, `SaliencyMap(String, int, int)` and `loadGroundTruthImage(String)`: they only wrap a path in a `File`.
- `getBinaryImage`, `getMap` and `GroundTruthDescription.toString`: plain getters and a debug string.
- `Evaluation.Evaluator.EvaluateWithGroundTruthFile` and `Evaluation.Evaluator.EvaluateWithGroundTruthImages` do not state the result array or the sizes map of an aborted run. The run ends there, and `main` prints the stack trace.
- `SaliencyMaps.Prepared` states only the size and type of the converted or resampled image, not its pixel values, because the conversion and the resampler are abstract.
- `JavaLang.Split` models `split` with a literal separator (`"\n\n"`). A separator holding regular-expression metacharacters is not modelled.
- `Means.SizeSum` sums in no fixed order, because the key order of a `HashMap` is unspecified. With exact reals every order gives the same sum (`Means.SizeSumRemove`).

## Findings

| source | as written | input that shows it | evidently intended | confidence | as-written member | corrected member |
|---|---|---|---|---|---|---|
| CognitiveVision/evaluation/SaliencyEvaluationTool/SaliencyEvaluationTool/src/de/unibonn/informatik/ivs/set/Main.java:609-611 | Both image loops of `determineMeanPerThreshold` run to `result.length`, which is always 256, instead of `resultAll.length`. | A result array of fewer than 256 slots (fewer than 256 descriptions, or fewer than 256 files in the ground-truth directory), for example a single slot: `resultAll[1]` throws ArrayIndexOutOfBoundsException. A run whose first 256 images are unevaluated and whose 257th is evaluated: every mean is 0. | The mean over every image that produced a table. One evaluated image gives its own table. | not executed | Means.DetermineMeanPerThresholdAsWritten (shown by Means.FewImagesHaveNoMean and Means.LateImagesIgnored) | Means.DetermineMeanPerThreshold (Means.MeanTable, with Means.NonesIgnored, Means.MeanOfOne, Means.MeanInUnitInterval) |
