# crop-scanned-photos, modelled in Dafny

`crop-scanned-photos` takes scanner output: one image file holding several
photographs on a white background. For each such scan it writes one JPEG
file per photograph. `remove_white_borders` finds the photographs as
contours, then sorts their bounding boxes into reading order (top to bottom,
then left to right). It skips boxes that are too narrow or too short. Each
remaining box is cropped out of the scan and saved as
`<output_folder>/<stem>_<index>.jpg`. `process_images` picks the scans of the
input folder by file extension. `parse_args` reads the options from the
command line, falling back to environment variables and then to built-in
defaults. `main` crops every selected scan. A helper script,
`create_test_scan`, draws a synthetic scan: coloured 800×1200 rectangles on a
square grid over a white 2000×2800 canvas.

The Dafny project has these modules:

- `Wrappers` (`wrappers.dfy`): an `Option` type and `Min`.
- `Text` (`text.dfy`): the string operations the program relies on.
  - decimal rendering of the counter in the f-string;
  - Python `int()` on option values;
  - ASCII `str.lower`;
  - `str.endswith` with a tuple of suffixes;
  - `str.split(',')`.
- `Paths` (`paths.dfy`): POSIX `os.path.basename`, `os.path.splitext` and
  `os.path.join`.
- `Boxes` (`boxes.dfy`): bounding boxes and the `(y, x)` sort key.
  - The sort is a stable insertion sort, as Python's `sorted` is stable.
  - The size filter keeps a box iff it is at least the minimum width and
    height.
- `Crop` (`crop.dfy`): `remove_white_borders`.
  - The method `RemoveWhiteBorders` keeps the source's counter loop.
  - It is proved equal to the specification function `Expected`.
  - `Expected` has lemmas for the file names, the numbering, the order, the
    contents of each crop and the early exits.
  - The image is a raster (a sequence of rows).
  - The contour boxes OpenCV would find are a parameter.
- `Batch` (`batch.dfy`): `parse_args`, `process_images` and `main`.
  - The command-line flags, the environment, the folder listing, the image
    decoder and the contour detector are parameters.
- `TestScan` (`test_scan.dfy`): `create_test_scan`.
  - The integer ceiling square root gives the grid size.
  - A method with a loop computes the photo layout.
  - A `Canvas` class holds an `array2` of colours. `Paste` changes it in
    place, clipped to the canvas, and `DrawPhotos` pastes the photos one
    after the other.
  - `CreateTestScan` returns the output path and the drawn canvas.
  - The script exists twice: `utils/create_test_image.py:10-67` and
    `create_test_image.py:7-53`. The two copies have the same logic, so one
    model serves both.

## Model

| member | source | states |
|---|---|---|
| Text.DigitChar | crop_scanned_photos/main.py:95 | the character for a digit value below 10 is a decimal digit whose code is `'0'` plus that value |
| Text.DigitValue | crop_scanned_photos/main.py:95 | reading a digit character gives a value below 10 that renders back to the same character |
| Text.NatToString | crop_scanned_photos/main.py:95 | the rendering of the counter is non-empty and all digits, has no leading zero, and is one character long exactly for values below 10 |
| Text.ParseNatToString | crop_scanned_photos/main.py:95 | reading the decimal rendering of `n` back gives `n` |
| Text.NatToStringInjective | crop_scanned_photos/main.py:95 | different counters render differently |
| Text.ParseInt | crop_scanned_photos/main.py:20-43 | `int(s)` succeeds iff `s` is an optional sign followed by at least one decimal digit |
| Text.ParseIntToString | crop_scanned_photos/main.py:20-43 | every integer written in decimal is read back as itself by `int` |
| Text.LowerChar | crop_scanned_photos/main.py:107 | a lowered character is never upper case; upper-case letters move up by 32, everything else is unchanged |
| Text.Lower | crop_scanned_photos/main.py:107 | `lower()` keeps the length and lowers each character in place |
| Text.UpperSuffixNeverEndsLowered | crop_scanned_photos/main.py:107 | a suffix with an upper-case letter never ends a lowered name |
| Text.SplitCommas | crop_scanned_photos/main.py:50 | `split(',')` yields at least one piece |
| Text.SplitCommasSpec | crop_scanned_photos/main.py:50 | no piece holds a comma, and there is one more piece than there are commas |
| Text.JoinSplitCommas | crop_scanned_photos/main.py:50 | joining the pieces with commas gives the original string back |
| Text.SplitJoinCommas | crop_scanned_photos/main.py:50 | splitting comma-joined, comma-free pieces gives the pieces back |
| Text.SplitNoComma | crop_scanned_photos/main.py:50 | a string without a comma splits into itself alone |
| Text.SplitPrefix | crop_scanned_photos/main.py:50 | `head,tail` splits into `head` followed by the pieces of `tail` |
| Paths.LastIndex | crop_scanned_photos/main.py:82 | the result is -1 or a position holding `c`, and no later position holds `c` |
| Paths.BasenameSpec | crop_scanned_photos/main.py:82 | `basename` is a suffix of the path with no '/', and is preceded by '/' when it is not the whole path |
| Paths.SplitExtSpec | crop_scanned_photos/main.py:82 | `splitext` gives root and extension that concatenate to the path; the extension is empty or one dot followed by neither '/' nor '.' |
| Paths.StemNoSlash | crop_scanned_photos/main.py:82 | the stem of a path never holds '/' |
| Paths.JoinRelative | crop_scanned_photos/main.py:95 | joining a relative name appends it to a prefix that depends on the folder only |
| Paths.JoinInjective | crop_scanned_photos/main.py:106 | different relative names joined to one folder give different paths |
| Paths.BasenameOfJoin | crop_scanned_photos/main.py:106 | the base name of a folder joined with a plain name is that name |
| Paths.BasenameAfterSlash | crop_scanned_photos/main.py:82 | after a prefix ending in '/', the base name is the final '/'-free part |
| Paths.LastIndexAfterPrefix | crop_scanned_photos/main.py:82 | when `b` lacks `c`, the last `c` of `p + b` lies in `p` |
| Paths.LastIndexAtJunction | crop_scanned_photos/main.py:82 | when `p` ends with `c` and `q` lacks `c`, the last `c` of `p + q` is the end of `p` |
| Paths.StemOfFile | crop_scanned_photos/main.py:82 | the stem of `<dir>/<name>.<ext>` is `name` |
| Paths.SplitExtOfName | crop_scanned_photos/main.py:82 | `splitext("name.ext")` has root `name` |
| Boxes.Insert | crop_scanned_photos/main.py:79 | inserting a box adds exactly that box to the multiset of boxes |
| Boxes.SortByPosition | crop_scanned_photos/main.py:79 | sorting is a permutation of the boxes |
| Boxes.SortedCons | crop_scanned_photos/main.py:79 | a box whose key is at most every key of a sorted sequence can go in front of it |
| Boxes.InsertSorted | crop_scanned_photos/main.py:79 | inserting into a sorted sequence keeps it sorted by `(y, x)` |
| Boxes.SortByPositionSorted | crop_scanned_photos/main.py:79 | the result is in non-decreasing `(y, x)` order |
| Boxes.InsertWithKey | crop_scanned_photos/main.py:79 | insertion puts the new box in front of every box with the same key and keeps their order, so an earlier input box stays first |
| Boxes.InsertWithKeyStep | crop_scanned_photos/main.py:79 | when the new box passes the head, the boxes with any given key keep their order |
| Boxes.SortByPositionStable | crop_scanned_photos/main.py:79 | for every key, the boxes with that key keep their input order (stability) |
| Boxes.Accepted | crop_scanned_photos/main.py:89-90 | the filter never adds boxes |
| Boxes.AcceptedAppend | crop_scanned_photos/main.py:85-90 | filtering two sequences one after the other is filtering each in turn |
| Boxes.AcceptedMember | crop_scanned_photos/main.py:89-90 | a box survives iff it is in the input, at least `min_contour_width` wide and at least `min_contour_height` tall |
| Boxes.AcceptedSnoc | crop_scanned_photos/main.py:85-90 | one more box is appended iff it is big enough |
| Boxes.AcceptedPrefix | crop_scanned_photos/main.py:85-90 | each loop step keeps the next box iff it is big enough |
| Boxes.AcceptedNone | crop_scanned_photos/main.py:89-90 | when no box is big enough nothing survives |
| Boxes.AcceptedCount | crop_scanned_photos/main.py:89-90 | each big-enough box survives as often as it occurs, and every other box never survives |
| Boxes.AcceptedPermutation | crop_scanned_photos/main.py:79-90 | filtering permuted inputs gives permuted outputs of the same length |
| Boxes.AcceptedSorted | crop_scanned_photos/main.py:79-90 | filtering keeps the reading order |
| Boxes.AcceptedWithKey | crop_scanned_photos/main.py:79-90 | filtering then taking the boxes of a key equals taking them then filtering |
| Boxes.WithKeyAppend | crop_scanned_photos/main.py:79 | taking the boxes of a key distributes over concatenation |
| Crop.Slice | crop_scanned_photos/main.py:92 | numpy slicing clamps both bounds to the length and returns the elements from `lo` on |
| Crop.CropInside | crop_scanned_photos/main.py:92 | for a box inside the image, the crop is `h` rows of `w` pixels, and pixel `(i, j)` is image pixel `(y+i, x+j)` |
| Crop.BoxesOf | crop_scanned_photos/main.py:85-98 | there is one box per saved file |
| Crop.BoxesOfSnoc | crop_scanned_photos/main.py:96 | saving one more file records one more box |
| Crop.FirstOutputName | crop_scanned_photos/main.py:95 | the first file of a scan is named `<stem>_0.jpg` |
| Crop.OutputNameDecodes | crop_scanned_photos/main.py:95 | two output names are equal only for the same stem and the same index |
| Crop.SavesFor | crop_scanned_photos/main.py:85-98 | one file is written per accepted box |
| Crop.SavesForSnoc | crop_scanned_photos/main.py:95-98 | saving one more box appends one file whose index is the number saved before |
| Crop.SavesStep | crop_scanned_photos/main.py:85-98 | one loop step either saves the box under the current count or leaves the files unchanged |
| Crop.SavesForAt | crop_scanned_photos/main.py:92-96 | file `k` is the crop of the `k`-th accepted box, saved under index `k` |
| Crop.BoxesOfSavesFor | crop_scanned_photos/main.py:85-98 | the boxes of the written files are the accepted boxes in order |
| Crop.RemoveWhiteBorders | crop_scanned_photos/main.py:54-98 | the loop with its counter produces exactly the outcome of `Expected` |
| Crop.WrittenOfReadable | crop_scanned_photos/main.py:78-98 | for a readable scan, the files are the saves of the accepted boxes in sorted order |
| Crop.WrittenAreAccepted | crop_scanned_photos/main.py:86-90 | a box gets a file iff it is a contour box of at least the minimum size; the written boxes are the accepted input boxes with their multiplicities |
| Crop.WrittenPath | crop_scanned_photos/main.py:95 | file `i` is `<output_folder>/<stem>_<i>.jpg` |
| Crop.NumberedConsecutively | crop_scanned_photos/main.py:83-98 | there are as many files as accepted boxes, numbered `0..k-1` |
| Crop.DistinctPaths | crop_scanned_photos/main.py:95 | the files of one scan have pairwise distinct paths |
| Crop.WrittenInReadingOrder | crop_scanned_photos/main.py:79-85 | the written boxes are in `(y, x)` order, and boxes with equal keys keep their input order |
| Crop.SaveAsHoldsBlock | crop_scanned_photos/main.py:92 | the saved crop of a box inside the image is that block of the image |
| Crop.WrittenBoxFromContours | crop_scanned_photos/main.py:85-96 | file `k` is the save of the `k`-th accepted sorted box, which is one of the contour boxes |
| Crop.CropsMatchScan | crop_scanned_photos/main.py:92-96 | every written file is an `h`×`w` block of the scan at its box |
| Crop.EarlyExitsWriteNothing | crop_scanned_photos/main.py:56-76 | an unreadable scan or one without contours returns normally and writes nothing |
| Crop.TooSmallWritesNothing | crop_scanned_photos/main.py:89-90 | when every box is too small, nothing is written although there are contours |
| Crop.SameStemSamePaths | crop_scanned_photos/main.py:82-95 | the output paths depend only on the stem of the input path |
| Crop.SameNameOverwrites | crop_scanned_photos/main.py:82-95 | `a.png` and `a.jpg` both write their first crop to `<output_folder>/a_0.jpg` |
| Batch.IntOption | crop_scanned_photos/main.py:20-23 | an integer option parses iff its environment-or-built-in default parses and a given flag parses too; its value is `int` of the flag when given, else `int` of the default |
| Batch.ParseArgsDefaults | crop_scanned_photos/main.py:8-51 | with no flags and no environment the settings are `raw`, `output_images`, 1, 240, 255, 50, 50 and `(.png, .jpg, .jpeg)` |
| Batch.DefaultExtensionsSplit | crop_scanned_photos/main.py:46-50 | the default extension list splits into `.png`, `.jpg` and `.jpeg` |
| Batch.DefaultExtensionsShape | crop_scanned_photos/main.py:46 | the default extension list is three extensions separated by commas |
| Batch.DecimalLiterals | crop_scanned_photos/main.py:22-42 | the built-in default strings read as the integers 1, 240, 255 and 50 |
| Batch.ParseArgsFromEnvironment | test/test_crop.py:55-71 | with `INPUT_FOLDER=custom_input` and `THREADS=4` the settings hold `custom_input` and 4 |
| Batch.FlagOverridesEnvironment | crop_scanned_photos/main.py:12-50 | for the input folder, the output folder and the allowed extensions, a given flag wins over the environment variable, and the environment variable wins over the default |
| Batch.IntFlagsOverrideEnvironment | crop_scanned_photos/main.py:20-43 | for the thread count, both thresholds and both minimum sizes, the value is `int` of the flag when given, and otherwise `int` of the environment variable when set |
| Batch.MalformedEnvironmentFails | crop_scanned_photos/main.py:22 | a `THREADS` value that is not an integer makes parsing fail even when `--threads` is given |
| Batch.ExtensionsSplitAtCommas | crop_scanned_photos/main.py:50 | the parsed extensions joined with commas give the option string back, and none holds a comma |
| Batch.FilterMap | crop_scanned_photos/main.py:106-107 | the comprehension yields at most one value per element |
| Batch.FilterMapAppend | crop_scanned_photos/main.py:106-107 | the comprehension over two sequences one after the other is the comprehension over each in turn |
| Batch.FilterMapMember | crop_scanned_photos/main.py:106-107 | a value is produced iff it is the image of a kept element |
| Batch.FilterMapNone | crop_scanned_photos/main.py:106-107 | when nothing is kept, nothing is produced |
| Batch.FilterMapAll | crop_scanned_photos/main.py:106-107 | when everything is kept, one value is produced per element |
| Batch.SelectImagesAppend | crop_scanned_photos/main.py:106-107 | the selection keeps the listing order |
| Batch.SelectImagesMember | crop_scanned_photos/main.py:106-107 | a path is selected iff it is the folder joined with a listed name whose lowered form ends with an allowed extension; there is at most one path per entry |
| Batch.NoExtensionSelectsNothing | crop_scanned_photos/main.py:107 | an empty tuple of extensions selects nothing |
| Batch.CapitalExtensionsSelectNothing | crop_scanned_photos/main.py:107 | extensions that each hold a capital letter select nothing, whatever the file names |
| Batch.EmptyExtensionSelectsAll | crop_scanned_photos/main.py:107 | an empty extension in the tuple selects every entry |
| Batch.ImageNameWithExtension | crop_scanned_photos/main.py:107 | a name with no capital letters that ends with an allowed extension is selected |
| Batch.NotImageName | crop_scanned_photos/main.py:107 | a name whose lowered last character ends none of the extensions is not selected |
| Batch.SelectsTheTwoScans | test/test_crop.py:117-134 | from `test1.jpg`, `test2.jpg` and `not_an_image.txt`, exactly the two scans are selected, in order |
| Batch.FilterMapKeepsTwo | crop_scanned_photos/main.py:106-107 | from three elements of which the first two are kept, the comprehension yields their two images |
| Batch.Run | crop_scanned_photos/main.py:110-119 | `main` gets to cropping iff the options parse and the worker count is at least one |
| Batch.RunCropsEachScan | crop_scanned_photos/main.py:110-119 | every selected scan is cropped once; its `k`-th file is `<output_folder>/<stem>_<k>.jpg`, and for a readable scan the boxes written are exactly the detected boxes of at least the parsed minimum width and height |
| Batch.NoWorkersNoRun | crop_scanned_photos/main.py:118 | a worker count below one stops `main` before any scan is cropped |
| Batch.DifferentStemsDoNotCollide | crop_scanned_photos/main.py:95 | in one output folder, different stems or different indices give different paths |
| TestScan.CeilSqrtFrom | utils/create_test_image.py:26 | the upward search ends at a `g` with `g*g >= n` and `(g-1)^2 < n` |
| TestScan.CeilSqrt | utils/create_test_image.py:26 | `grid_size` squared covers the photo count, and one less does not |
| TestScan.CeilSqrtLeast | create_test_image.py:12 | `grid_size` is the least natural number whose square covers the photo count |
| TestScan.Layout | utils/create_test_image.py:41-50 | `min(num_photos, g*g)` photos are placed, and photo `i` is at its grid position |
| TestScan.LayoutPhotos | create_test_image.py:26-36 | the append loop builds exactly the layout |
| TestScan.AllPhotosPlaced | utils/create_test_image.py:41 | with the grid from the ceiling square root, all `num_photos` photos are placed |
| TestScan.PhotoShape | utils/create_test_image.py:42-50 | every photo is 800 wide and 1200 tall, and photo `i` has colour `i % 8` of the cycle |
| TestScan.PhotosSeparated | create_test_image.py:31-34 | photos of different indices do not overlap |
| TestScan.NeighboursOneMarginApart | utils/create_test_image.py:45-46 | row neighbours are 100 pixels apart horizontally and column neighbours 100 pixels apart vertically |
| TestScan.SmallScansFit | utils/create_test_image.py:29-48 | with at most four photos every photo lies within the 2000×2800 canvas |
| TestScan.LargeScansOverflow | utils/create_test_image.py:29-48 | with five photos or more, the third column extends beyond the canvas width |
| TestScan.PaintSeparated | utils/create_test_image.py:53-55 | with non-overlapping photos, a pixel has the colour of the photo covering it, or the background when none does |
| TestScan.LayoutSeparated | create_test_image.py:26-41 | the layout's photos pairwise do not overlap |
| TestScan.Clamp | create_test_image.py:41 | the clipped coordinate lies within the canvas |
| TestScan.Canvas.constructor | utils/create_test_image.py:29 | a fresh canvas of the given size in one colour |
| TestScan.Canvas.Paste | create_test_image.py:39-41 | pasting sets exactly the canvas pixels inside the rectangle, clipped, to its colour, and leaves every other pixel unchanged |
| TestScan.Canvas.DrawPhotos | utils/create_test_image.py:53-55 | after pasting the photos in order, each pixel has the colour that painting the list over the old pixel gives |
| TestScan.CreateTestScan | utils/create_test_image.py:10-67 | a negative count fails; otherwise the path is the folder joined with the given name or `test_<n>_scan.jpg`, and the canvas is a fresh 2000×2800 raster holding the drawn scan |
| TestScan.ScanColors | utils/create_test_image.py:37-55 | a pixel of photo `k` in the scan has colour `k % 8` of the cycle, and a pixel outside every photo is white |
| TestScan.DefaultNamesDiffer | create_test_image.py:44-48 | different photo counts give different default file names |
| Text.IntToString | crop_scanned_photos/main.py:22-42 | definition of the decimal numeral of an integer; characterised by `Text.ParseIntToString` |
| Text.EndsWith | crop_scanned_photos/main.py:107 | definition of `str.endswith` for one suffix; used by `Text.UpperSuffixNeverEndsLowered` and `Batch.NotImageName` |
| Text.EndsWithAny | crop_scanned_photos/main.py:107 | definition of `str.endswith` for a tuple of suffixes; characterised by `Batch.NoExtensionSelectsNothing`, `Batch.EmptyExtensionSelectsAll` and `Batch.ImageNameWithExtension` |
| Paths.Basename | crop_scanned_photos/main.py:82 | definition of `os.path.basename`; characterised by `Paths.BasenameSpec` and `Paths.BasenameAfterSlash` |
| Paths.SplitExt | crop_scanned_photos/main.py:82 | definition of `os.path.splitext`, skipping leading dots of the base name; characterised by `Paths.SplitExtSpec` and `Paths.SplitExtOfName` |
| Paths.Stem | crop_scanned_photos/main.py:82 | definition of `base_filename`; characterised by `Paths.StemNoSlash` and `Paths.StemOfFile` |
| Paths.Join | crop_scanned_photos/main.py:95 | definition of `os.path.join` of two parts (also used at main.py:106); characterised by `Paths.JoinRelative`, `Paths.JoinInjective` and `Paths.BasenameOfJoin` |
| Boxes.Key | crop_scanned_photos/main.py:79 | definition of the sort key `(y, x)`; used by `Boxes.SortByPositionSorted` and `Boxes.SortByPositionStable` |
| Boxes.BigEnough | crop_scanned_photos/main.py:89 | definition of the size test; characterised by `Boxes.AcceptedMember` |
| Crop.CropRaster | crop_scanned_photos/main.py:92 | definition of `image[y:y+h, x:x+w]`; characterised by `Crop.CropInside` |
| Crop.OutputName | crop_scanned_photos/main.py:95 | definition of `f"{base_filename}_{count}.jpg"`; characterised by `Crop.FirstOutputName` and `Crop.OutputNameDecodes` |
| Crop.SaveAs | crop_scanned_photos/main.py:92-96 | definition of one saved crop; characterised by `Crop.SaveAsHoldsBlock` |
| Crop.Expected | crop_scanned_photos/main.py:54-98 | definition of the outcome of `remove_white_borders`; `Crop.RemoveWhiteBorders` is proved equal to it, and it is characterised by `Crop.WrittenAreAccepted`, `Crop.NumberedConsecutively`, `Crop.DistinctPaths`, `Crop.WrittenInReadingOrder`, `Crop.CropsMatchScan` and `Crop.EarlyExitsWriteNothing` |
| Batch.ParseArgs | crop_scanned_photos/main.py:8-51 | definition of `parse_args`; characterised by `Batch.ParseArgsDefaults`, `Batch.FlagOverridesEnvironment`, `Batch.IntFlagsOverrideEnvironment`, `Batch.MalformedEnvironmentFails` and `Batch.ExtensionsSplitAtCommas` |
| Batch.IsImageName | crop_scanned_photos/main.py:107 | definition of the filter `f.lower().endswith(allowed_extensions)`; characterised by `Batch.ImageNameWithExtension` and `Batch.NotImageName` |
| Batch.SelectImages | crop_scanned_photos/main.py:101-107 | definition of `process_images`' result; characterised by `Batch.SelectImagesMember` and `Batch.SelectImagesAppend` |
| TestScan.PhotoAt | utils/create_test_image.py:42-50 | definition of photo `i`'s bounds and colour; characterised by `TestScan.PhotoShape`, `TestScan.PhotosSeparated` and `TestScan.NeighboursOneMarginApart` |
| TestScan.Paint | utils/create_test_image.py:53-55 | definition of a pixel's colour after pasting the photos in order; characterised by `TestScan.PaintSeparated` |
| TestScan.ScanPixel | utils/create_test_image.py:29-55 | definition of a pixel of the generated scan; characterised by `TestScan.ScanColors` |
| TestScan.DefaultName | utils/create_test_image.py:58-59 | definition of `f"test_{num_photos}_scan.jpg"`; characterised by `TestScan.DefaultNamesDiffer` |

## Left out

- The OpenCV work is not modelled: `imread`, `cvtColor`, `threshold`, `bitwise_not`, `findContours` and `boundingRect`.
  - The decoded raster (or its absence) and the bounding boxes are parameters.
  - `threshold_value` and `threshold_max` are therefore parsed but not used.
- Files are not written. `imwrite` and `Image.save` (JPEG at quality 95) are modelled as the list of (path, box, crop) records, and as the returned canvas.
- `print` messages and `os.makedirs` are left out. They only have effects on the console and the file system.
- `os.listdir` is a parameter of `main`. Its order is whatever the file system gives. An error listing a missing folder is not modelled.
- The `ThreadPoolExecutor` is not modelled: the scans are cropped one after another.
  - Concurrency, interleaving and the order in which files appear are outside the model.
  - So are exceptions raised inside workers, which `executor.map` never surfaces.
  - `process_images` ignores its `threads` argument, and so does the model.
  - A worker count below one is modelled as `main` failing, as the pool's constructor raises.
- `Batch.ParseArgs` does not cover every argparse feature.
  - Flags are a map from option name to value, so each option occurs at most once and the last-one-wins rule for repeated options is not modelled.
  - Unknown options, `--help`, abbreviations and the `=` syntax are not modelled.
  - A failing `int()` is modelled as `None`, standing for both the `ValueError` and argparse's exit.
- `Text.ParseInt` accepts only an optional sign and ASCII digits. Python's `int` also allows surrounding whitespace, `_` between digits and non-ASCII digits; the model rejects those.
- `Text.Lower`: only ASCII letters are lowered. Python's `str.lower` also lowers non-ASCII letters. This matters only for extensions outside ASCII.
- `Text.SplitCommas` returns a sequence where the source builds a tuple.
- `TestScan.CeilSqrt`: the grid size is the exact integer ceiling of the square root, where the source computes `math.ceil(math.sqrt(n))` in floating point. The two agree for any photo count a test would use.
- `TestScan.CreateTestScan` models `math.sqrt` rejecting a negative count as a failed call (no path, no canvas), not as the exception itself.
- PIL's `Image.new` for each photo followed by `paste` is modelled as filling the clipped rectangle. Colour names and the pixel format stand for themselves: `Color` is an enumeration.
- The command-line wrappers of the test-scan scripts are not modelled: `parse_args` and `main` in `utils/create_test_image.py:70-111` and `main` in `create_test_image.py:56`. They only forward their options to `create_test_scan`.
- `Crop.RemoveWhiteBorders` distinguishes three outcomes (unreadable, no contours, cropped) where the source returns `None` in each case. The files written are the same.
- Boxes hold natural numbers. OpenCV never reports negative coordinates or sizes.
- The test-local fixture image in `test/test_crop.py:14-37` is not modelled. Its fixed rectangles differ from the generated layout.
- `crop_scanned_photos/__init__.py` is not modelled. It only re-exports names.
