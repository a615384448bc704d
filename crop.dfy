/** The crop routine `remove_white_borders` of crop_scanned_photos/main.py:
    given the decoded scan (or nothing, when it could not be decoded) and the
    bounding boxes of the external contours found in it, it writes one JPEG
    per box that is big enough, in reading order, named
    `<stem>_<index>.jpg` inside the output folder. Decoding, thresholding
    and contour tracing are done by OpenCV and are inputs here; every write
    is returned as a `Saved` record instead of being performed. */
module Crop {
  import opened Wrappers
  import opened Text
  import opened Paths
  import opened Boxes

  // ---------------------------------------------------------------------
  // Rasters and cropping (numpy slicing)
  // ---------------------------------------------------------------------

  /** numpy's `a[lo:hi]` for `0 <= lo <= hi`: both bounds are clamped to
      the length, so a slice running past the end is shortened. */
  function Slice<T>(s: seq<T>, lo: nat, hi: nat): (r: seq<T>)
    requires lo <= hi
    ensures |r| == Min(hi, |s|) - Min(lo, |s|)
    ensures forall i :: 0 <= i < |r| ==> r[i] == s[lo + i]
  {
    s[Min(lo, |s|)..Min(hi, |s|)]
  }

  /** A raster of `rows` rows of `cols` pixels each. */
  predicate IsRaster<P>(image: seq<seq<P>>, rows: nat, cols: nat) {
    |image| == rows && forall i :: 0 <= i < |image| ==> |image[i]| == cols
  }

  /** `image[y:y+h, x:x+w]`: the rows `y .. y+h-1` and, in each of them,
      the columns `x .. x+w-1`, clamped to the raster. */
  function CropRaster<P>(image: seq<seq<P>>, b: Box): seq<seq<P>> {
    var rows := Slice(image, b.y, b.y + b.h);
    seq(|rows|, i requires 0 <= i < |rows| => Slice(rows[i], b.x, b.x + b.w))
  }

  /** The box lies within a raster of the given size. */
  predicate Inside(b: Box, rows: nat, cols: nat) {
    b.y + b.h <= rows && b.x + b.w <= cols
  }

  /** A box inside the raster is cropped to exactly `h` rows of `w` pixels,
      and pixel `(i, j)` of the crop is pixel `(y+i, x+j)` of the scan. */
  lemma CropInside<P>(image: seq<seq<P>>, rows: nat, cols: nat, b: Box)
    requires IsRaster(image, rows, cols) && Inside(b, rows, cols)
    ensures IsRaster(CropRaster(image, b), b.h, b.w)
    ensures forall i, j :: 0 <= i < b.h && 0 <= j < b.w ==>
              CropRaster(image, b)[i][j] == image[b.y + i][b.x + j]
  {
    var c := CropRaster(image, b);
    forall i | 0 <= i < b.h ensures |c[i]| == b.w && forall j :: 0 <= j < b.w ==> c[i][j] == image[b.y + i][b.x + j] {
      assert c[i] == Slice(image[b.y + i], b.x, b.x + b.w);
    }
  }

  // ---------------------------------------------------------------------
  // Outputs
  // ---------------------------------------------------------------------

  /** One `cv2.imwrite(path, pixels)` of the routine, with the box that was
      cropped. */
  datatype Saved<P> = Saved(path: string, box: Box, pixels: seq<seq<P>>)

  /** How a call ended: the image could not be decoded, no contour was
      found, or the boxes were processed, with the files written (possibly
      none). The Python routine returns `None` in all three cases and only
      its printed message differs. */
  datatype Outcome<P> = Unreadable | NoContours | Cropped(saved: seq<Saved<P>>)

  /** The files a call writes, whatever its outcome. */
  function Written<P>(o: Outcome<P>): seq<Saved<P>> {
    if o.Cropped? then o.saved else []
  }

  /** The boxes of the written files, in writing order. */
  function WrittenBoxes<P>(o: Outcome<P>): seq<Box> {
    BoxesOf(Written(o))
  }

  function BoxesOf<P>(saved: seq<Saved<P>>): (r: seq<Box>)
    ensures |r| == |saved|
  {
    if saved == [] then [] else BoxesOf(saved[..|saved| - 1]) + [saved[|saved| - 1].box]
  }

  lemma BoxesOfSnoc<P>(saved: seq<Saved<P>>, s: Saved<P>)
    ensures BoxesOf(saved + [s]) == BoxesOf(saved) + [s.box]
  {
    assert (saved + [s])[..|saved|] == saved;
  }

  /** `f"{base_filename}_{count}.jpg"`. */
  function OutputName(stem: string, index: nat): string {
    stem + "_" + NatToString(index) + ".jpg"
  }

  /** The first file of a scan is `<stem>_0.jpg`. */
  lemma FirstOutputName(stem: string)
    ensures OutputName(stem, 0) == stem + "_0.jpg"
  {
    assert DigitChar(0) == '0';
  }

  /** A file name determines the stem and the index it was made from. */
  lemma OutputNameDecodes(stem1: string, i: nat, stem2: string, j: nat)
    ensures OutputName(stem1, i) == OutputName(stem2, j) ==> stem1 == stem2 && i == j
  {
    var d1, d2 := NatToString(i), NatToString(j);
    var n1, n2 := stem1 + "_" + d1, stem2 + "_" + d2;
    assert OutputName(stem1, i) == n1 + ".jpg";
    assert OutputName(stem2, j) == n2 + ".jpg";
    assert (n1 + ".jpg")[..|n1|] == n1;
    assert (n2 + ".jpg")[..|n2|] == n2;
    assert '_' !in d1 && '_' !in d2 by {
      assert forall k :: 0 <= k < |d1| ==> IsDigit(d1[k]);
      assert forall k :: 0 <= k < |d2| ==> IsDigit(d2[k]);
    }
    LastIndexAtJunction(stem1 + "_", d1, '_');
    LastIndexAtJunction(stem2 + "_", d2, '_');
    assert n1[..|stem1|] == stem1 && n1[|stem1| + 1..] == d1;
    assert n2[..|stem2|] == stem2 && n2[|stem2| + 1..] == d2;
    ParseNatToString(i);
    ParseNatToString(j);
  }

  /** One output file: the crop of `b` saved as the `index`-th file. */
  function SaveAs<P>(folder: string, stem: string, image: seq<seq<P>>, index: nat, b: Box): Saved<P> {
    Saved(Join(folder, OutputName(stem, index)), b, CropRaster(image, b))
  }

  /** The files written for the accepted boxes, numbered from 0 in order. */
  function SavesFor<P>(folder: string, stem: string, image: seq<seq<P>>, accepted: seq<Box>): (r: seq<Saved<P>>)
    ensures |r| == |accepted|
  {
    if accepted == [] then []
    else
      var n := |accepted| - 1;
      SavesFor(folder, stem, image, accepted[..n]) + [SaveAs(folder, stem, image, n, accepted[n])]
  }

  /** Saving one more accepted box appends one file with the next index. */
  lemma SavesForSnoc<P>(folder: string, stem: string, image: seq<seq<P>>, accepted: seq<Box>, b: Box)
    ensures SavesFor(folder, stem, image, accepted + [b])
         == SavesFor(folder, stem, image, accepted) + [SaveAs(folder, stem, image, |accepted|, b)]
  {
    assert (accepted + [b])[..|accepted|] == accepted;
  }

  /** Looking at one more sorted box either saves it under the next index
      or leaves the files as they were. */
  lemma SavesStep<P>(folder: string, stem: string, image: seq<seq<P>>, sorted: seq<Box>, i: nat,
                     minWidth: int, minHeight: int)
    requires i < |sorted|
    ensures var before := SavesFor(folder, stem, image, Accepted(sorted[..i], minWidth, minHeight));
            SavesFor(folder, stem, image, Accepted(sorted[..i + 1], minWidth, minHeight))
            == if BigEnough(sorted[i], minWidth, minHeight)
               then before + [SaveAs(folder, stem, image, |before|, sorted[i])]
               else before
  {
    AcceptedPrefix(sorted, i, minWidth, minHeight);
    var accepted := Accepted(sorted[..i], minWidth, minHeight);
    if BigEnough(sorted[i], minWidth, minHeight) {
      SavesForSnoc(folder, stem, image, accepted, sorted[i]);
    } else {
      assert accepted + [] == accepted;
    }
  }

  /** File `k` is the crop of the `k`-th accepted box, saved under index `k`. */
  lemma {:induction false} SavesForAt<P>(folder: string, stem: string, image: seq<seq<P>>, accepted: seq<Box>, k: nat)
    requires k < |accepted|
    ensures SavesFor(folder, stem, image, accepted)[k] == SaveAs(folder, stem, image, k, accepted[k])
  {
    var n := |accepted| - 1;
    if k < n {
      SavesForAt(folder, stem, image, accepted[..n], k);
    }
  }

  /** The boxes of the files written are the accepted boxes. */
  lemma {:induction false} BoxesOfSavesFor<P>(folder: string, stem: string, image: seq<seq<P>>, accepted: seq<Box>)
    ensures BoxesOf(SavesFor(folder, stem, image, accepted)) == accepted
  {
    if accepted != [] {
      var n := |accepted| - 1;
      BoxesOfSavesFor(folder, stem, image, accepted[..n]);
      var prefix := SavesFor(folder, stem, image, accepted[..n]);
      var last := SaveAs(folder, stem, image, n, accepted[n]);
      assert SavesFor(folder, stem, image, accepted) == prefix + [last];
      BoxesOfSnoc(prefix, last);
      assert BoxesOf(prefix) == accepted[..n];
      assert accepted[..n] + [accepted[n]] == accepted;
    }
  }

  /** What `remove_white_borders` does for a scan decoded as `image` whose
      external contours have the bounding boxes `contours`. */
  function Expected<P>(imagePath: string, outputFolder: string, image: Option<seq<seq<P>>>,
                       contours: seq<Box>, minWidth: int, minHeight: int): Outcome<P>
  {
    if image.None? then Unreadable
    else if contours == [] then NoContours
    else
      var accepted := Accepted(SortByPosition(contours), minWidth, minHeight);
      Cropped(SavesFor(outputFolder, Stem(imagePath), image.value, accepted))
  }

  /** The routine itself: sort the boxes into reading order, skip the small
      ones and save a crop of each other one under the next free index. */
  method RemoveWhiteBorders<P>(imagePath: string, outputFolder: string, image: Option<seq<seq<P>>>,
                               contours: seq<Box>, minWidth: int, minHeight: int)
    returns (outcome: Outcome<P>)
    ensures outcome == Expected(imagePath, outputFolder, image, contours, minWidth, minHeight)
  {
    if image.None? {
      return Unreadable;
    }
    if contours == [] {
      return NoContours;
    }
    var sorted := SortByPosition(contours);
    var baseFilename := Stem(imagePath);
    var count := 0;
    var saved: seq<Saved<P>> := [];
    for i := 0 to |sorted|
      invariant count == |saved|
      invariant saved == SavesFor(outputFolder, baseFilename, image.value, Accepted(sorted[..i], minWidth, minHeight))
    {
      var b := sorted[i];
      SavesStep(outputFolder, baseFilename, image.value, sorted, i, minWidth, minHeight);
      if b.w < minWidth || b.h < minHeight {
        continue;
      }
      var croppedImage := CropRaster(image.value, b);
      var outputPath := Join(outputFolder, OutputName(baseFilename, count));
      assert Saved(outputPath, b, croppedImage) == SaveAs(outputFolder, baseFilename, image.value, count, b);
      saved := saved + [Saved(outputPath, b, croppedImage)];
      count := count + 1;
    }
    assert sorted[..|sorted|] == sorted;
    return Cropped(saved);
  }

  // ---------------------------------------------------------------------
  // Properties of the routine
  // ---------------------------------------------------------------------

  /** For a readable scan, the files written are those of the accepted boxes
      in sorted order (also when there is no box at all). */
  lemma WrittenOfReadable<P>(imagePath: string, outputFolder: string, image: seq<seq<P>>,
                             contours: seq<Box>, minWidth: int, minHeight: int)
    ensures Written(Expected(imagePath, outputFolder, Some(image), contours, minWidth, minHeight))
         == SavesFor(outputFolder, Stem(imagePath), image, Accepted(SortByPosition(contours), minWidth, minHeight))
    ensures WrittenBoxes(Expected(imagePath, outputFolder, Some(image), contours, minWidth, minHeight))
         == Accepted(SortByPosition(contours), minWidth, minHeight)
  {
    if contours == [] {
      assert Accepted(SortByPosition(contours), minWidth, minHeight) == [];
    }
    BoxesOfSavesFor(outputFolder, Stem(imagePath), image, Accepted(SortByPosition(contours), minWidth, minHeight));
  }

  /** The boxes written are exactly the big-enough input boxes, each as
      often as it occurs: a box produces a file iff it is at least
      `min_contour_width` wide and `min_contour_height` tall. */
  lemma WrittenAreAccepted<P>(imagePath: string, outputFolder: string, image: seq<seq<P>>,
                              contours: seq<Box>, minWidth: int, minHeight: int, b: Box)
    ensures multiset(WrittenBoxes(Expected(imagePath, outputFolder, Some(image), contours, minWidth, minHeight)))
         == multiset(Accepted(contours, minWidth, minHeight))
    ensures b in WrittenBoxes(Expected(imagePath, outputFolder, Some(image), contours, minWidth, minHeight))
         <==> b in contours && BigEnough(b, minWidth, minHeight)
  {
    var written := WrittenBoxes(Expected(imagePath, outputFolder, Some(image), contours, minWidth, minHeight));
    WrittenOfReadable(imagePath, outputFolder, image, contours, minWidth, minHeight);
    AcceptedPermutation(SortByPosition(contours), contours, minWidth, minHeight);
    AcceptedMember(contours, minWidth, minHeight, b);
    assert b in written <==> b in multiset(written);
    assert b in Accepted(contours, minWidth, minHeight) <==> b in multiset(Accepted(contours, minWidth, minHeight));
  }

  /** File `i` of any call is saved as `<output_folder>/<stem>_<i>.jpg`. */
  lemma WrittenPath<P>(imagePath: string, outputFolder: string, image: Option<seq<seq<P>>>,
                       contours: seq<Box>, minWidth: int, minHeight: int, i: nat)
    requires i < |Written(Expected(imagePath, outputFolder, image, contours, minWidth, minHeight))|
    ensures Written(Expected(imagePath, outputFolder, image, contours, minWidth, minHeight))[i].path
         == Join(outputFolder, OutputName(Stem(imagePath), i))
  {
    var accepted := Accepted(SortByPosition(contours), minWidth, minHeight);
    WrittenOfReadable(imagePath, outputFolder, image.value, contours, minWidth, minHeight);
    SavesForAt(outputFolder, Stem(imagePath), image.value, accepted, i);
  }

  /** The written files are numbered `0 .. k-1`, where `k` is the number of
      big-enough boxes, and file `i` is `<output_folder>/<stem>_<i>.jpg`. */
  lemma NumberedConsecutively<P>(imagePath: string, outputFolder: string, image: seq<seq<P>>,
                                 contours: seq<Box>, minWidth: int, minHeight: int, i: nat)
    ensures |Written(Expected(imagePath, outputFolder, Some(image), contours, minWidth, minHeight))|
         == |Accepted(contours, minWidth, minHeight)|
    ensures i < |Accepted(contours, minWidth, minHeight)| ==>
              Written(Expected(imagePath, outputFolder, Some(image), contours, minWidth, minHeight))[i].path
              == Join(outputFolder, OutputName(Stem(imagePath), i))
  {
    WrittenOfReadable(imagePath, outputFolder, image, contours, minWidth, minHeight);
    AcceptedPermutation(SortByPosition(contours), contours, minWidth, minHeight);
    if i < |Accepted(contours, minWidth, minHeight)| {
      WrittenPath(imagePath, outputFolder, Some(image), contours, minWidth, minHeight, i);
    }
  }

  /** No two files written by one call share a path. */
  lemma DistinctPaths<P>(imagePath: string, outputFolder: string, image: Option<seq<seq<P>>>,
                         contours: seq<Box>, minWidth: int, minHeight: int, i: nat, j: nat)
    requires i < j < |Written(Expected(imagePath, outputFolder, image, contours, minWidth, minHeight))|
    ensures Written(Expected(imagePath, outputFolder, image, contours, minWidth, minHeight))[i].path
         != Written(Expected(imagePath, outputFolder, image, contours, minWidth, minHeight))[j].path
  {
    WrittenPath(imagePath, outputFolder, image, contours, minWidth, minHeight, i);
    WrittenPath(imagePath, outputFolder, image, contours, minWidth, minHeight, j);
    var stem := Stem(imagePath);
    StemNoSlash(imagePath);
    OutputNameDecodes(stem, i, stem, j);
    var a, b := OutputName(stem, i), OutputName(stem, j);
    assert a[0] != '/' && b[0] != '/' by {
      if stem != [] {
        assert a[0] == stem[0] && b[0] == stem[0];
      }
    }
    JoinInjective(outputFolder, a, b);
  }

  /** Files are written in reading order (top to bottom, then left to
      right), and boxes at the same position keep their input order. */
  lemma WrittenInReadingOrder<P>(imagePath: string, outputFolder: string, image: seq<seq<P>>,
                                 contours: seq<Box>, minWidth: int, minHeight: int, k: (nat, nat))
    ensures Sorted(WrittenBoxes(Expected(imagePath, outputFolder, Some(image), contours, minWidth, minHeight)))
    ensures WithKey(WrittenBoxes(Expected(imagePath, outputFolder, Some(image), contours, minWidth, minHeight)), k)
         == WithKey(Accepted(contours, minWidth, minHeight), k)
  {
    var sorted := SortByPosition(contours);
    WrittenOfReadable(imagePath, outputFolder, image, contours, minWidth, minHeight);
    SortByPositionSorted(contours);
    AcceptedSorted(sorted, minWidth, minHeight);
    SortByPositionStable(contours, k);
    AcceptedWithKey(sorted, minWidth, minHeight, k);
    AcceptedWithKey(contours, minWidth, minHeight, k);
  }

  /** The file holds exactly the `h` x `w` block of the `rows` x `cols`
      scan under its box. */
  ghost predicate HoldsBlock<P>(s: Saved<P>, image: seq<seq<P>>, rows: nat, cols: nat)
    requires IsRaster(image, rows, cols)
  {
    Inside(s.box, rows, cols) && IsRaster(s.pixels, s.box.h, s.box.w) &&
    forall i, j :: 0 <= i < s.box.h && 0 <= j < s.box.w ==>
      s.pixels[i][j] == image[s.box.y + i][s.box.x + j]
  }

  /** Saving a box that lies inside the scan stores the block under it. */
  lemma SaveAsHoldsBlock<P>(folder: string, stem: string, image: seq<seq<P>>, rows: nat, cols: nat,
                            index: nat, b: Box)
    requires IsRaster(image, rows, cols) && Inside(b, rows, cols)
    ensures HoldsBlock(SaveAs(folder, stem, image, index, b), image, rows, cols)
  {
    CropInside(image, rows, cols, b);
  }

  /** Every box written by a call is one of the input boxes. */
  lemma WrittenBoxFromContours<P>(imagePath: string, outputFolder: string, image: seq<seq<P>>,
                                  contours: seq<Box>, minWidth: int, minHeight: int, k: nat)
    requires k < |Written(Expected(imagePath, outputFolder, Some(image), contours, minWidth, minHeight))|
    ensures Written(Expected(imagePath, outputFolder, Some(image), contours, minWidth, minHeight))[k]
         == SaveAs(outputFolder, Stem(imagePath), image, k,
                   Accepted(SortByPosition(contours), minWidth, minHeight)[k])
    ensures Accepted(SortByPosition(contours), minWidth, minHeight)[k] in contours
  {
    var sorted := SortByPosition(contours);
    var accepted := Accepted(sorted, minWidth, minHeight);
    WrittenOfReadable(imagePath, outputFolder, image, contours, minWidth, minHeight);
    SavesForAt(outputFolder, Stem(imagePath), image, accepted, k);
    AcceptedMember(sorted, minWidth, minHeight, accepted[k]);
    assert accepted[k] in multiset(sorted);
  }

  /** When every box lies inside the `rows` x `cols` scan, each file holds
      exactly the `h` x `w` block of the scan under its box. */
  lemma CropsMatchScan<P>(imagePath: string, outputFolder: string, image: seq<seq<P>>, rows: nat, cols: nat,
                          contours: seq<Box>, minWidth: int, minHeight: int, k: nat)
    requires IsRaster(image, rows, cols)
    requires forall b :: b in contours ==> Inside(b, rows, cols)
    requires k < |Written(Expected(imagePath, outputFolder, Some(image), contours, minWidth, minHeight))|
    ensures HoldsBlock(Written(Expected(imagePath, outputFolder, Some(image), contours, minWidth, minHeight))[k],
                       image, rows, cols)
  {
    WrittenBoxFromContours(imagePath, outputFolder, image, contours, minWidth, minHeight, k);
    var b := Accepted(SortByPosition(contours), minWidth, minHeight)[k];
    SaveAsHoldsBlock(outputFolder, Stem(imagePath), image, rows, cols, k, b);
  }

  /** An unreadable scan, or one with no contour, writes nothing and ends
      normally. */
  lemma EarlyExitsWriteNothing<P>(imagePath: string, outputFolder: string, image: Option<seq<seq<P>>>,
                                  contours: seq<Box>, minWidth: int, minHeight: int)
    requires image.None? || contours == []
    ensures Written(Expected(imagePath, outputFolder, image, contours, minWidth, minHeight)) == []
    ensures Expected(imagePath, outputFolder, image, contours, minWidth, minHeight)
         == if image.None? then Unreadable else NoContours
  {
  }

  /** Minimum sizes that no box reaches give zero files, although contours
      were found. */
  lemma TooSmallWritesNothing<P>(imagePath: string, outputFolder: string, image: seq<seq<P>>,
                                 contours: seq<Box>, minWidth: int, minHeight: int)
    requires contours != []
    requires forall b :: b in contours ==> b.w < minWidth || b.h < minHeight
    ensures Expected(imagePath, outputFolder, Some(image), contours, minWidth, minHeight) == Cropped([])
  {
    var sorted := SortByPosition(contours);
    forall b | b in sorted ensures !BigEnough(b, minWidth, minHeight) {
      assert b in multiset(sorted);
    }
    AcceptedNone(sorted, minWidth, minHeight);
  }

  /** Output names depend on the scan's path only through its stem: two
      scans with the same stem write the same paths for the same indices. */
  lemma SameStemSamePaths<P>(path1: string, path2: string, outputFolder: string,
                             image1: Option<seq<seq<P>>>, contours1: seq<Box>,
                             image2: Option<seq<seq<P>>>, contours2: seq<Box>,
                             minWidth: int, minHeight: int, i: nat)
    requires Stem(path1) == Stem(path2)
    requires i < |Written(Expected(path1, outputFolder, image1, contours1, minWidth, minHeight))|
    requires i < |Written(Expected(path2, outputFolder, image2, contours2, minWidth, minHeight))|
    ensures Written(Expected(path1, outputFolder, image1, contours1, minWidth, minHeight))[i].path
         == Written(Expected(path2, outputFolder, image2, contours2, minWidth, minHeight))[i].path
  {
    WrittenPath(path1, outputFolder, image1, contours1, minWidth, minHeight, i);
    WrittenPath(path2, outputFolder, image2, contours2, minWidth, minHeight, i);
  }

  /** Two scans `<dir>/<name>.<ext1>` and `<dir>/<name>.<ext2>` (say
      "a.png" and "a.jpg") both write their first crop to
      `<output_folder>/<name>_0.jpg`, so the later one silently overwrites
      the earlier. */
  lemma SameNameOverwrites<P>(dir: string, name: string, ext1: string, ext2: string, outputFolder: string,
                              image1: seq<seq<P>>, contours1: seq<Box>,
                              image2: seq<seq<P>>, contours2: seq<Box>, minWidth: int, minHeight: int)
    requires name != [] && '/' !in name && '.' !in name
    requires '/' !in ext1 && '.' !in ext1 && '/' !in ext2 && '.' !in ext2
    requires Accepted(contours1, minWidth, minHeight) != []
    requires Accepted(contours2, minWidth, minHeight) != []
    ensures var w := Written(Expected(dir + "/" + name + "." + ext1, outputFolder, Some(image1), contours1, minWidth, minHeight));
            |w| > 0 && w[0].path == Join(outputFolder, name + "_0.jpg")
    ensures var w := Written(Expected(dir + "/" + name + "." + ext2, outputFolder, Some(image2), contours2, minWidth, minHeight));
            |w| > 0 && w[0].path == Join(outputFolder, name + "_0.jpg")
  {
    StemOfFile(dir, name, ext1);
    StemOfFile(dir, name, ext2);
    NumberedConsecutively(dir + "/" + name + "." + ext1, outputFolder, image1, contours1, minWidth, minHeight, 0);
    NumberedConsecutively(dir + "/" + name + "." + ext2, outputFolder, image2, contours2, minWidth, minHeight, 0);
    FirstOutputName(name);
  }
}
