/** The test-scan generator `create_test_scan` (utils/create_test_image.py,
    and its verbatim copy create_test_image.py): `n` coloured photos laid
    out row by row on a square grid, pasted onto a white 2000 x 2800
    canvas. The canvas is a class over a two-dimensional array of colours
    that `Paste` updates in place; saving it as a JPEG and creating the
    output folder are not modelled. */
module TestScan {
  import opened Wrappers
  import opened Text
  import opened Paths

  // ---------------------------------------------------------------------
  // Constants and photos
  // ---------------------------------------------------------------------

  const CanvasWidth: nat := 2000
  const CanvasHeight: nat := 2800
  const PhotoWidth: nat := 800
  const PhotoHeight: nat := 1200
  const Margin: nat := 100

  /** The PIL colour names the generator uses. */
  datatype Color = White | Blue | Red | Green | Yellow | Purple | Orange | Pink | Cyan

  /** The colour cycle of the photos. */
  const Colors: seq<Color> := [Blue, Red, Green, Yellow, Purple, Orange, Pink, Cyan]

  /** A rectangle by its corners: it covers columns `x1 .. x2-1` and rows
      `y1 .. y2-1`. */
  datatype Bounds = Bounds(x1: int, y1: int, x2: int, y2: int)

  datatype Photo = Photo(bounds: Bounds, color: Color)

  predicate Covers(b: Bounds, x: int, y: int) {
    b.x1 <= x < b.x2 && b.y1 <= y < b.y2
  }

  /** There is at least a margin of blank space between the two rectangles,
      side by side or one above the other. */
  predicate Separated(a: Bounds, b: Bounds) {
    a.x2 + Margin <= b.x1 || b.x2 + Margin <= a.x1 || a.y2 + Margin <= b.y1 || b.y2 + Margin <= a.y1
  }

  // ---------------------------------------------------------------------
  // Integer arithmetic
  // ---------------------------------------------------------------------

  lemma SquareMonotone(a: nat, b: nat)
    ensures a <= b ==> a * a <= b * b
  {
    if a <= b {
      assert a * a <= a * b;
      assert a * b <= b * b;
    }
  }

  lemma MulSign(a: int, g: int)
    requires g >= 0
    ensures a >= 1 ==> a * g >= g
    ensures a <= -1 ==> a * g <= -g
  {
    if a >= 1 {
      assert a * g == (a - 1) * g + g;
    } else if a <= -1 {
      assert a * g == (a + 1) * g - g;
    }
  }

  lemma MulSub(a: int, b: int, g: int)
    ensures (a - b) * g == a * g - b * g
  {
  }

  /** Quotient and remainder are the only ones that rebuild `n`. */
  lemma DivModUnique(n: nat, g: nat, q: nat, r: nat)
    requires 0 <= r < g && n == q * g + r
    ensures n / g == q && n % g == r
  {
    var q', r' := n / g, n % g;
    assert n == q' * g + r';
    MulSub(q, q', g);
    MulSign(q - q', g);
  }

  /** `math.ceil(math.sqrt(n))`, computed exactly on integers by searching
      upwards from `g`. */
  function CeilSqrtFrom(n: nat, g: nat): (r: nat)
    requires g == 0 || (g - 1) * (g - 1) < n
    ensures r * r >= n
    ensures r == 0 || (r - 1) * (r - 1) < n
    decreases n - g
  {
    if g * g >= n then g
    else
      SquareMonotone(n, g);
      CeilSqrtFrom(n, g + 1)
  }

  /** The grid side: the least `g` whose square holds `n` cells. */
  function CeilSqrt(n: nat): (g: nat)
    ensures g * g >= n
    ensures g == 0 || (g - 1) * (g - 1) < n
  {
    CeilSqrtFrom(n, 0)
  }

  /** No smaller square holds `n` cells. */
  lemma CeilSqrtLeast(n: nat, h: nat)
    requires h * h >= n
    ensures CeilSqrt(n) <= h
  {
    var g := CeilSqrt(n);
    if g > 0 {
      SquareMonotone(h, g - 1);
    }
  }

  // ---------------------------------------------------------------------
  // Layout
  // ---------------------------------------------------------------------

  /** Photo `i` of a grid of side `g`: row `i / g`, column `i % g`, with a
      margin before each photo, and the `i`-th colour of the cycle. */
  function PhotoAt(i: nat, g: nat): Photo
    requires g > 0
  {
    var row := i / g;
    var col := i % g;
    var x1 := Margin + col * (PhotoWidth + Margin);
    var y1 := Margin + row * (PhotoHeight + Margin);
    Photo(Bounds(x1, y1, x1 + PhotoWidth, y1 + PhotoHeight), Colors[i % |Colors|])
  }

  /** The photos placed: `min(n, g*g)` of them, in index order. */
  function Layout(n: nat, g: nat): (photos: seq<Photo>)
    ensures |photos| == Min(n, g * g)
    ensures forall i :: 0 <= i < |photos| ==> g > 0 && photos[i] == PhotoAt(i, g)
  {
    seq(Min(n, g * g), i requires 0 <= i < Min(n, g * g) => PhotoAt(i, g))
  }

  /** The first loop of `create_test_scan`: append one photo per index. */
  method LayoutPhotos(numPhotos: nat, gridSize: nat) returns (photos: seq<Photo>)
    ensures photos == Layout(numPhotos, gridSize)
  {
    photos := [];
    var count := Min(numPhotos, gridSize * gridSize);
    for i := 0 to count
      invariant |photos| == i
      invariant forall j :: 0 <= j < i ==> gridSize > 0 && photos[j] == PhotoAt(j, gridSize)
    {
      var row := i / gridSize;
      var col := i % gridSize;
      var x1 := Margin + col * (PhotoWidth + Margin);
      var y1 := Margin + row * (PhotoHeight + Margin);
      var x2 := x1 + PhotoWidth;
      var y2 := y1 + PhotoHeight;
      photos := photos + [Photo(Bounds(x1, y1, x2, y2), Colors[i % |Colors|])];
    }
  }

  /** With the grid side `math.ceil(math.sqrt(n))` every one of the `n`
      photos is placed. */
  lemma AllPhotosPlaced(n: nat)
    ensures |Layout(n, CeilSqrt(n))| == n
  {
  }

  /** Every photo is 800 pixels wide and 1200 tall and takes the colours in
      turn. */
  lemma PhotoShape(i: nat, g: nat)
    requires g > 0
    ensures PhotoAt(i, g).bounds.x2 - PhotoAt(i, g).bounds.x1 == PhotoWidth
    ensures PhotoAt(i, g).bounds.y2 - PhotoAt(i, g).bounds.y1 == PhotoHeight
    ensures PhotoAt(i, g).color == Colors[i % 8]
  {
  }

  /** Two different photos of the grid are at least a margin apart. */
  lemma PhotosSeparated(i: nat, j: nat, g: nat)
    requires g > 0 && i != j
    ensures Separated(PhotoAt(i, g).bounds, PhotoAt(j, g).bounds)
  {
    var ri, ci, rj, cj := i / g, i % g, j / g, j % g;
    assert i == ri * g + ci;
    assert j == rj * g + cj;
    if ci < cj {
      assert ci + 1 <= cj;
    } else if cj < ci {
      assert cj + 1 <= ci;
    } else if ri < rj {
      assert ri + 1 <= rj;
    } else {
      assert rj + 1 <= ri;
    }
  }

  /** The next photo of a row starts exactly one margin to the right of the
      previous one, and the photo below starts exactly one margin lower. */
  lemma NeighboursOneMarginApart(i: nat, g: nat)
    requires g > 0
    ensures i % g + 1 < g ==>
              PhotoAt(i + 1, g).bounds.x1 == PhotoAt(i, g).bounds.x2 + Margin &&
              PhotoAt(i + 1, g).bounds.y1 == PhotoAt(i, g).bounds.y1
    ensures PhotoAt(i + g, g).bounds.y1 == PhotoAt(i, g).bounds.y2 + Margin &&
            PhotoAt(i + g, g).bounds.x1 == PhotoAt(i, g).bounds.x1
  {
    var q, r := i / g, i % g;
    assert i == q * g + r;
    if r + 1 < g {
      DivModUnique(i + 1, g, q, r + 1);
    }
    MulSub(q + 1, 1, g);
    DivModUnique(i + g, g, q + 1, r);
  }

  /** Up to four photos all lie on the canvas. */
  lemma SmallScansFit(n: nat, i: nat)
    requires n <= 4 && i < n
    ensures CeilSqrt(n) > 0
    ensures var b := PhotoAt(i, CeilSqrt(n)).bounds;
            0 <= b.x1 && b.x2 <= CanvasWidth && 0 <= b.y1 && b.y2 <= CanvasHeight
  {
    CeilSqrtLeast(n, 2);
  }

  /** From five photos on, the grid has three columns and the third photo
      runs past the right edge of the canvas (pasting clips it). */
  lemma LargeScansOverflow(n: nat)
    requires n >= 5
    ensures CeilSqrt(n) >= 3
    ensures PhotoAt(2, CeilSqrt(n)).bounds.x2 > CanvasWidth
  {
    var g := CeilSqrt(n);
    SquareMonotone(g, 2);
    DivModUnique(2, g, 0, 2);
  }

  // ---------------------------------------------------------------------
  // Painting
  // ---------------------------------------------------------------------

  /** The colour of pixel `(x, y)` after pasting `photos` in order over a
      pixel of colour `background`: the last photo covering it wins. */
  function Paint(photos: seq<Photo>, x: int, y: int, background: Color): Color {
    if photos == [] then background
    else
      var last := photos[|photos| - 1];
      if Covers(last.bounds, x, y) then last.color
      else Paint(photos[..|photos| - 1], x, y, background)
  }

  /** Photos that are pairwise separated. */
  predicate PairwiseSeparated(photos: seq<Photo>) {
    forall i, j :: 0 <= i < |photos| && 0 <= j < |photos| && i != j ==>
      Separated(photos[i].bounds, photos[j].bounds)
  }

  /** Over pairwise separated photos, a pixel takes the colour of the photo
      covering it, and keeps the background when there is none. */
  lemma {:induction false} PaintSeparated(photos: seq<Photo>, x: int, y: int, background: Color, k: nat)
    requires PairwiseSeparated(photos)
    ensures k < |photos| && Covers(photos[k].bounds, x, y) ==> Paint(photos, x, y, background) == photos[k].color
    ensures (forall i :: 0 <= i < |photos| ==> !Covers(photos[i].bounds, x, y)) ==>
              Paint(photos, x, y, background) == background
  {
    if photos != [] {
      var n := |photos| - 1;
      var init := photos[..n];
      assert PairwiseSeparated(init) by {
        forall i, j | 0 <= i < |init| && 0 <= j < |init| && i != j
          ensures Separated(init[i].bounds, init[j].bounds)
        {
          assert init[i] == photos[i] && init[j] == photos[j];
        }
      }
      PaintSeparated(init, x, y, background, k);
      if k < n && Covers(photos[k].bounds, x, y) {
        assert Separated(photos[k].bounds, photos[n].bounds);
        assert init[k] == photos[k];
      }
      if forall i :: 0 <= i < |photos| ==> !Covers(photos[i].bounds, x, y) {
        assert !Covers(photos[n].bounds, x, y);
        forall i | 0 <= i < |init| ensures !Covers(init[i].bounds, x, y) {
          assert init[i] == photos[i];
        }
      }
    }
  }

  /** The grid layout is pairwise separated. */
  lemma LayoutSeparated(n: nat, g: nat)
    ensures PairwiseSeparated(Layout(n, g))
  {
    var photos := Layout(n, g);
    forall i, j | 0 <= i < |photos| && 0 <= j < |photos| && i != j
      ensures Separated(photos[i].bounds, photos[j].bounds)
    {
      PhotosSeparated(i, j, g);
    }
  }

  // ---------------------------------------------------------------------
  // The canvas
  // ---------------------------------------------------------------------

  function Clamp(v: int, lo: int, hi: int): (r: int)
    requires lo <= hi
    ensures lo <= r <= hi
  {
    if v < lo then lo else if v > hi then hi else v
  }

  /** A PIL RGB image: `pixels[y, x]` is the colour at column `x` of row
      `y`. */
  class Canvas {
    const width: nat
    const height: nat
    const pixels: array2<Color>

    ghost predicate Valid()
      reads this
    {
      pixels.Length0 == height && pixels.Length1 == width
    }

    /** `Image.new("RGB", (width, height), color)`. */
    constructor (width: nat, height: nat, color: Color)
      ensures this.width == width && this.height == height
      ensures Valid() && fresh(pixels)
      ensures forall y, x :: 0 <= y < height && 0 <= x < width ==> pixels[y, x] == color
    {
      this.width := width;
      this.height := height;
      pixels := new Color[height, width]((y, x) => color);
    }

    /** `paste` of a block of solid `color` whose top-left corner is
        `(b.x1, b.y1)` and whose size is `(b.x2 - b.x1, b.y2 - b.y1)`: the
        pixels it covers, clipped to the canvas, take the colour and every
        other pixel keeps its colour. */
    method Paste(b: Bounds, color: Color)
      requires Valid()
      modifies pixels
      ensures forall y, x :: 0 <= y < height && 0 <= x < width ==>
                pixels[y, x] == if Covers(b, x, y) then color else old(pixels[y, x])
    {
      var yLo := Clamp(b.y1, 0, height);
      var yHi := Clamp(b.y2, yLo, height);
      var xLo := Clamp(b.x1, 0, width);
      var xHi := Clamp(b.x2, xLo, width);
      var y := yLo;
      while y < yHi
        invariant yLo <= y <= yHi
        invariant forall r, c :: 0 <= r < height && 0 <= c < width ==>
                    pixels[r, c] == if yLo <= r < y && xLo <= c < xHi then color else old(pixels[r, c])
      {
        var x := xLo;
        while x < xHi
          invariant xLo <= x <= xHi
          invariant forall r, c :: 0 <= r < height && 0 <= c < width ==>
                      pixels[r, c] == if (yLo <= r < y && xLo <= c < xHi) || (r == y && xLo <= c < x)
                                      then color else old(pixels[r, c])
        {
          pixels[y, x] := color;
          x := x + 1;
        }
        y := y + 1;
      }
    }

    /** The second loop of `create_test_scan`: paste every photo in turn. */
    method DrawPhotos(photos: seq<Photo>)
      requires Valid()
      modifies pixels
      ensures forall y, x :: 0 <= y < height && 0 <= x < width ==>
                pixels[y, x] == Paint(photos, x, y, old(pixels[y, x]))
    {
      for i := 0 to |photos|
        invariant forall y, x :: 0 <= y < height && 0 <= x < width ==>
                    pixels[y, x] == Paint(photos[..i], x, y, old(pixels[y, x]))
      {
        assert photos[..i + 1][..i] == photos[..i];
        Paste(photos[i].bounds, photos[i].color);
      }
      assert photos[..|photos|] == photos;
    }
  }

  // ---------------------------------------------------------------------
  // create_test_scan
  // ---------------------------------------------------------------------

  /** `f"test_{num_photos}_scan.jpg"`. */
  function DefaultName(n: nat): string {
    "test_" + NatToString(n) + "_scan.jpg"
  }

  /** The colour of pixel `(x, y)` of the scan generated for `n` photos. */
  function ScanPixel(n: nat, x: int, y: int): Color {
    Paint(Layout(n, CeilSqrt(n)), x, y, White)
  }

  /** `create_test_scan(num_photos, output_path, output_folder)`: `None`
      and no canvas for a negative count (where `math.sqrt` raises
      `ValueError`); otherwise the path the scan is saved to and the canvas
      drawn. */
  method CreateTestScan(numPhotos: int, outputPath: Option<string>, outputFolder: string)
    returns (fullPath: Option<string>, background: Canvas?)
    ensures numPhotos < 0 ==> fullPath.None? && background == null
    ensures numPhotos >= 0 ==>
              fullPath == Some(Join(outputFolder, outputPath.GetOr(DefaultName(numPhotos)))) &&
              background != null && fresh(background) && fresh(background.pixels) && background.Valid() &&
              background.width == CanvasWidth && background.height == CanvasHeight &&
              forall y, x :: 0 <= y < CanvasHeight && 0 <= x < CanvasWidth ==>
                background.pixels[y, x] == ScanPixel(numPhotos, x, y)
  {
    if numPhotos < 0 {
      return None, null;
    }
    var gridSize := CeilSqrt(numPhotos);
    background := new Canvas(CanvasWidth, CanvasHeight, White);
    var photos := LayoutPhotos(numPhotos, gridSize);
    background.DrawPhotos(photos);
    var name: string;
    if outputPath.None? {
      name := DefaultName(numPhotos);
    } else {
      name := outputPath.value;
    }
    fullPath := Some(Join(outputFolder, name));
  }

  /** In the generated scan, a pixel covered by photo `k` has the `k`-th
      colour of the cycle, and a pixel covered by no photo is white. */
  lemma ScanColors(n: nat, x: int, y: int, k: nat)
    ensures k < n && n > 0 && Covers(PhotoAt(k, CeilSqrt(n)).bounds, x, y) ==> ScanPixel(n, x, y) == Colors[k % 8]
    ensures (forall i :: 0 <= i < n && n > 0 ==> !Covers(PhotoAt(i, CeilSqrt(n)).bounds, x, y)) ==>
              ScanPixel(n, x, y) == White
  {
    var g := CeilSqrt(n);
    var photos := Layout(n, g);
    LayoutSeparated(n, g);
    PaintSeparated(photos, x, y, White, k);
  }

  /** The default file name depends on the count only, and two counts give
      two names. */
  lemma DefaultNamesDiffer(a: nat, b: nat)
    requires a != b
    ensures DefaultName(a) != DefaultName(b)
  {
    var da, db := NatToString(a), NatToString(b);
    NatToStringInjective(a, b);
    var na, nb := DefaultName(a), DefaultName(b);
    if |na| == |nb| {
      assert na[5..|na| - 9] == da;
      assert nb[5..|nb| - 9] == db;
    }
  }
}
