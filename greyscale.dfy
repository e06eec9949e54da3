/**
 * The greyscale filters of lab0/lab.py: per-pixel maps, correlation with a
 * kernel and clipping into [0, 255].  Each filter fills a fresh pixel list
 * through set_pixel in an x-outer, y-inner double loop; the list is an
 * array here.
 */
module Greyscale {
  import opened Images

  /** Every pixel replaced by f of itself. */
  function MapPixels(im: Image<int>, f: int -> int): (r: Image<int>)
    ensures r.height == im.height && r.width == im.width && |r.pixels| == |im.pixels|
  {
    Image(im.height, im.width, seq(|im.pixels|, i requires 0 <= i < |im.pixels| => f(im.pixels[i])))
  }

  /** The pixel at (x, y) of the mapped image is f of the pixel at (x, y). */
  lemma MapPixelsAt(im: Image<int>, f: int -> int, x: int, y: int)
    requires Valid(im) && 0 <= x < im.width && 0 <= y < im.height
    ensures Valid(MapPixels(im, f))
    ensures 0 <= x + im.width * y < |im.pixels|
    ensures GetPixel(MapPixels(im, f), x, y) == f(GetPixel(im, x, y))
  {
    GetPixelInside(im, x, y);
  }

  /**
   * apply_per_pixel: a fresh image of the same size whose pixel at (x, y)
   * is func of the input's pixel at (x, y).
   */
  method ApplyPerPixel(im: Image<int>, f: int -> int) returns (r: Image<int>)
    requires Valid(im)
    ensures Valid(r)
    ensures r == MapPixels(im, f)
  {
    var w, h := im.width, im.height;
    ghost var target := MapPixels(im, f).pixels;
    var buf := new int[|im.pixels|](_ => 0);
    FillStart(target, 0, w);
    for x := 0 to w
      invariant FilledColumnMajor(buf[..], target, 0, w, x, 0)
    {
      for y := 0 to h
        invariant FilledColumnMajor(buf[..], target, 0, w, x, y)
      {
        GetPixelInside(im, x, y);
        var color := GetPixel(im, x, y);
        var newColor := f(color);
        FillStepColumnMajor(buf[..], target, 0, w, h, x, y);
        SetPixel(buf, w, x, y, newColor);
      }
      FillNextColumn(buf[..], target, 0, w, h, x);
    }
    FillDone(buf[..], target, 0, w, h);
    r := Image(h, w, buf[..]);
  }

  function Invert(c: int): int {
    255 - c
  }

  /** inverted: every pixel c becomes 255 - c. */
  method Inverted(im: Image<int>) returns (r: Image<int>)
    requires Valid(im)
    ensures Valid(r)
    ensures r == MapPixels(im, Invert)
  {
    r := ApplyPerPixel(im, Invert);
  }

  /** Inverting twice gives back the image. */
  lemma InvertTwice(im: Image<int>)
    ensures MapPixels(MapPixels(im, Invert), Invert) == im
  {
    var once := MapPixels(im, Invert);
    assert MapPixels(once, Invert).pixels == im.pixels;
  }

  /** The one-row example: [15, 75, 146, 195] inverts to [240, 180, 109, 60]. */
  lemma InvertExample()
    ensures MapPixels(Image(1, 4, [15, 75, 146, 195]), Invert) == Image(1, 4, [240, 180, 109, 60])
  {
    var r := MapPixels(Image(1, 4, [15, 75, 146, 195]), Invert);
    assert r.pixels == [240, 180, 109, 60];
  }

  // ---------------------------------------------------------------------
  // Correlation

  /** The sum over the first `z` entries of kernel row `i`, each times the clamped pixel it covers. */
  function RowSum(im: Image<int>, kernel: seq<seq<int>>, x: int, y: int, i: nat, z: nat): int
    requires Valid(im) && |im.pixels| > 0 && i < |kernel| && z <= |kernel[i]|
  {
    var d := |kernel| / 2;
    if z == 0 then 0
    else RowSum(im, kernel, x, y, i, z - 1) + GetPixelClamped(im, x - d + z - 1, y - d + i) * kernel[i][z - 1]
  }

  /** The sum over the first `i` kernel rows. */
  function KernelSum(im: Image<int>, kernel: seq<seq<int>>, x: int, y: int, i: nat): int
    requires Valid(im) && |im.pixels| > 0 && i <= |kernel|
  {
    if i == 0 then 0
    else KernelSum(im, kernel, x, y, i - 1) + RowSum(im, kernel, x, y, i - 1, |kernel[i - 1]|)
  }

  /** The rows of the correlated image: cell (x, y) is the whole kernel summed around (x, y). */
  function CorRows(im: Image<int>, kernel: seq<seq<int>>): seq<seq<int>>
    requires Valid(im)
  {
    seq(im.height, y requires 0 <= y < im.height =>
      seq(im.width, x requires 0 <= x < im.width =>
        IndexInside(im.width, im.height, x, y);
        KernelSum(im, kernel, x, y, |kernel|)))
  }

  /**
   * The correlated image: out(x, y) is the sum over kernel rows i and
   * columns z of kernel[i][z] times the clamped pixel at
   * (x - k + z, y - k + i), where k is half the number of kernel rows.
   */
  function Correlated(im: Image<int>, kernel: seq<seq<int>>): (r: Image<int>)
    requires Valid(im)
    ensures Valid(r) && r.height == im.height && r.width == im.width
  {
    FlattenLength(CorRows(im, kernel), im.width);
    Image(im.height, im.width, Flatten(CorRows(im, kernel)))
  }

  /** Pixel (x, y) of the correlation is the kernel sum at (x, y). */
  lemma CorrelatedAt(im: Image<int>, kernel: seq<seq<int>>, x: int, y: int)
    requires Valid(im) && 0 <= x < im.width && 0 <= y < im.height
    ensures 0 <= x + im.width * y < |im.pixels|
    ensures Correlated(im, kernel).pixels[x + im.width * y] == KernelSum(im, kernel, x, y, |kernel|)
  {
    IndexInside(im.width, im.height, x, y);
    FlattenAt(CorRows(im, kernel), im.width, x, y);
  }

  /** correlate: a fresh image holding the correlation; the input is not changed. */
  method Correlate(im: Image<int>, kernel: seq<seq<int>>) returns (r: Image<int>)
    requires Valid(im)
    ensures r == Correlated(im, kernel)
  {
    var w, h := im.width, im.height;
    ghost var target := Correlated(im, kernel).pixels;
    var buf := new int[|im.pixels|](_ => 0);
    FillStart(target, 0, w);
    for x := 0 to w
      invariant FilledColumnMajor(buf[..], target, 0, w, x, 0)
    {
      for y := 0 to h
        invariant FilledColumnMajor(buf[..], target, 0, w, x, y)
      {
        CorrelatePixel(buf, im, kernel, x, y);
      }
      FillNextColumn(buf[..], target, 0, w, h, x);
    }
    FillDone(buf[..], target, 0, w, h);
    r := Image(h, w, buf[..]);
  }

  /** One step of correlate's pixel loop: out(x, y) computed and stored. */
  method CorrelatePixel(buf: array<int>, im: Image<int>, kernel: seq<seq<int>>, x: int, y: int)
    requires Valid(im) && 0 <= x < im.width && 0 <= y < im.height
    requires FilledColumnMajor(buf[..], Correlated(im, kernel).pixels, 0, im.width, x, y)
    modifies buf
    ensures FilledColumnMajor(buf[..], Correlated(im, kernel).pixels, 0, im.width, x, y + 1)
  {
    CorrelatedAt(im, kernel, x, y);
    var cor := KernelAt(im, kernel, x, y);
    FillStepColumnMajor(buf[..], Correlated(im, kernel).pixels, 0, im.width, im.height, x, y);
    SetPixel(buf, im.width, x, y, cor);
  }

  /** The two inner loops of correlate: the kernel summed around (x, y), row by row. */
  method KernelAt(im: Image<int>, kernel: seq<seq<int>>, x: int, y: int) returns (cor: int)
    requires Valid(im) && |im.pixels| > 0
    ensures cor == KernelSum(im, kernel, x, y, |kernel|)
  {
    var dis := |kernel| / 2;
    cor := 0;
    for i := 0 to |kernel|
      invariant cor == KernelSum(im, kernel, x, y, i)
    {
      for z := 0 to |kernel[i]|
        invariant cor == KernelSum(im, kernel, x, y, i) + RowSum(im, kernel, x, y, i, z)
      {
        cor := cor + GetPixelClamped(im, x - dis + z, y - dis + i) * kernel[i][z];
      }
    }
  }

  /** One more entry of kernel row `i`: its weight times the clamped pixel it covers. */
  lemma RowSumStep(im: Image<int>, kernel: seq<seq<int>>, x: int, y: int, i: nat, z: nat)
    requires Valid(im) && |im.pixels| > 0 && i < |kernel| && z < |kernel[i]|
    ensures RowSum(im, kernel, x, y, i, z + 1)
      == RowSum(im, kernel, x, y, i, z) + GetPixelClamped(im, x - |kernel| / 2 + z, y - |kernel| / 2 + i) * kernel[i][z]
  {
  }

  /** Zero entries of a kernel row, from `a` up to `z`, add nothing. */
  lemma {:induction false} RowSumZeroEntries(im: Image<int>, kernel: seq<seq<int>>, x: int, y: int, i: nat, a: nat, z: nat)
    requires Valid(im) && |im.pixels| > 0 && i < |kernel| && a <= z <= |kernel[i]|
    requires forall j :: a <= j < z ==> kernel[i][j] == 0
    ensures RowSum(im, kernel, x, y, i, z) == RowSum(im, kernel, x, y, i, a)
  {
    if z > a {
      RowSumZeroEntries(im, kernel, x, y, i, a, z - 1);
      var d := |kernel| / 2;
      var w := kernel[i][z - 1];
      assert w == 0;
      assert GetPixelClamped(im, x - d + z - 1, y - d + i) * w == 0;
    }
  }

  /** The 3x3 kernel with a single 1 in the middle. */
  function IdentityKernel(): seq<seq<int>> {
    [[0, 0, 0], [0, 1, 0], [0, 0, 0]]
  }

  /** Around any (x, y), the identity kernel picks out the clamped pixel at (x, y). */
  lemma IdentityAt(im: Image<int>, x: int, y: int)
    requires Valid(im) && |im.pixels| > 0
    ensures KernelSum(im, IdentityKernel(), x, y, 3) == GetPixelClamped(im, x, y)
  {
    var k := IdentityKernel();
    var p := GetPixelClamped(im, x, y);
    RowSumZeroEntries(im, k, x, y, 0, 0, 3);
    RowSumZeroEntries(im, k, x, y, 2, 0, 3);
    RowSumZeroEntries(im, k, x, y, 1, 0, 1);
    RowSumZeroEntries(im, k, x, y, 1, 2, 3);
    assert |k| / 2 == 1 && k[1][1] == 1;
    RowSumStep(im, k, x, y, 1, 1);
    assert RowSum(im, k, x, y, 1, 2) == p;
    assert KernelSum(im, k, x, y, 1) == 0;
    assert KernelSum(im, k, x, y, 2) == p;
  }

  /** Correlating with the identity kernel leaves the image unchanged. */
  lemma CorrelateIdentity(im: Image<int>)
    requires Valid(im)
    ensures Correlated(im, IdentityKernel()) == im
  {
    var r := Correlated(im, IdentityKernel());
    forall i | 0 <= i < |im.pixels| ensures r.pixels[i] == im.pixels[i] {
      NonEmptyDims(im.width, im.height);
      Encode(im.width, im.height, i);
      var x, y := i % im.width, i / im.width;
      CorrelatedAt(im, IdentityKernel(), x, y);
      IdentityAt(im, x, y);
    }
  }

  /** The 5x5 kernel with a single 1 at row 2, column 0. */
  function ShiftKernel(): seq<seq<int>> {
    [[0, 0, 0, 0, 0], [0, 0, 0, 0, 0], [1, 0, 0, 0, 0], [0, 0, 0, 0, 0], [0, 0, 0, 0, 0]]
  }

  /** Around any (x, y), the shift kernel picks out the clamped pixel at (x - 2, y). */
  lemma ShiftAt(im: Image<int>, x: int, y: int)
    requires Valid(im) && |im.pixels| > 0
    ensures KernelSum(im, ShiftKernel(), x, y, 5) == GetPixelClamped(im, x - 2, y)
  {
    var k := ShiftKernel();
    var p := GetPixelClamped(im, x - 2, y);
    RowSumZeroEntries(im, k, x, y, 0, 0, 5);
    RowSumZeroEntries(im, k, x, y, 1, 0, 5);
    RowSumZeroEntries(im, k, x, y, 3, 0, 5);
    RowSumZeroEntries(im, k, x, y, 4, 0, 5);
    RowSumZeroEntries(im, k, x, y, 2, 1, 5);
    assert |k| / 2 == 2 && k[2][0] == 1;
    RowSumStep(im, k, x, y, 2, 0);
    assert RowSum(im, k, x, y, 2, 1) == p;
    assert KernelSum(im, k, x, y, 1) == 0;
    assert KernelSum(im, k, x, y, 2) == 0;
    assert KernelSum(im, k, x, y, 3) == p;
    assert KernelSum(im, k, x, y, 4) == p;
  }

  /** That kernel moves the content two columns right: out(x, y) is the clamped pixel at (x - 2, y). */
  lemma CorrelateShift(im: Image<int>, x: int, y: int)
    requires Valid(im) && 0 <= x < im.width && 0 <= y < im.height
    ensures 0 <= x + im.width * y < |im.pixels|
    ensures Correlated(im, ShiftKernel()).pixels[x + im.width * y] == GetPixelClamped(im, x - 2, y)
  {
    CorrelatedAt(im, ShiftKernel(), x, y);
    ShiftAt(im, x, y);
  }

  predicate AllZero(s: seq<int>) {
    forall i :: 0 <= i < |s| ==> s[i] == 0
  }

  lemma {:induction false} RowSumZero(im: Image<int>, kernel: seq<seq<int>>, x: int, y: int, i: nat, z: nat)
    requires Valid(im) && |im.pixels| > 0 && AllZero(im.pixels) && i < |kernel| && z <= |kernel[i]|
    ensures RowSum(im, kernel, x, y, i, z) == 0
  {
    if z > 0 {
      RowSumZero(im, kernel, x, y, i, z - 1);
    }
  }

  lemma {:induction false} KernelSumZero(im: Image<int>, kernel: seq<seq<int>>, x: int, y: int, i: nat)
    requires Valid(im) && |im.pixels| > 0 && AllZero(im.pixels) && i <= |kernel|
    ensures KernelSum(im, kernel, x, y, i) == 0
  {
    if i > 0 {
      KernelSumZero(im, kernel, x, y, i - 1);
      RowSumZero(im, kernel, x, y, i - 1, |kernel[i - 1]|);
    }
  }

  /** A black image correlates to a black image of the same size, whatever the kernel. */
  lemma CorrelateZero(im: Image<int>, kernel: seq<seq<int>>)
    requires Valid(im) && AllZero(im.pixels)
    ensures AllZero(Correlated(im, kernel).pixels)
    ensures AllZero(ClipAll(Correlated(im, kernel).pixels))
  {
    var r := Correlated(im, kernel);
    forall i | 0 <= i < |r.pixels| ensures r.pixels[i] == 0 {
      NonEmptyDims(im.width, im.height);
      Encode(im.width, im.height, i);
      CorrelatedAt(im, kernel, i % im.width, i / im.width);
      KernelSumZero(im, kernel, i % im.width, i / im.width, |kernel|);
    }
  }

  // ---------------------------------------------------------------------
  // Clipping

  /** A pixel clipped into [0, 255]. */
  function Clip(v: int): (r: int)
    ensures 0 <= r <= 255
    ensures 0 <= v <= 255 ==> r == v
    ensures v < 0 ==> r == 0
    ensures v > 255 ==> r == 255
  {
    if v < 0 then 0 else if v > 255 then 255 else v
  }

  function ClipAll(s: seq<int>): (r: seq<int>)
    ensures |r| == |s|
  {
    seq(|s|, i requires 0 <= i < |s| => Clip(s[i]))
  }

  /** Clipping twice clips once. */
  lemma ClipAllIdempotent(s: seq<int>)
    ensures ClipAll(ClipAll(s)) == ClipAll(s)
  {
  }

  /**
   * round_and_clip_image on integer pixels: every pixel clipped into
   * [0, 255] in place; rounding an integer leaves it unchanged.
   */
  method RoundAndClip(pixels: array<int>)
    modifies pixels
    ensures pixels[..] == ClipAll(old(pixels[..]))
  {
    for i := 0 to pixels.Length
      invariant pixels[..i] == ClipAll(old(pixels[..]))[..i]
      invariant pixels[i..] == old(pixels[..])[i..]
    {
      var v := pixels[i];
      if v < 0 {
        pixels[i] := 0;
      } else if v > 255 {
        pixels[i] := 255;
      }
      assert pixels[..i + 1] == pixels[..i] + [pixels[i]];
      assert ClipAll(old(pixels[..]))[..i + 1] == ClipAll(old(pixels[..]))[..i] + [Clip(old(pixels[..])[i])];
    }
  }
}
