/**
 * The colour filters of lab1/lab.py: a colour image's pixels are (red,
 * green, blue) triples; a greyscale filter is lifted to colour images by
 * splitting the channels, filtering each and combining them again.
 */
module Colour {
  import opened Images

  type Rgb = (int, int, int)

  /** Channel k (0 red, 1 green, 2 blue) of one pixel. */
  function Component(p: Rgb, k: nat): int
    requires k < 3
  {
    if k == 0 then p.0 else if k == 1 then p.1 else p.2
  }

  /** The greyscale image of one channel. */
  function Channel(im: Image<Rgb>, k: nat): (r: Image<int>)
    requires k < 3
    ensures r.height == im.height && r.width == im.width && |r.pixels| == |im.pixels|
  {
    Image(im.height, im.width, seq(|im.pixels|, i requires 0 <= i < |im.pixels| => Component(im.pixels[i], k)))
  }

  predicate SameShape<P, Q>(a: Image<P>, b: Image<Q>) {
    Valid(a) && Valid(b) && a.height == b.height && a.width == b.width
  }

  /** The colour image whose pixel i is made of pixel i of each channel. */
  function Combined(red: Image<int>, green: Image<int>, blue: Image<int>): (r: Image<Rgb>)
    requires SameShape(red, green) && SameShape(red, blue)
    ensures SameShape(r, red)
  {
    Image(red.height, red.width,
      seq(|red.pixels|, i requires 0 <= i < |red.pixels| => (red.pixels[i], green.pixels[i], blue.pixels[i])))
  }

  /** Combining the three channels of an image gives the image back. */
  lemma CombineSplit(im: Image<Rgb>)
    requires Valid(im)
    ensures Combined(Channel(im, 0), Channel(im, 1), Channel(im, 2)) == im
  {
    var r := Combined(Channel(im, 0), Channel(im, 1), Channel(im, 2));
    assert r.pixels == im.pixels;
  }

  /** Splitting a combined image gives back the channels it was made of. */
  lemma SplitCombine(red: Image<int>, green: Image<int>, blue: Image<int>)
    requires SameShape(red, green) && SameShape(red, blue)
    ensures var c := Combined(red, green, blue);
            Channel(c, 0) == red && Channel(c, 1) == green && Channel(c, 2) == blue
  {
    var c := Combined(red, green, blue);
    assert Channel(c, 0).pixels == red.pixels;
    assert Channel(c, 1).pixels == green.pixels;
    assert Channel(c, 2).pixels == blue.pixels;
  }

  /**
   * spilt_color: three fresh greyscale images of the image's size, filled
   * in an x-outer, y-inner loop with each pixel's red, green and blue value.
   */
  method SplitColor(im: Image<Rgb>) returns (red: Image<int>, green: Image<int>, blue: Image<int>)
    requires Valid(im)
    ensures red == Channel(im, 0) && green == Channel(im, 1) && blue == Channel(im, 2)
  {
    var w, h := im.width, im.height;
    ghost var tr, tg, tb := Channel(im, 0).pixels, Channel(im, 1).pixels, Channel(im, 2).pixels;
    var rb := new int[|im.pixels|](_ => 0);
    var gb := new int[|im.pixels|](_ => 0);
    var bb := new int[|im.pixels|](_ => 0);
    FillStart(tr, 0, w);
    FillStart(tg, 0, w);
    FillStart(tb, 0, w);
    for x := 0 to w
      invariant FilledColumnMajor(rb[..], tr, 0, w, x, 0)
      invariant FilledColumnMajor(gb[..], tg, 0, w, x, 0)
      invariant FilledColumnMajor(bb[..], tb, 0, w, x, 0)
    {
      for y := 0 to h
        invariant FilledColumnMajor(rb[..], tr, 0, w, x, y)
        invariant FilledColumnMajor(gb[..], tg, 0, w, x, y)
        invariant FilledColumnMajor(bb[..], tb, 0, w, x, y)
      {
        SplitPixel(rb, im, 0, x, y);
        SplitPixel(gb, im, 1, x, y);
        SplitPixel(bb, im, 2, x, y);
      }
      FillNextColumn(rb[..], tr, 0, w, h, x);
      FillNextColumn(gb[..], tg, 0, w, h, x);
      FillNextColumn(bb[..], tb, 0, w, h, x);
    }
    FillDone(rb[..], tr, 0, w, h);
    FillDone(gb[..], tg, 0, w, h);
    FillDone(bb[..], tb, 0, w, h);
    red, green, blue := Image(h, w, rb[..]), Image(h, w, gb[..]), Image(h, w, bb[..]);
  }

  /** One write of split_color's inner loop: channel k of pixel (x, y) goes to the same place in buf. */
  method SplitPixel(buf: array<int>, im: Image<Rgb>, k: nat, x: int, y: int)
    requires Valid(im) && k < 3 && 0 <= x < im.width && 0 <= y < im.height
    requires FilledColumnMajor(buf[..], Channel(im, k).pixels, 0, im.width, x, y)
    modifies buf
    ensures FilledColumnMajor(buf[..], Channel(im, k).pixels, 0, im.width, x, y + 1)
  {
    GetPixelInside(im, x, y);
    FillStepColumnMajor(buf[..], Channel(im, k).pixels, 0, im.width, im.height, x, y);
    SetPixel(buf, im.width, x, y, Component(GetPixel(im, x, y), k));
  }

  /** The combined pixel at an in-range (x, y) is made of the channels' pixels there. */
  lemma CombinedAt(red: Image<int>, green: Image<int>, blue: Image<int>, x: int, y: int)
    requires SameShape(red, green) && SameShape(red, blue)
    requires 0 <= x < red.width && 0 <= y < red.height
    ensures 0 <= x + red.width * y < |red.pixels| == |green.pixels| == |blue.pixels|
    ensures Combined(red, green, blue).pixels[x + red.width * y]
         == (GetPixel(red, x, y), GetPixel(green, x, y), GetPixel(blue, x, y))
  {
    GetPixelInside(red, x, y);
    GetPixelInside(green, x, y);
    GetPixelInside(blue, x, y);
  }

  lemma PrefixStep<T>(s: seq<T>, k: int)
    requires 0 <= k < |s|
    ensures s[..k + 1] == s[..k] + [s[k]]
  {
  }

  /**
   * combine_image: appends, row by row and left to right, the triple of
   * the three channels' pixels at each position.
   */
  method CombineImage(red: Image<int>, green: Image<int>, blue: Image<int>) returns (r: Image<Rgb>)
    requires SameShape(red, green) && SameShape(red, blue)
    ensures r == Combined(red, green, blue)
  {
    var w, h := red.width, red.height;
    ghost var target := Combined(red, green, blue).pixels;
    var pixels: seq<Rgb> := [];
    for y := 0 to h
      invariant w * y <= |target| && pixels == target[..w * y]
    {
      MulMono(w, y + 1, h);
      assert w * (y + 1) == w * y + w;
      for x := 0 to w
        invariant w * y + w <= |target|
        invariant pixels == target[..w * y + x]
      {
        CombinedAt(red, green, blue, x, y);
        pixels := pixels + [(GetPixel(red, x, y), GetPixel(green, x, y), GetPixel(blue, x, y))];
        PrefixStep(target, w * y + x);
      }
      assert w * y + w == w * (y + 1);
    }
    assert target[..w * h] == target;
    r := Image(h, w, pixels);
  }

  /** A greyscale filter that keeps the size of well-formed images. */
  ghost predicate KeepsShape(filt: Image<int> -> Image<int>) {
    forall g: Image<int> :: Valid(g) ==> SameShape(filt(g), g)
  }

  /** What color_filter_from_greyscale_filter(filt) computes on an image. */
  function ColourFiltered(filt: Image<int> -> Image<int>, im: Image<Rgb>): Image<Rgb>
    requires Valid(im) && KeepsShape(filt)
  {
    Combined(filt(Channel(im, 0)), filt(Channel(im, 1)), filt(Channel(im, 2)))
  }

  /**
   * color_filter_from_greyscale_filter: the colour filter splits the image,
   * filters each channel and combines the three results.
   */
  method ColorFilter(filt: Image<int> -> Image<int>, im: Image<Rgb>) returns (r: Image<Rgb>)
    requires Valid(im) && KeepsShape(filt)
    ensures r == ColourFiltered(filt, im)
  {
    var red, green, blue := SplitColor(im);
    r := CombineImage(filt(red), filt(green), filt(blue));
  }

  /** Each channel of the filtered image is the filter applied to that channel alone. */
  lemma ColourFilteredChannels(filt: Image<int> -> Image<int>, im: Image<Rgb>, k: nat)
    requires Valid(im) && KeepsShape(filt) && k < 3
    ensures Channel(ColourFiltered(filt, im), k) == filt(Channel(im, k))
  {
    SplitCombine(filt(Channel(im, 0)), filt(Channel(im, 1)), filt(Channel(im, 2)));
  }

  /** Lifting the identity filter gives the identity on colour images. */
  lemma ColourFilteredIdentity(im: Image<Rgb>)
    requires Valid(im)
    ensures ColourFiltered(g => g, im) == im
  {
    CombineSplit(im);
  }

  // ---------------------------------------------------------------------
  // Filter cascades

  /** The filters applied in turn, first to last. */
  function Cascade<T>(filters: seq<T -> T>, im: T): T {
    if filters == [] then im else filters[|filters| - 1](Cascade(filters[..|filters| - 1], im))
  }

  /** filter_cascade: the filter that runs each filter of the list on the previous result. */
  method FilterCascade<T>(filters: seq<T -> T>, im: T) returns (r: T)
    ensures r == Cascade(filters, im)
  {
    r := im;
    for i := 0 to |filters|
      invariant r == Cascade(filters[..i], im)
    {
      r := filters[i](r);
      assert filters[..i + 1][..i] == filters[..i];
    }
    assert filters[..|filters|] == filters;
  }

  /** A cascade of two lists runs the first list, then the second. */
  lemma {:induction false} CascadeAppend<T>(fs: seq<T -> T>, gs: seq<T -> T>, im: T)
    ensures Cascade(fs + gs, im) == Cascade(gs, Cascade(fs, im))
  {
    if gs == [] {
      assert fs + gs == fs;
    } else {
      var n := |gs|;
      assert (fs + gs)[..|fs + gs| - 1] == fs + gs[..n - 1];
      CascadeAppend(fs, gs[..n - 1], im);
    }
  }

  /** The first filter of the list is applied first. */
  lemma CascadeFirst<T>(f: T -> T, fs: seq<T -> T>, im: T)
    ensures Cascade([f] + fs, im) == Cascade(fs, f(im))
  {
    CascadeAppend([f], fs, im);
    assert [f][..0] == [];
  }

  // ---------------------------------------------------------------------
  // Thresholds

  /** A pixel above `high` becomes 255, one below `low` 0, any other keeps its value. */
  function Threshold(v: int, low: int, high: int): (r: int)
    ensures v > high ==> r == 255
    ensures v <= high && v < low ==> r == 0
    ensures low <= v <= high ==> r == v
  {
    if v > high then 255 else if v < low then 0 else v
  }

  function Thresholded(im: Image<int>, low: int, high: int): (r: Image<int>)
    ensures r.height == im.height && r.width == im.width && |r.pixels| == |im.pixels|
  {
    Image(im.height, im.width, seq(|im.pixels|, i requires 0 <= i < |im.pixels| => Threshold(im.pixels[i], low, high)))
  }

  /** With 0 <= low <= high <= 255, thresholding twice thresholds once. */
  lemma ThresholdIdempotent(im: Image<int>, low: int, high: int)
    requires 0 <= low <= high <= 255
    ensures Thresholded(Thresholded(im, low, high), low, high) == Thresholded(im, low, high)
  {
    var once := Thresholded(im, low, high);
    forall i | 0 <= i < |im.pixels| ensures Threshold(once.pixels[i], low, high) == once.pixels[i] {
      var v := im.pixels[i];
      if v > high {
        assert once.pixels[i] == 255;
      } else if v < low {
        assert once.pixels[i] == 0;
      }
    }
  }

  /** threshold_Helper: a fresh image, filled row by row, holding each pixel thresholded. */
  method ThresholdHelper(im: Image<int>, low: int, high: int) returns (r: Image<int>)
    requires Valid(im)
    ensures r == Thresholded(im, low, high)
  {
    var w, h := im.width, im.height;
    ghost var target := Thresholded(im, low, high).pixels;
    var buf := new int[|im.pixels|](_ => 0);
    FillStart(target, 0, w);
    for y := 0 to h
      invariant FilledRowMajor(buf[..], target, 0, w, 0, y)
    {
      for x := 0 to w
        invariant FilledRowMajor(buf[..], target, 0, w, x, y)
      {
        GetPixelInside(im, x, y);
        FillStepRowMajor(buf[..], target, 0, w, h, x, y);
        if GetPixel(im, x, y) > high {
          SetPixel(buf, w, x, y, 255);
        } else if GetPixel(im, x, y) < low {
          SetPixel(buf, w, x, y, 0);
        } else {
          SetPixel(buf, w, x, y, GetPixel(im, x, y));
        }
      }
      FillNextRow(buf[..], target, 0, w, h, y);
    }
    FillDone(buf[..], target, 0, w, h);
    r := Image(h, w, buf[..]);
  }

  /** threshold: each channel thresholded on its own. */
  method ThresholdColour(im: Image<Rgb>, low: int, high: int) returns (r: Image<Rgb>)
    requires Valid(im)
    ensures r == Combined(Thresholded(Channel(im, 0), low, high),
                          Thresholded(Channel(im, 1), low, high),
                          Thresholded(Channel(im, 2), low, high))
  {
    var red, green, blue := SplitColor(im);
    red := ThresholdHelper(red, low, high);
    green := ThresholdHelper(green, low, high);
    blue := ThresholdHelper(blue, low, high);
    r := CombineImage(red, green, blue);
  }
}
