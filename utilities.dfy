/** `utilities.py`: the brightness threshold mask `get_filter` and the
    file-name filter of `load_images`. */
module Utilities {
  import opened Text
  import OsPath

  /** One pixel: its channel values (R, G, B and possibly alpha). */
  type Pixel = seq<int>
  /** A decoded image as `np.array(image)` holds it: rows, then columns, then channels. */
  type Image = seq<seq<Pixel>>
  /** One boolean per pixel, same height and width as the image. */
  type Mask = seq<seq<bool>>

  /** The shape `np.array` gives an image: every row equally wide and every
      pixel with the same, non-zero, number of channels. */
  predicate IsPixelGrid(m: Image)
  {
    && (forall r :: 0 <= r < |m| ==> |m[r]| == |m[0]|)
    && (forall r, c :: 0 <= r < |m| && 0 <= c < |m[r]| ==> 1 <= |m[r][c]| == |m[0][0]|)
  }

  /** The channels that `M[:,:,0:3]` keeps: the first three, or all of them
      when there are fewer. */
  function Rgb(p: Pixel): (q: Pixel)
    ensures |q| == if |p| < 3 then |p| else 3
    ensures forall k :: 0 <= k < |q| ==> q[k] == p[k]
  {
    if |p| < 3 then p else p[..3]
  }

  /** The least element of a non-empty sequence, as `np.min` reduces one axis. */
  function SeqMin(s: seq<int>): (m: int)
    requires |s| > 0
    ensures m in s
    ensures forall k :: 0 <= k < |s| ==> m <= s[k]
  {
    if |s| == 1 then s[0]
    else
      var t := SeqMin(s[1..]);
      if s[0] <= t then s[0] else t
  }

  /** The darkest of a pixel's first three channels (of all its channels
      when it has fewer). */
  function MinRgb(p: Pixel): (m: int)
    requires |p| >= 1
    ensures exists k :: 0 <= k < |Rgb(p)| && p[k] == m
    ensures forall k :: 0 <= k < |Rgb(p)| ==> m <= p[k]
  {
    SeqMin(Rgb(p))
  }

  /** The minimum of the kept channels is below `threshold` exactly when one
      of those channels is. */
  lemma MinRgbBelow(p: Pixel, threshold: int)
    requires |p| >= 1
    ensures MinRgb(p) < threshold <==> exists k :: 0 <= k < |Rgb(p)| && p[k] < threshold
  {
    var q := Rgb(p);
    if MinRgb(p) < threshold {
      var k :| 0 <= k < |q| && q[k] == MinRgb(p);
      assert p[k] < threshold;
    }
  }

  /** `get_filter`: a pixel is on exactly when one of its first three channels
      is strictly darker than `threshold`. */
  function GetFilter(m: Image, threshold: int): (f: Mask)
    requires IsPixelGrid(m)
    ensures |f| == |m|
    ensures forall r :: 0 <= r < |m| ==> |f[r]| == |m[r]|
    ensures forall r, c :: 0 <= r < |m| && 0 <= c < |m[r]| ==>
      (f[r][c] <==> exists k :: 0 <= k < |Rgb(m[r][c])| && m[r][c][k] < threshold)
  {
    assert forall p: Pixel :: |p| >= 1 ==>
      (MinRgb(p) < threshold <==> exists k :: 0 <= k < |Rgb(p)| && p[k] < threshold) by {
      forall p: Pixel | |p| >= 1 {
        MinRgbBelow(p, threshold);
      }
    }
    seq(|m|, r requires 0 <= r < |m| =>
      seq(|m[r]|, c requires 0 <= c < |m[r]| => MinRgb(m[r][c]) < threshold))
  }

  /** Each cell is the comparison of that pixel's minimum kept channel with
      the threshold. */
  lemma CellIsMinBelowThreshold(m: Image, threshold: int, r: nat, c: nat)
    requires IsPixelGrid(m) && r < |m| && c < |m[r]|
    ensures GetFilter(m, threshold)[r][c] <==> MinRgb(m[r][c]) < threshold
  {
    MinRgbBelow(m[r][c], threshold);
  }

  /** The comparison is strict: a pixel whose darkest kept channel equals
      the threshold is off. */
  lemma StrictAtThreshold(m: Image, threshold: int, r: nat, c: nat)
    requires IsPixelGrid(m) && r < |m| && c < |m[r]|
    requires MinRgb(m[r][c]) == threshold
    ensures !GetFilter(m, threshold)[r][c]
  {
    CellIsMinBelowThreshold(m, threshold, r, c);
  }

  /** Channels from index 3 on (alpha) never matter: two images whose pixels
      agree on their first three channels give the same mask, even when one
      has an alpha channel and the other has not. */
  lemma AlphaIgnored(m: Image, n: Image, threshold: int)
    requires IsPixelGrid(m) && IsPixelGrid(n)
    requires |m| == |n|
    requires forall r :: 0 <= r < |m| ==> |m[r]| == |n[r]|
    requires forall r, c :: 0 <= r < |m| && 0 <= c < |m[r]| ==> Rgb(m[r][c]) == Rgb(n[r][c])
    ensures GetFilter(m, threshold) == GetFilter(n, threshold)
  {
    var f, g := GetFilter(m, threshold), GetFilter(n, threshold);
    forall r | 0 <= r < |m|
      ensures f[r] == g[r]
    {
      forall c | 0 <= c < |m[r]|
        ensures f[r][c] == g[r][c]
      {
        CellIsMinBelowThreshold(m, threshold, r, c);
        CellIsMinBelowThreshold(n, threshold, r, c);
      }
    }
  }

  /** Each cell depends only on the pixel at the same position. */
  lemma CellDependsOnPixelOnly(m: Image, n: Image, threshold: int, r: nat, c: nat)
    requires IsPixelGrid(m) && IsPixelGrid(n)
    requires r < |m| && r < |n| && c < |m[r]| && c < |n[r]|
    requires m[r][c] == n[r][c]
    ensures GetFilter(m, threshold)[r][c] == GetFilter(n, threshold)[r][c]
  {
  }

  /** Raising the threshold only turns pixels on. */
  lemma MonotoneInThreshold(m: Image, t1: int, t2: int)
    requires IsPixelGrid(m) && t1 <= t2
    ensures forall r, c :: 0 <= r < |m| && 0 <= c < |m[r]| && GetFilter(m, t1)[r][c] ==>
      GetFilter(m, t2)[r][c]
  {
  }

  /** Every channel value is at least zero and below 256, as in an 8-bit image. */
  predicate IsByteImage(m: Image)
  {
    forall r, c, k :: 0 <= r < |m| && 0 <= c < |m[r]| && 0 <= k < |m[r][c]| ==>
      0 <= m[r][c][k] <= 255
  }

  /** Every channel value is at least zero. */
  predicate IsNonNegativeImage(m: Image)
  {
    forall r, c, k :: 0 <= r < |m| && 0 <= c < |m[r]| && 0 <= k < |m[r][c]| ==>
      0 <= m[r][c][k]
  }

  /** With non-negative pixel values, threshold 0 switches every pixel off. */
  lemma ZeroThresholdAllOff(m: Image)
    requires IsPixelGrid(m) && IsNonNegativeImage(m)
    ensures forall r, c :: 0 <= r < |m| && 0 <= c < |m[r]| ==> !GetFilter(m, 0)[r][c]
  {
  }

  /** With 8-bit pixel values, any threshold above 255 switches every pixel on. */
  lemma HighThresholdAllOn(m: Image, threshold: int)
    requires IsPixelGrid(m) && IsByteImage(m) && threshold > 255
    ensures forall r, c :: 0 <= r < |m| && 0 <= c < |m[r]| ==> GetFilter(m, threshold)[r][c]
  {
    forall r, c | 0 <= r < |m| && 0 <= c < |m[r]|
      ensures GetFilter(m, threshold)[r][c]
    {
      assert m[r][c][0] < threshold;
    }
  }

  // ---------------------------------------------------------------------------
  // load_images

  /** The suffixes `load_images` accepts, in the order the source lists them. */
  const ImageSuffixes: seq<string> := [".png", ".jpg", ".jpeg", ".bmp", ".gif"]

  /** Whether a file name, lowered, ends with one of the accepted suffixes.
      Every such name is at least four characters long and holds a '.'. */
  function IsImageName(filename: string): (b: bool)
    ensures b ==> |filename| >= 4 && '.' in filename
  {
    var lowered := ToLower(filename);
    var hit := exists i :: 0 <= i < |ImageSuffixes| && EndsWith(lowered, ImageSuffixes[i]);
    assert hit ==> |filename| >= 4 && '.' in filename by {
      if hit {
        var i :| 0 <= i < |ImageSuffixes| && EndsWith(lowered, ImageSuffixes[i]);
        var suffix := ImageSuffixes[i];
        assert 4 <= |suffix| && suffix[0] == '.';
        var d := |filename| - |suffix|;
        assert LowerChar(filename[d]) == lowered[d] == '.';
      }
    }
    hit
  }

  /** The names `load_images` keeps, in listing order. */
  function ImageNames(listing: seq<string>): (kept: seq<string>)
    ensures |kept| <= |listing|
    ensures forall k :: 0 <= k < |kept| ==> IsImageName(kept[k])
  {
    if listing == [] then []
    else
      var last := listing[|listing| - 1];
      ImageNames(listing[..|listing| - 1]) + (if IsImageName(last) then [last] else [])
  }

  /** Filtering a concatenated listing filters each part and keeps their
      order. */
  lemma {:induction false} ImageNamesAppend(a: seq<string>, b: seq<string>)
    ensures ImageNames(a + b) == ImageNames(a) + ImageNames(b)
  {
    if b != [] {
      var last := b[|b| - 1];
      assert (a + b)[..|a + b| - 1] == a + b[..|b| - 1];
      ImageNamesAppend(a, b[..|b| - 1]);
    } else {
      assert a + b == a;
    }
  }

  /** A name is kept exactly when it is listed and is an image name. */
  lemma {:induction false} ImageNamesMembership(listing: seq<string>, x: string)
    ensures x in ImageNames(listing) <==> x in listing && IsImageName(x)
  {
    if listing != [] {
      var init := listing[..|listing| - 1];
      ImageNamesMembership(init, x);
      assert listing == init + [listing[|listing| - 1]];
    }
  }

  /** Nothing is dropped or duplicated: an image name is kept as many times
      as it is listed, any other name never. */
  lemma {:induction false} ImageNamesMultiplicity(listing: seq<string>, x: string)
    ensures multiset(ImageNames(listing))[x] == if IsImageName(x) then multiset(listing)[x] else 0
  {
    if listing != [] {
      var init := listing[..|listing| - 1];
      ImageNamesMultiplicity(init, x);
      assert listing == init + [listing[|listing| - 1]];
    }
  }

  /** The images obtained by opening each name, in order, inside `directory`. */
  function OpenAll<T>(directory: string, names: seq<string>, open: string -> T): (images: seq<T>)
    ensures |images| == |names|
    ensures forall k :: 0 <= k < |names| ==> images[k] == open(OsPath.Join(directory, names[k]))
  {
    if names == [] then []
    else OpenAll(directory, names[..|names| - 1], open) + [open(OsPath.Join(directory, names[|names| - 1]))]
  }

  /** `load_images`: open, in listing order, every listed file whose name is
      an image name. `listing` stands for `os.listdir(directory)` and `open`
      for `Image.open`. */
  method LoadImages<T>(directory: string, listing: seq<string>, open: string -> T)
    returns (images: seq<T>)
    ensures images == OpenAll(directory, ImageNames(listing), open)
    ensures |images| == |ImageNames(listing)|
    ensures forall k :: 0 <= k < |images| ==>
      images[k] == open(OsPath.Join(directory, ImageNames(listing)[k]))
  {
    images := [];
    for i := 0 to |listing|
      invariant images == OpenAll(directory, ImageNames(listing[..i]), open)
    {
      var filename := listing[i];
      assert listing[..i + 1][..i] == listing[..i];
      var kept := ImageNames(listing[..i]);
      if IsImageName(filename) {
        assert ImageNames(listing[..i + 1]) == kept + [filename];
        assert (kept + [filename])[..|kept|] == kept;
        var imgPath := OsPath.Join(directory, filename);
        var img := open(imgPath);
        images := images + [img];
      } else {
        assert ImageNames(listing[..i + 1]) == kept;
      }
    }
    assert listing[..|listing|] == listing;
  }
}
