/**
 * Geometry of the composite: its width is the widest decoded image, its
 * height the sum of all decoded heights, and image i occupies the band of
 * rows that starts where the images before it end.
 */
module Geometry {
  import opened Pixels
  import opened SeqFacts

  /** The largest width in a non-empty batch (`map(width).max().unwrap()`). */
  function MaxWidth(images: seq<RgbaImage>): (w: nat)
    requires |images| > 0
    ensures forall i :: 0 <= i < |images| ==> images[i].width <= w
    ensures exists i :: 0 <= i < |images| && images[i].width == w
  {
    var n := |images| - 1;
    if n == 0 then images[0].width
    else
      var m := MaxWidth(images[..n]);
      assert forall i :: 0 <= i < n ==> images[..n][i] == images[i];
      if images[n].width > m then images[n].width else m
  }

  /** The sum of the heights (`map(height).sum()`), without `u32` wrap-around. */
  function TotalHeight(images: seq<RgbaImage>): (total: nat)
    ensures images == [] ==> total == 0
    ensures |images| == 1 ==> total == images[0].height
  {
    if images == [] then 0
    else TotalHeight(images[..|images| - 1]) + images[|images| - 1].height
  }

  /** First row of image i's band: the total height of the images before it. */
  function BandStart(images: seq<RgbaImage>, i: nat): (start: nat)
    requires i <= |images|
    ensures i == 0 ==> start == 0
    ensures i == |images| ==> start == TotalHeight(images)
  {
    assert images[..|images|] == images;
    TotalHeight(images[..i])
  }

  /**
   * Bands follow each other without gaps: band i + 1 starts exactly
   * `height` rows after band i, and after the last band comes the total
   * height.
   */
  lemma BandStartStep(images: seq<RgbaImage>, i: nat)
    requires i < |images|
    ensures BandStart(images, i + 1) == BandStart(images, i) + images[i].height
  {
    assert images[..i + 1][..i] == images[..i];
  }

  /** Dropping images after band i does not move band i. */
  lemma BandStartOfPrefix(images: seq<RgbaImage>, n: nat, i: nat)
    requires i <= n <= |images|
    ensures BandStart(images[..n], i) == BandStart(images, i)
  {
    assert images[..n][..i] == images[..i];
  }

  /** Band starts never decrease and none lies past the total height. */
  lemma {:induction false} BandStartMonotone(images: seq<RgbaImage>, i: nat, j: nat)
    requires i <= j <= |images|
    ensures BandStart(images, i) <= BandStart(images, j) <= TotalHeight(images)
    ensures BandStart(images, 0) == 0 && BandStart(images, |images|) == TotalHeight(images)
    decreases |images| - i
  {
    assert images[..|images|] == images;
    if i < |images| {
      BandStartStep(images, i);
      BandStartMonotone(images, i + 1, if j == i then i + 1 else j);
    }
  }

  /** Rows of image i lie inside the canvas: its band ends no later than the total height. */
  lemma BandInsideCanvas(images: seq<RgbaImage>, i: nat)
    requires i < |images|
    ensures BandStart(images, i) + images[i].height <= TotalHeight(images)
  {
    BandStartStep(images, i);
    BandStartMonotone(images, i + 1, |images|);
  }

  /** The image whose band contains row y. */
  function BandOf(images: seq<RgbaImage>, y: nat): (i: nat)
    requires y < TotalHeight(images)
    ensures i < |images| && BandStart(images, i) <= y < BandStart(images, i + 1)
    ensures y - BandStart(images, i) < images[i].height
  {
    var n := |images| - 1;
    assert images[..n + 1] == images;
    if y >= TotalHeight(images[..n]) then n
    else
      var i := BandOf(images[..n], y);
      assert images[..n][..i] == images[..i];
      assert images[..n][..i + 1] == images[..i + 1];
      BandStartStep(images, i);
      i
  }

  /** Bands are disjoint: row y belongs to no band other than `BandOf(images, y)`. */
  lemma BandsDisjoint(images: seq<RgbaImage>, y: nat, i: nat)
    requires i < |images| && BandStart(images, i) <= y < BandStart(images, i + 1)
    ensures y < TotalHeight(images) && BandOf(images, y) == i
  {
    BandStartMonotone(images, i + 1, |images|);
    var k := BandOf(images, y);
    if k < i {
      BandStartMonotone(images, k + 1, i);
    } else if i < k {
      BandStartMonotone(images, i + 1, k);
    }
  }

  lemma {:induction false} TotalHeightAppend(a: seq<RgbaImage>, b: seq<RgbaImage>)
    ensures TotalHeight(a + b) == TotalHeight(a) + TotalHeight(b)
  {
    if b == [] {
      assert a + b == a;
    } else {
      var n := |b| - 1;
      assert (a + b)[..|a + b| - 1] == a + b[..n];
      TotalHeightAppend(a, b[..n]);
    }
  }

  /** Taking image j out of a batch lowers the total height by exactly its height. */
  lemma TotalHeightRemove(b: seq<RgbaImage>, j: nat)
    requires j < |b|
    ensures TotalHeight(b) == TotalHeight(b[..j] + b[j + 1..]) + b[j].height
  {
    var left, x, right := b[..j], b[j], b[j + 1..];
    SplitAt(b, j);
    TotalHeightAppend(left + [x], right);
    assert (left + [x])[..|left|] == left;
    assert TotalHeight(left + [x]) == TotalHeight(left) + x.height;
    TotalHeightAppend(left, right);
  }

  /** The height does not depend on the order of the images. */
  lemma {:induction false} TotalHeightPermutation(a: seq<RgbaImage>, b: seq<RgbaImage>)
    requires multiset(a) == multiset(b)
    ensures TotalHeight(a) == TotalHeight(b)
    decreases |a|
  {
    if a == [] {
      assert |b| == |multiset(b)| == 0;
    } else {
      var n := |a| - 1;
      assert a[n] in multiset(b);
      var j :| 0 <= j < |b| && b[j] == a[n];
      RemoveMatching(a, b, j);
      TotalHeightPermutation(a[..n], b[..j] + b[j + 1..]);
      TotalHeightRemove(b, j);
    }
  }

  /** The width does not depend on the order of the images. */
  lemma MaxWidthPermutation(a: seq<RgbaImage>, b: seq<RgbaImage>)
    requires |a| > 0 && multiset(a) == multiset(b)
    ensures |b| > 0 && MaxWidth(a) == MaxWidth(b)
  {
    assert |a| == |multiset(a)| == |multiset(b)| == |b|;
    var i :| 0 <= i < |a| && a[i].width == MaxWidth(a);
    var j :| 0 <= j < |b| && b[j].width == MaxWidth(b);
    assert a[i] in multiset(b);
    assert b[j] in multiset(a);
  }
}
