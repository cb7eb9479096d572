/** The row-layout engine of the justified image grid.

    Images are taken in consecutive groups of three.  The source skips a
    group only when a ratio present in its slice is zero; this model also
    skips a group some of whose ratios are missing (see `Kept` and
    `KeptAsWritten`).  Every other group
    becomes one row, scaled by a single factor so that the row fills the
    container width less a fixed gutter, at one shared height.  Numbers are
    exact reals: the model has no rounding, no Infinity and no NaN.
 */
module JustifiedGrid {

  /** One laid-out image: its URL and its display box. */
  datatype Cell = Cell(src: string, width: real, height: real)

  /** The gutter constant; a row subtracts it twice whatever its size. */
  const Spacing: real := 16.0

  function Min(a: nat, b: nat): nat
  {
    if a <= b then a else b
  }

  /** Array `slice(start, end)` for non-negative bounds: both bounds are
      clamped to the length, so a slice that starts past the end is empty. */
  function Slice<T>(s: seq<T>, start: nat, end: nat): (r: seq<T>)
    requires start <= end
    ensures |r| == Min(end, |s|) - Min(start, |s|)
  {
    s[Min(start, |s|)..Min(end, |s|)]
  }

  /** The `k`-th entry of a slice is the entry `k` places after its start. */
  lemma SliceAt<T>(s: seq<T>, start: nat, end: nat, k: nat)
    requires start <= end && k < |Slice(s, start, end)|
    ensures start + k < end && start + k < |s| && Slice(s, start, end)[k] == s[start + k]
  {
  }

  /** `images.slice(i, i + 3)`: the URLs of the group that starts at `i`. */
  function ImageGroup(images: seq<string>, i: nat): (g: seq<string>)
    ensures |g| <= 3 && (i < |images| ==> |g| == Min(3, |images| - i)) && (|images| <= i ==> g == [])
  {
    Slice(images, i, i + 3)
  }

  /** `imageRatios.slice(i, i + 3)`: the same bounds, taken from the ratio
      list, which may be shorter or longer than the URL list. */
  function RatioGroup(ratios: seq<real>, i: nat): (g: seq<real>)
    ensures |g| <= 3 && (i < |ratios| ==> |g| == Min(3, |ratios| - i)) && (|ratios| <= i ==> g == [])
  {
    Slice(ratios, i, i + 3)
  }

  /** The `!r` test: a ratio of zero counts as not known. */
  predicate Falsy(r: real)
  {
    r == 0.0
  }

  /** `rowRatios.some((r) => !r)` */
  predicate SomeFalsy(rs: seq<real>)
  {
    exists k :: 0 <= k < |rs| && Falsy(rs[k])
  }

  predicate NonNegative(rs: seq<real>)
  {
    forall k :: 0 <= k < |rs| ==> rs[k] >= 0.0
  }

  predicate AllPositive(rs: seq<real>)
  {
    forall k :: 0 <= k < |rs| ==> rs[k] > 0.0
  }

  /** The skip test exactly as written: a group is kept when no entry of
      its ratio slice is falsy.  A ratio slice that is shorter than the URL
      slice, or empty, passes. */
  predicate KeptAsWritten(rowRatios: seq<real>)
  {
    !SomeFalsy(rowRatios)
  }

  /** The skip test as intended: a group is kept only when every URL in it
      has a ratio and no ratio of the slice is falsy. */
  predicate Kept(rowImages: seq<string>, rowRatios: seq<real>)
  {
    |rowImages| <= |rowRatios| && KeptAsWritten(rowRatios)
  }

  /** The width a row must fill: the container less two gutters. */
  function AvailableWidth(containerWidth: real): (a: real)
    ensures a == containerWidth - 32.0
  {
    containerWidth - Spacing * 2.0
  }

  /** Every entry of `ws` multiplied by `c`. */
  function Scaled(ws: seq<real>, c: real): (r: seq<real>)
    ensures |r| == |ws|
  {
    seq(|ws|, k requires 0 <= k < |ws| => c * ws[k])
  }

  /** `rowRatios.map((ratio) => targetRowHeight * ratio)`: the widths of a
      group's images at the target height. */
  function InitialWidths(rowRatios: seq<real>, targetRowHeight: real): (ws: seq<real>)
    ensures |ws| == |rowRatios|
  {
    Scaled(rowRatios, targetRowHeight)
  }

  /** A left-to-right sum, as `reduce((sum, w) => sum + w, 0)`. */
  function Total(ws: seq<real>): real
  {
    SumTo(ws, |ws|)
  }

  /** The sum of the first `n` entries, added from the left. */
  function SumTo(ws: seq<real>, n: nat): real
    requires n <= |ws|
  {
    if n == 0 then 0.0 else SumTo(ws, n - 1) + ws[n - 1]
  }

  /** The displayed widths of a row, in order. */
  function Widths(row: seq<Cell>): (ws: seq<real>)
    ensures |ws| == |row|
    ensures forall j :: 0 <= j < |row| ==> ws[j] == row[j].width
  {
    seq(|row|, j requires 0 <= j < |row| => row[j].width)
  }

  /** The URLs of a row, in order. */
  function Srcs(row: seq<Cell>): (ss: seq<string>)
    ensures |ss| == |row|
    ensures forall j :: 0 <= j < |row| ==> ss[j] == row[j].src
  {
    seq(|row|, j requires 0 <= j < |row| => row[j].src)
  }

  lemma {:induction false} SumToScaled(ws: seq<real>, c: real, n: nat)
    requires n <= |ws|
    ensures SumTo(Scaled(ws, c), n) == c * SumTo(ws, n)
  {
    if n > 0 {
      SumToScaled(ws, c, n - 1);
      var t := SumTo(ws, n - 1);
      assert c * (t + ws[n - 1]) == c * t + c * ws[n - 1];
    }
  }

  lemma TotalOfScaled(ws: seq<real>, c: real)
    ensures Total(Scaled(ws, c)) == c * Total(ws)
  {
    SumToScaled(ws, c, |ws|);
  }

  lemma {:induction false} SumToPositive(ws: seq<real>, n: nat)
    requires 0 < n <= |ws| && AllPositive(ws)
    ensures SumTo(ws, n) > 0.0
  {
    if n > 1 {
      SumToPositive(ws, n - 1);
    }
  }

  /** A kept, non-empty group has a positive ratio total, so the division
      by its total width is defined. */
  lemma KeptHasPositiveTotal(rowImages: seq<string>, rowRatios: seq<real>, targetRowHeight: real)
    requires rowImages != [] && NonNegative(rowRatios) && targetRowHeight > 0.0
    requires Kept(rowImages, rowRatios)
    ensures AllPositive(rowRatios) && Total(rowRatios) > 0.0
    ensures Total(InitialWidths(rowRatios, targetRowHeight)) > 0.0
  {
    forall k | 0 <= k < |rowRatios| ensures rowRatios[k] > 0.0 {
      assert !Falsy(rowRatios[k]);
    }
    SumToPositive(rowRatios, |rowRatios|);
    TotalOfScaled(rowRatios, targetRowHeight);
  }

  /** The row for one group: one scale factor for the whole row, each image
      at its initial width times that factor, all at the scaled height.
      Ratio entries beyond the URLs still count towards the total. */
  function LayoutRow(rowImages: seq<string>, rowRatios: seq<real>, containerWidth: real, targetRowHeight: real): (row: seq<Cell>)
    requires rowImages != [] && NonNegative(rowRatios) && targetRowHeight > 0.0
    requires Kept(rowImages, rowRatios)
    ensures |row| == |rowImages|
  {
    KeptHasPositiveTotal(rowImages, rowRatios, targetRowHeight);
    var initialWidths := InitialWidths(rowRatios, targetRowHeight);
    var totalWidth := Total(initialWidths);
    var scale := AvailableWidth(containerWidth) / totalWidth;
    var rowHeight := targetRowHeight * scale;
    seq(|rowImages|, j requires 0 <= j < |rowImages| =>
      Cell(rowImages[j], initialWidths[j] * scale, rowHeight))
  }

  /** The algebra of one cell: a width `iw * scale` and a height `h * scale`,
      where `iw == h * r` and the scale divides `a` by `h * t`. */
  lemma CellAlgebra(iw: real, tw: real, a: real, h: real, r: real, t: real, width: real, height: real)
    requires h > 0.0 && t > 0.0 && iw == h * r && tw == h * t
    requires width == iw * (a / tw) && height == h * (a / tw)
    ensures width == r * height && height * t == a
  {
    var scale := a / tw;
    assert scale * (h * t) == a;
    assert (h * scale) * t == a;
  }

  /** One cell of a laid-out row: its URL is the image's, its width is its
      ratio times its height, and its height, shared by the whole row, makes
      the ratios of the slice add up to the available width. */
  lemma LayoutCell(rowImages: seq<string>, rowRatios: seq<real>, containerWidth: real, targetRowHeight: real, j: nat)
    requires rowImages != [] && NonNegative(rowRatios) && targetRowHeight > 0.0
    requires Kept(rowImages, rowRatios) && j < |rowImages|
    ensures var row := LayoutRow(rowImages, rowRatios, containerWidth, targetRowHeight);
      row[j].src == rowImages[j] &&
      row[j].height == row[0].height &&
      row[j].width == rowRatios[j] * row[j].height &&
      row[j].height * Total(rowRatios) == AvailableWidth(containerWidth)
  {
    KeptHasPositiveTotal(rowImages, rowRatios, targetRowHeight);
    var iw := InitialWidths(rowRatios, targetRowHeight);
    var a := AvailableWidth(containerWidth);
    var c := LayoutRow(rowImages, rowRatios, containerWidth, targetRowHeight)[j];
    assert c.width == iw[j] * (a / Total(iw));
    assert c.height == targetRowHeight * (a / Total(iw));
    TotalOfScaled(rowRatios, targetRowHeight);
    CellAlgebra(iw[j], Total(iw), a, targetRowHeight, rowRatios[j], Total(rowRatios), c.width, c.height);
  }

  /** The geometry of a row against its ratio slice: every cell has a
      ratio, shares the first cell's height, is its ratio times that
      height wide, and the height makes the slice's ratios add up to
      `available`. */
  predicate RowGeometry(row: seq<Cell>, rowRatios: seq<real>, available: real)
  {
    |row| <= |rowRatios| &&
    forall j :: 0 <= j < |row| ==>
      row[j].height == row[0].height &&
      row[j].width == rowRatios[j] * row[j].height &&
      row[j].height * Total(rowRatios) == available
  }

  /** Every laid-out row has that geometry. */
  lemma LayoutRowGeometry(rowImages: seq<string>, rowRatios: seq<real>, containerWidth: real, targetRowHeight: real)
    requires rowImages != [] && NonNegative(rowRatios) && targetRowHeight > 0.0
    requires Kept(rowImages, rowRatios)
    ensures RowGeometry(LayoutRow(rowImages, rowRatios, containerWidth, targetRowHeight), rowRatios, AvailableWidth(containerWidth))
  {
    var row := LayoutRow(rowImages, rowRatios, containerWidth, targetRowHeight);
    forall j | 0 <= j < |row|
      ensures row[j].height == row[0].height &&
              row[j].width == rowRatios[j] * row[j].height &&
              row[j].height * Total(rowRatios) == AvailableWidth(containerWidth)
    {
      LayoutCell(rowImages, rowRatios, containerWidth, targetRowHeight, j);
    }
  }

  /** A row lists its images' URLs in order. */
  lemma LayoutRowSrcs(rowImages: seq<string>, rowRatios: seq<real>, containerWidth: real, targetRowHeight: real)
    requires rowImages != [] && NonNegative(rowRatios) && targetRowHeight > 0.0
    requires Kept(rowImages, rowRatios)
    ensures Srcs(LayoutRow(rowImages, rowRatios, containerWidth, targetRowHeight)) == rowImages
  {
    var row := LayoutRow(rowImages, rowRatios, containerWidth, targetRowHeight);
    assert forall j :: 0 <= j < |row| ==> Srcs(row)[j] == rowImages[j];
  }

  /** When every ratio of the slice belongs to an image of the row, the
      widths add up to the container width less the gutters. */
  lemma {:induction false} LayoutRowFillsWidth(rowImages: seq<string>, rowRatios: seq<real>, containerWidth: real, targetRowHeight: real)
    requires rowImages != [] && NonNegative(rowRatios) && targetRowHeight > 0.0
    requires Kept(rowImages, rowRatios) && |rowImages| == |rowRatios|
    ensures Total(Widths(LayoutRow(rowImages, rowRatios, containerWidth, targetRowHeight))) == AvailableWidth(containerWidth)
  {
    var row := LayoutRow(rowImages, rowRatios, containerWidth, targetRowHeight);
    var height := row[0].height;
    forall j | 0 <= j < |row| ensures Widths(row)[j] == Scaled(rowRatios, height)[j] {
      LayoutCell(rowImages, rowRatios, containerWidth, targetRowHeight, j);
    }
    assert Widths(row) == Scaled(rowRatios, height);
    TotalOfScaled(rowRatios, height);
    LayoutCell(rowImages, rowRatios, containerWidth, targetRowHeight, 0);
  }

  /** Two cells whose heights fill the same width share that height. */
  lemma SameHeight(h1: real, h2: real, t: real, a: real)
    requires t > 0.0 && h1 * t == a && h2 * t == a
    ensures h1 == h2
  {
    assert (h1 - h2) * t == 0.0;
  }

  /** The target height cancels out of each cell. */
  lemma LayoutCellIgnoresTarget(rowImages: seq<string>, rowRatios: seq<real>, containerWidth: real, targetRowHeight1: real, targetRowHeight2: real, j: nat)
    requires rowImages != [] && NonNegative(rowRatios) && targetRowHeight1 > 0.0 && targetRowHeight2 > 0.0
    requires Kept(rowImages, rowRatios) && j < |rowImages|
    ensures LayoutRow(rowImages, rowRatios, containerWidth, targetRowHeight1)[j]
         == LayoutRow(rowImages, rowRatios, containerWidth, targetRowHeight2)[j]
  {
    KeptHasPositiveTotal(rowImages, rowRatios, targetRowHeight1);
    var c1 := LayoutRow(rowImages, rowRatios, containerWidth, targetRowHeight1)[j];
    var c2 := LayoutRow(rowImages, rowRatios, containerWidth, targetRowHeight2)[j];
    LayoutCell(rowImages, rowRatios, containerWidth, targetRowHeight1, j);
    LayoutCell(rowImages, rowRatios, containerWidth, targetRowHeight2, j);
    SameHeight(c1.height, c2.height, Total(rowRatios), AvailableWidth(containerWidth));
    assert c1.src == c2.src && c1.width == c2.width;
  }

  /** The target height cancels out: any two target heights give the same
      row. */
  lemma LayoutRowIgnoresTarget(rowImages: seq<string>, rowRatios: seq<real>, containerWidth: real, targetRowHeight1: real, targetRowHeight2: real)
    requires rowImages != [] && NonNegative(rowRatios) && targetRowHeight1 > 0.0 && targetRowHeight2 > 0.0
    requires Kept(rowImages, rowRatios)
    ensures LayoutRow(rowImages, rowRatios, containerWidth, targetRowHeight1)
         == LayoutRow(rowImages, rowRatios, containerWidth, targetRowHeight2)
  {
    forall j | 0 <= j < |rowImages|
      ensures LayoutRow(rowImages, rowRatios, containerWidth, targetRowHeight1)[j]
           == LayoutRow(rowImages, rowRatios, containerWidth, targetRowHeight2)[j]
    {
      LayoutCellIgnoresTarget(rowImages, rowRatios, containerWidth, targetRowHeight1, targetRowHeight2, j);
    }
  }

  /** The number of groups a list of `n` images is walked in. */
  function GroupCount(n: nat): (c: nat)
    ensures 3 * c >= n && 3 * c < n + 3
  {
    (n + 2) / 3
  }

  /** The group that starts at `i` passes the skip test. */
  predicate KeptAt(images: seq<string>, ratios: seq<real>, i: nat)
  {
    Kept(ImageGroup(images, i), RatioGroup(ratios, i))
  }

  /** For each group, in walking order, whether it is laid out. */
  function KeptFlags(images: seq<string>, ratios: seq<real>): (flags: seq<bool>)
    ensures |flags| == GroupCount(|images|)
    ensures forall k :: 0 <= k < |flags| ==> flags[k] == KeptAt(images, ratios, 3 * k)
  {
    seq(GroupCount(|images|), k requires 0 <= k => KeptAt(images, ratios, 3 * k))
  }

  /** The numbers of the flagged groups among the first `w`, in order. */
  function Listed(flags: seq<bool>, w: nat): seq<nat>
    requires w <= |flags|
  {
    if w == 0 then [] else Listed(flags, w - 1) + (if flags[w - 1] then [w - 1] else [])
  }

  /** Every listed group is one of the first `w` and is flagged. */
  lemma {:induction false} ListedAreFlagged(flags: seq<bool>, w: nat, x: nat)
    requires w <= |flags| && x < |Listed(flags, w)|
    ensures Listed(flags, w)[x] < w && flags[Listed(flags, w)[x]]
  {
    if x < |Listed(flags, w - 1)| {
      ListedAreFlagged(flags, w - 1, x);
    }
  }

  /** The numbers of the groups among the first `w` that are laid out, in
      walking order. */
  function KeptGroups(images: seq<string>, ratios: seq<real>, w: nat): seq<nat>
    requires w <= GroupCount(|images|)
  {
    Listed(KeptFlags(images, ratios), w)
  }

  /** A listed group was walked, starts inside the URL list and is kept. */
  lemma KeptGroupIsKept(images: seq<string>, ratios: seq<real>, w: nat, r: nat)
    requires w <= GroupCount(|images|) && r < |KeptGroups(images, ratios, w)|
    ensures KeptGroups(images, ratios, w)[r] < w
    ensures 3 * KeptGroups(images, ratios, w)[r] < |images|
    ensures KeptAt(images, ratios, 3 * KeptGroups(images, ratios, w)[r])
  {
    ListedAreFlagged(KeptFlags(images, ratios), w, r);
  }

  /** The ratios of a group are entries of the full list. */
  lemma GroupRatiosNonNegative(ratios: seq<real>, i: nat)
    requires NonNegative(ratios)
    ensures NonNegative(RatioGroup(ratios, i))
  {
    var rs := RatioGroup(ratios, i);
    forall k | 0 <= k < |rs| ensures rs[k] >= 0.0 {
      SliceAt(ratios, i, i + 3, k);
    }
  }

  /** The row of kept group number `k`. */
  function GroupRow(images: seq<string>, ratios: seq<real>, containerWidth: real, targetRowHeight: real, k: nat): (row: seq<Cell>)
    requires NonNegative(ratios) && targetRowHeight > 0.0
    requires 3 * k < |images| && KeptAt(images, ratios, 3 * k)
    ensures |row| == |ImageGroup(images, 3 * k)|
  {
    GroupRatiosNonNegative(ratios, 3 * k);
    LayoutRow(ImageGroup(images, 3 * k), RatioGroup(ratios, 3 * k), containerWidth, targetRowHeight)
  }

  /** The rows for the first `w` groups: the row of each kept group, in
      walking order. */
  function Layout(images: seq<string>, ratios: seq<real>, containerWidth: real, targetRowHeight: real, w: nat): (rows: seq<seq<Cell>>)
    requires NonNegative(ratios) && targetRowHeight > 0.0
    requires w <= GroupCount(|images|)
    ensures |rows| == |KeptGroups(images, ratios, w)|
  {
    var groups := KeptGroups(images, ratios, w);
    seq(|groups|, r requires 0 <= r < |groups| =>
      KeptGroupIsKept(images, ratios, w, r);
      GroupRow(images, ratios, containerWidth, targetRowHeight, groups[r]))
  }

  /** Walking one more group leaves the rows so far as they are and
      appends that group's row when it is kept. */
  lemma LayoutStep(images: seq<string>, ratios: seq<real>, containerWidth: real, targetRowHeight: real, w: nat)
    requires NonNegative(ratios) && targetRowHeight > 0.0
    requires w < GroupCount(|images|)
    ensures !KeptAt(images, ratios, 3 * w) ==>
              Layout(images, ratios, containerWidth, targetRowHeight, w + 1)
              == Layout(images, ratios, containerWidth, targetRowHeight, w)
    ensures KeptAt(images, ratios, 3 * w) ==>
              Layout(images, ratios, containerWidth, targetRowHeight, w + 1)
              == Layout(images, ratios, containerWidth, targetRowHeight, w)
                 + [GroupRow(images, ratios, containerWidth, targetRowHeight, w)]
  {
    var flags := KeptFlags(images, ratios);
    var before, after := KeptGroups(images, ratios, w), KeptGroups(images, ratios, w + 1);
    assert after == before + (if flags[w] then [w] else []);
    var rows := Layout(images, ratios, containerWidth, targetRowHeight, w);
    var next := Layout(images, ratios, containerWidth, targetRowHeight, w + 1);
    forall r | 0 <= r < |rows| ensures next[r] == rows[r] {
      assert after[r] == before[r];
    }
    if KeptAt(images, ratios, 3 * w) {
      assert after[|rows|] == w;
      assert next == rows + [GroupRow(images, ratios, containerWidth, targetRowHeight, w)];
    } else {
      assert next == rows;
    }
  }

  /** `getRows`: walk the images three at a time, skip groups whose ratios
      are not all known, and append one row per remaining group. */
  method GetRows(images: seq<string>, ratios: seq<real>, containerWidth: real, targetRowHeight: real)
    returns (rows: seq<seq<Cell>>)
    requires NonNegative(ratios)
    requires targetRowHeight > 0.0
    ensures rows == Layout(images, ratios, containerWidth, targetRowHeight, GroupCount(|images|))
  {
    rows := [];
    var i: nat := 0;
    ghost var w: nat := 0;  // the number of groups walked so far
    while i < |images|
      invariant i == 3 * w && w <= GroupCount(|images|)
      invariant rows == Layout(images, ratios, containerWidth, targetRowHeight, w)
    {
      var rowImages := ImageGroup(images, i);
      var rowRatios := RatioGroup(ratios, i);
      GroupRatiosNonNegative(ratios, i);
      LayoutStep(images, ratios, containerWidth, targetRowHeight, w);
      if !SomeFalsy(rowRatios) && |rowImages| <= |rowRatios| {
        rows := rows + [LayoutRow(rowImages, rowRatios, containerWidth, targetRowHeight)];
      }
      i, w := i + 3, w + 1;
    }
    assert w == GroupCount(|images|);
  }
}
