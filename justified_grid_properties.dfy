/** What the grid's row layout guarantees: which groups become rows and in
    what order, how many rows there are, what each row contains, and that
    the target height has no effect on the result. */
module JustifiedGridProperties {
  import opened JustifiedGrid

  /** The list increases strictly: no group twice, none out of order. */
  lemma {:induction false} ListedIncrease(flags: seq<bool>, w: nat, x: nat, y: nat)
    requires w <= |flags| && x < y < |Listed(flags, w)|
    ensures Listed(flags, w)[x] < Listed(flags, w)[y]
  {
    if y < |Listed(flags, w - 1)| {
      ListedIncrease(flags, w - 1, x, y);
    } else {
      ListedAreFlagged(flags, w - 1, x);
    }
  }

  /** Every flagged group among the first `w` is listed. */
  lemma {:induction false} FlaggedAreListed(flags: seq<bool>, w: nat, k: nat)
    requires w <= |flags| && k < w && flags[k]
    ensures k in Listed(flags, w)
  {
    if k < w - 1 {
      FlaggedAreListed(flags, w - 1, k);
    }
  }

  /** At most one group per step; exactly one per step when every group
      is flagged. */
  lemma {:induction false} ListedCount(flags: seq<bool>, w: nat)
    requires w <= |flags|
    ensures |Listed(flags, w)| <= w
    ensures |Listed(flags, w)| == w <==> forall k :: 0 <= k < w ==> flags[k]
  {
    if w > 0 {
      ListedCount(flags, w - 1);
    }
  }

  /** When every group is flagged, the list is `0, 1, …, w - 1`. */
  lemma {:induction false} ListedAll(flags: seq<bool>, w: nat)
    requires w <= |flags| && forall k :: 0 <= k < w ==> flags[k]
    ensures |Listed(flags, w)| == w
    ensures forall x :: 0 <= x < w ==> Listed(flags, w)[x] == x
  {
    if w > 0 {
      ListedAll(flags, w - 1);
      assert flags[w - 1];
    }
  }

  /** Row `r` is the row of the `r`-th kept group, which starts inside the
      URL list and passes the skip test. */
  lemma LayoutRowIsKeptGroup(images: seq<string>, ratios: seq<real>, containerWidth: real, targetRowHeight: real, r: nat)
    requires NonNegative(ratios) && targetRowHeight > 0.0
    requires r < |KeptGroups(images, ratios, GroupCount(|images|))|
    ensures var k := KeptGroups(images, ratios, GroupCount(|images|))[r];
      3 * k < |images| && KeptAt(images, ratios, 3 * k) &&
      Layout(images, ratios, containerWidth, targetRowHeight, GroupCount(|images|))[r]
      == GroupRow(images, ratios, containerWidth, targetRowHeight, k)
  {
    KeptGroupIsKept(images, ratios, GroupCount(|images|), r);
  }

  /** A group becomes a row exactly when it is kept. */
  lemma GroupHasRowIffKept(images: seq<string>, ratios: seq<real>, k: nat)
    requires k < GroupCount(|images|)
    ensures k in KeptGroups(images, ratios, GroupCount(|images|)) <==> KeptAt(images, ratios, 3 * k)
  {
    var flags := KeptFlags(images, ratios);
    var w := GroupCount(|images|);
    if k in Listed(flags, w) {
      var x :| 0 <= x < |Listed(flags, w)| && Listed(flags, w)[x] == k;
      ListedAreFlagged(flags, w, x);
    }
    if flags[k] {
      FlaggedAreListed(flags, w, k);
    }
  }

  /** Rows come in the order of their groups, each group at most once: an
      earlier row belongs to an earlier group. */
  lemma RowsInGroupOrder(images: seq<string>, ratios: seq<real>, x: nat, y: nat)
    requires x < y < |KeptGroups(images, ratios, GroupCount(|images|))|
    ensures KeptGroups(images, ratios, GroupCount(|images|))[x] < KeptGroups(images, ratios, GroupCount(|images|))[y]
  {
    ListedIncrease(KeptFlags(images, ratios), GroupCount(|images|), x, y);
  }

  /** At most one row per group, and one row for every group exactly when
      every group is kept. */
  lemma RowCount(images: seq<string>, ratios: seq<real>, containerWidth: real, targetRowHeight: real)
    requires NonNegative(ratios) && targetRowHeight > 0.0
    ensures var rows := Layout(images, ratios, containerWidth, targetRowHeight, GroupCount(|images|));
      |rows| <= GroupCount(|images|) &&
      (|rows| == GroupCount(|images|) <==> forall k :: 0 <= k < GroupCount(|images|) ==> KeptAt(images, ratios, 3 * k))
  {
    var flags := KeptFlags(images, ratios);
    ListedCount(flags, GroupCount(|images|));
  }

  /** With at least one ratio per image and every ratio positive, every
      group is kept. */
  lemma RatedGroupIsKept(images: seq<string>, ratios: seq<real>, i: nat)
    requires |images| <= |ratios| && AllPositive(ratios) && i < |images|
    ensures KeptAt(images, ratios, i)
  {
    var rs := RatioGroup(ratios, i);
    forall k | 0 <= k < |rs| ensures !Falsy(rs[k]) {
      SliceAt(ratios, i, i + 3, k);
    }
  }

  /** With at least one ratio per image and every ratio positive, every
      group is kept, so there
      are `ceil(|images| / 3)` rows. */
  lemma RatedRowCount(images: seq<string>, ratios: seq<real>, containerWidth: real, targetRowHeight: real)
    requires |images| <= |ratios| && AllPositive(ratios) && targetRowHeight > 0.0
    ensures var rows := Layout(images, ratios, containerWidth, targetRowHeight, GroupCount(|images|));
      3 * |rows| >= |images| && 3 * |rows| < |images| + 3
  {
    forall k | 0 <= k < GroupCount(|images|) ensures KeptAt(images, ratios, 3 * k) {
      RatedGroupIsKept(images, ratios, 3 * k);
    }
    RowCount(images, ratios, containerWidth, targetRowHeight);
  }

  /** Row `r` holds the images of its group, in order: `min(3, n - i)` of
      them, starting at the group's start `i`. */
  lemma RowSrcs(images: seq<string>, ratios: seq<real>, containerWidth: real, targetRowHeight: real, r: nat)
    requires NonNegative(ratios) && targetRowHeight > 0.0
    requires r < |KeptGroups(images, ratios, GroupCount(|images|))|
    ensures var rows := Layout(images, ratios, containerWidth, targetRowHeight, GroupCount(|images|));
      var i := 3 * KeptGroups(images, ratios, GroupCount(|images|))[r];
      r < |rows| && i < |images| &&
      |rows[r]| == Min(3, |images| - i) && Srcs(rows[r]) == images[i..i + |rows[r]|]
  {
    LayoutRowIsKeptGroup(images, ratios, containerWidth, targetRowHeight, r);
    var i := 3 * KeptGroups(images, ratios, GroupCount(|images|))[r];
    GroupRatiosNonNegative(ratios, i);
    LayoutRowSrcs(ImageGroup(images, i), RatioGroup(ratios, i), containerWidth, targetRowHeight);
  }

  /** The geometry of cell `j` of a row laid out for the group at `i`: the
      cell keeps the aspect ratio its image has in `ratios`, has the row's
      one height, and that height makes the group's ratios add up to
      `available`. */
  predicate CellFits(row: seq<Cell>, ratios: seq<real>, i: nat, available: real, j: nat)
    requires j < |row| && i + |row| <= |ratios|
  {
    row[j].height == row[0].height &&
    row[j].width == ratios[i + j] * row[j].height &&
    row[j].height * Total(RatioGroup(ratios, i)) == available
  }

  /** Every cell of the row fits. */
  predicate RowFits(row: seq<Cell>, ratios: seq<real>, i: nat, available: real)
  {
    i + |row| <= |ratios| &&
    forall j :: 0 <= j < |row| ==> CellFits(row, ratios, i, available, j)
  }

  /** A row whose geometry holds against the ratio slice of the group at
      `i` fits against the full ratio list. */
  lemma SliceRowFits(row: seq<Cell>, ratios: seq<real>, i: nat, available: real)
    requires row != [] && RowGeometry(row, RatioGroup(ratios, i), available)
    ensures RowFits(row, ratios, i, available)
  {
    SliceAt(ratios, i, i + 3, |row| - 1);
    forall j | 0 <= j < |row| ensures CellFits(row, ratios, i, available, j) {
      SliceAt(ratios, i, i + 3, j);
    }
  }

  /** The row of a kept group fits. */
  lemma GroupRowFits(images: seq<string>, ratios: seq<real>, containerWidth: real, targetRowHeight: real, k: nat)
    requires NonNegative(ratios) && targetRowHeight > 0.0
    requires 3 * k < |images| && KeptAt(images, ratios, 3 * k)
    ensures RowFits(GroupRow(images, ratios, containerWidth, targetRowHeight, k), ratios, 3 * k, AvailableWidth(containerWidth))
  {
    var i := 3 * k;
    GroupRatiosNonNegative(ratios, i);
    LayoutRowGeometry(ImageGroup(images, i), RatioGroup(ratios, i), containerWidth, targetRowHeight);
    SliceRowFits(GroupRow(images, ratios, containerWidth, targetRowHeight, k), ratios, i, AvailableWidth(containerWidth));
  }

  /** A kept group's ratios have a positive total. */
  lemma GroupHasPositiveTotal(images: seq<string>, ratios: seq<real>, k: nat)
    requires NonNegative(ratios) && 3 * k < |images| && KeptAt(images, ratios, 3 * k)
    ensures Total(RatioGroup(ratios, 3 * k)) > 0.0
  {
    GroupRatiosNonNegative(ratios, 3 * k);
    KeptHasPositiveTotal(ImageGroup(images, 3 * k), RatioGroup(ratios, 3 * k), 1.0);
  }

  /** Every row fits: each cell keeps its image's aspect ratio, all cells
      of a row share one height, and that height makes the group's ratios
      add up to the available width.  The group's ratio total is positive,
      so that height is the available width divided by it. */
  lemma RowCellGeometry(images: seq<string>, ratios: seq<real>, containerWidth: real, targetRowHeight: real, r: nat)
    requires NonNegative(ratios) && targetRowHeight > 0.0
    requires r < |KeptGroups(images, ratios, GroupCount(|images|))|
    ensures var rows := Layout(images, ratios, containerWidth, targetRowHeight, GroupCount(|images|));
      var i := 3 * KeptGroups(images, ratios, GroupCount(|images|))[r];
      r < |rows| && RowFits(rows[r], ratios, i, AvailableWidth(containerWidth))
      && Total(RatioGroup(ratios, i)) > 0.0
  {
    LayoutRowIsKeptGroup(images, ratios, containerWidth, targetRowHeight, r);
    var k := KeptGroups(images, ratios, GroupCount(|images|))[r];
    GroupRowFits(images, ratios, containerWidth, targetRowHeight, k);
    GroupHasPositiveTotal(images, ratios, k);
  }

  /** A row whose group has no more ratios than URLs fills the container
      width less the two gutters, whether it holds three images or a
      trailing one or two. */
  lemma RowFillsWidth(images: seq<string>, ratios: seq<real>, containerWidth: real, targetRowHeight: real, r: nat)
    requires NonNegative(ratios) && targetRowHeight > 0.0
    requires r < |KeptGroups(images, ratios, GroupCount(|images|))|
    requires var i := 3 * KeptGroups(images, ratios, GroupCount(|images|))[r];
      |RatioGroup(ratios, i)| <= |ImageGroup(images, i)|
    ensures var rows := Layout(images, ratios, containerWidth, targetRowHeight, GroupCount(|images|));
      r < |rows| && Total(Widths(rows[r])) == containerWidth - 32.0
  {
    LayoutRowIsKeptGroup(images, ratios, containerWidth, targetRowHeight, r);
    var i := 3 * KeptGroups(images, ratios, GroupCount(|images|))[r];
    GroupRatiosNonNegative(ratios, i);
    LayoutRowFillsWidth(ImageGroup(images, i), RatioGroup(ratios, i), containerWidth, targetRowHeight);
  }

  /** When no ratio lies beyond the last URL, every row fills the width. */
  lemma ShortRatiosFillWidth(images: seq<string>, ratios: seq<real>, containerWidth: real, targetRowHeight: real, r: nat)
    requires NonNegative(ratios) && targetRowHeight > 0.0 && |ratios| <= |images|
    requires r < |KeptGroups(images, ratios, GroupCount(|images|))|
    ensures var rows := Layout(images, ratios, containerWidth, targetRowHeight, GroupCount(|images|));
      r < |rows| && Total(Widths(rows[r])) == containerWidth - 32.0
  {
    RowFillsWidth(images, ratios, containerWidth, targetRowHeight, r);
  }

  /** The URLs of a list of rows, row after row. */
  function Flatten(rows: seq<seq<Cell>>): seq<string>
  {
    FlattenTo(rows, |rows|)
  }

  /** The URLs of the first `n` rows, row after row. */
  function FlattenTo(rows: seq<seq<Cell>>, n: nat): seq<string>
    requires n <= |rows|
  {
    if n == 0 then [] else FlattenTo(rows, n - 1) + Srcs(rows[n - 1])
  }

  /** The image group at `i` continues the images before `i`. */
  lemma ImagesUpTo(images: seq<string>, i: nat)
    requires i <= |images|
    ensures images[..i] + ImageGroup(images, i) == images[..Min(i + 3, |images|)]
  {
  }

  /** Rows that hold the URLs of the groups one after another list the
      URLs of the first `n` groups. */
  lemma {:induction false} FlattenGroups(images: seq<string>, rows: seq<seq<Cell>>, n: nat)
    requires n <= |rows| && n <= GroupCount(|images|)
    requires forall k :: 0 <= k < n ==> Srcs(rows[k]) == ImageGroup(images, 3 * k)
    ensures FlattenTo(rows, n) == images[..Min(3 * n, |images|)]
  {
    if n > 0 {
      var i := 3 * (n - 1);
      FlattenGroups(images, rows, n - 1);
      assert Min(i, |images|) == i;
      ImagesUpTo(images, i);
    }
  }

  /** When every group is kept, row `k` holds the URLs of group `k`. */
  lemma KeptRowSrcs(images: seq<string>, ratios: seq<real>, containerWidth: real, targetRowHeight: real, k: nat)
    requires NonNegative(ratios) && targetRowHeight > 0.0 && k < GroupCount(|images|)
    requires forall g :: 0 <= g < GroupCount(|images|) ==> KeptAt(images, ratios, 3 * g)
    ensures var rows := Layout(images, ratios, containerWidth, targetRowHeight, GroupCount(|images|));
      k < |rows| && Srcs(rows[k]) == ImageGroup(images, 3 * k)
  {
    ListedAll(KeptFlags(images, ratios), GroupCount(|images|));
    LayoutRowIsKeptGroup(images, ratios, containerWidth, targetRowHeight, k);
    GroupRatiosNonNegative(ratios, 3 * k);
    LayoutRowSrcs(ImageGroup(images, 3 * k), RatioGroup(ratios, 3 * k), containerWidth, targetRowHeight);
  }

  /** When every group is kept, the rows list every URL, in order and each
      once. */
  lemma KeptLayoutFlattens(images: seq<string>, ratios: seq<real>, containerWidth: real, targetRowHeight: real)
    requires NonNegative(ratios) && targetRowHeight > 0.0
    requires forall k :: 0 <= k < GroupCount(|images|) ==> KeptAt(images, ratios, 3 * k)
    ensures Flatten(Layout(images, ratios, containerWidth, targetRowHeight, GroupCount(|images|))) == images
  {
    var w := GroupCount(|images|);
    var rows := Layout(images, ratios, containerWidth, targetRowHeight, w);
    ListedAll(KeptFlags(images, ratios), w);
    forall k | 0 <= k < w ensures Srcs(rows[k]) == ImageGroup(images, 3 * k) {
      KeptRowSrcs(images, ratios, containerWidth, targetRowHeight, k);
    }
    FlattenGroups(images, rows, w);
  }

  /** With at least one ratio per image and every ratio positive, the rows
      list all the images,
      in their original order. */
  lemma RatedLayoutFlattens(images: seq<string>, ratios: seq<real>, containerWidth: real, targetRowHeight: real)
    requires |images| <= |ratios| && AllPositive(ratios) && targetRowHeight > 0.0
    ensures Flatten(Layout(images, ratios, containerWidth, targetRowHeight, GroupCount(|images|))) == images
  {
    var w := GroupCount(|images|);
    forall k | 0 <= k < w ensures KeptAt(images, ratios, 3 * k) {
      RatedGroupIsKept(images, ratios, 3 * k);
    }
    KeptLayoutFlattens(images, ratios, containerWidth, targetRowHeight);
  }

  /** The target height has no effect on the rows. */
  lemma LayoutIgnoresTarget(images: seq<string>, ratios: seq<real>, containerWidth: real, targetRowHeight1: real, targetRowHeight2: real)
    requires NonNegative(ratios) && targetRowHeight1 > 0.0 && targetRowHeight2 > 0.0
    ensures Layout(images, ratios, containerWidth, targetRowHeight1, GroupCount(|images|))
         == Layout(images, ratios, containerWidth, targetRowHeight2, GroupCount(|images|))
  {
    var rows1 := Layout(images, ratios, containerWidth, targetRowHeight1, GroupCount(|images|));
    var rows2 := Layout(images, ratios, containerWidth, targetRowHeight2, GroupCount(|images|));
    forall r | 0 <= r < |rows1| ensures rows1[r] == rows2[r] {
      LayoutRowIsKeptGroup(images, ratios, containerWidth, targetRowHeight1, r);
      LayoutRowIsKeptGroup(images, ratios, containerWidth, targetRowHeight2, r);
      var i := 3 * KeptGroups(images, ratios, GroupCount(|images|))[r];
      GroupRatiosNonNegative(ratios, i);
      LayoutRowIgnoresTarget(ImageGroup(images, i), RatioGroup(ratios, i), containerWidth, targetRowHeight1, targetRowHeight2);
    }
  }
}
