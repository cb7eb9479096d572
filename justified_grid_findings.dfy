/** The skip test as written against the skip test as intended, and a
    worked layout. */
module JustifiedGridFindings {
  import opened JustifiedGrid
  import opened JustifiedGridProperties

  /** As written, a group whose URLs outnumber its known ratios passes the
      skip test: the missing ratios are simply absent from the slice that
      the test looks at.  The corrected test rejects it. */
  lemma {:induction false} AsWrittenKeepsUnratedGroup(images: seq<string>, ratios: seq<real>, i: nat)
    requires AllPositive(ratios) && i < |images| && |ratios| < Min(i + 3, |images|)
    ensures |RatioGroup(ratios, i)| < |ImageGroup(images, i)|
    ensures KeptAsWritten(RatioGroup(ratios, i))
    ensures !Kept(ImageGroup(images, i), RatioGroup(ratios, i))
  {
    var rs := RatioGroup(ratios, i);
    forall k | 0 <= k < |rs| ensures !Falsy(rs[k]) {
      SliceAt(ratios, i, i + 3, k);
    }
  }

  /** The first render, before any ratio has loaded: one image and no
      ratios.  The written test keeps the group, whose total width is then
      zero, so the scale factor would divide by zero; the corrected layout
      has no row. */
  lemma FirstRenderExample()
    ensures KeptAsWritten(RatioGroup([], 0))
    ensures Total(InitialWidths(RatioGroup([], 0), 300.0)) == 0.0
    ensures Layout(["a"], [], 1000.0, 300.0, GroupCount(1)) == []
  {
    assert RatioGroup([], 0) == [];
    assert GroupCount(1) == 1;
    assert !KeptAt(["a"], [], 0);
    LayoutStep(["a"], [], 1000.0, 300.0, 0);
  }

  /** Once every image has a ratio, the written and the corrected tests
      agree. */
  lemma AsWrittenAgreesWhenRated(images: seq<string>, ratios: seq<real>, i: nat)
    requires |images| <= |ratios| && i < |images|
    ensures Kept(ImageGroup(images, i), RatioGroup(ratios, i)) <==> KeptAsWritten(RatioGroup(ratios, i))
  {
    assert |ImageGroup(images, i)| <= |RatioGroup(ratios, i)|;
  }

  /** The corrected test keeps a group exactly when each of its URLs has a
      ratio and every ratio of the slice is positive. */
  lemma KeptMeansRated(rowImages: seq<string>, rowRatios: seq<real>)
    requires NonNegative(rowRatios)
    ensures Kept(rowImages, rowRatios) <==> |rowImages| <= |rowRatios| && AllPositive(rowRatios)
  {
    if Kept(rowImages, rowRatios) {
      forall k | 0 <= k < |rowRatios| ensures rowRatios[k] > 0.0 {
        assert !Falsy(rowRatios[k]);
      }
    }
    if AllPositive(rowRatios) {
      forall k | 0 <= k < |rowRatios| ensures !Falsy(rowRatios[k]) {
        assert rowRatios[k] > 0.0;
      }
    }
  }

  /** Three images with ratios 2, 1 and 3 in a container 1000 wide: one
      row 484/3 high, whose widths 968/3, 484/3 and 484 fill the 968 left
      after the gutters. */
  lemma ThreeImageExample()
    ensures Layout(["a", "b", "c"], [2.0, 1.0, 3.0], 1000.0, 300.0, GroupCount(3))
         == [[Cell("a", 968.0 / 3.0, 484.0 / 3.0), Cell("b", 484.0 / 3.0, 484.0 / 3.0), Cell("c", 484.0, 484.0 / 3.0)]]
  {
    var images, ratios := ["a", "b", "c"], [2.0, 1.0, 3.0];
    assert GroupCount(3) == 1;
    assert ImageGroup(images, 0) == images && RatioGroup(ratios, 0) == ratios;
    assert KeptAt(images, ratios, 0) by {
      assert !Falsy(ratios[0]) && !Falsy(ratios[1]) && !Falsy(ratios[2]);
    }
    LayoutStep(images, ratios, 1000.0, 300.0, 0);
    var row := GroupRow(images, ratios, 1000.0, 300.0, 0);
    LayoutRowGeometry(images, ratios, 1000.0, 300.0);
    LayoutRowSrcs(images, ratios, 1000.0, 300.0);
    var h := row[0].height;
    assert Total(ratios) == 6.0;
    assert h * 6.0 == 968.0;
    assert row[0] == Cell("a", 968.0 / 3.0, 484.0 / 3.0);
    assert row[1] == Cell("b", 484.0 / 3.0, 484.0 / 3.0);
    assert row[2] == Cell("c", 484.0, 484.0 / 3.0);
    assert row == [row[0], row[1], row[2]];
  }
}
