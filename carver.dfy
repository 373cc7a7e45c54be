/** `vertical_seam_carve`: one column removal, composed of the cumulative map,
    the backtrace and the removal loop. The gradient grid of the image is an
    input of the same shape as the image. */
module Carver {
  import opened Grids
  import opened CumulativeCost
  import opened SeamSelector
  import opened SeamRemover

  /** The seam list the pipeline computes for the gradient grid g. */
  function CarvedSeam(g: seq<seq<int>>): (s: seq<int>)
    requires IsGrid(g) && Cols(g) >= 1
    ensures |s| == |g| && IsPath(s, Cols(g))
  {
    BacktraceIsSeam(Cumulative(g));
    Backtrace(Cumulative(g))
  }

  /** The image the pipeline returns: row i loses the pixel at column
      CarvedSeam(g)[i]. The list is indexed by top-row index although it was
      built bottom row first, as in the source. */
  function CarvedImage<P>(img: seq<seq<P>>, g: seq<seq<int>>): (out: seq<seq<P>>)
    requires IsGrid(g) && Cols(g) >= 1 && |img| == |g|
    requires forall i :: 0 <= i < |img| ==> |img[i]| == Cols(g)
    ensures |out| == |img|
    ensures forall i :: 0 <= i < |out| ==> |out[i]| == Cols(g) - 1
  {
    var s := CarvedSeam(g);
    seq(|img|, i requires 0 <= i < |img| => RemoveAt(img[i], s[i]))
  }

  /** Shape and content of one carve: the height is unchanged, each row is one
      pixel shorter, it is the input row with exactly one pixel deleted (the
      others keep their order), and the deleted cells (i, s[i]) form a
      vertical 8-connected seam. */
  lemma CarveDeletesOnePixelPerRow<P>(img: seq<seq<P>>, g: seq<seq<int>>)
    requires IsGrid(g) && Cols(g) >= 1 && |img| == |g|
    requires forall i :: 0 <= i < |img| ==> |img[i]| == Cols(g)
    ensures |CarvedImage(img, g)| == |img|
    ensures forall i :: 0 <= i < |img| ==> |CarvedImage(img, g)[i]| == Cols(g) - 1
    ensures IsPath(CarvedSeam(g), Cols(g))
    ensures forall i :: 0 <= i < |img| ==>
              var k := CarvedSeam(g)[i];
              CarvedImage(img, g)[i][..k] + [img[i][k]] + CarvedImage(img, g)[i][k..] == img[i] &&
              multiset(CarvedImage(img, g)[i]) + multiset{img[i][k]} == multiset(img[i])
  {
    var s := CarvedSeam(g);
    forall i | 0 <= i < |img|
      ensures |CarvedImage(img, g)[i]| == Cols(g) - 1
      ensures CarvedImage(img, g)[i][..s[i]] + [img[i][s[i]]] + CarvedImage(img, g)[i][s[i]..] == img[i]
      ensures multiset(CarvedImage(img, g)[i]) + multiset{img[i][s[i]]} == multiset(img[i])
    {
      RemoveAtRoundTrip(img[i], s[i]);
    }
  }

  /** The removed cells read in the order of the list are a seam; read
      backwards they give, for each row, the column the rule chose for it. */
  lemma CarvedSeamMirrored(g: seq<seq<int>>)
    requires IsGrid(g) && Cols(g) >= 1
    ensures IsPath(Reverse(CarvedSeam(g)), Cols(g))
    ensures Reverse(CarvedSeam(g))[|g| - 1] == ArgMin(Cumulative(g)[|g| - 1])
    ensures forall i :: 0 <= i < |g| - 1 ==>
              Reverse(CarvedSeam(g))[i] == Step(Cumulative(g)[i], Reverse(CarvedSeam(g))[i + 1])
  {
    BacktraceMirrored(Cumulative(g));
  }

  /** `vertical_seam_carve` with the gradient grid as input: a fresh image of
      the same height and one column narrower, equal to CarvedImage. The
      source hands a zero-width array to the image library when the image is
      one column wide, so two columns are required. */
  method VerticalSeamCarve<P(0)>(img: array2<P>, grad: array2<int>) returns (newImg: array2<P>)
    requires img.Length0 >= 1 && img.Length1 >= 2
    requires grad.Length0 == img.Length0 && grad.Length1 == img.Length1
    ensures fresh(newImg)
    ensures newImg.Length0 == img.Length0 && newImg.Length1 == img.Length1 - 1
    ensures ToRows(newImg) == CarvedImage(ToRows(img), ToRows(grad))
  {
    ToRowsIsGrid(grad);
    ToRowsIsGrid(img);
    var energy := VerticalEnergyMap(grad);
    ToRowsIsGrid(energy);
    var seam := VerticalFindSeam(energy);
    newImg := RemoveSeam(img, seam);
    ghost var want := CarvedImage(ToRows(img), ToRows(grad));
    forall i | 0 <= i < img.Length0
      ensures ToRows(newImg)[i] == want[i]
    {
      assert Clamp(seam[i], img.Length1 - 1) == seam[i];
    }
  }
}
