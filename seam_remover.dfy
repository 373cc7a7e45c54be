/** The removal loop of `vertical_seam_carve`: a fresh image one column
    narrower, each row i the input row with the pixel at column seam[i]
    deleted and the pixels to its right shifted one place left. Pixels are an
    opaque type, since removal only moves them. */
module SeamRemover {
  import opened Grids

  /** Fills a fresh rows x (cols - 1) image cell by cell: output cell (i, j)
      is input cell (i, j) left of seam[i] and input cell (i, j + 1) from
      there on. The test `j < seam[i]` behaves as if seam[i] were clamped to
      [0, cols - 1], so a seam entry out of range deletes the nearest end
      pixel of the row. */
  method RemoveSeam<P(0)>(img: array2<P>, seam: seq<int>) returns (newImg: array2<P>)
    requires img.Length1 >= 1 && |seam| >= img.Length0
    ensures fresh(newImg)
    ensures newImg.Length0 == img.Length0 && newImg.Length1 == img.Length1 - 1
    ensures forall i :: 0 <= i < img.Length0 ==>
              ToRows(newImg)[i] == RemoveAt(ToRows(img)[i], Clamp(seam[i], img.Length1 - 1))
  {
    var rows, cols := img.Length0, img.Length1;
    newImg := new P[rows, cols - 1];
    for i := 0 to rows
      invariant forall r, k :: 0 <= r < i && 0 <= k < cols - 1 && k < seam[r] ==> newImg[r, k] == img[r, k]
      invariant forall r, k :: 0 <= r < i && 0 <= k < cols - 1 && k >= seam[r] ==> newImg[r, k] == img[r, k + 1]
    {
      for j := 0 to cols - 1
        invariant forall r, k :: 0 <= r < i && 0 <= k < cols - 1 && k < seam[r] ==> newImg[r, k] == img[r, k]
        invariant forall r, k :: 0 <= r < i && 0 <= k < cols - 1 && k >= seam[r] ==> newImg[r, k] == img[r, k + 1]
        invariant forall k :: 0 <= k < j && k < seam[i] ==> newImg[i, k] == img[i, k]
        invariant forall k :: 0 <= k < j && k >= seam[i] ==> newImg[i, k] == img[i, k + 1]
      {
        if j < seam[i] {
          newImg[i, j] := img[i, j];
        } else {
          newImg[i, j] := img[i, j + 1];
        }
      }
    }
    forall i | 0 <= i < rows
      ensures ToRows(newImg)[i] == RemoveAt(ToRows(img)[i], Clamp(seam[i], cols - 1))
    {
      var s, r, c := ToRows(img)[i], ToRows(newImg)[i], Clamp(seam[i], cols - 1);
      assert forall k :: 0 <= k < c ==> r[k] == s[k];
      assert forall k :: c <= k < |r| ==> r[k] == s[k + 1];
      ShiftedRowIsRemoveAt(s, r, c);
    }
  }
}
