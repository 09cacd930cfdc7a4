/** `face_blur` (faceblur.py:16-62) on the photo buffer it mutates: the photo is
    a two-dimensional array of pixels that the box loop updates in place, and
    the array's contents when the method returns are the image written to the
    destination file. Face detection runs outside the model; its result, the
    list of boxes in detection order, is a parameter. */
module FaceBlur {
  import opened Regions

  /** The photo's contents as a value. */
  ghost function Pixels<P>(photo: array2<P>): (g: Grid<P>)
    reads photo
    ensures IsRect(g) && |g| == photo.Length0
    ensures photo.Length0 > 0 ==> Width(g) == photo.Length1
  {
    var g := seq(photo.Length0, i requires 0 <= i < photo.Length0 reads photo =>
      seq(photo.Length1, j requires 0 <= j < photo.Length1 reads photo => photo[i, j]));
    assert forall i | 0 <= i < |g| :: |g[i]| == photo.Length1;
    g
  }

  /** Pixel (i, j) of the photo's contents is the array element at [i, j]. */
  lemma PixelsAt<P>(photo: array2<P>)
    ensures forall i, j | 0 <= i < photo.Length0 && 0 <= j < photo.Length1 ::
      Pixels(photo)[i][j] == photo[i, j]
  {
  }

  /** An image that agrees with `patch` inside the spans and with `g` elsewhere
      is the result of pasting `patch` into `g`. */
  lemma PasteIs<P>(g: Grid<P>, h: Grid<P>, rows: Span, cols: Span, patch: Grid<P>)
    requires IsRect(g) && rows.lo <= rows.hi <= |g| && cols.lo <= cols.hi <= Width(g)
    requires |patch| == rows.hi - rows.lo
    requires forall i | 0 <= i < |patch| :: |patch[i]| == cols.hi - cols.lo
    requires IsRect(h) && |h| == |g| && Width(h) == Width(g)
    requires forall i, j | 0 <= i < |g| && 0 <= j < Width(g) ::
      h[i][j] == if rows.lo <= i < rows.hi && cols.lo <= j < cols.hi
                 then patch[i - rows.lo][j - cols.lo] else g[i][j]
    ensures h == Paste(g, rows, cols, patch)
  {
    var r := Paste(g, rows, cols, patch);
    forall i, j | 0 <= i < |g| && 0 <= j < Width(g) ensures h[i][j] == r[i][j] {
      PasteAt(g, rows, cols, patch, i, j);
    }
    GridExt(h, r);
  }

  /** A region that holds the pixels of `g` inside the spans is their crop. */
  lemma CropIs<P>(g: Grid<P>, face: Grid<P>, rows: Span, cols: Span)
    requires IsRect(g) && rows.lo <= rows.hi <= |g| && cols.lo <= cols.hi <= Width(g)
    requires |face| == rows.hi - rows.lo
    requires forall i | 0 <= i < |face| :: |face[i]| == cols.hi - cols.lo
    requires forall i, j | 0 <= i < |face| && 0 <= j < cols.hi - cols.lo ::
      face[i][j] == g[rows.lo + i][cols.lo + j]
    ensures face == Crop(g, rows, cols)
  {
    var c := Crop(g, rows, cols);
    forall i | 0 <= i < |face| ensures face[i] == c[i] {
      forall j | 0 <= j < cols.hi - cols.lo ensures face[i][j] == c[i][j] {
        CropAt(g, rows, cols, i, j);
      }
      assert |face[i]| == |c[i]|;
    }
  }

  /** `photo[rows, cols]` read out of the array: the crop of the photo's contents. */
  method CutOut<P>(photo: array2<P>, rows: Span, cols: Span) returns (face: Grid<P>)
    requires rows.lo <= rows.hi <= photo.Length0 && cols.lo <= cols.hi <= photo.Length1
    ensures photo.Length0 > 0 ==> face == Crop(Pixels(photo), rows, cols)
    ensures |face| == rows.hi - rows.lo
  {
    face := seq(rows.hi - rows.lo, i requires 0 <= i < rows.hi - rows.lo reads photo =>
      seq(cols.hi - cols.lo, j requires 0 <= j < cols.hi - cols.lo reads photo =>
        photo[rows.lo + i, cols.lo + j]));
    if photo.Length0 > 0 {
      PixelsAt(photo);
      CropIs(Pixels(photo), face, rows, cols);
    }
  }

  /** `photo[rows, cols] = patch` on the array: the photo's contents become
      the paste of the patch into them. */
  method WriteBack<P>(photo: array2<P>, rows: Span, cols: Span, patch: Grid<P>)
    requires rows.lo <= rows.hi <= photo.Length0 && cols.lo <= cols.hi <= photo.Length1
    requires |patch| == rows.hi - rows.lo
    requires forall i | 0 <= i < |patch| :: |patch[i]| == cols.hi - cols.lo
    modifies photo
    ensures photo.Length0 > 0 ==> Pixels(photo) == Paste(old(Pixels(photo)), rows, cols, patch)
    ensures photo.Length0 == 0 ==> Pixels(photo) == []
  {
    ghost var g := Pixels(photo);
    PixelsAt(photo);
    forall i, j | rows.lo <= i < rows.hi && cols.lo <= j < cols.hi {
      photo[i, j] := patch[i - rows.lo][j - cols.lo];
    }
    if photo.Length0 > 0 {
      PixelsAt(photo);
      PasteIs(g, Pixels(photo), rows, cols, patch);
    }
  }

  /** One pass of the loop body (faceblur.py:48-55): cut out `photo[top:bottom,
      left:right]`, blur it, and assign the blurred copy back to the same slice. */
  method BlurRegion<P>(photo: array2<P>, b: Box, kernel: Kernel<P>)
    modifies photo
    ensures Pixels(photo) == BlurBox(old(Pixels(photo)), b, kernel)
  {
    ghost var g := Pixels(photo);
    var rows := SliceSpan(b.top, b.bottom, photo.Length0);
    var cols := SliceSpan(b.left, b.right, photo.Length1);
    var face := CutOut(photo, rows, cols);
    var blurred := Blurred(face, kernel);
    assert |face| > 0 ==> Width(face) == cols.hi - cols.lo;
    WriteBack(photo, rows, cols, blurred);
    if photo.Length0 > 0 {
      assert rows == Rows(g, b) && cols == Cols(g, b);
    }
  }

  /** The loop over the detected boxes (faceblur.py:41-55): each box is scaled
      by `zoom` and then blurred, in detection order. */
  method BlurFaces<P>(photo: array2<P>, faces: seq<Box>, zoom: int, kernel: Kernel<P>)
    modifies photo
    ensures Pixels(photo) == BlurAll(old(Pixels(photo)), RescaleAll(faces, zoom), kernel)
  {
    ghost var g := Pixels(photo);
    for n := 0 to |faces|
      invariant Pixels(photo) == BlurAll(g, RescaleAll(faces[..n], zoom), kernel)
    {
      var top, right, bottom, left := faces[n].top, faces[n].right, faces[n].bottom, faces[n].left;
      top := top * zoom;
      right := right * zoom;
      bottom := bottom * zoom;
      left := left * zoom;
      BlurRescaledStep(g, faces, n, zoom, kernel);
      BlurRegion(photo, Box(top, right, bottom, left), kernel);
    }
    assert faces[..|faces|] == faces;
  }

  /** `face_blur`: with no detected face the photo is written as read and the
      result is false (faceblur.py:32-37); otherwise every face is blurred and
      the result is true (faceblur.py:40-62). */
  method FaceBlur<P>(photo: array2<P>, faces: seq<Box>, zoom: int, kernel: Kernel<P>) returns (found: bool)
    modifies photo
    ensures found <==> faces != []
    ensures !found ==> Pixels(photo) == old(Pixels(photo))
    ensures found ==> Pixels(photo) == BlurAll(old(Pixels(photo)), RescaleAll(faces, zoom), kernel)
  {
    if faces == [] {
      return false;
    }
    BlurFaces(photo, faces, zoom, kernel);
    return true;
  }
}
