/** The pixel arithmetic of `face_blur` (faceblur.py:41-55) as values: a face box,
    its rescaling by `zoom_in`, numpy's half-open slice `photo[top:bottom,
    left:right]`, and the replacement of that slice by its blurred copy, one box
    after another. The Gaussian kernel is a parameter: given the cut-out region
    and a position in it, it yields the blurred pixel there, so the blurred
    region always has the shape of the region it came from. */
module Regions {

  /** An image as rows of pixels; a photo is rectangular (see IsRect). */
  type Grid<P> = seq<seq<P>>

  /** The blur collaborator: blurred pixel at (row, column) of a cut-out region. */
  type Kernel<!P> = (Grid<P>, nat, nat) -> P

  /** A detected face location, in the order the detector reports it. */
  datatype Box = Box(top: int, right: int, bottom: int, left: int)

  /** A half-open index range [lo, hi). */
  datatype Span = Span(lo: nat, hi: nat)

  function Width<P>(g: Grid<P>): nat {
    if |g| == 0 then 0 else |g[0]|
  }

  predicate IsRect<P>(g: Grid<P>) {
    forall i | 0 <= i < |g| :: |g[i]| == Width(g)
  }

  /** Every coordinate of the box multiplied by `zoom` (faceblur.py:43-46). */
  function Rescale(b: Box, zoom: int): (r: Box)
    ensures zoom == 1 ==> r == b
  {
    Box(b.top * zoom, b.right * zoom, b.bottom * zoom, b.left * zoom)
  }

  /** Rescale every box, keeping detection order. */
  function RescaleAll(faces: seq<Box>, zoom: int): (r: seq<Box>)
    ensures |r| == |faces|
    ensures forall k | 0 <= k < |r| :: r[k] == Rescale(faces[k], zoom)
  {
    seq(|faces|, k requires 0 <= k < |faces| => Rescale(faces[k], zoom))
  }

  /** Rescaling a prefix one box longer adds that box, rescaled, at the end. */
  lemma RescaleAllPrefix(faces: seq<Box>, n: nat, zoom: int)
    requires n < |faces|
    ensures RescaleAll(faces[..n + 1], zoom) == RescaleAll(faces[..n], zoom) + [Rescale(faces[n], zoom)]
  {
    var r := RescaleAll(faces[..n + 1], zoom);
    assert r[..n] == RescaleAll(faces[..n], zoom);
  }

  /** With the default `zoom_in=1` the boxes are used exactly as detected. */
  lemma RescaleByDefault(faces: seq<Box>)
    ensures RescaleAll(faces, 1) == faces
  {
  }

  /** A face at (10, 50, 60, 5) found on a photo shrunk by 2 is blurred at (20, 100, 120, 10). */
  lemma RescaleScenario()
    ensures Rescale(Box(10, 50, 60, 5), 2) == Box(20, 100, 120, 10)
  {
  }

  /** Python's normalisation of one slice bound against a length `n`: a negative
      bound counts from the end, and the result is clamped into [0, n]. */
  function SliceIndex(x: int, n: nat): (r: nat)
    ensures r <= n
  {
    if x < 0 then (if x + n < 0 then 0 else x + n)
    else if x > n then n
    else x
  }

  /** The positions selected by `[start:stop]` on an axis of length `n`. */
  function SliceSpan(start: int, stop: int, n: nat): (s: Span)
    ensures s.lo <= s.hi <= n
  {
    var lo := SliceIndex(start, n);
    var hi := SliceIndex(stop, n);
    Span(lo, if hi < lo then lo else hi)
  }

  /** Reference reading of a step-1 slice: position `k` is selected when it lies
      between the two bounds, each taken from the end when negative. */
  predicate Selects(start: int, stop: int, n: nat, k: int) {
    var a := if start < 0 then start + n else start;
    var b := if stop < 0 then stop + n else stop;
    0 <= k < n && a <= k < b
  }

  lemma SliceSpanSelects(start: int, stop: int, n: nat, k: int)
    ensures SliceSpan(start, stop, n).lo <= k < SliceSpan(start, stop, n).hi <==>
            Selects(start, stop, n, k)
  {
  }

  /** With non-negative bounds (as the detector reports them) the slice is
      empty exactly when `start >= stop` or the start is past the end. */
  lemma SliceEmptyIff(start: int, stop: int, n: nat)
    requires 0 <= start && 0 <= stop
    ensures SliceSpan(start, stop, n).lo == SliceSpan(start, stop, n).hi <==>
            start >= stop || start >= n
  {
  }

  function Rows<P>(g: Grid<P>, b: Box): Span {
    SliceSpan(b.top, b.bottom, |g|)
  }

  function Cols<P>(g: Grid<P>, b: Box): Span {
    SliceSpan(b.left, b.right, Width(g))
  }

  /** Pixel (i, j) lies in the slice `[top:bottom, left:right]` of a photo of
      height `h` and width `w`. */
  predicate InRegion(b: Box, h: nat, w: nat, i: int, j: int) {
    var rows := SliceSpan(b.top, b.bottom, h);
    var cols := SliceSpan(b.left, b.right, w);
    rows.lo <= i < rows.hi && cols.lo <= j < cols.hi
  }

  /** `photo[rows, cols]`: the sub-image the box selects. */
  function Crop<P>(g: Grid<P>, rows: Span, cols: Span): (r: Grid<P>)
    requires IsRect(g) && rows.lo <= rows.hi <= |g| && cols.lo <= cols.hi <= Width(g)
    ensures |r| == rows.hi - rows.lo && IsRect(r) && (|r| > 0 ==> Width(r) == cols.hi - cols.lo)
  {
    seq(rows.hi - rows.lo, i requires 0 <= i < rows.hi - rows.lo =>
      seq(cols.hi - cols.lo, j requires 0 <= j < cols.hi - cols.lo =>
        g[rows.lo + i][cols.lo + j]))
  }

  /** Pixel (i, j) of the crop is pixel (rows.lo + i, cols.lo + j) of the image. */
  lemma CropAt<P>(g: Grid<P>, rows: Span, cols: Span, i: nat, j: nat)
    requires IsRect(g) && rows.lo <= rows.hi <= |g| && cols.lo <= cols.hi <= Width(g)
    requires i < rows.hi - rows.lo && j < cols.hi - cols.lo
    ensures |Crop(g, rows, cols)[i]| == cols.hi - cols.lo
    ensures Crop(g, rows, cols)[i][j] == g[rows.lo + i][cols.lo + j]
  {
  }

  /** `cv2.GaussianBlur(face_image, ...)`: a region of the same shape whose
      pixel (i, j) is the kernel's value there. */
  function Blurred<P>(face: Grid<P>, kernel: Kernel<P>): (r: Grid<P>)
    ensures |r| == |face| && IsRect(r) && Width(r) == Width(face)
  {
    seq(|face|, i requires 0 <= i < |face| =>
      seq(Width(face), j requires 0 <= j < Width(face) => kernel(face, i, j)))
  }

  /** Pixel (i, j) of the blurred region is the kernel's value there. */
  lemma BlurredAt<P>(face: Grid<P>, kernel: Kernel<P>, i: nat, j: nat)
    requires i < |face| && j < Width(face)
    ensures Blurred(face, kernel)[i][j] == kernel(face, i, j)
  {
  }

  /** `photo[rows, cols] = patch`: numpy's slice assignment of a patch of the
      slice's own shape. */
  function Paste<P>(g: Grid<P>, rows: Span, cols: Span, patch: Grid<P>): (r: Grid<P>)
    requires IsRect(g) && rows.lo <= rows.hi <= |g| && cols.lo <= cols.hi <= Width(g)
    requires |patch| == rows.hi - rows.lo
    requires forall i | 0 <= i < |patch| :: |patch[i]| == cols.hi - cols.lo
    ensures IsRect(r) && |r| == |g| && Width(r) == Width(g)
  {
    var r := seq(|g|, i requires 0 <= i < |g| =>
      seq(|g[i]|, j requires 0 <= j < |g[i]| =>
        if rows.lo <= i < rows.hi && cols.lo <= j < cols.hi
        then patch[i - rows.lo][j - cols.lo] else g[i][j]));
    assert forall i | 0 <= i < |g| :: |r[i]| == |g[i]| == Width(g);
    assert |g| > 0 ==> Width(r) == |g[0]|;
    r
  }

  /** Pixel (i, j) after the paste: the patch's pixel inside the spans, the
      image's own outside them. */
  lemma PasteAt<P>(g: Grid<P>, rows: Span, cols: Span, patch: Grid<P>, i: nat, j: nat)
    requires IsRect(g) && rows.lo <= rows.hi <= |g| && cols.lo <= cols.hi <= Width(g)
    requires |patch| == rows.hi - rows.lo
    requires forall i | 0 <= i < |patch| :: |patch[i]| == cols.hi - cols.lo
    requires i < |g| && j < Width(g)
    ensures Paste(g, rows, cols, patch)[i][j] ==
      if rows.lo <= i < rows.hi && cols.lo <= j < cols.hi
      then patch[i - rows.lo][j - cols.lo] else g[i][j]
  {
  }

  /** The image after `photo[top:bottom, left:right] = blur(photo[top:bottom,
      left:right])` for one box (faceblur.py:49-55); its pixels are described
      by BlurBoxPixel. */
  function BlurBox<P>(g: Grid<P>, b: Box, kernel: Kernel<P>): (r: Grid<P>)
    requires IsRect(g)
    ensures IsRect(r) && |r| == |g| && Width(r) == Width(g)
  {
    var rows, cols := Rows(g, b), Cols(g, b);
    Paste(g, rows, cols, Blurred(Crop(g, rows, cols), kernel))
  }

  /** One box: a pixel outside its region keeps its value, and a pixel inside
      becomes the kernel's value at that position of the region cut out of the
      image as it was before the box. */
  lemma BlurBoxPixel<P>(g: Grid<P>, b: Box, kernel: Kernel<P>, i: nat, j: nat)
    requires IsRect(g) && i < |g| && j < Width(g)
    ensures var rows, cols := Rows(g, b), Cols(g, b);
      BlurBox(g, b, kernel)[i][j] ==
        if InRegion(b, |g|, Width(g), i, j)
        then kernel(Crop(g, rows, cols), i - rows.lo, j - cols.lo)
        else g[i][j]
  {
    var rows, cols := Rows(g, b), Cols(g, b);
    var face := Crop(g, rows, cols);
    var blurred := Blurred(face, kernel);
    assert BlurBox(g, b, kernel) == Paste(g, rows, cols, blurred);
    assert InRegion(b, |g|, Width(g), i, j) <==> rows.lo <= i < rows.hi && cols.lo <= j < cols.hi;
    PasteAt(g, rows, cols, blurred, i, j);
    if InRegion(b, |g|, Width(g), i, j) {
      BlurredAt(face, kernel, i - rows.lo, j - cols.lo);
    }
  }

  /** The image after the loop over `boxes` (faceblur.py:41-55): each box in
      turn replaces its region by the blur of what the region holds by then. */
  function BlurAll<P>(g: Grid<P>, boxes: seq<Box>, kernel: Kernel<P>): (r: Grid<P>)
    requires IsRect(g)
    ensures IsRect(r) && |r| == |g| && Width(r) == Width(g)
    decreases |boxes|
  {
    if boxes == [] then g
    else BlurBox(BlurAll(g, boxes[..|boxes| - 1], kernel), boxes[|boxes| - 1], kernel)
  }

  /** One more box at the end of the list is one more BlurBox on the result. */
  lemma BlurAllSnoc<P>(g: Grid<P>, boxes: seq<Box>, b: Box, kernel: Kernel<P>)
    requires IsRect(g)
    ensures BlurAll(g, boxes + [b], kernel) == BlurBox(BlurAll(g, boxes, kernel), b, kernel)
  {
    assert (boxes + [b])[..|boxes|] == boxes;
  }

  /** Rescaling and blurring one more box of the detected list. */
  lemma BlurRescaledStep<P>(g: Grid<P>, faces: seq<Box>, n: nat, zoom: int, kernel: Kernel<P>)
    requires IsRect(g) && n < |faces|
    ensures BlurAll(g, RescaleAll(faces[..n + 1], zoom), kernel) ==
      BlurBox(BlurAll(g, RescaleAll(faces[..n], zoom), kernel), Rescale(faces[n], zoom), kernel)
  {
    RescaleAllPrefix(faces, n, zoom);
    BlurAllSnoc(g, RescaleAll(faces[..n], zoom), Rescale(faces[n], zoom), kernel);
  }

  /** Two images of the same shape that agree on every pixel are equal. */
  lemma GridExt<P>(g: Grid<P>, h: Grid<P>)
    requires IsRect(g) && IsRect(h) && |g| == |h| && Width(g) == Width(h)
    requires forall i, j | 0 <= i < |g| && 0 <= j < Width(g) :: g[i][j] == h[i][j]
    ensures g == h
  {
    forall i | 0 <= i < |g| ensures g[i] == h[i] {
      assert |g[i]| == |h[i]|;
    }
  }

  /** A box whose slice is empty in either direction changes nothing. */
  lemma EmptyBoxUnchanged<P>(g: Grid<P>, b: Box, kernel: Kernel<P>)
    requires IsRect(g)
    requires Rows(g, b).lo == Rows(g, b).hi || Cols(g, b).lo == Cols(g, b).hi
    ensures BlurBox(g, b, kernel) == g
  {
    forall i, j | 0 <= i < |g| && 0 <= j < Width(g) ensures BlurBox(g, b, kernel)[i][j] == g[i][j] {
      BlurBoxPixel(g, b, kernel, i, j);
    }
    GridExt(BlurBox(g, b, kernel), g);
  }

  /** In particular a detected box with `top >= bottom` or `left >= right` and
      non-negative coordinates changes nothing. */
  lemma InvertedBoxUnchanged<P>(g: Grid<P>, b: Box, kernel: Kernel<P>)
    requires IsRect(g)
    requires 0 <= b.top && 0 <= b.right && 0 <= b.bottom && 0 <= b.left
    requires b.top >= b.bottom || b.left >= b.right
    ensures BlurBox(g, b, kernel) == g
  {
    EmptyBoxUnchanged(g, b, kernel);
  }

  /** A pixel outside every box's region keeps its value through the whole loop. */
  lemma {:induction false} BlurAllOutside<P>(g: Grid<P>, boxes: seq<Box>, kernel: Kernel<P>, i: nat, j: nat)
    requires IsRect(g) && i < |g| && j < Width(g)
    requires forall k | 0 <= k < |boxes| :: !InRegion(boxes[k], |g|, Width(g), i, j)
    ensures BlurAll(g, boxes, kernel)[i][j] == g[i][j]
    decreases |boxes|
  {
    if boxes != [] {
      var prefix := boxes[..|boxes| - 1];
      BlurAllOutside(g, prefix, kernel, i, j);
      assert !InRegion(boxes[|boxes| - 1], |g|, Width(g), i, j);
      BlurBoxPixel(BlurAll(g, prefix, kernel), boxes[|boxes| - 1], kernel, i, j);
    }
  }

  /** Running the boxes of `xs` and then those of `ys` is running `xs + ys`. */
  lemma {:induction false} BlurAllAppend<P>(g: Grid<P>, xs: seq<Box>, ys: seq<Box>, kernel: Kernel<P>)
    requires IsRect(g)
    ensures BlurAll(g, xs + ys, kernel) == BlurAll(BlurAll(g, xs, kernel), ys, kernel)
    decreases |ys|
  {
    if ys == [] {
      assert xs + ys == xs;
    } else {
      assert (xs + ys)[..|xs + ys| - 1] == xs + ys[..|ys| - 1];
      BlurAllAppend(g, xs, ys[..|ys| - 1], kernel);
    }
  }

  /** Boxes are applied in list order: the first box acts on the original image
      and the remaining boxes on its result. */
  lemma BlurAllFirst<P>(g: Grid<P>, b: Box, rest: seq<Box>, kernel: Kernel<P>)
    requires IsRect(g)
    ensures BlurAll(g, [b] + rest, kernel) == BlurAll(BlurBox(g, b, kernel), rest, kernel)
  {
    BlurAllSnoc(g, [], b, kernel);
    assert [] + [b] == [b];
    BlurAllAppend(g, [b], rest, kernel);
  }

  /** An overlap is blurred again: inside the last box's region, the result is
      the kernel applied to the region as the earlier boxes left it, so a pixel
      covered by several boxes is blurred once per box. */
  lemma BlurAllLast<P>(g: Grid<P>, boxes: seq<Box>, b: Box, kernel: Kernel<P>, i: nat, j: nat)
    requires IsRect(g) && i < |g| && j < Width(g)
    requires InRegion(b, |g|, Width(g), i, j)
    ensures var before := BlurAll(g, boxes, kernel);
      BlurAll(g, boxes + [b], kernel)[i][j] ==
      kernel(Crop(before, Rows(before, b), Cols(before, b)), i - Rows(before, b).lo, j - Cols(before, b).lo)
  {
    var before := BlurAll(g, boxes, kernel);
    BlurAllSnoc(g, boxes, b, kernel);
    assert InRegion(b, |before|, Width(before), i, j);
    BlurBoxPixel(before, b, kernel, i, j);
  }
}
