/**
 * The integer geometry of wiggler.py: choosing the reference frame and
 * fitting each frame's crop window to it (`adjustZoom`), the clamp stage
 * of `crop_image_sides`, the boomerang order of `convertToGif`, and the
 * coordinate remapping helpers. Frame sizes are (height, width) as numpy
 * reports them; centres arrive as integer pixels, already rounded.
 */
module WigglerGeometry {
  import opened Common

  /** `arr.shape[:2]`: (H, W); a missing frame is recorded as (0, 0). */
  datatype Shape = Shape(h: int, w: int)

  predicate Usable(s: Shape) {
    s.h > 0 && s.w > 0
  }

  /**
   * r is the reference: a usable frame of least height, and no usable
   * frame before it is as short (ties go to the first).
   */
  predicate IsReference(shapes: seq<Shape>, r: nat) {
    && r < |shapes| && Usable(shapes[r])
    && (forall i :: 0 <= i < |shapes| && Usable(shapes[i]) ==> shapes[r].h <= shapes[i].h)
    && (forall i :: 0 <= i < r && Usable(shapes[i]) ==> shapes[i].h > shapes[r].h)
  }

  /** The reference-selection loop of `adjustZoom`. */
  method ChooseReference(shapes: seq<Shape>) returns (ref: Option<nat>)
    ensures ref.None? <==> forall i :: 0 <= i < |shapes| ==> !Usable(shapes[i])
    ensures ref.Some? ==> IsReference(shapes, ref.value)
  {
    ref := None;
    var refH := 0;
    for i := 0 to |shapes|
      invariant ref.None? <==> forall j :: 0 <= j < i ==> !Usable(shapes[j])
      invariant ref.Some? ==> ref.value < i && Usable(shapes[ref.value]) && refH == shapes[ref.value].h
      invariant ref.Some? ==> forall j :: 0 <= j < i && Usable(shapes[j]) ==> refH <= shapes[j].h
      invariant ref.Some? ==> forall j :: 0 <= j < ref.value && Usable(shapes[j]) ==> shapes[j].h > refH
    {
      var s := shapes[i];
      if s.h > 0 && s.w > 0 && (ref.None? || s.h < refH) {
        ref := Some(i);
        refH := s.h;
      }
    }
  }

  /** The specification picks one frame: the reference is unique. */
  lemma ReferenceUnique(shapes: seq<Shape>, a: nat, b: nat)
    requires IsReference(shapes, a) && IsReference(shapes, b)
    ensures a == b
  {
  }

  /** Border distances around the reference centre, counted inclusively of the centre pixel. */
  datatype Distances = Distances(left: int, right: int, top: int, bottom: int)

  function RefWidth(d: Distances): int {
    d.left + 1 + d.right
  }

  function RefHeight(d: Distances): int {
    d.top + 1 + d.bottom
  }

  /** `left_d`, `right_d`, `top_d`, `bottom_d` for a reference frame and its centre. */
  function BorderDistances(ref: Shape, cx: int, cy: int): (d: Distances)
    ensures 0 <= cx < ref.w ==> d.left >= 0 && d.right >= 0
    ensures 0 <= cy < ref.h ==> d.top >= 0 && d.bottom >= 0
  {
    Distances(cx, (ref.w - 1) - cx, cy, (ref.h - 1) - cy)
  }

  /** The desired window is exactly the reference frame's size, wherever its centre is. */
  lemma RefWindowIsRefSize(ref: Shape, cx: int, cy: int)
    ensures RefWidth(BorderDistances(ref, cx, cy)) == ref.w
    ensures RefHeight(BorderDistances(ref, cx, cy)) == ref.h
  {
  }

  /** A half-open pixel range [start, end) along one axis. */
  datatype Span = Span(start: int, end: int)

  function Len(s: Span): int {
    s.end - s.start
  }

  predicate Within(s: Span, extent: int) {
    0 <= s.start && s.end <= extent
  }

  /** The shift-don't-resize step: move right off a negative start, then left off an overlong end. */
  function ShiftInto(start: int, size: int, extent: int): (s: Span)
    ensures 0 <= size <= extent ==> Len(s) == size && Within(s, extent)
  {
    var a := if start < 0 then Span(0, size) else Span(start, start + size);
    if a.end > extent then Span(a.start - (a.end - extent), extent) else a
  }

  /** The final clamp of both ends to [0, extent]. */
  function ClampSpan(s: Span, extent: int): (r: Span)
    ensures extent >= 0 ==> Within(r, extent)
    ensures Within(s, extent) && s.start <= s.end ==> r == s
  {
    Span(Max(0, Min(s.start, extent)), Max(0, Min(s.end, extent)))
  }

  /** A window of the reference size that fits the frame is shifted into it whole. */
  lemma ShiftFits(start: int, size: int, extent: int)
    requires 0 <= size <= extent
    ensures var s := ShiftInto(start, size, extent);
      Len(s) == size && Within(s, extent) && ClampSpan(s, extent) == s
  {
  }

  /** Shifting and clamping keep a centre that lies in the frame inside the window. */
  lemma ShiftKeepsCentre(c: int, before: int, after: int, extent: int)
    requires 0 <= c < extent && before >= 0 && after >= 0
    ensures var s := ClampSpan(ShiftInto(c - before, before + 1 + after, extent), extent);
      s.start <= c < s.end && Within(s, extent)
  {
  }

  datatype Window = Window(x: Span, y: Span)

  /**
   * The window `adjustZoom` crops from a frame of the given shape whose
   * centre is (cx, cy): shifted, clamped, then either shrunk to 1 x 1 at the
   * clamped centre when empty, or resized symmetrically around the centre
   * when it lost the reference size.
   */
  function FitWindow(s: Shape, cx: int, cy: int, d: Distances): (win: Window)
    ensures var x := ClampSpan(ShiftInto(cx - d.left, RefWidth(d), s.w), s.w);
            var y := ClampSpan(ShiftInto(cy - d.top, RefHeight(d), s.h), s.h);
      (Len(x) <= 0 || Len(y) <= 0) && s.w >= 1 && s.h >= 1 ==>
        win == Window(Span(Clamp(0, s.w - 1, cx), Clamp(0, s.w - 1, cx) + 1),
                      Span(Clamp(0, s.h - 1, cy), Clamp(0, s.h - 1, cy) + 1))
  {
    var x := ClampSpan(ShiftInto(cx - d.left, RefWidth(d), s.w), s.w);
    var y := ClampSpan(ShiftInto(cy - d.top, RefHeight(d), s.h), s.h);
    if Len(x) <= 0 || Len(y) <= 0 then
      var sx, sy := Max(0, Min(cx, s.w - 1)), Max(0, Min(cy, s.h - 1));
      Window(Span(sx, Min(s.w, sx + 1)), Span(sy, Min(s.h, sy + 1)))
    else if Len(x) != RefWidth(d) || Len(y) != RefHeight(d) then
      Window(Span(cx - Min(d.left, cx), cx + Min(d.right, (s.w - 1) - cx) + 1),
             Span(cy - Min(d.top, cy), cy + Min(d.bottom, (s.h - 1) - cy) + 1))
    else Window(x, y)
  }

  /**
   * With the centre inside the frame and non-negative border distances,
   * the window lies inside the frame and contains the centre, and it is
   * never larger than the reference.
   */
  lemma FitWindowBounds(s: Shape, cx: int, cy: int, d: Distances)
    requires 0 <= cx < s.w && 0 <= cy < s.h
    requires d.left >= 0 && d.right >= 0 && d.top >= 0 && d.bottom >= 0
    ensures var win := FitWindow(s, cx, cy, d);
      && Within(win.x, s.w) && win.x.start <= cx < win.x.end
      && Within(win.y, s.h) && win.y.start <= cy < win.y.end
      && Len(win.x) <= RefWidth(d) && Len(win.y) <= RefHeight(d)
  {
    ShiftKeepsCentre(cx, d.left, d.right, s.w);
    ShiftKeepsCentre(cy, d.top, d.bottom, s.h);
  }

  /**
   * With the centre inside the frame and non-negative border distances,
   * neither clamped span is empty, so the window is never the 1 x 1
   * fallback.
   */
  lemma FitWindowNoFallback(s: Shape, cx: int, cy: int, d: Distances)
    requires 0 <= cx < s.w && 0 <= cy < s.h
    requires d.left >= 0 && d.right >= 0 && d.top >= 0 && d.bottom >= 0
    ensures Len(ClampSpan(ShiftInto(cx - d.left, RefWidth(d), s.w), s.w)) > 0
    ensures Len(ClampSpan(ShiftInto(cy - d.top, RefHeight(d), s.h), s.h)) > 0
  {
    ShiftKeepsCentre(cx, d.left, d.right, s.w);
    ShiftKeepsCentre(cy, d.top, d.bottom, s.h);
  }

  /**
   * A frame at least as large as the reference gets a window of exactly the
   * reference size: shifting alone makes it fit.
   */
  lemma FitWindowKeepsSize(s: Shape, cx: int, cy: int, d: Distances)
    requires RefWidth(d) <= s.w && RefHeight(d) <= s.h
    requires d.left >= 0 && d.right >= 0 && d.top >= 0 && d.bottom >= 0
    ensures var win := FitWindow(s, cx, cy, d);
      && win.x == ShiftInto(cx - d.left, RefWidth(d), s.w)
      && win.y == ShiftInto(cy - d.top, RefHeight(d), s.h)
      && Len(win.x) == RefWidth(d) && Len(win.y) == RefHeight(d)
      && Within(win.x, s.w) && Within(win.y, s.h)
  {
    ShiftFits(cx - d.left, RefWidth(d), s.w);
    ShiftFits(cy - d.top, RefHeight(d), s.h);
  }

  /**
   * `adjustZoom` after loading: pick the reference, take its border
   * distances from its own centre, and fit a window in every usable frame
   * (None for frames that are missing). None overall when no frame is usable.
   */
  method AdjustZoom(shapes: seq<Shape>, centres: seq<(int, int)>) returns (r: Option<seq<Option<Window>>>)
    requires |centres| == |shapes|
    ensures r.None? <==> forall i :: 0 <= i < |shapes| ==> !Usable(shapes[i])
    ensures r.Some? ==> exists ref: nat :: IsReference(shapes, ref) && r.value == ZoomWindows(shapes, centres, ref)
  {
    var ref := ChooseReference(shapes);
    if ref.None? {
      return None;
    }
    return Some(ZoomWindows(shapes, centres, ref.value));
  }

  function ZoomWindows(shapes: seq<Shape>, centres: seq<(int, int)>, ref: nat): (ws: seq<Option<Window>>)
    requires |centres| == |shapes| && ref < |shapes|
    ensures |ws| == |shapes|
    ensures forall i :: 0 <= i < |shapes| ==> (ws[i].None? <==> !Usable(shapes[i]))
  {
    var d := BorderDistances(shapes[ref], centres[ref].0, centres[ref].1);
    seq(|shapes|, i requires 0 <= i < |shapes| =>
      if Usable(shapes[i]) then Some(FitWindow(shapes[i], centres[i].0, centres[i].1, d)) else None)
  }

  /**
   * The frames are cropped to the reference size wherever they are large
   * enough, and the reference frame itself keeps its whole extent.
   */
  lemma ReferenceWindowIsWholeFrame(shapes: seq<Shape>, centres: seq<(int, int)>, ref: nat)
    requires |centres| == |shapes| && IsReference(shapes, ref)
    requires 0 <= centres[ref].0 < shapes[ref].w && 0 <= centres[ref].1 < shapes[ref].h
    ensures ZoomWindows(shapes, centres, ref)[ref] == Some(Window(Span(0, shapes[ref].w), Span(0, shapes[ref].h)))
  {
    var s := shapes[ref];
    var d := BorderDistances(s, centres[ref].0, centres[ref].1);
    FitWindowKeepsSize(s, centres[ref].0, centres[ref].1, d);
  }

  // ---------------------------------------------------------------------
  // crop_image_sides, integer stage
  // ---------------------------------------------------------------------

  /**
   * One axis of `crop_image_sides` up to the aspect fix: clamp the crop so
   * a pixel remains, crop from the start when positive and from the end
   * when negative, clamp both ends into the image, and widen an empty
   * range to one pixel.
   */
  function CropAxis(crop: int, extent: int): (s: Span)
    ensures Len(s) >= 1
    ensures extent >= 1 ==> Within(s, extent)
  {
    var m := Max(0, extent - 1);
    var c := Clamp(-m, m, crop);
    var s0 := if c > 0 then Span(c, extent) else if c < 0 then Span(0, extent - (-c)) else Span(0, extent);
    var s1 := ClampSpan(s0, extent);
    if Len(s1) <= 0 then
      var a := Max(0, Min(extent - 1, s1.start));
      Span(a, a + 1)
    else s1
  }

  /** The crop after clamping to what leaves one pixel. */
  function ClampedCrop(crop: int, extent: int): (c: int)
    ensures extent >= 1 ==> -(extent - 1) <= c <= extent - 1
    ensures extent >= 1 && -(extent - 1) <= crop <= extent - 1 ==> c == crop
  {
    var m := Max(0, extent - 1);
    Clamp(-m, m, crop)
  }

  /**
   * For a non-empty image the range is a single-sided crop by the clamped
   * amount: the later clamp and one-pixel stages never change it.
   */
  lemma CropAxisSingleSided(crop: int, extent: int)
    requires extent >= 1
    ensures var s, c := CropAxis(crop, extent), ClampedCrop(crop, extent);
      && 0 <= s.start < s.end <= extent
      && Len(s) == extent - (if c >= 0 then c else -c)
      && (c >= 0 ==> s.end == extent && s.start == c)
      && (c <= 0 ==> s.start == 0)
  {
  }

  /** An empty image still yields the one-pixel range at 0. */
  lemma CropAxisEmptyImage(crop: int, extent: int)
    requires extent <= 0
    ensures CropAxis(crop, extent) == Span(0, 1)
  {
  }

  /** The box both axes give: (x range, y range). */
  function CropBox(cropX: int, cropY: int, w: int, h: int): (win: Window)
    ensures w >= 1 && h >= 1 ==> Within(win.x, w) && Within(win.y, h) && Len(win.x) >= 1 && Len(win.y) >= 1
  {
    CropAxisSingleSidedIfNonEmpty(cropX, w);
    CropAxisSingleSidedIfNonEmpty(cropY, h);
    Window(CropAxis(cropX, w), CropAxis(cropY, h))
  }

  lemma CropAxisSingleSidedIfNonEmpty(crop: int, extent: int)
    ensures extent >= 1 ==> Within(CropAxis(crop, extent), extent) && Len(CropAxis(crop, extent)) >= 1
  {
    if extent >= 1 {
      CropAxisSingleSided(crop, extent);
    }
  }

  // ---------------------------------------------------------------------
  // convertToGif frame order
  // ---------------------------------------------------------------------

  /** `frames + frames[-2:0:-1]` for more than one frame; no GIF for none. */
  function Boomerang<T>(frames: seq<T>): (r: Option<seq<T>>)
    ensures r.None? <==> |frames| == 0
  {
    var n := |frames|;
    if n == 0 then None
    else if n == 1 then Some(frames)
    else Some(frames + seq(n - 2, j requires 0 <= j < n - 2 => frames[n - 2 - j]))
  }

  /** Which frame the i-th GIF frame shows: forward, then back towards the start. */
  function Bounce(n: nat, i: nat): (k: int)
    ensures i <= 2 * n - 2 ==> 0 <= k < n
    ensures i < n <==> k == i
  {
    if i < n then i else 2 * n - 2 - i
  }

  /**
   * The GIF of n > 1 frames has 2n - 2 steps and shows frame Bounce(n, i)
   * at step i; the first and last frames appear once each.
   */
  lemma BoomerangOrder<T>(frames: seq<T>)
    requires |frames| >= 2
    ensures var r := Boomerang(frames).value;
      && |r| == 2 * |frames| - 2
      && (forall i :: 0 <= i < |r| ==> 0 <= Bounce(|frames|, i) < |frames| && r[i] == frames[Bounce(|frames|, i)])
      && (forall i :: 0 <= i < |r| ==> (Bounce(|frames|, i) == 0 <==> i == 0))
      && (forall i :: 0 <= i < |r| ==> (Bounce(|frames|, i) == |frames| - 1 <==> i == |frames| - 1))
  {
  }

  /** Every middle frame is shown twice: once going forward and once coming back. */
  lemma BounceMiddle(n: nat, k: nat)
    requires 0 < k < n - 1
    ensures Bounce(n, k) == k && Bounce(n, 2 * n - 2 - k) == k
    ensures 2 * n - 2 - k != k
  {
  }

  predicate Step(a: int, b: int) {
    a - b == 1 || b - a == 1
  }

  /**
   * Consecutive GIF frames are neighbouring source frames, including the
   * wrap from the last step of the loop back to the first.
   */
  lemma BounceSteps(n: nat, i: nat)
    requires n >= 2 && i < 2 * n - 2
    ensures i + 1 < 2 * n - 2 ==> Step(Bounce(n, i), Bounce(n, i + 1))
    ensures i + 1 == 2 * n - 2 ==> Step(Bounce(n, i), Bounce(n, 0))
  {
  }

  /** One frame is shown as it is; the loop has nowhere to move. */
  lemma BoomerangSingle<T>(frames: seq<T>)
    requires |frames| == 1
    ensures Boomerang(frames) == Some(frames)
  {
  }

  // ---------------------------------------------------------------------
  // Coordinate remapping
  // ---------------------------------------------------------------------

  /** `remapCoordinates`: mirror x against `size[1]`, keep y. */
  function RemapCoordinates(focus: (int, int), size: (int, int)): (r: (int, int))
    ensures r.0 + focus.0 == size.1 && r.1 == focus.1
    ensures 0 <= focus.0 <= size.1 ==> 0 <= r.0 <= size.1
  {
    (size.1 - focus.0, focus.1)
  }

  /** `remapFullSize`: (size[1], size[0]). */
  function RemapFullSize(size: (int, int)): (r: (int, int))
    ensures r.0 == size.1 && r.1 == size.0
  {
    (size.1, size.0)
  }

  /** Mirroring twice against the same size, or swapping twice, changes nothing. */
  lemma RemapInvolutions(focus: (int, int), size: (int, int))
    ensures RemapCoordinates(RemapCoordinates(focus, size), size) == focus
    ensures RemapFullSize(RemapFullSize(size)) == size
  {
  }
}
