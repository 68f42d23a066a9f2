/**
 * The pure buffer logic of ledControl.py: the colour `wheel`, `fade_all`
 * and `clear` on the RGB buffer, and the per-frame rules of the comet,
 * theater-chase and white effects. The strip driver, timing and the
 * endless effect loops are outside the model; each rule is one frame.
 */
module LedControl {
  import opened Common

  /** The buffer `make_strip` returns: one colour per LED. */
  type Buffer = seq<Rgb>

  // ---------------------------------------------------------------------
  // wheel
  // ---------------------------------------------------------------------

  /**
   * `wheel(pos)`: red to green to blue and back around 256 positions. The
   * channels always share 255 between them, one is off in each third, and
   * the colour depends on pos only modulo 256 (Python's `%` and Dafny's
   * agree for a positive divisor).
   */
  function Wheel(pos: int): (c: Rgb)
    ensures IsColour(c)
    ensures c.r + c.g + c.b == 255
    ensures pos % 256 < 85 ==> c.b == 0
    ensures 85 <= pos % 256 < 170 ==> c.g == 0
    ensures 170 <= pos % 256 ==> c.r == 0
  {
    var p := pos % 256;
    if p < 85 then Rgb(p * 3, 255 - p * 3, 0)
    else if p < 170 then Rgb(255 - (p - 85) * 3, 0, (p - 85) * 3)
    else Rgb(0, (p - 170) * 3, 255 - (p - 170) * 3)
  }

  /** Positions equal modulo 256 give the same colour. */
  lemma WheelPeriodic(p: int, q: int)
    requires p % 256 == q % 256
    ensures Wheel(p) == Wheel(q)
  {
  }

  predicate Near(a: int, b: int) {
    -3 <= a - b <= 3
  }

  /** One step along the wheel moves each channel by at most 3, across the wrap at 256 too. */
  lemma WheelContinuous(pos: int)
    ensures var c, d := Wheel(pos), Wheel(pos + 1);
      Near(c.r, d.r) && Near(c.g, d.g) && Near(c.b, d.b)
  {
    var p := pos % 256;
    if p == 255 {
      assert (pos + 1) % 256 == 0;
    } else {
      assert (pos + 1) % 256 == p + 1;
    }
  }

  // ---------------------------------------------------------------------
  // clear and fade_all
  // ---------------------------------------------------------------------

  /** `clear(buf)`: every LED off, the length kept. */
  function Clear(buf: Buffer): (r: Buffer)
    ensures |r| == |buf|
    ensures forall i :: 0 <= i < |r| ==> r[i] == Off
  {
    seq(|buf|, _ => Off)
  }

  function FadeChannel(c: int, amt: int): int {
    Max(0, c - amt)
  }

  function FadeColour(c: Rgb, amt: int): Rgb {
    Rgb(FadeChannel(c.r, amt), FadeChannel(c.g, amt), FadeChannel(c.b, amt))
  }

  predicate AllColours(buf: Buffer) {
    forall i :: 0 <= i < |buf| ==> IsColour(buf[i])
  }

  /**
   * `fade_all(buf, amount)`: every channel of every LED drops by the
   * amount, floored at 0; a negative amount counts as 0. Colours stay
   * colours, no channel grows, and the length is kept.
   */
  function FadeAll(buf: Buffer, amount: int): (r: Buffer)
    ensures |r| == |buf|
    ensures forall i :: 0 <= i < |r| ==>
      && r[i].r == Max(0, buf[i].r - Max(0, amount))
      && r[i].g == Max(0, buf[i].g - Max(0, amount))
      && r[i].b == Max(0, buf[i].b - Max(0, amount))
    ensures forall i :: 0 <= i < |r| ==>
      r[i].r <= Max(0, buf[i].r) && r[i].g <= Max(0, buf[i].g) && r[i].b <= Max(0, buf[i].b)
    ensures AllColours(buf) ==> AllColours(r)
    ensures amount <= 0 && AllColours(buf) ==> r == buf
  {
    var amt := Max(0, amount);
    seq(|buf|, i requires 0 <= i < |buf| => FadeColour(buf[i], amt))
  }

  /** Two fades are one fade by the sum of the (non-negative) amounts. */
  lemma FadeAllCompose(buf: Buffer, a: int, b: int)
    requires a >= 0 && b >= 0
    ensures FadeAll(FadeAll(buf, a), b) == FadeAll(buf, a + b)
  {
    var l, r := FadeAll(FadeAll(buf, a), b), FadeAll(buf, a + b);
    forall i | 0 <= i < |buf| ensures l[i] == r[i] {
    }
  }

  /** Fading a valid buffer by 255 or more is clearing it. */
  lemma FadeAllFullIsClear(buf: Buffer, amount: int)
    requires AllColours(buf) && amount >= 255
    ensures FadeAll(buf, amount) == Clear(buf)
  {
  }

  // ---------------------------------------------------------------------
  // effect_theater_chase
  // ---------------------------------------------------------------------

  /** The dot spacing: `max(1, gap)`. */
  function Spacing(gap: int): (g: int)
    ensures g >= 1
    ensures gap >= 1 ==> g == gap
  {
    Max(1, gap)
  }

  /**
   * One theater-chase frame drawn over the previous buffer: clear it, then
   * light every g-th LED from `step % g`. Exactly the LEDs whose index is
   * congruent to the step modulo g are lit, whatever the buffer showed.
   */
  method TheaterFrame(prev: Buffer, step: int, gap: int, colour: Rgb) returns (buf: Buffer)
    ensures |buf| == |prev|
    ensures forall i :: 0 <= i < |prev| ==>
      buf[i] == if i % Spacing(gap) == step % Spacing(gap) then colour else Off
  {
    var n, g := |prev|, Spacing(gap);
    buf := Clear(prev);
    var i := step % g;
    while i < n
      invariant step % g <= i && (i - step % g) % g == 0
      invariant |buf| == n
      invariant forall j :: 0 <= j < n ==>
        buf[j] == if j < i && j % g == step % g then colour else Off
      decreases n - i
    {
      buf := buf[i := colour];
      ModStride(i, g, step % g);
      i := i + g;
    }
  }

  /** Indices reached from s by whole strides are exactly those congruent to s. */
  lemma ModStride(i: int, g: int, s: int)
    requires g >= 1 && 0 <= s < g && s <= i && (i - s) % g == 0
    ensures i % g == s
    ensures forall j :: i < j < i + g ==> j % g != s
    ensures (i + g - s) % g == 0
  {
    var k := (i - s) / g;
    assert i == g * k + s;
    forall j | i < j < i + g ensures j % g != s {
      assert j == g * k + (s + (j - i));
      if s + (j - i) < g {
        DivModUnique(j, g, k, s + (j - i));
      } else {
        DivModUnique(j, g, k + 1, s + (j - i) - g);
      }
    }
    DivModUnique(i, g, k, s);
    DivModUnique(i + g - s, g, k + 1, 0);
  }

  /** The step after a frame: `(step + 1) % g`, always a valid offset. */
  function NextStep(step: int, gap: int): (s: int)
    ensures 0 <= s < Spacing(gap)
  {
    (step + 1) % Spacing(gap)
  }

  /** Successive frames move every lit dot one LED further along. */
  lemma TheaterAdvances(i: nat, step: int, gap: int)
    ensures (i + 1) % Spacing(gap) == NextStep(step, gap) <==> i % Spacing(gap) == step % Spacing(gap)
  {
    var g := Spacing(gap);
    ModShift(i, step, g);
  }

  lemma ModShift(i: int, s: int, g: int)
    requires g >= 1
    ensures (i + 1) % g == (s + 1) % g <==> i % g == s % g
  {
    ModSucc(i, g);
    ModSucc(s, g);
  }

  /** Adding one moves the remainder up by one, wrapping to zero at g. */
  lemma ModSucc(i: int, g: int)
    requires g >= 1
    ensures (i + 1) % g == if i % g + 1 < g then i % g + 1 else 0
  {
    var a := i / g;
    assert i == g * a + i % g;
    if i % g + 1 < g {
      DivModUnique(i + 1, g, a, i % g + 1);
    } else {
      DivModUnique(i + 1, g, a + 1, 0);
    }
  }

  // ---------------------------------------------------------------------
  // effect_comet
  // ---------------------------------------------------------------------

  /** The comet's head position and its direction of travel, +1 or -1. */
  datatype Comet = Comet(pos: int, dir: int)

  const CometStart := Comet(0, 1)

  /**
   * One comet frame: fade the buffer, paint the head (a Python list index,
   * so -n..n-1 is accepted and anything else raises), advance, and turn
   * round on reaching either end. None is the IndexError.
   */
  function CometFrame(buf: Buffer, c: Comet, colour: Rgb, fade: int): (r: Option<(Buffer, Comet)>)
    ensures r.None? <==> !(-|buf| <= c.pos < |buf|)
    ensures r.Some? ==> |r.value.0| == |buf|
  {
    var n := |buf|;
    if !(-n <= c.pos < n) then None
    else
      var at := if c.pos < 0 then c.pos + n else c.pos;
      var faded := FadeAll(buf, fade);
      var pos := c.pos + c.dir;
      var dir := if pos <= 0 || pos >= n - 1 then -c.dir else c.dir;
      Some((faded[at := colour], Comet(pos, dir)))
  }

  /** On a strip of n >= 2 LEDs: the head is on the strip and moving towards an end it has not reached. */
  predicate CometOk(n: int, c: Comet) {
    && 0 <= c.pos <= n - 1
    && (c.dir == 1 || c.dir == -1)
    && (c.dir == 1 ==> c.pos < n - 1)
    && (c.dir == -1 ==> c.pos > 0)
  }

  /**
   * With at least two LEDs the comet never leaves the strip: the start is
   * valid, every frame keeps it valid, paints the head and fades the
   * rest, and the direction flips exactly when the head reaches an end.
   */
  lemma CometBounces(buf: Buffer, c: Comet, colour: Rgb, fade: int)
    requires |buf| >= 2 && CometOk(|buf|, c)
    ensures CometOk(|buf|, CometStart)
    ensures var r := CometFrame(buf, c, colour, fade);
      && r.Some?
      && CometOk(|buf|, r.value.1)
      && r.value.0[c.pos] == colour
      && (forall i :: 0 <= i < |buf| && i != c.pos ==> r.value.0[i] == FadeAll(buf, fade)[i])
      && r.value.1.pos == c.pos + c.dir
      && (r.value.1.dir == -c.dir <==> r.value.1.pos == 0 || r.value.1.pos == |buf| - 1)
  {
  }

  /** A single LED: the first frame passes, the second indexes past the end. */
  lemma CometSingleLedFails(buf: Buffer, colour: Rgb, fade: int)
    requires |buf| == 1
    ensures var r := CometFrame(buf, CometStart, colour, fade);
      && r.Some? && r.value.1 == Comet(1, -1)
      && CometFrame(r.value.0, r.value.1, colour, fade).None?
  {
  }

  // ---------------------------------------------------------------------
  // effect_white
  // ---------------------------------------------------------------------

  /**
   * `max(1, int(0.7 / 0.02))`: 0.7 / 0.02 evaluates to exactly 35.0 in
   * double precision.
   */
  const RampSteps := 35

  /** The brightness after `max(0, min(255, int(brightness)))`. */
  function WhiteLevel(brightness: int): (b: int)
    ensures IsByte(b)
    ensures IsByte(brightness) ==> b == brightness
  {
    Clamp(0, 255, brightness)
  }

  /**
   * The ramp levels `int(b * step / steps)` for step = 1..steps. For these
   * small operands the double quotient truncates to the integer quotient.
   */
  function WhiteRamp(brightness: int): (levels: seq<int>)
    ensures |levels| == RampSteps
    ensures forall k :: 0 <= k < RampSteps ==> 0 <= levels[k] <= WhiteLevel(brightness)
    ensures levels[RampSteps - 1] == WhiteLevel(brightness)
  {
    var b := WhiteLevel(brightness);
    seq(RampSteps, k requires 0 <= k < RampSteps => RampLevel(b, k + 1))
  }

  function RampLevel(b: int, step: int): (l: int)
    requires IsByte(b) && 1 <= step <= RampSteps
    ensures 0 <= l <= b
    ensures step == RampSteps ==> l == b
  {
    DivBounded(b, step);
    b * step / RampSteps
  }

  lemma DivBounded(b: int, step: int)
    requires 0 <= b && 1 <= step <= RampSteps
    ensures 0 <= b * step / RampSteps <= b
  {
    assert 0 <= b * step <= b * RampSteps;
  }

  /** The ramp never dims: each level is at least the one before. */
  lemma WhiteRampNondecreasing(brightness: int, k: int)
    requires 0 <= k < RampSteps - 1
    ensures WhiteRamp(brightness)[k] <= WhiteRamp(brightness)[k + 1]
  {
    var b := WhiteLevel(brightness);
    assert WhiteRamp(brightness)[k] == RampLevel(b, k + 1) == b * (k + 1) / RampSteps;
    assert WhiteRamp(brightness)[k + 1] == RampLevel(b, k + 2) == b * (k + 2) / RampSteps;
    assert b * (k + 1) <= b * (k + 2);
    DivMonotone(b * (k + 1), b * (k + 2));
  }

  lemma DivMonotone(x: int, y: int)
    requires 0 <= x <= y
    ensures x / RampSteps <= y / RampSteps
  {
  }

  /** The frame the ramp shows at a level, and the colour it holds afterwards: grey at that level. */
  function WhiteFrame(n: nat, level: int): (buf: Buffer)
    ensures |buf| == n
    ensures forall i :: 0 <= i < n ==> buf[i] == Rgb(level, level, level)
  {
    seq(n, _ => Rgb(level, level, level))
  }
}
