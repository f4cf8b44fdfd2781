/** The HSV gradient of the LED driver: 8.8 fixed point in wrapping 16-bit accumulators. */
module Gradient {
  import opened Bytes

  datatype Hsv = Hsv(h: byte, s: byte, v: byte)

  datatype Dir = FWD | BWD | SHORTEST | LONGEST

  function Wrap16(x: int): uint16 { x % 0x1_0000 }

  /** C division of a signed by an unsigned 16-bit number: toward zero. */
  function TruncDiv(a: int, n: nat): int
    requires n > 0
  {
    if a >= 0 then a / n else -((-a) / n)
  }

  function HueDelta(start: byte, end: byte): nat { (end as int - start as int) % 256 }

  function Resolve(dir: Dir, hueDelta: nat): Dir {
    match dir
    case SHORTEST => if hueDelta > 127 then BWD else FWD
    case LONGEST => if hueDelta < 128 then BWD else FWD
    case _ => dir
  }

  /** The way from start to end in 1/128 hue units, negative when going backward. */
  function HueDist(start: byte, end: byte, dir: Dir): int {
    var d := HueDelta(start, end);
    if Resolve(dir, d) == FWD then 128 * d else -128 * ((256 - d) % 256)
  }

  /** The same for saturation and value. */
  function Dist(start: byte, end: byte): int { 128 * (end as int - start as int) }

  /** Where a channel is after k of n steps, in 1/256 units and without wrapping. */
  function Exact(start: byte, dist: int, n: nat, k: nat): int
    requires n > 0
  {
    256 * start as int + 2 * (k * TruncDiv(dist, n))
  }

  /** What its accumulator holds. */
  function Accum(start: byte, dist: int, n: nat, k: nat): uint16
    requires n > 0
  {
    Wrap16(Exact(start, dist, n, k))
  }

  function High(x: uint16): byte { (x / 256) as byte }

  function Colour(start: Hsv, end: Hsv, dir: Dir, n: nat, k: nat): Hsv
    requires n > 0
  {
    Hsv(High(Accum(start.h, HueDist(start.h, end.h, dir), n, k)),
        High(Accum(start.s, Dist(start.s, end.s), n, k)),
        High(Accum(start.v, Dist(start.v, end.v), n, k)))
  }

  // ----- arithmetic ------------------------------------------------------------------------------------

  /** k truncated steps of n never pass the distance, and n of them miss it by less than n. */
  lemma StepsStayShort(a: nat, n: nat, k: nat)
    requires 0 < n && k <= n
    ensures 0 <= k * (a / n) <= n * (a / n) <= a
    ensures a - n * (a / n) <= n - 1
  {
    var q := a / n;
    assert a == n * q + a % n;
    assert k * q <= n * q by {
      Times(n - k, q);
      assert n * q - k * q == (n - k) * q;
    }
    Times(k, q);
  }

  lemma Times(a: nat, b: nat)
    ensures a * b >= 0
  {}

  lemma TravelBounds(dist: int, n: nat, k: nat)
    requires 0 < n && k <= n
    ensures dist >= 0 ==> 0 <= k * TruncDiv(dist, n) <= dist
    ensures dist <= 0 ==> dist <= k * TruncDiv(dist, n) <= 0
    ensures -(n - 1) <= dist - n * TruncDiv(dist, n) <= n - 1
  {
    if dist >= 0 {
      StepsStayShort(dist, n, k);
    } else {
      StepsStayShort(-dist, n, k);
      var q := (-dist) / n;
      assert k * -q == -(k * q) && n * -q == -(n * q);
    }
  }

  // ----- saturation and value --------------------------------------------------------------------------

  /** The accumulator never wraps and stays between start and end. */
  lemma ChannelBounds(start: byte, end: byte, n: nat, k: nat)
    requires 0 < n && k <= n
    ensures var x := Exact(start, Dist(start, end), n, k);
            && Accum(start, Dist(start, end), n, k) == x
            && (start <= end ==> 256 * start as int <= x <= 256 * end as int)
            && (end <= start ==> 256 * end as int <= x <= 256 * start as int)
  {
    hide TruncDiv;
    var dist := Dist(start, end);
    TravelBounds(dist, n, k);
    var t := k * TruncDiv(dist, n);
    assert start <= end ==> 0 <= t <= dist;
    assert end <= start ==> dist <= t <= 0;
    assert 0 <= 256 * start as int + 2 * t < 0x1_0000;
  }

  /** All n steps taken, it is within 2 (n - 1) / 256 of the end. */
  lemma ChannelError(start: byte, end: byte, n: nat)
    requires 0 < n
    ensures -2 * (n - 1) <= Accum(start, Dist(start, end), n, n) - 256 * end as int <= 2 * (n - 1)
  {
    hide TruncDiv, Accum;
    ChannelBounds(start, end, n, n);
    TravelBounds(Dist(start, end), n, n);
  }

  /** The size of one step, in 1/256 units. */
  function StepSize(dist: int, n: nat): nat
    requires n > 0
  {
    var q := TruncDiv(dist, n);
    2 * if q >= 0 then q else -q
  }

  /**
   The last colour shown is the one after n - 1 steps, which misses the end by one step
   more; the byte shown leaves off up to 255 units of that.
   */
  lemma LastChannelError(start: byte, end: byte, n: nat)
    requires 0 < n
    ensures var last := Accum(start, Dist(start, end), n, n - 1);
            var most := 2 * (n - 1) + StepSize(Dist(start, end), n);
            && -most <= last - 256 * end as int <= most
            && -most - 255 <= 256 * (High(last) as int - end as int) <= most
  {
    hide TruncDiv, Accum;
    var q := TruncDiv(Dist(start, end), n);
    ChannelBounds(start, end, n, n - 1);
    TravelBounds(Dist(start, end), n, n);
    Distribute(n - 1, 1, q);
  }

  /** Steps go one way only. */
  lemma ChannelMonotone(start: byte, end: byte, n: nat, j: nat, k: nat)
    requires 0 < n && j <= k <= n
    ensures start <= end ==> Accum(start, Dist(start, end), n, j) <= Accum(start, Dist(start, end), n, k)
    ensures end <= start ==> Accum(start, Dist(start, end), n, k) <= Accum(start, Dist(start, end), n, j)
  {
    hide TruncDiv;
    ChannelBounds(start, end, n, j);
    ChannelBounds(start, end, n, k);
    TravelBounds(Dist(start, end), n, 1);
    var q := TruncDiv(Dist(start, end), n);
    Distribute(j, k - j, q);
    if start <= end {
      Times(k - j, q);
    } else {
      Negate(k - j, q);
      Times(k - j, -q);
    }
  }

  lemma Distribute(a: int, b: int, q: int)
    ensures (a + b) * q == a * q + b * q
  {}

  lemma Negate(a: int, q: int)
    ensures a * -q == -(a * q)
  {}

  // ----- hue ---------------------------------------------------------------------------------------------

  /** The full distance leads exactly to the end hue, modulo 2^16. */
  lemma HueDistReaches(start: byte, end: byte, dir: Dir)
    ensures (256 * start as int + 2 * HueDist(start, end, dir) - 256 * end as int) % 0x1_0000 == 0
    ensures -255 * 128 <= HueDist(start, end, dir) <= 255 * 128
  {
    var d, e := HueDelta(start, end), end as int - start as int;
    assert d == if e >= 0 then e else e + 256;
    assert (256 - d) % 256 == if d == 0 then 0 else 256 - d;
    hide HueDelta, Resolve;
  }

  /** How far n truncated steps miss the full distance, in 1/256 units. */
  function HueMiss(start: byte, end: byte, dir: Dir, n: nat): int
    requires n > 0
  {
    2 * (n * TruncDiv(HueDist(start, end, dir), n) - HueDist(start, end, dir))
  }

  /** Modulo 2^16 the hue ends within 2 (n - 1) of the end hue. */
  lemma HueError(start: byte, end: byte, dir: Dir, n: nat)
    requires 0 < n
    ensures var err := HueMiss(start, end, dir, n);
            && -2 * (n - 1) <= err <= 2 * (n - 1)
            && Accum(start, HueDist(start, end, dir), n, n) == Wrap16(256 * end as int + err)
  {
    hide TruncDiv, HueDist;
    var dist := HueDist(start, end, dir);
    TravelBounds(dist, n, n);
    HueDistReaches(start, end, dir);
    WrapEqual(Exact(start, dist, n, n), 256 * end as int + HueMiss(start, end, dir, n));
  }

  /** And one step before that, where the last colour shown is, within one step more. */
  lemma LastHueError(start: byte, end: byte, dir: Dir, n: nat)
    requires 0 < n
    ensures var dist := HueDist(start, end, dir);
            var err := HueMiss(start, end, dir, n) - 2 * TruncDiv(dist, n);
            var most := 2 * (n - 1) + StepSize(dist, n);
            -most <= err <= most && Accum(start, dist, n, n - 1) == Wrap16(256 * end as int + err)
  {
    hide TruncDiv, HueDist;
    var dist := HueDist(start, end, dir);
    var err := HueMiss(start, end, dir, n) - 2 * TruncDiv(dist, n);
    HueError(start, end, dir, n);
    HueDistReaches(start, end, dir);
    Distribute(n - 1, 1, TruncDiv(dist, n));
    WrapEqual(Exact(start, dist, n, n - 1), 256 * end as int + err);
  }

  lemma WrapEqual(x: int, y: int)
    requires (x - y) % 0x1_0000 == 0
    ensures Wrap16(x) == Wrap16(y)
  {}

  /** Shortest goes at most half way round, longest at least half way unless the hues are equal, the others one way. */
  lemma HueDistRange(start: byte, end: byte)
    ensures -128 * 128 <= HueDist(start, end, SHORTEST) <= 127 * 128
    ensures start != end ==> HueDist(start, end, LONGEST) <= -129 * 128 || HueDist(start, end, LONGEST) >= 128 * 128
    ensures start == end ==> HueDist(start, end, LONGEST) == 0
    ensures 0 <= HueDist(start, end, FWD) <= 255 * 128 && -255 * 128 <= HueDist(start, end, BWD) <= 0
  {
    var d := HueDelta(start, end);
    assert start == end <==> d == 0;
    assert d == 0 || (256 - d) % 256 == 256 - d;
  }

  /** On its way the hue never leaves that range, in 1/256 units, and never goes back past its start. */
  lemma HueTravel(start: byte, end: byte, dir: Dir, n: nat, k: nat)
    requires 0 < n && k <= n
    ensures var dist := HueDist(start, end, dir);
            var travelled := Exact(start, dist, n, k) - 256 * start as int;
            && (dist >= 0 ==> 0 <= travelled <= 2 * dist)
            && (dist <= 0 ==> 2 * dist <= travelled <= 0)
            && (dir == SHORTEST ==> -128 * 256 <= travelled <= 127 * 256)
  {
    HueDistRange(start, end);
    hide TruncDiv, HueDist;
    TravelBounds(HueDist(start, end, dir), n, k);
  }

  // ----- the bytes shown -----------------------------------------------------------------------------------

  /** Each byte shown is the whole part of its accumulator. */
  lemma ShownBytes(start: Hsv, end: Hsv, dir: Dir, n: nat, k: nat)
    requires 0 < n
    ensures var c := Colour(start, end, dir, n, k);
            && 256 * c.h as int <= Accum(start.h, HueDist(start.h, end.h, dir), n, k) < 256 * (c.h as int + 1)
            && 256 * c.s as int <= Accum(start.s, Dist(start.s, end.s), n, k) < 256 * (c.s as int + 1)
            && 256 * c.v as int <= Accum(start.v, Dist(start.v, end.v), n, k) < 256 * (c.v as int + 1)
  {
    hide Accum, HueDist, Dist;
    assert forall x: uint16 :: 256 * High(x) as int <= x < 256 * (High(x) as int + 1);
  }

  /** The accumulators are 16 bits of what they stand for. */
  lemma WrapIs(x: int)
    ensures (Wrap16(x) - x) % 0x1_0000 == 0
    ensures 0 <= x < 0x1_0000 ==> Wrap16(x) == x
  {}

  /** The last hue shown misses the end hue, modulo 2^16, by at most the error of its accumulator and 255 units. */
  lemma LastHueShown(start: Hsv, end: Hsv, dir: Dir, n: nat) returns (err: int)
    requires 0 < n
    ensures var most := 2 * (n - 1) + StepSize(HueDist(start.h, end.h, dir), n);
            -most - 255 <= err <= most
    ensures var c := Colour(start, end, dir, n, n - 1);
            (256 * c.h as int - (256 * end.h as int + err)) % 0x1_0000 == 0
  {
    hide TruncDiv, HueDist, Accum, Wrap16;
    var dist := HueDist(start.h, end.h, dir);
    var e := HueMiss(start.h, end.h, dir, n) - 2 * TruncDiv(dist, n);
    LastHueError(start.h, end.h, dir, n);
    ShownBytes(start, end, dir, n, n - 1);
    WrapIs(256 * end.h as int + e);
    err := e - (Accum(start.h, dist, n, n - 1) - 256 * Colour(start, end, dir, n, n - 1).h as int);
  }

  /** The high byte of a wrapped accumulator, in whole hues. */
  lemma HighOfWrap(s: byte, t: int)
    ensures High(Wrap16(256 * s as int + t)) as int == (s as int + t / 256) % 256
  {
    var whole := s as int + t / 256;
    assert 256 * s as int + t == 256 * whole + t % 256;
    assert whole == 256 * (whole / 256) + whole % 256;
    RemainderIs(256 * s as int + t, whole / 256, 256 * (whole % 256) + t % 256);
  }

  lemma RemainderIs(x: int, q: int, r: int)
    requires x == 0x1_0000 * q + r && 0 <= r < 0x1_0000
    ensures Wrap16(x) == r
  {}

  /** The hue shown moves one way round the circle: its way from the start only grows, and never past the end. */
  lemma HueInOrder(start: Hsv, end: Hsv, dir: Dir, n: nat, j: nat, k: nat) returns (x: int, y: int)
    requires 0 < n && j <= k <= n
    ensures Colour(start, end, dir, n, j).h as int == (start.h as int + x) % 256
    ensures Colour(start, end, dir, n, k).h as int == (start.h as int + y) % 256
    ensures var way := HueDist(start.h, end.h, dir) / 128;
            && (start.h as int + way) % 256 == end.h as int
            && (way >= 0 ==> 0 <= x <= y <= way) && (way <= 0 ==> way <= y <= x <= 0)
  {
    var dist := HueDist(start.h, end.h, dir);
    WholeWay(start.h, end.h, dir);
    hide TruncDiv, HueDist, Wrap16, High;
    var q := TruncDiv(dist, n);
    x, y := 2 * (j * q) / 256, 2 * (k * q) / 256;
    HighOfWrap(start.h, 2 * (j * q));
    HighOfWrap(start.h, 2 * (k * q));
    TravelBounds(dist, n, j);
    TravelBounds(dist, n, k);
    TravelBounds(dist, n, 1);
    Distribute(j, k - j, q);
    if q >= 0 {
      Times(k - j, q);
    } else {
      Negate(k - j, q);
      Times(k - j, -q);
    }
  }

  lemma WholeWay(start: byte, end: byte, dir: Dir)
    ensures var way := HueDist(start, end, dir) / 128;
            HueDist(start, end, dir) == 128 * way && (start as int + way) % 256 == end as int
  {
    var d, e := HueDelta(start, end), end as int - start as int;
    assert d == if e >= 0 then e else e + 256;
    assert (256 - d) % 256 == if d == 0 then 0 else 256 - d;
    hide HueDelta, Resolve;
  }

  ghost predicate Between(a: byte, x: byte, y: byte, b: byte) {
    (a <= b ==> a <= x <= y <= b) && (b <= a ==> b <= y <= x <= a)
  }

  /** The colours shown at two steps lie between start and end, the later one nearer the end. */
  lemma ColoursInOrder(start: Hsv, end: Hsv, dir: Dir, n: nat, j: nat, k: nat)
    requires 0 < n && j <= k <= n
    ensures var x, y := Colour(start, end, dir, n, j), Colour(start, end, dir, n, k);
            Between(start.s, x.s, y.s, end.s) && Between(start.v, x.v, y.v, end.v)
  {
    ShownInOrder(start.s, end.s, n, j, k);
    ShownInOrder(start.v, end.v, n, j, k);
  }

  lemma ShownInOrder(start: byte, end: byte, n: nat, j: nat, k: nat)
    requires 0 < n && j <= k <= n
    ensures Between(start, High(Accum(start, Dist(start, end), n, j)), High(Accum(start, Dist(start, end), n, k)), end)
  {
    hide Exact, Accum, Dist;
    ChannelBounds(start, end, n, j);
    ChannelBounds(start, end, n, k);
    ChannelMonotone(start, end, n, j, k);
  }

  lemma AccumZero(start: byte, dist: int, n: nat)
    requires n > 0
    ensures Accum(start, dist, n, 0) == 256 * start as int && High(Accum(start, dist, n, 0)) == start
  {}

  // ----- the iterator ------------------------------------------------------------------------------------

  lemma AccumStep(start: byte, dist: int, n: nat, k: nat)
    requires n > 0
    ensures Wrap16(Accum(start, dist, n, k) + Wrap16(2 * TruncDiv(dist, n))) == Accum(start, dist, n, k + 1)
  {
    hide TruncDiv, Wrap16;
    var q := TruncDiv(dist, n);
    Distribute(k, 1, q);
    WrapAdd(Exact(start, dist, n, k), 2 * q);
  }

  lemma WrapAdd(x: int, y: int)
    ensures Wrap16(Wrap16(x) + Wrap16(y)) == Wrap16(x + y)
  {
    WrapEqual(Wrap16(x) + Wrap16(y), x + y);
  }

  /** The gradient begins with the start colour itself. */
  lemma ColourZero(start: Hsv, end: Hsv, dir: Dir, n: nat)
    requires n > 0
    ensures Colour(start, end, dir, n, 0) == start
  {
    hide TruncDiv, Exact, Accum, HueDist, Dist;
    AccumZero(start.h, HueDist(start.h, end.h, dir), n);
    AccumZero(start.s, Dist(start.s, end.s), n);
    AccumZero(start.v, Dist(start.v, end.v), n);
  }

  /** The hue part of `get_gradient_iter`; every intermediate value fits 16 signed bits. */
  method HueDistance(start: byte, end: byte, direction: Dir) returns (hueDist: int16)
    ensures hueDist == HueDist(start, end, direction)
  {
    var hueDelta8 := (end as int - start as int) % 256;
    var dir := direction;
    match direction {
      case SHORTEST =>
        dir := FWD;
        if hueDelta8 > 127 {
          dir := BWD;
        }
      case LONGEST =>
        dir := FWD;
        if hueDelta8 < 128 {
          dir := BWD;
        }
      case _ =>
    }
    if dir == FWD {
      hueDist := hueDelta8 * 128;
    } else {
      hueDist := (256 - hueDelta8) % 256 * 128;
      hueDist := -hueDist;
    }
  }

  class Iter {
    var numSteps: uint16
    var stepIdx: uint16
    var hueStart: uint16
    var satStart: uint16
    var valStart: uint16
    var hueAccum: uint16
    var satAccum: uint16
    var valAccum: uint16
    var hueDelta: uint16
    var satDelta: uint16
    var valDelta: uint16

    constructor () {
      numSteps, stepIdx := 0, 0;
      hueStart, satStart, valStart := 0, 0, 0;
      hueAccum, satAccum, valAccum := 0, 0, 0;
      hueDelta, satDelta, valDelta := 0, 0, 0;
    }

    /** Set up for this gradient and k steps along it. */
    ghost predicate At(start: Hsv, end: Hsv, dir: Dir, n: uint16, k: nat)
      reads this
      requires n > 0
    {
      && numSteps == n
      && hueStart == 256 * start.h as int && satStart == 256 * start.s as int && valStart == 256 * start.v as int
      && hueDelta == Wrap16(2 * TruncDiv(HueDist(start.h, end.h, dir), n))
      && satDelta == Wrap16(2 * TruncDiv(Dist(start.s, end.s), n))
      && valDelta == Wrap16(2 * TruncDiv(Dist(start.v, end.v), n))
      && hueAccum == Accum(start.h, HueDist(start.h, end.h, dir), n, k)
      && satAccum == Accum(start.s, Dist(start.s, end.s), n, k)
      && valAccum == Accum(start.v, Dist(start.v, end.v), n, k)
    }

    /** `get_gradient_iter`; the intermediate distances fit 16 signed bits. */
    method Init(start: Hsv, end: Hsv, direction: Dir, n: uint16)
      requires n > 0
      modifies this
      ensures At(start, end, direction, n, 0) && stepIdx == 0
    {
      hide TruncDiv, Exact, Accum, HueDist, Wrap16;
      AccumZero(start.h, HueDist(start.h, end.h, direction), n);
      AccumZero(start.s, Dist(start.s, end.s), n);
      AccumZero(start.v, Dist(start.v, end.v), n);
      var satDist: int16 := (end.s as int - start.s as int) * 128;
      var valDist: int16 := (end.v as int - start.v as int) * 128;
      var hueDist := HueDistance(start.h, end.h, direction);
      numSteps := n;
      stepIdx := 0;
      hueDelta := Wrap16(TruncDiv(hueDist, n) * 2);
      satDelta := Wrap16(TruncDiv(satDist, n) * 2);
      valDelta := Wrap16(TruncDiv(valDist, n) * 2);
      hueAccum := 256 * start.h as int;
      satAccum := 256 * start.s as int;
      valAccum := 256 * start.v as int;
      hueStart := hueAccum;
      satStart := satAccum;
      valStart := valAccum;
    }

    method Advance(ghost start: Hsv, ghost end: Hsv, ghost dir: Dir, ghost k: nat)
      requires numSteps > 0 && At(start, end, dir, numSteps, k)
      modifies this`hueAccum, this`satAccum, this`valAccum
      ensures At(start, end, dir, numSteps, k + 1)
    {
      hide TruncDiv, Exact, Accum, HueDist, Dist;
      AccumStep(start.h, HueDist(start.h, end.h, dir), numSteps, k);
      AccumStep(start.s, Dist(start.s, end.s), numSteps, k);
      AccumStep(start.v, Dist(start.v, end.v), numSteps, k);
      hueAccum := Wrap16(hueAccum + hueDelta);
      satAccum := Wrap16(satAccum + satDelta);
      valAccum := Wrap16(valAccum + valDelta);
    }

    function Shown(): Hsv
      reads this
    {
      Hsv(High(hueAccum), High(satAccum), High(valAccum))
    }
  }

  class Segment {
    const pixels: array<Hsv>
    const gradIter: Iter

    constructor (numPixels: nat)
      ensures fresh(pixels) && fresh(gradIter) && pixels.Length == numPixels
    {
      pixels := new Hsv[numPixels](_ => Hsv(0, 0, 0));
      gradIter := new Iter();
    }

    method FillSolid(color: Hsv)
      modifies pixels
      ensures forall i :: 0 <= i < pixels.Length ==> pixels[i] == color
    {
      for i := 0 to pixels.Length
        invariant forall j :: 0 <= j < i ==> pixels[j] == color
      {
        pixels[i] := color;
      }
    }

    /** Pixel i shows the gradient after i steps. */
    method FillGradient(start: Hsv, end: Hsv, dir: Dir, startIdx: uint16, endIdx: uint16)
      requires startIdx <= endIdx && endIdx - startIdx + 1 <= pixels.Length && endIdx - startIdx < 0xFFFF
      modifies pixels
      ensures var n := endIdx - startIdx + 1;
              && (forall i :: 0 <= i < n ==> pixels[i] == Colour(start, end, dir, n, i))
              && (forall i :: n <= i < pixels.Length ==> pixels[i] == old(pixels[i]))
    {
      hide TruncDiv, Exact, Accum, HueDist, Dist;
      var iter := new Iter();
      var numSteps: uint16 := (endIdx - startIdx) + 1;
      iter.Init(start, end, dir, numSteps);
      for i := 0 to numSteps
        invariant iter.At(start, end, dir, numSteps, i)
        invariant forall j :: 0 <= j < i ==> pixels[j] == Colour(start, end, dir, numSteps, j)
        invariant forall j :: i <= j < pixels.Length ==> pixels[j] == old(pixels[j])
      {
        pixels[i] := iter.Shown();
        iter.Advance(start, end, dir, i);
      }
    }

    /** A running blend: k steps along this gradient, the colour of that step on every pixel. */
    ghost predicate Blending(start: Hsv, end: Hsv, dir: Dir, n: uint16, k: nat)
      reads this, gradIter, pixels
    {
      && 0 < n && k < n && gradIter.stepIdx == k
      && gradIter.At(start, end, dir, n, k)
      && (forall i :: 0 <= i < pixels.Length ==> pixels[i] == Colour(start, end, dir, n, k))
    }

    method BlendInit(start: Hsv, end: Hsv, dir: Dir, n: uint16)
      requires n > 0
      modifies gradIter, pixels
      ensures Blending(start, end, dir, n, 0)
      ensures forall i :: 0 <= i < pixels.Length ==> pixels[i] == start
    {
      hide TruncDiv, Exact, Accum, HueDist, Dist;
      ColourZero(start, end, dir, n);
      gradIter.Init(start, end, dir, n);
      FillSolid(start);
    }

    /** One call of `blend` after the first; `expired` is the timer test. */
    method Blend(expired: bool, ghost start: Hsv, ghost end: Hsv, ghost dir: Dir, ghost n: uint16, ghost k: nat)
      requires Blending(start, end, dir, n, k)
      modifies gradIter, pixels
      ensures var k' := if !expired then k else if k + 1 == n then 0 else k + 1;
              && Blending(start, end, dir, n, k')
              && forall i :: 0 <= i < pixels.Length ==> pixels[i] == Colour(start, end, dir, n, k')
    {
      hide TruncDiv, Exact, Accum, HueDist, Dist;
      if expired {
        ColourZero(start, end, dir, n);
        AccumZero(start.h, HueDist(start.h, end.h, dir), n);
        AccumZero(start.s, Dist(start.s, end.s), n);
        AccumZero(start.v, Dist(start.v, end.v), n);
        gradIter.Advance(start, end, dir, k);
        for i := 0 to pixels.Length
          invariant forall j :: 0 <= j < i ==> pixels[j] == gradIter.Shown()
          modifies pixels
        {
          pixels[i] := gradIter.Shown();
        }
        gradIter.stepIdx := gradIter.stepIdx + 1;
        if gradIter.stepIdx == gradIter.numSteps {
          FillSolid(Hsv(High(gradIter.hueStart), High(gradIter.satStart), High(gradIter.valStart)));
          gradIter.hueAccum := gradIter.hueStart;
          gradIter.satAccum := gradIter.satStart;
          gradIter.valAccum := gradIter.valStart;
          gradIter.stepIdx := 0;
        }
      }
    }

    /** Over any run of calls the blend shows the step that the number of expiries gives, modulo n. */
    method BlendRun(expiries: seq<bool>, start: Hsv, end: Hsv, dir: Dir, n: uint16)
      requires n > 0
      modifies gradIter, pixels
      ensures Blending(start, end, dir, n, Count(true, expiries) % n)
      ensures forall i :: 0 <= i < pixels.Length ==> pixels[i] == Colour(start, end, dir, n, Count(true, expiries) % n)
    {
      hide TruncDiv, Exact, Accum, HueDist, Dist, Colour;
      BlendInit(start, end, dir, n);
      for i := 0 to |expiries|
        invariant Blending(start, end, dir, n, Count(true, expiries[..i]) % n)
      {
        assert expiries[..i + 1][..i] == expiries[..i];
        NextModulo(Count(true, expiries[..i]), n);
        Blend(expiries[i], start, end, dir, n, Count(true, expiries[..i]) % n);
      }
      assert expiries[..|expiries|] == expiries;
    }
  }

  lemma NextModulo(t: nat, n: nat)
    requires n > 0
    ensures (t + 1) % n == if t % n + 1 == n then 0 else t % n + 1
  {
    var q, r := t / n, t % n;
    assert t == q * n + r;
    if r + 1 == n {
      assert (q + 1) * n == q * n + n;
      ModuloIs(t + 1, q + 1, 0, n);
    } else {
      ModuloIs(t + 1, q, r + 1, n);
    }
  }

  lemma ModuloIs(t: nat, q: nat, r: nat, n: nat)
    requires r < n && t == q * n + r
    ensures t % n == r
  {
    var d := t / n - q;
    assert t == t / n * n + t % n;
    assert d * n == r - t % n by {
      assert d * n == t / n * n - q * n;
    }
    if d >= 1 {
      assert d * n == n + (d - 1) * n;
      Times(d - 1, n);
    } else if d <= -1 {
      assert -d * n == n + (-d - 1) * n;
      assert -d * n == -(d * n);
      Times(-d - 1, n);
    }
  }
}
