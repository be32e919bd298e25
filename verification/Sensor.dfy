/** The sensor pipeline: the moving average of src/math/filters.hpp over 16-bit samples, the calibration curves of
    src/math/calibration.hpp over the reals, and SensorDriver::read of src/hardware/sensor_driver.cpp.
  */
module Sensor {
  import opened Bytes
  import HostTables
  import TelemetryRing

  const WORD: nat := 0x10000
  const WINDOW: nat := 8

  type uint16 = x: int | 0 <= x < WORD

  // ---------------------------------------------------------------------------
  // The moving average
  // ---------------------------------------------------------------------------

  function Sum(s: seq<uint16>): nat {
    if s == [] then 0 else Sum(s[..|s| - 1]) + s[|s| - 1]
  }

  /** The last `n` samples, or all when there are fewer. */
  function LastOf(s: seq<uint16>, n: nat): seq<uint16> {
    if |s| <= n then s else s[|s| - n..]
  }

  lemma {:induction false} SumOfSum(a: seq<uint16>, b: seq<uint16>)
    ensures Sum(a + b) == Sum(a) + Sum(b)
  {
    if b == [] {
      assert a + b == a;
    } else {
      assert (a + b)[..|a + b| - 1] == a + b[..|b| - 1];
      SumOfSum(a, b[..|b| - 1]);
    }
  }

  lemma {:induction false} SumBound(s: seq<uint16>, top: nat)
    requires forall i :: 0 <= i < |s| ==> s[i] <= top
    ensures Sum(s) <= |s| * top
  {
    if s != [] {
      SumBound(s[..|s| - 1], top);
    }
  }

  /** What leaves and what enters the window with one more sample. */
  lemma WindowMoves(s: seq<uint16>, v: uint16)
    ensures Sum(LastOf(s + [v], WINDOW))
            == Sum(LastOf(s, WINDOW)) - (if |s| >= WINDOW then s[|s| - WINDOW] else 0) + v
  {
    var t := s + [v];
    if |s| < WINDOW {
      assert LastOf(s, WINDOW) == s && LastOf(t, WINDOW) == t;
      SumOfSum(s, [v]);
      assert Sum([v]) == Sum([]) + v;
    } else {
      var rest := s[|s| - WINDOW + 1..];
      assert LastOf(s, WINDOW) == [s[|s| - WINDOW]] + rest;
      assert LastOf(t, WINDOW) == rest + [v];
      SumOfSum([s[|s| - WINDOW]], rest);
      SumOfSum(rest, [v]);
      assert Sum([v]) == Sum([]) + v && Sum([s[|s| - WINDOW]]) == Sum([]) + s[|s| - WINDOW];
    }
  }

  function Reduced(x: int): uint16 {
    x % WORD
  }

  /** MovingAverage<uint16_t, 8>: the running sum has 16 bits like the samples. */
  class MovingAverage {
    const buf: array<uint16>
    var idx: nat
    var count: nat
    var sum: uint16
    ghost var added: seq<uint16>   // since the last reset

    ghost predicate Valid()
      reads this, buf
    {
      buf.Length == WINDOW && idx == |added| % WINDOW && count == Min(|added|, WINDOW)
      && (forall p :: |added| - count <= p < |added| ==> buf[p % WINDOW] == added[p])
      && (forall i :: |added| <= i < WINDOW ==> buf[i] == 0)
      && sum == Reduced(Sum(LastOf(added, WINDOW)))
    }

    constructor ()
      ensures Valid() && added == [] && fresh(buf)
    {
      buf := new uint16[WINDOW](_ => 0);
      idx, count, sum, added := 0, 0, 0, [];
    }

    method Add(value: uint16)
      requires Valid()
      modifies this, buf
      ensures Valid() && added == old(added) + [value]
    {
      hide Sum, LastOf, Reduced;
      ghost var n := |added|;
      ghost var leaving: uint16 := if n >= WINDOW then added[n - WINDOW] else 0;
      assert buf[idx] == leaving by { SlotOfOldest(n); }
      sum := Reduced(sum - buf[idx]);
      buf[idx] := value;
      sum := Reduced(sum + value);
      idx := (idx + 1) % WINDOW;
      if count < WINDOW {
        count := count + 1;
      }
      WindowMoves(added, value);
      SumsReduce(Sum(LastOf(added, WINDOW)), leaving, value);
      added := added + [value];
      assert idx == (n + 1) % WINDOW by { NextSlot(n); }
      forall p | |added| - count <= p < n
        ensures buf[p % WINDOW] == added[p]
      {
        SlotsDiffer(p, n);
        assert old(added)[p] == added[p];
      }
    }

    method Get() returns (r: uint16)
      requires Valid()
      ensures r == if added == [] then 0 else Reduced(Sum(LastOf(added, WINDOW))) / |LastOf(added, WINDOW)|
    {
      r := if count != 0 then sum / count else 0;
    }

    method Reset()
      requires Valid()
      modifies this, buf
      ensures Valid() && added == []
    {
      idx, count, sum, added := 0, 0, 0, [];
      for i := 0 to WINDOW
        invariant idx == 0 && count == 0 && sum == 0 && added == []
        invariant forall k :: 0 <= k < i ==> buf[k] == 0
      {
        buf[i] := 0;
      }
    }
  }

  lemma NextSlot(n: nat)
    ensures (n % WINDOW + 1) % WINDOW == (n + 1) % WINDOW
  {
  }

  lemma SlotOfOldest(n: nat)
    ensures n >= WINDOW ==> n % WINDOW == (n - WINDOW) % WINDOW
    ensures n < WINDOW ==> n % WINDOW == n
  {
  }

  lemma SlotsDiffer(p: nat, n: nat)
    requires p < n < p + WINDOW
    ensures p % WINDOW != n % WINDOW
  {
  }

  lemma SumsReduce(s: nat, leaving: uint16, value: uint16)
    ensures Reduced(Reduced(Reduced(s) - leaving) + value) == Reduced(s - leaving + value)
  {
  }

  /** The floor average of the last eight samples comes out exactly when their true sum fits the 16-bit sum. */
  lemma AverageIsExactIfItFits(added: seq<uint16>)
    requires added != []
    ensures var w := LastOf(added, WINDOW);
            Reduced(Sum(w)) / |w| == Sum(w) / |w| <==> Sum(w) < 0x1_0000
  {
  }

  /** Samples of the 12-bit converter never make the sum wrap. */
  lemma TwelveBitsFit(added: seq<uint16>)
    requires forall i :: 0 <= i < |added| ==> added[i] <= 4095
    ensures Sum(LastOf(added, WINDOW)) < WORD
  {
    SumBound(LastOf(added, WINDOW), 4095);
  }

  // ---------------------------------------------------------------------------
  // Calibration curves
  // ---------------------------------------------------------------------------

  datatype Point = Point(raw: nat, eng: real)

  function Interpolated(raw: nat, a: Point, b: Point): real {
    if b.raw == a.raw then a.eng
    else a.eng + (b.eng - a.eng) * (raw as real - a.raw as real) / (b.raw as real - a.raw as real)
  }

  /** The search from the `i`-th point on. */
  function OnSegments(raw: nat, pts: seq<Point>, i: nat): real
    requires 0 < i <= |pts|
    decreases |pts| - i
  {
    if i == |pts| then pts[|pts| - 1].eng
    else if raw <= pts[i].raw then Interpolated(raw, pts[i - 1], pts[i])
    else OnSegments(raw, pts, i + 1)
  }

  function CalibrateCurve(raw: nat, pts: seq<Point>): real {
    if |pts| == 0 then 0.0
    else if raw <= pts[0].raw then pts[0].eng
    else if raw >= pts[|pts| - 1].raw then pts[|pts| - 1].eng
    else OnSegments(raw, pts, 1)
  }

  ghost predicate Sorted(pts: seq<Point>) {
    forall i, j :: 0 <= i < j < |pts| ==> pts[i].raw < pts[j].raw
  }

  ghost predicate Rising(pts: seq<Point>) {
    forall i, j :: 0 <= i < j < |pts| ==> pts[i].eng <= pts[j].eng
  }

  ghost predicate Falling(pts: seq<Point>) {
    forall i, j :: 0 <= i < j < |pts| ==> pts[i].eng >= pts[j].eng
  }

  function ShareOf(raw: nat, a: Point, b: Point): real
    requires a.raw < b.raw
  {
    (raw as real - a.raw as real) / (b.raw as real - a.raw as real)
  }

  function Along(start: real, d: real, s: real): real {
    start + d * s
  }

  lemma InterpolatedIs(raw: nat, a: Point, b: Point)
    requires a.raw < b.raw && a.raw <= raw <= b.raw
    ensures Interpolated(raw, a, b) == Along(a.eng, b.eng - a.eng, ShareOf(raw, a, b))
    ensures 0.0 <= ShareOf(raw, a, b) <= 1.0
    ensures raw == b.raw ==> ShareOf(raw, a, b) == 1.0
  {
    var w := b.raw as real - a.raw as real;
    var v := raw as real - a.raw as real;
    ProductQuotient(b.eng - a.eng, v, w);
    ShareBounds(v, w);
  }

  lemma ShareBounds(v: real, w: real)
    requires 0.0 <= v <= w && w > 0.0
    ensures 0.0 <= v / w <= 1.0
    ensures v == w ==> v / w == 1.0
  {
  }

  lemma ProductQuotient(x: real, v: real, w: real)
    requires w != 0.0
    ensures x * v / w == x * (v / w)
  {
  }

  /** On one rising segment: between its ends, and monotone. */
  lemma SegmentRises(x: nat, y: nat, a: Point, b: Point)
    requires a.raw < b.raw && a.eng <= b.eng && a.raw <= x <= y <= b.raw
    ensures a.eng <= Interpolated(x, a, b) <= Interpolated(y, a, b) <= b.eng
  {
    hide Interpolated, ShareOf, Along;
    InterpolatedIs(x, a, b);
    InterpolatedIs(y, a, b);
    SharesRise(x, y, a, b);
    AlongRises(a.eng, b.eng - a.eng, ShareOf(x, a, b), ShareOf(y, a, b));
  }

  lemma AlongRises(start: real, d: real, s: real, t: real)
    requires d >= 0.0 && 0.0 <= s <= t <= 1.0
    ensures start <= Along(start, d, s) <= Along(start, d, t) <= start + d
  {
  }

  lemma SharesRise(x: nat, y: nat, a: Point, b: Point)
    requires a.raw < b.raw && x <= y
    ensures ShareOf(x, a, b) <= ShareOf(y, a, b)
  {
    var w := b.raw as real - a.raw as real;
    QuotientRises(x as real - a.raw as real, y as real - a.raw as real, w);
  }

  lemma QuotientRises(u: real, v: real, w: real)
    requires w > 0.0 && u <= v
    ensures u / w <= v / w
  {
  }

  /** Where a value between the ends is looked up. */
  lemma {:induction false} FindsItsSegment(raw: nat, pts: seq<Point>, i: nat) returns (k: nat)
    requires 0 < i < |pts| && Sorted(pts) && pts[i - 1].raw < raw <= pts[|pts| - 1].raw
    ensures i <= k < |pts| && pts[k - 1].raw < raw <= pts[k].raw
    ensures OnSegments(raw, pts, i) == Interpolated(raw, pts[k - 1], pts[k])
    decreases |pts| - i
  {
    if raw <= pts[i].raw {
      k := i;
    } else {
      k := FindsItsSegment(raw, pts, i + 1);
    }
  }

  /** Over a rising table the curve stays within the end values and rises. */
  lemma RisingCurve(x: nat, y: nat, pts: seq<Point>)
    requires pts != [] && Sorted(pts) && Rising(pts) && x <= y
    ensures pts[0].eng <= CalibrateCurve(x, pts) <= CalibrateCurve(y, pts) <= pts[|pts| - 1].eng
  {
    hide Interpolated, OnSegments;
    var n := |pts|;
    Ends(x, pts);
    Ends(y, pts);
    if pts[0].raw < x && y < pts[n - 1].raw {
      var i := FindsItsSegment(x, pts, 1);
      var j := FindsItsSegment(y, pts, 1);
      if i == j {
        SegmentRises(x, y, pts[i - 1], pts[i]);
      } else {
        assert i < j;
        SegmentRises(x, x, pts[i - 1], pts[i]);
        SegmentRises(y, y, pts[j - 1], pts[j]);
        assert pts[i].eng <= pts[j - 1].eng;
      }
    }
  }

  lemma Ends(x: nat, pts: seq<Point>)
    requires pts != [] && Sorted(pts) && Rising(pts)
    ensures pts[0].eng <= CalibrateCurve(x, pts) <= pts[|pts| - 1].eng
  {
    hide Interpolated, OnSegments;
    var n := |pts|;
    if pts[0].raw < x < pts[n - 1].raw {
      var i := FindsItsSegment(x, pts, 1);
      SegmentRises(x, x, pts[i - 1], pts[i]);
      assert pts[0].eng <= pts[i - 1].eng && pts[i].eng <= pts[n - 1].eng;
    }
  }

  /** The curve goes through every point of a sorted table. */
  lemma CurveMeetsItsPoints(pts: seq<Point>, k: nat)
    requires Sorted(pts) && k < |pts|
    ensures CalibrateCurve(pts[k].raw, pts) == pts[k].eng
  {
    hide Interpolated, OnSegments;
    if 0 < k < |pts| - 1 {
      var i := FindsItsSegment(pts[k].raw, pts, 1);
      assert i == k;
      InterpolatedIs(pts[k].raw, pts[k - 1], pts[k]);
      assert Along(pts[k - 1].eng, pts[k].eng - pts[k - 1].eng, 1.0) == pts[k].eng;
    }
  }

  /** Between two neighbouring points the curve is the straight line through them. */
  lemma CurveIsStraight(raw: nat, pts: seq<Point>, k: nat)
    requires Sorted(pts) && 0 < k < |pts| && pts[k - 1].raw <= raw <= pts[k].raw
    ensures (CalibrateCurve(raw, pts) - pts[k - 1].eng) * (pts[k].raw as real - pts[k - 1].raw as real)
            == (pts[k].eng - pts[k - 1].eng) * (raw as real - pts[k - 1].raw as real)
  {
    hide Interpolated, OnSegments;
    var a, b := pts[k - 1], pts[k];
    CurveMeetsItsPoints(pts, k - 1);
    CurveMeetsItsPoints(pts, k);
    if a.raw < raw < b.raw {
      assert pts[0].raw <= a.raw && b.raw <= pts[|pts| - 1].raw;
      var i := FindsItsSegment(raw, pts, 1);
      assert i == k;
      InterpolatedIs(raw, a, b);
      ShareTimes(b.eng - a.eng, raw as real - a.raw as real, b.raw as real - a.raw as real);
    }
  }

  lemma ShareTimes(d: real, v: real, w: real)
    requires w != 0.0
    ensures d * (v / w) * w == d * v
  {
    assert v / w * w == v;
  }

  function Mirrored(pts: seq<Point>): seq<Point> {
    seq(|pts|, i requires 0 <= i < |pts| => Point(pts[i].raw, -pts[i].eng))
  }

  lemma {:induction false} MirroredSegments(raw: nat, pts: seq<Point>, i: nat)
    requires 0 < i <= |pts|
    ensures OnSegments(raw, Mirrored(pts), i) == -OnSegments(raw, pts, i)
    decreases |pts| - i
  {
    if i < |pts| {
      if raw <= pts[i].raw {
        MirroredPair(raw, pts[i - 1], pts[i]);
      } else {
        MirroredSegments(raw, pts, i + 1);
      }
    }
  }

  lemma MirroredPair(raw: nat, a: Point, b: Point)
    ensures Interpolated(raw, a.(eng := -a.eng), b.(eng := -b.eng)) == -Interpolated(raw, a, b)
  {
    if a.raw != b.raw {
      var v, w := raw as real - a.raw as real, b.raw as real - a.raw as real;
      var d := b.eng - a.eng;
      assert (-d) * v == -(d * v);
      Negated(d * v, w);
      assert -b.eng - -a.eng == -d;
    }
  }

  lemma Negated(u: real, w: real)
    requires w != 0.0
    ensures (-u) / w == -(u / w)
  {
  }

  /** Over a falling table the curve stays within the end values and falls. */
  lemma FallingCurve(x: nat, y: nat, pts: seq<Point>)
    requires pts != [] && Sorted(pts) && Falling(pts) && x <= y
    ensures pts[0].eng >= CalibrateCurve(x, pts) >= CalibrateCurve(y, pts) >= pts[|pts| - 1].eng
  {
    hide OnSegments, Interpolated;
    var m := Mirrored(pts);
    RisingCurve(x, y, m);
    MirroredSegments(x, pts, 1);
    MirroredSegments(y, pts, 1);
  }

  // ---------------------------------------------------------------------------
  // The driver
  // ---------------------------------------------------------------------------

  const PH_CURVE: seq<Point> := [Point(0, 14.0), Point(2048, 7.0), Point(4095, 0.0)]
  const MOISTURE_CURVE: seq<Point> := [Point(0, 100.0), Point(4095, 0.0)]
  const LUX_CURVE: seq<Point> := [Point(0, 0.0), Point(4095, 100000.0)]

  function Clamp(x: real, low: real, high: real): real {
    if x < low then low else if x > high then high else x
  }

  datatype SensorReading = SensorReading(ph: real, light: real, moisture: real, valid: bool)

  /** What the host is sent of a reading. */
  function Reported(slave: string, time: nat, r: SensorReading): HostTables.Reading {
    TelemetryRing.ReadingOf(TelemetryRing.Entry(time, slave, r.ph, r.light, r.moisture))
  }

  function ReadingOf(ph: nat, light: nat, moisture: nat): SensorReading {
    SensorReading(
      CalibrateCurve(ph, PH_CURVE), CalibrateCurve(light, LUX_CURVE),
      Clamp(CalibrateCurve(moisture, MOISTURE_CURVE), 0.0, 100.0), true)
  }

  /** Whatever the filters hold, the reading passes the range checks of the backend, and the clamp changes nothing. */
  lemma EveryReadingIsInRange(slave: string, time: nat, ph: nat, light: nat, moisture: nat)
    ensures HostTables.InRange(Reported(slave, time, ReadingOf(ph, light, moisture)))
    ensures ReadingOf(ph, light, moisture).moisture == CalibrateCurve(moisture, MOISTURE_CURVE)
    ensures ReadingOf(ph, light, moisture).light <= 100000.0
    ensures var r, sent := ReadingOf(ph, light, moisture), Reported(slave, time, ReadingOf(ph, light, moisture));
            sent.slave == slave && sent.ph == r.ph && sent.light == r.light && sent.moisture == r.moisture
  {
  }

  /** What the three channels say, each of its own converter value only. */
  lemma ReadingIs(ph: nat, light: nat, moisture: nat)
    ensures var r := ReadingOf(ph, light, moisture);
            && r.valid
            && (ph <= 2048 ==> r.ph * 2048.0 == 14.0 * 2048.0 - 7.0 * ph as real)
            && (2048 <= ph <= 4095 ==> r.ph * 2047.0 == 7.0 * (4095 - ph) as real)
            && (light <= 4095 ==> r.light * 4095.0 == 100000.0 * light as real)
            && (moisture <= 4095 ==> r.moisture * 4095.0 == 100.0 * (4095 - moisture) as real)
            && (ph >= 4095 ==> r.ph == 0.0) && (light >= 4095 ==> r.light == 100000.0)
            && (moisture >= 4095 ==> r.moisture == 0.0)
  {
    hide CalibrateCurve;
    EveryReadingIsInRange("", 0, ph, light, moisture);
    PhIs(ph);
    OtherCurvesAre(light, moisture);
  }

  lemma PhIs(ph: nat)
    ensures var y := CalibrateCurve(ph, PH_CURVE);
            && (ph <= 2048 ==> y * 2048.0 == 14.0 * 2048.0 - 7.0 * ph as real)
            && (2048 <= ph <= 4095 ==> y * 2047.0 == 7.0 * (4095 - ph) as real)
            && (ph >= 4095 ==> y == 0.0)
  {
    if ph <= 2048 {
      CurveIsStraight(ph, PH_CURVE, 1);
    }
    if 2048 <= ph <= 4095 {
      CurveIsStraight(ph, PH_CURVE, 2);
    }
  }

  lemma OtherCurvesAre(light: nat, moisture: nat)
    ensures light <= 4095 ==> CalibrateCurve(light, LUX_CURVE) * 4095.0 == 100000.0 * light as real
    ensures moisture <= 4095 ==> CalibrateCurve(moisture, MOISTURE_CURVE) * 4095.0 == 100.0 * (4095 - moisture) as real
    ensures light >= 4095 ==> CalibrateCurve(light, LUX_CURVE) == 100000.0
    ensures moisture >= 4095 ==> CalibrateCurve(moisture, MOISTURE_CURVE) == 0.0
  {
    if light <= 4095 {
      CurveIsStraight(light, LUX_CURVE, 1);
    }
    if moisture <= 4095 {
      CurveIsStraight(moisture, MOISTURE_CURVE, 1);
    }
  }

  function Average(samples: seq<uint16>): nat {
    if samples == [] then 0 else Sum(LastOf(samples, WINDOW)) / |LastOf(samples, WINDOW)|
  }

  lemma SumIs(s: seq<uint16>, v: uint16)
    ensures Sum([]) == 0 && Sum(s + [v]) == Sum(s) + v
  {
    assert (s + [v])[..|s|] == s;
  }

  /** The average, rounded down, of all samples while there are less than eight, and then of the last eight. */
  lemma AverageIs(s: seq<uint16>, last: seq<uint16>)
    requires 0 < |last| <= 8 && (s == [] || |last| == 8)
    ensures var a, n := Average(s + last), |last|; n * a <= Sum(last) < n * a + n
  {
    hide Sum;
    assert s == [] ==> s + last == last;
    assert |s + last| > 8 ==> (s + last)[|s + last| - 8..] == last;
    assert LastOf(s + last, WINDOW) == last;
  }

  lemma GetIsAverage(added: seq<uint16>)
    requires Sum(LastOf(added, WINDOW)) < WORD
    ensures Average(added)
            == if added == [] then 0 else Reduced(Sum(LastOf(added, WINDOW))) / |LastOf(added, WINDOW)|
  {
  }

  class SensorDriver {
    const phFilter: MovingAverage
    const lightFilter: MovingAverage
    const moistFilter: MovingAverage
    var last: SensorReading

    ghost predicate Valid()
      reads this, phFilter, lightFilter, moistFilter, phFilter.buf, lightFilter.buf, moistFilter.buf
    {
      phFilter.Valid() && lightFilter.Valid() && moistFilter.Valid()
      && phFilter != lightFilter && phFilter != moistFilter && lightFilter != moistFilter
      && phFilter.buf != lightFilter.buf && phFilter.buf != moistFilter.buf && lightFilter.buf != moistFilter.buf
    }

    /** After begin(). */
    constructor ()
      ensures Valid() && phFilter.added == [] && lightFilter.added == [] && moistFilter.added == []
    {
      phFilter := new MovingAverage();
      lightFilter := new MovingAverage();
      moistFilter := new MovingAverage();
      last := SensorReading(0.0, 0.0, 0.0, false);
    }

    /** read(), given what the converter delivers. */
    method Read(rawPh: uint16, rawLight: uint16, rawMoist: uint16) returns (r: SensorReading)
      requires Valid()
      modifies this, phFilter, lightFilter, moistFilter, phFilter.buf, lightFilter.buf, moistFilter.buf
      ensures Valid() && last == r
      ensures phFilter.added == old(phFilter.added) + [rawPh]
      ensures lightFilter.added == old(lightFilter.added) + [rawLight]
      ensures moistFilter.added == old(moistFilter.added) + [rawMoist]
      ensures forall slave, time :: HostTables.InRange(Reported(slave, time, r))
      ensures Sum(LastOf(phFilter.added, WINDOW)) < WORD && Sum(LastOf(lightFilter.added, WINDOW)) < WORD
              && Sum(LastOf(moistFilter.added, WINDOW)) < WORD
              ==> r == ReadingOf(Average(phFilter.added), Average(lightFilter.added), Average(moistFilter.added))
    {
      hide CalibrateCurve, Sum, LastOf, Reduced, Average, HostTables.InRange, MovingAverage.Valid;
      phFilter.Add(rawPh);
      lightFilter.Add(rawLight);
      moistFilter.Add(rawMoist);
      var ph := phFilter.Get();
      var light := lightFilter.Get();
      var moist := moistFilter.Get();
      r := SensorReading(
        CalibrateCurve(ph, PH_CURVE), CalibrateCurve(light, LUX_CURVE),
        Clamp(CalibrateCurve(moist, MOISTURE_CURVE), 0.0, 100.0), true);
      last := r;
      forall slave, time
        ensures HostTables.InRange(Reported(slave, time, r))
      {
        EveryReadingIsInRange(slave, time, ph, light, moist);
      }
      if Sum(LastOf(phFilter.added, WINDOW)) < WORD && Sum(LastOf(lightFilter.added, WINDOW)) < WORD
         && Sum(LastOf(moistFilter.added, WINDOW)) < WORD {
        GetIsAverage(phFilter.added);
        GetIsAverage(lightFilter.added);
        GetIsAverage(moistFilter.added);
      }
    }
  }
}
