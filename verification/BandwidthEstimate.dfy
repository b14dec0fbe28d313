/** How many bytes a vehicle can receive during one visit to an edge node, by the node's distance model. */
module BandwidthEstimate {

  datatype ContactPoint = ContactPoint(distance: real, time: real)

  /** Speed in bits per second at each measured distance. */
  type Model = map<real, real>

  ghost predicate Ascending(ds: seq<real>) {
    forall i, j :: 0 <= i < j < |ds| ==> ds[i] < ds[j]
  }

  function Abs(x: real): real {
    if x >= 0.0 then x else -x
  }

  /** bisect.bisect_left: the first position in lo..hi whose value is not below x. */
  function BisectLeft(ds: seq<real>, x: real, lo: nat, hi: nat): (i: nat)
    requires Ascending(ds) && lo <= hi <= |ds|
    requires forall k :: 0 <= k < lo ==> ds[k] < x
    requires forall k :: hi <= k < |ds| ==> x <= ds[k]
    ensures i <= |ds|
    ensures forall k :: 0 <= k < i ==> ds[k] < x
    ensures forall k :: i <= k < |ds| ==> x <= ds[k]
    decreases hi - lo
  {
    if lo == hi then lo
    else
      var mid := (lo + hi) / 2;
      if ds[mid] < x then BisectLeft(ds, x, mid + 1, hi) else BisectLeft(ds, x, lo, mid)
  }

  /** r is a listed distance, none is nearer to x, and of two as near it is the smaller. */
  ghost predicate IsNearest(ds: seq<real>, x: real, r: real) {
    && r in ds
    && forall k :: 0 <= k < |ds| ==> Abs(x - r) < Abs(x - ds[k]) || (Abs(x - r) == Abs(x - ds[k]) && r <= ds[k])
  }

  function GetModelDist(ds: seq<real>, x: real): (r: real)
    requires Ascending(ds) && ds != []
    ensures r in ds && IsNearest(ds, x, r)
  {
    var i := BisectLeft(ds, x, 0, |ds|);
    if i > |ds| - 1 then ds[|ds| - 1]
    else if i != 0 then
      if Abs(x - ds[i]) < Abs(x - ds[i - 1]) then ds[i] else ds[i - 1]
    else ds[i]
  }

  /** The model's distances, sorted. */
  ghost predicate IsDistances(m: Model, ds: seq<real>) {
    Ascending(ds) && forall d :: d in ds <==> d in m
  }

  /** Speed the model assigns to a point, by its nearest measured distance. */
  function Speed(m: Model, ds: seq<real>, p: ContactPoint): real
    requires IsDistances(m, ds) && ds != []
  {
    m[GetModelDist(ds, p.distance)]
  }

  /** The points without those that repeat the time of the last one kept. */
  function Kept(ps: seq<ContactPoint>): (ks: seq<ContactPoint>)
    ensures ps != [] ==> ks != [] && ks[0] == ps[0] && ks[|ks| - 1].time == ps[|ps| - 1].time
    ensures forall i :: 0 < i < |ks| ==> ks[i - 1].time != ks[i].time
    ensures |ks| <= |ps|
  {
    if ps == [] then []
    else
      var before, last := Kept(ps[..|ps| - 1]), ps[|ps| - 1];
      if before != [] && before[|before| - 1].time == last.time then before else before + [last]
  }

  function Area(speed: real, time: real): real {
    if time > 0.0 then speed * time else 0.0
  }

  /** The left step sum of speed over time: each kept point's speed lasts until the next one. */
  function StepSum(m: Model, ds: seq<real>, ks: seq<ContactPoint>): real
    requires IsDistances(m, ds) && ds != []
  {
    if |ks| <= 1 then 0.0
    else
      var n := |ks| - 1;
      StepSum(m, ds, ks[..n]) + Area(Speed(m, ds, ks[n - 1]), ks[n].time - ks[n - 1].time)
  }

  /** One more second at the last speed, and eight bits to the byte. */
  function EstimatedBytes(m: Model, ds: seq<real>, ps: seq<ContactPoint>): real
    requires IsDistances(m, ds) && (ps != [] ==> ds != [])
  {
    if ps == [] then 0.0
    else
      var ks := Kept(ps);
      (StepSum(m, ds, ks) + Speed(m, ds, ks[|ks| - 1])) / 8.0
  }

  method GetDownloadBytes(m: Model, ds: seq<real>, contactPoints: seq<ContactPoint>) returns (bytes: real)
    requires IsDistances(m, ds) && (contactPoints != [] ==> ds != [])
    ensures bytes == EstimatedBytes(m, ds, contactPoints)
    ensures contactPoints == [] ==> bytes == 0.0
  {
    hide Area, GetModelDist, IsNearest, Ascending, Kept, StepSum;
    var totalBits := 0.0;
    var lastDistance, timeOfLast := -1.0, 0.0;
    var numPoints := 0;
    ghost var ks := [];
    KeptNone(contactPoints);
    for i := 0 to |contactPoints|
      invariant numPoints == i && ks == Kept(contactPoints[..i])
      invariant i == 0 ==> totalBits == 0.0
      invariant i > 0 ==> ks != [] && timeOfLast == ks[|ks| - 1].time
      invariant i > 0 ==> lastDistance == GetModelDist(ds, ks[|ks| - 1].distance)
      invariant i > 0 ==> totalBits == StepSum(m, ds, ks)
    {
      var point := contactPoints[i];
      KeptStep(contactPoints, i);
      numPoints := numPoints + 1;
      var distance := GetModelDist(ds, point.distance);
      if numPoints == 1 {
        lastDistance := distance;
        timeOfLast := point.time;
        ks := [point];
        StepSumOne(m, ds, point);
      }
      if point.time == timeOfLast {
        continue;
      }
      KeptSnoc(m, ds, ks, point);
      ks := ks + [point];
      var pointContactTime := point.time - timeOfLast;
      totalBits := totalBits + Area(m[lastDistance], pointContactTime);
      timeOfLast := point.time;
      lastDistance := distance;
    }
    assert contactPoints[..|contactPoints|] == contactPoints;
    if numPoints > 0 {
      totalBits := totalBits + m[lastDistance];
    }
    bytes := totalBits / 8.0;
  }

  lemma KeptNone(ps: seq<ContactPoint>)
    ensures Kept(ps[..0]) == []
  {
  }

  lemma KeptStep(ps: seq<ContactPoint>, i: nat)
    requires i < |ps|
    ensures var before, p := Kept(ps[..i]), ps[i];
            Kept(ps[..i + 1]) == if before != [] && before[|before| - 1].time == p.time then before else before + [p]
    ensures i == 0 ==> Kept(ps[..1]) == [ps[0]]
  {
    assert ps[..i + 1][..i] == ps[..i];
  }

  lemma StepSumOne(m: Model, ds: seq<real>, p: ContactPoint)
    requires IsDistances(m, ds) && ds != []
    ensures StepSum(m, ds, [p]) == 0.0
  {
  }

  lemma KeptSnoc(m: Model, ds: seq<real>, ks: seq<ContactPoint>, p: ContactPoint)
    requires IsDistances(m, ds) && ds != [] && ks != []
    ensures StepSum(m, ds, ks + [p])
            == StepSum(m, ds, ks) + Area(Speed(m, ds, ks[|ks| - 1]), p.time - ks[|ks| - 1].time)
  {
    hide Area, GetModelDist, IsNearest, Ascending, Speed, IsDistances;
    assert (ks + [p])[..|ks|] == ks;
  }

  // ----- which point's speed counts, and for how long -----

  /** The speed measured at a distance that no other is nearer to, nor as near and smaller. */
  ghost predicate IsRate(m: Model, x: real, rate: real) {
    exists d :: d in m && m[d] == rate
                && forall e :: e in m && e != d ==> Off(x, d) < Off(x, e) || (Off(x, d) == Off(x, e) && d < e)
  }

  ghost function Off(x: real, d: real): real {
    if d <= x then x - d else d - x
  }

  /** The first of the points with one time in a row that ends with point i. */
  function Lead(ps: seq<ContactPoint>, i: nat): (j: nat)
    requires i < |ps|
    ensures j <= i && ps[j].time == ps[i].time
  {
    if i == 0 || ps[i - 1].time != ps[i].time then i else Lead(ps, i - 1)
  }

  /** Bits of the first n points: from each to the next, if that is later, at the rate of its row's first point. */
  function Carried(ps: seq<ContactPoint>, rates: seq<real>, n: nat): real
    requires n <= |ps| == |rates|
  {
    if n <= 1 then 0.0
    else
      var t := ps[n - 1].time - ps[n - 2].time;
      Carried(ps, rates, n - 1) + if t > 0.0 then rates[Lead(ps, n - 2)] * t else 0.0
  }

  lemma NearestOff(m: Model, ds: seq<real>, x: real, e: real)
    requires IsDistances(m, ds) && ds != [] && e in m
    ensures var r := GetModelDist(ds, x); r in m && (Off(x, r) < Off(x, e) || (Off(x, r) == Off(x, e) && r <= e))
  {
    var k :| 0 <= k < |ds| && ds[k] == e;
    assert IsNearest(ds, x, GetModelDist(ds, x));
  }

  /** Every point has one such rate. */
  lemma RateIsSpeed(m: Model, ds: seq<real>, p: ContactPoint, rate: real)
    requires IsDistances(m, ds) && ds != []
    ensures IsRate(m, p.distance, rate) <==> Speed(m, ds, p) == rate
  {
    hide Off, IsNearest, GetModelDist;
    var r := GetModelDist(ds, p.distance);
    forall e | e in m {
      NearestOff(m, ds, p.distance, e);
    }
  }

  lemma CarriedStep(ps: seq<ContactPoint>, rates: seq<real>, n: nat)
    requires 1 < n <= |ps| == |rates|
    ensures Lead(ps, n - 1) == if ps[n - 2].time != ps[n - 1].time then n - 1 else Lead(ps, n - 2)
    ensures Carried(ps, rates, n)
            == Carried(ps, rates, n - 1) + Area(rates[Lead(ps, n - 2)], ps[n - 1].time - ps[n - 2].time)
  {
  }

  lemma CarriedNone(ps: seq<ContactPoint>, rates: seq<real>)
    requires 1 <= |ps| == |rates|
    ensures Lead(ps, 0) == 0 && Carried(ps, rates, 1) == 0.0
  {
  }

  lemma {:induction false} KeptCarries(m: Model, ds: seq<real>, ps: seq<ContactPoint>, rates: seq<real>, n: nat)
    requires IsDistances(m, ds) && ds != [] && 0 < n <= |ps| == |rates|
    requires forall i :: 0 <= i < |ps| ==> IsRate(m, ps[i].distance, rates[i])
    ensures var ks := Kept(ps[..n]);
            && ks != [] && ks[|ks| - 1] == ps[Lead(ps, n - 1)]
            && StepSum(m, ds, ks) == Carried(ps, rates, n)
  {
    hide IsRate, IsDistances, Speed, StepSum, Carried, Kept, Lead;
    KeptStep(ps, n - 1);
    if n == 1 {
      CarriedNone(ps, rates);
      KeptNone(ps);
      StepSumOne(m, ds, ps[0]);
    } else {
      var ks := Kept(ps[..n - 1]);
      KeptCarries(m, ds, ps, rates, n - 1);
      CarriedStep(ps, rates, n);
      var j := Lead(ps, n - 2);
      RateIsSpeed(m, ds, ps[j], rates[j]);
      if ps[n - 2].time != ps[n - 1].time {
        KeptSnoc(m, ds, ks, ps[n - 1]);
      }
    }
  }

  /**
    The estimate, whatever the order of the times: eight times it are the bits
    carried from point to later point, each at the rate of the first point with
    its time, and one unit more at the rate of the last.
   */
  lemma EstimateExactly(m: Model, ds: seq<real>, ps: seq<ContactPoint>, rates: seq<real>)
    requires IsDistances(m, ds) && ds != [] && ps != [] && |rates| == |ps|
    requires forall i :: 0 <= i < |ps| ==> IsRate(m, ps[i].distance, rates[i])
    ensures EstimatedBytes(m, ds, ps) * 8.0 == Carried(ps, rates, |ps|) + rates[Lead(ps, |ps| - 1)]
  {
    hide IsRate, IsDistances, Speed, StepSum, Carried, Lead, Kept;
    var j := Lead(ps, |ps| - 1);
    KeptCarries(m, ds, ps, rates, |ps|);
    RateIsSpeed(m, ds, ps[j], rates[j]);
    assert ps[..|ps|] == ps;
  }

  ghost predicate Chronological(ps: seq<ContactPoint>) {
    forall i, j :: 0 <= i <= j < |ps| ==> ps[i].time <= ps[j].time
  }

  ghost predicate SpeedsWithin(m: Model, lo: real, hi: real) {
    forall d :: d in m ==> lo <= m[d] <= hi
  }

  lemma {:induction false} KeptChronological(ps: seq<ContactPoint>)
    requires Chronological(ps)
    ensures Chronological(Kept(ps))
  {
    if ps != [] {
      var init := ps[..|ps| - 1];
      KeptChronological(init);
      if init != [] {
        var ks := Kept(init);
        assert ks[|ks| - 1].time == init[|init| - 1].time <= ps[|ps| - 1].time;
      }
    }
  }

  lemma ScaleUp(a: real, b: real, t: real)
    requires a <= b && t >= 0.0
    ensures a * t <= b * t
  {
    assert (b - a) * t >= 0.0;
  }

  lemma AreaWithin(s: real, lo: real, hi: real, t: real)
    requires lo <= s <= hi && t >= 0.0
    ensures InBand(lo, hi, Area(s, t), t)
  {
    ScaleUp(lo, s, t);
    ScaleUp(s, hi, t);
  }

  lemma SpeedWithin(m: Model, ds: seq<real>, p: ContactPoint, lo: real, hi: real)
    requires IsDistances(m, ds) && ds != [] && SpeedsWithin(m, lo, hi)
    ensures lo <= Speed(m, ds, p) <= hi
  {
    hide GetModelDist, IsNearest;
  }

  lemma Distribute(k: real, a: real, b: real)
    ensures k * a + k * b == k * (a + b)
  {
  }

  /** x is what a speed between lo and hi adds up to over t. */
  ghost predicate InBand(lo: real, hi: real, x: real, t: real) {
    lo * t <= x <= hi * t
  }

  lemma Between(lo: real, hi: real, x: real, a: real, y: real, b: real)
    requires InBand(lo, hi, x, a) && InBand(lo, hi, y, b)
    ensures InBand(lo, hi, x + y, a + b)
  {
    Distribute(lo, a, b);
    Distribute(hi, a, b);
  }

  lemma ChronologicalPrefix(ks: seq<ContactPoint>)
    requires Chronological(ks) && |ks| > 1
    ensures ks[|ks| - 2].time <= ks[|ks| - 1].time && Chronological(ks[..|ks| - 1])
  {
  }

  lemma BandOne(m: Model, ds: seq<real>, p: ContactPoint, lo: real, hi: real)
    requires IsDistances(m, ds) && ds != []
    ensures InBand(lo, hi, StepSum(m, ds, [p]), p.time - p.time)
  {
    assert StepSum(m, ds, [p]) == 0.0 && p.time - p.time == 0.0;
    hide StepSum, IsDistances;
  }

  lemma StepSumSnoc(m: Model, ds: seq<real>, ks: seq<ContactPoint>)
    requires IsDistances(m, ds) && ds != [] && |ks| > 1
    ensures var n := |ks| - 1;
            StepSum(m, ds, ks) == StepSum(m, ds, ks[..n]) + Area(Speed(m, ds, ks[n - 1]), ks[n].time - ks[n - 1].time)
  {
    hide Area, Speed, IsDistances;
  }

  lemma {:induction false} StepSumWithin(m: Model, ds: seq<real>, ks: seq<ContactPoint>, lo: real, hi: real)
    requires IsDistances(m, ds) && ds != [] && ks != []
    requires Chronological(ks) && SpeedsWithin(m, lo, hi)
    ensures InBand(lo, hi, StepSum(m, ds, ks), ks[|ks| - 1].time - ks[0].time)
  {
    hide *;
    var n := |ks| - 1;
    if n == 0 {
      BandOne(m, ds, ks[0], lo, hi);
      assert ks == [ks[0]];
    } else {
      ChronologicalPrefix(ks);
      var a, b := ks[n - 1].time - ks[0].time, ks[n].time - ks[n - 1].time;
      var speed := Speed(m, ds, ks[n - 1]);
      StepSumWithin(m, ds, ks[..n], lo, hi);
      SpeedWithin(m, ds, ks[n - 1], lo, hi);
      AreaWithin(speed, lo, hi, b);
      StepSumSnoc(m, ds, ks);
      assert ks[n].time - ks[0].time == a + b;
      Between(lo, hi, StepSum(m, ds, ks[..n]), a, Area(speed, b), b);
    }
  }

  /**
    For points in time order the estimate lies between the slowest and the
    fastest model speed held for the visit's duration and one second more.
   */
  lemma EstimateWithin(m: Model, ds: seq<real>, ps: seq<ContactPoint>, lo: real, hi: real)
    requires IsDistances(m, ds) && ds != [] && ps != []
    requires Chronological(ps) && SpeedsWithin(m, lo, hi)
    ensures var seconds := ps[|ps| - 1].time - ps[0].time + 1.0;
            lo * seconds / 8.0 <= EstimatedBytes(m, ds, ps) <= hi * seconds / 8.0
  {
    hide Area, GetModelDist, IsNearest, StepSum, Ascending;
    var ks := Kept(ps);
    KeptChronological(ps);
    StepSumWithin(m, ds, ks, lo, hi);
    var duration := ps[|ps| - 1].time - ps[0].time;
    EstimateScale(StepSum(m, ds, ks), Speed(m, ds, ks[|ks| - 1]), duration, lo, hi);
  }

  lemma EstimateScale(sum: real, last: real, duration: real, lo: real, hi: real)
    requires lo * duration <= sum <= hi * duration && lo <= last <= hi
    ensures lo * (duration + 1.0) / 8.0 <= (sum + last) / 8.0 <= hi * (duration + 1.0) / 8.0
  {
  }
}
