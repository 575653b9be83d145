/**
 * The affinity-law loop shared by `pumpingSim` and `Flow_to_RPM`: every
 * speed of the range becomes a fraction of the top speed, the pump curve is
 * rescaled to that fraction (flow by f, head by f squared), the rescaled
 * curve is intersected with the system curve, and the crossing flows are
 * appended, speed after speed, to the flow samples that the polynomial fits
 * consume.
 */
module Affinity {
  import opened Intercept

  predicate Increasing(s: seq<real>)
  {
    forall j, k :: 0 <= j < k < |s| ==> s[j] < s[k]
  }

  /** `np.max`: no element lies above it (MaxAttained: it is one of the elements). */
  function Max(s: seq<real>): (m: real)
    requires |s| > 0
    ensures forall k :: 0 <= k < |s| ==> s[k] <= m
  {
    if |s| == 1 then s[0]
    else
      var rest := Max(s[1..]);
      assert forall k :: 1 <= k < |s| ==> s[k] == s[1..][k - 1];
      if s[0] >= rest then s[0] else rest
  }

  /** The maximum is attained: it is one of the elements. */
  lemma {:induction false} MaxAttained(s: seq<real>)
    requires |s| > 0
    ensures Max(s) in s
  {
    if |s| > 1 && s[0] < Max(s[1..]) {
      MaxAttained(s[1..]);
    }
  }

  /** What dividing a speed r by the top speed m gives. */
  lemma FractionOfTop(r: real, m: real)
    requires m != 0.0
    ensures (r / m) * m == r
    ensures r == m ==> r / m == 1.0
    ensures 0.0 < r <= m ==> 0.0 < r / m <= 1.0
  {
    if 0.0 < r <= m {
      assert r / m <= m / m;
    }
  }

  /**
   * An array divided by a non-zero scalar, as in `RPM_range/Max_RPM`:
   * multiplying back gives the element again, an element equal to the
   * divisor becomes 1, and an element in (0, m] lands in (0, 1].
   */
  function DivideBy(s: seq<real>, m: real): (f: seq<real>)
    requires m != 0.0
    ensures |f| == |s|
    ensures forall k :: 0 <= k < |f| ==> f[k] * m == s[k]
    ensures forall k :: 0 <= k < |f| && s[k] == m ==> f[k] == 1.0
    ensures forall k :: 0 <= k < |f| && 0.0 < s[k] <= m ==> 0.0 < f[k] <= 1.0
  {
    var f := seq(|s|, k requires 0 <= k < |s| => s[k] / m);
    forall k | 0 <= k < |f|
      ensures f[k] * m == s[k]
      ensures s[k] == m ==> f[k] == 1.0
      ensures 0.0 < s[k] <= m ==> 0.0 < f[k] <= 1.0
    {
      FractionOfTop(s[k], m);
    }
    f
  }

  /**
   * `vfd_range = RPM_range/Max_RPM`: each speed as a fraction of the top
   * speed of the range, one fraction per speed (SpeedsRecovered: multiplying
   * back by the top speed gives the speeds again).
   */
  function SpeedFractions(rpms: seq<real>): (f: seq<real>)
    requires |rpms| > 0 && Max(rpms) != 0.0
    ensures |f| == |rpms|
  {
    DivideBy(rpms, Max(rpms))
  }

  /** The top speed of the range becomes exactly 1, so some fraction is 1. */
  lemma TopSpeedIsFull(rpms: seq<real>)
    requires |rpms| > 0 && Max(rpms) != 0.0
    ensures forall k :: 0 <= k < |rpms| && rpms[k] == Max(rpms) ==> SpeedFractions(rpms)[k] == 1.0
    ensures exists k :: 0 <= k < |rpms| && SpeedFractions(rpms)[k] == 1.0
  {
    var f := SpeedFractions(rpms);
    MaxAttained(rpms);
    var top :| 0 <= top < |rpms| && rpms[top] == Max(rpms);
    assert f[top] == 1.0;
  }

  /** With positive speeds every fraction lies in (0, 1]. */
  lemma FractionsInUnitInterval(rpms: seq<real>)
    requires |rpms| > 0 && Max(rpms) != 0.0
    requires forall k :: 0 <= k < |rpms| ==> rpms[k] > 0.0
    ensures forall k :: 0 <= k < |rpms| ==> 0.0 < SpeedFractions(rpms)[k] <= 1.0
  {
  }

  /** An array times a scalar, as in `PCurve_Flow * vfd_spd`. */
  function Scale(s: seq<real>, c: real): (r: seq<real>)
    ensures |r| == |s|
    ensures forall k :: 0 <= k < |r| ==> r[k] == s[k] * c
  {
    seq(|s|, k requires 0 <= k < |s| => s[k] * c)
  }

  /** A positive factor keeps a strictly increasing array strictly increasing. */
  lemma ScaleKeepsIncreasing(s: seq<real>, c: real)
    requires c > 0.0 && Increasing(s)
    ensures Increasing(Scale(s, c))
  {
    var r := Scale(s, c);
    forall j, k | 0 <= j < k < |r|
      ensures r[j] < r[k]
    {
      PositiveProduct(s[k] - s[j], c);
      assert s[k] * c - s[j] * c == (s[k] - s[j]) * c;
    }
  }

  /** Affinity law for flow: flow scales with the speed fraction. */
  function AffinityFlow(flow: seq<real>, f: real): (r: seq<real>)
    ensures |r| == |flow|
    ensures forall k :: 0 <= k < |r| ==> r[k] == flow[k] * f
  {
    Scale(flow, f)
  }

  /** Affinity law for head: head scales with the square of the speed fraction. */
  function AffinityHead(head: seq<real>, f: real): (r: seq<real>)
    ensures |r| == |head|
    ensures forall k :: 0 <= k < |r| ==> r[k] == head[k] * (f * f)
  {
    Scale(head, f * f)
  }

  /** Fraction 1, the top speed, leaves both curves as they are. */
  lemma AffinityAtTopSpeed(flow: seq<real>, head: seq<real>)
    ensures AffinityFlow(flow, 1.0) == flow
    ensures AffinityHead(head, 1.0) == head
  {
    ScaleByOne(flow);
    ScaleByOne(head);
  }

  /** Scaling by 1 leaves the array as it is. */
  lemma ScaleByOne(s: seq<real>)
    ensures Scale(s, 1.0) == s
  {
  }

  /** The x component of every intercept; None stays None. */
  function Abscissae(ps: seq<Option<Point>>): (r: seq<Option<real>>)
    ensures |r| == |ps|
    ensures forall k :: 0 <= k < |r| ==> (r[k].Some? <==> ps[k].Some?)
    ensures forall k :: 0 <= k < |r| && ps[k].Some? ==> r[k].value == ps[k].value.x
  {
    seq(|ps|, k requires 0 <= k < |ps| => if ps[k].Some? then Some(ps[k].value.x) else None)
  }

  /**
   * `flow, yc = interpolated_intercept(PCurve_Flow * vfd_spd, PCurve_dkPa * vfd_spd**2, Sys_curve)`:
   * the flows where the pump curve rescaled to fraction f crosses the
   * system curve.
   */
  function SpeedFlows(flow: seq<real>, head: seq<real>, sys: seq<real>, f: real): (r: seq<Option<real>>)
    requires |flow| == |head| == |sys|
    ensures |r| == |Brackets(AffinityHead(head, f), sys)|
  {
    Abscissae(InterpolatedIntercept(AffinityFlow(flow, f), AffinityHead(head, f), sys))
  }

  /** The crossing flows at each fraction, for one pump curve and one system curve. */
  function FlowsAtFraction(flow: seq<real>, head: seq<real>, sys: seq<real>): real -> seq<Option<real>>
    requires |flow| == |head| == |sys|
  {
    f => SpeedFlows(flow, head, sys, f)
  }

  /**
   * The groups F(x) of the elements x of xs, appended one after the other
   * in the order of xs, as `np.append` leaves them.
   */
  function Accumulate<A, B>(xs: seq<A>, F: A -> seq<B>): seq<B>
  {
    if xs == [] then []
    else Accumulate(xs[..|xs| - 1], F) + F(xs[|xs| - 1])
  }

  /** Accumulating over two runs is accumulating each and joining the results. */
  lemma {:induction false} AccumulateAppend<A, B>(xs: seq<A>, ys: seq<A>, F: A -> seq<B>)
    ensures Accumulate(xs + ys, F) == Accumulate(xs, F) + Accumulate(ys, F)
  {
    if ys == [] {
      assert xs + ys == xs;
    } else {
      var init := ys[..|ys| - 1];
      assert (xs + ys)[..|xs + ys| - 1] == xs + init;
      assert (xs + ys)[|xs + ys| - 1] == ys[|ys| - 1];
      AccumulateAppend(xs, init, F);
    }
  }

  /** Groups of exactly one element accumulate to those elements, index for index. */
  lemma {:induction false} AccumulateSingletons<A, B>(xs: seq<A>, F: A -> seq<B>)
    requires forall k :: 0 <= k < |xs| ==> |F(xs[k])| == 1
    ensures |Accumulate(xs, F)| == |xs|
    ensures forall k :: 0 <= k < |xs| ==> Accumulate(xs, F)[k] == F(xs[k])[0]
  {
    if xs != [] {
      var init := xs[..|xs| - 1];
      assert forall k :: 0 <= k < |init| ==> init[k] == xs[k];
      AccumulateSingletons(init, F);
    }
  }

  /**
   * What `flow_arr` holds after the loop has visited the fractions fs, in
   * order.  When every speed yields exactly one crossing, it holds one flow
   * per speed, aligned index for index with the speeds.
   */
  function AccumulatedFlows(flow: seq<real>, head: seq<real>, sys: seq<real>, fs: seq<real>): (r: seq<Option<real>>)
    requires |flow| == |head| == |sys|
    ensures (forall k :: 0 <= k < |fs| ==> |SpeedFlows(flow, head, sys, fs[k])| == 1) ==>
              && |r| == |fs|
              && forall k :: 0 <= k < |fs| ==> r[k] == SpeedFlows(flow, head, sys, fs[k])[0]
  {
    var F := FlowsAtFraction(flow, head, sys);
    if forall k :: 0 <= k < |fs| ==> |SpeedFlows(flow, head, sys, fs[k])| == 1 then
      assert forall k :: 0 <= k < |fs| ==> F(fs[k]) == SpeedFlows(flow, head, sys, fs[k]);
      AccumulateSingletons(fs, F);
      Accumulate(fs, F)
    else
      Accumulate(fs, F)
  }

  /** The accumulation over two runs of speeds is the first run's flows followed by the second's. */
  lemma AccumulatedFlowsAppend(flow: seq<real>, head: seq<real>, sys: seq<real>, fs: seq<real>, gs: seq<real>)
    requires |flow| == |head| == |sys|
    ensures AccumulatedFlows(flow, head, sys, fs + gs)
            == AccumulatedFlows(flow, head, sys, fs) + AccumulatedFlows(flow, head, sys, gs)
  {
    AccumulateAppend(fs, gs, FlowsAtFraction(flow, head, sys));
  }

  /**
   * At a positive fraction, with pump flows strictly increasing, every
   * crossing flow lies between the rescaled flows of its bracket, and there
   * the rescaled pump head and the system head, read off their segments,
   * agree: it is an operating point.
   */
  lemma SpeedFlowIsOperatingPoint(flow: seq<real>, head: seq<real>, sys: seq<real>, f: real, k: int)
    requires |flow| == |head| == |sys|
    requires f > 0.0 && Increasing(flow)
    requires 0 <= k < |SpeedFlows(flow, head, sys, f)|
    ensures SpeedFlows(flow, head, sys, f)[k].Some?
    ensures var q := SpeedFlows(flow, head, sys, f)[k].value;
            var i := Brackets(AffinityHead(head, f), sys)[k];
            var sx, sh := AffinityFlow(flow, f), AffinityHead(head, f);
            && 0 <= i < |flow| - 1
            && sx[i] < sx[i + 1]
            && sx[i] <= q <= sx[i + 1]
            && Interp(sx[i], sh[i], sx[i + 1], sh[i + 1], q) == Interp(sx[i], sys[i], sx[i + 1], sys[i + 1], q)
  {
    var sx, sh := AffinityFlow(flow, f), AffinityHead(head, f);
    var ps := InterpolatedIntercept(sx, sh, sys);
    ScaleKeepsIncreasing(flow, f);
    assert ps[k].Some?;
  }

  /**
   * A pump head that falls strictly with flow against a system head that
   * does not fall gives, at a positive fraction, exactly one crossing when
   * the rescaled pump head starts above the system head, ends below it, and
   * meets it at no sample.
   */
  lemma OneCrossingWhenHeadFalls(flow: seq<real>, head: seq<real>, sys: seq<real>, f: real)
    requires |flow| == |head| == |sys| >= 2
    requires f > 0.0 && Falling(head)
    requires forall j, k :: 0 <= j < k < |sys| ==> sys[j] <= sys[k]
    requires AffinityHead(head, f)[0] > sys[0] && AffinityHead(head, f)[|head| - 1] < sys[|sys| - 1]
    requires forall k :: 0 <= k < |head| ==> AffinityHead(head, f)[k] != sys[k]
    ensures |SpeedFlows(flow, head, sys, f)| == 1
  {
    var sh := AffinityHead(head, f);
    AffinityHeadFalls(head, f);
    forall j, k | 0 <= j < k < |sh|
      ensures sh[j] - sys[j] > sh[k] - sys[k]
    {
      assert sh[j] > sh[k] && sys[j] <= sys[k];
    }
    OneBracketWhenDifferenceFalls(sh, sys);
  }

  predicate Falling(s: seq<real>)
  {
    forall j, k :: 0 <= j < k < |s| ==> s[j] > s[k]
  }

  /** At a positive fraction, a strictly falling head curve rescales to a strictly falling one. */
  lemma AffinityHeadFalls(head: seq<real>, f: real)
    requires f > 0.0 && Falling(head)
    ensures Falling(AffinityHead(head, f))
  {
    ScaleKeepsFalling(head, f);
    ScaleKeepsFalling(Scale(head, f), f);
    ScaleBySquare(head, f);
  }

  /** A positive factor keeps a strictly falling array strictly falling. */
  lemma ScaleKeepsFalling(s: seq<real>, c: real)
    requires c > 0.0 && Falling(s)
    ensures Falling(Scale(s, c))
  {
    var r := Scale(s, c);
    forall j, k | 0 <= j < k < |r|
      ensures r[j] > r[k]
    {
      PositiveProduct(s[j] - s[k], c);
      assert s[j] * c - s[k] * c == (s[j] - s[k]) * c;
    }
  }

  /** Scaling by f squared is scaling by f twice. */
  lemma ScaleBySquare(s: seq<real>, f: real)
    ensures Scale(s, f * f) == Scale(Scale(s, f), f)
  {
    var r, q := Scale(s, f * f), Scale(Scale(s, f), f);
    forall k | 0 <= k < |r|
      ensures r[k] == q[k]
    {
      assert r[k] == s[k] * (f * f);
      assert Scale(s, f)[k] == s[k] * f;
      assert q[k] == Scale(s, f)[k] * f;
      assert s[k] * (f * f) == (s[k] * f) * f;
    }
  }

  lemma PositiveProduct(a: real, c: real)
    requires a > 0.0 && c > 0.0
    ensures a * c > 0.0
  {
  }

  /**
   * The mathematical core of OneCrossingWhenHeadFalls: a difference that
   * falls strictly from positive to negative without touching zero at a
   * sample changes sign at exactly one bracket.
   */
  lemma OneBracketWhenDifferenceFalls(y1: seq<real>, y2: seq<real>)
    requires |y1| == |y2| >= 2
    requires forall j, k :: 0 <= j < k < |y1| ==> y1[j] - y2[j] > y1[k] - y2[k]
    requires y1[0] - y2[0] > 0.0 && y1[|y1| - 1] - y2[|y2| - 1] < 0.0
    requires forall k :: 0 <= k < |y1| ==> y1[k] != y2[k]
    ensures |Brackets(y1, y2)| == 1
  {
    var b := Brackets(y1, y2);
    var p := LastPositive(y1, y2);
    assert p in b;
    assert |b| > 0;
    forall k | 0 <= k < |b|
      ensures b[k] == p
    {
      var i := b[k];
      assert Sign(y1[i] - y2[i]) != Sign(y1[i + 1] - y2[i + 1]);
      assert y1[i] - y2[i] > 0.0 && y1[i + 1] - y2[i + 1] < 0.0;
    }
    assert b[0] == p && b[|b| - 1] == p;
  }

  /** The last sample where the difference is still positive, when it ends negative. */
  lemma LastPositive(y1: seq<real>, y2: seq<real>) returns (p: int)
    requires |y1| == |y2| >= 2
    requires y1[0] - y2[0] > 0.0 && y1[|y1| - 1] - y2[|y2| - 1] < 0.0
    ensures 0 <= p < |y1| - 1
    ensures y1[p] - y2[p] > 0.0 && y1[p + 1] - y2[p + 1] <= 0.0
  {
    p := 0;
    while y1[p + 1] - y2[p + 1] > 0.0
      invariant 0 <= p < |y1| - 1
      invariant y1[p] - y2[p] > 0.0
      decreases |y1| - p
    {
      p := p + 1;
    }
  }

  /** The `for vfd_spd in vfd_range` loop of `pumpingSim` and `Flow_to_RPM`, appending every crossing flow of every fraction. */
  method FlowLoop(flow: seq<real>, head: seq<real>, sys: seq<real>, vfd: seq<real>) returns (flowArr: seq<Option<real>>)
    requires |flow| == |head| == |sys|
    ensures flowArr == AccumulatedFlows(flow, head, sys, vfd)
  {
    var F := FlowsAtFraction(flow, head, sys);
    flowArr := [];
    for i := 0 to |vfd|
      invariant flowArr == Accumulate(vfd[..i], F)
    {
      assert vfd[..i + 1][..i] == vfd[..i];
      assert F(vfd[i]) == SpeedFlows(flow, head, sys, vfd[i]);
      flowArr := flowArr + SpeedFlows(flow, head, sys, vfd[i]);
    }
    assert vfd[..|vfd|] == vfd;
  }

  /**
   * The flow part of `pumpingSim`: the speeds of the range as fractions of
   * its top speed, the crossing flow samples, and the abscissa
   * `vfd_range * Max_RPM` handed with them to the rpm-to-flow fit, which
   * is the range of speeds itself.
   */
  method PumpingSimFlows(flow: seq<real>, head: seq<real>, sys: seq<real>, rpms: seq<real>)
    returns (rpmAxis: seq<real>, flowArr: seq<Option<real>>)
    requires |flow| == |head| == |sys|
    requires |rpms| > 0 && Max(rpms) != 0.0
    ensures rpmAxis == rpms
    ensures flowArr == AccumulatedFlows(flow, head, sys, SpeedFractions(rpms))
  {
    var maxRpm := Max(rpms);
    var vfd := SpeedFractions(rpms);
    flowArr := FlowLoop(flow, head, sys, vfd);
    rpmAxis := Scale(vfd, maxRpm);
    SpeedsRecovered(rpms);
  }

  /** `vfd_range * Max_RPM` is the range of speeds again. */
  lemma SpeedsRecovered(rpms: seq<real>)
    requires |rpms| > 0 && Max(rpms) != 0.0
    ensures Scale(SpeedFractions(rpms), Max(rpms)) == rpms
  {
    DivideThenScale(rpms, Max(rpms));
  }

  /** Dividing by a non-zero scalar and multiplying back by it gives the array again. */
  lemma DivideThenScale(s: seq<real>, m: real)
    requires m != 0.0
    ensures Scale(DivideBy(s, m), m) == s
  {
    var r := Scale(DivideBy(s, m), m);
    assert forall k :: 0 <= k < |s| ==> r[k] == s[k];
  }

  /**
   * The flow part of `Flow_to_RPM`: the same loop over the same fractions,
   * so the flow samples handed to the flow-to-rpm fit are exactly those of
   * `pumpingSim`.
   */
  method FlowToRpmFlows(flow: seq<real>, head: seq<real>, sys: seq<real>, rpms: seq<real>)
    returns (flowArr: seq<Option<real>>)
    requires |flow| == |head| == |sys|
    requires |rpms| > 0 && Max(rpms) != 0.0
    ensures flowArr == AccumulatedFlows(flow, head, sys, SpeedFractions(rpms))
  {
    var vfd := SpeedFractions(rpms);
    flowArr := FlowLoop(flow, head, sys, vfd);
  }
}
