/**
 * The cost model: converting an edge length in metres and an optional traffic
 * speed in km/h into a travel time in seconds, with a 50 km/h fallback.
 */
module TravelTime {
  import opened Wrappers
  import opened Graphs

  /**
   * The traffic lookup at the midpoint of the edge `(u, v)`: the current speed
   * in km/h, or None when the service has no answer. The midpoint depends only
   * on the two end nodes, so the lookup is a function of the node pair.
   */
  type SpeedOracle = (Node, Node) -> Option<real>

  /** The speed used when the traffic service gives none, in km/h. */
  const DefaultSpeedKmh: real := 50.0

  /** km/h to m/s. */
  function MetresPerSecond(kmh: real): real {
    kmh * 1000.0 / 3600.0
  }

  /** The speed the cost rule actually uses: the reported one if it is positive, else the default. */
  function EffectiveSpeed(speedKmh: Option<real>): (v: real)
    ensures v > 0.0
    ensures v == DefaultSpeedKmh || speedKmh == Some(v)
    ensures speedKmh.Some? && speedKmh.value > 0.0 ==> v == speedKmh.value
  {
    if speedKmh.Some? && speedKmh.value > 0.0 then speedKmh.value else DefaultSpeedKmh
  }

  /**
   * `calculate_travel_time`: the seconds needed to cover `length` metres. The
   * divisor is never zero, and travelling that long at the speed in use covers
   * exactly the length.
   */
  function CalculateTravelTime(length: real, speedKmh: Option<real>): (t: real)
    ensures t * MetresPerSecond(EffectiveSpeed(speedKmh)) == length
    ensures length >= 0.0 ==> t >= 0.0
  {
    if speedKmh.Some? && speedKmh.value > 0.0 then
      length / MetresPerSecond(speedKmh.value)
    else
      length / MetresPerSecond(DefaultSpeedKmh)
  }

  /** Without a usable speed, a 1000 m edge costs exactly 72 seconds. */
  lemma DefaultSpeedKilometre(speedKmh: Option<real>)
    requires speedKmh.None? || speedKmh.value <= 0.0
    ensures CalculateTravelTime(1000.0, speedKmh) == 72.0
  {
    assert MetresPerSecond(DefaultSpeedKmh) == 125.0 / 9.0;
  }

  /** A longer edge never takes less time at the same speed. */
  lemma TravelTimeMonotone(l1: real, l2: real, speedKmh: Option<real>)
    requires l1 <= l2
    ensures CalculateTravelTime(l1, speedKmh) <= CalculateTravelTime(l2, speedKmh)
  {
    var m := MetresPerSecond(EffectiveSpeed(speedKmh));
    assert m > 0.0;
    var t1, t2 := CalculateTravelTime(l1, speedKmh), CalculateTravelTime(l2, speedKmh);
    assert (t2 - t1) * m == l2 - l1;
    if t2 < t1 {
      PositiveProduct(t1 - t2, m);
    }
  }

  /** The product of two positive reals is positive. */
  lemma PositiveProduct(a: real, b: real)
    requires a > 0.0 && b > 0.0
    ensures a * b > 0.0
  {
  }

  /**
   * The length used by A* and by the learner's reward for the hop `u -> v`:
   * the least length over the parallel edges, an edge without a length
   * counting as 1 m, and 1 m when there is no edge at all.
   */
  function MinLength(ls: seq<Length>): (r: real)
    ensures ls == [] ==> r == 1.0
    ensures forall i :: 0 <= i < |ls| ==> r <= ls[i].GetOr(1.0)
    ensures ls != [] ==> exists i :: 0 <= i < |ls| && r == ls[i].GetOr(1.0)
  {
    if |ls| <= 1 then
      (if ls == [] then 1.0 else ls[0].GetOr(1.0))
    else
      var m := MinLength(ls[1..]);
      if ls[0].GetOr(1.0) <= m then ls[0].GetOr(1.0) else m
  }

  /** The travel time of the hop `u -> v` over its shortest parallel edge. */
  function HopTime(g: Graph, speed: SpeedOracle, u: Node, v: Node): real {
    CalculateTravelTime(MinLength(g.EdgeLengths(u, v)), speed(u, v))
  }

  /** Hop times are never negative when the lengths present are not. */
  lemma HopTimeNonNegative(g: Graph, speed: SpeedOracle, u: Node, v: Node)
    requires NonNegative(g.EdgeLengths(u, v))
    ensures HopTime(g, speed, u, v) >= 0.0
  {
    var ls := g.EdgeLengths(u, v);
    if ls != [] {
      var i :| 0 <= i < |ls| && MinLength(ls) == ls[i].GetOr(1.0);
    }
  }

  /** The travel time of a whole walk: the sum of its hop times. */
  function PathTime(g: Graph, speed: SpeedOracle, p: seq<Node>): real
    decreases |p|
  {
    if |p| < 2 then 0.0
    else PathTime(g, speed, p[..|p| - 1]) + HopTime(g, speed, p[|p| - 2], p[|p| - 1])
  }
}
