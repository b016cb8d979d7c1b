/**
 * The simulation constants of main.py, the kinematic state of a rocket as a
 * value, one integration step, launch construction and the two removal
 * predicates. Everything here is pure; the mutable rocket object lives in
 * module Rockets and is specified by these functions.
 *
 * Coordinates and velocities are `real`: the source's floats are modelled
 * without rounding. The trigonometry of the source (atan2, cos, sin, degrees)
 * is not computed here: it is supplied as a `Trig` value.
 */
module Physics {

  // Screen dimensions (main.py:7)
  const Width: int := 720
  const Height: int := 450

  // Simulation constants (main.py:14-22)
  const PlanetMass: int := 100
  const RocketMass: int := 5
  /** Frame rate; the driver passes its own literal 60 to the clock. */
  const Fps: int := 60
  const PlanetRadius: int := 40
  /** Only sizes the rocket image. */
  const RocketRadius: int := 5
  /** Declared but never read: launches divide by LaunchScale instead. */
  const VelScale: int := 100
  const PlanetX: int := Width / 2
  const PlanetY: int := Height / 2
  const GravityConstant: int := 10

  /** The literal divisor that turns a drag vector into a launch velocity. */
  const LaunchScale: int := 75

  /** A pointer position, as the mouse reports it (whole pixels). */
  datatype Point = Point(x: int, y: int)

  datatype Vec = Vec(x: real, y: real)

  /** The fields of one rocket: position, velocity, mass and heading in degrees. */
  datatype RocketState = RocketState(x: real, y: real, velX: real, velY: real, mass: real, angle: real)

  /**
   * The floating-point trigonometry the source calls, left abstract.
   * `toward(dx, dy)` is (cos t, sin t) for t = atan2(dy, dx), the direction of
   * the vector (dx, dy); `heading(dx, dy)` is degrees(atan2(dy, dx)).
   */
  datatype Trig = Trig(toward: (real, real) -> Vec, heading: (real, real) -> real)

  /** The identity on reals, Id(r) == r; see Square. */
  function Id(r: real): real
  {
    r
  }

  /**
   * Square(d) is d * d, the `** 2` of main.py. The second factor is written
   * Id(d), which equals d, only so that the verifier's arithmetic treats the
   * square like any other product of two terms.
   */
  function Square(d: real): (s: real)
    ensures s >= 0.0
    ensures d != 0.0 ==> s > 0.0
  {
    SquareSign(d);
    d * Id(d)
  }

  lemma SquareSign(d: real)
    ensures d * Id(d) >= 0.0
    ensures d != 0.0 ==> d * Id(d) > 0.0
  {
    if d > 0.0 {
      assert d * Id(d) > 0.0;
    } else if d < 0.0 {
      assert d * Id(d) > 0.0;
    } else {
      assert d * Id(d) == 0.0;
    }
  }

  /** `u` is the unit vector pointing along (dx, dy): what cos/sin of atan2 compute. */
  ghost predicate IsUnitToward(u: Vec, dx: real, dy: real)
  {
    Square(u.x) + Square(u.y) == 1.0 && u.x * dy == u.y * dx && u.x * dx + u.y * dy > 0.0
  }

  /** The squared distance from (x, y) to the planet centre, `distance ** 2` in the source. */
  function Dist2(x: real, y: real): (d2: real)
    ensures d2 >= 0.0
    ensures x != PlanetX as real || y != PlanetY as real ==> d2 > 0.0
  {
    Square(x - PlanetX as real) + Square(y - PlanetY as real)
  }

  /**
   * What Rocket.move needs to run: its divisions are by the mass and by the
   * squared distance, and the source raises on a zero divisor.
   */
  predicate CanStep(s: RocketState)
  {
    s.mass != 0.0 && Dist2(s.x, s.y) != 0.0
  }

  /**
   * The acceleration magnitude of Rocket.move: the force G * m * M / d^2
   * divided by the rocket's own mass m.
   */
  function Acceleration(mass: real, x: real, y: real): (a: real)
    requires mass != 0.0 && Dist2(x, y) != 0.0
    ensures a == (GravityConstant * PlanetMass) as real / Dist2(x, y)
    ensures a > 0.0
  {
    var g := GravityConstant as real;
    var big := PlanetMass as real;
    var d2 := Dist2(x, y);
    var force := (g * mass * big) / d2;
    assert force == mass * ((g * big) / d2);
    force / mass
  }

  /**
   * One call of Rocket.move on the value of a rocket: velocity first, then
   * position with the new velocity (semi-implicit Euler), then the heading.
   */
  function Step(s: RocketState, trig: Trig): (r: RocketState)
    requires CanStep(s)
    ensures r.mass == s.mass
    ensures r.x - s.x == r.velX && r.y - s.y == r.velY
    ensures r.angle == trig.heading(r.velX, r.velY)
  {
    var a := Acceleration(s.mass, s.x, s.y);
    var u := trig.toward(PlanetX as real - s.x, PlanetY as real - s.y);
    var vx := s.velX + a * u.x;
    var vy := s.velY + a * u.y;
    RocketState(s.x + vx, s.y + vy, vx, vy, s.mass, trig.heading(vx, vy))
  }

  /**
   * When the trigonometry is exact, the velocity change of one step has the
   * magnitude G * M / d^2 and points from the rocket at the planet centre.
   */
  lemma StepPullsTowardPlanet(s: RocketState, trig: Trig)
    requires CanStep(s)
    requires IsUnitToward(trig.toward(PlanetX as real - s.x, PlanetY as real - s.y),
                          PlanetX as real - s.x, PlanetY as real - s.y)
    ensures var r := Step(s, trig);
            var dx, dy := PlanetX as real - s.x, PlanetY as real - s.y;
            var dvx, dvy := r.velX - s.velX, r.velY - s.velY;
            && Square(dvx) + Square(dvy) == Square((GravityConstant * PlanetMass) as real / Dist2(s.x, s.y))
            && dvx * dy == dvy * dx
            && dvx * dx + dvy * dy > 0.0
  {
    var dx, dy := PlanetX as real - s.x, PlanetY as real - s.y;
    var a := Acceleration(s.mass, s.x, s.y);
    ScaledUnitToward(a, trig.toward(dx, dy), dx, dy);
  }

  /** a times the unit vector along (dx, dy) has length a and points along (dx, dy). */
  lemma ScaledUnitToward(a: real, u: Vec, dx: real, dy: real)
    requires a > 0.0 && IsUnitToward(u, dx, dy)
    ensures Square(a * u.x) + Square(a * u.y) == Square(a)
    ensures (a * u.x) * dy == (a * u.y) * dx
    ensures (a * u.x) * dx + (a * u.y) * dy > 0.0
  {
    SquareOfProduct(a, u.x);
    SquareOfProduct(a, u.y);
    calc {
      Square(a * u.x) + Square(a * u.y);
      Square(a) * Square(u.x) + Square(a) * Square(u.y);
      Square(a) * (Square(u.x) + Square(u.y));
      Square(a);
    }
    calc {
      (a * u.x) * dy;
      a * (u.x * dy);
      a * (u.y * dx);
      (a * u.y) * dx;
    }
    calc {
      (a * u.x) * dx + (a * u.y) * dy;
      a * (u.x * dx + u.y * dy);
    }
    MulPositive(a, u.x * dx + u.y * dy);
  }

  lemma SquareOfProduct(p: real, q: real)
    ensures Square(p * q) == Square(p) * Square(q)
  {
    calc {
      Square(p * q);
      (p * q) * Id(p * q);
      (p * q) * (Id(p) * Id(q));
      (p * Id(p)) * (q * Id(q));
    }
  }

  lemma MulPositive(p: real, q: real)
    requires p > 0.0 && q > 0.0
    ensures p * q > 0.0
  {
  }

  /** Off-screen test of the frame loop: strict comparisons against the window. */
  predicate OffScreen(x: real, y: real)
    ensures OffScreen(x, y) ==> Dist2(x, y) > 0.0
  {
    x < 0.0 || x > Width as real || y < 0.0 || y > Height as real
  }

  /**
   * Collision test of the frame loop, sqrt(dx^2 + dy^2) <= PLANET_RADIUS,
   * stated on squares (both sides are non-negative).
   */
  predicate Collided(x: real, y: real)
    ensures x == PlanetX as real && y == PlanetY as real ==> Collided(x, y)
    ensures !Collided(x, y) ==> Dist2(x, y) > 0.0
  {
    Dist2(x, y) <= (PlanetRadius * PlanetRadius) as real
  }

  /** The frame loop removes a rocket whose moved state satisfies this. */
  predicate Leaves(s: RocketState)
  {
    OffScreen(s.x, s.y) || Collided(s.x, s.y)
  }

  /** A rocket is kept exactly when it lies in the closed window rectangle and outside the planet. */
  lemma LeavesIff(s: RocketState)
    ensures !Leaves(s) <==>
              && 0.0 <= s.x <= Width as real && 0.0 <= s.y <= Height as real
              && Dist2(s.x, s.y) > (PlanetRadius * PlanetRadius) as real
  {
  }

  /**
   * Squaring does not change the collision verdict: for the distance d (any
   * non-negative square root of Dist2), d <= PLANET_RADIUS exactly when Collided.
   */
  lemma CollidedMatchesDistance(x: real, y: real, d: real)
    requires d >= 0.0 && Square(d) == Dist2(x, y)
    ensures Collided(x, y) <==> d <= PlanetRadius as real
  {
    var r := PlanetRadius as real;
    if d <= r {
      assert d * Id(d) <= d * r <= r * r;
    } else {
      assert d * Id(d) > d * r > r * r;
    }
  }

  /** Boundary cases of the two predicates. */
  lemma RemovalBoundaries()
    ensures !OffScreen(0.0, 0.0) && !OffScreen(Width as real, Height as real)
    ensures OffScreen(-1.0, 200.0)
    ensures Collided(PlanetX as real + PlanetRadius as real, PlanetY as real)
    ensures !Collided(PlanetX as real + PlanetRadius as real + 1.0, PlanetY as real)
  {
  }

  /** A rocket that is kept after its move is not at the planet centre, so it can move again. */
  lemma KeptCanStep(s: RocketState)
    requires s.mass != 0.0 && !Leaves(s)
    ensures CanStep(s)
  {
  }

  /**
   * create_rocket on values: the rocket starts at the anchor with mass
   * ROCKET_MASS and velocity (target - anchor) / 75, heading along the drag.
   */
  function Launch(anchor: Point, target: Point, trig: Trig): (s: RocketState)
    ensures s.x == anchor.x as real && s.y == anchor.y as real
    ensures s.mass == RocketMass as real
    ensures s.x + LaunchScale as real * s.velX == target.x as real
    ensures s.y + LaunchScale as real * s.velY == target.y as real
  {
    var dx := (target.x - anchor.x) as real;
    var dy := (target.y - anchor.y) as real;
    RocketState(anchor.x as real, anchor.y as real,
                dx / LaunchScale as real, dy / LaunchScale as real,
                RocketMass as real, trig.heading(dx, dy))
  }

  /** A drag from (0, 0) to (150, 0) launches at velocity (2, 0). */
  lemma LaunchExample(trig: Trig)
    ensures var s := Launch(Point(0, 0), Point(150, 0), trig);
            s.x == 0.0 && s.y == 0.0 && s.velX == 2.0 && s.velY == 0.0 && s.mass == 5.0
  {
  }

  /** Anchoring a launch anywhere but the planet centre gives a rocket that can move. */
  lemma LaunchCanStep(anchor: Point, target: Point, trig: Trig)
    requires anchor != Point(PlanetX, PlanetY)
    ensures CanStep(Launch(anchor, target, trig))
  {
  }
}
