/**
 * The Rocket class of main.py: an object whose fields Rocket.move updates in
 * place, and create_rocket, which allocates one from a drag.
 */
module Rockets {
  import opened Physics

  class Rocket {
    var x: real
    var y: real
    var velX: real
    var velY: real
    var mass: real
    var angle: real

    /** The current field values as one value. */
    function State(): RocketState
      reads this
    {
      RocketState(x, y, velX, velY, mass, angle)
    }

    /** Rocket.__init__: stores the six fields as given. */
    constructor (x: real, y: real, velX: real, velY: real, mass: real, angle: real)
      ensures State() == RocketState(x, y, velX, velY, mass, angle)
    {
      this.x := x;
      this.y := y;
      this.velX := velX;
      this.velY := velY;
      this.mass := mass;
      this.angle := angle;
    }

    /**
     * Rocket.move: one semi-implicit Euler step toward the planet. The source
     * divides by zero when the rocket sits on the planet centre.
     */
    method Move(trig: Trig)
      requires CanStep(State())
      modifies this
      ensures State() == Step(old(State()), trig)
    {
      var acceleration := Acceleration(mass, x, y);
      var toward := trig.toward(PlanetX as real - x, PlanetY as real - y);
      var accelerationX := acceleration * toward.x;
      var accelerationY := acceleration * toward.y;

      velX := velX + accelerationX;
      velY := velY + accelerationY;

      x := x + velX;
      y := y + velY;

      angle := trig.heading(velX, velY);
    }
  }

  /** create_rocket: a new rocket at the anchor, launched along the drag to the pointer. */
  method CreateRocket(location: Point, mousePos: Point, trig: Trig) returns (r: Rocket)
    ensures fresh(r)
    ensures r.State() == Launch(location, mousePos, trig)
  {
    var x1, y1 := location.x, location.y;
    var x2, y2 := mousePos.x, mousePos.y;
    var angle := trig.heading((x2 - x1) as real, (y2 - y1) as real);
    var velX := (x2 - x1) as real / LaunchScale as real;
    var velY := (y2 - y1) as real / LaunchScale as real;
    r := new Rocket(x1 as real, y1 as real, velX, velY, RocketMass as real, angle);
  }

  /** The states of a list of rockets, in order. */
  function States(rs: seq<Rocket>): (bs: seq<RocketState>)
    reads rs
    ensures |bs| == |rs|
  {
    if rs == [] then [] else States(rs[..|rs| - 1]) + [rs[|rs| - 1].State()]
  }

  /** Slot j of States is the state of rocket j. */
  lemma {:induction false} StateAt(rs: seq<Rocket>, j: nat)
    requires j < |rs|
    ensures States(rs)[j] == rs[j].State()
  {
    var n := |rs| - 1;
    if j < n {
      StateAt(rs[..n], j);
    }
  }

  /** States of a concatenation. */
  lemma {:induction false} StatesAppend(a: seq<Rocket>, b: seq<Rocket>)
    ensures States(a + b) == States(a) + States(b)
    decreases |b|
  {
    if b == [] {
      assert a + b == a;
    } else {
      var n := |b| - 1;
      assert (a + b)[..|a| + n] == a + b[..n];
      StatesAppend(a, b[..n]);
    }
  }
}
