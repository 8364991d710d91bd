/** One particle of the effect and what a frame of `UpdateParticles` does to
    it: the pointer's repulsion inside the influence radius, friction on the
    velocity and the ease back towards the particle's origin. */
module ParticleModel {
  import opened RaylibTypes

  /** The constants `InitParticles` stores in every particle
      (`2.0f`, `0.98f`, `0.2f`), taken as the reals they approximate. */
  const PARTICLE_SIZE: real := 2.0
  const FRICTION: real := 0.98
  const EASE: real := 0.2

  /** The C struct `Particle`, field for field. */
  datatype Particle = Particle(
    position: Vector2,
    origin: Vector2,
    velocity: Vector2,
    color: Color,
    size: real,
    force: real,
    angle: real,
    distance: real,
    friction: real,
    ease: real)

  /** The C maths library functions the update calls (`atan2f`, `cosf`,
      `sinf`); they are outside the model and passed in. */
  datatype MathFns = MathFns(atan2: (real, real) -> real, cos: real -> real, sin: real -> real)

  /** The particle `InitParticles` writes for a pixel of colour `color`
      placed at screen coordinates `(x, y)`: at rest on its origin. */
  function NewParticle(x: int, y: int, color: Color): (p: Particle)
    ensures p.position == p.origin == Vector2(x as real, y as real)
    ensures p.velocity == ZERO && p.color == color
  {
    Particle(
      position := Vector2(x as real, y as real),
      origin := Vector2(x as real, y as real),
      velocity := ZERO,
      color := color,
      size := PARTICLE_SIZE,
      force := 0.0,
      angle := 0.0,
      distance := 0.0,
      friction := FRICTION,
      ease := EASE)
  }

  /** Whether the pointer pushes the particle this frame: it is not exactly on
      the particle, and its squared distance is below the radius. */
  predicate Pushed(p: Particle, mouse: Vector2, mouseRadius: int)
  {
    var d := LengthSqr(Subtract(mouse, p.position));
    0.0 < d < mouseRadius as real
  }

  /** The first part of an iteration of `UpdateParticles` (the pointer's
      push): it records the squared distance to the pointer, computes the
      force when the pointer is not exactly on the particle, and inside the
      radius adds the force along the angle towards the pointer to the
      velocity. `force` and `angle` keep their previous values on the
      branches that do not assign them. */
  function Push(p: Particle, mouse: Vector2, mouseRadius: int, math: MathFns): (q: Particle)
    ensures q.position == p.position && q.origin == p.origin && q.color == p.color
    ensures q.size == p.size && q.friction == p.friction && q.ease == p.ease
  {
    var dxdy := Subtract(mouse, p.position);
    var distance := LengthSqr(dxdy);
    if distance > 0.0 then
      var force := (-mouseRadius) as real / distance;
      if distance < mouseRadius as real then
        var angle := math.atan2(dxdy.y, dxdy.x);
        p.(distance := distance, force := force, angle := angle,
           velocity := Vector2(p.velocity.x + force * math.cos(angle),
                               p.velocity.y + force * math.sin(angle)))
      else
        p.(distance := distance, force := force)
    else
      p.(distance := distance)
  }

  /** The second part: friction damps the velocity, then the position moves
      by the damped velocity plus `ease` times the way left to the origin. */
  function Integrate(p: Particle): (q: Particle)
    ensures q.origin == p.origin && q.color == p.color && q.size == p.size
    ensures q.friction == p.friction && q.ease == p.ease
    ensures q.distance == p.distance && q.force == p.force && q.angle == p.angle
  {
    var velocity := Vector2(p.velocity.x * p.friction, p.velocity.y * p.friction);
    p.(velocity := velocity,
       position := Vector2(p.position.x + velocity.x + (p.origin.x - p.position.x) * p.ease,
                           p.position.y + velocity.y + (p.origin.y - p.position.y) * p.ease))
  }

  /** One iteration of the loop of `UpdateParticles` on particle `p`. */
  function Step(p: Particle, mouse: Vector2, mouseRadius: int, math: MathFns): (q: Particle)
    ensures q.origin == p.origin && q.color == p.color && q.size == p.size
    ensures q.friction == p.friction && q.ease == p.ease
  {
    Integrate(Push(p, mouse, mouseRadius, math))
  }

  /** With the pointer exactly on the particle no force is computed or
      applied (no division by zero): the push leaves velocity, force and
      angle as they were. */
  lemma PointerOnParticleOnlyDamps(p: Particle, mouseRadius: int, math: MathFns)
    ensures var q := Push(p, p.position, mouseRadius, math);
      q.velocity == p.velocity && q.force == p.force && q.angle == p.angle && q.distance == 0.0
  {
    DistanceToSelf(p.position);
  }

  /** So over a whole frame with the pointer on the particle (at squared
      distance zero), friction is the only change to the velocity, whatever
      the radius and the maths functions. */
  lemma PointerOnParticleStepDamps(p: Particle, mouse: Vector2, mouseRadius: int, math: MathFns)
    requires LengthSqr(Subtract(mouse, p.position)) == 0.0
    ensures Step(p, mouse, mouseRadius, math).velocity
         == Vector2(p.velocity.x * p.friction, p.velocity.y * p.friction)
  {
    FarStepIgnoresMaths(p, mouse, mouseRadius, math, math);
  }

  /** Outside the influence radius the force is computed but not applied:
      velocity and angle are as before the push. */
  lemma FarPointerDoesNotPush(p: Particle, mouse: Vector2, mouseRadius: int, math: MathFns)
    requires !Pushed(p, mouse, mouseRadius)
    ensures var q := Push(p, mouse, mouseRadius, math);
      q.velocity == p.velocity && q.angle == p.angle
  {
  }

  /** So with the pointer out of reach a whole frame does not depend on the
      maths functions, and friction is the only change to the velocity. */
  lemma FarStepIgnoresMaths(p: Particle, mouse: Vector2, mouseRadius: int, math1: MathFns, math2: MathFns)
    requires !Pushed(p, mouse, mouseRadius)
    ensures Step(p, mouse, mouseRadius, math1) == Step(p, mouse, mouseRadius, math2)
    ensures Step(p, mouse, mouseRadius, math1).velocity
         == Vector2(p.velocity.x * p.friction, p.velocity.y * p.friction)
  {
    FarPointerDoesNotPush(p, mouse, mouseRadius, math1);
  }

  /** The maths functions agree on direction for the offset `d`: the unit
      vector at the angle `atan2(d.y, d.x)` has a positive component along
      `d`, as it has for the C library's functions whenever `d` is not zero. */
  predicate PointsAlong(math: MathFns, d: Vector2)
  {
    var a := math.atan2(d.y, d.x);
    math.cos(a) * d.x + math.sin(a) * d.y > 0.0
  }

  /** Inside the radius the particle is pushed away from the pointer: the
      force is negative, and the change of velocity has a negative component
      along the offset from the particle to the pointer. */
  lemma NearPointerPushesAway(p: Particle, mouse: Vector2, mouseRadius: int, math: MathFns)
    requires Pushed(p, mouse, mouseRadius)
    requires PointsAlong(math, Subtract(mouse, p.position))
    ensures Push(p, mouse, mouseRadius, math).force < 0.0
    ensures var d := Subtract(mouse, p.position);
      var v := Push(p, mouse, mouseRadius, math).velocity;
      (v.x - p.velocity.x) * d.x + (v.y - p.velocity.y) * d.y < 0.0
  {
    var d := Subtract(mouse, p.position);
    var dist := LengthSqr(d);
    var force := (-mouseRadius) as real / dist;
    NegativeQuotient(mouseRadius as real, dist);
    var a := math.atan2(d.y, d.x);
    var c, s := math.cos(a), math.sin(a);
    var v := Push(p, mouse, mouseRadius, math).velocity;
    assert v.x - p.velocity.x == force * c && v.y - p.velocity.y == force * s;
    NegativeScaling(force, c, s, d.x, d.y);
  }

  lemma NegativeQuotient(r: real, dist: real)
    requires 0.0 < dist < r
    ensures -r / dist < 0.0
  {
    assert (-r / dist) * dist == -r;
  }

  /** A negative multiple of `(c, s)` points against any `d` that `(c, s)`
      points along. */
  lemma NegativeScaling(f: real, c: real, s: real, dx: real, dy: real)
    requires f < 0.0 && c * dx + s * dy > 0.0
    ensures (f * c) * dx + (f * s) * dy < 0.0
  {
    assert (f * c) * dx + (f * s) * dy == f * (c * dx + s * dy);
  }

  /** `Step` applied once per frame, with the pointer at `mice[k]` in frame k. */
  function Run(p: Particle, mice: seq<Vector2>, mouseRadius: int, math: MathFns): Particle
    decreases |mice|
  {
    if mice == [] then p else Run(Step(p, mice[0], mouseRadius, math), mice[1..], mouseRadius, math)
  }

  /** One more frame at the end of a run is one more `Step`. */
  lemma {:induction false} RunAppend(p: Particle, mice: seq<Vector2>, m: Vector2, mouseRadius: int, math: MathFns)
    ensures Run(p, mice + [m], mouseRadius, math) == Step(Run(p, mice, mouseRadius, math), m, mouseRadius, math)
    decreases |mice|
  {
    if mice == [] {
      assert mice + [m] == [m];
      assert [m][1..] == [];
    } else {
      assert (mice + [m])[0] == mice[0];
      assert (mice + [m])[1..] == mice[1..] + [m];
      RunAppend(Step(p, mice[0], mouseRadius, math), mice[1..], m, mouseRadius, math);
    }
  }

  /** Origin, colour and the constant fields never change, however many
      frames run. */
  lemma {:induction false} RunKeepsIdentity(p: Particle, mice: seq<Vector2>, mouseRadius: int, math: MathFns)
    ensures var q := Run(p, mice, mouseRadius, math);
      q.origin == p.origin && q.color == p.color && q.size == p.size &&
      q.friction == p.friction && q.ease == p.ease
    decreases |mice|
  {
    if mice != [] {
      RunKeepsIdentity(Step(p, mice[0], mouseRadius, math), mice[1..], mouseRadius, math);
    }
  }

  /** The pointer stays outside the influence radius in every frame of the run. */
  predicate OutOfReach(p: Particle, mice: seq<Vector2>, mouseRadius: int, math: MathFns)
    decreases |mice|
  {
    mice == [] ||
    (!Pushed(p, mice[0], mouseRadius) &&
     OutOfReach(Step(p, mice[0], mouseRadius, math), mice[1..], mouseRadius, math))
  }

  /** `d` scaled down by the factor `1 - EASE` = 0.8 once per frame, over
      `n` frames. */
  function Shrink(n: nat, d: real): real
  {
    if n == 0 then d else Shrink(n - 1, 0.8 * d)
  }

  /** `b` to the power `n`. */
  function Pow(b: real, n: nat): real
  {
    if n == 0 then 1.0 else b * Pow(b, n - 1)
  }

  /** `Shrink` in closed form, `0.8^n * d`: the offset never grows and
      tends to zero. */
  lemma {:induction false} ShrinkIsPow(n: nat, d: real)
    ensures Shrink(n, d) == Pow(0.8, n) * d
    ensures Abs(Shrink(n, d)) <= Abs(d)
  {
    if n > 0 {
      ShrinkIsPow(n - 1, 0.8 * d);
      var k := Pow(0.8, n - 1);
      assert k * (0.8 * d) == (0.8 * k) * d;
    }
  }

  /** A frame without a push, for a particle with the constants
      `InitParticles` gives it, at rest: it stays at rest, and its offset from
      the origin shrinks to `1 - EASE` = 0.8 of what it was on each axis. */
  lemma RestingStepEases(p: Particle, mouse: Vector2, mouseRadius: int, math: MathFns)
    requires p.velocity == ZERO && p.friction == FRICTION && p.ease == EASE
    requires !Pushed(p, mouse, mouseRadius)
    ensures var q := Step(p, mouse, mouseRadius, math);
      q.velocity == ZERO &&
      q.origin.x - q.position.x == 0.8 * (p.origin.x - p.position.x) &&
      q.origin.y - q.position.y == 0.8 * (p.origin.y - p.position.y)
  {
    FarPointerDoesNotPush(p, mouse, mouseRadius, math);
  }

  /** So each such frame brings the particle strictly closer to its origin on
      every axis where it is not there yet. */
  lemma RestingParticleApproachesOrigin(p: Particle, mouse: Vector2, mouseRadius: int, math: MathFns)
    requires p.velocity == ZERO && p.friction == FRICTION && p.ease == EASE
    requires !Pushed(p, mouse, mouseRadius)
    ensures var q := Step(p, mouse, mouseRadius, math);
      Abs(q.origin.x - q.position.x) <= Abs(p.origin.x - p.position.x) &&
      Abs(q.origin.y - q.position.y) <= Abs(p.origin.y - p.position.y) &&
      (p.position != p.origin ==>
         Abs(q.origin.x - q.position.x) < Abs(p.origin.x - p.position.x) ||
         Abs(q.origin.y - q.position.y) < Abs(p.origin.y - p.position.y))
  {
    RestingStepEases(p, mouse, mouseRadius, math);
  }

  function Abs(r: real): real
  {
    if r < 0.0 then -r else r
  }

  /** Over a run of frames with the pointer out of reach, a resting particle
      stays at rest and its offset from the origin is scaled by 0.8 per frame. */
  lemma {:induction false} RestingParticleRelaxes(p: Particle, mice: seq<Vector2>, mouseRadius: int, math: MathFns)
    requires p.velocity == ZERO && p.friction == FRICTION && p.ease == EASE
    requires OutOfReach(p, mice, mouseRadius, math)
    ensures var q := Run(p, mice, mouseRadius, math);
      q.velocity == ZERO &&
      q.origin.x - q.position.x == Shrink(|mice|, p.origin.x - p.position.x) &&
      q.origin.y - q.position.y == Shrink(|mice|, p.origin.y - p.position.y)
    decreases |mice|
  {
    if mice != [] {
      var p1 := Step(p, mice[0], mouseRadius, math);
      RestingStepEases(p, mice[0], mouseRadius, math);
      RestingParticleRelaxes(p1, mice[1..], mouseRadius, math);
    }
  }
}
