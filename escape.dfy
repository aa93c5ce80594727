/**
 * The counter skeleton of `mandelbrot`: an escape-time loop capped at
 * `maxit` iterations that stops as soon as the orbit leaves the disc.
 *
 * The orbit state (the pair `x, y`), the recurrence and the magnitude test
 * are parameters: `step(z, c)` is one application of the recurrence with
 * the constant `c`, and `inside(z)` is the test `x*x + y*y < 4`. No
 * floating-point behaviour is modelled; only the loop and its counter are.
 */
module Escape {

  /** The iteration cap `maxit`. */
  const MaxIt: nat := 511

  /**
   * The k-th point of the orbit. The orbit is seeded at the constant itself
   * (`x = cx, y = cy` before the first step), not at zero.
   */
  function Orbit<S>(step: (S, S) -> S, c: S, k: nat): S
  {
    if k == 0 then c else step(Orbit(step, c, k - 1), c)
  }

  /**
   * Reference definition of the escape count: the number of steps taken
   * from orbit point `z` while `z` stays inside, using at most `fuel` steps.
   */
  function EscapeTime<S>(step: (S, S) -> S, inside: S -> bool, c: S, z: S, fuel: nat): (n: nat)
    ensures n <= fuel
  {
    if fuel == 0 || !inside(z) then 0
    else 1 + EscapeTime(step, inside, c, step(z, c), fuel - 1)
  }

  /**
   * What the escape count means: every orbit point before it is inside, and
   * unless the cap was reached the orbit point at it is outside.
   */
  lemma {:induction false} EscapeTimeMeaning<S>(step: (S, S) -> S, inside: S -> bool, c: S, k: nat, fuel: nat)
    ensures var n := EscapeTime(step, inside, c, Orbit(step, c, k), fuel);
      (forall j :: k <= j < k + n ==> inside(Orbit(step, c, j))) &&
      (n < fuel ==> !inside(Orbit(step, c, k + n)))
    decreases fuel
  {
    var z := Orbit(step, c, k);
    if fuel > 0 && inside(z) {
      assert Orbit(step, c, k + 1) == step(z, c);
      EscapeTimeMeaning(step, inside, c, k + 1, fuel - 1);
    }
  }

  /**
   * The two properties of EscapeTimeMeaning determine the count: any n
   * within the cap that has both equals the escape count of the orbit.
   */
  lemma EscapeTimeUnique<S>(step: (S, S) -> S, inside: S -> bool, c: S, n: nat)
    requires n <= MaxIt
    requires forall m :: 0 <= m < n ==> inside(Orbit(step, c, m))
    requires n < MaxIt ==> !inside(Orbit(step, c, n))
    ensures n == EscapeTime(step, inside, c, c, MaxIt)
  {
    var e := EscapeTime(step, inside, c, c, MaxIt);
    EscapeTimeMeaning(step, inside, c, 0, MaxIt);
    var zn, ze := Orbit(step, c, n), Orbit(step, c, e);
    assert n < e ==> inside(zn);
    assert e < n ==> inside(ze);
  }

  /**
   * `mandelbrot`: iterate from the seed `c` while fewer than `maxit` steps
   * were taken and the current point is inside; return the step count.
   */
  method Mandelbrot<S>(c: S, step: (S, S) -> S, inside: S -> bool) returns (it: nat)
    ensures it <= MaxIt
    ensures !inside(c) ==> it == 0
    ensures forall m :: 0 <= m < it ==> inside(Orbit(step, c, m))
    ensures it < MaxIt ==> !inside(Orbit(step, c, it))
    ensures it == EscapeTime(step, inside, c, c, MaxIt)
  {
    var z := c;
    it := 0;
    while it < MaxIt && inside(z)
      invariant it <= MaxIt
      invariant z == Orbit(step, c, it)
      invariant forall m :: 0 <= m < it ==> inside(Orbit(step, c, m))
    {
      z := step(z, c);
      it := it + 1;
    }
    EscapeTimeUnique(step, inside, c, it);
  }
}
