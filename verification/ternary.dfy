/**
 * Ternary search for the minimum of a function on an interval, as written
 * twice (once returning the point, once returning the point, its value and
 * the step count). Arithmetic is over the reals, so every trisection is
 * exact; the searched function is a parameter.
 */
module Ternary {

  /** The current search interval `[left, right]`. */
  datatype Bracket = Bracket(left: real, right: real)

  function Width(b: Bracket): real {
    b.right - b.left
  }

  /** The lower trisection point `left * 2 / 3 + right / 3`. */
  function LowerThird(b: Bracket): (ml: real)
    ensures ml - b.left == Width(b) / 3.0
  {
    b.left * 2.0 / 3.0 + b.right / 3.0
  }

  /** The upper trisection point `left / 3 + right * 2 / 3`. */
  function UpperThird(b: Bracket): (mr: real)
    ensures b.right - mr == Width(b) / 3.0
  {
    b.left / 3.0 + b.right * 2.0 / 3.0
  }

  /**
   * One step of the loop: when the value at the lower trisection point is
   * strictly smaller, the right end moves down to the upper trisection point;
   * otherwise (ties included) the left end moves up to the lower one.
   */
  function Step(f: real -> real, b: Bracket): (n: Bracket)
    ensures f(LowerThird(b)) < f(UpperThird(b)) ==> n == Bracket(b.left, UpperThird(b))
    ensures f(LowerThird(b)) >= f(UpperThird(b)) ==> n == Bracket(LowerThird(b), b.right)
    ensures Width(n) == Width(b) * (2.0 / 3.0)
    ensures b.left <= b.right ==> b.left <= n.left <= n.right <= b.right
  {
    var ml := LowerThird(b);
    var mr := UpperThird(b);
    if f(ml) < f(mr) then Bracket(b.left, mr) else Bracket(ml, b.right)
  }

  /** `w` scaled by 2/3, `k` times over. */
  function Shrunk(w: real, k: nat): real {
    if k == 0 then w else Shrunk(w, k - 1) * (2.0 / 3.0)
  }

  /** The bracket after `k` steps from `b`. */
  function Iterate(f: real -> real, b: Bracket, k: nat): (n: Bracket)
    ensures b.left <= b.right ==> b.left <= n.left <= n.right <= b.right
  {
    if k == 0 then b else Step(f, Iterate(f, b, k - 1))
  }

  /** After `k` steps the width is exactly the initial width scaled by 2/3, `k` times. */
  lemma {:induction false} IterateWidth(f: real -> real, b: Bracket, k: nat)
    ensures Width(Iterate(f, b, k)) == Shrunk(Width(b), k)
  {
    if k > 0 {
      IterateWidth(f, b, k - 1);
    }
  }

  /**
   * The loop `while (right - left > eps && iterations < maxIterations)` stops
   * after exactly `k` steps: its condition held before each of the first `k`
   * steps and fails after them.
   */
  ghost predicate Halted(f: real -> real, b: Bracket, eps: real, maxIterations: int, k: nat) {
    (forall j: nat :: j < k ==> Width(Iterate(f, b, j)) > eps && j < maxIterations)
    && (Width(Iterate(f, b, k)) <= eps || k >= maxIterations)
  }

  /** The loop stops at one step count only. */
  lemma HaltedUnique(f: real -> real, b: Bracket, eps: real, maxIterations: int, k1: nat, k2: nat)
    requires Halted(f, b, eps, maxIterations, k1) && Halted(f, b, eps, maxIterations, k2)
    ensures k1 == k2
  {
  }

  /** Loop invariant: `k` steps taken from `b0`, each with the loop condition holding before it. */
  ghost predicate Running(f: real -> real, b0: Bracket, eps: real, maxIterations: int, b: Bracket, k: int) {
    && 0 <= k <= (if maxIterations > 0 then maxIterations else 0)
    && b == Iterate(f, b0, k)
    && forall j: nat :: j < k ==> Width(Iterate(f, b0, j)) > eps && j < maxIterations
  }

  lemma RunningStep(f: real -> real, b0: Bracket, eps: real, maxIterations: int, b: Bracket, k: int)
    requires Running(f, b0, eps, maxIterations, b, k)
    requires Width(b) > eps && k < maxIterations
    ensures Running(f, b0, eps, maxIterations, Step(f, b), k + 1)
  {
  }

  /** What the loop guarantees once its condition fails. */
  lemma RunningExit(f: real -> real, b0: Bracket, eps: real, maxIterations: int, b: Bracket, k: int)
    requires Running(f, b0, eps, maxIterations, b, k)
    requires !(Width(b) > eps && k < maxIterations)
    ensures Halted(f, b0, eps, maxIterations, k)
    ensures Width(b) <= eps || k == maxIterations || (maxIterations < 0 && k == 0)
    ensures Width(b0) <= eps ==> k == 0 && b == b0
    ensures Width(b) == Shrunk(Width(b0), k)
    ensures b0.left <= b0.right ==> b0.left <= b.left <= b.right <= b0.right
  {
    assert Iterate(f, b0, 0) == b0;
    IterateWidth(f, b0, k);
  }

  /**
   * The shared loop. Returns the final bracket and the number of steps taken.
   */
  method Search(f: real -> real, left: real, right: real, eps: real, maxIterations: int)
    returns (l: real, r: real, iterations: int)
    ensures 0 <= iterations <= (if maxIterations > 0 then maxIterations else 0)
    ensures Halted(f, Bracket(left, right), eps, maxIterations, iterations)
    ensures Bracket(l, r) == Iterate(f, Bracket(left, right), iterations)
    ensures r - l <= eps || iterations == maxIterations || (maxIterations < 0 && iterations == 0)
    ensures right - left <= eps ==> iterations == 0 && l == left && r == right
    ensures r - l == Shrunk(right - left, iterations)
    ensures left <= right ==> left <= l <= r <= right
  {
    ghost var b0 := Bracket(left, right);
    l, r := left, right;
    iterations := 0;
    while r - l > eps && iterations < maxIterations
      invariant Running(f, b0, eps, maxIterations, Bracket(l, r), iterations)
      decreases maxIterations - iterations
    {
      var prev := Bracket(l, r);
      RunningStep(f, b0, eps, maxIterations, prev, iterations);
      var ml := LowerThird(prev);
      var mr := UpperThird(prev);
      if f(ml) < f(mr) {
        r := mr;
      } else {
        l := ml;
      }
      iterations := iterations + 1;
    }
    RunningExit(f, b0, eps, maxIterations, Bracket(l, r), iterations);
  }

  function Midpoint(b: Bracket): (x: real)
    ensures b.left <= b.right ==> b.left <= x <= b.right
  {
    (b.left + b.right) / 2.0
  }

  /**
   * `TernarySearch(f, left, right, eps, maxIterations)`: the midpoint
   * `(left + right) / 2` of the bracket the loop stops at.
   */
  method TernarySearch(f: real -> real, left: real, right: real, eps: real, maxIterations: int)
    returns (x: real)
    ensures exists k: nat :: Halted(f, Bracket(left, right), eps, maxIterations, k)
                          && x == Midpoint(Iterate(f, Bracket(left, right), k))
    ensures right - left <= eps ==> x == Midpoint(Bracket(left, right))
    ensures left <= right ==> left <= x <= right
  {
    var l, r, iterations := Search(f, left, right, eps, maxIterations);
    x := (l + r) / 2.0;
  }

  /**
   * `ternary_search(func, left, right, eps, max_iterations)`: the point
   * `left / 2 + right / 2` of the final bracket, the function's value there,
   * and the number of steps taken.
   */
  method TernarySearchRs(f: real -> real, left: real, right: real, eps: real, maxIterations: int)
    returns (x: real, fx: real, iterations: int)
    ensures fx == f(x)
    ensures 0 <= iterations <= (if maxIterations > 0 then maxIterations else 0)
    ensures Halted(f, Bracket(left, right), eps, maxIterations, iterations)
    ensures x == Midpoint(Iterate(f, Bracket(left, right), iterations))
    ensures left <= right ==> left <= x <= right
  {
    var l, r;
    l, r, iterations := Search(f, left, right, eps, maxIterations);
    x := l / 2.0 + r / 2.0;
    fx := f(x);
  }

  // ---------------------------------------------------------------------------
  // Why the search finds the minimum

  /** `f` strictly decreases up to `m` and strictly increases from `m` on. */
  ghost predicate Unimodal(f: real -> real, m: real) {
    (forall x, y :: x < y <= m ==> f(x) > f(y)) && (forall x, y :: m <= x < y ==> f(x) < f(y))
  }

  ghost predicate Contains(b: Bracket, m: real) {
    b.left <= m <= b.right
  }

  /** A step never discards the minimiser of a unimodal function. */
  lemma StepKeepsMinimiser(f: real -> real, b: Bracket, m: real)
    requires Unimodal(f, m) && Contains(b, m)
    ensures Contains(Step(f, b), m)
  {
  }

  lemma {:induction false} IterateKeepsMinimiser(f: real -> real, b: Bracket, m: real, k: nat)
    requires Unimodal(f, m) && Contains(b, m)
    ensures Contains(Iterate(f, b, k), m)
  {
    if k > 0 {
      IterateKeepsMinimiser(f, b, m, k - 1);
      StepKeepsMinimiser(f, Iterate(f, b, k - 1), m);
    }
  }

  /**
   * For a unimodal function whose minimiser lies in the initial bracket, a
   * search that stopped on the width test returns a point within `eps / 2`
   * of the minimiser.
   */
  lemma ResultNearMinimiser(f: real -> real, left: real, right: real, eps: real, maxIterations: int,
                            k: nat, m: real)
    requires Unimodal(f, m) && left <= m <= right
    requires Halted(f, Bracket(left, right), eps, maxIterations, k)
    requires Width(Iterate(f, Bracket(left, right), k)) <= eps
    ensures -eps / 2.0 <= Midpoint(Iterate(f, Bracket(left, right), k)) - m <= eps / 2.0
  {
    IterateKeepsMinimiser(f, Bracket(left, right), m, k);
  }
}
