/**
 * The shape of the driver's main loop, for any state type: a do-while loop
 * that runs one step, then asks a continuation test whether to go on. A
 * `fuel` bound caps the number of further steps so that the loop is a
 * total function.
 */
module Loops {

  /** One step, then the rest of the loop while the test says go on and fuel is left. */
  function DoWhile<T>(step: T -> T, go: T -> bool, x: T, fuel: nat): T
    decreases fuel
  {
    var y := step(x);
    if !go(y) || fuel == 0 then y else DoWhile(step, go, y, fuel - 1)
  }

  /** `k` steps from `x`, with no test in between. */
  function Iterate<T>(step: T -> T, x: T, k: nat): T
    decreases k
  {
    if k == 0 then x else Iterate(step, step(x), k - 1)
  }

  /**
   * The loop stops at the first step after which the test says stop: with
   * no fuel to spare it runs one step, and one more unit of fuel adds one
   * more step exactly when the test said go on where the shorter loop
   * ended, and changes nothing when it said stop.
   */
  lemma {:induction false} DoWhileExtend<T>(step: T -> T, go: T -> bool, x: T, fuel: nat)
    decreases fuel
    ensures DoWhile(step, go, x, 0) == step(x)
    ensures var r := DoWhile(step, go, x, fuel);
      DoWhile(step, go, x, fuel + 1) == if go(r) then step(r) else r
  {
    var y := step(x);
    if go(y) && fuel > 0 {
      DoWhileExtend(step, go, y, fuel - 1);
    }
  }

  /**
   * The same, counted from the start: the loop ends after `n` steps, where
   * the test said go on after every earlier step, and said stop after the
   * last unless the fuel ran out first.
   */
  lemma {:induction false} DoWhileStopsAtFirst<T>(step: T -> T, go: T -> bool, x: T, fuel: nat) returns (n: nat)
    decreases fuel
    ensures 1 <= n <= fuel + 1
    ensures DoWhile(step, go, x, fuel) == Iterate(step, x, n)
    ensures forall k :: 1 <= k < n ==> go(Iterate(step, x, k))
    ensures n <= fuel ==> !go(Iterate(step, x, n))
  {
    var y := step(x);
    assert Iterate(step, x, 1) == y;
    if !go(y) || fuel == 0 {
      n := 1;
    } else {
      var m := DoWhileStopsAtFirst(step, go, y, fuel - 1);
      n := m + 1;
      forall k | 1 <= k < n
        ensures go(Iterate(step, x, k))
      {
        assert Iterate(step, x, k) == Iterate(step, y, k - 1);
      }
    }
  }
}
