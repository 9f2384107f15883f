/**
 * The demo animation of a pattern editor: a timer tick lights the preview
 * after checkbox `step`, then advances `step`, wrapping from 16 back to 1.
 */
module DemoStep {

  /** The value `step` starts with. */
  const FirstStep: int := 1

  /** The steps the animation visits: one per checkbox. */
  predicate ValidStep(step: int) {
    1 <= step <= 16
  }

  /** The counter update at the end of a timer tick. */
  function Tick(step: int): (next: int)
    ensures ValidStep(step) ==> ValidStep(next)
    ensures 1 <= step < 16 ==> next == step + 1
    ensures step == 16 ==> next == FirstStep
  {
    var s := step + 1;
    if s >= 17 then 1 else s
  }

  /** The counter after `n` ticks from `step`. */
  function Ticks(step: int, n: nat): int
    decreases n
  {
    if n == 0 then step else Ticks(Tick(step), n - 1)
  }

  /** From the start, the counter after `n` ticks is `n mod 16 + 1`: it runs 1, 2, ..., 16, 1, ... */
  lemma {:induction false} TicksFromStart(n: nat)
    ensures Ticks(FirstStep, n) == n % 16 + 1
  {
    TicksCount(FirstStep, n);
  }

  lemma {:induction false} TicksCount(step: int, n: nat)
    requires ValidStep(step)
    ensures Ticks(step, n) == (step - 1 + n) % 16 + 1
    decreases n
  {
    if n > 0 {
      TicksCount(Tick(step), n - 1);
    }
  }

  /** The counter never leaves 1 to 16, and sixteen ticks bring it back where it was. */
  lemma {:induction false} TicksStayValid(step: int, n: nat)
    requires ValidStep(step)
    ensures ValidStep(Ticks(step, n))
    ensures Ticks(step, 16) == step
  {
    TicksCount(step, n);
    TicksCount(step, 16);
  }
}
