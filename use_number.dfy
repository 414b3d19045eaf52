/** The number cell of src/hooks/use-number.tsx over exact real arithmetic: additive
    steps, scaling, a division guarded against a zero divisor, and the two clamps
    `setMin` (`Math.max`) and `setMax` (`Math.min`). */
module UseNumber {

  /** `prev + step`. */
  function Incremented(prev: real, step: real): (r: real)
    ensures r - prev == step
  {
    prev + step
  }

  /** `prev - step`. */
  function Decremented(prev: real, step: real): (r: real)
    ensures prev - r == step
  {
    prev - step
  }

  /** `prev * factor`. */
  function Multiplied(prev: real, factor: real): (r: real)
    ensures factor != 0.0 ==> r / factor == prev
    ensures factor == 0.0 ==> r == 0.0
  {
    prev * factor
  }

  /** The whole of `divide`: a zero divisor returns before any update, any other divisor
      commits `prev / divisor`. */
  function Divided(prev: real, divisor: real): (r: real)
    ensures divisor == 0.0 ==> r == prev
    ensures divisor != 0.0 ==> r * divisor == prev
  {
    if divisor == 0.0 then prev else prev / divisor
  }

  /** `Math.max(prev, min)`. */
  function AtLeast(prev: real, min: real): (r: real)
    ensures r >= min && r >= prev
    ensures r == min || r == prev
  {
    if prev >= min then prev else min
  }

  /** `Math.min(prev, max)`. */
  function AtMost(prev: real, max: real): (r: real)
    ensures r <= max && r <= prev
    ensures r == max || r == prev
  {
    if prev <= max then prev else max
  }

  /** Over exact arithmetic a decrement undoes an increment of the same step. */
  lemma DecrementAfterIncrement(x: real, step: real)
    ensures Decremented(Incremented(x, step), step) == x
  {
  }

  /** Dividing by a non-zero number undoes multiplying by it. */
  lemma DivideAfterMultiply(x: real, factor: real)
    requires factor != 0.0
    ensures Divided(Multiplied(x, factor), factor) == x
  {
  }

  /** Clamping from below is idempotent. */
  lemma AtLeastIdempotent(x: real, min: real)
    ensures AtLeast(AtLeast(x, min), min) == AtLeast(x, min)
  {
  }

  /** Clamping from above is idempotent. */
  lemma AtMostIdempotent(x: real, max: real)
    ensures AtMost(AtMost(x, max), max) == AtMost(x, max)
  {
  }

  /** Clamping from below then above lands in the interval whenever it is not empty. */
  lemma ClampIntoRange(x: real, lo: real, hi: real)
    requires lo <= hi
    ensures lo <= AtMost(AtLeast(x, lo), hi) <= hi
  {
  }

  class NumberCell {
    var value: real
    const initial: real

    /** `useNumber(initialValue = 0)` */
    constructor (initialValue: real := 0.0)
      ensures value == initialValue && initial == initialValue
    {
      value := initialValue;
      initial := initialValue;
    }

    /** `setValue(next)` with a plain value. */
    method Set(next: real)
      modifies this
      ensures value == next
    {
      value := next;
    }

    method Increment(step: real := 1.0)
      modifies this
      ensures value == Incremented(old(value), step)
    {
      value := Incremented(value, step);
    }

    method Decrement(step: real := 1.0)
      modifies this
      ensures value == Decremented(old(value), step)
    {
      value := Decremented(value, step);
    }

    method Multiply(factor: real)
      modifies this
      ensures value == Multiplied(old(value), factor)
    {
      value := Multiplied(value, factor);
    }

    /** A zero divisor returns before `setValue`, so the value is untouched. */
    method Divide(divisor: real)
      modifies this
      ensures divisor == 0.0 ==> value == old(value)
      ensures value == Divided(old(value), divisor)
    {
      if divisor == 0.0 {
        return;
      }
      value := value / divisor;
    }

    method Reset()
      modifies this
      ensures value == initial
    {
      value := initial;
    }

    method SetMin(min: real)
      modifies this
      ensures value == AtLeast(old(value), min)
    {
      value := AtLeast(value, min);
    }

    method SetMax(max: real)
      modifies this
      ensures value == AtMost(old(value), max)
    {
      value := AtMost(value, max);
    }
  }

  /** A client run: the default step is 1, a decrement undoes an increment, dividing by
      zero changes nothing, and `reset` restores the initial value (0 by default). */
  method NumberCellScenario(x: real) returns (stepped: real, undone: real, guarded: real, restored: real)
    ensures stepped == x + 1.0
    ensures undone == x
    ensures guarded == x
    ensures restored == 0.0
  {
    var cell := new NumberCell();
    cell.Set(x);
    cell.Increment();
    stepped := cell.value;
    cell.Decrement();
    undone := cell.value;
    cell.Divide(0.0);
    guarded := cell.value;
    cell.Reset();
    restored := cell.value;
  }
}
