/** The boolean cell of src/hooks/use-boolean.tsx: `setTrue` and `setFalse` assign a
    constant, `toggle` negates the previous value, `reset` restores the initial one. */
module UseBoolean {

  /** `(prev) => !prev`: the one transition that depends on the previous value. */
  function Toggled(prev: bool): (r: bool)
    ensures r != prev
  {
    !prev
  }

  /** Toggling twice is the identity. */
  lemma ToggleTwice(b: bool)
    ensures Toggled(Toggled(b)) == b
  {
  }

  class BooleanCell {
    var value: bool
    const initial: bool

    /** `useBoolean(initialValue = false)` */
    constructor (initialValue: bool := false)
      ensures value == initialValue && initial == initialValue
    {
      value := initialValue;
      initial := initialValue;
    }

    /** `setValue(next)` with a plain value. */
    method Set(next: bool)
      modifies this
      ensures value == next
    {
      value := next;
    }

    /** Whatever the previous value, the cell holds true; so a second call changes nothing. */
    method SetTrue()
      modifies this
      ensures value
    {
      value := true;
    }

    /** Whatever the previous value, the cell holds false; so a second call changes nothing. */
    method SetFalse()
      modifies this
      ensures !value
    {
      value := false;
    }

    method Toggle()
      modifies this
      ensures value == Toggled(old(value))
      ensures value != old(value)
    {
      value := Toggled(value);
    }

    method Reset()
      modifies this
      ensures value == initial
    {
      value := initial;
    }
  }

  /** A client run: `setTrue` then `toggle` yields false, `setFalse` then `toggle` yields
      true, two toggles cancel, and `reset` restores the initial value (false by default). */
  method BooleanCellScenario(b: bool) returns (afterTrue: bool, afterFalse: bool, twice: bool, restored: bool)
    ensures !afterTrue && afterFalse
    ensures twice == b
    ensures !restored
  {
    var cell := new BooleanCell();
    cell.SetTrue();
    cell.Toggle();
    afterTrue := cell.value;
    cell.SetFalse();
    cell.Toggle();
    afterFalse := cell.value;
    cell.Set(b);
    cell.Toggle();
    cell.Toggle();
    twice := cell.value;
    cell.Reset();
    restored := cell.value;
  }
}
