/** The array cell of src/hooks/use-array.tsx: a sequence-valued state cell whose
    operations each compute the next sequence from the previous one (a spread or a
    slice) and commit it; `reset` commits the initial sequence. */
module UseArray {

  /** `[...prev, item]`: the old elements in order, then the item. */
  function Pushed<T>(prev: seq<T>, item: T): (r: seq<T>)
    ensures |r| == |prev| + 1
    ensures r[|prev|] == item
    ensures forall i :: 0 <= i < |prev| ==> r[i] == prev[i]
  {
    prev + [item]
  }

  /** `prev.slice(0, -1)`: everything but the last element; on `[]` the slice is `[]`. */
  function Popped<T>(prev: seq<T>): (r: seq<T>)
    ensures prev == [] ==> r == []
    ensures prev != [] ==> |r| == |prev| - 1 && prev == r + [prev[|prev| - 1]]
  {
    if prev == [] then [] else prev[..|prev| - 1]
  }

  /** `prev.slice(1)`: everything but the first element; on `[]` the slice is `[]`. */
  function Shifted<T>(prev: seq<T>): (r: seq<T>)
    ensures prev == [] ==> r == []
    ensures prev != [] ==> |r| == |prev| - 1 && prev == [prev[0]] + r
  {
    if prev == [] then [] else prev[1..]
  }

  /** `[item, ...prev]`: the item, then the old elements in order. */
  function Unshifted<T>(prev: seq<T>, item: T): (r: seq<T>)
    ensures |r| == |prev| + 1
    ensures r[0] == item
    ensures forall i :: 0 <= i < |prev| ==> r[i + 1] == prev[i]
  {
    [item] + prev
  }

  /** Popping what was just pushed gives back the sequence. */
  lemma PopAfterPush<T>(s: seq<T>, x: T)
    ensures Popped(Pushed(s, x)) == s
  {
    assert Pushed(s, x)[..|s|] == s;
  }

  /** Shifting what was just unshifted gives back the sequence. */
  lemma ShiftAfterUnshift<T>(s: seq<T>, x: T)
    ensures Shifted(Unshifted(s, x)) == s
  {
    assert Unshifted(s, x)[1..] == s;
  }

  /** Pushing the last element back after a pop rebuilds a non-empty sequence. */
  lemma PushAfterPop<T>(s: seq<T>)
    requires s != []
    ensures Pushed(Popped(s), s[|s| - 1]) == s
  {
  }

  /** Unshifting the first element back after a shift rebuilds a non-empty sequence. */
  lemma UnshiftAfterShift<T>(s: seq<T>)
    requires s != []
    ensures Unshifted(Shifted(s), s[0]) == s
  {
  }

  /** A state cell holding a sequence. `initial` is the argument of construction and the
      cell never changes it, so `Reset` after any history of operations commits it. */
  class ArrayCell<T> {
    var value: seq<T>
    const initial: seq<T>

    /** `useArray(initialValue = [])` */
    constructor (initialValue: seq<T> := [])
      ensures value == initialValue && initial == initialValue
    {
      value := initialValue;
      initial := initialValue;
    }

    /** `setValue(next)` with a plain value. */
    method Set(next: seq<T>)
      modifies this
      ensures value == next
    {
      value := next;
    }

    method Push(item: T)
      modifies this
      ensures value == Pushed(old(value), item)
      ensures |value| == |old(value)| + 1 && value[|value| - 1] == item
    {
      value := Pushed(value, item);
    }

    method Pop()
      modifies this
      ensures value == Popped(old(value))
      ensures old(value) == [] ==> value == []
    {
      value := Popped(value);
    }

    method Shift()
      modifies this
      ensures value == Shifted(old(value))
      ensures old(value) == [] ==> value == []
    {
      value := Shifted(value);
    }

    method Unshift(item: T)
      modifies this
      ensures value == Unshifted(old(value), item)
      ensures |value| == |old(value)| + 1 && value[0] == item
    {
      value := Unshifted(value, item);
    }

    /** `setValue([])`; calling it again changes nothing. */
    method Clear()
      modifies this
      ensures value == []
    {
      value := [];
    }

    method Reset()
      modifies this
      ensures value == initial
    {
      value := initial;
    }
  }

  /** A client run: whatever happens in between, `Reset` restores the initial sequence,
      and `Pop` after `Push` leaves the cell as it was. */
  method ArrayCellScenario<T>(start: seq<T>, x: T) returns (final: seq<T>, restored: seq<T>)
    ensures final == start
    ensures restored == start
  {
    var cell := new ArrayCell(start);
    cell.Push(x);
    cell.Pop();
    PopAfterPush(start, x);
    final := cell.value;
    cell.Clear();
    cell.Clear();
    cell.Unshift(x);
    cell.Reset();
    restored := cell.value;
  }
}
