/** The object cell of src/hooks/use-object.tsx. An object is modelled by its own
    enumerable properties, a finite map from keys to values; the spread copies
    `{ ...prev, [key]: v }` and `{ ...prev, ...partial }` are map update and map union,
    and `delete` on a fresh copy is map subtraction. */
module UseObject {

  /** `{ ...prev, [key]: newValue }`. */
  function WithProperty<K, V>(prev: map<K, V>, key: K, newValue: V): (r: map<K, V>)
    ensures r.Keys == prev.Keys + {key}
    ensures r[key] == newValue
    ensures forall k :: k in prev && k != key ==> r[k] == prev[k]
  {
    prev[key := newValue]
  }

  /** A copy of `prev` with `key` deleted. */
  function WithoutProperty<K, V>(prev: map<K, V>, key: K): (r: map<K, V>)
    ensures r.Keys == prev.Keys - {key}
    ensures forall k :: k in r ==> r[k] == prev[k]
  {
    prev - {key}
  }

  /** `{ ...prev, ...partial }`: later spreads win, so the partial's keys take its values. */
  function Merged<K, V>(prev: map<K, V>, partial: map<K, V>): (r: map<K, V>)
    ensures r.Keys == prev.Keys + partial.Keys
    ensures forall k :: k in partial ==> r[k] == partial[k]
    ensures forall k :: k in prev && k !in partial ==> r[k] == prev[k]
  {
    prev + partial
  }

  /** Deleting a key that is not there gives an equal object. */
  lemma RemoveAbsent<K, V>(m: map<K, V>, key: K)
    requires key !in m
    ensures WithoutProperty(m, key) == m
  {
  }

  /** Setting a property after removing it leaves the key bound to the new value, and
      the result is the same as setting it directly. */
  lemma SetAfterRemove<K, V>(m: map<K, V>, key: K, v: V)
    ensures key in WithProperty(WithoutProperty(m, key), key, v)
    ensures WithProperty(WithoutProperty(m, key), key, v)[key] == v
    ensures WithProperty(WithoutProperty(m, key), key, v) == WithProperty(m, key, v)
  {
  }

  /** Removing a property after setting it is the same as removing it directly. */
  lemma RemoveAfterSet<K, V>(m: map<K, V>, key: K, v: V)
    ensures WithoutProperty(WithProperty(m, key, v), key) == WithoutProperty(m, key)
  {
  }

  /** Merging an empty partial changes nothing. */
  lemma MergeEmpty<K, V>(m: map<K, V>)
    ensures Merged(m, map[]) == m
  {
  }

  /** Merging the same partial twice is the same as merging it once. */
  lemma MergeIdempotent<K, V>(m: map<K, V>, partial: map<K, V>)
    ensures Merged(Merged(m, partial), partial) == Merged(m, partial)
  {
  }

  /** Merging a single-key partial is setting that property. */
  lemma MergeSingleton<K, V>(m: map<K, V>, key: K, v: V)
    ensures Merged(m, map[key := v]) == WithProperty(m, key, v)
  {
  }

  /** A state cell holding an object. There is no default initial object. */
  class ObjectCell<K(==), V> {
    var value: map<K, V>
    const initial: map<K, V>

    /** `useObject(initialValue)` */
    constructor (initialValue: map<K, V>)
      ensures value == initialValue && initial == initialValue
    {
      value := initialValue;
      initial := initialValue;
    }

    /** `setValue(next)` with a plain value. */
    method Set(next: map<K, V>)
      modifies this
      ensures value == next
    {
      value := next;
    }

    method SetProperty(key: K, newValue: V)
      modifies this
      ensures value == WithProperty(old(value), key, newValue)
    {
      value := WithProperty(value, key, newValue);
    }

    method RemoveProperty(key: K)
      modifies this
      ensures value == WithoutProperty(old(value), key)
      ensures key !in old(value) ==> value == old(value)
    {
      value := WithoutProperty(value, key);
    }

    /** `setValue({})`: every key goes, including those of the initial object. */
    method Clear()
      modifies this
      ensures value == map[]
    {
      value := map[];
    }

    method Reset()
      modifies this
      ensures value == initial
    {
      value := initial;
    }

    method Merge(partial: map<K, V>)
      modifies this
      ensures value == Merged(old(value), partial)
    {
      value := Merged(value, partial);
    }
  }

  /** A client run: set after remove binds the key, merging `{a: 1}` keeps every other
      key, `clear` empties the object and `reset` restores the initial one. */
  method ObjectCellScenario(start: map<string, int>, v: int) returns (afterSet: map<string, int>, afterMerge: map<string, int>, cleared: map<string, int>, restored: map<string, int>)
    ensures "k" in afterSet && afterSet["k"] == v
    ensures "a" in afterMerge && afterMerge["a"] == 1
    ensures forall k :: k in afterSet && k != "a" ==> k in afterMerge && afterMerge[k] == afterSet[k]
    ensures cleared == map[]
    ensures restored == start
  {
    var cell := new ObjectCell(start);
    cell.RemoveProperty("k");
    cell.SetProperty("k", v);
    afterSet := cell.value;
    cell.Merge(map["a" := 1]);
    afterMerge := cell.value;
    cell.Clear();
    cleared := cell.value;
    cell.Reset();
    restored := cell.value;
  }
}
