/** The growable array of owned strings: a buffer of `capacity` slots whose
    first `count` slots hold the live elements in order. */
module Arrays {
  import opened ArraySpec

  class Array {
    var capacity: nat
    var count: nat
    var elements: array<string>

    /** 0 <= count <= capacity, the buffer has exactly `capacity` slots, and
        the capacity is positive so that doubling makes room. */
    ghost predicate Valid()
      reads this
    {
      0 < capacity && elements.Length == capacity && count <= capacity
    }

    /** The live elements, in order. */
    ghost function Contents(): seq<string>
      reads this, elements
      requires Valid()
    {
      elements[..count]
    }

    /** A new, empty array with room for `capacity` elements. */
    constructor (capacity: nat)
      requires capacity > 0
      ensures Valid() && fresh(elements)
      ensures this.capacity == capacity && count == 0 && Contents() == []
    {
      this.capacity := capacity;
      count := 0;
      elements := new string[capacity];
    }

    /** Moves the live elements into a fresh buffer of twice the capacity. */
    method Resize()
      requires Valid()
      modifies this
      ensures Valid() && fresh(elements)
      ensures capacity == 2 * old(capacity) && count == old(count)
      ensures Contents() == old(Contents())
    {
      var grown := new string[2 * capacity];
      var i := 0;
      while i < count
        modifies grown
        invariant 0 <= i <= count
        invariant grown[..i] == elements[..i]
      {
        grown[i] := elements[i];
        i := i + 1;
      }
      capacity := 2 * capacity;
      elements := grown;
    }

    /** The element at `index`, or `None` when the index is not below the
        count. */
    method Read(index: nat) returns (r: Option<string>)
      requires Valid()
      ensures index < count ==> r == Some(Contents()[index])
      ensures index >= count ==> r == None
    {
      if index >= count {
        r := None;
      } else {
        r := Some(elements[index]);
      }
    }

    /** Stores `value` at `index`, moving the elements from `index` on one
        place to the right and growing first when the buffer is full. Every
        index up to and including `count` is accepted. */
    method Insert(value: string, index: nat) returns (outcome: Outcome)
      requires Valid()
      modifies this, elements
      ensures Valid()
      ensures outcome == if index <= old(count) then Pass else Fail(IndexOutOfRange(index))
      ensures outcome.Pass? ==> Contents() == InsertedAt(old(Contents()), value, index)
      ensures outcome.Pass? ==> count == old(count) + 1
      ensures outcome.Pass? ==> capacity == GrownCapacity(old(capacity), old(count))
      ensures outcome.Pass? && old(count) < old(capacity) ==> elements == old(elements)
      ensures outcome.Pass? && old(count) >= old(capacity) ==> fresh(elements)
      ensures outcome.Fail? ==> unchanged(this) && unchanged(elements)
    {
      if index > count {
        return Fail(IndexOutOfRange(index));
      }
      if count >= capacity {
        Resize();
      }
      ghost var s := Contents();
      ShiftRight(elements, index, count);
      elements[index] := value;
      count := count + 1;
      assert Contents() == InsertedAt(s, value, index);
      outcome := Pass;
    }

    /** Stores `value` after the last live element, growing first when the
        buffer is full. */
    method Append(value: string)
      requires Valid()
      modifies this, elements
      ensures Valid()
      ensures Contents() == old(Contents()) + [value]
      ensures count == old(count) + 1
      ensures capacity == GrownCapacity(old(capacity), old(count))
      ensures old(count) < old(capacity) ==> elements == old(elements)
      ensures old(count) >= old(capacity) ==> fresh(elements)
    {
      if count >= capacity {
        Resize();
      }
      elements[count] := value;
      count := count + 1;
    }

    /** The position of the first live element equal to `value`, if any. */
    method IndexOf(value: string) returns (found: Option<nat>)
      requires Valid()
      ensures found.None? <==> value !in Contents()
      ensures found.Some? ==> found.value < count && elements[found.value] == value
      ensures found.Some? ==> forall j :: 0 <= j < found.value ==> elements[j] != value
      ensures found == FirstIndex(Contents(), value)
    {
      var i := 0;
      while i < count
        invariant 0 <= i <= count
        invariant forall j :: 0 <= j < i ==> elements[j] != value
      {
        if elements[i] == value {
          return Some(i);
        }
        i := i + 1;
      }
      return None;
    }

    /** Removes the first live element equal to `value`, moving the later
        elements one place to the left; reports `ElementNotFound` and changes
        nothing when no live element equals `value`. */
    method Remove(value: string) returns (outcome: Outcome)
      requires Valid()
      modifies this`count, elements
      ensures Valid() && elements == old(elements) && capacity == old(capacity)
      ensures outcome == if value in old(Contents()) then Pass else Fail(ElementNotFound)
      ensures outcome.Pass? ==> Contents() == RemovedFirst(old(Contents()), value)
      ensures outcome.Pass? ==> count == old(count) - 1
      ensures outcome.Fail? ==> unchanged(this) && unchanged(elements)
    {
      var found := IndexOf(value);
      if found.None? {
        return Fail(ElementNotFound);
      }
      var at := found.value;
      ghost var s := Contents();
      ghost var r := RemovedFirst(s, value);
      RemovedFirstShifts(s, value, at);
      ShiftLeft(elements, at, count);
      count := count - 1;
      assert Contents() == r;
      outcome := Pass;
    }
  }

  /** Moves `a[lo..hi)` one place right to `a[lo + 1..hi + 1)`, from the top
      down so that no element is overwritten before it has moved; `a[lo]`
      keeps its old value and nothing else changes. */
  method ShiftRight(a: array<string>, lo: nat, hi: nat)
    requires lo <= hi < a.Length
    modifies a
    ensures forall k :: 0 <= k <= lo ==> a[k] == old(a[k])
    ensures forall k :: lo < k <= hi ==> a[k] == old(a[k - 1])
    ensures forall k :: hi < k < a.Length ==> a[k] == old(a[k])
  {
    var i := hi;
    while i > lo
      invariant lo <= i <= hi
      invariant forall k :: 0 <= k <= i ==> a[k] == old(a[k])
      invariant forall k :: i < k <= hi ==> a[k] == old(a[k - 1])
      invariant forall k :: hi < k < a.Length ==> a[k] == old(a[k])
    {
      a[i] := a[i - 1];
      i := i - 1;
    }
  }

  /** Moves `a[lo + 1..hi)` one place left to `a[lo..hi - 1)`, overwriting
      `a[lo]`; `a[hi - 1]` keeps its old value and nothing else changes. */
  method ShiftLeft(a: array<string>, lo: nat, hi: nat)
    requires lo < hi <= a.Length
    modifies a
    ensures forall k :: 0 <= k < lo ==> a[k] == old(a[k])
    ensures forall k :: lo <= k < hi - 1 ==> a[k] == old(a[k + 1])
    ensures forall k :: hi - 1 <= k < a.Length ==> a[k] == old(a[k])
  {
    var i := lo;
    while i < hi - 1
      invariant lo <= i <= hi - 1
      invariant forall k :: 0 <= k < lo ==> a[k] == old(a[k])
      invariant forall k :: lo <= k < i ==> a[k] == old(a[k + 1])
      invariant forall k :: i <= k < a.Length ==> a[k] == old(a[k])
    {
      a[i] := a[i + 1];
      i := i + 1;
    }
  }

  /** The sequence steps of the demo driver, worked out on values. */
  lemma DemoSteps()
    ensures InsertedAt([], "STRING1", 0) == ["STRING1"]
    ensures InsertedAt(["STRING1"] + ["STRING4"], "STRING2", 0) == ["STRING2", "STRING1", "STRING4"]
    ensures InsertedAt(["STRING2", "STRING1", "STRING4"], "STRING3", 1)
         == ["STRING2", "STRING3", "STRING1", "STRING4"]
    ensures RemovedFirst(["STRING2", "STRING3", "STRING1", "STRING4"], "STRING3")
         == ["STRING2", "STRING1", "STRING4"]
  {
    assert FirstIndex(["STRING2", "STRING3", "STRING1", "STRING4"], "STRING3") == Some(1);
  }

  /** The calls of the demo driver, replayed against the contracts: the
      contents printed before and after removing "STRING3". */
  method DemoRun() returns (before: seq<string>, after: seq<string>)
    ensures before == ["STRING2", "STRING3", "STRING1", "STRING4"]
    ensures after == ["STRING2", "STRING1", "STRING4"]
  {
    DemoSteps();
    var arr := new Array(1);
    var o := arr.Insert("STRING1", 0);
    arr.Append("STRING4");
    o := arr.Insert("STRING2", 0);
    o := arr.Insert("STRING3", 1);
    before := arr.elements[..arr.count];
    o := arr.Remove("STRING3");
    after := arr.elements[..arr.count];
  }
}
