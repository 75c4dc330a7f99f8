/** The abstract view of the growable string array: its live elements as a
    sequence, the operations on that sequence, the growth policy, and the
    properties the array methods are proved against. */
module ArraySpec {

  datatype Option<T> = None | Some(value: T)

  /** The failures the array reports instead of acting. */
  datatype Error = IndexOutOfRange(index: nat) | ElementNotFound

  /** The result of an operation that either acts or reports an error. */
  datatype Outcome = Pass | Fail(error: Error)

  /** The live elements with `v` stored at position `i` and the old tail
      `s[i..]` moved one place to the right. */
  function InsertedAt(s: seq<string>, v: string, i: nat): (r: seq<string>)
    requires i <= |s|
    ensures |r| == |s| + 1
    ensures r[i] == v
    ensures forall k :: 0 <= k < i ==> r[k] == s[k]
    ensures forall k :: i < k < |r| ==> r[k] == s[k - 1]
  {
    s[..i] + [v] + s[i..]
  }

  /** Insert with the guard that accepts every position up to and including
      the end: `None` means the index was out of range. */
  function CheckedInsert(s: seq<string>, v: string, i: nat): Option<seq<string>>
  {
    if i <= |s| then Some(InsertedAt(s, v, i)) else None
  }

  /** Insert with the guard as the source writes it: the end position is
      rejected together with everything beyond it. */
  function CheckedInsertAsWritten(s: seq<string>, v: string, i: nat): Option<seq<string>>
  {
    if i >= |s| then None else Some(InsertedAt(s, v, i))
  }

  /** The position of the first element equal to `v`, if there is one. */
  function FirstIndex(s: seq<string>, v: string): (r: Option<nat>)
    ensures r.None? <==> v !in s
    ensures r.Some? ==> r.value < |s| && s[r.value] == v
    ensures r.Some? ==> forall j :: 0 <= j < r.value ==> s[j] != v
  {
    if s == [] then None
    else if s[0] == v then Some(0)
    else match FirstIndex(s[1..], v)
      case None => None
      case Some(j) => Some(j + 1)
  }

  /** The live elements after removing the first occurrence of `v`; unchanged
      when `v` does not occur. */
  function RemovedFirst(s: seq<string>, v: string): (r: seq<string>)
    ensures v !in s ==> r == s
    ensures v in s ==> |r| == |s| - 1
    ensures multiset(r) == multiset(s) - multiset{v}
  {
    match FirstIndex(s, v)
    case None => s
    case Some(i) =>
      assert s == s[..i] + [s[i]] + s[i + 1..];
      s[..i] + s[i + 1..]
  }

  /** The capacity after one insertion or append: doubled exactly when the
      buffer is full. */
  function GrownCapacity(capacity: nat, count: nat): nat
  {
    if count >= capacity then 2 * capacity else capacity
  }

  /** The capacity of an array created with capacity `c` after `n` appends. */
  function CapacityAfterAppends(c: nat, n: nat): nat
  {
    if n == 0 then c else GrownCapacity(CapacityAfterAppends(c, n - 1), n - 1)
  }

  /** The number of buffer slots `malloc(2 * sizeof(arr))` provides when
      resizing an array of the given capacity, given the size in bytes of a
      pointer (a slot holds one pointer, as `arr` is one): the capacity plays
      no part. */
  function SlotsAllocatedAsWritten(capacity: nat, pointerBytes: nat): nat
    requires pointerBytes > 0
  {
    (2 * pointerBytes) / pointerBytes
  }

  /** Removing the first occurrence keeps everything before it in place and
      moves everything after it one place to the left. */
  lemma RemovedFirstShifts(s: seq<string>, v: string, i: nat)
    requires FirstIndex(s, v) == Some(i)
    ensures |RemovedFirst(s, v)| == |s| - 1
    ensures forall k :: 0 <= k < i ==> RemovedFirst(s, v)[k] == s[k]
    ensures forall k :: i <= k < |s| - 1 ==> RemovedFirst(s, v)[k] == s[k + 1]
  {
  }

  /** Inserting adds exactly one copy of the value and loses nothing. */
  lemma InsertedAtMultiset(s: seq<string>, v: string, i: nat)
    requires i <= |s|
    ensures multiset(InsertedAt(s, v, i)) == multiset(s) + multiset{v}
  {
    assert s == s[..i] + s[i..];
  }

  /** Removing a value undoes inserting it, provided the value does not occur
      before the insertion position. */
  lemma RemoveUndoesInsert(s: seq<string>, v: string, i: nat)
    requires i <= |s|
    requires v !in s[..i]
    ensures RemovedFirst(InsertedAt(s, v, i), v) == s
  {
    var t := InsertedAt(s, v, i);
    assert forall j :: 0 <= j < i ==> t[j] == s[..i][j];
    assert FirstIndex(t, v) == Some(i);
    assert t[..i] == s[..i];
    assert t[i + 1..] == s[i..];
    assert s == s[..i] + s[i..];
  }

  /** Inserting at the end position is appending. */
  lemma InsertAtEndIsAppend(s: seq<string>, v: string)
    ensures CheckedInsert(s, v, |s|) == Some(s + [v])
  {
    assert s[..|s|] == s && s[|s|..] == [];
    assert InsertedAt(s, v, |s|) == s + [v];
  }

  /** As written, the end position is never accepted, so inserting can never
      append, whatever the contents. */
  lemma AsWrittenInsertNeverAppends(s: seq<string>, v: string)
    ensures CheckedInsertAsWritten(s, v, |s|) == None
    ensures CheckedInsert(s, v, |s|) != CheckedInsertAsWritten(s, v, |s|)
  {
  }

  /** The first call of the demo driver, inserting at 0 into an empty array,
      is rejected as written and accepted with the corrected guard. */
  lemma AsWrittenRejectsFirstInsert()
    ensures CheckedInsertAsWritten([], "STRING1", 0) == None
    ensures CheckedInsert([], "STRING1", 0) == Some(["STRING1"])
  {
    InsertAtEndIsAppend([], "STRING1");
    assert [] + ["STRING1"] == ["STRING1"];
  }

  /** As written, resizing a full array of any capacity of 2 or more
      provides fewer slots than the doubled capacity it records, whatever the
      pointer size, so later writes go past the end of the buffer. */
  lemma AsWrittenResizeTooSmall(c: nat, p: nat)
    requires c >= 2 && p > 0
    ensures SlotsAllocatedAsWritten(c, p) == 2
    ensures SlotsAllocatedAsWritten(c, p) < GrownCapacity(c, c)
  {
    assert 2 * p == p * 2;
  }

  /** The doubling policy keeps room for every appended element and never
      more than doubles what is needed: after `n` appends the capacity is at
      least `n`, and is either still the initial one or at most `2 * (n - 1)`. */
  lemma {:induction false} CapacityAfterAppendsBounds(c: nat, n: nat)
    requires c > 0
    ensures n <= CapacityAfterAppends(c, n)
    ensures CapacityAfterAppends(c, n) == c || CapacityAfterAppends(c, n) <= 2 * (n - 1)
    ensures c <= CapacityAfterAppends(c, n)
  {
    if n > 0 {
      CapacityAfterAppendsBounds(c, n - 1);
    }
  }
}
