/** The doubly linked list over a fixed array (fixed_array_list.c, fixed_stack.c). */
module FixedArrayLists {

  const NONE: int := -1

  /** One slot of the array; `prev` leads to the older neighbour. */
  datatype Entry<V> = Entry(prev: int, next: int, value: V)

  predicate Distinct(s: seq<nat>) {
    forall i, j | 0 <= i < j < |s| :: s[i] != s[j]
  }

  predicate Below(s: seq<nat>, n: nat) {
    forall i | 0 <= i < |s| :: s[i] < n
  }

  function Older(order: seq<nat>, k: nat): int
    requires k < |order|
  {
    if k == 0 then NONE else order[k - 1]
  }

  function Newer(order: seq<nat>, k: nat): int
    requires k < |order|
  {
    if k == |order| - 1 then NONE else order[k + 1]
  }

  predicate LinkedAt<V>(entries: seq<Entry<V>>, order: seq<nat>, k: nat)
    requires k < |order| && order[k] < |entries|
  {
    entries[order[k]].prev == Older(order, k) && entries[order[k]].next == Newer(order, k)
  }

  /** The links of the slots in use say the order, oldest first. */
  predicate Linked<V>(entries: seq<Entry<V>>, order: seq<nat>)
    requires Below(order, |entries|)
  {
    forall k | 0 <= k < |order| :: LinkedAt(entries, order, k)
  }

  /** Slots in use and free slots partition the array. */
  predicate Partition(order: seq<nat>, free: seq<nat>, n: nat) {
    && |order| + |free| == n && Distinct(order) && Distinct(free) && Below(order, n) && Below(free, n)
    && forall i | 0 <= i < n :: i in order <==> i !in free
  }

  function Without<T>(s: seq<T>, k: nat): (r: seq<T>)
    requires k < |s|
    ensures |r| == |s| - 1
  {
    s[..k] + s[k + 1..]
  }

  function Values<V>(entries: seq<Entry<V>>, order: seq<nat>): (r: seq<V>)
    requires Below(order, |entries|)
    ensures |r| == |order|
  {
    seq(|order|, k requires 0 <= k < |order| => entries[order[k]].value)
  }

  lemma PartitionPush(order: seq<nat>, free: seq<nat>, n: nat)
    requires Partition(order, free, n) && free != []
    ensures var i := free[|free| - 1]; i !in order && Partition(order + [i], free[..|free| - 1], n)
  {
    var i, rest := free[|free| - 1], free[..|free| - 1];
    assert free == rest + [i];
    assert i in free && i !in rest;
  }

  lemma PartitionRemove(order: seq<nat>, free: seq<nat>, n: nat, k: nat)
    requires Partition(order, free, n) && k < |order|
    ensures order[k] !in free && Partition(Without(order, k), free + [order[k]], n)
  {
    var i, rest := order[k], Without(order, k);
    assert order == order[..k] + [i] + order[k + 1..];
    assert i in order && i !in rest;
    forall j | 0 <= j < n ensures j in rest <==> j !in free + [i] {
      assert j in order <==> j in rest || j == i;
    }
  }

  /** The entries after a new newest slot is linked in. */
  function LinkNewest<V>(entries: seq<Entry<V>>, order: seq<nat>, i: nat, v: V): (r: seq<Entry<V>>)
    requires Below(order, |entries|) && i < |entries|
    ensures |r| == |entries|
  {
    var e := entries[i := Entry(if order == [] then NONE else order[|order| - 1], NONE, v)];
    if order == [] then e else e[order[|order| - 1] := e[order[|order| - 1]].(next := i)]
  }

  lemma LinkNewestLinked<V>(entries: seq<Entry<V>>, order: seq<nat>, i: nat, v: V)
    requires Below(order, |entries|) && Linked(entries, order) && Distinct(order) && i < |entries| && i !in order
    ensures var r := LinkNewest(entries, order, i, v);
            Below(order + [i], |r|) && Linked(r, order + [i]) && Values(r, order + [i]) == Values(entries, order) + [v]
  {
    var r, order' := LinkNewest(entries, order, i, v), order + [i];
    forall k | 0 <= k < |order'|
      ensures LinkedAt(r, order', k) && r[order'[k]].value == if k < |order| then entries[order[k]].value else v
    {
      if k < |order| {
        assert LinkedAt(entries, order, k) && order[k] != i;
      }
    }
  }

  /** The entries after the slot at position `k` is taken out; its own links stay as they are. */
  function Unlink<V>(entries: seq<Entry<V>>, order: seq<nat>, k: nat): (r: seq<Entry<V>>)
    requires Below(order, |entries|) && k < |order|
    ensures |r| == |entries|
  {
    var e := if k == 0 then entries else entries[order[k - 1] := entries[order[k - 1]].(next := Newer(order, k))];
    if k == |order| - 1 then e else e[order[k + 1] := e[order[k + 1]].(prev := Older(order, k))]
  }

  lemma UnlinkAt<V>(entries: seq<Entry<V>>, order: seq<nat>, k: nat, j: nat)
    requires Below(order, |entries|) && Linked(entries, order) && Distinct(order) && k < |order| && j < |order|
             && j != k
    ensures var r, i := Unlink(entries, order, k), order[j];
            && r[i].value == entries[i].value
            && r[i].prev == (if j == k + 1 then Older(order, k) else Older(order, j))
            && r[i].next == (if j + 1 == k then Newer(order, k) else Newer(order, j))
  {
    assert LinkedAt(entries, order, j);
  }

  lemma UnlinkLinked<V>(entries: seq<Entry<V>>, order: seq<nat>, k: nat)
    requires Below(order, |entries|) && Linked(entries, order) && Distinct(order) && k < |order|
    ensures var r, rest := Unlink(entries, order, k), Without(order, k);
            Below(rest, |r|) && Linked(r, rest) && Values(r, rest) == Without(Values(entries, order), k)
    ensures Unlink(entries, order, k)[order[k]] == entries[order[k]]
  {
    var r, rest := Unlink(entries, order, k), Without(order, k);
    assert r[order[k]] == entries[order[k]];
    hide Unlink, Linked, Distinct, Values;
    forall j | 0 <= j < |rest| ensures LinkedAt(r, rest, j) && r[rest[j]].value == entries[rest[j]].value {
      UnlinkAt(entries, order, k, if j < k then j else j + 1);
    }
    assert Linked(r, rest) by {
      AllLinked(r, rest);
    }
    ValuesWithout(entries, r, order, k);
  }

  lemma ValuesWithout<V>(entries: seq<Entry<V>>, r: seq<Entry<V>>, order: seq<nat>, k: nat)
    requires Below(order, |entries|) && |r| == |entries| && k < |order|
    requires forall j | 0 <= j < |order| - 1 :: r[Without(order, k)[j]].value == entries[Without(order, k)[j]].value
    ensures Values(r, Without(order, k)) == Without(Values(entries, order), k)
  {
  }

  lemma AllLinked<V>(entries: seq<Entry<V>>, order: seq<nat>)
    requires Below(order, |entries|) && forall k | 0 <= k < |order| :: LinkedAt(entries, order, k)
    ensures Linked(entries, order)
  {
  }

  // ---------------------------------------------------------------- the object

  class FixedArrayList<V(0)> {
    const entries: array<Entry<V>>
    // a stack of the slots not in use
    const freeSlots: array<nat>
    var freeCount: nat
    var head: int
    var tail: int
    // the slots in use, oldest first
    ghost var order: seq<nat>

    ghost function Repr(): set<object> {
      {this, entries, freeSlots}
    }

    ghost predicate Valid()
      reads Repr()
    {
      && freeSlots.Length == entries.Length && freeCount <= freeSlots.Length
      && Partition(order, freeSlots[..freeCount], entries.Length)
      && Linked(entries[..], order)
      && tail == (if order == [] then NONE else order[0])
      && head == (if order == [] then NONE else order[|order| - 1])
    }

    /** The values in the list, oldest first. */
    ghost function Contents(): (r: seq<V>)
      requires Valid()
      reads Repr()
      ensures |r| == |order|
    {
      Values(entries[..], order)
    }

    constructor (length: nat)
      ensures Valid() && fresh(Repr()) && order == [] && entries.Length == length
    {
      entries := new Entry<V>[length];
      freeSlots := new nat[length];
      freeCount, head, tail, order := 0, NONE, NONE, [];
      new;
      Reset();
    }

    method Reset()
      requires freeSlots.Length == entries.Length
      modifies this, freeSlots
      ensures Valid() && order == []
    {
      head, tail, freeCount, order := NONE, NONE, 0, [];
      var i: int := freeSlots.Length - 1;
      while i >= 0
        invariant -1 <= i < freeSlots.Length && freeCount == freeSlots.Length - 1 - i
        invariant forall k | 0 <= k < freeCount :: freeSlots[k] == freeSlots.Length - 1 - k
        invariant head == tail == NONE && order == []
      {
        freeSlots[freeCount] := i;
        freeCount := freeCount + 1;
        i := i - 1;
      }
      var free := freeSlots[..freeCount];
      forall j | 0 <= j < entries.Length ensures j in free {
        assert free[entries.Length - 1 - j] == j;
      }
    }

    function HasFreeSpace(): (b: bool)
      requires Valid()
      reads Repr()
      ensures b <==> |order| < entries.Length
    {
      freeCount > 0
    }

    function IsEmpty(): (b: bool)
      requires Valid()
      reads Repr()
      ensures b <==> order == []
    {
      freeCount == freeSlots.Length
    }

    method PushHead(v: V) returns (i: nat)
      requires Valid() && HasFreeSpace()
      modifies Repr()
      ensures Valid() && old(freeCount) > 0 && i == old(freeSlots[freeCount - 1]) && freeCount == old(freeCount) - 1
      ensures i !in old(order) && order == old(order) + [i] && Contents() == old(Contents()) + [v]
      ensures forall j | 0 <= j < freeSlots.Length :: freeSlots[j] == old(freeSlots[j])
    {
      hide Partition, Linked, Values, Distinct;
      PartitionFacts();
      ghost var before, was := entries[..], order;
      PartitionPush(order, freeSlots[..freeCount], entries.Length);
      freeCount := freeCount - 1;
      i := freeSlots[freeCount];
      LinkNewestLinked(before, was, i, v);
      entries[i] := Entry(head, NONE, v);
      if head != NONE {
        entries[head] := entries[head].(next := i);
      } else {
        tail := i;
      }
      head := i;
      order := order + [i];
      assert entries[..] == LinkNewest(before, was, i, v);
      assert freeSlots[..freeCount] == old(freeSlots[..freeCount])[..freeCount];
    }

    lemma PartitionFacts()
      requires Valid()
      ensures Below(order, entries.Length) && Distinct(order) && Below(freeSlots[..freeCount], entries.Length)
      ensures |order| + freeCount == entries.Length
    {
    }

    /** The position of a slot in the order. */
    ghost function Position(i: nat): (k: nat)
      requires i in order
      reads this
      ensures k < |order| && order[k] == i
    {
      var k :| 0 <= k < |order| && order[k] == i;
      k
    }

    method RemoveEntry(i: nat)
      requires Valid() && i in order
      modifies Repr()
      ensures Valid() && order == Without(old(order), old(Position(i)))
              && Contents() == Without(old(Contents()), old(Position(i)))
      ensures freeCount == old(freeCount) + 1 <= freeSlots.Length && freeSlots[freeCount - 1] == i
      ensures forall j | 0 <= j < old(freeCount) :: freeSlots[j] == old(freeSlots[j])
      ensures entries[..][i] == old(entries[..][i])
    {
      hide Partition, Linked, Values, Distinct;
      PartitionFacts();
      ghost var before, was, k := entries[..], order, Position(i);
      PartitionRemove(was, freeSlots[..freeCount], entries.Length, k);
      UnlinkLinked(before, was, k);
      LinkedHere(before, was, k);
      freeSlots[freeCount] := i;
      freeCount := freeCount + 1;
      var e := entries[i];
      if e.prev != NONE {
        entries[e.prev] := entries[e.prev].(next := e.next);
      }
      if e.next != NONE {
        entries[e.next] := entries[e.next].(prev := e.prev);
      }
      if i == head {
        head := e.prev;
      }
      if i == tail {
        tail := e.next;
      }
      order := Without(order, k);
      assert entries[..] == Unlink(before, was, k);
      assert freeSlots[..freeCount] == old(freeSlots[..freeCount]) + [i];
    }

    /** Take the oldest value out. */
    method PopTail() returns (v: V)
      requires Valid() && !IsEmpty()
      modifies Repr()
      ensures Valid() && old(order) != [] && order == old(order)[1..] && old(Contents()) == [v] + Contents()
    {
      hide Partition, Linked, Values;
      PartitionFacts();
      var oldest := tail;
      ghost var k := Position(oldest);
      assert k == 0;
      RemoveEntry(oldest);
      v := entries[oldest].value;
      OldestValue(old(entries[..]), old(order));
    }
  }

  lemma OldestValue<V>(entries: seq<Entry<V>>, order: seq<nat>)
    requires Below(order, |entries|) && order != []
    ensures Values(entries, order)[0] == entries[order[0]].value && Without(order, 0) == order[1..]
    ensures Values(entries, order) == [entries[order[0]].value] + Without(Values(entries, order), 0)
  {
  }

  lemma LinkedHere<V>(entries: seq<Entry<V>>, order: seq<nat>, k: nat)
    requires Below(order, |entries|) && Linked(entries, order) && Distinct(order) && k < |order|
    ensures LinkedAt(entries, order, k)
    ensures forall j | 0 <= j < |order| && j != k :: order[j] != order[k]
  {
  }
}
