/** The queue with a fresh and a mature part (lru_queue.c, lm_queue.c). */
module LmQueues {
  import opened FixedArrayLists

  /** What the queue holds: a pointer, here a number. */
  type Value = nat

  // ---------------------------------------------------------------- the queue as a value

  /** Both parts, oldest first; each value is in at most one place. */
  datatype Lm = Lm(freshPart: seq<Value>, maturePart: seq<Value>, freshSize: nat, matureSize: nat) {
    predicate Overflowing() {
      |maturePart| >= matureSize || |freshPart| >= freshSize
    }

    predicate Has(v: Value) {
      v in freshPart || v in maturePart
    }

    predicate Valid() {
      && Distinct(freshPart) && Distinct(maturePart) && (forall v | v in freshPart :: v !in maturePart)
      && |freshPart| <= freshSize && |maturePart| <= matureSize
    }
  }

  function IndexOf(s: seq<Value>, v: Value): (k: nat)
    requires v in s
    ensures k < |s| && s[k] == v
  {
    if s[0] == v then 0 else 1 + IndexOf(s[1..], v)
  }

  function Removed(s: seq<Value>, v: Value): seq<Value>
    requires v in s
  {
    Without(s, IndexOf(s, v))
  }

  datatype Action = Push(v: Value) | Bump(v: Value) | Pop

  /** What the source asserts of its callers; a value pushed is a new one. */
  predicate Allowed(q: Lm, a: Action) {
    match a
    case Push(v) => !q.Overflowing() && !q.Has(v)
    case Bump(v) => !q.Overflowing() && q.Has(v)
    case Pop => q.Overflowing() && (q.freshPart != [] || q.maturePart != [])
                && (|q.maturePart| >= q.matureSize ==> q.maturePart != [])
                && (|q.maturePart| < q.matureSize ==> q.freshPart != [])
  }

  function Evicted(q: Lm): Value
    requires Allowed(q, Pop)
  {
    if |q.maturePart| >= q.matureSize then q.maturePart[0] else q.freshPart[0]
  }

  function Apply(q: Lm, a: Action): Lm
    requires Allowed(q, a)
  {
    match a
    case Push(v) => q.(freshPart := q.freshPart + [v])
    case Bump(v) =>
      if v in q.freshPart then q.(freshPart := Removed(q.freshPart, v), maturePart := q.maturePart + [v])
      else q.(maturePart := Removed(q.maturePart, v) + [v])
    case Pop =>
      if |q.maturePart| >= q.matureSize then q.(maturePart := q.maturePart[1..]) else q.(freshPart := q.freshPart[1..])
  }

  lemma RemovedFacts(s: seq<Value>, v: Value)
    requires Distinct(s) && v in s
    ensures var r := Removed(s, v);
            Distinct(r) && v !in r && |r| == |s| - 1 && multiset(s) == multiset(r) + multiset{v}
              && forall w | w in r :: w in s
  {
    var k, r := IndexOf(s, v), Removed(s, v);
    assert s == s[..k] + [v] + s[k + 1..];
    forall w | w in r ensures w in s && w != v {
      var i :| 0 <= i < |r| && r[i] == w;
      assert w == s[if i < k then i else i + 1];
    }
  }

  function All(q: Lm): multiset<Value> {
    multiset(q.freshPart) + multiset(q.maturePart)
  }

  lemma DistinctMore(s: seq<Value>, v: Value)
    requires Distinct(s) && v !in s
    ensures Distinct(s + [v])
  {
  }

  lemma DistinctRest(s: seq<Value>)
    requires Distinct(s) && s != []
    ensures Distinct(s[1..]) && multiset(s) == multiset{s[0]} + multiset(s[1..])
  {
    assert s == [s[0]] + s[1..];
  }

  lemma BumpKeeps(q: Lm, v: Value)
    requires q.Valid() && Allowed(q, Bump(v))
    ensures Apply(q, Bump(v)).Valid() && All(Apply(q, Bump(v))) == All(q)
  {
    hide Distinct, Removed;
    if v in q.freshPart {
      RemovedFacts(q.freshPart, v);
      DistinctMore(q.maturePart, v);
    } else {
      RemovedFacts(q.maturePart, v);
      DistinctMore(Removed(q.maturePart, v), v);
    }
  }

  /** Every action keeps the values distinct and in bounds, and neither loses nor duplicates one. */
  lemma ApplyKeeps(q: Lm, a: Action)
    requires q.Valid() && Allowed(q, a)
    ensures Apply(q, a).Valid()
    ensures match a
            case Push(v) => All(Apply(q, a)) == All(q) + multiset{v}
            case Bump(_) => All(Apply(q, a)) == All(q)
            case Pop => All(q) == All(Apply(q, a)) + multiset{Evicted(q)}
  {
    hide Distinct, Removed;
    match a {
      case Push(v) => DistinctMore(q.freshPart, v);
      case Bump(v) => BumpKeeps(q, v);
      case Pop =>
        if |q.maturePart| >= q.matureSize {
          DistinctRest(q.maturePart);
        } else {
          DistinctRest(q.freshPart);
        }
    }
  }

  // ---------------------------------------------------------------- runs

  /** Whether every action is allowed when its turn comes. */
  predicate RunAllowed(q: Lm, actions: seq<Action>)
    decreases |actions|, 0
  {
    actions != [] ==> RunAllowed(q, Most(actions)) && Allowed(Run(q, Most(actions)), Final(actions))
  }

  function Run(q: Lm, actions: seq<Action>): Lm
    requires RunAllowed(q, actions)
    decreases |actions|, 1
  {
    if actions == [] then q else Apply(Run(q, Most(actions)), Final(actions))
  }

  function Most<T>(s: seq<T>): seq<T>
    requires s != []
  {
    s[..|s| - 1]
  }

  function Final<T>(s: seq<T>): T
    requires s != []
  {
    s[|s| - 1]
  }

  lemma {:induction false} RunValid(q: Lm, actions: seq<Action>)
    requires q.Valid() && RunAllowed(q, actions)
    ensures Run(q, actions).Valid()
    decreases |actions|
  {
    if actions != [] {
      RunValid(q, Most(actions));
      ApplyKeeps(Run(q, Most(actions)), Final(actions));
    }
  }

  /** When a value was bumped last: the number of actions up to then, or zero. */
  function LastBump(actions: seq<Action>, v: Value): nat
    decreases |actions|
  {
    if actions == [] then 0 else if Final(actions) == Bump(v) then |actions| else LastBump(Most(actions), v)
  }

  lemma {:induction false} LastBumpBefore(actions: seq<Action>, v: Value)
    ensures LastBump(actions, v) <= |actions|
    decreases |actions|
  {
    if actions != [] {
      LastBumpBefore(Most(actions), v);
    }
  }

  predicate ByLastBump(s: seq<Value>, actions: seq<Action>) {
    forall i, j | 0 <= i < j < |s| :: LastBump(actions, s[i]) < LastBump(actions, s[j])
  }

  lemma LastBumps(s: seq<Value>, actions: seq<Action>, v: Value)
    ensures forall i | 0 <= i < |s|
            && s[i] != v :: LastBump(actions + [Bump(v)], s[i]) == LastBump(actions, s[i]) <= |actions|
    ensures LastBump(actions + [Bump(v)], v) == |actions| + 1
  {
    var more := actions + [Bump(v)];
    assert Most(more) == actions;
    forall i | 0 <= i < |s| && s[i] != v ensures LastBump(more, s[i]) == LastBump(actions, s[i]) <= |actions| {
      LastBumpBefore(actions, s[i]);
    }
  }

  lemma BumpLast(s: seq<Value>, actions: seq<Action>, v: Value)
    requires ByLastBump(s, actions) && v !in s
    ensures ByLastBump(s + [v], actions + [Bump(v)])
  {
    var t, more := s + [v], actions + [Bump(v)];
    LastBumps(s, actions, v);
    hide LastBump;
    forall i, j | 0 <= i < j < |t| ensures LastBump(more, t[i]) < LastBump(more, t[j]) {
    }
  }

  lemma WithoutKeepsOrder(s: seq<Value>, actions: seq<Action>, k: nat)
    requires ByLastBump(s, actions) && k < |s|
    ensures ByLastBump(Without(s, k), actions)
  {
    hide LastBump;
  }

  lemma OtherAction(s: seq<Value>, actions: seq<Action>, a: Action)
    requires ByLastBump(s, actions) && !a.Bump?
    ensures ByLastBump(s, actions + [a])
  {
    assert Most(actions + [a]) == actions;
  }

  /** In every run from an empty queue the mature part is in the order of the last bumps. */
  lemma {:induction false} MatureByLastBump(q: Lm, actions: seq<Action>)
    requires q.Valid() && q.maturePart == [] && RunAllowed(q, actions)
    ensures ByLastBump(Run(q, actions).maturePart, actions)
    decreases |actions|
  {
    hide ByLastBump, Distinct;
    if actions == [] {
      EmptyOrder(actions);
    } else {
      var most, a := Most(actions), Final(actions);
      var before := Run(q, most);
      assert most + [a] == actions;
      RunValid(q, most);
      MatureByLastBump(q, most);
      match a {
        case Bump(v) =>
          if v in before.freshPart {
            BumpLast(before.maturePart, most, v);
          } else {
            RemovedFacts(before.maturePart, v);
            WithoutKeepsOrder(before.maturePart, most, IndexOf(before.maturePart, v));
            BumpLast(Removed(before.maturePart, v), most, v);
          }
        case Push(_) =>
          OtherAction(before.maturePart, most, a);
        case Pop =>
          OtherAction(before.maturePart, most, a);
          if |before.maturePart| >= before.matureSize {
            WithoutKeepsOrder(before.maturePart, actions, 0);
            assert Without(before.maturePart, 0) == before.maturePart[1..];
          }
      }
    }
  }

  lemma EmptyOrder(actions: seq<Action>)
    ensures ByLastBump([], actions)
  {
  }

  /** So a value evicted from the mature part was bumped before every other one there. */
  lemma EvictsLeastRecentlyBumped(q: Lm, actions: seq<Action>)
    requires q.Valid() && q.maturePart == [] && RunAllowed(q, actions + [Pop])
    ensures RunAllowed(q, actions)
    ensures var before := Run(q, actions);
            before.maturePart != [] && |before.maturePart| >= before.matureSize ==>
              forall v | v in before.maturePart[1..] :: LastBump(actions, Evicted(before)) < LastBump(actions, v)
  {
    assert Most(actions + [Pop]) == actions && Final(actions + [Pop]) == Pop;
    MatureByLastBump(q, actions);
    hide LastBump;
    var s := Run(q, actions).maturePart;
    if s != [] {
      forall v | v in s[1..] ensures LastBump(actions, s[0]) < LastBump(actions, v) {
        var i :| 0 <= i < |s[1..]| && s[1..][i] == v;
        assert s[i + 1] == v;
      }
    }
  }

  // ---------------------------------------------------------------- the fresh part

  /** When a value was pushed last: the number of actions up to then, or zero. */
  function LastPush(actions: seq<Action>, v: Value): nat
    decreases |actions|
  {
    if actions == [] then 0 else if Final(actions) == Push(v) then |actions| else LastPush(Most(actions), v)
  }

  lemma {:induction false} LastPushBefore(actions: seq<Action>, v: Value)
    ensures LastPush(actions, v) <= |actions|
    decreases |actions|
  {
    if actions != [] {
      LastPushBefore(Most(actions), v);
    }
  }

  predicate ByLastPush(s: seq<Value>, actions: seq<Action>) {
    forall i, j | 0 <= i < j < |s| :: LastPush(actions, s[i]) < LastPush(actions, s[j])
  }

  lemma PushLast(s: seq<Value>, actions: seq<Action>, v: Value)
    requires ByLastPush(s, actions) && v !in s
    ensures ByLastPush(s + [v], actions + [Action.Push(v)])
  {
    var t, more := s + [v], actions + [Action.Push(v)];
    assert Most(more) == actions;
    forall i | 0 <= i < |s| ensures LastPush(more, s[i]) == LastPush(actions, s[i]) <= |actions| {
      LastPushBefore(actions, s[i]);
    }
    assert LastPush(more, v) == |actions| + 1;
    hide LastPush;
    forall i, j | 0 <= i < j < |t| ensures LastPush(more, t[i]) < LastPush(more, t[j]) {
    }
  }

  lemma NoPush(s: seq<Value>, actions: seq<Action>, a: Action)
    requires ByLastPush(s, actions) && !a.Push?
    ensures ByLastPush(s, actions + [a])
  {
    assert Most(actions + [a]) == actions;
  }

  lemma WithoutKeepsPushes(s: seq<Value>, actions: seq<Action>, k: nat)
    requires ByLastPush(s, actions) && k < |s|
    ensures ByLastPush(Without(s, k), actions)
  {
    hide LastPush;
  }

  /** In every run from an empty queue the fresh part is in the order of the last pushes, so that the value taken from
      it is the one that has been there longest. */
  lemma {:induction false} FreshByLastPush(q: Lm, actions: seq<Action>)
    requires q.Valid() && q.freshPart == [] && RunAllowed(q, actions)
    ensures ByLastPush(Run(q, actions).freshPart, actions)
    decreases |actions|
  {
    hide ByLastPush, Distinct;
    if actions == [] {
      NothingPushed(actions);
    } else {
      var most, a := Most(actions), Final(actions);
      var before := Run(q, most);
      assert most + [a] == actions;
      RunValid(q, most);
      FreshByLastPush(q, most);
      match a {
        case Push(v) => PushLast(before.freshPart, most, v);
        case Bump(v) =>
          NoPush(before.freshPart, most, a);
          if v in before.freshPart {
            WithoutKeepsPushes(before.freshPart, actions, IndexOf(before.freshPart, v));
          }
        case Pop =>
          NoPush(before.freshPart, most, a);
          if |before.maturePart| < before.matureSize {
            WithoutKeepsPushes(before.freshPart, actions, 0);
            assert Without(before.freshPart, 0) == before.freshPart[1..];
          }
      }
    }
  }

  lemma NothingPushed(actions: seq<Action>)
    ensures ByLastPush([], actions)
  {
  }

  /** Taking a value out ends the overflow, unless both parts were full. */
  lemma PopEndsOverflow(q: Lm)
    requires q.Valid() && Allowed(q, Pop) && q.matureSize > 0 && q.freshSize > 0
    ensures Apply(q, Pop).Overflowing() <==> |q.maturePart| == q.matureSize && |q.freshPart| == q.freshSize
  {
  }

  predicate NoBumps(actions: seq<Action>) {
    forall i | 0 <= i < |actions| :: !actions[i].Bump?
  }

  /** However many new values pass through, without bumps the mature part of a queue that is not full stays as it is. */
  lemma {:induction false} FloodKeepsMature(q: Lm, actions: seq<Action>)
    requires |q.maturePart| < q.matureSize && NoBumps(actions) && RunAllowed(q, actions)
    ensures Run(q, actions).maturePart == q.maturePart && Run(q, actions).matureSize == q.matureSize
    decreases |actions|
  {
    if actions != [] {
      FloodKeepsMature(q, Most(actions));
      assert !Final(actions).Bump?;
    }
  }

  // ---------------------------------------------------------------- the objects

  class LruQueue {
    const queue: FixedArrayList<Value>

    constructor (size: nat)
      ensures queue.Valid() && fresh(queue.Repr()) && queue.order == [] && queue.entries.Length == size
    {
      queue := new FixedArrayList(size);
    }

    predicate IsOverflowing()
      requires queue.Valid()
      reads queue.Repr()
    {
      !queue.HasFreeSpace()
    }

    /** Take the least worthy value out. */
    method Pop() returns (v: Value)
      requires queue.Valid() && !queue.IsEmpty()
      modifies queue.Repr()
      ensures queue.Valid() && old(queue.Contents()) == [v] + queue.Contents() && queue.order == old(queue.order)[1..]
    {
      v := queue.PopTail();
    }

    /** A new newest entry; the value the caller stores in it is given with the call. */
    method Push(v: Value) returns (entry: nat)
      requires queue.Valid() && !IsOverflowing()
      modifies queue.Repr()
      ensures queue.Valid() && queue.order == old(queue.order) + [entry]
              && queue.Contents() == old(queue.Contents()) + [v]
    {
      entry := queue.PushHead(v);
    }

    /** Move an entry to the newest place. The handle does not change: the slot just freed is the one taken. */
    method Bump(entry: nat) returns (moved: nat)
      requires queue.Valid() && entry in queue.order
      modifies queue.Repr()
      ensures queue.Valid() && moved == entry
      ensures var k := old(queue.Position(entry));
              && queue.order == Without(old(queue.order), k) + [entry]
              && queue.Contents() == Without(old(queue.Contents()), k) + [old(queue.Contents())[k]]
    {
      var value := queue.entries[entry].value;
      queue.RemoveEntry(entry);
      moved := queue.PushHead(value);
    }
  }

  /** Entries are handles; a handle belongs to the list whose array it points into. */
  datatype Handle = FreshEntry(index: nat) | MatureEntry(index: nat)

  class LmQueue {
    const freshQueue: FixedArrayList<Value>
    const matureQueue: LruQueue

    ghost predicate Separate() {
      freshQueue.Repr() !! matureQueue.queue.Repr()
    }

    ghost predicate Valid()
      reads freshQueue.Repr(), matureQueue, matureQueue.queue.Repr()
    {
      Separate() && freshQueue.Valid() && matureQueue.queue.Valid()
    }

    ghost function View(): Lm
      requires Valid()
      reads freshQueue.Repr(), matureQueue, matureQueue.queue.Repr()
    {
      Lm(freshQueue.Contents(), matureQueue.queue.Contents(), freshQueue.entries.Length,
        matureQueue.queue.entries.Length)
    }

    constructor (freshSize: nat, matureSize: nat)
      ensures Valid() && View() == Lm([], [], freshSize, matureSize)
      ensures fresh(freshQueue.Repr()) && fresh(matureQueue) && fresh(matureQueue.queue.Repr())
    {
      freshQueue := new FixedArrayList(freshSize);
      matureQueue := new LruQueue(matureSize);
    }

    predicate IsOverflowing()
      requires Valid()
      reads freshQueue.Repr(), matureQueue, matureQueue.queue.Repr()
      ensures IsOverflowing() <==> View().Overflowing()
    {
      matureQueue.IsOverflowing() || !freshQueue.HasFreeSpace()
    }

    ghost predicate IsHandle(h: Handle, v: Value)
      requires Valid()
      reads freshQueue.Repr(), matureQueue, matureQueue.queue.Repr()
    {
      match h
      case FreshEntry(i) => i in freshQueue.order && freshQueue.entries[..][i].value == v
      case MatureEntry(i) => i in matureQueue.queue.order && matureQueue.queue.entries[..][i].value == v
    }

    method Push(v: Value) returns (h: Handle)
      requires Valid() && !IsOverflowing()
      modifies freshQueue.Repr()
      ensures Valid() && IsHandle(h, v)
      ensures View() == old(View()).(freshPart := old(View()).freshPart + [v])
      ensures !old(View()).Has(v) ==> View() == Apply(old(View()), Action.Push(v))
      ensures forall g, w | old(IsHandle(g, w)) :: IsHandle(g, w)
    {
      ghost var before, order := freshQueue.entries[..], freshQueue.order;
      freshQueue.PartitionFacts();
      var entry := freshQueue.PushHead(v);
      h := FreshEntry(entry);
      freshQueue.PartitionFacts();
      NewestIs(freshQueue.entries[..], freshQueue.order, v);
      KeptByPush(before, order, freshQueue.entries[..], entry, v);
    }

    /** Move a value to the newest place of the mature part, from wherever it is. */
    method Bump(h: Handle, ghost v: Value) returns (h': Handle)
      requires Valid() && View().Valid() && !IsOverflowing() && IsHandle(h, v)
      modifies freshQueue.Repr(), matureQueue.queue.Repr()
      ensures Valid() && h'.MatureEntry? && IsHandle(h', v)
      ensures old(View()).Has(v) && View() == Apply(old(View()), Action.Bump(v))
      ensures forall g, w | g != h && old(IsHandle(g, w)) :: IsHandle(g, w)
    {
      match h {
        case FreshEntry(i) => h' := BumpFresh(i, v);
        case MatureEntry(i) => h' := BumpMature(i, v);
      }
    }

    method BumpFresh(i: nat, ghost v: Value) returns (h: Handle)
      requires Valid() && View().Valid() && !IsOverflowing() && IsHandle(FreshEntry(i), v)
      modifies freshQueue.Repr(), matureQueue.queue.Repr()
      ensures Valid() && h.MatureEntry? && IsHandle(h, v)
      ensures old(View()).Has(v) && View() == Apply(old(View()), Action.Bump(v))
      ensures forall g, w | g != FreshEntry(i) && old(IsHandle(g, w)) :: IsHandle(g, w)
    {
      hide Distinct, FixedArrayList.Valid;
      freshQueue.PartitionFacts();
      matureQueue.queue.PartitionFacts();
      ghost var k := freshQueue.Position(i);
      ghost var slots, order := freshQueue.entries[..], freshQueue.order;
      ghost var mature, matureOrder := matureQueue.queue.entries[..], matureQueue.queue.order;
      PositionOfValue(slots, order, k);
      var value := freshQueue.entries[i].value;
      freshQueue.RemoveEntry(i);
      freshQueue.PartitionFacts();
      KeptByRemoval(slots, order, freshQueue.entries[..], k);
      var entry := matureQueue.Push(value);
      h := MatureEntry(entry);
      matureQueue.queue.PartitionFacts();
      NewestIs(matureQueue.queue.entries[..], matureQueue.queue.order, v);
      KeptByPush(mature, matureOrder, matureQueue.queue.entries[..], entry, v);
    }

    method BumpMature(i: nat, ghost v: Value) returns (h: Handle)
      requires Valid() && View().Valid() && !IsOverflowing() && IsHandle(MatureEntry(i), v)
      modifies matureQueue.queue.Repr()
      ensures Valid() && h == MatureEntry(i) && IsHandle(h, v)
      ensures old(View()).Has(v) && View() == Apply(old(View()), Action.Bump(v))
      ensures forall g, w | g != MatureEntry(i) && old(IsHandle(g, w)) :: IsHandle(g, w)
    {
      hide Distinct, FixedArrayList.Valid;
      matureQueue.queue.PartitionFacts();
      ghost var k := matureQueue.queue.Position(i);
      ghost var slots, order := matureQueue.queue.entries[..], matureQueue.queue.order;
      PositionOfValue(slots, order, k);
      var entry := matureQueue.Bump(i);
      h := MatureEntry(entry);
      matureQueue.queue.PartitionFacts();
      NewestIs(matureQueue.queue.entries[..], matureQueue.queue.order, v);
      KeptByMove(slots, order, matureQueue.queue.entries[..], k);
    }

    method Pop() returns (v: Value)
      requires Valid() && Allowed(View(), Action.Pop)
      modifies freshQueue.Repr(), matureQueue.queue.Repr()
      ensures Valid() && v == Evicted(old(View())) && View() == Apply(old(View()), Action.Pop)
      ensures forall g, w | w != v && old(IsHandle(g, w)) :: IsHandle(g, w)
    {
      hide Distinct, FixedArrayList.Valid;
      freshQueue.PartitionFacts();
      matureQueue.queue.PartitionFacts();
      ghost var slots, order := freshQueue.entries[..], freshQueue.order;
      ghost var mature, matureOrder := matureQueue.queue.entries[..], matureQueue.queue.order;
      if matureQueue.IsOverflowing() {
        v := matureQueue.Pop();
        matureQueue.queue.PartitionFacts();
        KeptByEviction(mature, matureOrder, matureQueue.queue.entries[..], v);
      } else {
        v := freshQueue.PopTail();
        freshQueue.PartitionFacts();
        KeptByEviction(slots, order, freshQueue.entries[..], v);
      }
    }
  }

  lemma NewestIs(entries: seq<Entry<Value>>, order: seq<nat>, v: Value)
    requires Below(order, |entries|) && order != [] && Values(entries, order)[|order| - 1] == v
    ensures entries[order[|order| - 1]].value == v
  {
  }

  lemma PositionOfValue(entries: seq<Entry<Value>>, order: seq<nat>, k: nat)
    requires Below(order, |entries|) && Distinct(Values(entries, order)) && k < |order|
    ensures var s, v := Values(entries, order), entries[order[k]].value;
            v in s && s[k] == v && IndexOf(s, v) == k
  {
    assert Values(entries, order)[k] == entries[order[k]].value;
  }

  // ---------------------------------------------------------------- what happens to other entries

  lemma KeptByPush(slots: seq<Entry<Value>>, order: seq<nat>, now: seq<Entry<Value>>, i: nat, v: Value)
    requires Below(order, |slots|) && Below(order + [i], |now|)
    requires Values(now, order + [i]) == Values(slots, order) + [v]
    ensures forall j | j in order :: j < |slots| && j < |now| && j in order + [i] && now[j].value == slots[j].value
  {
    forall j | j in order
      ensures j < |slots| && j < |now| && j in order + [i] && now[j].value == slots[j].value
    {
      var k :| 0 <= k < |order| && order[k] == j;
      assert (order + [i])[k] == j;
      assert Values(now, order + [i])[k] == Values(slots, order)[k];
    }
  }

  lemma KeptByRemoval(slots: seq<Entry<Value>>, order: seq<nat>, now: seq<Entry<Value>>, k: nat)
    requires Below(order, |slots|) && k < |order| && Below(Without(order, k), |now|)
    requires Values(now, Without(order, k)) == Without(Values(slots, order), k)
    ensures forall j | j in order && j != order[k] ::
              j < |slots| && j < |now| && j in Without(order, k) && now[j].value == slots[j].value
  {
    forall j | j in order && j != order[k]
      ensures j < |slots| && j < |now| && j in Without(order, k) && now[j].value == slots[j].value
    {
      var p :| 0 <= p < |order| && order[p] == j;
      var q := if p < k then p else p - 1;
      assert Without(order, k)[q] == j;
      assert Values(now, Without(order, k))[q] == Values(slots, order)[p];
    }
  }

  lemma KeptByMove(slots: seq<Entry<Value>>, order: seq<nat>, now: seq<Entry<Value>>, k: nat)
    requires Below(order, |slots|) && k < |order| && Below(Without(order, k) + [order[k]], |now|)
    requires Values(now, Without(order, k) + [order[k]]) == Without(Values(slots, order), k) + [Values(slots, order)[k]]
    ensures forall j | j in order && j != order[k] ::
              j < |slots| && j < |now| && j in Without(order, k) + [order[k]] && now[j].value == slots[j].value
  {
    var rest := Without(order, k);
    forall i | 0 <= i < |rest| ensures rest[i] < |now| {
      assert rest[i] == (rest + [order[k]])[i];
    }
    assert Values(now, rest) == Values(now, rest + [order[k]])[..|rest|];
    KeptByRemoval(slots, order, now, k);
  }

  lemma KeptByEviction(slots: seq<Entry<Value>>, order: seq<nat>, now: seq<Entry<Value>>, v: Value)
    requires Below(order, |slots|) && order != [] && Below(order[1..], |now|)
    requires Values(slots, order) == [v] + Values(now, order[1..])
    ensures forall j | j in order && slots[j].value != v ::
              j < |now| && j in order[1..] && now[j].value == slots[j].value
  {
    assert Without(order, 0) == order[1..] && Without(Values(slots, order), 0) == Values(now, order[1..]);
    assert Values(slots, order)[0] == slots[order[0]].value;
    KeptByRemoval(slots, order, now, 0);
  }

  // ---------------------------------------------------------------- runs of the object

  lemma {:induction false} PrefixAllowed(q: Lm, actions: seq<Action>, i: nat)
    requires RunAllowed(q, actions) && i <= |actions|
    ensures RunAllowed(q, actions[..i])
    decreases |actions|
  {
    if i == |actions| {
      assert actions[..i] == actions;
    } else {
      PrefixAllowed(q, Most(actions), i);
      assert Most(actions)[..i] == actions[..i];
    }
  }

  /** The next action is allowed after those before it, and the run goes on with it. */
  lemma NextAllowed(q: Lm, actions: seq<Action>, i: nat)
    requires RunAllowed(q, actions) && i < |actions|
    ensures RunAllowed(q, actions[..i]) && Allowed(Run(q, actions[..i]), actions[i])
    ensures RunAllowed(q, actions[..i + 1]) && Run(q, actions[..i + 1]) == Apply(Run(q, actions[..i]), actions[i])
    ensures Evictions(q, actions[..i + 1]) == Evictions(q, actions[..i])
            + if actions[i].Pop? then [Evicted(Run(q, actions[..i]))] else []
  {
    PrefixAllowed(q, actions, i);
    PrefixAllowed(q, actions, i + 1);
    assert Most(actions[..i + 1]) == actions[..i] && Final(actions[..i + 1]) == actions[i];
  }

  /** The values taken out in a run, in order. */
  function Evictions(q: Lm, actions: seq<Action>): seq<Value>
    requires RunAllowed(q, actions)
    decreases |actions|
  {
    if actions == [] then []
    else
      Evictions(q, Most(actions)) + if Final(actions).Pop? then [Evicted(Run(q, Most(actions)))] else []
  }

  /** Every value in the queue has the handle given for it. */
  ghost predicate HandlesHold(q: LmQueue, handles: map<Value, Handle>)
    requires q.Valid()
    reads q, q.freshQueue.Repr(), q.matureQueue, q.matureQueue.queue.Repr()
  {
    forall v | q.View().Has(v) :: v in handles && q.IsHandle(handles[v], v)
  }

  /** Any run from an empty queue on the objects, with the handles they give out: they go through the same states as the
      queue as a value, and take out the same values. */
  method RunObjects(freshSize: nat, matureSize: nat, actions: seq<Action>)
    returns (q: LmQueue, evicted: seq<Value>, handles: map<Value, Handle>)
    requires RunAllowed(Lm([], [], freshSize, matureSize), actions)
    ensures q.Valid() && q.View() == Run(Lm([], [], freshSize, matureSize), actions)
    ensures evicted == Evictions(Lm([], [], freshSize, matureSize), actions)
    ensures HandlesHold(q, handles)
  {
    ghost var empty := Lm([], [], freshSize, matureSize);
    q := new LmQueue(freshSize, matureSize);
    evicted, handles := [], map[];
    for i := 0 to |actions|
      invariant fresh(q.freshQueue.Repr()) && fresh(q.matureQueue) && fresh(q.matureQueue.queue.Repr())
      invariant RunAllowed(empty, actions[..i]) && q.Valid() && q.View() == Run(empty, actions[..i])
      invariant evicted == Evictions(empty, actions[..i]) && HandlesHold(q, handles)
    {
      NextAllowed(empty, actions, i);
      RunValid(empty, actions[..i]);
      var taken;
      handles, taken := Perform(q, handles, actions[i]);
      evicted := evicted + taken;
    }
    assert actions[..|actions|] == actions;
  }

  /** What an action leaves in the queue was there before, unless it was pushed. */
  lemma ApplyHas(q: Lm, a: Action)
    requires q.Valid() && Allowed(q, a)
    ensures forall w | Apply(q, a).Has(w) :: a == Action.Push(w) || (q.Has(w) && (a.Pop? ==> w != Evicted(q)))
  {
    match a {
      case Push(_) =>
      case Bump(v) =>
        RemovedFacts(if v in q.freshPart then q.freshPart else q.maturePart, v);
      case Pop =>
    }
  }

  method Perform(q: LmQueue, handles: map<Value, Handle>, a: Action)
    returns (after: map<Value, Handle>, taken: seq<Value>)
    requires q.Valid() && q.View().Valid() && Allowed(q.View(), a) && HandlesHold(q, handles)
    modifies q.freshQueue.Repr(), q.matureQueue.queue.Repr()
    ensures q.Valid() && q.View() == Apply(old(q.View()), a) && HandlesHold(q, after)
    ensures taken == if a.Pop? then [Evicted(old(q.View()))] else []
  {
    hide Lm.Valid, Lm.Has, Apply, FixedArrayList.Valid;
    ApplyHas(q.View(), a);
    taken := [];
    match a {
      case Push(v) =>
        var h := q.Push(v);
        after := handles[v := h];
      case Bump(v) =>
        var h := q.Bump(handles[v], v);
        after := handles[v := h];
      case Pop =>
        var v := q.Pop();
        after, taken := handles, [v];
    }
  }
}
