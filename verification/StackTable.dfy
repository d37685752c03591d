/** The agent's table of stack contexts: a first-fit slot array that grows by 2 * max + 1. */
module StackTable {
  import opened Basics

  /** The part of a stack context that matters here: the stack and the thread polling it. */
  datatype Slot = Slot(stack: Ptr, thread: nat)

  /** No stack is registered in two slots; NULL marks a free one. */
  ghost predicate OneSlotEach(slots: seq<Slot>) {
    forall i, j :: 0 <= i < j < |slots| && slots[i].stack != NULL ==> slots[i].stack != slots[j].stack
  }

  /** The registered stacks. */
  ghost function Stacks(slots: seq<Slot>): set<Ptr> {
    set i | 0 <= i < |slots| && slots[i].stack != NULL :: slots[i].stack
  }

  /** The first slot holding p, or the number of slots when there is none. */
  function IndexOf(slots: seq<Slot>, p: Ptr): (i: nat)
    ensures i <= |slots|
    ensures i < |slots| ==> slots[i].stack == p
    ensures forall k :: 0 <= k < i ==> slots[k].stack != p
  {
    if slots == [] then 0
    else if slots[0].stack == p then 0
    else 1 + IndexOf(slots[1..], p)
  }

  /** The finite map the table stands for: registered stack to its thread. */
  ghost function Registry(slots: seq<Slot>): map<Ptr, nat> {
    map p | p in Stacks(slots) :: Thread(slots, p)
  }

  ghost function Thread(slots: seq<Slot>, p: Ptr): nat {
    var i := IndexOf(slots, p);
    if i < |slots| then slots[i].thread else 0
  }

  /** Registration in the first free slot, or in a new one at the end. */
  function Place(slots: seq<Slot>, p: Ptr, thread: nat): (r: seq<Slot>) {
    var i := IndexOf(slots, NULL);
    if i < |slots| then slots[i := Slot(p, thread)] else slots + [Slot(p, thread)]
  }

  /** Freeing the slot that holds p; nothing else of the slot is touched. */
  function Clear(slots: seq<Slot>, p: Ptr): (r: seq<Slot>) {
    var i := IndexOf(slots, p);
    if i < |slots| then slots[i := slots[i].(stack := NULL)] else slots
  }

  lemma IndexOfUnique(slots: seq<Slot>, p: Ptr, i: nat)
    requires OneSlotEach(slots) && p != NULL && i < |slots| && slots[i].stack == p
    ensures IndexOf(slots, p) == i
  {
    var k := IndexOf(slots, p);
    assert k <= i && slots[k].stack == p;
  }

  /** Placing changes one slot, which was free or did not exist. */
  lemma PlaceKeeps(slots: seq<Slot>, p: Ptr, thread: nat)
    requires OneSlotEach(slots) && p != NULL && p !in Stacks(slots)
    ensures var r, f := Place(slots, p, thread), IndexOf(slots, NULL);
            && f < |r| && r[f] == Slot(p, thread)
            && (forall k :: 0 <= k < |slots| && slots[k].stack != NULL ==> r[k] == slots[k])
            && OneSlotEach(r) && Stacks(r) == Stacks(slots) + {p}
  {
    var r, f := Place(slots, p, thread), IndexOf(slots, NULL);
    assert forall k :: 0 <= k < |slots| && slots[k].stack != NULL ==> r[k] == slots[k];
    assert forall k :: 0 <= k < |r| && k != f ==> k < |slots| && r[k] == slots[k];
    assert forall k :: 0 <= k < |r| && k != f && r[k].stack != NULL ==> r[k].stack in Stacks(slots);
  }

  /** Adding a stack that is not registered is a map insertion, and keeps every stack in one slot. */
  lemma PlaceRefinesInsert(slots: seq<Slot>, p: Ptr, thread: nat)
    requires OneSlotEach(slots) && p != NULL && p !in Stacks(slots)
    ensures OneSlotEach(Place(slots, p, thread))
    ensures Registry(Place(slots, p, thread)) == Registry(slots)[p := thread]
  {
    var r := Place(slots, p, thread);
    PlaceKeeps(slots, p, thread);
    IndexOfUnique(r, p, IndexOf(slots, NULL));
    forall q | q in Stacks(slots)
      ensures Thread(r, q) == Thread(slots, q)
    {
      var i :| 0 <= i < |slots| && slots[i].stack == q;
      IndexOfUnique(slots, q, i);
      IndexOfUnique(r, q, i);
    }
  }

  /** Deleting is map removal: lookups of every other stack are unaffected. */
  lemma ClearRefinesRemove(slots: seq<Slot>, p: Ptr)
    requires OneSlotEach(slots) && p != NULL
    ensures OneSlotEach(Clear(slots, p))
    ensures Registry(Clear(slots, p)) == Registry(slots) - {p}
  {
    var r := Clear(slots, p);
    var f := IndexOf(slots, p);
    assert |r| == |slots| && forall k :: 0 <= k < |r| && k != f ==> r[k] == slots[k];
    assert Stacks(r) == Stacks(slots) - {p} by {
      forall q | q in Stacks(slots) - {p}
        ensures q in Stacks(r)
      {
        var i :| 0 <= i < |slots| && slots[i].stack == q;
        assert r[i] == slots[i];
      }
    }
    forall q | q in Stacks(r)
      ensures Thread(r, q) == Thread(slots, q)
    {
      var i :| 0 <= i < |r| && r[i].stack == q;
      IndexOfUnique(slots, q, i);
      IndexOfUnique(r, q, i);
    }
  }

  /** Lookup agrees with the map: a stack is found exactly when it is registered. */
  lemma LookupRefinesMap(slots: seq<Slot>, p: Ptr)
    requires p != NULL
    ensures IndexOf(slots, p) < |slots| <==> p in Registry(slots)
    ensures p in Registry(slots) ==> Registry(slots)[p] == slots[IndexOf(slots, p)].thread
  {
    var i := IndexOf(slots, p);
    if i < |slots| {
      assert slots[i].stack in Stacks(slots);
    }
  }

  /** At most one registered stack a slot, and exactly one each when no slot is free. */
  lemma {:induction false} StacksCount(slots: seq<Slot>)
    requires OneSlotEach(slots)
    ensures |Stacks(slots)| <= |slots|
    ensures NULL !in (set i | 0 <= i < |slots| :: slots[i].stack) ==> |Stacks(slots)| == |slots|
  {
    if slots != [] {
      var n := |slots| - 1;
      var front, last := slots[..n], slots[n].stack;
      assert forall k :: 0 <= k < n ==> front[k] == slots[k];
      StacksCount(front);
      if last == NULL {
        assert Stacks(slots) == Stacks(front);
      } else {
        assert Stacks(slots) == Stacks(front) + {last};
        assert last !in Stacks(front);
        assert NULL in (set i | 0 <= i < n :: front[i].stack)
          ==> NULL in (set i | 0 <= i < |slots| :: slots[i].stack) by {
          if NULL in (set i | 0 <= i < n :: front[i].stack) {
            var i :| 0 <= i < n && front[i].stack == NULL;
            assert slots[i].stack == NULL;
          }
        }
      }
    }
  }

  lemma RegistrySize(slots: seq<Slot>)
    requires OneSlotEach(slots)
    ensures Registry(slots).Keys == Stacks(slots)
    ensures |Registry(slots)| == |Stacks(slots)| <= |slots|
  {
    StacksCount(slots);
    assert Registry(slots).Keys == Stacks(slots);
  }

  /** What registration does to the slot count and to the number of registered stacks. */
  lemma AfterPlace(slots: seq<Slot>, p: Ptr, thread: nat)
    requires OneSlotEach(slots) && p != NULL && p !in Stacks(slots)
    ensures var r := Place(slots, p, thread);
            && OneSlotEach(r) && Registry(r) == Registry(slots)[p := thread]
            && |r| == Max(|slots|, |Stacks(r)|)
  {
    var r := Place(slots, p, thread);
    PlaceRefinesInsert(slots, p, thread);
    StacksCount(r);
    assert forall k :: 0 <= k < |slots| && IndexOf(slots, NULL) == |slots| ==> r[k] == slots[k];
  }

  /** Filling the slot that was found, after making room for it if there was none. */
  lemma FilledIsPlaced(was: seq<Slot>, room: seq<Slot>, p: Ptr, thread: nat)
    requires var i := IndexOf(was, NULL);
             if i < |was| then room == was else |room| == i + 1 && room[..i] == was
    ensures room[IndexOf(was, NULL) := Slot(p, thread)] == Place(was, p, thread)
  {
  }

  function Pow2(k: nat): (r: nat)
    ensures r >= 1
  {
    if k == 0 then 1 else 2 * Pow2(k - 1)
  }

  /** One successful call on the table. */
  datatype Op = Register(p: Ptr, thread: nat) | Unregister(p: Ptr)

  ghost function StepMap(m: map<Ptr, nat>, op: Op): map<Ptr, nat> {
    match op
    case Register(p, t) => m[p := t]
    case Unregister(p) => m - {p}
  }

  /** The reference: which stack is polled by which thread after a run. */
  ghost function RunMap(ops: seq<Op>): map<Ptr, nat> {
    if ops == [] then map[] else StepMap(RunMap(ops[..|ops| - 1]), ops[|ops| - 1])
  }

  /** The most stacks registered at the same time at any point of a run. */
  ghost function Peak(ops: seq<Op>): nat {
    if ops == [] then 0 else Max(Peak(ops[..|ops| - 1]), |RunMap(ops)|)
  }

  /** What the allocator guarantees: it hands out non-null stacks that are not registered at the time.
      The same pointer may come back after it was freed. */
  ghost predicate Allowed(m: map<Ptr, nat>, op: Op) {
    op.p != NULL && (op.Register? ==> op.p !in m)
  }

  ghost predicate Legal(ops: seq<Op>) {
    ops == [] || (Legal(ops[..|ops| - 1]) && Allowed(RunMap(ops[..|ops| - 1]), ops[|ops| - 1]))
  }

  /** Slots, allocated capacity, and the slots copied by all reallocations. */
  datatype Table = Table(slots: seq<Slot>, cap: nat, copied: nat)

  /** Capacity and copied slots once there is room for n slots. */
  function Room(n: nat, cap: nat, copied: nat): (nat, nat) {
    if n > cap then (2 * cap + 1, copied + cap) else (cap, copied)
  }

  function StepTable(t: Table, op: Op): Table {
    match op
    case Register(p, thread) =>
      var slots := Place(t.slots, p, thread);
      var (cap, copied) := Room(|slots|, t.cap, t.copied);
      Table(slots, cap, copied)
    case Unregister(p) => t.(slots := Clear(t.slots, p))
  }

  function RunTable(ops: seq<Op>): Table {
    if ops == [] then Table([], 0, 0) else StepTable(RunTable(ops[..|ops| - 1]), ops[|ops| - 1])
  }

  /** The table stands for the map m, after at most peak registrations at a time and k growths. */
  ghost predicate Stands(t: Table, m: map<Ptr, nat>, peak: nat, k: nat) {
    && OneSlotEach(t.slots) && Registry(t.slots) == m
    && |t.slots| == peak && Sized(peak, t.cap, t.copied, k)
  }

  /** Sizes after k growths of a table of n slots. */
  ghost predicate Sized(n: nat, cap: nat, copied: nat, k: nat) {
    && cap == Pow2(k) - 1 && copied + k == cap
    && (if n == 0 then cap == 0 else n <= cap <= 2 * n - 1)
  }

  lemma RoomSized(n: nat, n': nat, cap: nat, copied: nat, k: nat) returns (k': nat)
    requires Sized(n, cap, copied, k) && n <= n' <= n + 1
    ensures var (cap', copied') := Room(n', cap, copied); Sized(n', cap', copied', k')
  {
    k' := if n' > cap then k + 1 else k;
  }

  lemma RegisterStands(t: Table, p: Ptr, thread: nat, m: map<Ptr, nat>, peak: nat, k: nat) returns (k': nat)
    requires Stands(t, m, peak, k) && p != NULL && p !in m
    ensures var m' := m[p := thread];
            Stands(StepTable(t, Register(p, thread)), m', Max(peak, |m'|), k')
  {
    var slots := Place(t.slots, p, thread);
    k' := RoomSized(|t.slots|, |slots|, t.cap, t.copied, k);
    RegistrySize(t.slots);
    AfterPlace(t.slots, p, thread);
    RegistrySize(slots);
  }

  lemma UnregisterStands(t: Table, p: Ptr, m: map<Ptr, nat>, peak: nat, k: nat)
    requires Stands(t, m, peak, k) && p != NULL
    ensures Stands(StepTable(t, Unregister(p)), m - {p}, Max(peak, |m - {p}|), k)
  {
    var slots := Clear(t.slots, p);
    assert |slots| == peak;
    ClearRefinesRemove(t.slots, p);
    RegistrySize(slots);
  }

  /** Over every run the table is the map, its length is the peak, its capacity is 2^k - 1 and
      less than twice the length, and all growths together copied fewer slots than that. */
  lemma {:induction false} TableOverRuns(ops: seq<Op>) returns (k: nat)
    requires Legal(ops)
    ensures Stands(RunTable(ops), RunMap(ops), Peak(ops), k)
  {
    if ops == [] {
      k := 0;
    } else {
      var init := ops[..|ops| - 1];
      k := TableOverRuns(init);
      match ops[|ops| - 1]
      case Register(p, thread) => k := RegisterStands(RunTable(init), p, thread, RunMap(init), Peak(init), k);
      case Unregister(p) => UnregisterStands(RunTable(init), p, RunMap(init), Peak(init), k);
    }
  }

  /** The global array stack_contexts with its two counters. */
  class ContextTable {
    var contexts: array<Slot>   // its Length is max_stack_contexts_num
    var cur: nat                // cur_stack_contexts_num
    ghost var growths: nat      // how many times the array was reallocated
    ghost var copied: nat       // slots copied by all reallocations so far
    ghost var peak: nat         // most stacks ever registered at the same time

    ghost function Contents(): seq<Slot>
      reads this, contexts
      requires cur <= contexts.Length
    {
      contexts[..cur]
    }

    ghost predicate Valid()
      reads this, contexts
    {
      && cur <= contexts.Length
      && OneSlotEach(Contents())
      && contexts.Length == Pow2(growths) - 1
      && copied + growths == contexts.Length
      && (if cur == 0 then contexts.Length == 0 else contexts.Length <= 2 * cur - 1)
      && peak == cur
    }

    constructor ()
      ensures Valid() && fresh(contexts) && Contents() == [] && peak == 0
    {
      contexts := new Slot[0];
      cur := 0;
      growths, copied, peak := 0, 0, 0;
    }

    /** get_stack_ctx: the index of the first slot holding p, or -1. */
    method Get(p: Ptr) returns (i: int)
      requires cur <= contexts.Length
      ensures i == if IndexOf(Contents(), p) < cur then IndexOf(Contents(), p) else -1
    {
      var k := 0;
      while k < cur
        invariant 0 <= k <= cur
        invariant forall m :: 0 <= m < k ==> contexts[m].stack != p
      {
        if contexts[k].stack == p {
          break;
        }
        k := k + 1;
      }
      ghost var f := IndexOf(Contents(), p);
      assert k < cur ==> contexts[..cur][k].stack == p && !(f > k);
      assert f < cur ==> contexts[f].stack == p;
      if k >= cur {
        return -1;
      }
      return k;
    }

    /** Whether registering one more stack has to reallocate the array. */
    ghost predicate MustGrow()
      reads this, contexts
      requires cur <= contexts.Length
    {
      IndexOf(Contents(), NULL) == cur && cur == contexts.Length
    }

    /** The first-fit scan of add_stack_ctx. */
    method FindFree() returns (i: nat)
      requires cur <= contexts.Length
      ensures i == IndexOf(Contents(), NULL)
    {
      i := 0;
      while i < cur
        invariant 0 <= i <= cur
        invariant forall m :: 0 <= m < i ==> contexts[m].stack != NULL
      {
        if contexts[i].stack == NULL {
          break;
        }
        i := i + 1;
      }
      ghost var f := IndexOf(Contents(), NULL);
      assert i < cur ==> contexts[..cur][i].stack == NULL && !(f > i);
      assert f < cur ==> contexts[f].stack == NULL;
    }

    /** Take one more slot at the end, reallocating when the array is full. As in the source, the
        counter has already been bumped when realloc() fails. */
    method Extend(reallocOk: bool) returns (ok: bool)
      requires Valid()
      modifies this
      ensures ok <==> old(cur) < old(contexts.Length) || reallocOk
      ensures cur == old(cur) + 1 && peak == old(peak)
      ensures contexts == old(contexts) || fresh(contexts)
      ensures ok ==> cur <= contexts.Length && contexts[..old(cur)] == old(Contents())
      ensures ok ==> contexts.Length == Pow2(growths) - 1 && copied + growths == contexts.Length
      ensures ok ==> contexts.Length <= 2 * cur - 1
    {
      cur := cur + 1;
      if cur > contexts.Length {
        if !reallocOk {
          return false;
        }
        var bigger := new Slot[contexts.Length * 2 + 1];
        forall k | 0 <= k < contexts.Length {
          bigger[k] := contexts[k];
        }
        copied := copied + contexts.Length;
        growths := growths + 1;
        contexts := bigger;
      }
      return true;
    }

    /** Write the stack and, when enabled, create its thread; t is what the slot says of it then. */
    method Fill(i: nat, p: Ptr, threads: bool, tid: nat, createOk: bool) returns (ok: bool, ghost t: nat)
      requires i < cur <= contexts.Length
      modifies contexts
      ensures ok <==> (threads ==> createOk)
      ensures ok ==> (threads ==> t == tid) && contexts[..cur] == old(contexts[..cur])[i := Slot(p, t)]
    {
      ghost var was := contexts[..cur];
      contexts[i] := contexts[i].(stack := p);
      if threads {
        if !createOk {
          return false, tid;
        }
        contexts[i] := contexts[i].(thread := tid);
      }
      assert contexts[..cur] == was[i := contexts[i]];
      return true, contexts[i].thread;
    }

    /** add_stack_ctx. The booleans are the memoised enable flags and the outcomes of
        realloc(), pthread_create() and the iomux initialisation; tid is the id of the new thread. */
    method Add(p: Ptr, threads: bool, iomux: bool, tid: nat,
               reallocOk: bool, createOk: bool, iomuxOk: bool) returns (rc: int)
      requires Valid() && p != NULL && p !in Stacks(Contents())
      modifies this, contexts
      ensures contexts == old(contexts) || fresh(contexts)
      ensures rc == 0 <==> (old(MustGrow()) ==> reallocOk) && (threads ==> createOk) && (iomux ==> iomuxOk)
      ensures rc == 0 ==> Valid() && peak == Max(old(peak), |Stacks(Contents())|)
      ensures rc == 0 ==> exists t: nat :: (threads ==> t == tid) && Contents() == Place(old(Contents()), p, t)
                                           && Registry(Contents()) == old(Registry(Contents()))[p := t]
    {
      ghost var was := Contents();
      var i := FindFree();
      if i == cur {
        var ok := Extend(reallocOk);
        if !ok {
          return -1;
        }
      }
      ghost var room := contexts[..cur];
      var filled, t := Fill(i, p, threads, tid, createOk);
      if !filled {
        return -1;
      }
      if iomux && !iomuxOk {
        return -1;
      }
      ghost var now := contexts[..cur];
      FilledIsPlaced(was, room, p, t);
      AfterPlace(was, p, t);
      peak := Max(peak, |Stacks(now)|);
      return 0;
    }

    /** del_stack_ctx. joinOk and closeOk are the outcomes of stopping the thread and the iomux. */
    method Del(p: Ptr, threads: bool, iomux: bool, joinOk: bool, closeOk: bool) returns (rc: int)
      requires Valid() && p != NULL
      modifies this, contexts
      ensures contexts == old(contexts) && Valid() && peak == old(peak)
      ensures rc == 0 <==> p in old(Stacks(Contents())) && (threads ==> joinOk) && (iomux ==> closeOk)
      ensures Contents() == if rc == 0 then Clear(old(Contents()), p) else old(Contents())
      ensures Registry(Contents()) == if rc == 0 then old(Registry(Contents())) - {p} else old(Registry(Contents()))
    {
      ghost var was := Contents();
      LookupRefinesMap(was, p);
      ClearRefinesRemove(was, p);
      var i := Get(p);
      if i < 0 {
        return -1;
      }
      if threads && !joinOk {
        return -1;
      }
      if iomux && !closeOk {
        return -1;
      }
      contexts[i] := contexts[i].(stack := NULL);
      assert Contents() == Clear(was, p);
      return 0;
    }
  }
}
