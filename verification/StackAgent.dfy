/** Every interleaving of the RPC handlers that allocate, free and poll stacks with the threads
    that call zf_stack_has_pending_work() on them. */
module StackAgent {
  import opened Basics
  import opened StackTable

  /** Where an RPC handler is. The pointer is the stack it works on, i the slot it found.
      States from Adding to Cleared, and from Looking to Missing, hold stack_contexts_lock. */
  datatype Handler =
    | Idle
    | Allocated(s: Ptr)            // zf_stack_alloc() returned s
    | Adding(s: Ptr)               // lock taken
    | Placed(s: Ptr, i: nat)       // slot i written
    | Added(s: Ptr)                // thread created, or not enabled
    | Freeing(s: Ptr)              // a client asked to free s
    | Deleting(s: Ptr)             // lock taken
    | Joining(s: Ptr, i: nat)      // pthread_cancel() done, in pthread_join()
    | Joined(s: Ptr, i: nat)
    | Cleared(s: Ptr)              // slot reset
    | Unregistered(s: Ptr)         // unlocked, zf_stack_free() comes next
    | WantsPoll(s: Ptr)
    | Looking(s: Ptr)              // lock taken
    | Polling(s: Ptr)              // found: zf_waitable_fd_prime(ctx->stack), iomux
    | Missing(s: Ptr)              // not found

  /** Where the thread of a stack is; its stack was passed by value when it was created. */
  datatype Pc = Start | InCall | TestCancel | Exited
  datatype Worker = Worker(stack: Ptr, pc: Pc, cancelled: bool)

  datatype State = State(
    slots: seq<Slot>,
    cap: nat,                      // max_stack_contexts_num
    copied: nat,                   // slots copied by all reallocations so far
    owner: seq<nat>,               // the handler holding the lock: at most one
    handlers: seq<Handler>,
    workers: map<nat, Worker>,     // every thread ever created
    live: set<Ptr>,                // allocated by the library and not freed
    env: bool,                     // what the environment variable says now
    flag: seq<bool>,               // the memoised flag, once read
    aborted: bool)

  datatype Step =
    | LibAlloc(h: nat, s: Ptr)
    | LockToAdd(h: nat)
    | Put(h: nat, junk: nat)
    | AddFails(h: nat)             // realloc(), pthread_create() or iomux failure: abort()
    | CreateThread(h: nat, w: nat)
    | UnlockAdded(h: nat)
    | FreeRequest(h: nat, s: Ptr)
    | LockToDelete(h: nat)
    | Find(h: nat)
    | Join(h: nat)
    | DeleteFails(h: nat)          // cancelling, joining or closing the iomux fails: abort()
    | Reset(h: nat)
    | UnlockCleared(h: nat)
    | LibFree(h: nat, ok: bool)
    | PollRequest(h: nat, s: Ptr)
    | LockToPoll(h: nat)
    | LookUp(h: nat)
    | UnlockPolled(h: nat)
    | Setenv(b: bool)
    | EnterCall(w: nat)            // the thread calls zf_stack_has_pending_work(stack)
    | LeaveCall(w: nat)
    | CallFails(w: nat)            // negative return value: abort()
    | LoopAgain(w: nat)
    | ExitThread(w: nat)           // only once cancelled

  predicate Holds(h: Handler) {
    h.Adding? || h.Placed? || h.Added? || h.Deleting? || h.Joining? || h.Joined? || h.Cleared?
    || h.Looking? || h.Polling? || h.Missing?
  }

  /** The memoised value: the first reading of the environment decides for good. */
  function Enabled(st: State): bool {
    if st.flag == [] then st.env else st.flag[0]
  }

  ghost predicate At(st: State, h: nat) { h < |st.handlers| && !st.aborted }

  ghost predicate Runs(st: State, w: nat) { w in st.workers && !st.aborted }

  ghost predicate Enabledness(st: State, step: Step) {
    match step
    case LibAlloc(h, s) => At(st, h) && st.handlers[h].Idle? && s != NULL && s !in st.live
    case LockToAdd(h) => At(st, h) && st.handlers[h].Allocated? && st.owner == []
    case Put(h, _) => At(st, h) && st.handlers[h].Adding?
    case AddFails(h) => At(st, h) && (st.handlers[h].Adding? || st.handlers[h].Placed? || st.handlers[h].Added?)
    case CreateThread(h, w) => At(st, h) && st.handlers[h].Placed? && w !in st.workers
    case UnlockAdded(h) => At(st, h) && st.handlers[h].Added?
    case FreeRequest(h, s) => At(st, h) && st.handlers[h].Idle? && s != NULL
    case LockToDelete(h) => At(st, h) && st.handlers[h].Freeing? && st.owner == []
    case Find(h) => At(st, h) && st.handlers[h].Deleting?
    case Join(h) => At(st, h) && st.handlers[h].Joining? && st.handlers[h].i < |st.slots|
                    && st.slots[st.handlers[h].i].thread in st.workers
                    && st.workers[st.slots[st.handlers[h].i].thread].pc == Exited
    case DeleteFails(h) =>
      At(st, h) && (st.handlers[h].Deleting? || st.handlers[h].Joining? || st.handlers[h].Joined?)
    case Reset(h) => At(st, h) && st.handlers[h].Joined? && st.handlers[h].i < |st.slots|
    case UnlockCleared(h) => At(st, h) && st.handlers[h].Cleared?
    case LibFree(h, _) => At(st, h) && st.handlers[h].Unregistered?
    case PollRequest(h, s) => At(st, h) && st.handlers[h].Idle? && s != NULL
    case LockToPoll(h) => At(st, h) && st.handlers[h].WantsPoll? && st.owner == []
    case LookUp(h) => At(st, h) && st.handlers[h].Looking?
    case UnlockPolled(h) => At(st, h) && (st.handlers[h].Polling? || st.handlers[h].Missing?)
    case Setenv(_) => !st.aborted
    case EnterCall(w) => Runs(st, w) && st.workers[w].pc == Start
    case LeaveCall(w) => Runs(st, w) && st.workers[w].pc == InCall
    case CallFails(w) => Runs(st, w) && st.workers[w].pc == InCall
    case LoopAgain(w) => Runs(st, w) && st.workers[w].pc == TestCancel && !st.workers[w].cancelled
    case ExitThread(w) => Runs(st, w) && st.workers[w].pc != Exited && st.workers[w].cancelled
  }

  ghost function Goto(st: State, h: nat, to: Handler): State
    requires h < |st.handlers|
  {
    st.(handlers := st.handlers[h := to])
  }

  ghost function SetPc(st: State, w: nat, pc: Pc): State
    requires w in st.workers
  {
    st.(workers := st.workers[w := st.workers[w].(pc := pc)])
  }

  /** pthread_cancel() of the thread recorded in slot i; an unknown id is an error and ends in abort(). */
  ghost function Cancel(st: State, h: nat, i: nat): State
    requires h < |st.handlers| && st.handlers[h].Deleting? && i < |st.slots|
  {
    var w := st.slots[i].thread;
    if w in st.workers then
      Goto(st, h, Joining(st.handlers[h].s, i)).(workers := st.workers[w := st.workers[w].(cancelled := true)])
    else st.(aborted := true)
  }

  ghost function Apply(st: State, step: Step): State
    requires Enabledness(st, step)
  {
    match step
    case LibAlloc(h, s) => Goto(st, h, Allocated(s)).(live := st.live + {s})
    case LockToAdd(h) => Goto(st, h, Adding(st.handlers[h].s)).(owner := [h])
    case Put(h, junk) =>
      var i := IndexOf(st.slots, NULL);
      var slots := Place(st.slots, st.handlers[h].s, junk);
      var (cap, copied) := Room(|slots|, st.cap, st.copied);
      Goto(st, h, Placed(st.handlers[h].s, i)).(slots := slots, cap := cap, copied := copied)
    case AddFails(h) => st.(aborted := true)
    case CreateThread(h, w) =>
      var Placed(s, i) := st.handlers[h];
      var done := Goto(st, h, Added(s)).(flag := [Enabled(st)]);
      if Enabled(st) && i < |st.slots| then
        done.(workers := st.workers[w := Worker(s, Start, false)],
              slots := st.slots[i := st.slots[i].(thread := w)])
      else done
    case UnlockAdded(h) => Goto(st, h, Idle).(owner := [])
    case FreeRequest(h, s) => Goto(st, h, Freeing(s))
    case LockToDelete(h) => Goto(st, h, Deleting(st.handlers[h].s)).(owner := [h])
    case Find(h) =>
      var s := st.handlers[h].s;
      var i := IndexOf(st.slots, s);
      if i == |st.slots| then st.(aborted := true)
      else if Enabled(st) then Cancel(st.(flag := [Enabled(st)]), h, i)
      else Goto(st, h, Joined(s, i)).(flag := [Enabled(st)])
    case Join(h) =>
      var Joining(s, i) := st.handlers[h];
      Goto(st, h, Joined(s, i))
    case DeleteFails(h) => st.(aborted := true)
    case Reset(h) =>
      var Joined(s, i) := st.handlers[h];
      Goto(st, h, Cleared(s)).(slots := st.slots[i := st.slots[i].(stack := NULL)])
    case UnlockCleared(h) => Goto(st, h, Unregistered(st.handlers[h].s)).(owner := [])
    case LibFree(h, ok) =>
      var s := st.handlers[h].s;
      if ok then Goto(st, h, Idle).(live := st.live - {s}) else Goto(st, h, Idle)
    case PollRequest(h, s) => Goto(st, h, WantsPoll(s))
    case LockToPoll(h) => Goto(st, h, Looking(st.handlers[h].s)).(owner := [h])
    case LookUp(h) =>
      var s := st.handlers[h].s;
      Goto(st, h, if IndexOf(st.slots, s) == |st.slots| then Missing(s) else Polling(s))
    case UnlockPolled(h) => Goto(st, h, Idle).(owner := [])
    case Setenv(b) => st.(env := b)
    case EnterCall(w) => SetPc(st, w, InCall)
    case LeaveCall(w) => SetPc(st, w, TestCancel)
    case CallFails(w) => st.(aborted := true)
    case LoopAgain(w) => SetPc(st, w, Start)
    case ExitThread(w) => SetPc(st, w, Exited)
  }

  ghost predicate Next(st: State, st': State) {
    exists step :: Enabledness(st, step) && st' == Apply(st, step)
  }

  ghost predicate Init(st: State) {
    && st.slots == [] && st.cap == 0 && st.copied == 0
    && st.owner == [] && st.workers == map[] && st.live == {} && st.flag == [] && !st.aborted
    && forall h :: 0 <= h < |st.handlers| ==> st.handlers[h] == Idle
  }

  ghost predicate Run(run: seq<State>) {
    && |run| > 0 && Init(run[0])
    && forall k :: 0 <= k < |run| - 1 ==> Next(run[k], run[k + 1])
  }

  /** The property: no thread is inside zf_stack_has_pending_work(), or about to enter it, with a
      stack that was freed, and the lock holder never primes a freed stack. */
  ghost predicate Safe(st: State) {
    && (forall w :: w in st.workers && st.workers[w].pc != Exited ==> st.workers[w].stack in st.live)
    && (forall h :: 0 <= h < |st.handlers| && st.handlers[h].Polling? ==> st.handlers[h].s in st.live)
  }

  /** The stack a handler is alone responsible for: live, and not in the table. */
  ghost predicate Owns(h: Handler) {
    h.Allocated? || h.Adding? || h.Cleared? || h.Unregistered?
  }

  ghost predicate LockInv(st: State) {
    && |st.owner| <= 1
    && forall h :: 0 <= h < |st.handlers| ==> (Holds(st.handlers[h]) <==> st.owner == [h])
  }

  ghost predicate OwnInv(st: State) {
    && (forall h :: 0 <= h < |st.handlers| && Owns(st.handlers[h]) ==>
          st.handlers[h].s in st.live && st.handlers[h].s !in Stacks(st.slots))
    && (forall g, h :: 0 <= g < h < |st.handlers| && Owns(st.handlers[g]) && Owns(st.handlers[h]) ==>
          st.handlers[g].s != st.handlers[h].s)
  }

  /** A registered slot whose thread is neither still to be created nor already joined. */
  ghost predicate Settled(st: State, i: nat) {
    && i < |st.slots| && st.slots[i].stack != NULL
    && forall h :: 0 <= h < |st.handlers| && (st.handlers[h].Placed? || st.handlers[h].Joined?) ==>
                     st.handlers[h].i != i
  }

  /** Slot i's thread is running for slot i's stack. */
  ghost predicate Polled(st: State, i: nat)
    requires i < |st.slots|
  {
    st.slots[i].thread in st.workers && st.workers[st.slots[i].thread].stack == st.slots[i].stack
  }

  ghost predicate SlotInv(st: State) {
    && OneSlotEach(st.slots) && Stacks(st.slots) <= st.live && NULL !in st.live
    && |st.flag| <= 1
    && (forall i :: 0 <= i < |st.slots| && Settled(st, i) ==>
          st.flag != [] && (st.flag[0] ==> Polled(st, i)))
  }

  /** Every thread that has not exited belongs to a registered stack, through that stack's slot. */
  ghost predicate WorkerInv(st: State) {
    && (st.workers != map[] ==> st.flag == [true])
    && forall w :: w in st.workers && st.workers[w].pc != Exited ==>
         exists i :: 0 <= i < |st.slots| && st.slots[i] == Slot(st.workers[w].stack, w) && st.slots[i].stack != NULL
  }

  /** Handlers in the middle of a critical section still see the slot they found. */
  ghost predicate SectionInv(st: State) {
    forall h :: 0 <= h < |st.handlers| ==>
      match st.handlers[h]
      case Placed(s, i) => i < |st.slots| && st.slots[i].stack == s && s != NULL
                           && (forall w :: w in st.workers && st.workers[w].pc != Exited ==> st.workers[w].stack != s)
      case Joining(s, i) => i < |st.slots| && st.slots[i].stack == s && s != NULL && st.flag == [true]
                            && Cancelled(st, st.slots[i].thread)
      case Joined(s, i) => i < |st.slots| && st.slots[i].stack == s && s != NULL
                           && (forall w :: w in st.workers && st.workers[w].pc != Exited ==> st.workers[w].stack != s)
      case Polling(s) => s in Stacks(st.slots)
      case Freeing(s) => s != NULL
      case Deleting(s) => s != NULL
      case WantsPoll(s) => s != NULL
      case Looking(s) => s != NULL
      case _ => true
  }

  predicate Cancelled(st: State, w: nat) { w in st.workers && st.workers[w].cancelled }

  ghost predicate Inv(st: State) {
    LockInv(st) && OwnInv(st) && SlotInv(st) && WorkerInv(st) && SectionInv(st)
  }

  /** A slot settled after handler h moved was settled before, unless h itself was working on it. */
  lemma WasSettled(st: State, st': State, h: nat, i: nat)
    requires h < |st.handlers| == |st'.handlers| && st'.handlers == st.handlers[h := st'.handlers[h]]
    requires Settled(st', i) && i < |st.slots| && st.slots[i].stack != NULL
    requires (st.handlers[h].Placed? || st.handlers[h].Joined?) ==> st.handlers[h].i != i
    ensures Settled(st, i)
  {
    forall g | 0 <= g < |st.handlers| && (st.handlers[g].Placed? || st.handlers[g].Joined?)
      ensures st.handlers[g].i != i
    {
      assert g != h ==> st'.handlers[g] == st.handlers[g];
    }
  }

  /** SlotInv after a move of h that leaves slots, threads and the flag alone. */
  lemma SlotInvMoves(st: State, st': State, h: nat)
    requires SlotInv(st)
    requires h < |st.handlers| == |st'.handlers| && st'.handlers == st.handlers[h := st'.handlers[h]]
    requires !st.handlers[h].Placed? && !st.handlers[h].Joined?
    requires st'.slots == st.slots && st'.workers == st.workers && st'.flag == st.flag
    requires Stacks(st.slots) <= st'.live && NULL !in st'.live
    ensures SlotInv(st')
  {
    forall i | 0 <= i < |st'.slots| && Settled(st', i)
      ensures st'.flag != [] && (st'.flag[0] ==> Polled(st', i))
    {
      WasSettled(st, st', h, i);
    }
  }

  /** The lock holder moves on within its critical section, without gaining a stack of its own. */
  lemma HolderMoves(st: State, st': State, h: nat)
    requires LockInv(st) && OwnInv(st) && h < |st.handlers| == |st'.handlers|
    requires st'.handlers == st.handlers[h := st'.handlers[h]] && st'.owner == st.owner
    requires st'.slots == st.slots && st'.live == st.live
    requires Holds(st.handlers[h]) && Holds(st'.handlers[h]) && !Owns(st'.handlers[h])
    ensures LockInv(st') && OwnInv(st')
  {
  }

  lemma StepAlloc(st: State, step: Step)
    requires Inv(st) && Enabledness(st, step) && (step.LibAlloc? || step.LockToAdd? || step.UnlockAdded?)
    ensures Inv(Apply(st, step))
  {
    SlotInvMoves(st, Apply(st, step), step.h);
  }

  lemma StepFreeRequest(st: State, step: Step)
    requires Inv(st) && Enabledness(st, step) && (step.FreeRequest? || step.LockToDelete?)
    ensures Inv(Apply(st, step))
  {
    SlotInvMoves(st, Apply(st, step), step.h);
  }

  lemma StepUnlockCleared(st: State, h: nat)
    requires Inv(st) && Enabledness(st, UnlockCleared(h))
    ensures Inv(Apply(st, UnlockCleared(h)))
  {
    SlotInvMoves(st, Apply(st, UnlockCleared(h)), h);
  }

  lemma StepLibFree(st: State, h: nat, ok: bool)
    requires Inv(st) && Enabledness(st, LibFree(h, ok))
    ensures Inv(Apply(st, LibFree(h, ok)))
  {
    SlotInvMoves(st, Apply(st, LibFree(h, ok)), h);
  }

  lemma StepPollRequest(st: State, h: nat, s: Ptr)
    requires Inv(st) && Enabledness(st, PollRequest(h, s))
    ensures Inv(Apply(st, PollRequest(h, s)))
  {
    SlotInvMoves(st, Apply(st, PollRequest(h, s)), h);
  }

  lemma StepUnlockPolled(st: State, h: nat)
    requires Inv(st) && Enabledness(st, UnlockPolled(h))
    ensures Inv(Apply(st, UnlockPolled(h)))
  {
    SlotInvMoves(st, Apply(st, UnlockPolled(h)), h);
  }

  lemma StepLockToPoll(st: State, h: nat)
    requires Inv(st) && Enabledness(st, LockToPoll(h))
    ensures Inv(Apply(st, LockToPoll(h)))
  {
    SlotInvMoves(st, Apply(st, LockToPoll(h)), h);
  }

  lemma StepLookUp(st: State, h: nat)
    requires Inv(st) && Enabledness(st, LookUp(h))
    ensures Inv(Apply(st, LookUp(h)))
  {
    var i := IndexOf(st.slots, st.handlers[h].s);
    assert i < |st.slots| ==> st.slots[i].stack in Stacks(st.slots);
    SlotInvMoves(st, Apply(st, LookUp(h)), h);
    HolderMoves(st, Apply(st, LookUp(h)), h);
  }

  /** Nothing but the aborted flag or the environment variable changes. */
  lemma StepAborts(st: State, step: Step)
    requires Inv(st) && Enabledness(st, step)
    requires var st' := Apply(st, step); st' == st.(aborted := true) || st' == st.(env := st'.env)
    ensures Inv(Apply(st, step))
  {
    var st' := Apply(st, step);
    assert forall i :: 0 <= i < |st.slots| ==> (Settled(st, i) <==> Settled(st', i));
  }

  /** A thread moved: its stack and the rest of the state are as before. */
  lemma StepWorker(st: State, w: nat, step: Step)
    requires Inv(st) && Enabledness(st, step)
    requires step == EnterCall(w) || step == LeaveCall(w) || step == LoopAgain(w) || step == ExitThread(w)
    ensures Inv(Apply(st, step))
  {
    var st' := Apply(st, step);
    var to := st'.workers[w].pc;
    assert st' == SetPc(st, w, to);
    PcMoves(st, w, to);
  }

  lemma PcMoves(st: State, w: nat, to: Pc)
    requires Inv(st) && w in st.workers && st.workers[w].pc != Exited
    ensures Inv(SetPc(st, w, to))
  {
    var st' := SetPc(st, w, to);
    assert forall i :: 0 <= i < |st.slots| ==> (Settled(st, i) <==> Settled(st', i));
    assert forall v :: v in st'.workers ==> v in st.workers && st'.workers[v].stack == st.workers[v].stack;
  }

  /** The home slot of a thread that has not exited. */
  lemma Home(st: State, w: nat) returns (i: nat)
    requires WorkerInv(st) && w in st.workers && st.workers[w].pc != Exited
    ensures i < |st.slots| && st.slots[i] == Slot(st.workers[w].stack, w) && st.slots[i].stack != NULL
    ensures st.workers[w].stack in Stacks(st.slots)
  {
    i :| 0 <= i < |st.slots| && st.slots[i] == Slot(st.workers[w].stack, w) && st.slots[i].stack != NULL;
    assert st.slots[i].stack in Stacks(st.slots);
  }

  lemma PutFacts(st: State, h: nat, junk: nat)
    requires Inv(st) && Enabledness(st, Put(h, junk))
    ensures var s, f, slots := st.handlers[h].s, IndexOf(st.slots, NULL), Apply(st, Put(h, junk)).slots;
            && f < |slots| && slots[f] == Slot(s, junk) && s != NULL && s !in Stacks(st.slots)
            && (forall i :: 0 <= i < |st.slots| && i != f ==> i < |slots| && slots[i] == st.slots[i])
            && |slots| == (if f == |st.slots| then f + 1 else |st.slots|)
            && OneSlotEach(slots) && Stacks(slots) == Stacks(st.slots) + {s}
  {
    var s := st.handlers[h].s;
    PlaceRefinesInsert(st.slots, s, junk);
    assert Registry(Place(st.slots, s, junk)).Keys == Stacks(Place(st.slots, s, junk));
    assert Registry(st.slots).Keys == Stacks(st.slots);
  }

  lemma PutSlotInv(st: State, h: nat, junk: nat)
    requires Inv(st) && Enabledness(st, Put(h, junk))
    ensures SlotInv(Apply(st, Put(h, junk)))
  {
    var st' := Apply(st, Put(h, junk));
    PutFacts(st, h, junk);
    forall i | 0 <= i < |st'.slots| && Settled(st', i)
      ensures st'.flag != [] && (st'.flag[0] ==> Polled(st', i))
    {
      assert st'.handlers[h] == Placed(st.handlers[h].s, IndexOf(st.slots, NULL));
      WasSettled(st, st', h, i);
    }
  }

  lemma PutWorkerInv(st: State, h: nat, junk: nat)
    requires Inv(st) && Enabledness(st, Put(h, junk))
    ensures WorkerInv(Apply(st, Put(h, junk)))
    ensures forall w :: w in st.workers && st.workers[w].pc != Exited ==> st.workers[w].stack != st.handlers[h].s
  {
    var st' := Apply(st, Put(h, junk));
    PutFacts(st, h, junk);
    forall w | w in st.workers && st.workers[w].pc != Exited
      ensures st.workers[w].stack != st.handlers[h].s
      ensures exists i :: 0 <= i < |st'.slots| && st'.slots[i] == Slot(st'.workers[w].stack, w) && st'.slots[i].stack != NULL
    {
      var i := Home(st, w);
      assert st'.slots[i] == st.slots[i];
    }
  }

  lemma StepPut(st: State, h: nat, junk: nat)
    requires Inv(st) && Enabledness(st, Put(h, junk))
    ensures Inv(Apply(st, Put(h, junk)))
  {
    PutSlotInv(st, h, junk);
    PutWorkerInv(st, h, junk);
    PutFacts(st, h, junk);
  }

  lemma CreateFacts(st: State, h: nat, w: nat)
    requires Inv(st) && Enabledness(st, CreateThread(h, w))
    ensures var Placed(s, i) := st.handlers[h];
            var slots := Apply(st, CreateThread(h, w)).slots;
            && |slots| == |st.slots| && i < |st.slots| && st.slots[i].stack == s && s != NULL
            && slots[i] == Slot(s, if Enabled(st) then w else st.slots[i].thread)
            && (forall k :: 0 <= k < |st.slots| && k != i ==> slots[k] == st.slots[k])
            && OneSlotEach(slots) && Stacks(slots) == Stacks(st.slots)
  {
    var slots := Apply(st, CreateThread(h, w)).slots;
    assert forall k :: 0 <= k < |st.slots| ==> slots[k].stack == st.slots[k].stack;
  }

  lemma CreateSlotInv(st: State, h: nat, w: nat)
    requires Inv(st) && Enabledness(st, CreateThread(h, w))
    ensures SlotInv(Apply(st, CreateThread(h, w)))
  {
    var st' := Apply(st, CreateThread(h, w));
    CreateFacts(st, h, w);
    forall k | 0 <= k < |st'.slots| && Settled(st', k)
      ensures st'.flag != [] && (st'.flag[0] ==> Polled(st', k))
    {
      if k != st.handlers[h].i {
        WasSettled(st, st', h, k);
      }
    }
  }

  lemma CreateWorkerInv(st: State, h: nat, w: nat)
    requires Inv(st) && Enabledness(st, CreateThread(h, w))
    ensures WorkerInv(Apply(st, CreateThread(h, w)))
  {
    var st' := Apply(st, CreateThread(h, w));
    CreateFacts(st, h, w);
    forall v | v in st'.workers && st'.workers[v].pc != Exited
      ensures exists k :: 0 <= k < |st'.slots| && st'.slots[k] == Slot(st'.workers[v].stack, v) && st'.slots[k].stack != NULL
    {
      if v in st.workers {
        var k := Home(st, v);
        assert k != st.handlers[h].i && st'.slots[k] == st.slots[k];
      } else {
        assert st'.slots[st.handlers[h].i] == Slot(st.handlers[h].s, w);
      }
    }
  }

  lemma StepCreateThread(st: State, h: nat, w: nat)
    requires Inv(st) && Enabledness(st, CreateThread(h, w))
    ensures Inv(Apply(st, CreateThread(h, w)))
  {
    CreateSlotInv(st, h, w);
    CreateWorkerInv(st, h, w);
    CreateFacts(st, h, w);
  }

  /** The slot of a stack to be freed has a thread exactly when the flag says so. */
  lemma FoundSettled(st: State, h: nat)
    requires Inv(st) && Enabledness(st, Find(h)) && IndexOf(st.slots, st.handlers[h].s) < |st.slots|
    ensures var i := IndexOf(st.slots, st.handlers[h].s);
            && st.flag == [Enabled(st)] && st.slots[i].stack == st.handlers[h].s
            && (if Enabled(st) then Polled(st, i) else st.workers == map[])
  {
    assert Settled(st, IndexOf(st.slots, st.handlers[h].s));
  }

  lemma FindSlotInv(st: State, h: nat)
    requires Inv(st) && Enabledness(st, Find(h)) && IndexOf(st.slots, st.handlers[h].s) < |st.slots|
    ensures SlotInv(Apply(st, Find(h)))
  {
    var st' := Apply(st, Find(h));
    FoundSettled(st, h);
    forall k | 0 <= k < |st'.slots| && Settled(st', k)
      ensures st'.flag != [] && (st'.flag[0] ==> Polled(st', k))
    {
      WasSettled(st, st', h, k);
    }
  }

  lemma FindWorkerInv(st: State, h: nat)
    requires Inv(st) && Enabledness(st, Find(h)) && IndexOf(st.slots, st.handlers[h].s) < |st.slots|
    ensures WorkerInv(Apply(st, Find(h))) && SectionInv(Apply(st, Find(h)))
  {
    FoundSettled(st, h);
    var st' := Apply(st, Find(h));
    assert st'.handlers == st.handlers[h := st'.handlers[h]];
    assert forall w :: w in st'.workers ==> w in st.workers && st'.workers[w].stack == st.workers[w].stack;
  }

  lemma StepFind(st: State, h: nat)
    requires Inv(st) && Enabledness(st, Find(h))
    ensures Inv(Apply(st, Find(h)))
  {
    if IndexOf(st.slots, st.handlers[h].s) < |st.slots| {
      FoundSettled(st, h);
      FindSlotInv(st, h);
      FindWorkerInv(st, h);
      HolderMoves(st, Apply(st, Find(h)), h);
    } else {
      StepAborts(st, Find(h));
    }
  }

  lemma StepJoin(st: State, h: nat)
    requires Inv(st) && Enabledness(st, Join(h))
    ensures Inv(Apply(st, Join(h)))
  {
    var st' := Apply(st, Join(h));
    var Joining(s, i) := st.handlers[h];
    var w := st.slots[i].thread;
    assert Settled(st, i);
    forall k | 0 <= k < |st'.slots| && Settled(st', k)
      ensures st'.flag != [] && (st'.flag[0] ==> Polled(st', k))
    {
      assert st'.handlers[h] == Joined(s, i);
      WasSettled(st, st', h, k);
    }
    forall v | v in st'.workers && st'.workers[v].pc != Exited
      ensures st'.workers[v].stack != s
    {
      var k :| 0 <= k < |st.slots| && st.slots[k] == Slot(st.workers[v].stack, v) && st.slots[k].stack != NULL;
      assert k != i;
    }
  }

  lemma ResetFacts(st: State, h: nat)
    requires Inv(st) && Enabledness(st, Reset(h))
    ensures var Joined(s, i) := st.handlers[h];
            var slots := Apply(st, Reset(h)).slots;
            && |slots| == |st.slots| && i < |slots| && st.slots[i].stack == s && slots[i].stack == NULL
            && (forall k :: 0 <= k < |st.slots| && k != i ==> slots[k] == st.slots[k])
            && OneSlotEach(slots) && Stacks(slots) == Stacks(st.slots) - {s}
  {
    var Joined(s, i) := st.handlers[h];
    IndexOfUnique(st.slots, s, i);
    ClearRefinesRemove(st.slots, s);
    assert Registry(Clear(st.slots, s)).Keys == Stacks(Clear(st.slots, s));
    assert Registry(st.slots).Keys == Stacks(st.slots);
  }

  lemma ResetSlotInv(st: State, h: nat)
    requires Inv(st) && Enabledness(st, Reset(h))
    ensures SlotInv(Apply(st, Reset(h)))
  {
    var st' := Apply(st, Reset(h));
    ResetFacts(st, h);
    forall k | 0 <= k < |st'.slots| && Settled(st', k)
      ensures st'.flag != [] && (st'.flag[0] ==> Polled(st', k))
    {
      WasSettled(st, st', h, k);
    }
  }

  lemma ResetWorkerInv(st: State, h: nat)
    requires Inv(st) && Enabledness(st, Reset(h))
    ensures WorkerInv(Apply(st, Reset(h)))
  {
    var st' := Apply(st, Reset(h));
    ResetFacts(st, h);
    forall v | v in st'.workers && st'.workers[v].pc != Exited
      ensures exists k :: 0 <= k < |st'.slots| && st'.slots[k] == Slot(st'.workers[v].stack, v) && st'.slots[k].stack != NULL
    {
      var k := Home(st, v);
      assert st'.slots[k] == st.slots[k];
    }
  }

  lemma StepReset(st: State, h: nat)
    requires Inv(st) && Enabledness(st, Reset(h))
    ensures Inv(Apply(st, Reset(h)))
  {
    ResetFacts(st, h);
    ResetSlotInv(st, h);
    ResetWorkerInv(st, h);
    assert st.handlers[h].s in Stacks(st.slots);
  }

  lemma AddingInv(st: State, step: Step)
    requires Inv(st) && Enabledness(st, step)
    requires step.LibAlloc? || step.LockToAdd? || step.Put? || step.AddFails? || step.CreateThread? || step.UnlockAdded?
    ensures Inv(Apply(st, step))
  {
    match step
    case Put(h, junk) => StepPut(st, h, junk);
    case CreateThread(h, w) => StepCreateThread(st, h, w);
    case AddFails(_) => StepAborts(st, step);
    case _ => StepAlloc(st, step);
  }

  lemma DeletingInv(st: State, step: Step)
    requires Inv(st) && Enabledness(st, step)
    requires step.FreeRequest? || step.LockToDelete? || step.Find? || step.Join? || step.DeleteFails? || step.Reset?
             || step.UnlockCleared? || step.LibFree?
    ensures Inv(Apply(st, step))
  {
    match step
    case Find(h) => StepFind(st, h);
    case Join(h) => StepJoin(st, h);
    case Reset(h) => StepReset(st, h);
    case DeleteFails(_) => StepAborts(st, step);
    case UnlockCleared(h) => StepUnlockCleared(st, h);
    case LibFree(h, ok) => StepLibFree(st, h, ok);
    case _ => StepFreeRequest(st, step);
  }

  lemma PollingInv(st: State, step: Step)
    requires Inv(st) && Enabledness(st, step)
    requires step.PollRequest? || step.LockToPoll? || step.LookUp? || step.UnlockPolled?
    ensures Inv(Apply(st, step))
  {
    match step
    case LockToPoll(h) => StepLockToPoll(st, h);
    case LookUp(h) => StepLookUp(st, h);
    case UnlockPolled(h) => StepUnlockPolled(st, h);
    case PollRequest(h, s) => StepPollRequest(st, h, s);
  }

  lemma ThreadInv(st: State, step: Step)
    requires Inv(st) && Enabledness(st, step)
    requires step.Setenv? || step.EnterCall? || step.LeaveCall? || step.CallFails? || step.LoopAgain? || step.ExitThread?
    ensures Inv(Apply(st, step))
  {
    if step.Setenv? || step.CallFails? {
      StepAborts(st, step);
    } else {
      StepWorker(st, step.w, step);
    }
  }

  lemma NextInv(st: State, st': State)
    requires Inv(st) && Next(st, st')
    ensures Inv(st')
  {
    var step :| Enabledness(st, step) && st' == Apply(st, step);
    if step.LibAlloc? || step.LockToAdd? || step.Put? || step.AddFails? || step.CreateThread? || step.UnlockAdded? {
      AddingInv(st, step);
    } else if step.PollRequest? || step.LockToPoll? || step.LookUp? || step.UnlockPolled? {
      PollingInv(st, step);
    } else if step.Setenv? || step.EnterCall? || step.LeaveCall? || step.CallFails? || step.LoopAgain? || step.ExitThread? {
      ThreadInv(st, step);
    } else {
      DeletingInv(st, step);
    }
  }

  lemma InvSafe(st: State)
    requires Inv(st)
    ensures Safe(st)
  {
    forall w | w in st.workers && st.workers[w].pc != Exited
      ensures st.workers[w].stack in st.live
    {
      var _ := Home(st, w);
    }
  }

  lemma {:induction false} RunInv(run: seq<State>, k: nat)
    requires Run(run) && k < |run|
    ensures Inv(run[k])
  {
    if k > 0 {
      RunInv(run, k - 1);
      assert Next(run[k - 1], run[k - 1 + 1]);
      NextInv(run[k - 1], run[k]);
    }
  }

  /** In every interleaving no thread works on a freed stack, and the table refines a map. */
  lemma NoUseAfterFree(run: seq<State>, k: nat)
    requires Run(run) && k < |run|
    ensures Safe(run[k])
    ensures OneSlotEach(run[k].slots) && Stacks(run[k].slots) <= run[k].live
  {
    RunInv(run, k);
    InvSafe(run[k]);
  }

  /** pthread_cancel() always hits the thread that polls exactly the stack being freed, whatever the
      environment variable says by now: the memoised flag makes adding and deleting agree. */
  lemma CancelHitsOwnThread(run: seq<State>, k: nat, h: nat)
    requires Run(run) && k < |run| && Enabledness(run[k], Find(h))
    requires run[k].handlers[h].s in Stacks(run[k].slots)
    ensures var st := run[k];
            var i := IndexOf(st.slots, st.handlers[h].s);
            && i < |st.slots| && st.flag != []
            && (if st.flag[0] then Polled(st, i) else st.workers == map[])
            && !Apply(st, Find(h)).aborted
  {
    RunInv(run, k);
    var st := run[k];
    var i := IndexOf(st.slots, st.handlers[h].s);
    assert i < |st.slots|;
    FoundSettled(st, h);
  }

  /** What a step can do to a thread: it is never dropped, keeps its stack, exits only once it is cancelled,
      stays so, and is cancelled only to delete its own stack. */
  lemma ThreadsStay(st: State, step: Step, w: nat)
    requires Inv(st) && Enabledness(st, step) && w in st.workers
    ensures w in Apply(st, step).workers
    ensures var t, t' := st.workers[w], Apply(st, step).workers[w];
            && t'.stack == t.stack && (t.pc == Exited ==> t'.pc == Exited) && (t.cancelled ==> t'.cancelled)
            && (t'.pc == Exited && t.pc != Exited ==> t.cancelled)
            && (t'.cancelled && !t.cancelled ==> step.Find? && st.handlers[step.h].s == t.stack)
  {
    if step.Find? && IndexOf(st.slots, st.handlers[step.h].s) < |st.slots| {
      FoundSettled(st, step.h);
    }
  }

  /** Thread w, if it was there before, is still there for the same stack, and has exited if it had then. */
  ghost predicate Kept(before: map<nat, Worker>, after: map<nat, Worker>, w: nat) {
    w in before ==>
      && w in after && after[w].stack == before[w].stack
      && (before[w].pc == Exited ==> after[w].pc == Exited)
  }

  lemma NextKeeps(st: State, st': State, w: nat)
    requires Inv(st) && Next(st, st')
    ensures Kept(st.workers, st'.workers, w)
  {
    if w in st.workers {
      var step :| Enabledness(st, step) && st' == Apply(st, step);
      ThreadsStay(st, step, w);
    }
  }

  lemma RunKeeps(run: seq<State>, k: nat, w: nat)
    requires Run(run) && 0 < k < |run|
    ensures Kept(run[k - 1].workers, run[k].workers, w)
  {
    RunInv(run, k - 1);
    assert Next(run[k - 1], run[k - 1 + 1]);
    NextKeeps(run[k - 1], run[k], w);
  }

  /** What single steps keep, any number of them keeps. */
  lemma {:induction false} KeptThroughout(workers: seq<map<nat, Worker>>, j: nat, k: nat, w: nat)
    requires j <= k < |workers| && forall m: nat :: KeptAt(workers, m, w)
    ensures Kept(workers[j], workers[k], w)
    decreases k
  {
    if j < k {
      KeptThroughout(workers, j, k - 1, w);
      assert KeptAt(workers, k, w);
    }
  }

  ghost predicate KeptAt(workers: seq<map<nat, Worker>>, m: nat, w: nat) {
    0 < m < |workers| ==> Kept(workers[m - 1], workers[m], w)
  }

  /** So threads are there, for the same stack, in every later state, and stay exited. */
  lemma ThreadStays(run: seq<State>, j: nat, k: nat, w: nat)
    requires Run(run) && j <= k < |run|
    ensures Kept(run[j].workers, run[k].workers, w)
  {
    forall m: nat
      ensures KeptAt(Workers(run), m, w)
    {
      EachKeeps(run, m, w);
    }
    KeptThroughout(Workers(run), j, k, w);
  }

  ghost function Workers(run: seq<State>): (r: seq<map<nat, Worker>>)
    ensures |r| == |run|
  {
    seq(|run|, m requires 0 <= m < |run| => run[m].workers)
  }

  lemma EachKeeps(run: seq<State>, m: nat, w: nat)
    requires Run(run)
    ensures KeptAt(Workers(run), m, w)
  {
    if 0 < m < |run| {
      RunKeeps(run, m, w);
    }
  }

  /** When zf_stack_free() of a stack is reached, every thread that was ever created for it has exited. */
  lemma JoinedBeforeFree(run: seq<State>, k: nat, h: nat, ok: bool, j: nat, w: nat)
    requires Run(run) && k < |run| && Enabledness(run[k], LibFree(h, ok))
    requires j <= k && w in run[j].workers && run[j].workers[w].stack == run[k].handlers[h].s
    ensures w in run[k].workers && run[k].workers[w].stack == run[k].handlers[h].s && run[k].workers[w].pc == Exited
  {
    ThreadStays(run, j, k, w);
    RunInv(run, k);
    if run[k].workers[w].pc != Exited {
      var _ := Home(run[k], w);
    }
  }

  /** And when its pthread_join() returns, the thread that was cancelled has exited. */
  lemma JoinWaits(st: State, h: nat)
    requires Inv(st) && Enabledness(st, Join(h))
    ensures var Joining(s, i) := st.handlers[h];
            var w := st.slots[i].thread;
            && w in st.workers && st.workers[w] == Worker(s, Exited, true)
            && forall v :: v in st.workers && st.workers[v].stack == s ==> st.workers[v].pc == Exited
  {
    var Joining(s, i) := st.handlers[h];
    assert Settled(st, i);
    forall v | v in st.workers && st.workers[v].pc != Exited
      ensures st.workers[v].stack != s
    {
      var k := Home(st, v);
      assert k != i;
    }
  }

  /** Which stacks are live changes only in the calls of the library: zf_stack_alloc() adds one that was not,
      and a successful zf_stack_free() takes away one that was. */
  lemma LiveIsWhatTheLibrarySays(st: State, step: Step)
    requires OwnInv(st) && Enabledness(st, step)
    ensures var live' := Apply(st, step).live;
            match step
            case LibAlloc(_, s) => s !in st.live && live' == st.live + {s}
            case LibFree(h, true) => st.handlers[h].s in st.live && live' == st.live - {st.handlers[h].s}
            case _ => live' == st.live
  {
  }

  /** Whatever fails ends in abort(), and so does deleting a stack that is not registered; nothing happens
      after that. */
  lemma FailuresAbort(st: State, step: Step)
    requires Inv(st) && Enabledness(st, step)
    ensures !st.aborted
    ensures step.AddFails? || step.DeleteFails? || step.CallFails? ==> Apply(st, step) == st.(aborted := true)
    ensures step.Find? ==> (Apply(st, step).aborted <==> st.handlers[step.h].s !in Stacks(st.slots))
  {
    if step.Find? {
      LookupRefinesMap(st.slots, st.handlers[step.h].s);
      if st.handlers[step.h].s in Stacks(st.slots) {
        FoundSettled(st, step.h);
      }
    }
  }

  /** The environment variable is read once: the flag is what it said at the first use, and never changes. */
  lemma FlagMemoised(st: State, step: Step)
    requires Inv(st) && Enabledness(st, step)
    ensures var flag' := Apply(st, step).flag;
            if st.flag != [] then flag' == st.flag
            else flag' == [] || ((step.CreateThread? || step.Find?) && flag' == [st.env])
  {
  }

  /** Adding a stack creates its thread, about to call zf_stack_has_pending_work() on it, exactly when the
      flag, or without one the environment variable, says so. */
  lemma AddingCreates(st: State, h: nat, w: nat)
    requires Inv(st) && Enabledness(st, CreateThread(h, w))
    ensures var st', s, i := Apply(st, CreateThread(h, w)), st.handlers[h].s, st.handlers[h].i;
            var on := if st.flag == [] then st.env else st.flag[0];
            && st'.flag == [on] && i < |st'.slots| && st'.slots[i].stack == s
            && if on then st'.workers == st.workers[w := Worker(s, Start, false)] && st'.slots[i].thread == w
               else st'.workers == st.workers
  {
    CreateFacts(st, h, w);
  }

  /** A thread that is not cancelled can always go on: into the call, out of it, and round again. */
  lemma ThreadGoesOn(st: State, w: nat) returns (step: Step)
    requires w in st.workers && !st.aborted && !st.workers[w].cancelled && st.workers[w].pc != Exited
    ensures Enabledness(st, step)
    ensures var t := st.workers[w];
            Apply(st, step).workers[w] ==
            t.(pc := match t.pc case Start => InCall case InCall => TestCancel case _ => Start)
  {
    match st.workers[w].pc
    case Start => step := EnterCall(w);
    case InCall => step := LeaveCall(w);
    case _ => step := LoopAgain(w);
  }

  /** The lock is never lost: whoever holds it can go on. A handler waiting in pthread_join() waits for a
      thread that was cancelled, and so can exit if it has not yet. */
  lemma LockHolderGoesOn(st: State) returns (step: Step)
    requires Inv(st) && st.owner != [] && st.owner[0] < |st.handlers| && !st.aborted
    ensures Enabledness(st, step)
    ensures var h := st.owner[0];
            && Holds(st.handlers[h])
            && if st.handlers[h].Joining? && !step.Join? then
                 step == ExitThread(st.slots[st.handlers[h].i].thread)
               else Apply(st, step).aborted
                    || (Apply(st, step).handlers[h] != st.handlers[h]
                        && (!Holds(Apply(st, step).handlers[h]) ==> Apply(st, step).owner == []))
  {
    var h := st.owner[0];
    assert st.owner == [h];
    match st.handlers[h] {
      case Adding(_) => step := Put(h, 0);
      case Placed(_, _) =>
        var w := NewId(st.workers);
        step := CreateThread(h, w);
      case Added(_) => step := UnlockAdded(h);
      case Deleting(_) => step := Find(h);
      case Joining(_, i) =>
        var w := st.slots[i].thread;
        step := if st.workers[w].pc == Exited then Join(h) else ExitThread(w);
      case Joined(_, _) => step := Reset(h);
      case Cleared(_) => step := UnlockCleared(h);
      case Looking(_) => step := LookUp(h);
      case Polling(_) => step := UnlockPolled(h);
      case Missing(_) => step := UnlockPolled(h);
      case _ =>
    }
  }

  /** There is always an id for one more thread. */
  lemma NewId(workers: map<nat, Worker>) returns (w: nat)
    ensures w !in workers
  {
    w := 0;
    while w in workers
      invariant forall v :: 0 <= v < w ==> v in workers
      decreases |workers| - w
    {
      Initial(workers.Keys, w);
      w := w + 1;
    }
  }

  lemma {:induction false} Initial(ids: set<nat>, n: nat)
    requires forall v :: 0 <= v <= n ==> v in ids
    ensures |ids| > n
  {
    if n > 0 {
      Initial(ids - {n}, n - 1);
    }
  }
}
