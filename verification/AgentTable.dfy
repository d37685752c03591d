/** The agent's table in every interleaving: the critical sections of adding and deleting take effect one
    after the other, and the slot count is the highest number of stacks ever registered at the same time. */
module AgentTable {
  import opened Basics
  import opened StackTable
  import opened StackAgent

  /** A run together with the steps it takes. */
  ghost predicate Trace(run: seq<State>, steps: seq<Step>) {
    && |run| == |steps| + 1 && Init(run[0])
    && forall k :: 0 <= k < |steps| ==> Takes(run, steps, k)
  }

  ghost predicate Takes(run: seq<State>, steps: seq<Step>, k: nat)
    requires k < |steps| && |run| == |steps| + 1
  {
    Enabledness(run[k], steps[k]) && run[k + 1] == Apply(run[k], steps[k])
  }

  /** Every run has steps. */
  lemma {:induction false} StepsOf(run: seq<State>) returns (steps: seq<Step>)
    requires Run(run)
    ensures Trace(run, steps)
  {
    if |run| == 1 {
      steps := [];
    } else {
      var n := |run| - 1;
      var front := run[..n];
      forall k | 0 <= k < n - 1
        ensures Next(front[k], front[k + 1])
      {
        assert Next(run[k], run[k + 1]);
      }
      var before := StepsOf(front);
      assert Next(run[n - 1], run[n - 1 + 1]);
      var step :| Enabledness(run[n - 1], step) && run[n] == Apply(run[n - 1], step);
      steps := before + [step];
      forall k | 0 <= k < |steps|
        ensures Takes(run, steps, k)
      {
        if k < n - 1 {
          assert Takes(front, before, k);
        }
      }
    }
  }

  lemma TraceIsRun(run: seq<State>, steps: seq<Step>)
    requires Trace(run, steps)
    ensures Run(run)
  {
    forall k | 0 <= k < |run| - 1
      ensures Next(run[k], run[k + 1])
    {
      assert Takes(run, steps, k);
    }
  }

  /** The call on the table that a step completes: the registration of the stack its handler adds, with
      the thread just created, or the deletion of the stack its handler deletes. */
  ghost function Completes(st: State, step: Step): seq<Op>
    requires Enabledness(st, step)
  {
    match step
    case CreateThread(h, _) =>
      var Placed(s, i) := st.handlers[h];
      var slots := Apply(st, step).slots;
      [Register(s, if i < |slots| then slots[i].thread else 0)]
    case Reset(h) => [Unregister(st.handlers[h].s)]
    case _ => []
  }

  /** The calls completed by the first k steps of a run, in order. */
  ghost function Log(run: seq<State>, steps: seq<Step>, k: nat): seq<Op>
    requires Trace(run, steps) && k < |run|
  {
    if k == 0 then [] else
      assert Takes(run, steps, k - 1);
      Log(run, steps, k - 1) + Completes(run[k - 1], steps[k - 1])
  }

  /** The holder of the lock has written its slot but not yet created the thread. */
  ghost predicate MidAdd(st: State) {
    st.owner != [] && st.owner[0] < |st.handlers| && st.handlers[st.owner[0]].Placed?
  }

  ghost function Adder(st: State): Handler
    requires MidAdd(st)
  {
    st.handlers[st.owner[0]]
  }

  /** slots is base with one more registration, whose thread is not known yet. */
  ghost predicate HalfAdded(slots: seq<Slot>, base: seq<Slot>, s: Ptr, i: nat) {
    && s != NULL && s !in Stacks(base) && i == IndexOf(base, NULL)
    && i < |slots| && slots == Place(base, s, slots[i].thread)
  }

  /** The calls in ops, made one after the other, give the table of this state. */
  ghost predicate Linearized(st: State, ops: seq<Op>) {
    && Legal(ops)
    && var t := RunTable(ops);
       if MidAdd(st) then
         && HalfAdded(st.slots, t.slots, Adder(st).s, Adder(st).i)
         && (st.cap, st.copied) == Room(|st.slots|, t.cap, t.copied)
       else Table(st.slots, st.cap, st.copied) == t
  }

  /** The stacks in the table are those in the map. */
  lemma SameStacks(ops: seq<Op>, p: Ptr)
    requires Legal(ops)
    ensures p in RunMap(ops) <==> p in Stacks(RunTable(ops).slots)
  {
    var _ := TableOverRuns(ops);
    InRegistry(RunTable(ops).slots, p);
  }

  lemma InRegistry(slots: seq<Slot>, p: Ptr)
    ensures p in Registry(slots) <==> p in Stacks(slots)
  {
  }

  lemma OneMoreOp(ops: seq<Op>, op: Op)
    requires Legal(ops) && op.p != NULL && (op.Register? ==> op.p !in Stacks(RunTable(ops).slots))
    ensures Legal(ops + [op]) && RunTable(ops + [op]) == StepTable(RunTable(ops), op)
  {
    SameStacks(ops, op.p);
    AppendOp(ops, op);
  }

  lemma AppendOp(ops: seq<Op>, op: Op)
    requires Legal(ops) && Allowed(RunMap(ops), op)
    ensures Legal(ops + [op]) && RunTable(ops + [op]) == StepTable(RunTable(ops), op)
  {
    var all := ops + [op];
    assert all[..|all| - 1] == ops;
  }

  lemma PutLinear(st: State, h: nat, junk: nat, ops: seq<Op>)
    requires Inv(st) && Enabledness(st, Put(h, junk)) && Linearized(st, ops)
    ensures Linearized(Apply(st, Put(h, junk)), ops)
  {
    assert st.owner == [h];
    PutFacts(st, h, junk);
  }

  lemma CreateLinear(st: State, h: nat, w: nat, ops: seq<Op>)
    requires Inv(st) && Enabledness(st, CreateThread(h, w)) && Linearized(st, ops)
    ensures Linearized(Apply(st, CreateThread(h, w)), ops + Completes(st, CreateThread(h, w)))
  {
    assert st.owner == [h];
    var Placed(s, i) := st.handlers[h];
    var t := if Enabled(st) then w else st.slots[i].thread;
    CreateFacts(st, h, w);
    OneMoreOp(ops, Register(s, t));
    assert Apply(st, CreateThread(h, w)).slots == Place(RunTable(ops).slots, s, t);
  }

  lemma ResetLinear(st: State, h: nat, ops: seq<Op>)
    requires Inv(st) && Enabledness(st, Reset(h)) && Linearized(st, ops)
    ensures Linearized(Apply(st, Reset(h)), ops + Completes(st, Reset(h)))
  {
    assert st.owner == [h];
    var Joined(s, i) := st.handlers[h];
    OneMoreOp(ops, Unregister(s));
    IndexOfUnique(st.slots, s, i);
  }

  /** The step neither writes the table nor begins or ends the registration under way. */
  ghost predicate LeavesTable(st: State, step: Step)
    requires Enabledness(st, step)
  {
    var st' := Apply(st, step);
    && st'.slots == st.slots && st'.cap == st.cap && st'.copied == st.copied
    && (MidAdd(st') <==> MidAdd(st)) && (MidAdd(st) ==> Adder(st') == Adder(st))
  }

  lemma ThreadsLeaveTable(st: State, step: Step)
    requires Inv(st) && Enabledness(st, step)
    requires step.Setenv? || step.EnterCall? || step.LeaveCall? || step.CallFails? || step.LoopAgain? || step.ExitThread?
    ensures LeavesTable(st, step)
  {
  }

  lemma AddersLeaveTable(st: State, step: Step)
    requires Inv(st) && Enabledness(st, step)
    requires step.LibAlloc? || step.LockToAdd? || step.AddFails? || step.UnlockAdded?
    ensures LeavesTable(st, step)
  {
  }

  lemma DeletersLeaveTable(st: State, step: Step)
    requires Inv(st) && Enabledness(st, step)
    requires step.FreeRequest? || step.LockToDelete? || step.Find? || step.Join? || step.DeleteFails?
             || step.UnlockCleared? || step.LibFree?
    ensures LeavesTable(st, step)
  {
  }

  lemma PollersLeaveTable(st: State, step: Step)
    requires Inv(st) && Enabledness(st, step)
    requires step.PollRequest? || step.LockToPoll? || step.LookUp? || step.UnlockPolled?
    ensures LeavesTable(st, step)
  {
  }

  /** Only writing a slot, creating its thread and resetting it touch the table. */
  lemma OthersLeaveTable(st: State, step: Step)
    requires Inv(st) && Enabledness(st, step) && !step.Put? && !step.CreateThread? && !step.Reset?
    ensures LeavesTable(st, step)
  {
    if step.Setenv? || step.EnterCall? || step.LeaveCall? || step.CallFails? || step.LoopAgain? || step.ExitThread? {
      ThreadsLeaveTable(st, step);
    } else if step.LibAlloc? || step.LockToAdd? || step.AddFails? || step.UnlockAdded? {
      AddersLeaveTable(st, step);
    } else if step.PollRequest? || step.LockToPoll? || step.LookUp? || step.UnlockPolled? {
      PollersLeaveTable(st, step);
    } else {
      DeletersLeaveTable(st, step);
    }
  }

  /** Every step advances the sequential table by exactly the call it completes. */
  lemma NextLinear(st: State, step: Step, ops: seq<Op>)
    requires Inv(st) && Enabledness(st, step) && Linearized(st, ops)
    ensures Linearized(Apply(st, step), ops + Completes(st, step))
  {
    if step.CreateThread? {
      CreateLinear(st, step.h, step.w, ops);
    } else if step.Reset? {
      ResetLinear(st, step.h, ops);
    } else {
      assert ops + Completes(st, step) == ops;
      if step.Put? {
        PutLinear(st, step.h, step.junk, ops);
      } else {
        OthersLeaveTable(st, step);
      }
    }
  }

  /** In every interleaving the table is what the calls completed so far, made one after the other in the
      order of their completion, make of an empty one. */
  lemma {:induction false} AgentRefinesTable(run: seq<State>, steps: seq<Step>, k: nat)
    requires Trace(run, steps) && k < |run|
    ensures Linearized(run[k], Log(run, steps, k))
  {
    if k > 0 {
      AgentRefinesTable(run, steps, k - 1);
      TraceIsRun(run, steps);
      RunInv(run, k - 1);
      assert Takes(run, steps, k - 1);
      NextLinear(run[k - 1], steps[k - 1], Log(run, steps, k - 1));
    }
  }

  /** Every run has steps whose calls explain its table in every state. */
  lemma RunRefinesTable(run: seq<State>) returns (steps: seq<Step>)
    requires Run(run)
    ensures Trace(run, steps) && forall k: nat :: k < |run| ==> Linearized(run[k], Log(run, steps, k))
  {
    steps := StepsOf(run);
    forall k: nat | k < |run|
      ensures Linearized(run[k], Log(run, steps, k))
    {
      AgentRefinesTable(run, steps, k);
    }
  }

  /** So outside a registration it stands for the map that these calls build. */
  lemma AgentRefinesMap(run: seq<State>, steps: seq<Step>, k: nat)
    requires Trace(run, steps) && k < |run| && !MidAdd(run[k])
    ensures Legal(Log(run, steps, k))
    ensures Registry(run[k].slots) == RunMap(Log(run, steps, k))
  {
    AgentRefinesTable(run, steps, k);
    var _ := TableOverRuns(Log(run, steps, k));
  }

  // ---------------------------------------------------------------- the number of slots

  /** The most stacks registered at the same time in the states up to k. */
  ghost function MostRegistered(run: seq<State>, k: nat): nat
    requires k < |run|
  {
    var now := |Stacks(run[k].slots)|;
    if k == 0 then now else Max(MostRegistered(run, k - 1), now)
  }

  lemma CountAfter(st: State, step: Step)
    requires Inv(st) && Enabledness(st, step)
    ensures var slots := Apply(st, step).slots;
            |slots| == Max(|st.slots|, |Stacks(slots)|)
  {
    if step.Put? {
      AfterPlace(st.slots, st.handlers[step.h].s, step.junk);
    } else if step.CreateThread? {
      CreateFacts(st, step.h, step.w);
      StacksCount(Apply(st, step).slots);
    } else if step.Reset? {
      ResetFacts(st, step.h);
      StacksCount(Apply(st, step).slots);
    } else {
      OthersLeaveTable(st, step);
      StacksCount(st.slots);
    }
  }

  lemma SizedAfter(st: State, step: Step, growths: nat) returns (growths': nat)
    requires Inv(st) && Enabledness(st, step) && Sized(|st.slots|, st.cap, st.copied, growths)
    ensures var st' := Apply(st, step); Sized(|st'.slots|, st'.cap, st'.copied, growths')
  {
    growths' := growths;
    if step.Put? {
      growths' := RoomSized(|st.slots|, |Apply(st, step).slots|, st.cap, st.copied, growths);
    } else if step.CreateThread? {
      CreateFacts(st, step.h, step.w);
    } else if step.Reset? {
      ResetFacts(st, step.h);
    } else {
      OthersLeaveTable(st, step);
    }
  }

  /** cur_stack_contexts_num, in every state of every interleaving: the highest number of stacks that were
      registered at the same time so far. */
  lemma {:induction false} SlotCountIsPeak(run: seq<State>, k: nat)
    requires Run(run) && k < |run|
    ensures |run[k].slots| == MostRegistered(run, k)
  {
    if k == 0 {
      assert Stacks(run[0].slots) == {};
    } else {
      SlotCountIsPeak(run, k - 1);
      RunInv(run, k - 1);
      assert Next(run[k - 1], run[k - 1 + 1]);
      var step :| Enabledness(run[k - 1], step) && run[k] == Apply(run[k - 1], step);
      CountAfter(run[k - 1], step);
    }
  }

  /** And its sizes: in every state of every interleaving the capacity is 2^growths - 1, at least the slot
      count and less than twice that, and all growths together copied fewer slots. */
  lemma {:induction false} CapacityInRuns(run: seq<State>, k: nat) returns (growths: nat)
    requires Run(run) && k < |run|
    ensures Sized(|run[k].slots|, run[k].cap, run[k].copied, growths)
  {
    if k == 0 {
      growths := 0;
    } else {
      var before := CapacityInRuns(run, k - 1);
      RunInv(run, k - 1);
      assert Next(run[k - 1], run[k - 1 + 1]);
      var step :| Enabledness(run[k - 1], step) && run[k] == Apply(run[k - 1], step);
      growths := SizedAfter(run[k - 1], step, before);
    }
  }
}
