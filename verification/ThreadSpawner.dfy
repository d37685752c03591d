/** zf_many_threads_alloc_free_stack(): one thread spawns many that allocate and free stacks in a
    loop until a shared flag tells them to stop, and joins them before its stack frame goes away. */
module ThreadSpawner {
  import opened Basics

  /** Where a worker is. It reads thread_args, which lives in the spawner's frame, in every state
      but Loop and Done. Sleeping and Freeing carry the stack it got from a successful alloc. */
  datatype Worker =
    | Loop                       // about to test the stop flag
    | Allocating                 // in args->stack_alloc()
    | Failed                     // alloc returned non-zero, in usleep(args->wait_after_alloc)
    | Sleeping(s: Ptr)           // alloc returned 0
    | Freeing(s: Ptr)            // in args->stack_free()
    | Done

  datatype Main = Starting | Creating | Joining(i: nat) | Returned

  datatype State = State(
    n: int,                      // threads_num
    main: Main,
    workers: seq<Worker>,
    stop: bool,
    result: int,
    live: set<Ptr>,              // allocated by these threads and not freed by the library
    kept: set<Ptr>,              // zf_stack_free() was called but returned an error
    unjoined: set<nat>)          // threads whose pthread_join() failed

  datatype Step =
    | Calloc(ok: bool)
    | Create(ok: bool)
    | AllCreated
    | Join                       // returns once the thread is done
    | JoinFails
    | Return
    | TestFlag(w: nat)
    | AllocOk(w: nat, s: Ptr)
    | AllocFails(w: nat)
    | Wake(w: nat)
    | FreeReturns(w: nat, ok: bool)

  ghost predicate Can(st: State, step: Step) {
    match step
    case Calloc(_) => st.main.Starting?
    case Create(_) => st.main.Creating? && |st.workers| < st.n
    case AllCreated => st.main.Creating? && |st.workers| >= st.n
    case Join => st.main.Joining? && st.main.i < |st.workers| && st.workers[st.main.i].Done?
    case JoinFails => st.main.Joining? && st.main.i < |st.workers|
    case Return => st.main.Joining? && st.main.i >= |st.workers|
    case TestFlag(w) => w < |st.workers| && st.workers[w].Loop?
    case AllocOk(w, s) => w < |st.workers| && st.workers[w].Allocating? && s !in st.live
    case AllocFails(w) => w < |st.workers| && st.workers[w].Allocating?
    case Wake(w) => w < |st.workers| && (st.workers[w].Sleeping? || st.workers[w].Failed?)
    case FreeReturns(w, _) => w < |st.workers| && st.workers[w].Freeing?
  }

  ghost function Goto(st: State, w: nat, to: Worker): State
    requires w < |st.workers|
  {
    st.(workers := st.workers[w := to])
  }

  ghost function Apply(st: State, step: Step): State
    requires Can(st, step)
  {
    match step
    case Calloc(ok) => if ok then st.(main := Creating) else st.(main := Joining(0), result := -1)
    case Create(ok) =>
      if ok then st.(workers := st.workers + [Loop])
      else st.(main := Joining(0), result := -1, stop := true)
    case AllCreated => st.(main := Joining(0))
    case Join => st.(main := Joining(st.main.i + 1))
    case JoinFails => st.(main := Joining(st.main.i + 1), result := -1, unjoined := st.unjoined + {st.main.i})
    case Return => st.(main := Returned)
    case TestFlag(w) => Goto(st, w, if st.stop then Done else Allocating)
    case AllocOk(w, s) => Goto(st, w, Sleeping(s)).(live := st.live + {s})
    case AllocFails(w) => Goto(st, w, Failed)
    case Wake(w) => Goto(st, w, if st.workers[w].Sleeping? then Freeing(st.workers[w].s) else Loop)
    case FreeReturns(w, ok) =>
      var s := st.workers[w].s;
      if ok then Goto(st, w, Loop).(live := st.live - {s}) else Goto(st, w, Loop).(kept := st.kept + {s})
  }

  ghost predicate Next(st: State, st': State) {
    exists step :: Can(st, step) && st' == Apply(st, step)
  }

  ghost predicate Init(st: State) {
    st.main == Starting && st.workers == [] && !st.stop && st.result == 0
    && st.live == {} && st.kept == {} && st.unjoined == {}
  }

  ghost predicate Run(run: seq<State>) {
    && |run| > 0 && Init(run[0])
    && forall k :: 0 <= k < |run| - 1 ==> Next(run[k], run[k + 1])
  }

  predicate Owns(w: Worker) { w.Sleeping? || w.Freeing? }

  predicate ReadsArgs(w: Worker) { !w.Loop? && !w.Done? }

  ghost predicate OwnInv(st: State) {
    && st.kept <= st.live
    && (forall w :: 0 <= w < |st.workers| && Owns(st.workers[w]) ==>
          st.workers[w].s in st.live && st.workers[w].s !in st.kept)
    && (forall v, w :: 0 <= v < w < |st.workers| && Owns(st.workers[v]) && Owns(st.workers[w]) ==>
          st.workers[v].s != st.workers[w].s)
    && (forall s :: s in st.live && s !in st.kept ==>
          exists w :: 0 <= w < |st.workers| && Owns(st.workers[w]) && st.workers[w].s == s)
  }

  ghost predicate JoinInv(st: State) {
    && (st.main.Starting? ==> st.workers == [])
    && (st.main.Starting? || st.main.Creating? ==> st.unjoined == {} && st.result == 0 && !st.stop)
    && (st.main.Creating? ==> |st.workers| <= if st.n < 0 then 0 else st.n)
    && (st.main.Joining? ==>
         (st.main.i <= |st.workers| && forall k :: 0 <= k < st.main.i ==> k in st.unjoined || st.workers[k].Done?))
    && (st.main.Returned? ==> forall k :: 0 <= k < |st.workers| ==> k in st.unjoined || st.workers[k].Done?)
    && (forall k :: k in st.unjoined ==> k < |st.workers|)
    && (forall k :: 0 <= k < |st.workers| && st.workers[k].Done? ==> st.stop)
    && (st.stop ==> st.result == -1)
    && (st.result == 0 ==> st.unjoined == {})
    && ((st.main.Joining? || st.main.Returned?) && st.result == 0 ==> |st.workers| >= st.n)
  }

  ghost predicate Inv(st: State) { OwnInv(st) && JoinInv(st) }

  /** Worker w moves without gaining or losing a stack. */
  lemma OwnMoves(st: State, st': State, w: nat)
    requires OwnInv(st) && w < |st.workers| == |st'.workers|
    requires st'.workers == st.workers[w := st'.workers[w]] && st'.live == st.live && st'.kept == st.kept
    requires Owns(st'.workers[w]) == Owns(st.workers[w])
    requires Owns(st.workers[w]) ==> st'.workers[w].s == st.workers[w].s
    ensures OwnInv(st')
  {
    forall s | s in st'.live && s !in st'.kept
      ensures exists v :: 0 <= v < |st'.workers| && Owns(st'.workers[v]) && st'.workers[v].s == s
    {
      var v :| 0 <= v < |st.workers| && Owns(st.workers[v]) && st.workers[v].s == s;
      assert Owns(st'.workers[v]);
    }
  }

  lemma OwnAlloc(st: State, w: nat, s: Ptr)
    requires OwnInv(st) && Can(st, AllocOk(w, s))
    ensures OwnInv(Apply(st, AllocOk(w, s)))
  {
    var st' := Apply(st, AllocOk(w, s));
    forall r | r in st'.live && r !in st'.kept
      ensures exists v :: 0 <= v < |st'.workers| && Owns(st'.workers[v]) && st'.workers[v].s == r
    {
      if r == s {
        assert Owns(st'.workers[w]);
      } else {
        var v :| 0 <= v < |st.workers| && Owns(st.workers[v]) && st.workers[v].s == r;
        assert Owns(st'.workers[v]);
      }
    }
  }

  lemma OwnFree(st: State, w: nat, ok: bool)
    requires OwnInv(st) && Can(st, FreeReturns(w, ok))
    ensures OwnInv(Apply(st, FreeReturns(w, ok)))
  {
    var st' := Apply(st, FreeReturns(w, ok));
    forall r | r in st'.live && r !in st'.kept
      ensures exists v :: 0 <= v < |st'.workers| && Owns(st'.workers[v]) && st'.workers[v].s == r
    {
      var v :| 0 <= v < |st.workers| && Owns(st.workers[v]) && st.workers[v].s == r;
      assert v != w && Owns(st'.workers[v]);
    }
  }

  lemma OwnCreate(st: State)
    requires OwnInv(st) && Can(st, Create(true))
    ensures OwnInv(Apply(st, Create(true)))
  {
    var st' := Apply(st, Create(true));
    forall r | r in st'.live && r !in st'.kept
      ensures exists v :: 0 <= v < |st'.workers| && Owns(st'.workers[v]) && st'.workers[v].s == r
    {
      var v :| 0 <= v < |st.workers| && Owns(st.workers[v]) && st.workers[v].s == r;
      assert st'.workers[v] == st.workers[v];
    }
  }

  lemma OwnStep(st: State, step: Step)
    requires OwnInv(st) && Can(st, step)
    ensures OwnInv(Apply(st, step))
  {
    match step
    case Create(ok) => if ok { OwnCreate(st); }
    case TestFlag(w) => OwnMoves(st, Apply(st, step), w);
    case AllocOk(w, s) => OwnAlloc(st, w, s);
    case AllocFails(w) => OwnMoves(st, Apply(st, step), w);
    case Wake(w) => OwnMoves(st, Apply(st, step), w);
    case FreeReturns(w, ok) => OwnFree(st, w, ok);
    case Calloc(_) =>
    case AllCreated =>
    case Join =>
    case JoinFails =>
    case Return =>
  }

  lemma JoinMainStep(st: State, step: Step)
    requires JoinInv(st) && Can(st, step)
    requires step.Calloc? || step.Create? || step.AllCreated? || step.Join? || step.JoinFails? || step.Return?
    ensures JoinInv(Apply(st, step))
  {
  }

  lemma JoinThreadStep(st: State, step: Step)
    requires JoinInv(st) && Can(st, step)
    requires step.TestFlag? || step.AllocOk? || step.AllocFails? || step.Wake? || step.FreeReturns?
    ensures JoinInv(Apply(st, step))
  {
  }

  lemma JoinStep(st: State, step: Step)
    requires JoinInv(st) && Can(st, step)
    ensures JoinInv(Apply(st, step))
  {
    if step.TestFlag? || step.AllocOk? || step.AllocFails? || step.Wake? || step.FreeReturns? {
      JoinThreadStep(st, step);
    } else {
      JoinMainStep(st, step);
    }
  }

  lemma {:induction false} RunInv(run: seq<State>, k: nat)
    requires Run(run) && k < |run|
    ensures Inv(run[k]) && run[k].n == run[0].n
  {
    if k > 0 {
      RunInv(run, k - 1);
      assert Next(run[k - 1], run[k - 1 + 1]);
      var step :| Can(run[k - 1], step) && run[k] == Apply(run[k - 1], step);
      OwnStep(run[k - 1], step);
      JoinStep(run[k - 1], step);
    }
  }

  /** In every interleaving: a thread owns at most one stack and no two own the same, and every
      stack that was ever allocated is owned by a thread unless its free was attempted. Once the
      spawner has returned, every thread it joined is over, so thread_args is read by none of them,
      and every such thread's stacks went through zf_stack_free(). */
  lemma SpawnerSafety(run: seq<State>, k: nat)
    requires Run(run) && k < |run|
    ensures var st := run[k];
            && (forall s :: s in st.live - st.kept <==>
                 exists w :: 0 <= w < |st.workers| && Owns(st.workers[w]) && st.workers[w].s == s)
            && (forall v, w :: 0 <= v < w < |st.workers| && Owns(st.workers[v]) && Owns(st.workers[w]) ==>
                 st.workers[v].s != st.workers[w].s)
            && (st.main.Returned? ==> forall w :: 0 <= w < |st.workers| && w !in st.unjoined ==> st.workers[w].Done?)
            && (st.main.Returned? && st.unjoined == {} ==>
                 (forall w :: 0 <= w < |st.workers| ==> !ReadsArgs(st.workers[w])) && st.live == st.kept)
  {
    RunInv(run, k);
    var st := run[k];
    if st.main.Returned? && st.unjoined == {} {
      assert forall w :: 0 <= w < |st.workers| ==> !Owns(st.workers[w]);
    }
  }

  /** Success is reported only when there was nothing to spawn: otherwise the flag is never set and
      the threads never end, unless creating one of them fails. */
  lemma ReturnValue(run: seq<State>, k: nat)
    requires Run(run) && k < |run| && run[k].main.Returned?
    ensures run[k].result == 0 ==> run[k].n <= 0 && run[k].workers == []
    ensures run[k].result == 0 || run[k].result == -1
  {
    RunInv(run, k);
    ResultValues(run, k);
    var st := run[k];
    assert st.workers != [] && st.workers[0].Done? ==> st.stop;
  }

  lemma {:induction false} ResultValues(run: seq<State>, k: nat)
    requires Run(run) && k < |run|
    ensures run[k].result == 0 || run[k].result == -1
  {
    if k > 0 {
      ResultValues(run, k - 1);
      assert Next(run[k - 1], run[k - 1 + 1]);
    }
  }

  /** Which stacks are live, and which were not freed although that was tried, changes only in the calls of the
      library; a thread that got a stack calls zf_stack_free() with just that one. */
  lemma LiveIsWhatTheLibrarySays(st: State, step: Step)
    requires OwnInv(st) && Can(st, step)
    ensures var st' := Apply(st, step);
            match step
            case AllocOk(w, s) => s !in st.live && st'.live == st.live + {s} && st'.workers[w] == Sleeping(s)
            case FreeReturns(w, ok) =>
              var s := st.workers[w].s;
              s in st.live && (if ok then st'.live == st.live - {s} && st'.kept == st.kept
                               else st'.live == st.live && st'.kept == st.kept + {s})
            case _ => st'.live == st.live && st'.kept == st.kept
  {
  }

  /** Every thread can go on: it tests the flag, calls the library, and waits. It ends at the first test of the
      flag after it was set, and never before. */
  lemma ThreadGoesOn(st: State, w: nat) returns (step: Step)
    requires w < |st.workers| && !st.workers[w].Done?
    ensures Can(st, step)
    ensures var now := Apply(st, step).workers[w];
            match st.workers[w]
            case Loop => now == if st.stop then Done else Allocating
            case Allocating => now == Failed
            case Failed => now == Loop
            case Sleeping(s) => now == Freeing(s)
            case Freeing(_) => now == Loop
            case Done => true
  {
    match st.workers[w]
    case Loop => step := TestFlag(w);
    case Allocating => step := AllocFails(w);
    case Failed => step := Wake(w);
    case Sleeping(_) => step := Wake(w);
    case Freeing(_) => step := FreeReturns(w, true);
  }

  // ---------------------------------------------------------------- failing joins

  /** The spawner created m threads and returned, and exactly the joins of the threads in fails failed. */
  ghost predicate Returns(run: seq<State>, m: nat, fails: set<nat>) {
    && Run(run)
    && var st := run[|run| - 1]; st.main.Returned? && |st.workers| == m && st.unjoined == fails
  }

  /** Every thread is over, so none reads thread_args, and no stack was left without an attempt to free it. */
  ghost predicate Over(st: State) {
    (forall w :: 0 <= w < |st.workers| ==> st.workers[w].Done?) && st.live == st.kept
  }

  lemma Extend(run: seq<State>, step: Step) returns (longer: seq<State>)
    requires Run(run) && Can(run[|run| - 1], step)
    ensures Run(longer) && |longer| == |run| + 1 && longer[|run|] == Apply(run[|run| - 1], step)
  {
    longer := run + [Apply(run[|run| - 1], step)];
    forall k | 0 <= k < |longer| - 1
      ensures Next(longer[k], longer[k + 1])
    {
      assert k < |run| - 1 ==> Next(run[k], run[k + 1]);
    }
  }

  /** Thread w after its creation: in its first alloc when its join will fail, else still before the loop. */
  function Begun(w: nat, fails: set<nat>): Worker { if w in fails then Allocating else Loop }

  /** Creating m threads, of which those in fails get as far as their first alloc. */
  lemma {:induction false} CreatesAll(m: nat, fails: set<nat>) returns (run: seq<State>)
    ensures Run(run)
    ensures run[|run| - 1] == State(m + 1, Creating, seq(m, w requires 0 <= w < m => Begun(w, fails)), false, 0, {}, {}, {})
  {
    var st := State(m + 1, Starting, [], false, 0, {}, {}, {});
    run := [st];
    run := Extend(run, Calloc(true));
    var k: nat := 0;
    while k < m
      invariant k <= m && Run(run)
      invariant run[|run| - 1] == State(m + 1, Creating, seq(k, w requires 0 <= w < k => Begun(w, fails)), false, 0, {}, {}, {})
    {
      run := Extend(run, Create(true));
      if k in fails {
        run := Extend(run, TestFlag(k));
      }
      k := k + 1;
      assert run[|run| - 1].workers == seq(k, w requires 0 <= w < k => Begun(w, fails));
    }
  }

  /** Thread w at the end. */
  function Ended(w: nat, fails: set<nat>): Worker { if w in fails then Allocating else Done }

  /** Thread w when the first k were joined, or failed to be. */
  function Joined(w: nat, k: nat, fails: set<nat>): Worker { if w < k then Ended(w, fails) else Begun(w, fails) }

  /** Whatever joins fail, there is a run in which all these threads still read thread_args afterwards. */
  lemma {:induction false} FailedJoinsDangle(m: nat, fails: set<nat>) returns (run: seq<State>)
    requires forall w :: w in fails ==> w < m
    ensures Returns(run, m, fails)
    ensures forall w :: w in fails ==> ReadsArgs(run[|run| - 1].workers[w])
  {
    run := CreatesAll(m, fails);
    run := Extend(run, Create(false));
    var k: nat := 0;
    ghost var failed: set<nat> := {};
    assert run[|run| - 1].workers == seq(m, w requires 0 <= w < m => Joined(w, 0, fails));
    while k < m
      invariant k <= m && Run(run) && failed == set w | w in fails && w < k
      invariant run[|run| - 1] ==
                State(m + 1, Joining(k), seq(m, w requires 0 <= w < m => Joined(w, k, fails)), true, -1, {}, {}, failed)
    {
      if k in fails {
        run := Extend(run, JoinFails);
        failed := failed + {k};
      } else {
        run := Extend(run, TestFlag(k));
        run := Extend(run, Join);
      }
      k := k + 1;
      assert run[|run| - 1].workers == seq(m, w requires 0 <= w < m => Joined(w, k, fails));
    }
    assert failed == fails;
    run := Extend(run, Return);
  }

  /** "The spawner never returns while a created thread still runs" holds exactly when no join fails: for
      every set of failing joins, all the runs in which just these fail end with every thread over if and
      only if the set is empty. */
  lemma SafeIffAllJoined(m: nat, fails: set<nat>)
    requires forall w :: w in fails ==> w < m
    ensures (forall run :: Returns(run, m, fails) ==> Over(run[|run| - 1])) <==> fails == {}
  {
    if fails == {} {
      forall run | Returns(run, m, fails)
        ensures Over(run[|run| - 1])
      {
        SpawnerSafety(run, |run| - 1);
      }
    } else {
      var run := FailedJoinsDangle(m, fails);
      var w :| w in fails;
      assert !Over(run[|run| - 1]);
    }
  }
}
