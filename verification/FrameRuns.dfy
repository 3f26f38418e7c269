/**
 Runs of the frame allocator on values: one state for each frame. What is reserved is never handed out, and what was
 handed out is not handed out again before it is freed.
 */
module FrameRuns {
  import opened FrameAllocator
  import opened Options

  datatype Pool = Pool(basePfn: nat, states: seq<FrameState>)

  datatype Op =
    | Init(basePaddr: nat, limitPaddr: nat, bitmapStart: nat)
    | MarkReserved(first: nat, last: int)
    | AllocateFrame(count: nat)
    | FreeFrame(pfn: nat, number: nat)

  /** Given: the first of the frames handed out. NotCalled: there is no pool yet. */
  datatype Outcome = Done(status: Status) | Given(pfn: nat) | NotCalled

  /** The start of the lowest run of `n` free frames from place `j` on. */
  ghost function LowestRun(s: seq<FrameState>, n: nat, j: nat): (r: Option<nat>)
    ensures r.Some? ==> j <= r.value && FreeRun(s, r.value, n) && forall i: nat | j <= i < r.value :: !FreeRun(s, i, n)
    ensures r.None? ==> forall i: nat | j <= i :: !FreeRun(s, i, n)
    decreases |s| - j
  {
    if j > |s| then None else if FreeRun(s, j, n) then Some(j) else LowestRun(s, n, j + 1)
  }

  function AllFree(n: nat): (s: seq<FrameState>)
    ensures |s| == n && forall i | 0 <= i < n :: s[i].Free?
  {
    seq(n, _ => Free)
  }

  /** What the bitmap and everything below it leaves. */
  function FreshPool(basePaddr: nat, limitPaddr: nat, bitmapStart: nat): (Pool, Status)
    requires basePaddr <= limitPaddr
  {
    var basePfn := basePaddr / PAGE_SIZE;
    var free := AllFree(limitPaddr / PAGE_SIZE - basePfn + 1);
    var last := bitmapStart + BitmapSize(basePaddr, limitPaddr) - 1;
    if last < basePaddr then (Pool(basePfn, free), InvalidValue)
    else (Pool(basePfn, ReserveRun(free, 0, last / PAGE_SIZE - basePfn + 1)), Success)
  }

  ghost function Step(pool: Option<Pool>, op: Op): (Option<Pool>, Outcome) {
    if op.Init? then
      if op.limitPaddr < op.basePaddr then (pool, Done(InvalidValue)) else
        var (p, status) := FreshPool(op.basePaddr, op.limitPaddr, op.bitmapStart);
        (Some(p), Done(status))
    else if pool.None? then (None, NotCalled) else
      var Pool(basePfn, s) := pool.value;
      match op
      case MarkReserved(first, last) =>
        if last < first then (pool, Done(InvalidValue))
        else
          var reserved := ReserveRun(s, first / PAGE_SIZE - basePfn, last / PAGE_SIZE - basePfn + 1);
          (Some(Pool(basePfn, reserved)), Done(Success))
      case AllocateFrame(count) =>
        if count == 0 then (pool, Done(InvalidValue)) else
          var run := LowestRun(s, count, 0);
          if run.None? then (pool, Done(InsufficientMemory))
          else (Some(Pool(basePfn, TakeRun(s, run.value, count))), Given(basePfn + run.value))
      case FreeFrame(pfn, number) =>
        if basePfn <= pfn < basePfn + |s| then
          (Some(Pool(basePfn, ReleaseRun(s, pfn - basePfn, number))), Done(Success))
        else (pool, Done(Success))
  }

  ghost function RunOf(ops: seq<Op>): (r: (Option<Pool>, seq<Outcome>))
    ensures |r.1| == |ops|
    decreases |ops|
  {
    if ops == [] then (None, []) else
      var before := RunOf(ops[..|ops| - 1]);
      var last := Step(before.0, ops[|ops| - 1]);
      (last.0, before.1 + [last.1])
  }

  // ---------- The bitmap follows ----------

  ghost predicate Follows(a: Allocator?, pool: Option<Pool>)
    reads a, if a == null then {} else {a.bitmap}
  {
    if a == null then pool.None? else a.Valid() && pool == Some(Pool(a.basePfn, a.States()))
  }

  lemma LowestIs(s: seq<FrameState>, n: nat, start: nat)
    requires FreeRun(s, start, n) && forall j: nat | j < start :: !FreeRun(s, j, n)
    ensures LowestRun(s, n, 0) == Some(start)
  {
  }

  /** mm_pma_init makes a new pool, also when it refuses the place of the bitmap. */
  method Setup(a: Allocator?, basePaddr: nat, limitPaddr: nat, bitmapStart: nat, ghost pool: Option<Pool>)
    returns (b: Allocator?, outcome: Outcome)
    requires Follows(a, pool)
    ensures (b == a && limitPaddr < basePaddr) || (b != null && fresh(b) && fresh(b.bitmap))
    ensures Follows(b, Step(pool, Init(basePaddr, limitPaddr, bitmapStart)).0)
    ensures outcome == Step(pool, Init(basePaddr, limitPaddr, bitmapStart)).1
  {
    var status, made := Allocator.Init(basePaddr, limitPaddr, bitmapStart);
    if made == null {
      return a, Done(status);
    }
    b := made;
    assert b.States() == FreshPool(basePaddr, limitPaddr, bitmapStart).0.states;
    outcome := Done(status);
  }

  method Call(a: Allocator, op: Op, ghost pool: Option<Pool>) returns (outcome: Outcome)
    requires Follows(a, pool) && !op.Init?
    modifies a, a.bitmap
    ensures Follows(a, Step(pool, op).0) && outcome == Step(pool, op).1
  {
    hide ReserveRun, TakeRun, ReleaseRun, LowestRun, FreeRun;
    match op
    case MarkReserved(first, last) =>
      var status := a.MarkReserved(first, last);
      outcome := Done(status);
    case AllocateFrame(count) =>
      ghost var s := a.States();
      var status, pfn := a.AllocateFrame(count);
      if status.Success? {
        LowestIs(s, count, pfn - a.basePfn);
      } else if count > 0 {
        assert LowestRun(s, count, 0).None?;
      }
      outcome := if status.Success? then Given(pfn) else Done(status);
    case FreeFrame(pfn, number) =>
      a.FreeFrame(pfn, number);
      outcome := Done(Success);
  }

  lemma NoPool(pool: Option<Pool>, op: Op)
    requires Follows(null, pool) && !op.Init?
    ensures Step(pool, op) == (pool, NotCalled)
  {
  }

  /** Any run on the packed bitmap is the run on one state for each frame, and the free count is exact. */
  method Run(ops: seq<Op>) returns (a: Allocator?, outcomes: seq<Outcome>)
    ensures a == null <==> RunOf(ops).0.None?
    ensures a != null ==> a.Valid() && RunOf(ops).0 == Some(Pool(a.basePfn, a.States()))
    ensures a != null ==> a.freeFrames == CountFree(a.States())
    ensures outcomes == RunOf(ops).1
  {
    a, outcomes := null, [];
    for k := 0 to |ops|
      invariant a != null ==> fresh(a) && fresh(a.bitmap)
      invariant Follows(a, RunOf(ops[..k]).0) && outcomes == RunOf(ops[..k]).1
    {
      hide Step, Follows;
      assert ops[..k + 1][..k] == ops[..k];
      var outcome;
      ghost var pool := RunOf(ops[..k]).0;
      if ops[k].Init? {
        a, outcome := Setup(a, ops[k].basePaddr, ops[k].limitPaddr, ops[k].bitmapStart, pool);
      } else if a == null {
        NoPool(pool, ops[k]);
        outcome := NotCalled;
      } else {
        outcome := Call(a, ops[k], pool);
      }
      outcomes := outcomes + [outcome];
    }
    assert ops[..|ops|] == ops;
  }

  // ---------- What a run guarantees ----------

  ghost predicate InState(pool: Option<Pool>, pfn: nat, f: FrameState) {
    pool.Some? && pool.value.basePfn <= pfn < pool.value.basePfn + |pool.value.states| &&
    pool.value.states[pfn - pool.value.basePfn] == f
  }

  /** The frames that an operation hands out. */
  predicate HandsOut(op: Op, outcome: Outcome, pfn: nat) {
    op.AllocateFrame? && outcome.Given? && outcome.pfn <= pfn < outcome.pfn + op.count
  }

  predicate Frees(op: Op, pfn: nat) {
    op.FreeFrame? && op.pfn <= pfn < op.pfn + op.number
  }

  /** A frame handed out was free, and is allocated then. */
  lemma HandedOutWasFree(pool: Option<Pool>, op: Op, pfn: nat)
    requires HandsOut(op, Step(pool, op).1, pfn)
    ensures InState(pool, pfn, Free) && InState(Step(pool, op).0, pfn, Allocated)
  {
  }

  lemma OnlyFreeHandedOut(pool: Option<Pool>, op: Op, pfn: nat)
    ensures HandsOut(op, Step(pool, op).1, pfn) ==> InState(pool, pfn, Free) && !InState(pool, pfn, Reserved)
  {
    if HandsOut(op, Step(pool, op).1, pfn) {
      HandedOutWasFree(pool, op, pfn);
    }
  }

  /** An operation has the same outcome in a longer run. */
  lemma {:induction false} OutcomeKept(ops: seq<Op>, k: nat)
    requires k < |ops|
    ensures RunOf(ops).1[k] == RunOf(ops[..k + 1]).1[k]
    decreases |ops|
  {
    hide Step;
    if k + 1 < |ops| {
      var before := ops[..|ops| - 1];
      OutcomeKept(before, k);
      assert before[..k + 1] == ops[..k + 1];
      assert RunOf(ops).1[k] == RunOf(before).1[k];
    } else {
      assert ops[..k + 1] == ops;
    }
  }

  lemma LastStep(ops: seq<Op>, k: nat)
    requires k < |ops|
    ensures RunOf(ops[..k + 1]).0 == Step(RunOf(ops[..k]).0, ops[k]).0
    ensures RunOf(ops[..k + 1]).1[k] == Step(RunOf(ops[..k]).0, ops[k]).1
  {
    hide Step;
    assert ops[..k + 1][..k] == ops[..k];
  }

  lemma OneStep(ops: seq<Op>, k: nat)
    requires k < |ops|
    ensures RunOf(ops[..k + 1]).0 == Step(RunOf(ops[..k]).0, ops[k]).0
    ensures RunOf(ops).1[k] == Step(RunOf(ops[..k]).0, ops[k]).1
  {
    hide RunOf, Step;
    OutcomeKept(ops, k);
    LastStep(ops, k);
  }

  lemma StillReserved(pool: Option<Pool>, op: Op, pfn: nat)
    requires InState(pool, pfn, Reserved) && !op.Init?
    ensures InState(Step(pool, op).0, pfn, Reserved)
  {
  }

  /** Reserved frames stay reserved until the allocator is set up again. */
  lemma {:induction false} ReservedStays(ops: seq<Op>, i: nat, k: nat, pfn: nat)
    requires i <= k <= |ops| && InState(RunOf(ops[..i]).0, pfn, Reserved)
    requires forall j | i <= j < k :: !ops[j].Init?
    ensures InState(RunOf(ops[..k]).0, pfn, Reserved)
    decreases k
  {
    hide Step, InState, RunOf;
    if i < k {
      ReservedStays(ops, i, k - 1, pfn);
      OneStep(ops, k - 1);
      StillReserved(RunOf(ops[..k - 1]).0, ops[k - 1], pfn);
    }
  }

  /** So they are not handed out. */
  lemma ReservedNotHandedOut(ops: seq<Op>, i: nat, k: nat, pfn: nat)
    requires i <= k < |ops| && InState(RunOf(ops[..i]).0, pfn, Reserved)
    requires forall j | i <= j < k :: !ops[j].Init?
    ensures !HandsOut(ops[k], RunOf(ops).1[k], pfn)
  {
    hide Step, RunOf, InState, HandsOut;
    ReservedStays(ops, i, k, pfn);
    OneStep(ops, k);
    OnlyFreeHandedOut(RunOf(ops[..k]).0, ops[k], pfn);
  }

  lemma StillAllocated(pool: Option<Pool>, op: Op, pfn: nat)
    requires InState(pool, pfn, Allocated) || InState(pool, pfn, Reserved)
    requires !op.Init? && !Frees(op, pfn)
    ensures var pool' := Step(pool, op).0; InState(pool', pfn, Allocated) || InState(pool', pfn, Reserved)
  {
  }

  lemma {:induction false} AllocatedStays(ops: seq<Op>, i: nat, k: nat, pfn: nat)
    requires i < k <= |ops| && HandsOut(ops[i], RunOf(ops).1[i], pfn)
    requires forall j | i < j < k :: !ops[j].Init? && !Frees(ops[j], pfn)
    ensures InState(RunOf(ops[..k]).0, pfn, Allocated) || InState(RunOf(ops[..k]).0, pfn, Reserved)
    decreases k
  {
    hide Step, RunOf;
    OneStep(ops, k - 1);
    if i + 1 < k {
      AllocatedStays(ops, i, k - 1, pfn);
      StillAllocated(RunOf(ops[..k - 1]).0, ops[k - 1], pfn);
    } else {
      HandedOutWasFree(RunOf(ops[..i]).0, ops[i], pfn);
    }
  }

  /** A frame is not handed out again before it is freed or the allocator is set up again. */
  lemma NotHandedOutTwice(ops: seq<Op>, i: nat, k: nat, pfn: nat)
    requires i < k < |ops| && HandsOut(ops[i], RunOf(ops).1[i], pfn) && HandsOut(ops[k], RunOf(ops).1[k], pfn)
    ensures exists j :: i < j < k && (ops[j].Init? || Frees(ops[j], pfn))
  {
    hide Step, RunOf;
    OneStep(ops, k);
    HandedOutWasFree(RunOf(ops[..k]).0, ops[k], pfn);
    if forall j | i < j < k :: !ops[j].Init? && !Frees(ops[j], pfn) {
      AllocatedStays(ops, i, k, pfn);
    }
  }
}
