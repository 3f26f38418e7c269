/**
 The physical frame allocator: two bits of state per frame, packed four frames to a byte.
 */
module FrameAllocator {

  const PAGE_SIZE := 4096

  datatype Status = Success | InvalidValue | InsufficientMemory | PageNotPresent | ConflictingState

  datatype FrameState = Free | Allocated | Reserved

  // ---------- Runs of frames ----------

  ghost predicate FreeRun(s: seq<FrameState>, start: nat, n: nat) {
    start + n <= |s| && forall i | start <= i < start + n :: s[i].Free?
  }

  function CountFree(s: seq<FrameState>): nat {
    if s == [] then 0 else (if s[|s| - 1].Free? then 1 else 0) + CountFree(s[..|s| - 1])
  }

  /** s with the frames start, ..., start + n - 1 handed out. */
  function TakeRun(s: seq<FrameState>, start: nat, n: nat): (r: seq<FrameState>)
    ensures |r| == |s|
  {
    seq(|s|, i requires 0 <= i < |s| => if start <= i < start + n then Allocated else s[i])
  }

  /** s with the allocated frames among start, ..., start + n - 1 returned. */
  function ReleaseRun(s: seq<FrameState>, start: nat, n: nat): (r: seq<FrameState>)
    ensures |r| == |s|
  {
    seq(|s|, i requires 0 <= i < |s| => if start <= i < start + n && s[i].Allocated? then Free else s[i])
  }

  /** s with the frames lo, ..., hi - 1 reserved. */
  function ReserveRun(s: seq<FrameState>, lo: int, hi: int): (r: seq<FrameState>)
    ensures |r| == |s|
  {
    seq(|s|, i requires 0 <= i < |s| => if lo <= i < hi then Reserved else s[i])
  }

  lemma {:induction false} CountUpdate(s: seq<FrameState>, i: nat, x: FrameState)
    requires i < |s|
    ensures CountFree(s[i := x])
         == CountFree(s) + (if x.Free? then 1 else 0) - (if s[i].Free? then 1 else 0)
    decreases |s|
  {
    var last := |s| - 1;
    if i < last {
      CountUpdate(s[..last], i, x);
      assert s[i := x][..last] == s[..last][i := x];
    } else {
      assert s[i := x][..last] == s[..last];
    }
  }

  lemma {:induction false} CountTaken(s: seq<FrameState>, start: nat, n: nat)
    requires FreeRun(s, start, n)
    ensures CountFree(TakeRun(s, start, n)) + n == CountFree(s)
    decreases n
  {
    if n == 0 {
      assert TakeRun(s, start, 0) == s;
    } else {
      var less := TakeRun(s, start, n - 1);
      CountTaken(s, start, n - 1);
      CountUpdate(less, start + n - 1, Allocated);
      assert TakeRun(s, start, n) == less[start + n - 1 := Allocated];
    }
  }

  /** Returning what was just handed out restores the earlier states. */
  lemma ReleaseUndoesTake(s: seq<FrameState>, start: nat, n: nat)
    requires FreeRun(s, start, n)
    ensures ReleaseRun(TakeRun(s, start, n), start, n) == s
    ensures CountFree(TakeRun(s, start, n)) + n == CountFree(s)
  {
    CountTaken(s, start, n);
  }

  /** One frame more of a range, by the rule of mm_pma_mark_reserved and of mm_pma_free_frame. */
  lemma OneFrameMore(s: seq<FrameState>, start: nat, n: nat)
    requires start + n < |s|
    ensures var r, i := ReserveRun(s, start, start + n), start + n;
            r[i] == s[i] && ReserveRun(s, start, i + 1) == r[i := Reserved]
    ensures var r, i := ReleaseRun(s, start, n), start + n;
            r[i] == s[i] && ReleaseRun(s, start, n + 1) == if s[i].Allocated? then r[i := Free] else r
  {
  }

  /** Only the part of a range that lies on the frames matters. */
  lemma ReserveClamped(s: seq<FrameState>, lo: int, hi: int)
    ensures var lo', hi' := if lo < 0 then 0 else lo, if hi > |s| then |s| else hi;
            && ReserveRun(s, lo', hi') == ReserveRun(s, lo, hi)
            && (hi' <= lo' ==> ReserveRun(s, lo, hi) == s)
    ensures var lo' := if lo < 0 then 0 else lo; ReserveRun(s, lo', lo') == s
  {
  }

  // ---------- Two bits per frame ----------

  function ShiftRight(b: bv8, slot: nat): bv8
    requires slot < 4
  {
    match slot
    case 0 => b
    case 1 => b >> 2
    case 2 => b >> 4
    case 3 => b >> 6
  }

  function ShiftLeft(b: bv8, slot: nat): bv8
    requires slot < 4
  {
    match slot
    case 0 => b
    case 1 => b << 2
    case 2 => b << 4
    case 3 => b << 6
  }

  function GetBits(b: bv8, slot: nat): bv8
    requires slot < 4
  {
    ShiftRight(b, slot) & 3
  }

  function SetBits(b: bv8, slot: nat, val: bv8): bv8
    requires slot < 4
  {
    (b & !ShiftLeft(3, slot)) | ShiftLeft(val, slot)
  }

  lemma SetThenGetAt(b: bv8, i: nat, j: nat, val: bv8)
    requires i < 4 && j < 4 && val < 4
    ensures GetBits(SetBits(b, i, val), j) == if i == j then val else GetBits(b, j)
  {
    if j == 0 {
    } else if j == 1 {
    } else if j == 2 {
    } else {
    }
  }

  lemma SetThenGet(b: bv8, i: nat, j: nat, val: bv8)
    requires i < 4 && j < 4 && val < 4
    ensures GetBits(SetBits(b, i, val), j) == if i == j then val else GetBits(b, j)
  {
    match i
    case 0 => SetThenGetAt(b, 0, j, val);
    case 1 => SetThenGetAt(b, 1, j, val);
    case 2 => SetThenGetAt(b, 2, j, val);
    case 3 => SetThenGetAt(b, 3, j, val);
  }

  /** PBM_FREE, PBM_ALLOCATED, PBM_RESERVED. */
  function Code(f: FrameState): (c: bv8)
    ensures c < 3
  {
    match f
    case Free => 0
    case Allocated => 1
    case Reserved => 2
  }

  function Meaning(c: bv8): FrameState {
    if c == 0 then Free else if c == 1 then Allocated else Reserved
  }

  function BitmapSize(basePaddr: nat, limitPaddr: nat): nat
    requires basePaddr <= limitPaddr
  {
    (limitPaddr / PAGE_SIZE - basePaddr / PAGE_SIZE + 4) / 4
  }

  lemma {:induction false} AllFree(s: seq<FrameState>)
    requires forall i | 0 <= i < |s| :: s[i].Free?
    ensures CountFree(s) == |s|
  {
    if s != [] {
      AllFree(s[..|s| - 1]);
    }
  }

  class Allocator {
    const bitmap: array<bv8>
    const basePfn: nat
    const limitPfn: nat
    var freeFrames: nat

    function Count(): int {
      limitPfn - basePfn + 1
    }

    /** PBM_GET, for frame number i counted from the base. */
    function Get(i: nat): FrameState
      requires i / 4 < bitmap.Length
      reads bitmap
    {
      Meaning(GetBits(bitmap[i / 4], i % 4))
    }

    /** One state per frame. */
    function States(): (s: seq<FrameState>)
      requires 0 <= Count() <= 4 * bitmap.Length
      reads bitmap
      ensures |s| == Count()
    {
      seq(Count(), i requires 0 <= i < Count() reads bitmap => Get(i))
    }

    ghost predicate Valid()
      reads this, bitmap
    {
      && basePfn <= limitPfn
      && bitmap.Length == (Count() + 3) / 4
      && freeFrames == CountFree(States())
    }

    ghost predicate InRange(pfn: nat) {
      basePfn <= pfn <= limitPfn
    }

    /** PBM_SET. */
    method Set(i: nat, f: FrameState)
      requires basePfn <= limitPfn && i < Count() <= 4 * bitmap.Length
      modifies bitmap
      ensures States() == old(States())[i := f]
    {
      forall j | 0 <= j < Count() && j / 4 == i / 4
        ensures GetBits(SetBits(bitmap[i / 4], i % 4, Code(f)), j % 4)
             == if j == i then Code(f) else GetBits(bitmap[j / 4], j % 4)
      {
        SetThenGet(bitmap[i / 4], i % 4, j % 4, Code(f));
      }
      bitmap[i / 4] := SetBits(bitmap[i / 4], i % 4, Code(f));
    }

    constructor (basePaddr: nat, limitPaddr: nat)
      requires basePaddr <= limitPaddr
      ensures Valid() && fresh(bitmap)
      ensures basePfn == basePaddr / 4096 && limitPfn == limitPaddr / 4096
      ensures forall i | 0 <= i < Count() :: States()[i].Free?
    {
      basePfn, limitPfn := basePaddr / PAGE_SIZE, limitPaddr / PAGE_SIZE;
      var count := limitPaddr / PAGE_SIZE - basePaddr / PAGE_SIZE + 1;
      bitmap, freeFrames := new bv8[(count + 3) / 4](i => 0), count;
      new;
      AllFree(States());
    }

    method ReserveFrame(i: nat)
      requires Valid() && i < Count()
      modifies this, bitmap
      ensures Valid() && States() == old(States())[i := Reserved]
    {
      var state := Get(i);
      assert state == States()[i];
      if state.Reserved? {
        return;
      }
      CountUpdate(States(), i, Reserved);
      if state.Free? && freeFrames > 0 {
        freeFrames := freeFrames - 1;
      }
      Set(i, Reserved);
    }

    /** mm_pma_mark_reserved: every frame that the byte range touches, clamped to the managed ones. */
    method MarkReserved(basePaddr: nat, limitPaddr: int) returns (status: Status)
      requires Valid()
      modifies this, bitmap
      ensures Valid()
      ensures status == if limitPaddr < basePaddr then InvalidValue else Success
      ensures status.InvalidValue? ==> States() == old(States())
      ensures status.Success? ==>
              States() == ReserveRun(old(States()), basePaddr / 4096 - basePfn, limitPaddr / 4096 - basePfn + 1)
    {
      if limitPaddr < basePaddr {
        return InvalidValue;
      }
      hide ReserveRun, CountFree;
      var start, end := basePaddr / PAGE_SIZE, limitPaddr / PAGE_SIZE;
      if start < basePfn {
        start := basePfn;
      }
      if end > limitPfn {
        end := limitPfn;
      }
      var current := start;
      ghost var was := States();
      ReserveClamped(was, basePaddr / PAGE_SIZE - basePfn, limitPaddr / PAGE_SIZE - basePfn + 1);
      while current <= end
        invariant start <= current && (current <= end + 1 || current == start)
        invariant Valid()
        invariant States() == ReserveRun(was, start - basePfn, current - basePfn)
        decreases end - current
      {
        OneFrameMore(was, start - basePfn, current - start);
        ReserveFrame(current - basePfn);
        current := current + 1;
      }
      status := Success;
    }

    /** mm_pma_init: an empty bitmap, except for the frames from the base through the bitmap itself,
        which starts at bitmapStart. */
    static method Init(basePaddr: nat, limitPaddr: nat, bitmapStart: nat)
      returns (status: Status, a: Allocator?)
      ensures status == if limitPaddr < basePaddr then InvalidValue else
                        if bitmapStart + BitmapSize(basePaddr, limitPaddr) - 1 < basePaddr then InvalidValue
                          else Success
      ensures a == null <==> limitPaddr < basePaddr
      ensures a != null ==> fresh(a) && fresh(a.bitmap) && a.Valid()
      ensures a != null ==> a.basePfn == basePaddr / 4096 && a.limitPfn == limitPaddr / 4096
      ensures a != null && !status.Success? ==> forall i | 0 <= i < a.Count() :: a.States()[i].Free?
      ensures status.Success? ==> forall i | 0 <= i < a.Count() ::
                a.States()[i] ==
                if a.basePfn + i <= (bitmapStart + BitmapSize(basePaddr, limitPaddr) - 1) / 4096 then Reserved
                  else Free
    {
      if limitPaddr < basePaddr {
        return InvalidValue, null;
      }
      a := new Allocator(basePaddr, limitPaddr);
      status := a.MarkReserved(basePaddr, bitmapStart + a.bitmap.Length - 1);
    }

    method ReleaseFrame(i: nat)
      requires Valid() && i < Count()
      modifies this, bitmap
      ensures Valid()
      ensures States() == if old(States())[i].Allocated? then old(States())[i := Free] else old(States())
    {
      var state := Get(i);
      assert state == States()[i];
      if state.Allocated? {
        CountUpdate(States(), i, Free);
        Set(i, Free);
        freeFrames := freeFrames + 1;
      }
    }

    lemma StateAt(i: nat)
      requires Valid() && i < Count()
      ensures i / 4 < bitmap.Length && States()[i] == Get(i)
    {
    }

    /** The search of mm_pma_allocate_frame. */
    method FindFreeRun(count: nat) returns (found: bool, start: nat)
      requires Valid() && count > 0
      ensures found <==> exists j: nat :: FreeRun(States(), j, count)
      ensures found ==> FreeRun(States(), start, count)
      ensures found ==> forall j: nat | j < start :: !FreeRun(States(), j, count)
    {
      hide States, Get;
      var run, i := 0, 0;
      start := 0;
      while i < Count()
        invariant 0 <= i <= Count()
        invariant run <= i && run < count && (run > 0 ==> start == i - run)
        invariant FreeRun(States(), i - run, run)
        invariant i - run > 0 ==> !States()[i - run - 1].Free?
        invariant forall j: nat | j + count <= i :: !FreeRun(States(), j, count)
      {
        StateAt(i);
        if Get(i).Free? {
          if run == 0 {
            start := i;
          }
          run := run + 1;
          if run == count {
            assert FreeRun(States(), start, count);
            return true, start;
          }
        } else {
          run := 0;
        }
        i := i + 1;
      }
      found := false;
    }

    /** Marks a run of free frames allocated. */
    method TakeFrames(start: nat, count: nat)
      requires Valid() && FreeRun(States(), start, count)
      modifies this, bitmap
      ensures Valid() && States() == TakeRun(old(States()), start, count)
    {
      ghost var was := States();
      CountTaken(was, start, count);
      assert TakeRun(was, start, 0) == was;
      var j := 0;
      while j < count
        invariant j <= count && States() == TakeRun(was, start, j) && freeFrames == CountFree(was)
      {
        Set(start + j, Allocated);
        assert TakeRun(was, start, j + 1) == TakeRun(was, start, j)[start + j := Allocated];
        j := j + 1;
      }
      freeFrames := freeFrames - count;
    }

    /** mm_pma_allocate_frame: the lowest run of `count` free frames, or nothing. */
    method AllocateFrame(count: nat) returns (status: Status, pfn: nat)
      requires Valid()
      modifies this, bitmap
      ensures Valid()
      ensures status.Success? || status.InvalidValue? || status.InsufficientMemory?
      ensures status.InvalidValue? <==> count == 0
      ensures count > 0 ==> (status.Success? <==> exists j: nat :: FreeRun(old(States()), j, count))
      ensures status.Success? ==>
              && InRange(pfn) && FreeRun(old(States()), pfn - basePfn, count)
              && (forall j: nat | j < pfn - basePfn :: !FreeRun(old(States()), j, count))
              && States() == TakeRun(old(States()), pfn - basePfn, count)
      ensures !status.Success? ==> States() == old(States())
    {
      pfn := 0;
      if count == 0 {
        return InvalidValue, pfn;
      }
      var found, start := FindFreeRun(count);
      if !found {
        return InsufficientMemory, pfn;
      }
      TakeFrames(start, count);
      return Success, basePfn + start;
    }

    /** mm_pma_free_frame: only allocated frames of the range become free. */
    method FreeFrame(pfn: nat, count: nat)
      requires Valid()
      modifies this, bitmap
      ensures Valid()
      ensures States() == if InRange(pfn) then ReleaseRun(old(States()), pfn - basePfn, count) else old(States())
    {
      ghost var was := States();
      if pfn < basePfn || pfn > limitPfn {
        return;
      }
      var start, i := pfn - basePfn, 0;
      assert ReleaseRun(was, start, 0) == was;
      while i < count && start + i < Count()
        invariant i <= count && start + i <= Count()
        invariant Valid() && States() == ReleaseRun(was, start, i)
      {
        OneFrameMore(was, start, i);
        ReleaseFrame(start + i);
        i := i + 1;
      }
      assert States() == ReleaseRun(was, start, count);
    }
  }
}
