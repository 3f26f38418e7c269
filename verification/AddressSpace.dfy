/**
 The paging operations: mapping and unmapping single pages, and allocating and freeing ranges of
 pages backed by fresh frames. The window through which the directory maps itself is abstracted: a
 page's entry is looked up in the physical frame of its table.
 */
module AddressSpace {
  import opened FrameAllocator
  import opened Options
  import opened PageTables

  const LAST_PAGE := 0xFFFFF

  datatype Flags = Flags(readonly: bool, user: bool, nocache: bool, wtcache: bool)

  const PF_DEFAULT := Flags(false, false, false, false)

  /** The entry map() writes. */
  function MakeEntry(pfn: nat, flags: Flags): Entry {
    Entry(true, !flags.readonly, flags.user, flags.wtcache, flags.nocache,
          flags.nocache || flags.wtcache, pfn)
  }

  /** The flags map() reads off an entry before it replaces it. */
  function FlagsOf(e: Entry): Flags {
    Flags(!e.rw, e.us, e.pat && e.pcd, e.pat && e.pwt)
  }

  lemma FlagsReadBack(pfn: nat, flags: Flags)
    ensures FlagsOf(MakeEntry(pfn, flags)) == flags
  {
  }

  /** The tables right after initialisation. */
  lemma FirstTables(t: Tables, identity: nat)
    requires |t.directory| == ENTRIES && |t.memory| == ENTRIES * |t.states|
    requires t.basePfn <= identity < t.basePfn + |t.states| && t.states[identity - t.basePfn].Allocated?
    requires t.directory[0] == MakeEntry(identity, PF_DEFAULT)
    requires forall d | 0 < d < ENTRIES - 1 :: !t.directory[d].p
    requires forall i | 0 <= i < |t.memory| :: t.memory[i] ==
               if i / ENTRIES == identity - t.basePfn then MakeEntry(i % ENTRIES, PF_DEFAULT) else NO_ENTRY
    ensures t.Ok() && forall page | t.Managed(page) :: t.Find(page).None?
    ensures forall page: nat | page < FIRST_PAGE ::
              t.Find(page).Some? && var e := t.Find(page).value; KernelEntry(e) && e.base == page
  {
    assert forall d: nat, pfn | t.TableAt(d, pfn) :: t.directory[d].p && t.directory[d].base == pfn;
    assert t.TablesOk();
    forall page: nat | page < FIRST_PAGE
      ensures t.Find(page).Some? && var e := t.Find(page).value; KernelEntry(e) && e.base == page
    {
      assert t.TableAt(0, identity) && page / ENTRIES == 0;
      var i := t.Slot(page);
      assert i == (identity - t.basePfn) * ENTRIES + page;
      assert i / ENTRIES == identity - t.basePfn && i % ENTRIES == page;
    }
  }

  class Space {
    const frames: Allocator
    const directory: array<Entry>
    const memory: array<Entry>
    /** Where the next range of mm_allocate_pages starts. */
    var nextPage: nat

    ghost function Now(): Tables
      requires 0 <= frames.Count() <= 4 * frames.bitmap.Length
      reads directory, memory, frames.bitmap
    {
      Tables(frames.basePfn, directory[..], memory[..], frames.States())
    }

    ghost predicate Valid()
      reads this, directory, memory, frames, frames.bitmap
    {
      && frames.Valid()
      && directory != memory
      && directory as object != frames.bitmap && memory as object != frames.bitmap
      && nextPage >= FIRST_PAGE
      && Now().Ok()
    }

    /** The directory right after init_page_directory: entry 0 leads to the identity map of the first
        4 MiB in frame `identity`, the last entry to the directory itself. */
    constructor (frames: Allocator, identity: nat, directoryPfn: nat)
      requires frames.Valid() && frames.InRange(identity)
      requires frames.States()[identity - frames.basePfn].Allocated?
      ensures Valid() && fresh(directory) && fresh(memory) && this.frames == frames
      ensures nextPage == FIRST_PAGE && forall page | Now().Managed(page) :: Now().Find(page).None?
      ensures forall d | 0 < d < ENTRIES - 1 :: d < directory.Length && !directory[d].p
      ensures forall page: nat | page < FIRST_PAGE ::
                && Now().Find(page).Some?
                && var e := Now().Find(page).value; KernelEntry(e) && e.base == page
    {
      var base := frames.basePfn;
      this.frames, nextPage := frames, FIRST_PAGE;
      directory := new Entry[ENTRIES](i =>
        if i == 0 then MakeEntry(identity, PF_DEFAULT)
        else if i == ENTRIES - 1 then MakeEntry(directoryPfn, PF_DEFAULT) else NO_ENTRY);
      memory := new Entry[ENTRIES * frames.Count()](i requires i >= 0 =>
        if i / ENTRIES == identity - base then MakeEntry(i % ENTRIES, PF_DEFAULT) else NO_ENTRY);
      new;
      FirstTables(Now(), identity);
    }

    /** The entry of a page in the frame of its table. */
    function SlotOf(vpn: nat): (slot: int)
      requires vpn / ENTRIES < directory.Length
      reads directory
    {
      (directory[vpn / ENTRIES].base - frames.basePfn) * ENTRIES + vpn % ENTRIES
    }

    /** mm_vpn_to_pfn. */
    method VpnToPfn(vpn: nat) returns (status: Status, pfn: nat)
      requires Valid() && (vpn < WINDOW_PAGE || vpn > 0xFFFFF)
      ensures vpn > 0xFFFFF ==> status.InvalidValue?
      ensures vpn < WINDOW_PAGE ==>
                match Now().Find(vpn)
                case Some(e) => status.Success? && pfn == e.base
                case None => status.PageNotPresent?
    {
      pfn := 0;
      if vpn > LAST_PAGE {
        return InvalidValue, pfn;
      }
      var d := vpn / ENTRIES;
      if !directory[d].p {
        return PageNotPresent, pfn;
      }
      assert Now().TableAt(d, directory[d].base);
      var e := memory[SlotOf(vpn)];
      if !e.p {
        return PageNotPresent, pfn;
      }
      return Success, e.base;
    }

    lemma NoneTaken(t: Tables)
      requires t.Ok() && !exists j: nat :: FreeRun(t.states, j, 1)
      ensures t.NoneFree() && CountFree(t.states) == 0 && AgreeOutside(t, t, 0, 0)
    {
      NoneFreeCount(t.states);
      if i :| 0 <= i < |t.states| && t.states[i].Free? {
        assert FreeRun(t.states, i, 1);
      }
    }

    lemma OneTaken(t: Tables, pfn: nat)
      requires t.Ok() && t.basePfn <= pfn && FreeRun(t.states, pfn - t.basePfn, 1)
      ensures pfn < t.basePfn + |t.states| && t.states[pfn - t.basePfn].Free? && !t.NoneFree()
      ensures TakeRun(t.states, pfn - t.basePfn, 1) == t.WithState(pfn, Allocated).states
      ensures var u := t.WithState(pfn, Allocated);
        && u.Ok() && AgreeOutside(t, u, 0, 0) && u.Unused(pfn) && CountFree(u.states) + 1 == CountFree(t.states)
        && forall g | t.Unused(g) :: u.Unused(g) && g != pfn
    {
      var i := pfn - t.basePfn;
      assert t.states[i].Free?;
      CountUpdate(t.states, i, Allocated);
      hide Tables.Ok, Tables.Unused, AgreeOutside, CountFree;
      TakeFrame(t, pfn);
    }

    /** One frame from the allocator. */
    method TakeOne() returns (status: Status, pfn: nat)
      requires Valid()
      modifies frames, frames.bitmap
      ensures Valid()
      ensures status.Success? || status.InsufficientMemory?
      ensures AgreeOutside(old(Now()), Now(), 0, 0)
      ensures status.InsufficientMemory? ==> Now() == old(Now())
      ensures status.InsufficientMemory? <==> old(Now()).NoneFree()
      ensures status.Success? ==>
              frames.InRange(pfn) && old(Now()).states[pfn - frames.basePfn].Free?
              && Now() == old(Now()).WithState(pfn, Allocated) && Now().Unused(pfn)
      ensures forall g | old(Now()).Unused(g) :: Now().Unused(g) && (status.Success? ==> g != pfn)
      ensures status.Success? <==> CountFree(old(Now()).states) > 0
      ensures CountFree(Now().states) == CountFree(old(Now()).states) - if status.Success? then 1 else 0
    {
      ghost var t := Now();
      hide Tables.Ok, Tables.Find, Tables.Unused, AgreeOutside, CountFree, TakeRun, FreeRun, Tables.NoneFree;
      status, pfn := frames.AllocateFrame(1);
      assert directory[..] == t.directory && memory[..] == t.memory;
      if status.Success? {
        OneTaken(t, pfn);
      } else {
        NoneTaken(t);
      }
    }

    /** Zeroes the entries of a new table. */
    method ClearTable(pfn: nat)
      requires memory.Length == ENTRIES * frames.Count() && frames.InRange(pfn)
      modifies memory
      ensures forall i | 0 <= i < memory.Length ::
                memory[i] == if i / ENTRIES == pfn - frames.basePfn then NO_ENTRY else old(memory[i])
    {
      var start, i := (pfn - frames.basePfn) * ENTRIES, 0;
      while i < ENTRIES
        invariant i <= ENTRIES
        invariant forall j | 0 <= j < memory.Length ::
                    memory[j] == if start <= j < start + i then NO_ENTRY else old(memory[j])
      {
        memory[start + i] := NO_ENTRY;
        i := i + 1;
      }
    }

    /** The first half of map(): the page's table exists afterwards unless memory ran out. */
    method EnsureTable(vpn: nat) returns (status: Status)
      requires Valid() && Now().Managed(vpn)
      modifies directory, memory, frames, frames.bitmap
      ensures Valid()
      ensures status.Success? || status.InsufficientMemory?
      ensures status.Success? ==> directory[vpn / ENTRIES].p
      ensures AgreeOutside(old(Now()), Now(), 0, 0) && OnlyTakes(old(Now()), Now())
      ensures NoLeak(old(Now()), Now(), 0, 0)
      ensures status.InsufficientMemory? ==> Now() == old(Now()) && Now().NoneFree()
      ensures forall g | old(Now()).Unused(g) :: Now().Unused(g)
      ensures status.Success? <==> old(Now()).directory[vpn / ENTRIES].p || CountFree(old(Now()).states) > 0
      ensures status.Success? ==>
              && CountFree(old(Now()).states)
                 == CountFree(Now().states) + (if old(Now()).directory[vpn / ENTRIES].p then 0 else 1)
              && DirectoryGrown(old(Now()), Now(), vpn / ENTRIES)
      ensures NewTablesPlain(old(Now()), Now())
    {
      hide Tables.Find, Tables.Unused, AgreeOutside, OnlyTakes, NoLeak, CountFree;
      NothingChanged(Now());
      status := Success;
      if !directory[vpn / ENTRIES].p {
        ghost var t := Now();
        var pfn;
        status, pfn := TakeOne();
        if !status.Success? {
          return;
        }
        var d, e := vpn / ENTRIES, MakeEntry(pfn, PF_DEFAULT);
        directory[d] := e;
        ClearTable(pfn);
        assert directory[..] == t.directory[d := e] && memory[..] == t.ClearedMemory(pfn);
        NewTable(t, d, e);
      }
    }

    lemma IsEntry(pfn: nat, flags: Flags)
      ensures var e := MakeEntry(pfn, flags);
        && e.p && e.base == pfn && (e.rw <==> !flags.readonly) && (e.us <==> flags.user)
        && (e.pcd <==> flags.nocache) && (e.pwt <==> flags.wtcache) && (e.pat <==> flags.nocache || flags.wtcache)
    {
    }

    lemma EntryIsPlain(pfn: nat)
      ensures KernelEntry(MakeEntry(pfn, PF_DEFAULT)) && MakeEntry(pfn, PF_DEFAULT).base == pfn
    {
    }

    lemma SameTranslation(t: Tables, u: Tables, vpn: nat)
      requires t.Ok() && u.Ok() && t.Managed(vpn) && AgreeOutside(t, u, 0, 0)
      ensures u.Find(vpn) == t.Find(vpn)
    {
    }

    /** Writing an entry changes neither the frames nor the directory. */
    lemma SameCounts(u: Tables, vpn: nat, e: Entry, t: Tables)
      requires |u.directory| == ENTRIES && vpn / ENTRIES < ENTRIES && 0 <= u.Slot(vpn) < |u.memory|
      ensures u.WithEntry(vpn, e).states == u.states
      ensures DirectoryGrown(t, u, vpn / ENTRIES) ==> DirectoryGrown(t, u.WithEntry(vpn, e), vpn / ENTRIES)
      ensures NewTablesPlain(t, u) ==> NewTablesPlain(t, u.WithEntry(vpn, e))
    {
    }

    lemma EntryPlace(t: Tables, vpn: nat)
      requires t.Ok() && t.Managed(vpn) && t.directory[vpn / ENTRIES].p
      ensures |t.directory| == ENTRIES && 0 <= t.Slot(vpn) < |t.memory|
      ensures t.Find(vpn) == if t.memory[t.Slot(vpn)].p then Some(t.memory[t.Slot(vpn)]) else None
    {
      assert t.TableAt(vpn / ENTRIES, t.directory[vpn / ENTRIES].base);
    }

    /** The second half of map(), when the page's table is there. */
    method PutEntry(pfn: nat, vpn: nat, flags: Flags) returns (status: Status)
      requires Valid() && Now().Managed(vpn) && Now().directory[vpn / ENTRIES].p && Now().Unused(pfn)
      modifies memory
      ensures Valid() && (status.Success? || status.ConflictingState?)
      ensures status.ConflictingState? <==>
              old(Now()).Find(vpn).Some? && FlagsOf(old(Now()).Find(vpn).value) != flags
      ensures status.ConflictingState? ==> Now() == old(Now())
      ensures status.Success? ==>
              && 0 <= old(Now()).Slot(vpn) < |old(Now()).memory|
              && Now() == old(Now()).WithEntry(vpn, MakeEntry(pfn, flags))
    {
      hide Tables.Find, Tables.Ok, Tables.Unused, AgreeOutside, FlagsOf;
      ghost var t := Now();
      EntryPlace(t, vpn);
      var e, slot := MakeEntry(pfn, flags), SlotOf(vpn);
      SetPage(t, vpn, e);
      if memory[slot].p && FlagsOf(memory[slot]) != flags {
        return ConflictingState;
      }
      memory[slot] := e;
      assert memory[..] == t.memory[slot := e] && directory[..] == t.directory;
      status := Success;
    }

    /** map(): on an absent page, or on a present one with the same flags. */
    method Map(pfn: nat, vpn: nat, flags: Flags) returns (status: Status)
      requires Valid() && (Now().Managed(vpn) || vpn > 0xFFFFF) && Now().Unused(pfn)
      modifies directory, memory, frames, frames.bitmap
      ensures Valid() && OnlyTakes(old(Now()), Now())
      ensures status.InvalidValue? <==> vpn > 0xFFFFF
      ensures status.Success? || status.InsufficientMemory? || status.ConflictingState? || status.InvalidValue?
      ensures status.ConflictingState? ==>
              old(Now()).Find(vpn).Some? && FlagsOf(old(Now()).Find(vpn).value) != flags
      ensures status.Success? ==>
              && AgreeOutside(old(Now()), Now(), vpn, vpn + 1) && Now().Find(vpn) == Some(MakeEntry(pfn, flags))
              && (old(Now()).Find(vpn).Some? ==> FlagsOf(old(Now()).Find(vpn).value) == flags)
      ensures status.Success? ==>
              var e := MakeEntry(pfn, flags);
              && e.p && e.base == pfn && (e.rw <==> !flags.readonly) && (e.us <==> flags.user)
              && (e.pcd <==> flags.nocache) && (e.pwt <==> flags.wtcache) && (e.pat <==> flags.nocache || flags.wtcache)
      ensures !status.Success? ==> AgreeOutside(old(Now()), Now(), 0, 0) && Now().Unused(pfn)
      ensures status.InsufficientMemory? ==> Now() == old(Now()) && Now().NoneFree()
      ensures NoLeak(old(Now()), Now(), 0, 0)
      ensures vpn <= 0xFFFFF ==>
              (status.InsufficientMemory? <==>
               !old(Now()).directory[vpn / ENTRIES].p && CountFree(old(Now()).states) == 0)
      ensures status.Success? ==>
              && CountFree(old(Now()).states)
                 == CountFree(Now().states) + (if old(Now()).directory[vpn / ENTRIES].p then 0 else 1)
              && DirectoryGrown(old(Now()), Now(), vpn / ENTRIES)
      ensures NewTablesPlain(old(Now()), Now())
    {
      if vpn > LAST_PAGE {
        NothingChanged(Now());
        return InvalidValue;
      }
      hide Tables.Find, Tables.Ok, Tables.Unused, AgreeOutside, OnlyTakes, NoLeak, CountFree, DirectoryGrown;
      hide Tables.NoneFree, MakeEntry, FlagsOf, NewTablesPlain;
      ghost var t := Now();
      status := EnsureTable(vpn);
      if !status.Success? {
        return;
      }
      ghost var u := Now();
      IsEntry(pfn, flags);
      EntryBehindTable(t, u, vpn, MakeEntry(pfn, flags));
      SameTranslation(t, u, vpn);
      status := PutEntry(pfn, vpn, flags);
      if status.Success? {
        SameCounts(u, vpn, MakeEntry(pfn, flags), t);
      }
    }

    /** unmap(). */
    method Unmap(vpn: nat)
      requires Valid() && (Now().Managed(vpn) || vpn > 0xFFFFF)
      modifies memory
      ensures Valid() && Now().states == old(Now()).states
      ensures vpn > 0xFFFFF ==> Now() == old(Now())
      ensures vpn <= 0xFFFFF ==>
                && AgreeOutside(old(Now()), Now(), vpn, vpn + 1) && Now().Find(vpn).None?
                && (forall pfn | old(Now()).MapsTo(vpn, pfn) :: Now().Unused(pfn))
                && (forall pfn :: Now().IsTable(pfn) <==> old(Now()).IsTable(pfn))
    {
      ghost var t := Now();
      if vpn > LAST_PAGE || !directory[vpn / ENTRIES].p {
        return;
      }
      assert t.TableAt(vpn / ENTRIES, directory[vpn / ENTRIES].base);
      var slot := SlotOf(vpn);
      if !memory[slot].p {
        return;
      }
      SetPage(t, vpn, NO_ENTRY);
      memory[slot] := NO_ENTRY;
      assert memory[..] == t.memory[slot := NO_ENTRY] && directory[..] == t.directory;
    }

    /** A round for one page, from t to u. */
    ghost predicate Round(t: Tables, u: Tables, vpn: nat, ok: bool)
      requires t.Ok() && u.Ok() && t.Managed(vpn)
    {
      && Grown(t, u, vpn, vpn + 1) && NewPagesPlain(t, u, vpn, vpn + 1) && NewTablesPlain(t, u)
      && (ok <==> NeededFor(t, vpn) <= CountFree(t.states))
      && (ok ==> u.Find(vpn).Some? && NoLeak(t, u, vpn, vpn + 1) && DirectoryGrown(t, u, vpn / ENTRIES))
      && (ok ==> CountFree(u.states) + NeededFor(t, vpn) == CountFree(t.states))
      && (!ok ==> u.NoneFree() && AgreeOutside(t, u, 0, 0))
      && (!ok && !LosesFrame(t, vpn) ==> u == t)
      && (LosesFrame(t, vpn) <==> exists pfn: nat :: Lost(t, u, pfn))
    }

    lemma NoFrameForPage(t: Tables, vpn: nat)
      requires t.Ok() && t.Managed(vpn) && t.Find(vpn).None? && CountFree(t.states) == 0
      ensures Round(t, t, vpn, false)
    {
      NoneFreeCount(t.states);
      NothingNew(t, t, vpn, vpn + 1);
      hide Tables.Ok, Tables.Find, OnlyTakes, NoLeak, Lost, AgreeOutside, Grown, NewPagesPlain, NewTablesPlain;
      NothingChanged(t);
      NothingLost(t, t, vpn, vpn + 1);
    }

    lemma OneFrameForPage(t: Tables, u: Tables, vpn: nat, pfn: nat)
      requires t.Ok() && u.Ok() && t.Managed(vpn) && t.Find(vpn).None? && CountFree(t.states) == 1 && u.NoneFree()
      requires t.basePfn <= pfn < t.basePfn + |t.states| && t.states[pfn - t.basePfn].Free?
      requires u == t.WithState(pfn, Allocated) && u.Unused(pfn) && AgreeOutside(t, u, 0, 0)
      requires |t.directory| == ENTRIES && !t.directory[vpn / ENTRIES].p
      ensures Round(t, u, vpn, false)
    {
      NothingNew(t, u, vpn, vpn + 1);
      hide Tables.Ok, Tables.Find, Tables.Unused, NoLeak, Tables.NoneFree, NewPagesPlain, NewTablesPlain;
      NothingChanged(u);
      KeptTranslation(t, u, vpn);
      KeptTranslation(u, u, vpn);
      PageServed(t, u, u, vpn, pfn);
      assert Lost(t, u, pfn);
    }

    /** Taking a frame touches no table; the page's entry is the new one. */
    lemma NewBehindTaking(t: Tables, t1: Tables, u: Tables, vpn: nat)
      requires t.Ok() && t1.Ok() && u.Ok() && t.Managed(vpn) && t1.directory == t.directory
      requires u.Find(vpn).Some? && KernelEntry(u.Find(vpn).value)
      requires NewTablesPlain(t1, u) && DirectoryGrown(t1, u, vpn / ENTRIES)
      ensures NewTablesPlain(t, u) && DirectoryGrown(t, u, vpn / ENTRIES) && NewPagesPlain(t, u, vpn, vpn + 1)
    {
      hide Tables.TablesOk, Tables.Find, KernelEntry;
    }

    lemma FramesForPage(t: Tables, t1: Tables, u: Tables, vpn: nat, pfn: nat)
      requires t.Ok() && t1.Ok() && u.Ok() && t.Managed(vpn) && t.Find(vpn).None?
      requires t.basePfn <= pfn < t.basePfn + |t.states| && t.states[pfn - t.basePfn].Free?
      requires t1 == t.WithState(pfn, Allocated) && AgreeOutside(t, t1, 0, 0)
      requires AgreeOutside(t1, u, vpn, vpn + 1) && OnlyTakes(t1, u) && NoLeak(t1, u, 0, 0)
      requires u.Find(vpn).Some? && u.Find(vpn).value.base == pfn && KernelEntry(u.Find(vpn).value)
      requires NewTablesPlain(t1, u)
      requires CountFree(t1.states) + 1 == CountFree(t.states) && |t.directory| == ENTRIES
      requires CountFree(u.states) + (if t.directory[vpn / ENTRIES].p then 0 else 1) == CountFree(t1.states)
      requires DirectoryGrown(t1, u, vpn / ENTRIES)
      ensures Round(t, u, vpn, true)
    {
      NeedsOfAbsent(t, vpn);
      NewBehindTaking(t, t1, u, vpn);
      hide NewTablesPlain, NewPagesPlain, KernelEntry, FlagsOf;
      hide Tables.Ok, Tables.Find, NoLeak, OnlyTakes, AgreeOutside, NeededFor, LosesFrame, CountFree, Lost, Grown;
      hide DirectoryGrown;
      PageServed(t, t1, u, vpn, pfn);
      NothingLost(t, u, vpn, vpn + 1);
    }

    lemma PageThere(t: Tables, vpn: nat)
      requires t.Ok() && t.Managed(vpn) && t.Find(vpn).Some?
      ensures Round(t, t, vpn, true)
    {
      TableBehind(t, vpn);
      NothingNew(t, t, vpn, vpn + 1);
      hide Tables.Ok, Tables.Find, NoLeak, OnlyTakes, AgreeOutside, NeededFor, LosesFrame, CountFree, Lost, Grown;
      hide DirectoryGrown, NewPagesPlain, NewTablesPlain;
      NothingChanged(t);
      NothingLost(t, t, vpn, vpn + 1);
    }

    /** The part of a round behind taking the frame for the page. */
    method MapTaken(ghost t: Tables, pfn: nat, vpn: nat) returns (status: Status)
      requires Valid() && t.Ok() && t.Managed(vpn) && t.Find(vpn).None? && Now().Unused(pfn)
      requires t.basePfn <= pfn < t.basePfn + |t.states| && t.states[pfn - t.basePfn].Free?
      requires Now() == t.WithState(pfn, Allocated) && AgreeOutside(t, Now(), 0, 0)
      requires CountFree(Now().states) + 1 == CountFree(t.states)
      modifies directory, memory, frames, frames.bitmap
      ensures Valid() && (status.Success? || status.InsufficientMemory?)
      ensures Round(t, Now(), vpn, status.Success?)
    {
      ghost var t1 := Now();
      hide Tables.Ok, Tables.Find, Tables.Unused, AgreeOutside, OnlyTakes, NoLeak, Tables.NoneFree, CountFree;
      hide DirectoryGrown, Round, NewTablesPlain, MakeEntry, KernelEntry;
      SameTranslation(t, t1, vpn);
      EntryIsPlain(pfn);
      status := Map(pfn, vpn, PF_DEFAULT);
      if status.Success? {
        FramesForPage(t, t1, Now(), vpn, pfn);
      } else {
        OneFrameForPage(t, t1, vpn, pfn);
      }
    }

    /** The part of a round for a page without a frame. */
    method ServePage(vpn: nat) returns (status: Status)
      requires Valid() && Now().Managed(vpn) && Now().Find(vpn).None?
      modifies directory, memory, frames, frames.bitmap
      ensures Valid() && (status.Success? || status.InsufficientMemory?)
      ensures Round(old(Now()), Now(), vpn, status.Success?)
    {
      ghost var t := Now();
      hide Tables.Ok, Tables.Find, Tables.Unused, AgreeOutside, Tables.NoneFree, CountFree, Round;
      var pfn;
      status, pfn := TakeOne();
      if status.Success? {
        status := MapTaken(t, pfn, vpn);
      } else {
        NoFrameForPage(t, vpn);
      }
    }

    /** One round of mm_allocate_pages and of mm_allocate_pages_to. It fails exactly when there are fewer free frames
        than the page needs. With one free frame where two are needed that frame is lost, and only then. */
    method AllocatePage(vpn: nat) returns (status: Status)
      requires Valid() && Now().Managed(vpn)
      modifies directory, memory, frames, frames.bitmap
      ensures Valid() && Grown(old(Now()), Now(), vpn, vpn + 1)
      ensures NewPagesPlain(old(Now()), Now(), vpn, vpn + 1) && NewTablesPlain(old(Now()), Now())
      ensures status.Success? || status.InsufficientMemory?
      ensures status.Success? <==> NeededFor(old(Now()), vpn) <= CountFree(old(Now()).states)
      ensures status.Success? ==>
              && Now().Find(vpn).Some? && NoLeak(old(Now()), Now(), vpn, vpn + 1)
              && CountFree(Now().states) + NeededFor(old(Now()), vpn) == CountFree(old(Now()).states)
              && DirectoryGrown(old(Now()), Now(), vpn / ENTRIES)
      ensures !status.Success? ==> Now().NoneFree() && AgreeOutside(old(Now()), Now(), 0, 0)
      ensures !status.Success? && !LosesFrame(old(Now()), vpn) ==> Now() == old(Now())
      ensures LosesFrame(old(Now()), vpn) <==> exists pfn: nat :: Lost(old(Now()), Now(), pfn)
    {
      ghost var t := Now();
      hide Tables.Ok, Tables.Find, Tables.Unused, AgreeOutside, OnlyTakes, NoLeak, Grown, Lost, Tables.NoneFree;
      hide CountFree;
      hide NeededFor, LosesFrame, DirectoryGrown, NewPagesPlain, NewTablesPlain;
      var pfn;
      status, pfn := VpnToPfn(vpn);
      if status.PageNotPresent? {
        status := ServePage(vpn);
      } else {
        PageThere(t, vpn);
      }
    }

    /** mm_allocate_pages_to. It succeeds exactly when there are enough frames for the absent pages and the missing
        tables; then every page of the range is mapped. On failure the pages served so far stay, and a frame is lost
        exactly when serving the range comes to a page without a table when one frame is left. */
    method AllocatePagesTo(vpn: nat, count: nat) returns (status: Status)
      requires Valid() && FIRST_PAGE <= vpn && vpn + count <= WINDOW_PAGE
      modifies directory, memory, frames, frames.bitmap
      ensures Valid() && Grown(old(Now()), Now(), vpn, vpn + count)
      ensures NewPagesPlain(old(Now()), Now(), vpn, vpn + count) && NewTablesPlain(old(Now()), Now())
      ensures status.Success? || status.InsufficientMemory?
      ensures status.Success? <==> Needed(old(Now()), vpn, vpn + count) <= CountFree(old(Now()).states)
      ensures status.Success? ==>
              && AllMapped(Now(), vpn, vpn + count)
              && CountFree(Now().states) + Needed(old(Now()), vpn, vpn + count) == CountFree(old(Now()).states)
      ensures status.Success? ==> !LosesFrameIn(old(Now()), vpn, vpn + count)
      ensures NoLeak(old(Now()), Now(), vpn, vpn + count) <==> !LosesFrameIn(old(Now()), vpn, vpn + count)
      ensures AtMostOneLost(old(Now()), Now(), vpn, vpn + count)
    {
      hide Tables.Ok, Tables.Find, AgreeOutside, OnlyTakes, NoLeak, AtMostOneLost, Lost, Tables.NoneFree, Tables.Unused;
      hide CountFree, Needed, NeededFor, LosesFrameIn, LosesFrame, DirectoryGrown, Served;
      hide NewPagesPlain, NewTablesPlain;
      ghost var t := Now();
      NothingChanged(t);
      NothingNew(t, t, vpn, vpn);
      NothingServed(t, vpn);
      var i := 0;
      while i < count
        invariant i <= count && Valid()
        invariant Grown(t, Now(), vpn, vpn + i)
        invariant AllMapped(Now(), vpn, vpn + i) && NoLeak(t, Now(), vpn, vpn + i)
        invariant Served(t, Now(), vpn, vpn + i)
        invariant NewPagesPlain(t, Now(), vpn, vpn + i) && NewTablesPlain(t, Now())
      {
        ghost var u := Now();
        status := AllocatePage(vpn + i);
        GrowOneMore(t, u, Now(), vpn, vpn + i);
        NewOneMore(t, u, Now(), vpn, vpn + i, vpn + count);
        if !status.Success? {
          GrownInLarger(t, Now(), vpn, vpn + i + 1, vpn + count);
          StoppedHere(t, u, vpn, vpn + i, vpn + count);
          FailedPage(t, u, Now(), vpn, vpn + i, vpn + count);
          LeaksIfLost(t, u, Now(), vpn, vpn + i, vpn + count);
          return;
        }
        LeaklessOneMore(t, u, Now(), vpn, vpn + i);
        ServedMore(t, u, Now(), vpn, vpn + i);
        i := i + 1;
      }
      ServedIsEnough(t, Now(), vpn, vpn + count);
      LeakFree(t, Now(), vpn, vpn + count);
      status := Success;
    }

    /** mm_allocate_pages: the same for the next range of pages never asked for before. */
    method AllocatePages(count: nat) returns (status: Status, vpn: nat)
      requires Valid() && nextPage + count <= WINDOW_PAGE
      modifies this, directory, memory, frames, frames.bitmap
      ensures Valid() && vpn == old(nextPage) && nextPage == old(nextPage) + count
      ensures Grown(old(Now()), Now(), vpn, vpn + count)
      ensures NewPagesPlain(old(Now()), Now(), vpn, vpn + count) && NewTablesPlain(old(Now()), Now())
      ensures status.Success? || status.InsufficientMemory?
      ensures status.Success? <==> Needed(old(Now()), vpn, vpn + count) <= CountFree(old(Now()).states)
      ensures status.Success? ==>
              && AllMapped(Now(), vpn, vpn + count)
              && CountFree(Now().states) + Needed(old(Now()), vpn, vpn + count) == CountFree(old(Now()).states)
      ensures status.Success? ==> !LosesFrameIn(old(Now()), vpn, vpn + count)
      ensures NoLeak(old(Now()), Now(), vpn, vpn + count) <==> !LosesFrameIn(old(Now()), vpn, vpn + count)
      ensures AtMostOneLost(old(Now()), Now(), vpn, vpn + count)
    {
      hide Tables.Ok, Tables.Find, CountFree, Needed, LosesFrameIn, NoLeak, AtMostOneLost, Grown, AllMapped;
      hide NewPagesPlain, NewTablesPlain;
      vpn := nextPage;
      nextPage := nextPage + count;
      status := AllocatePagesTo(vpn, count);
    }

    /** Gives a frame that nobody uses back to the allocator. */
    method ReturnUnused(pfn: nat)
      requires Valid() && Now().Unused(pfn)
      modifies frames, frames.bitmap
      ensures Valid() && old(Now()).IsAllocated(pfn) && Now() == old(Now()).WithState(pfn, Free)
    {
      ghost var u, i := Now(), pfn - frames.basePfn;
      ReturnFrame(u, pfn);
      frames.FreeFrame(pfn, 1);
      assert directory[..] == u.directory && memory[..] == u.memory;
      assert ReleaseRun(u.states, i, 1) == u.states[i := Free];
    }

    /** One round of mm_free_pages. */
    method FreePage(vpn: nat)
      requires Valid() && Now().Managed(vpn)
      modifies memory, frames, frames.bitmap
      ensures Valid() && Shrunk(old(Now()), Now(), vpn, vpn + 1)
    {
      hide AgreeOutside, Shrunk, Tables.IsTable, Tables.Unused;
      ghost var t := Now();
      var status, pfn := VpnToPfn(vpn);
      if !status.Success? {
        NothingShrunk(t, vpn);
        return;
      }
      assert t.MapsTo(vpn, pfn);
      Unmap(vpn);
      PageReturned(t, Now(), vpn, pfn);
      ReturnUnused(pfn);
    }

    /** mm_free_pages: exactly the frames of the mapped pages of the range are returned. */
    method FreePages(vpn: nat, count: nat)
      requires Valid() && FIRST_PAGE <= vpn && vpn + count <= WINDOW_PAGE
      modifies memory, frames, frames.bitmap
      ensures Valid() && Shrunk(old(Now()), Now(), vpn, vpn + count)
    {
      hide Tables.Ok, Tables.Find, Shrunk;
      ghost var t := Now();
      ShrinkNothing(t, vpn);
      var i := 0;
      while i < count
        invariant i <= count && Valid()
        invariant Shrunk(t, Now(), vpn, vpn + i)
      {
        ghost var u := Now();
        FreePage(vpn + i);
        ShrinkOneMore(t, u, Now(), vpn, vpn + i);
        i := i + 1;
      }
    }

    method AllocateThenFree(vpn: nat, count: nat) returns (status: Status)
      requires Valid() && FIRST_PAGE <= vpn && vpn + count <= WINDOW_PAGE
      requires forall page: nat | vpn <= page < vpn + count && page < WINDOW_PAGE :: Now().Find(page).None?
      modifies directory, memory, frames, frames.bitmap
      ensures Valid()
      ensures status.Success? ==> AgreeOutside(old(Now()), Now(), 0, 0)
      ensures status.Success? ==> forall i | 0 <= i < frames.Count() ::
                || frames.States()[i] == old(frames.States()[i])
                || (old(frames.States()[i]).Free? && Now().IsTable(frames.basePfn + i))
    {
      hide Tables.Ok, Tables.Find, AgreeOutside, OnlyTakes, NoLeak, Grown, Shrunk, CountFree, Needed, LosesFrameIn;
      hide AllMapped;
      ghost var t := Now();
      status := AllocatePagesTo(vpn, count);
      if status.Success? {
        ghost var u := Now();
        FreePages(vpn, count);
        GrowThenShrink(t, u, Now(), vpn, vpn + count);
      }
    }
  }

  // ---------- Whole runs ----------

  datatype Request = Allocate(count: nat) | AllocateTo(vpn: nat, count: nat) | Release(vpn: nat, count: nat)

  /** The next page to hand out after a request. */
  function NextPage(next: nat, r: Request): nat {
    if r.Allocate? then next + r.count else next
  }

  /** A request is about the pages given, or about the next ones never handed out. */
  predicate IsAbout(next: nat, r: Request, page: nat) {
    match r
    case Allocate(count) => next <= page < next + count
    case AllocateTo(vpn, count) => vpn <= page < vpn + count
    case Release(vpn, count) => vpn <= page < vpn + count
  }

  predicate AnyAbout(next: nat, requests: seq<Request>, page: nat)
    decreases |requests|
  {
    requests != [] && (IsAbout(next, requests[0], page) || AnyAbout(NextPage(next, requests[0]), requests[1..], page))
  }

  /** Every request stays between the identity-mapped pages and the recursive window. */
  predicate Allowed(next: nat, requests: seq<Request>)
    decreases |requests|
  {
    requests == [] || (
      (match requests[0]
       case Allocate(count) => next + count <= WINDOW_PAGE
       case AllocateTo(vpn, count) => FIRST_PAGE <= vpn && vpn + count <= WINDOW_PAGE
       case Release(vpn, count) => FIRST_PAGE <= vpn && vpn + count <= WINDOW_PAGE)
      && Allowed(NextPage(next, requests[0]), requests[1..]))
  }

  /** Pages that the request is not about are translated as before. */
  ghost predicate OthersKept(next: nat, r: Request, t: Tables, u: Tables)
    requires t.Ok() && u.Ok()
  {
    forall page: nat | page < WINDOW_PAGE && !IsAbout(next, r, page) :: u.Find(page) == t.Find(page)
  }

  lemma RangeOnly(next: nat, r: Request, t: Tables, u: Tables, lo: nat, hi: nat)
    requires t.Ok() && u.Ok() && AgreeOutside(t, u, lo, hi)
    requires forall page: nat | lo <= page < hi :: IsAbout(next, r, page)
    ensures OthersKept(next, r, t, u)
  {
    hide Tables.Find, Tables.Ok;
  }

  lemma GrownAgrees(t: Tables, u: Tables, lo: nat, hi: nat)
    requires t.Ok() && u.Ok()
    ensures Grown(t, u, lo, hi) ==> AgreeOutside(t, u, lo, hi)
    ensures Shrunk(t, u, lo, hi) ==> AgreeOutside(t, u, lo, hi)
  {
  }

  method Serve(space: Space, r: Request)
    requires space.Valid() && Allowed(space.nextPage, [r])
    modifies space, space.directory, space.memory, space.frames, space.frames.bitmap
    ensures space.Valid() && space.nextPage == NextPage(old(space.nextPage), r)
    ensures OthersKept(old(space.nextPage), r, old(space.Now()), space.Now())
  {
    hide Tables.Ok, Tables.Find, OnlyTakes, NoLeak, AllMapped, CountFree, Needed, LosesFrameIn, AtMostOneLost;
    hide Grown, Shrunk, AgreeOutside, OthersKept;
    ghost var t, next := space.Now(), space.nextPage;
    match r
    case Allocate(count) =>
      var status, vpn := space.AllocatePages(count);
      GrownAgrees(t, space.Now(), next, next + count);
      RangeOnly(next, r, t, space.Now(), next, next + count);
    case AllocateTo(vpn, count) =>
      var status := space.AllocatePagesTo(vpn, count);
      GrownAgrees(t, space.Now(), vpn, vpn + count);
      RangeOnly(next, r, t, space.Now(), vpn, vpn + count);
    case Release(vpn, count) =>
      space.FreePages(vpn, count);
      GrownAgrees(t, space.Now(), vpn, vpn + count);
      RangeOnly(next, r, t, space.Now(), vpn, vpn + count);
  }

  /** Over every run the tables stay sound, and a page no request was about keeps its translation. */
  method Run(space: Space, requests: seq<Request>)
    requires space.Valid() && Allowed(space.nextPage, requests)
    modifies space, space.directory, space.memory, space.frames, space.frames.bitmap
    ensures space.Valid() && space.Now().Ok()
    ensures forall page: nat | page < WINDOW_PAGE && !AnyAbout(old(space.nextPage), requests, page) ::
              space.Now().Find(page) == old(space.Now()).Find(page)
    decreases |requests|
  {
    if requests == [] {
      return;
    }
    hide Tables.Ok, Tables.Find;
    assert [requests[0]][1..] == [];
    Serve(space, requests[0]);
    Run(space, requests[1..]);
  }

  // ---------- A frame is lost ----------

  method TwoFrames() returns (frames: Allocator)
    ensures fresh(frames) && fresh(frames.bitmap) && frames.Valid() && frames.basePfn == 0
    ensures frames.States() == [Allocated, Free]
  {
    frames := new Allocator(0, PAGE_SIZE);
    assert FreeRun(frames.States(), 0, 1);
    var status, pfn := frames.AllocateFrame(1);
  }

  lemma OneFrameLeft(t: Tables)
    requires t.Ok() && t.states == [Allocated, Free] && t.Find(FIRST_PAGE).None? && !t.directory[1].p
    ensures LosesFrame(t, FIRST_PAGE)
  {
    assert [Allocated, Free][..1] == [Allocated] && [Allocated][..0] == [];
    assert CountFree([]) == 0;
    assert CountFree([Allocated]) == 0;
  }

  lemma WhichIsLost(t: Tables, u: Tables)
    requires t.Ok() && u.Ok() && t.states == [Allocated, Free] && exists pfn: nat :: Lost(t, u, pfn)
    ensures u == t.WithState(t.basePfn + 1, Allocated) && u.states == [Allocated, Allocated]
  {
    hide Tables.Ok, Tables.Unused;
    var pfn: nat :| Lost(t, u, pfn);
    assert pfn - t.basePfn == 1;
  }

  lemma NothingToFree(t: Tables, u: Tables, w: Tables)
    requires t.Ok() && u.Ok() && w.Ok() && AgreeOutside(t, u, 0, 0)
    requires forall page | t.Managed(page) :: t.Find(page).None?
    requires Shrunk(u, w, FIRST_PAGE, WINDOW_PAGE)
    ensures w.states == u.states && forall page | w.Managed(page) :: w.Find(page).None?
  {
    hide Tables.TablesOk, Tables.Find;
    forall pfn ensures !BelongsTo(u, FIRST_PAGE, WINDOW_PAGE, pfn) {
      forall page: nat | FIRST_PAGE <= page < WINDOW_PAGE ensures !u.MapsTo(page, pfn) {
        assert u.Find(page) == t.Find(page);
      }
    }
  }

  lemma TooFew(t: Tables)
    requires t.Ok() && LosesFrame(t, FIRST_PAGE)
    ensures NeededFor(t, FIRST_PAGE) > CountFree(t.states)
  {
  }

  /**
   Two frames, the first one holding the identity map. The first page asked for takes the other one; there is none left
   for its table, and freeing every page does not bring the frame back.
   */
  method LoseFrame() returns (space: Space, ghost before: Tables, ghost after: Tables)
    ensures fresh(space) && space.Valid() && before.Ok() && before.states == [Allocated, Free]
    ensures LosesFrame(before, FIRST_PAGE) && after == before.WithState(before.basePfn + 1, Allocated)
    ensures space.Now().states == [Allocated, Allocated]
    ensures forall page | space.Now().Managed(page) :: space.Now().Find(page).None?
  {
    hide Tables.Ok, Tables.Find, CountFree, LosesFrame, Lost, Shrunk, Grown, AgreeOutside, NoLeak;
    var frames := TwoFrames();
    space := new Space(frames, 0, 0);
    before := space.Now();
    OneFrameLeft(before);
    var status := space.AllocatePage(FIRST_PAGE);
    after := space.Now();
    WhichIsLost(before, after);
    TooFew(before);
    space.FreePages(FIRST_PAGE, WINDOW_PAGE - FIRST_PAGE);
    NothingToFree(before, after, space.Now());
  }
}
