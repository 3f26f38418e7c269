/**
 Two-level page tables as values: what a directory and the tables in physical memory mean, and how
 each elementary change of them changes that meaning.
 */
module PageTables {
  import opened FrameAllocator
  import opened Options

  const ENTRIES := 1024
  /** The pages the allocator manages: behind the identity-mapped first 4 MiB and below the window
      through which the tables see themselves. */
  const FIRST_PAGE := 0x400
  const WINDOW_PAGE := 0xFFC00

  datatype Entry = Entry(p: bool, rw: bool, us: bool, pwt: bool, pcd: bool, pat: bool, base: nat)

  const NO_ENTRY := Entry(false, false, false, false, false, false, 0)

  /** Present, writable, for the kernel alone, cached as usual. */
  predicate KernelEntry(e: Entry) {
    e.p && e.rw && !e.us && !e.pwt && !e.pcd && !e.pat
  }

  /** `memory` is physical memory read as table entries, frame after frame from frame number
      basePfn; `states` is what the frame allocator says about these frames. */
  datatype Tables = Tables(basePfn: nat, directory: seq<Entry>, memory: seq<Entry>, states: seq<FrameState>) {

    ghost predicate Shape() {
      |directory| == ENTRIES && |memory| == ENTRIES * |states|
    }

    ghost predicate IsAllocated(pfn: nat) {
      basePfn <= pfn < basePfn + |states| && states[pfn - basePfn].Allocated?
    }

    /** Frame pfn serves as the page table of directory entry d. */
    ghost predicate TableAt(d: nat, pfn: nat) {
      d < ENTRIES - 1 && d < |directory| && directory[d].p && directory[d].base == pfn
    }

    ghost predicate IsTable(pfn: nat) {
      exists d :: TableAt(d, pfn)
    }

    ghost predicate TablesOk() {
      && Shape()
      && (forall d, pfn | TableAt(d, pfn) :: IsAllocated(pfn))
      && (forall d, e, pfn | TableAt(d, pfn) && TableAt(e, pfn) :: d == e)
    }

    /** Where the entry of a page lies in memory. */
    function Slot(page: nat): int
      requires |directory| == ENTRIES && page / ENTRIES < ENTRIES
    {
      (directory[page / ENTRIES].base - basePfn) * ENTRIES + page % ENTRIES
    }

    /** What the processor finds for a page. */
    ghost function Find(page: nat): Option<Entry>
      requires TablesOk() && page < WINDOW_PAGE
    {
      var d := page / ENTRIES;
      if directory[d].p then
        assert TableAt(d, directory[d].base);
        var e := memory[Slot(page)];
        if e.p then Some(e) else None
      else None
    }

    ghost predicate Managed(page: nat) {
      FIRST_PAGE <= page < WINDOW_PAGE
    }

    ghost predicate MapsTo(page: nat, pfn: nat)
      requires TablesOk()
    {
      Managed(page) && Find(page).Some? && Find(page).value.base == pfn
    }

    /** The managed pages stand for an injective partial function into allocated frames, none of
        which is a table. */
    ghost predicate Ok() {
      && TablesOk()
      && (forall page, pfn | MapsTo(page, pfn) :: IsAllocated(pfn) && !IsTable(pfn))
      && (forall page, other, pfn | MapsTo(page, pfn) && MapsTo(other, pfn) :: page == other)
    }

    /** Allocated, and neither a table nor the frame of a page. */
    ghost predicate Unused(pfn: nat)
      requires TablesOk()
    {
      IsAllocated(pfn) && !IsTable(pfn) && forall page :: !MapsTo(page, pfn)
    }

    ghost predicate NoneFree() {
      forall i | 0 <= i < |states| :: !states[i].Free?
    }

    // ---------- Elementary changes ----------

    function WithState(pfn: nat, f: FrameState): Tables
      requires basePfn <= pfn < basePfn + |states|
    {
      this.(states := states[pfn - basePfn := f])
    }

    function WithEntry(page: nat, e: Entry): Tables
      requires |directory| == ENTRIES && page / ENTRIES < ENTRIES && 0 <= Slot(page) < |memory|
    {
      this.(memory := memory[Slot(page) := e])
    }

    /** memory with the entries of one frame cleared. */
    function ClearedMemory(pfn: nat): seq<Entry> {
      seq(|memory|, i requires 0 <= i < |memory| =>
        if i / ENTRIES == pfn - basePfn then NO_ENTRY else memory[i])
    }

    function WithTable(d: nat, e: Entry): Tables
      requires d < |directory|
    {
      this.(directory := directory[d := e], memory := ClearedMemory(e.base))
    }
  }

  /** Every page outside lo, ..., hi - 1 is translated alike. */
  ghost predicate AgreeOutside(t: Tables, u: Tables, lo: nat, hi: nat)
    requires t.TablesOk() && u.TablesOk()
  {
    forall page: nat | page < WINDOW_PAGE && !(lo <= page < hi) :: u.Find(page) == t.Find(page)
  }

  /** A frame that was free is neither a table nor mapped; handing it out changes no page. */
  lemma TakeFrame(t: Tables, pfn: nat)
    requires t.Ok() && t.basePfn <= pfn < t.basePfn + |t.states| && t.states[pfn - t.basePfn].Free?
    ensures var u := t.WithState(pfn, Allocated);
            && u.Ok() && AgreeOutside(t, u, 0, 0) && u.Unused(pfn)
            && (forall f :: u.IsTable(f) <==> t.IsTable(f))
            && forall g | t.Unused(g) :: u.Unused(g) && g != pfn
  {
    var u := t.WithState(pfn, Allocated);
    assert forall d, f :: u.TableAt(d, f) <==> t.TableAt(d, f);
    assert forall f | t.IsAllocated(f) :: u.IsAllocated(f);
    assert u.TablesOk();
    assert forall f :: u.IsTable(f) <==> t.IsTable(f);
    assert AgreeOutside(t, u, 0, 0);
    assert forall page, f :: u.MapsTo(page, f) <==> t.MapsTo(page, f);
  }

  /** Returning a frame nobody uses changes no page either. */
  lemma ReturnFrame(t: Tables, pfn: nat)
    requires t.Ok() && t.Unused(pfn)
    ensures var u := t.WithState(pfn, Free);
            && u.Ok() && AgreeOutside(t, u, 0, 0)
            && (forall f :: u.IsTable(f) <==> t.IsTable(f))
            && forall g | t.Unused(g) && g != pfn :: u.Unused(g)
  {
    var u := t.WithState(pfn, Free);
    assert forall d, f :: u.TableAt(d, f) <==> t.TableAt(d, f);
    assert forall f | t.IsAllocated(f) && f != pfn :: u.IsAllocated(f);
    assert forall d, f | u.TableAt(d, f) :: t.IsTable(f);
    assert u.TablesOk();
    assert forall f :: u.IsTable(f) <==> t.IsTable(f);
    assert AgreeOutside(t, u, 0, 0);
    assert forall page, f :: u.MapsTo(page, f) <==> t.MapsTo(page, f);
  }

  /** Different pages have different entries, also when their tables are different frames. */
  lemma SlotsDiffer(t: Tables, page: nat, other: nat)
    requires t.TablesOk() && page < WINDOW_PAGE && other < WINDOW_PAGE && page != other
    requires t.directory[page / ENTRIES].p && t.directory[other / ENTRIES].p
    ensures t.Slot(page) != t.Slot(other)
    ensures 0 <= t.Slot(page) < |t.memory|
  {
    assert t.TableAt(page / ENTRIES, t.directory[page / ENTRIES].base);
    assert t.TableAt(other / ENTRIES, t.directory[other / ENTRIES].base);
  }

  lemma TranslationKept(t: Tables, d: nat, e: Entry, page: nat)
    requires t.Ok() && 0 < d < ENTRIES - 1 && !t.directory[d].p && e.p && t.Unused(e.base)
    requires t.WithTable(d, e).TablesOk() && page < WINDOW_PAGE
    ensures t.WithTable(d, e).Find(page) == t.Find(page)
  {
    var u, c := t.WithTable(d, e), page / ENTRIES;
    if t.directory[c].p {
      assert t.TableAt(c, t.directory[c].base) && t.IsTable(t.directory[c].base);
      assert u.Slot(page) == t.Slot(page) && t.Slot(page) / ENTRIES == t.directory[c].base - t.basePfn;
    } else if c == d {
      assert u.Slot(page) / ENTRIES == e.base - t.basePfn;
    }
  }

  /** A new table, cleared, in an unused frame. */
  lemma AddTable(t: Tables, d: nat, e: Entry)
    requires t.Ok() && 0 < d < ENTRIES - 1 && !t.directory[d].p && e.p && t.Unused(e.base)
    ensures var u := t.WithTable(d, e);
            && u.Ok() && AgreeOutside(t, u, 0, 0) && u.IsTable(e.base)
            && (forall f | t.IsTable(f) :: u.IsTable(f))
            && forall g | t.Unused(g) && g != e.base :: u.Unused(g)
  {
    var u := t.WithTable(d, e);
    assert forall c, f :: u.TableAt(c, f) <==> t.TableAt(c, f) || (c == d && f == e.base);
    assert u.TableAt(d, e.base);
    assert forall c, f | t.TableAt(c, f) :: t.IsTable(f);
    assert u.TablesOk();
    assert forall f :: u.IsTable(f) <==> t.IsTable(f) || f == e.base;
    forall page: nat | page < WINDOW_PAGE
      ensures u.Find(page) == t.Find(page)
    {
      TranslationKept(t, d, e, page);
    }
    assert forall page, f :: u.MapsTo(page, f) <==> t.MapsTo(page, f);
  }

  /** Overwriting one page's entry, by one that is absent or that maps an unused frame. */
  lemma SetPage(t: Tables, page: nat, e: Entry)
    requires t.Ok() && t.Managed(page) && t.directory[page / ENTRIES].p
    requires e.p ==> t.Unused(e.base)
    ensures 0 <= t.Slot(page) < |t.memory|
    ensures var u := t.WithEntry(page, e);
            && u.Ok() && AgreeOutside(t, u, page, page + 1)
            && u.Find(page) == (if e.p then Some(e) else None)
            && (forall f :: u.IsTable(f) <==> t.IsTable(f))
            && (forall g | t.Unused(g) && !(e.p && g == e.base) :: u.Unused(g))
            && (forall g | t.MapsTo(page, g) && !(e.p && g == e.base) :: u.Unused(g))
  {
    assert t.TableAt(page / ENTRIES, t.directory[page / ENTRIES].base);
    var u := t.WithEntry(page, e);
    assert forall d, f :: u.TableAt(d, f) <==> t.TableAt(d, f);
    assert u.TablesOk();
    assert forall f :: u.IsTable(f) <==> t.IsTable(f);
    forall other: nat | other < WINDOW_PAGE && other != page
      ensures u.Find(other) == t.Find(other)
    {
      if t.directory[other / ENTRIES].p {
        SlotsDiffer(t, other, page);
      }
    }
    assert forall other, f | other != page :: u.MapsTo(other, f) <==> t.MapsTo(other, f);
    assert forall f :: u.MapsTo(page, f) <==> e.p && f == e.base;
  }

  // ---------- What a whole call may change ----------

  /** Frames were only taken, from the free ones, and tables only added. */
  ghost predicate OnlyTakes(t: Tables, u: Tables) {
    && |u.states| == |t.states| && u.basePfn == t.basePfn
    && (forall pfn | t.IsTable(pfn) :: u.IsTable(pfn))
    && forall i | 0 <= i < |t.states| ::
         u.states[i] == t.states[i] || (t.states[i].Free? && u.states[i].Allocated?)
  }

  /** Pages lo, ..., hi - 1 kept what they had or got a frame that was free; the others kept all. */
  ghost predicate Grown(t: Tables, u: Tables, lo: nat, hi: nat)
    requires t.Ok() && u.Ok()
  {
    && OnlyTakes(t, u) && AgreeOutside(t, u, lo, hi)
    && forall page: nat, pfn: nat | lo <= page < hi && u.MapsTo(page, pfn) ::
         if t.Find(page).Some? then u.Find(page) == t.Find(page)
         else t.basePfn <= pfn < t.basePfn + |t.states| && t.states[pfn - t.basePfn].Free?
  }

  /** Pages lo, ..., hi - 1 that are new are writable, for the kernel alone, and cached as usual. */
  ghost predicate NewPagesPlain(t: Tables, u: Tables, lo: nat, hi: nat)
    requires t.Ok() && u.Ok()
  {
    forall page: nat | lo <= page < hi && page < WINDOW_PAGE && t.Find(page).None? && u.Find(page).Some? ::
      KernelEntry(u.Find(page).value)
  }

  /** So are the directory entries that are new; the others are as before. */
  ghost predicate NewTablesPlain(t: Tables, u: Tables) {
    |u.directory| == |t.directory| &&
    forall d | 0 <= d < |t.directory| ::
      u.directory[d] == t.directory[d] || (!t.directory[d].p && KernelEntry(u.directory[d]))
  }

  /** Frame pfn backs one of the pages lo, ..., hi - 1. */
  ghost predicate BelongsTo(t: Tables, lo: nat, hi: nat, pfn: nat)
    requires t.Ok()
  {
    exists page: nat | lo <= page < hi :: t.MapsTo(page, pfn)
  }

  /** Every frame taken now is a table or backs one of the pages lo, ..., hi - 1. */
  ghost predicate NoLeak(t: Tables, u: Tables, lo: nat, hi: nat)
    requires t.Ok() && u.Ok() && OnlyTakes(t, u)
  {
    forall i | 0 <= i < |t.states| && t.states[i].Free? && u.states[i].Allocated? ::
      u.IsTable(t.basePfn + i) || BelongsTo(u, lo, hi, t.basePfn + i)
  }

  /** The one difference is that frame pfn, which was free, is taken and nobody has it. */
  ghost predicate Lost(t: Tables, u: Tables, pfn: nat)
    requires t.Ok() && u.Ok()
  {
    t.basePfn <= pfn < t.basePfn + |t.states| && t.states[pfn - t.basePfn].Free? && u == t.WithState(pfn, Allocated)
    && u.Unused(pfn)
  }

  ghost predicate NoLeakBut(t: Tables, u: Tables, lo: nat, hi: nat, pfn: nat)
    requires t.Ok() && u.Ok() && OnlyTakes(t, u)
  {
    forall i | 0 <= i < |t.states| && t.states[i].Free? && u.states[i].Allocated? ::
      u.IsTable(t.basePfn + i) || BelongsTo(u, lo, hi, t.basePfn + i) || t.basePfn + i == pfn
  }

  /** Every frame taken now, but perhaps one, is a table or backs one of the pages lo, ..., hi - 1. */
  ghost predicate AtMostOneLost(t: Tables, u: Tables, lo: nat, hi: nat)
    requires t.Ok() && u.Ok() && OnlyTakes(t, u)
  {
    NoLeak(t, u, lo, hi) || exists pfn: nat :: NoLeakBut(t, u, lo, hi, pfn) && u.Unused(pfn)
  }

  lemma SameOwner(u: Tables, w: Tables, lo: nat, hi: nat, end: nat, pfn: nat)
    requires u.Ok() && w.Ok() && AgreeOutside(u, w, 0, 0) && BelongsTo(u, lo, hi, pfn) && hi <= end
    ensures BelongsTo(w, lo, end, pfn)
  {
    assert u.TablesOk() && w.TablesOk();
    hide Tables.Ok, Tables.TablesOk, Tables.Find;
    var page: nat :| lo <= page < hi && u.MapsTo(page, pfn);
    assert w.Find(page) == u.Find(page);
    assert w.MapsTo(page, pfn);
  }

  lemma LostBehind(t: Tables, u: Tables, w: Tables, lo: nat, hi: nat, end: nat, pfn: nat)
    requires t.Ok() && u.Ok() && w.Ok() && OnlyTakes(t, u) && OnlyTakes(t, w)
    requires NoLeak(t, u, lo, hi) && hi <= end && Lost(u, w, pfn) && AgreeOutside(u, w, 0, 0)
    ensures AtMostOneLost(t, w, lo, end)
  {
    hide Tables.Ok, Tables.Find, Tables.Unused, AgreeOutside;
    forall i | 0 <= i < |t.states| && t.states[i].Free? && w.states[i].Allocated?
      ensures w.IsTable(t.basePfn + i) || BelongsTo(w, lo, end, t.basePfn + i) || t.basePfn + i == pfn
    {
      var g := t.basePfn + i;
      if g != pfn {
        assert u.states[i].Allocated?;
        if u.IsTable(g) {
          var d :| u.TableAt(d, g);
          assert w.TableAt(d, g);
        } else {
          SameOwner(u, w, lo, hi, end, g);
        }
      }
    }
    assert NoLeakBut(t, w, lo, end, pfn);
  }

  lemma NoLeakInLarger(t: Tables, u: Tables, lo: nat, hi: nat, end: nat)
    requires t.Ok() && u.Ok() && OnlyTakes(t, u) && NoLeak(t, u, lo, hi) && hi <= end
    ensures NoLeak(t, u, lo, end)
  {
    hide Tables.Ok, Tables.Find;
    forall i | 0 <= i < |t.states| && t.states[i].Free? && u.states[i].Allocated?
      ensures u.IsTable(t.basePfn + i) || BelongsTo(u, lo, end, t.basePfn + i)
    {
      if BelongsTo(u, lo, hi, t.basePfn + i) {
        SameOwner(u, u, lo, hi, end, t.basePfn + i);
      }
    }
  }

  lemma FailedPage(t: Tables, u: Tables, w: Tables, lo: nat, hi: nat, end: nat)
    requires t.Ok() && u.Ok() && w.Ok() && OnlyTakes(t, u) && OnlyTakes(t, w) && hi <= end
    requires NoLeak(t, u, lo, hi) && AgreeOutside(u, w, 0, 0)
    requires u == w || exists pfn: nat :: Lost(u, w, pfn)
    ensures AtMostOneLost(t, w, lo, end)
  {
    if u == w {
      NoLeakInLarger(t, u, lo, hi, end);
    } else {
      hide Tables.Ok, Tables.Find, AgreeOutside, OnlyTakes;
      var pfn: nat :| Lost(u, w, pfn);
      LostBehind(t, u, w, lo, hi, end, pfn);
    }
  }

  ghost predicate AllMapped(t: Tables, lo: nat, hi: nat)
    requires t.Ok()
  {
    forall page: nat | lo <= page < hi && page < WINDOW_PAGE :: t.Find(page).Some?
  }

  lemma GrowOneMore(t: Tables, u: Tables, w: Tables, lo: nat, hi: nat)
    requires t.Ok() && u.Ok() && w.Ok() && FIRST_PAGE <= lo <= hi < WINDOW_PAGE
    requires Grown(t, u, lo, hi) && Grown(u, w, hi, hi + 1)
    ensures Grown(t, w, lo, hi + 1)
    ensures AllMapped(u, lo, hi) && w.Find(hi).Some? ==> AllMapped(w, lo, hi + 1)
  {
    forall page: nat, pfn: nat | lo <= page < hi + 1 && w.MapsTo(page, pfn)
      ensures if t.Find(page).Some? then w.Find(page) == t.Find(page)
              else t.basePfn <= pfn < t.basePfn + |t.states| && t.states[pfn - t.basePfn].Free?
    {
      if page < hi {
        assert w.Find(page) == u.Find(page) && u.MapsTo(page, pfn);
      } else {
        assert u.Find(page) == t.Find(page);
      }
    }
  }

  lemma LeaklessOneMore(t: Tables, u: Tables, w: Tables, lo: nat, hi: nat)
    requires t.Ok() && u.Ok() && w.Ok() && lo <= hi < WINDOW_PAGE
    requires OnlyTakes(t, u) && OnlyTakes(u, w) && AgreeOutside(u, w, hi, hi + 1)
    requires NoLeak(t, u, lo, hi) && NoLeak(u, w, hi, hi + 1)
    ensures OnlyTakes(t, w) && NoLeak(t, w, lo, hi + 1)
  {
    hide Tables.TablesOk, Tables.Find, Tables.IsTable;
    forall pfn | BelongsTo(u, lo, hi, pfn) || BelongsTo(w, hi, hi + 1, pfn)
      ensures BelongsTo(w, lo, hi + 1, pfn)
    {
      if BelongsTo(u, lo, hi, pfn) {
        var page: nat :| lo <= page < hi && u.MapsTo(page, pfn);
        assert w.MapsTo(page, pfn);
      } else {
        assert w.MapsTo(hi, pfn);
      }
    }
  }

  lemma NothingNew(t: Tables, u: Tables, lo: nat, hi: nat)
    requires t.Ok() && u.Ok() && u.directory == t.directory && AgreeOutside(t, u, 0, 0)
    ensures NewPagesPlain(t, u, lo, hi) && NewTablesPlain(t, u)
  {
  }

  lemma NewTwice(t: Tables, u: Tables, w: Tables)
    requires NewTablesPlain(t, u) && NewTablesPlain(u, w)
    ensures NewTablesPlain(t, w)
  {
  }

  lemma NewOneMore(t: Tables, u: Tables, w: Tables, lo: nat, hi: nat, end: nat)
    requires t.Ok() && u.Ok() && w.Ok() && lo <= hi < end
    requires AgreeOutside(t, u, lo, hi) && AgreeOutside(u, w, hi, hi + 1)
    requires NewPagesPlain(t, u, lo, hi) && NewTablesPlain(t, u)
    requires NewPagesPlain(u, w, hi, hi + 1) && NewTablesPlain(u, w)
    ensures NewTablesPlain(t, w)
    ensures NewPagesPlain(t, w, lo, hi + 1)
    ensures AgreeOutside(u, w, 0, 0) ==> NewPagesPlain(t, w, lo, end)
  {
    NewTwice(t, u, w);
    hide Tables.TablesOk, Tables.Find, NewTablesPlain, KernelEntry;
  }

  lemma NothingChanged(t: Tables)
    requires t.Ok()
    ensures AgreeOutside(t, t, 0, 0) && OnlyTakes(t, t)
    ensures forall lo, hi :: Grown(t, t, lo, hi) && NoLeak(t, t, lo, hi)
  {
  }

  lemma KeptTranslation(t: Tables, u: Tables, page: nat)
    requires t.Ok() && u.Ok() && AgreeOutside(t, u, 0, 0) && page < WINDOW_PAGE
    ensures u.Find(page) == t.Find(page) && AgreeOutside(t, u, page, page + 1)
  {
  }

  lemma GrownInLarger(t: Tables, u: Tables, lo: nat, mid: nat, hi: nat)
    requires t.Ok() && u.Ok() && Grown(t, u, lo, mid) && lo <= mid <= hi
    ensures Grown(t, u, lo, hi)
  {
    forall page: nat, pfn: nat | lo <= page < hi && u.MapsTo(page, pfn)
      ensures if t.Find(page).Some? then u.Find(page) == t.Find(page)
              else t.basePfn <= pfn < t.basePfn + |t.states| && t.states[pfn - t.basePfn].Free?
    {
      if mid <= page {
        assert u.Find(page) == t.Find(page);
      }
    }
  }

  // ---------- The steps of a mapping ----------

  lemma KeptTwice(t: Tables, u: Tables, w: Tables)
    requires t.TablesOk() && u.TablesOk() && w.TablesOk() && AgreeOutside(t, u, 0, 0) && AgreeOutside(u, w, 0, 0)
    ensures AgreeOutside(t, w, 0, 0)
  {
    hide Tables.TablesOk, Tables.Find;
  }

  /** Taking a frame for a new table. */
  lemma NewTable(t: Tables, d: nat, e: Entry)
    requires t.Ok() && 0 < d < ENTRIES - 1 && !t.directory[d].p && e.p
    requires t.basePfn <= e.base < t.basePfn + |t.states| && t.states[e.base - t.basePfn].Free?
    ensures var u := t.WithState(e.base, Allocated).WithTable(d, e);
            && u.Ok() && AgreeOutside(t, u, 0, 0) && OnlyTakes(t, u) && NoLeak(t, u, 0, 0)
            && forall g | t.Unused(g) :: u.Unused(g)
  {
    var taken := t.WithState(e.base, Allocated);
    TakeFrame(t, e.base);
    AddTable(taken, d, e);
    hide Tables.Ok, Tables.TablesOk, Tables.Find, Tables.Unused, Tables.IsTable;
    KeptTwice(t, taken, taken.WithTable(d, e));
  }

  /** Writing a page's entry after its table is there. */
  lemma EntryBehindTable(t: Tables, u: Tables, page: nat, e: Entry)
    requires t.Ok() && u.Ok() && t.Managed(page) && u.directory[page / ENTRIES].p
    requires AgreeOutside(t, u, 0, 0) && OnlyTakes(t, u) && NoLeak(t, u, 0, 0)
    requires e.p && u.Unused(e.base)
    ensures 0 <= u.Slot(page) < |u.memory|
    ensures var w := u.WithEntry(page, e);
            && w.Ok() && AgreeOutside(t, w, page, page + 1) && OnlyTakes(t, w)
            && w.Find(page) == Some(e) && NoLeak(t, w, 0, 0)
  {
    SetPage(u, page, e);
  }

  /** Taking a frame for a page only takes. */
  lemma TakenForPage(t: Tables, t1: Tables, u: Tables, pfn: nat)
    requires t.basePfn <= pfn < t.basePfn + |t.states| && t.states[pfn - t.basePfn].Free?
    requires t1 == t.WithState(pfn, Allocated) && OnlyTakes(t1, u)
    ensures OnlyTakes(t, u)
  {
    assert forall d, f :: t1.TableAt(d, f) <==> t.TableAt(d, f);
    assert forall f | t.IsTable(f) :: t1.IsTable(f);
  }

  lemma ServedGrows(t: Tables, t1: Tables, u: Tables, page: nat, pfn: nat)
    requires t.Ok() && t1.Ok() && u.Ok() && t.Managed(page) && t.Find(page).None? && OnlyTakes(t, u)
    requires t.basePfn <= pfn < t.basePfn + |t.states| && t.states[pfn - t.basePfn].Free?
    requires AgreeOutside(t, t1, 0, 0) && AgreeOutside(t1, u, page, page + 1)
    ensures (u.Find(page).Some? ==> u.Find(page).value.base == pfn) ==> Grown(t, u, page, page + 1)
  {
    hide Tables.TablesOk, Tables.Find, Tables.IsTable, OnlyTakes;
  }

  lemma FrameOfTable(t: Tables, u: Tables, i: nat)
    requires t.Ok() && u.Ok() && OnlyTakes(t, u) && NoLeak(t, u, 0, 0)
    requires i < |t.states| && t.states[i].Free? && u.states[i].Allocated?
    ensures u.IsTable(t.basePfn + i)
  {
    hide Tables.Ok, Tables.TablesOk, Tables.Find, Tables.IsTable, Tables.MapsTo;
    assert !BelongsTo(u, 0, 0, t.basePfn + i);
  }

  /** A frame taken for t1 that is not the page's is a table. */
  lemma FrameServed(t: Tables, t1: Tables, u: Tables, pfn: nat, i: nat)
    requires t.Ok() && t1.Ok() && u.Ok() && OnlyTakes(t, u) && OnlyTakes(t1, u) && NoLeak(t1, u, 0, 0)
    requires t.basePfn <= pfn < t.basePfn + |t.states| && t1 == t.WithState(pfn, Allocated)
    requires i < |t.states| && t.states[i].Free? && u.states[i].Allocated? && t.basePfn + i != pfn
    ensures u.IsTable(t.basePfn + i)
  {
    hide Tables.Ok, Tables.TablesOk, Tables.IsTable, NoLeak, OnlyTakes;
    FrameOfTable(t1, u, i);
  }

  lemma FramesServed(t: Tables, t1: Tables, u: Tables, pfn: nat)
    requires t.Ok() && t1.Ok() && u.Ok() && OnlyTakes(t, u) && OnlyTakes(t1, u) && NoLeak(t1, u, 0, 0)
    requires t.basePfn <= pfn < t.basePfn + |t.states| && t1 == t.WithState(pfn, Allocated)
    ensures |u.states| == |t.states|
    ensures forall i | 0 <= i < |t.states| && t.states[i].Free? && u.states[i].Allocated? ::
              u.IsTable(t.basePfn + i) || t.basePfn + i == pfn
  {
    assert |u.states| == |t.states|;
    hide Tables.Ok, Tables.TablesOk, Tables.IsTable, OnlyTakes, NoLeak;
    forall i | 0 <= i < |t.states| && t.states[i].Free? && u.states[i].Allocated?
      ensures u.IsTable(t.basePfn + i) || t.basePfn + i == pfn
    {
      if t.basePfn + i != pfn {
        FrameServed(t, t1, u, pfn, i);
      }
    }
  }

  lemma PageBehind(t: Tables, u: Tables, page: nat, pfn: nat)
    requires t.Ok() && u.Ok() && OnlyTakes(t, u) && |u.states| == |t.states| && u.MapsTo(page, pfn)
    requires forall i | 0 <= i < |t.states| && t.states[i].Free? && u.states[i].Allocated? ::
               u.IsTable(t.basePfn + i) || t.basePfn + i == pfn
    ensures NoLeak(t, u, page, page + 1)
  {
    assert BelongsTo(u, page, page + 1, pfn);
    hide Tables.Ok, Tables.TablesOk, Tables.IsTable, OnlyTakes, BelongsTo;
  }

  /** One page served: a frame taken from t gives t1, mapping it gives u. */
  lemma PageServed(t: Tables, t1: Tables, u: Tables, page: nat, pfn: nat)
    requires t.Ok() && t1.Ok() && u.Ok() && t.Managed(page) && t.Find(page).None?
    requires t.basePfn <= pfn < t.basePfn + |t.states| && t.states[pfn - t.basePfn].Free?
    requires t1 == t.WithState(pfn, Allocated) && AgreeOutside(t, t1, 0, 0)
    requires AgreeOutside(t1, u, page, page + 1) && OnlyTakes(t1, u) && NoLeak(t1, u, 0, 0)
    ensures OnlyTakes(t, u)
    ensures (u.Find(page).Some? ==> u.Find(page).value.base == pfn) ==> Grown(t, u, page, page + 1)
    ensures u.MapsTo(page, pfn) ==> NoLeak(t, u, page, page + 1)
  {
    TakenForPage(t, t1, u, pfn);
    hide Tables.TablesOk, Tables.Find, Tables.IsTable, OnlyTakes;
    ServedGrows(t, t1, u, page, pfn);
    if u.MapsTo(page, pfn) {
      FramesServed(t, t1, u, pfn);
      PageBehind(t, u, page, pfn);
    }
  }

  /** Pages lo, ..., hi - 1 are gone and exactly their frames became free. */
  ghost predicate Shrunk(t: Tables, u: Tables, lo: nat, hi: nat)
    requires t.Ok() && u.Ok()
  {
    && |u.states| == |t.states| && u.basePfn == t.basePfn
    && AgreeOutside(t, u, lo, hi)
    && (forall pfn :: u.IsTable(pfn) <==> t.IsTable(pfn))
    && (forall page: nat | lo <= page < hi && page < WINDOW_PAGE :: u.Find(page).None?)
    && (forall i | 0 <= i < |t.states| ::
          u.states[i] == if BelongsTo(t, lo, hi, t.basePfn + i) then Free else t.states[i])
  }

  lemma ShrinkOneMore(t: Tables, u: Tables, w: Tables, lo: nat, hi: nat)
    requires t.Ok() && u.Ok() && w.Ok() && FIRST_PAGE <= lo <= hi < WINDOW_PAGE
    requires Shrunk(t, u, lo, hi) && Shrunk(u, w, hi, hi + 1)
    ensures Shrunk(t, w, lo, hi + 1)
  {
    assert forall page: nat | lo <= page < hi :: w.Find(page) == u.Find(page);
    assert forall pfn :: u.MapsTo(hi, pfn) <==> t.MapsTo(hi, pfn);
    forall i | 0 <= i < |t.states|
      ensures w.states[i] == if BelongsTo(t, lo, hi + 1, t.basePfn + i) then Free else t.states[i]
    {
      var pfn := t.basePfn + i;
      assert BelongsTo(u, hi, hi + 1, pfn) <==> u.MapsTo(hi, pfn);
      assert BelongsTo(t, lo, hi + 1, pfn) <==> BelongsTo(t, lo, hi, pfn) || t.MapsTo(hi, pfn);
    }
  }

  // ---------- The steps of an unmapping ----------

  lemma ShrinkNothing(t: Tables, lo: nat)
    requires t.Ok()
    ensures Shrunk(t, t, lo, lo)
  {
  }

  lemma NothingShrunk(t: Tables, page: nat)
    requires t.Ok() && t.Managed(page) && t.Find(page).None?
    ensures Shrunk(t, t, page, page + 1)
  {
    assert forall pfn :: !t.MapsTo(page, pfn);
  }

  lemma OnlyFrameOf(t: Tables, page: nat, hi: nat, pfn: nat)
    requires t.Ok() && t.MapsTo(page, pfn) && hi == page + 1
    ensures forall f :: BelongsTo(t, page, hi, f) <==> f == pfn
  {
    forall f
      ensures BelongsTo(t, page, hi, f) <==> f == pfn
    {
      assert BelongsTo(t, page, hi, f) <==> t.MapsTo(page, f);
    }
  }

  /** One page returned: unmapping it in t gives u, then its frame is released. */
  lemma PageReturned(t: Tables, u: Tables, page: nat, pfn: nat)
    requires t.Ok() && u.Ok() && t.MapsTo(page, pfn)
    requires u.states == t.states && u.basePfn == t.basePfn
    requires forall f :: u.IsTable(f) <==> t.IsTable(f)
    requires AgreeOutside(t, u, page, page + 1) && u.Find(page).None? && u.Unused(pfn)
    ensures var w := u.WithState(pfn, Free); w.Ok() && Shrunk(t, w, page, page + 1)
  {
    ReturnFrame(u, pfn);
    OnlyFrameOf(t, page, page + 1, pfn);
    hide Tables.TablesOk, Tables.Find, BelongsTo;
  }

  /** Allocating pages that were absent and freeing them again: every page is translated as before
      and every frame is as before, except for those that became page tables. */
  lemma GrowThenShrink(t: Tables, u: Tables, w: Tables, lo: nat, hi: nat)
    requires t.Ok() && u.Ok() && w.Ok() && FIRST_PAGE <= lo && hi <= WINDOW_PAGE
    requires forall page: nat | lo <= page < hi && page < WINDOW_PAGE :: t.Find(page).None?
    requires Grown(t, u, lo, hi) && NoLeak(t, u, lo, hi) && Shrunk(u, w, lo, hi)
    ensures AgreeOutside(t, w, 0, 0) && |w.states| == |t.states|
    ensures forall i | 0 <= i < |t.states| ::
              w.states[i] == t.states[i] || (t.states[i].Free? && w.IsTable(t.basePfn + i))
  {
    hide Tables.IsTable;
    forall i | 0 <= i < |t.states| && BelongsTo(u, lo, hi, t.basePfn + i)
      ensures t.states[i].Free?
    {
      var page: nat :| lo <= page < hi && u.MapsTo(page, t.basePfn + i);
      assert t.Find(page).None?;
    }
  }

  // ---------- How many frames a range needs ----------

  /** The pages of lo, ..., hi - 1 that have no frame. */
  ghost function AbsentPages(t: Tables, lo: nat, hi: nat): nat
    requires t.Ok() && hi <= WINDOW_PAGE
    decreases hi
  {
    if hi <= lo then 0 else AbsentPages(t, lo, hi - 1) + if t.Find(hi - 1).None? then 1 else 0
  }

  /** The directory entries first, ..., end - 1 that have no table. */
  ghost function MissingTables(t: Tables, first: nat, end: nat): nat
    requires |t.directory| == ENTRIES && end <= ENTRIES
    decreases end
  {
    if end <= first then 0 else MissingTables(t, first, end - 1) + if t.directory[end - 1].p then 0 else 1
  }

  /** One frame for each absent page and one for each missing table. */
  ghost function Needed(t: Tables, lo: nat, hi: nat): nat
    requires t.Ok() && hi <= WINDOW_PAGE
  {
    if hi <= lo then 0 else AbsentPages(t, lo, hi) + MissingTables(t, lo / ENTRIES, (hi - 1) / ENTRIES + 1)
  }

  ghost function NeededFor(t: Tables, page: nat): nat
    requires t.Ok() && page < WINDOW_PAGE
  {
    if t.Find(page).Some? then 0 else if t.directory[page / ENTRIES].p then 1 else 2
  }

  /** There is a frame for the page, but then none for its table. */
  ghost predicate LosesFrame(t: Tables, page: nat)
    requires t.Ok() && page < WINDOW_PAGE
  {
    CountFree(t.states) == 1 && t.Find(page).None? && !t.directory[page / ENTRIES].p
  }

  ghost predicate LosesFrameAt(t: Tables, lo: nat, page: nat)
    requires t.Ok() && page < WINDOW_PAGE
  {
    Needed(t, lo, page) + 1 == CountFree(t.states) && Needed(t, lo, page + 1) == CountFree(t.states) + 1
  }

  /** Serving the range page by page comes to such a page. */
  ghost predicate LosesFrameIn(t: Tables, lo: nat, hi: nat)
    requires t.Ok() && hi <= WINDOW_PAGE
  {
    exists page: nat :: lo <= page < hi && LosesFrameAt(t, lo, page)
  }

  ghost predicate DirectoryGrown(t: Tables, u: Tables, d: nat) {
    |u.directory| == |t.directory| &&
    forall c | 0 <= c < |t.directory| :: u.directory[c].p <==> t.directory[c].p || c == d
  }

  /** The range has been served up to `page`. */
  ghost predicate Served(t: Tables, u: Tables, lo: nat, page: nat)
    requires t.Ok() && page <= WINDOW_PAGE
  {
    CountFree(u.states) + Needed(t, lo, page) == CountFree(t.states) && |u.directory| == ENTRIES &&
    forall d | 0 <= d < ENTRIES ::
      u.directory[d].p <==> t.directory[d].p || (lo < page && lo / ENTRIES <= d <= (page - 1) / ENTRIES)
  }

  lemma NeededMore(t: Tables, lo: nat, page: nat)
    requires t.Ok() && lo <= page < WINDOW_PAGE
    ensures Needed(t, lo, page + 1) == Needed(t, lo, page) + (if t.Find(page).None? then 1 else 0) +
              if !t.directory[page / ENTRIES].p && (page == lo || page % ENTRIES == 0) then 1 else 0
  {
    assert |t.directory| == ENTRIES;
    hide Tables.TablesOk, Tables.Find;
    var d := page / ENTRIES;
    assert AbsentPages(t, lo, page + 1) == AbsentPages(t, lo, page) + if t.Find(page).None? then 1 else 0;
    assert MissingTables(t, d, d) == 0;
    if lo < page {
      assert (page - 1) / ENTRIES + 1 == if page % ENTRIES == 0 then d else d + 1;
      assert lo / ENTRIES <= d;
      assert MissingTables(t, lo / ENTRIES, d + 1)
          == MissingTables(t, lo / ENTRIES, d) + if t.directory[d].p then 0 else 1;
    } else {
      assert MissingTables(t, d, d + 1) == if t.directory[d].p then 0 else 1;
    }
  }

  lemma {:induction false} NeededGrows(t: Tables, lo: nat, page: nat, hi: nat)
    requires t.Ok() && lo <= page <= hi <= WINDOW_PAGE
    ensures Needed(t, lo, page) <= Needed(t, lo, hi)
    decreases hi
  {
    hide Tables.TablesOk, Tables.Find, Needed;
    if page < hi {
      NeededMore(t, lo, hi - 1);
      NeededGrows(t, lo, page, hi - 1);
    }
  }

  /** What the next page needs now is what it adds to the needs of the range. */
  lemma NeededNext(t: Tables, u: Tables, lo: nat, page: nat)
    requires t.Ok() && u.Ok() && lo <= page < WINDOW_PAGE && Served(t, u, lo, page)
    requires AgreeOutside(t, u, lo, page)
    ensures Needed(t, lo, page + 1) == Needed(t, lo, page) + NeededFor(u, page)
  {
    NeededMore(t, lo, page);
    assert u.Find(page) == t.Find(page);
    var d := page / ENTRIES;
    assert t.Find(page).Some? ==> t.directory[d].p;
    hide Tables.TablesOk, Tables.Find, Needed, CountFree, AgreeOutside;
    assert u.directory[d].p <==> t.directory[d].p || (lo < page && lo / ENTRIES <= d <= (page - 1) / ENTRIES);
    if lo < page {
      assert d <= (page - 1) / ENTRIES <==> page % ENTRIES != 0;
    }
  }

  lemma ServedMore(t: Tables, u: Tables, w: Tables, lo: nat, page: nat)
    requires t.Ok() && u.Ok() && lo <= page < WINDOW_PAGE && Served(t, u, lo, page)
    requires AgreeOutside(t, u, lo, page)
    requires CountFree(w.states) + NeededFor(u, page) == CountFree(u.states) && DirectoryGrown(u, w, page / ENTRIES)
    ensures Served(t, w, lo, page + 1)
  {
    NeededNext(t, u, lo, page);
    hide Tables.TablesOk, Tables.Find, Needed, CountFree, AgreeOutside, NeededFor;
    forall d | 0 <= d < ENTRIES
      ensures w.directory[d].p <==> t.directory[d].p || lo / ENTRIES <= d <= page / ENTRIES
    {
      assert u.directory[d].p <==> t.directory[d].p || (lo < page && lo / ENTRIES <= d <= (page - 1) / ENTRIES);
    }
  }

  lemma NothingServed(t: Tables, lo: nat)
    requires t.Ok() && lo <= WINDOW_PAGE
    ensures Served(t, t, lo, lo)
  {
  }

  /** A range that was served needed no more frames than there were, and comes to no loss. */
  lemma ServedIsEnough(t: Tables, u: Tables, lo: nat, hi: nat)
    requires t.Ok() && lo <= hi <= WINDOW_PAGE && Served(t, u, lo, hi)
    ensures CountFree(u.states) + Needed(t, lo, hi) == CountFree(t.states) && !LosesFrameIn(t, lo, hi)
  {
    hide Tables.TablesOk, Tables.Find, Needed, CountFree;
    if page: nat :| lo <= page < hi && LosesFrameAt(t, lo, page) {
      NeededGrows(t, lo, page + 1, hi);
    }
  }

  lemma OneLossAtMost(t: Tables, lo: nat, page: nat, other: nat)
    requires t.Ok() && lo <= page < WINDOW_PAGE && lo <= other < WINDOW_PAGE && LosesFrameAt(t, lo, other)
    requires Needed(t, lo, page) <= CountFree(t.states) < Needed(t, lo, page + 1)
    ensures other == page
  {
    hide Tables.TablesOk, Tables.Find, Needed, CountFree;
    if other < page {
      NeededGrows(t, lo, other + 1, page);
    } else if page < other {
      NeededGrows(t, lo, page + 1, other);
    }
  }

  /** A range that stopped at `page` needed more; a frame is lost exactly if it is lost there. */
  lemma StoppedHere(t: Tables, u: Tables, lo: nat, page: nat, hi: nat)
    requires t.Ok() && u.Ok() && lo <= page < hi <= WINDOW_PAGE && Served(t, u, lo, page)
    requires AgreeOutside(t, u, lo, page) && CountFree(u.states) < NeededFor(u, page)
    ensures Needed(t, lo, hi) > CountFree(t.states)
    ensures LosesFrameIn(t, lo, hi) <==> LosesFrame(u, page)
  {
    NeededNext(t, u, lo, page);
    assert LosesFrame(u, page) <==> CountFree(u.states) == 1 && NeededFor(u, page) == 2;
    hide Tables.TablesOk, Tables.Find, Needed, CountFree, AgreeOutside, NeededFor, LosesFrame;
    NeededGrows(t, lo, page + 1, hi);
    if LosesFrame(u, page) {
      assert LosesFrameAt(t, lo, page);
    } else {
      forall other: nat | lo <= other < hi && LosesFrameAt(t, lo, other) ensures other == page {
        OneLossAtMost(t, lo, page, other);
      }
    }
  }

  /** A lost frame leaks. */
  lemma LostLeaks(t: Tables, u: Tables, w: Tables, lo: nat, hi: nat, pfn: nat)
    requires t.Ok() && u.Ok() && w.Ok() && OnlyTakes(t, u) && OnlyTakes(t, w) && Lost(u, w, pfn)
    ensures !NoLeak(t, w, lo, hi)
  {
    var i := pfn - t.basePfn;
    assert t.states[i].Free? && w.states[i].Allocated?;
    assert !w.IsTable(pfn) && forall page :: !w.MapsTo(page, pfn);
    hide Tables.Ok, OnlyTakes, Tables.IsTable, Tables.MapsTo;
    assert !BelongsTo(w, lo, hi, pfn);
  }

  /** A round that failed after the range was served so far leaks exactly if it lost a frame. */
  lemma LeaksIfLost(t: Tables, u: Tables, w: Tables, lo: nat, hi: nat, end: nat)
    requires t.Ok() && u.Ok() && w.Ok() && OnlyTakes(t, u) && OnlyTakes(t, w) && NoLeak(t, u, lo, hi) && hi <= end
    requires u == w || exists pfn: nat :: Lost(u, w, pfn)
    ensures NoLeak(t, w, lo, end) <==> !exists pfn: nat :: Lost(u, w, pfn)
  {
    hide Tables.Ok, Tables.Find, OnlyTakes, NoLeak;
    if pfn: nat :| Lost(u, w, pfn) {
      LostLeaks(t, u, w, lo, end, pfn);
    } else {
      NoLeakInLarger(t, u, lo, hi, end);
    }
  }

  lemma LeakFree(t: Tables, u: Tables, lo: nat, hi: nat)
    requires t.Ok() && u.Ok() && OnlyTakes(t, u) && NoLeak(t, u, lo, hi)
    ensures AtMostOneLost(t, u, lo, hi)
  {
  }

  lemma NothingLost(t: Tables, u: Tables, lo: nat, hi: nat)
    requires t.Ok() && u.Ok() && OnlyTakes(t, u) && NoLeak(t, u, lo, hi)
    ensures !exists pfn: nat :: Lost(t, u, pfn)
  {
    hide Tables.Ok, OnlyTakes;
    NothingChanged(t);
    forall pfn: nat ensures !Lost(t, u, pfn) {
      if Lost(t, u, pfn) {
        LostLeaks(t, t, u, lo, hi, pfn);
      }
    }
  }

  lemma TableBehind(t: Tables, page: nat)
    requires t.Ok() && t.Managed(page) && t.Find(page).Some?
    ensures NeededFor(t, page) == 0 && DirectoryGrown(t, t, page / ENTRIES) && !LosesFrame(t, page)
  {
  }

  lemma NeedsOfAbsent(t: Tables, page: nat)
    requires t.Ok() && t.Managed(page) && t.Find(page).None?
    ensures |t.directory| == ENTRIES
    ensures NeededFor(t, page) == if t.directory[page / ENTRIES].p then 1 else 2
    ensures LosesFrame(t, page) <==> CountFree(t.states) == 1 && !t.directory[page / ENTRIES].p
  {
  }

  lemma {:induction false} NoneFreeCount(s: seq<FrameState>)
    ensures CountFree(s) == 0 <==> forall i | 0 <= i < |s| :: !s[i].Free?
  {
    if s != [] {
      NoneFreeCount(s[..|s| - 1]);
    }
  }
}
