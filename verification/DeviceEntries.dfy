/**
 The pool and its lists as the entries of a run, and the children of each device in the order of the list.
 */
module DeviceEntries {
  import opened DeviceNames
  import opened DeviceRuns
  import opened DeviceSteps
  import opened DeviceTree
  import opened Links
  import opened Shell

  // ---------- The registry as entries ----------

  ghost function EntriesOf(pool: seq<Device>, list: seq<nat>): (entries: seq<Entry>)
    requires InPool(pool, list)
    ensures |entries| == |list|
    ensures forall i | 0 <= i < |list| :: entries[i] == Entry(list[i], pool[list[i]].parent, pool[list[i]].name)
  {
    seq(|list|, i requires 0 <= i < |list| => Entry(list[i], pool[list[i]].parent, pool[list[i]].name))
  }

  /** The entries are the ones of the book. */
  ghost predicate Shows(r: Registry, entries: seq<Entry>) {
    InPool(r.pool, r.list) && EntriesOf(r.pool, r.list) == entries
  }

  lemma SameNamesSeen(pool: seq<Device>, list: seq<nat>, i: nat, base: string)
    requires InPool(pool, list) && NoRepeat(list) && i < |list| && Buffers(EntriesOf(pool, list))
    ensures WithBase(pool, list, list[i], base) == NamesSeen(EntriesOf(pool, list), i, base)
  {
    var dev, entries := list[i], EntriesOf(pool, list);
    assert |entries[i].text| == NAME_MAX;
    hide CString, Copied;
    var pool' := pool[dev := pool[dev].(name := Copied(pool[dev].name, base))];
    var seen, names := NamesSeen(entries, i, base), NamesOf(pool', list);
    forall k | 0 <= k < |names| ensures names[k] == seen[k] {
      assert k != i ==> list[k] != dev;
    }
    assert names == seen;
  }

  lemma ListedInUse(r: Registry, dev: int)
    requires r.Valid() && InPool(r.pool, r.list)
    ensures Listed(EntriesOf(r.pool, r.list), dev) <==> 0 <= dev < CAPACITY && r.used[dev]
  {
    var entries := EntriesOf(r.pool, r.list);
    if 0 <= dev < CAPACITY && r.used[dev] {
      var c: nat := dev;
      assert c in r.list;
      var i :| 0 <= i < |r.list| && r.list[i] == c;
      assert entries[i].slot == dev;
    }
    if i :| 0 <= i < |entries| && entries[i].slot == dev {
      var c: nat := r.list[i];
      assert c in r.list;
    }
  }

  lemma ChildListed(r: Registry, dev: nat)
    requires r.Valid() && InPool(r.pool, r.list) && dev < CAPACITY
    ensures HasChild(EntriesOf(r.pool, r.list), dev) <==> r.pool[dev].firstChild != NONE
  {
    var entries := EntriesOf(r.pool, r.list);
    assert r.KidsValid(dev);
    if i :| 0 <= i < |entries| && entries[i].parent == dev {
      var c: nat := r.list[i];
      assert c in r.list && r.Related(dev, c);
    }
    if r.kids[dev] != [] {
      var c := r.kids[dev][0];
      assert c < CAPACITY;
      KidFacts(r, dev, c);
      assert c in r.list;
      var i :| 0 <= i < |r.list| && r.list[i] == c;
      assert entries[i].parent == dev;
    }
  }

  lemma PlaceIs(r: Registry, dev: nat, j: nat)
    requires r.Valid() && InPool(r.pool, r.list) && j < |r.list| && r.list[j] == dev
    ensures Listed(EntriesOf(r.pool, r.list), dev) && PlaceOf(EntriesOf(r.pool, r.list), dev) == j
  {
    var entries := EntriesOf(r.pool, r.list);
    assert entries[j].slot == dev;
    var i := PlaceOf(entries, dev);
    assert r.list[i] == r.list[j];
  }

  lemma PlaceInList(r: Registry, dev: nat) returns (j: nat)
    requires r.Valid() && dev < CAPACITY && r.used[dev]
    ensures j < |r.list| && r.list[j] == dev
  {
    assert dev in r.list;
    j :| j < |r.list| && r.list[j] == dev;
  }

  lemma FreeSlotIs(r: Registry, dev: int)
    requires r.Valid() && InPool(r.pool, r.list) && NONE <= dev < CAPACITY
    requires forall x | 0 <= x < (if dev == NONE then CAPACITY else dev) :: r.used[x]
    requires dev != NONE ==> !r.used[dev]
    ensures FreeSlot(EntriesOf(r.pool, r.list), 0) == dev
  {
    var slot := FreeSlot(EntriesOf(r.pool, r.list), 0);
    ListedInUse(r, slot);
    ListedInUse(r, dev);
  }

  lemma CreatedEntries(r: Registry, dev: nat, parent: int)
    requires CanCreate(r, dev, parent) && InPool(r.pool, r.list)
    ensures var r' := Created(r, dev, parent);
      InPool(r'.pool, r'.list) &&
      EntriesOf(r'.pool, r'.list) == EntriesOf(r.pool, r.list) + [Entry(dev, parent, Nul(NAME_MAX))]
  {
    CreatedFacts(r, dev, parent);
    AppendedRest(r, dev, parent);
    assert |r.pool| == CAPACITY;
    hide Registry.Valid, Appended, Nul;
    var r' := Created(r, dev, parent);
    forall i | 0 <= i < |r.list|
      ensures r'.list[i] == r.list[i] && r'.pool[r.list[i]].parent == r.pool[r.list[i]].parent
    {
      var c: nat := r.list[i];
      assert c in r.list && c != dev;
      assert r'.pool[c].parent == r.pool[c].parent;
    }
  }

  lemma NamedEntries(r: Registry, r': Registry, j: nat)
    requires InPool(r.pool, r.list) && NoRepeat(r.list) && j < |r.list|
    requires OnlyName(r.pool, r'.pool, r.list[j]) && r'.list == r.list
    ensures InPool(r'.pool, r'.list)
    ensures var entries := EntriesOf(r.pool, r.list);
      EntriesOf(r'.pool, r'.list) == entries[j := entries[j].(text := r'.pool[r.list[j]].name)]
  {
    forall i | 0 <= i < |r.list| && i != j ensures r.list[i] != r.list[j] {
    }
  }

  /** A naming of the pool is the naming step of the book. */
  lemma NamingStep(r: Registry, r': Registry, book: Book, j: nat, base: string)
    requires r.Valid() && Shows(r, book.entries) && Buffers(book.entries) && j < |r.list|
    requires OnlyName(r.pool, r'.pool, r.list[j]) && r'.list == r.list
    requires var dev := r.list[j];
      |r.pool[dev].name| == NAME_MAX &&
      r'.pool[dev].name == Written(r.pool[dev].name, NewName(WithBase(r.pool, r.list, dev, base), base))
    ensures var dev := r.list[j];
      Shows(r', Step(book, Op.GenerateName(dev, base)).0.entries) &&
      Step(book, Op.GenerateName(dev, base)).1
        == if |NewName(WithBase(r.pool, r.list, dev, base), base)| < NAME_MAX then Status.Success
          else Status.BufferTooSmall
  {
    PlaceIs(r, r.list[j], j);
    assert NoRepeat(r.list);
    hide Registry.Valid, NewName, Written, WithBase, NamesSeen;
    SameNamesSeen(r.pool, r.list, j, base);
    NamedEntries(r, r', j);
  }

  lemma RemovedEntry(r: Registry, dev: nat, j: nat, m: nat, k: nat)
    requires CanRemove(r, dev, j, m) && InPool(r.pool, r.list) && k < |r.list| && k != j
    ensures var c: nat := r.list[k];
      c < |Dropped(r, dev, j, m)| && Dropped(r, dev, j, m)[c].parent == r.pool[c].parent &&
      Dropped(r, dev, j, m)[c].name == r.pool[c].name
  {
    DroppedRest(r, dev, j, m);
    assert r.list[j] == dev && NoRepeat(r.list);
    hide Registry.Valid, Dropped, CanRemove;
    var c: nat := r.list[k];
    assert c != dev;
  }

  lemma EntriesByPlace(pool: seq<Device>, list: seq<nat>, pool': seq<Device>, less: seq<nat>, j: nat)
    requires InPool(pool, list) && |pool'| == |pool| && j < |list| && |less| == |list| - 1
    requires forall i | 0 <= i < |less| :: less[i] == list[if i < j then i else i + 1]
    requires forall k: nat | k < |list| && k != j ::
               var c: nat := list[k]; pool'[c].parent == pool[c].parent && pool'[c].name == pool[c].name
    ensures InPool(pool', less)
    ensures var entries := EntriesOf(pool, list); EntriesOf(pool', less) == entries[..j] + entries[j + 1..]
  {
    assert InPool(pool', less);
    var entries, entries' := EntriesOf(pool, list), EntriesOf(pool', less);
    forall i | 0 <= i < |less| ensures entries'[i] == (entries[..j] + entries[j + 1..])[i] {
      var k := if i < j then i else i + 1;
      assert entries[k] == entries'[i];
    }
  }

  lemma RemovedEntries(r: Registry, dev: nat, j: nat, m: nat)
    requires CanRemove(r, dev, j, m) && InPool(r.pool, r.list)
    ensures var r', entries := Removed(r, dev, j, m), EntriesOf(r.pool, r.list);
      InPool(r'.pool, r'.list) && j < |entries| && EntriesOf(r'.pool, r'.list) == entries[..j] + entries[j + 1..]
  {
    DroppedNames(r, dev, j, m);
    forall k: nat | k < |r.list| && k != j
      ensures var c: nat := r.list[k];
        Dropped(r, dev, j, m)[c].parent == r.pool[c].parent && Dropped(r, dev, j, m)[c].name == r.pool[c].name
    {
      RemovedEntry(r, dev, j, m, k);
    }
    hide Dropped, CanRemove, Less, EntriesOf, Registry.Valid;
    EntriesByPlace(r.pool, r.list, Removed(r, dev, j, m).pool, Removed(r, dev, j, m).list, j);
  }

  // ---------- Children stay in order ----------

  /** Below each parent the children are linked in the order of the global list. */
  ghost predicate KidsInOrder(r: Registry) {
    InPool(r.pool, r.list) && |r.kids| == CAPACITY &&
    forall p: nat | p < CAPACITY :: r.kids[p] == ChildrenOf(EntriesOf(r.pool, r.list), p)
  }

  lemma NoKidsYet(r: Registry)
    requires r.Valid() && r.list == []
    ensures KidsInOrder(r)
  {
    forall p: nat | p < CAPACITY ensures r.kids[p] == [] {
      assert r.KidsValid(p);
      if r.kids[p] != [] {
        var c := r.kids[p][0];
        assert c !in r.list;
        KidFacts(r, p, c);
      }
    }
  }

  lemma CreatedInOrder(r: Registry, dev: nat, parent: int)
    requires CanCreate(r, dev, parent) && KidsInOrder(r)
    ensures KidsInOrder(Created(r, dev, parent))
  {
    CreatedEntries(r, dev, parent);
    assert |r.pool| == |r.kids| == CAPACITY;
    hide Registry.Valid, Appended, EntriesOf;
    var r', entries := Created(r, dev, parent), EntriesOf(r.pool, r.list);
    var entry := Entry(dev, parent, Nul(NAME_MAX));
    assert (entries + [entry])[..|entries|] == entries;
    forall p: nat | p < CAPACITY ensures r'.kids[p] == ChildrenOf(entries + [entry], p) {
      assert r.kids[p] == ChildrenOf(entries, p);
    }
  }

  lemma NamedInOrder(r: Registry, r': Registry, j: nat)
    requires KidsInOrder(r) && NoRepeat(r.list) && j < |r.list|
    requires OnlyName(r.pool, r'.pool, r.list[j]) && r' == r.(pool := r'.pool)
    ensures KidsInOrder(r')
  {
    NamedEntries(r, r', j);
    forall p: nat | p < CAPACITY ensures r'.kids[p] == ChildrenOf(EntriesOf(r'.pool, r'.list), p) {
      ChildrenUnnamed(EntriesOf(r.pool, r.list), j, r'.pool[r.list[j]].name, p);
    }
  }

  lemma LessInMiddle(a: seq<nat>, x: nat, b: seq<nat>, m: nat)
    requires NoRepeat(a + [x] + b) && m < |a + [x] + b| && (a + [x] + b)[m] == x
    ensures Less(a + [x] + b, m) == a + b
  {
    var s := a + [x] + b;
    assert s[|a|] == x;
    assert m == |a|;
    assert s[..|a|] == a && s[|a| + 1..] == b;
  }

  lemma KidsWithout(entries: seq<Entry>, j: nat, p: nat, kids: seq<nat>, m: nat)
    requires j < |entries| && kids == ChildrenOf(entries, p) && NoRepeat(kids)
    requires entries[j].parent == p ==> m < |kids| && kids[m] == entries[j].slot
    ensures ChildrenOf(entries[..j] + entries[j + 1..], p)
         == if entries[j].parent == p then Less(kids, m) else kids
  {
    ChildrenWithout(entries, j, p);
    if entries[j].parent == p {
      LessInMiddle(ChildrenOf(entries[..j], p), entries[j].slot, ChildrenOf(entries[j + 1..], p), m);
    }
  }

  lemma KidsNoRepeat(r: Registry, p: nat)
    requires r.Valid() && p < CAPACITY
    ensures p < |r.kids| && NoRepeat(r.kids[p])
  {
    assert r.KidsValid(p);
  }

  lemma RemovedInOrder(r: Registry, dev: nat, j: nat, m: nat)
    requires CanRemove(r, dev, j, m) && KidsInOrder(r)
    ensures KidsInOrder(Removed(r, dev, j, m))
  {
    RemovedEntries(r, dev, j, m);
    RemovalSizes(r, dev, j, m);
    assert r.Valid();
    hide Registry.Valid, CanRemove, Dropped, LinkedBy, Less, NoRepeat, EntriesOf, ChildrenOf;
    var r', entries := Removed(r, dev, j, m), EntriesOf(r.pool, r.list);
    assert entries[j] == Entry(dev, r.pool[dev].parent, r.pool[dev].name);
    forall p: nat | p < CAPACITY ensures r'.kids[p] == ChildrenOf(EntriesOf(r'.pool, r'.list), p) {
      KidsNoRepeat(r, p);
      KidsWithout(entries, j, p, r.kids[p], m);
    }
  }
}
