/**
 The device registry on its pool. Every run of creating, naming and removing leaves keeps the lists in order, and keeps
 the names distinct as long as no numbering overflows.
 */
module Devices {
  import opened Decimal
  import opened DeviceEntries
  import opened DeviceNames
  import opened DeviceRuns
  import opened DeviceSteps
  import opened DeviceTree
  import opened Links
  import opened Shell

  class Devices {
    const pool: array<Device>
    const used: array<bool>
    var head: int
    ghost var list: seq<nat>
    ghost var kids: seq<seq<nat>>

    ghost function State(): Registry
      reads this, pool, used
    {
      Registry(pool[..], used[..], head, list, kids)
    }

    ghost predicate Apart() {
      var slots: object, flags: object := pool, used;
      slots != flags
    }

    ghost predicate Valid()
      reads this, pool, used
    {
      Apart() && State().Valid()
    }

    constructor ()
      ensures Valid() && list == [] && fresh(pool) && fresh(used)
    {
      pool := new Device[CAPACITY](_ => Zeroed(NONE));
      used := new bool[CAPACITY](_ => false);
      head, list, kids := NONE, [], seq(CAPACITY, _ => []);
      new;
      NothingThere(State());
    }

    /** The last place of a non-empty list. */
    method LastListed(ghost places: seq<nat>) returns (last: nat)
      requires places != [] && LinkedBy(Nexts(pool[..]), head, places)
      ensures last == Last(places)
    {
      var current := head;
      ghost var j := 0;
      assert LinkAt(Nexts(pool[..]), places, 0);
      while pool[current].next != NONE
        invariant 0 <= j < |places| && current == places[j]
        invariant current < pool.Length && Nexts(pool[..])[current] == At(places, j + 1)
        decreases |places| - j
      {
        current, j := pool[current].next, j + 1;
        assert LinkAt(Nexts(pool[..]), places, j);
      }
      last := current;
    }

    method LastSibling(parent: nat, ghost places: seq<nat>) returns (last: nat)
      requires parent < pool.Length && places != [] && LinkedBy(Siblings(pool[..]), pool[parent].firstChild, places)
      ensures last == Last(places)
    {
      var current := pool[parent].firstChild;
      ghost var j := 0;
      assert LinkAt(Siblings(pool[..]), places, 0);
      while pool[current].sibling != NONE
        invariant 0 <= j < |places| && current == places[j]
        invariant current < pool.Length && Siblings(pool[..])[current] == At(places, j + 1)
        decreases |places| - j
      {
        current, j := pool[current].sibling, j + 1;
        assert LinkAt(Siblings(pool[..]), places, j);
      }
      last := current;
    }

    method Allocate() returns (i: int)
      requires pool.Length == used.Length == CAPACITY && Apart()
      modifies pool, used
      ensures i == NONE <==> forall x | 0 <= x < CAPACITY :: old(used[x])
      ensures i == NONE ==> pool[..] == old(pool[..]) && used[..] == old(used[..])
      ensures i != NONE ==> 0 <= i < CAPACITY && !old(used[i]) && (forall x | 0 <= x < i :: old(used[x])) &&
                            pool[..] == old(pool[..])[i := Zeroed(NONE)] && used[..] == old(used[..])[i := true]
    {
      for x := 0 to CAPACITY
        invariant pool[..] == old(pool[..]) && used[..] == old(used[..])
        invariant forall y | 0 <= y < x :: used[y]
      {
        if !used[x] {
          used[x] := true;
          pool[x] := Zeroed(NONE);
          return x;
        }
      }
      i := NONE;
    }

    /** append_device. */
    method AppendDevice(dev: nat, ghost places: seq<nat>)
      requires dev < pool.Length && LinkedBy(Nexts(pool[..]), head, places)
      modifies this`head, pool
      ensures head == if places == [] then dev else old(head)
      ensures pool[..] == Linked(old(pool[..]), places, dev)
    {
      if head == NONE {
        head := dev;
      } else {
        var last := LastListed(places);
        pool[last] := pool[last].(next := dev);
      }
    }

    /** append_child. */
    method AppendChild(parent: int, dev: nat, ghost places: seq<nat>)
      requires NONE <= parent < pool.Length && dev < pool.Length
      requires parent != NONE ==> LinkedBy(Siblings(pool[..]), pool[parent].firstChild, places)
      modifies pool
      ensures pool[..] == Adopted(old(pool[..]), places, dev, parent)
    {
      if parent == NONE {
        return;
      }
      if pool[parent].firstChild == NONE {
        pool[parent] := pool[parent].(firstChild := dev);
      } else {
        var last := LastSibling(parent, places);
        pool[last] := pool[last].(sibling := dev);
      }
    }

    /** What VlDev_Create does with the slot it got. */
    method Enter(ghost r: Registry, dev: nat, parent: int)
      requires Apart() && CanCreate(r, dev, parent)
      requires State() == r.(pool := r.pool[dev := Zeroed(NONE)], used := r.used[dev := true])
      modifies this, pool, used
      ensures State() == Created(r, dev, parent)
    {
      hide Registry.Valid, LinkedBy, Nexts, Siblings, Zeroed, Appended, Linked, Adopted;
      SizesOf(r, parent);
      assert |pool[..]| == CAPACITY;
      pool[dev] := pool[dev].(parent := parent);
      assert pool[..] == r.pool[dev := Zeroed(parent)] by { SameZeroed(parent); }
      BeforeListing(r, dev, parent);
      AppendDevice(dev, list);
      BeforeAdopting(r, dev, parent);
      AppendChild(parent, dev, if parent == NONE then [] else kids[parent]);
      InSteps(r, dev, parent);
      list := list + [dev];
      kids := if parent == NONE then kids else kids[parent := kids[parent] + [dev]];
      assert used[..] == r.used[dev := true];
    }

    /** VlDev_Create: the new device is last in the global list and last below its parent. */
    method Create(parent: int) returns (dev: int)
      requires Valid() && MayParent(State(), parent)
      modifies this, pool, used
      ensures Valid() && (dev == NONE <==> AllUsed(old(State())))
      ensures dev == NONE ==> State() == old(State())
      ensures dev != NONE ==> IsCreated(old(State()), State(), dev, parent)
      ensures dev != NONE ==> forall x | 0 <= x < dev :: old(State()).used[x]
    {
      ghost var r := State();
      SizesOf(r, parent);
      dev := Allocate();
      if dev == NONE {
        return;
      }
      assert CanCreate(r, dev, parent);
      hide Registry.Valid, Created;
      CreatedIsValid(r, dev, parent);
      Enter(r, dev, parent);
    }

    /** unlink_device_from_parent. */
    method UnlinkFromParent(dev: nat, ghost places: seq<nat>, ghost m: nat)
      requires dev < pool.Length && NONE <= pool[dev].parent < pool.Length
      requires var p := pool[dev].parent;
        p != NONE ==>
          LinkedBy(Siblings(pool[..]), pool[p].firstChild, places) && NoRepeat(places) && m < |places| &&
            places[m] == dev
      modifies pool
      ensures pool[..] == Orphaned(old(pool[..]), places, m, dev)
    {
      var parent := pool[dev].parent;
      if parent == NONE {
        return;
      }
      assert At(places, 0) == places[0];
      if pool[parent].firstChild == dev {
        assert m == 0;
        pool[parent] := pool[parent].(firstChild := pool[dev].sibling);
        return;
      }
      var current := pool[parent].firstChild;
      ghost var j := 0;
      while pool[current].sibling != dev
        invariant 0 <= j < m && current == places[j] && current < pool.Length
        decreases m - j
      {
        assert LinkAt(Siblings(pool[..]), places, j);
        current, j := pool[current].sibling, j + 1;
      }
      assert LinkAt(Siblings(pool[..]), places, j);
      pool[current] := pool[current].(sibling := pool[dev].sibling);
    }

    /** The loop of VlDev_Remove over the global list. */
    method UnlinkFromList(dev: nat, ghost places: seq<nat>, ghost j: nat)
      requires dev < pool.Length && LinkedBy(Nexts(pool[..]), head, places) && NoRepeat(places)
      requires j < |places| && places[j] == dev
      modifies this`head, pool
      ensures head == if j == 0 then old(pool[dev]).next else old(head)
      ensures pool[..] == Unlisted(old(pool[..]), places, j)
    {
      var current, prev := head, NONE;
      ghost var i := 0;
      while current != dev
        invariant 0 <= i <= j && current == places[i] && 0 <= current < pool.Length
        invariant prev == if i == 0 then NONE else places[i - 1]
        invariant i > 0 ==> 0 <= prev < pool.Length
        decreases j - i
      {
        assert LinkAt(Nexts(pool[..]), places, i);
        prev, current, i := current, pool[current].next, i + 1;
      }
      if prev != NONE {
        pool[prev] := pool[prev].(next := pool[dev].next);
      } else {
        head := pool[dev].next;
      }
    }

    method Leave(ghost r: Registry, dev: nat, ghost j: nat, ghost m: nat)
      requires Apart() && CanRemove(r, dev, j, m) && State() == r
      modifies this, pool, used
      ensures State() == Removed(r, dev, j, m)
    {
      RemovalSizes(r, dev, j, m);
      assert |pool[..]| == |used[..]| == CAPACITY;
      hide Registry.Valid, LinkedBy, Nexts, Siblings, Zeroed, Dropped, Unlisted, Orphaned, NoRepeat, Less, CanRemove;
      ghost var p := pool[dev].parent;
      ghost var mine := if p == NONE then [] else kids[p];
      UnlinkFromParent(dev, mine, m);
      StillListed(r, dev, j, m);
      UnlinkFromList(dev, list, j);
      used[dev] := false;
      pool[dev] := Zeroed(NONE);
      RemovedInSteps(r, dev, j, m);
      list := Less(list, j);
      kids := if p == NONE then kids else kids[p := Less(kids[p], m)];
      assert used[..] == r.used[dev := false];
    }

    /** VlDev_Remove, of a device without children. */
    method Remove(dev: nat) returns (ghost j: nat, ghost m: nat)
      requires Valid() && dev < CAPACITY && State().used[dev] && State().pool[dev].firstChild == NONE
      modifies this, pool, used
      ensures Valid() && CanRemove(old(State()), dev, j, m) && State() == Removed(old(State()), dev, j, m)
    {
      ghost var r := State();
      j, m := Places(r, dev);
      Leave(r, dev, j, m);
      RemovedIsValid(r, dev, j, m);
    }

    /** The base goes into the name first; it must leave room for the terminator. */
    method CopyBase(dev: nat, base: string) returns (ok: bool)
      requires dev < pool.Length && |pool[dev].name| == NAME_MAX
      modifies pool
      ensures ok <==> |base| < NAME_MAX
      ensures pool[..] == old(pool[..])[dev := old(pool[dev]).(name := Copied(old(pool[dev]).name, base))]
    {
      ghost var name := pool[dev].name;
      hide Over, Copied, Written;
      var pos := 0;
      OverStart(name, "" + base[..0]);
      while pos < |base|
        invariant 0 <= pos <= |base| && pos < NAME_MAX
        invariant pool[..] == old(pool[..])[dev := old(pool[dev]).(name := Over(name, "" + base[..pos]))]
      {
        if pos + 1 >= NAME_MAX {
          OverCut(name, "", base, pos);
          LongText(name, base, "" + base);
          return false;
        }
        OverNext(name, "", base, pos);
        pool[dev] := pool[dev].(name := pool[dev].name[pos := base[pos]]);
        pos := pos + 1;
      }
      assert "" + base[..pos] == base;
      assert Over(name, base) == Copied(name, base) by { OverIsCopied(name, base); }
      ok := true;
    }

    /** The loop over the global list, which the device being named is on itself. */
    method ScanNames(base: string) returns (max: nat)
      requires Valid()
      ensures InPool(pool[..], list) && max == NextSuffix(NamesOf(pool[..], list), base, 0)
      ensures max <= MAX_SUFFIX
    {
      ghost var r := State();
      ScanStart(r);
      ghost var j, names := 0, NamesOf(r.pool, list);
      hide Registry.Valid, NextSuffix, Suffix, NamesOf, Nexts, LinkedBy, InPool;
      var current := head;
      max := 0;
      assert names[0..] == names;
      while current != NONE
        invariant 0 <= j <= |list| && current == At(list, j) && max <= MAX_SUFFIX
        invariant NextSuffix(names[j..], base, max) == NextSuffix(names, base, 0)
        decreases |list| - j
      {
        ScanStep(r, j);
        NextName(names, base, j, max);
        max := RaiseSuffix(CString(pool[current].name), base, max);
        current, j := pool[current].next, j + 1;
      }
      NoMoreNames(names[j..], base, max);
    }

    /** The digits go behind the base, and a terminator behind them if there is room. */
    method AppendSuffix(dev: nat, base: string, suffix: string) returns (ok: bool)
      requires dev < pool.Length && |pool[dev].name| == NAME_MAX && |base| < NAME_MAX && base <= pool[dev].name
      modifies pool
      ensures ok <==> |base + suffix| < NAME_MAX
      ensures pool[..] == old(pool[..])[dev := old(pool[dev]).(name := Written(old(pool[dev]).name, base + suffix))]
    {
      ghost var name := pool[dev].name;
      hide Over, Written;
      var pos, i := |base|, 0;
      assert base + suffix[..0] == base;
      OverStart(name, base);
      while i < |suffix|
        invariant 0 <= i <= |suffix| && pos == |base| + i < NAME_MAX
        invariant pool[..] == old(pool[..])[dev := old(pool[dev]).(name := Over(name, base + suffix[..i]))]
      {
        if pos + 1 >= NAME_MAX {
          OverCut(name, base, suffix, i);
          return false;
        }
        OverNext(name, base, suffix, i);
        pool[dev] := pool[dev].(name := pool[dev].name[pos := suffix[i]]);
        pos, i := pos + 1, i + 1;
      }
      assert base + suffix[..i] == base + suffix;
      OverEnded(name, base + suffix);
      pool[dev] := pool[dev].(name := pool[dev].name[pos := '\0']);
      ok := true;
    }

    /** VlDev_GenerateName, into the name of a device; it fails when the name does not fit. */
    method GenerateName(base: string, dev: nat) returns (ok: bool)
      requires Valid() && dev < CAPACITY && '\0' !in base
      modifies pool
      ensures Valid() && OnlyName(old(pool[..]), pool[..], dev)
      ensures var name := NewName(WithBase(old(pool[..]), list, dev, base), base);
        dev < |old(pool[..])| && |old(pool[..])[dev].name| == NAME_MAX &&
        pool[..][dev].name == Written(old(pool[..])[dev].name, name) &&
        (ok <==> |name| < NAME_MAX) && (ok ==> CString(pool[dev].name) == name)
    {
      ghost var r := State();
      NameSizes(r, dev);
      ghost var name := NewName(WithBase(r.pool, list, dev, base), base);
      LongBase(WithBase(r.pool, list, dev, base), base);
      hide Registry.Valid, NextSuffix, NamesOf, WithBase, Digits, InPool, Written, Copied;
      ok := CopyBase(dev, base);
      OnlyNamesMatter(r, State(), dev);
      if !ok {
        LongText(r.pool[dev].name, base, name);
        return;
      }
      ghost var copied := pool[..];
      var max := ScanNames(base);
      var suffix := WriteDecimal(max);
      assert base + suffix == name by { CopiedNames(r, dev, base); }
      CopiedStarts(r.pool[dev].name, base);
      ok := AppendSuffix(dev, base, suffix);
      WrittenOverCopied(r.pool[dev].name, base, name);
      OnlyNamesMatter(r, State(), dev);
      if ok {
        NoNulInDigits(max);
        WrittenText(r.pool[dev].name, name);
      }
    }

    /** A device that got no name is removed. */
    method TakeBack(ghost r: Registry, ghost created: Registry, dev: nat)
      requires Valid() && dev < CAPACITY && State().used[dev] && State().pool[dev].firstChild == NONE
      requires InPool(r.pool, r.list) && InPool(created.pool, r.list) && dev !in r.list &&
          created.list == r.list + [dev]
      requires NamesOf(created.pool, r.list) == NamesOf(r.pool, r.list)
      requires OnlyName(created.pool, pool[..], dev) && list == created.list
      modifies this, pool, used
      ensures Valid() && list == r.list && InPool(pool[..], list) && NamesOf(pool[..], list) == NamesOf(r.pool, r.list)
    {
      hide Registry.Valid, NamesOf, OnlyName;
      ghost var failed := State();
      ghost var j, m := Remove(dev);
      hide CanRemove, Removed;
      Undone(r, created, failed, State(), dev, j, m);
    }

    /** What a driver does with a device it finds: create, name, and remove again if there is no name for it. */
    method CreateNamed(base: string, parent: int) returns (dev: int)
      requires Valid() && MayParent(State(), parent) && '\0' !in base
      modifies this, pool, used
      ensures Valid() && InPool(old(pool[..]), old(list)) && InPool(pool[..], list)
      ensures dev == NONE <==> AllUsed(old(State())) || |NewName(NamesOf(old(pool[..]), old(list)), base)| >= NAME_MAX
      ensures dev == NONE ==> list == old(list) && NamesOf(pool[..], list) == NamesOf(old(pool[..]), old(list))
      ensures dev != NONE ==>
                0 <= dev < CAPACITY && list == old(list) + [dev] && pool[..][dev].parent == parent &&
                NamesOf(pool[..], list)
                  == NamesOf(old(pool[..]), old(list)) + [NewName(NamesOf(old(pool[..]), old(list)), base)]
    {
      ghost var r := State();
      ListInPool(r);
      ghost var names := NamesOf(r.pool, r.list);
      LongBase(names, base);
      dev := Create(parent);
      if dev == NONE {
        return;
      }
      ghost var created := State();
      CreatedNames(r, dev, parent, base);
      hide Registry.Valid, NamesOf, WithBase, NewName, Created, Digits;
      var ok := GenerateName(base, dev);
      if ok {
        NamedNames(created, State(), dev);
        return;
      }
      StillLeaf(created, State(), dev);
      TakeBack(r, created, dev);
      dev := NONE;
    }

    method Free(parent: int) returns (ok: bool)
      requires Valid()
      ensures ok == MayParent(State(), parent)
    {
      ok := parent == NONE || (0 <= parent < used.Length && used[parent]);
    }

    method InUse(dev: nat) returns (ok: bool)
      requires Valid()
      ensures ok <==> dev < CAPACITY && State().used[dev]
    {
      ok := dev < used.Length && used[dev];
    }

    method Leaf(dev: nat) returns (ok: bool)
      requires Valid()
      ensures ok <==> dev < CAPACITY && State().used[dev] && State().pool[dev].firstChild == NONE
    {
      ok := dev < CAPACITY && used[dev] && pool[dev].firstChild == NONE;
    }
  }

  // ---------- Whole runs ----------

  method RunCreate(devices: Devices, ghost book: Book, parent: int) returns (status: Status)
    requires devices.Valid() && Shows(devices.State(), book.entries) && Buffers(book.entries) &&
        KidsInOrder(devices.State())
    modifies devices, devices.pool, devices.used
    ensures devices.Valid() && Shows(devices.State(), Step(book, Op.Create(parent)).0.entries) &&
        KidsInOrder(devices.State())
    ensures status == Step(book, Op.Create(parent)).1
  {
    ghost var r := devices.State();
    var free := devices.Free(parent);
    ListedInUse(r, parent);
    if !free {
      return NotCalled;
    }
    var dev := devices.Create(parent);
    FreeSlotIs(r, dev);
    if dev == NONE {
      return Status.InsufficientMemory;
    }
    CreatedEntries(r, dev, parent);
    CreatedInOrder(r, dev, parent);
    status := Status.Success;
  }

  method RunGenerateName(devices: Devices, ghost book: Book, dev: nat, base: string) returns (status: Status)
    requires devices.Valid() && Shows(devices.State(), book.entries) && Buffers(book.entries) &&
        KidsInOrder(devices.State()) && '\0' !in base
    modifies devices.pool
    ensures devices.Valid() && Shows(devices.State(), Step(book, Op.GenerateName(dev, base)).0.entries) &&
        KidsInOrder(devices.State())
    ensures status == Step(book, Op.GenerateName(dev, base)).1
  {
    ghost var r := devices.State();
    var used := devices.InUse(dev);
    ListedInUse(r, dev);
    if !used {
      return NotCalled;
    }
    ghost var j := PlaceInList(r, dev);
    hide Registry.Valid, NewName, Written, WithBase, NamesOf, OnlyName;
    var ok := devices.GenerateName(base, dev);
    NamingStep(r, devices.State(), book, j, base);
    NamedInOrder(r, devices.State(), j);
    status := if ok then Status.Success else Status.BufferTooSmall;
  }

  method RunRemove(devices: Devices, ghost book: Book, dev: nat) returns (status: Status)
    requires devices.Valid() && Shows(devices.State(), book.entries) && Buffers(book.entries) &&
        KidsInOrder(devices.State())
    modifies devices, devices.pool, devices.used
    ensures devices.Valid() && Shows(devices.State(), Step(book, Op.Remove(dev)).0.entries) &&
        KidsInOrder(devices.State())
    ensures status == Step(book, Op.Remove(dev)).1
  {
    ghost var r := devices.State();
    var leaf := devices.Leaf(dev);
    ListedInUse(r, dev);
    if dev < CAPACITY {
      ChildListed(r, dev);
    }
    if !leaf {
      return NotCalled;
    }
    ghost var j, m := devices.Remove(dev);
    PlaceIs(r, dev, j);
    RemovedEntries(r, dev, j, m);
    RemovedInOrder(r, dev, j, m);
    status := Status.Success;
  }

  /**
   Any run of creating, naming and removing is the run on entries, statuses included; and until the 32-bit number
   behind a base overflows no two named devices share a name.
   */
  method Run(devices: Devices, ops: seq<Op>) returns (statuses: seq<Status>)
    requires devices.Valid() && devices.list == [] && CStrings(ops)
    modifies devices, devices.pool, devices.used
    ensures devices.Valid() && InPool(devices.pool[..], devices.list)
    ensures EntriesOf(devices.pool[..], devices.list) == RunOf(ops).0.entries && statuses == RunOf(ops).1
    ensures KidsInOrder(devices.State())
    ensures NeverOverflows(ops) ==> DistinctNames(RunOf(ops).0)
  {
    statuses := [];
    NoKidsYet(devices.State());
    for k := 0 to |ops|
      invariant devices.Valid() && KidsInOrder(devices.State())
      invariant Shows(devices.State(), RunOf(ops[..k]).0.entries) && statuses == RunOf(ops[..k]).1
    {
      hide Devices.Valid, Shows, Step, Buffers, KidsInOrder;
      ghost var book := RunOf(ops[..k]).0;
      assert ops[..k + 1][..k] == ops[..k];
      var status;
      match ops[k] {
        case Create(parent) => status := RunCreate(devices, book, parent);
        case GenerateName(dev, base) => status := RunGenerateName(devices, book, dev, base);
        case Remove(dev) => status := RunRemove(devices, book, dev);
      }
      statuses := statuses + [status];
    }
    assert ops[..|ops|] == ops;
    if NeverOverflows(ops) {
      NamesStayDistinct(ops);
    }
  }
}
