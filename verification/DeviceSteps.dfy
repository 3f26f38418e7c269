/**
 What creating, naming and removing a device does to the pool and to the names of the listed devices, step by step.
 */
module DeviceSteps {
  import opened Decimal
  import opened DeviceNames
  import opened DeviceRuns
  import opened DeviceTree
  import opened Links
  import opened Shell

  /** The names of the listed devices, in the order of the list. */
  ghost function NamesOf(pool: seq<Device>, list: seq<nat>): (names: seq<string>)
    requires forall i | 0 <= i < |list| :: list[i] < |pool|
    ensures |names| == |list| && forall i | 0 <= i < |list| :: names[i] == CString(pool[list[i]].name)
  {
    if list == [] then [] else [CString(pool[list[0]].name)] + NamesOf(pool, list[1..])
  }

  predicate InPool(pool: seq<Device>, list: seq<nat>) {
    forall i | 0 <= i < |list| :: list[i] < |pool|
  }

  /** The names in the order of the list, with the base already in the name of one device. */
  ghost function WithBase(pool: seq<Device>, list: seq<nat>, dev: nat, base: string): seq<string>
  {
    if dev < |pool| && |pool[dev].name| == NAME_MAX && InPool(pool, list)
    then NamesOf(pool[dev := pool[dev].(name := Copied(pool[dev].name, base))], list) else []
  }

  lemma LongText(buf: string, base: string, text: string)
    requires |buf| == NAME_MAX && NAME_MAX <= |base| && base <= text
    ensures |Copied(buf, base)| == NAME_MAX && Copied(buf, base) == Written(buf, text)
  {
  }

  lemma OverIsCopied(buf: string, base: string)
    requires |base| < |buf| == NAME_MAX
    ensures Over(buf, base) == Copied(buf, base)
  {
  }

  lemma CopiedStarts(buf: string, base: string)
    requires |buf| == NAME_MAX && |base| < NAME_MAX
    ensures |Copied(buf, base)| == NAME_MAX && base <= Copied(buf, base)
  {
  }

  lemma WrittenOverCopied(buf: string, base: string, text: string)
    requires |buf| == NAME_MAX && |base| < NAME_MAX && base <= text
    ensures |Copied(buf, base)| == NAME_MAX && |Written(buf, text)| == NAME_MAX
    ensures Written(Copied(buf, base), text) == Written(buf, text)
  {
  }

  /** Only the name of this device may differ. */
  predicate OnlyName(pool: seq<Device>, pool': seq<Device>, dev: nat) {
    dev < |pool| == |pool'| && |pool'[dev].name| == NAME_MAX &&
      pool' == pool[dev := pool[dev].(name := pool'[dev].name)]
  }

  lemma NameSizes(r: Registry, dev: nat)
    requires r.Valid() && dev < CAPACITY
    ensures |r.pool| == CAPACITY && |r.pool[dev].name| == NAME_MAX && InPool(r.pool, r.list)
  {
    ListInPool(r);
  }

  /** Validity has nothing to do with names. */
  lemma OnlyNamesMatter(r: Registry, r': Registry, dev: nat)
    requires r.Valid() && OnlyName(r.pool, r'.pool, dev) && r' == r.(pool := r'.pool)
    ensures r'.Valid()
  {
    var device := r'.pool[dev];
    Relinked(r.pool, dev, device);
    assert Nexts(r'.pool) == Nexts(r.pool) && Siblings(r'.pool) == Siblings(r.pool);
    hide LinkedBy, NoRepeat;
    forall p: nat, c: nat | p < CAPACITY && c < CAPACITY ensures r'.Related(p, c) {
      assert r.Related(p, c);
    }
    forall c: nat | c < CAPACITY && r'.used[c] ensures r'.ParentUsed(c) {
      assert r.ParentUsed(c);
    }
    forall p: nat | p < CAPACITY ensures r'.KidsValid(p) {
      assert r.KidsValid(p);
    }
  }

  lemma CopiedNames(r: Registry, dev: nat, base: string)
    requires r.Valid() && dev < CAPACITY && |r.pool| == CAPACITY && |r.pool[dev].name| == NAME_MAX
    ensures var pool := r.pool[dev := r.pool[dev].(name := Copied(r.pool[dev].name, base))];
      InPool(pool, r.list) && WithBase(r.pool, r.list, dev, base) == NamesOf(pool, r.list)
  {
    ListInPool(r);
  }

  lemma NextName(names: seq<string>, base: string, j: nat, max: nat)
    requires j < |names| && max <= MAX_SUFFIX
    ensures var s := Suffix(names[j], base);
      NextSuffix(names[j..], base, max)
        == NextSuffix(names[j + 1..], base, Raised(s, max))
  {
    assert names[j..][1..] == names[j + 1..];
  }

  lemma NoMoreNames(names: seq<string>, base: string, max: nat)
    requires names == [] && max <= MAX_SUFFIX
    ensures NextSuffix(names, base, max) == max
  {
  }

  lemma ScanStart(r: Registry)
    requires r.Valid()
    ensures InPool(r.pool, r.list) && r.head == At(r.list, 0)
  {
    ListInPool(r);
  }

  lemma ScanStep(r: Registry, j: nat)
    requires r.Valid() && j < |r.list| && InPool(r.pool, r.list)
    ensures r.list[j] < |r.pool| && r.pool[r.list[j]].next == At(r.list, j + 1)
    ensures NamesOf(r.pool, r.list)[j] == CString(r.pool[r.list[j]].name)
  {
    assert LinkAt(Nexts(r.pool), r.list, j);
  }

  /** The pool when `dev` was put behind the last place of the global list. */
  function Linked(pool: seq<Device>, places: seq<nat>, dev: nat): seq<Device>
    requires places != [] ==> Last(places) < |pool|
  {
    if places == [] then pool else pool[Last(places) := pool[Last(places)].(next := dev)]
  }

  /** The pool when `dev` was put behind the last child. */
  function Adopted(pool: seq<Device>, places: seq<nat>, dev: nat, parent: int): seq<Device>
    requires parent != NONE ==> 0 <= parent < |pool| && (places != [] ==> Last(places) < |pool|)
  {
    if parent == NONE then pool
    else if places == [] then pool[parent := pool[parent].(firstChild := dev)]
    else pool[Last(places) := pool[Last(places)].(sibling := dev)]
  }

  lemma InSteps(r: Registry, i: nat, p: int)
    requires CanCreate(r, i, p)
    ensures var children := if p == NONE then [] else r.kids[p];
      Adopted(Linked(r.pool[i := Zeroed(p)], r.list, i), children, i, p) == Appended(r, i, p)
  {
  }

  /** The pool when a device was unlinked from its siblings. */
  function Orphaned(pool: seq<Device>, places: seq<nat>, m: nat, dev: nat): seq<Device>
    requires dev < |pool| && var p := pool[dev].parent;
      NONE <= p < |pool| && (p != NONE && m > 0 ==> m < |places| && places[m - 1] < |pool|)
  {
    var p := pool[dev].parent;
    if p == NONE then pool
    else if m == 0 then pool[p := pool[p].(firstChild := pool[dev].sibling)]
    else pool[places[m - 1] := pool[places[m - 1]].(sibling := pool[dev].sibling)]
  }

  /** The pool when the device at place `j` was unlinked from the global list. */
  function Unlisted(pool: seq<Device>, places: seq<nat>, j: nat): seq<Device>
    requires j < |places| && places[j] < |pool| && (j > 0 ==> places[j - 1] < |pool|)
  {
    if j == 0 then pool else pool[places[j - 1] := pool[places[j - 1]].(next := pool[places[j]].next)]
  }

  /** Where a leaf is in the global list and among its parent's children. */
  lemma Places(r: Registry, dev: nat) returns (j: nat, m: nat)
    requires r.Valid() && dev < CAPACITY && r.used[dev] && r.pool[dev].firstChild == NONE
    ensures CanRemove(r, dev, j, m)
  {
    assert dev in r.list;
    j :| j < |r.list| && r.list[j] == dev;
    m := 0;
    assert r.KidsValid(dev) && r.ParentUsed(dev);
    var p := r.pool[dev].parent;
    if p != NONE {
      assert r.Related(p, dev) && r.KidsValid(p);
      m :| m < |r.kids[p]| && r.kids[p][m] == dev;
    }
  }

  lemma RemovalSizes(r: Registry, d: nat, j: nat, m: nat)
    requires CanRemove(r, d, j, m)
    ensures |r.pool| == |r.used| == |r.kids| == CAPACITY && d < CAPACITY && j < |r.list| && r.list[j] == d
    ensures LinkedBy(Nexts(r.pool), r.head, r.list) && NoRepeat(r.list) && (j > 0 ==> r.list[j - 1] < CAPACITY)
    ensures var p := r.pool[d].parent;
      NONE <= p < CAPACITY && (p != NONE ==>
        LinkedBy(Siblings(r.pool), r.pool[p].firstChild, r.kids[p]) && NoRepeat(r.kids[p]) && m < |r.kids[p]| &&
        r.kids[p][m] == d && (m > 0 ==> r.kids[p][m - 1] < CAPACITY))
  {
    var p := r.pool[d].parent;
    if p != NONE {
      assert r.KidsValid(p);
    }
  }

  lemma StillListed(r: Registry, d: nat, j: nat, m: nat)
    requires CanRemove(r, d, j, m)
    ensures var p := r.pool[d].parent;
      NONE <= p < CAPACITY && |r.pool| == |r.kids| == CAPACITY &&
      (p != NONE ==> m < |r.kids[p]| && (m > 0 ==> r.kids[p][m - 1] < CAPACITY)) &&
      var pool := Orphaned(r.pool, if p == NONE then [] else r.kids[p], m, d);
      LinkedBy(Nexts(pool), r.head, r.list) && pool[d].next == r.pool[d].next
  {
    RemovalSizes(r, d, j, m);
    var p := r.pool[d].parent;
    if p != NONE {
      var x := if m == 0 then p else r.kids[p][m - 1];
      var device := if m == 0 then r.pool[p].(firstChild := r.pool[d].sibling)
        else r.pool[x].(sibling := r.pool[d].sibling);
      Relinked(r.pool, x, device);
      assert Nexts(r.pool[x := device]) == Nexts(r.pool);
    }
  }

  lemma RemovedInSteps(r: Registry, d: nat, j: nat, m: nat)
    requires CanRemove(r, d, j, m)
    ensures var p := r.pool[d].parent;
      NONE <= p < CAPACITY && |r.pool| == |r.kids| == CAPACITY && j < |r.list| && r.list[j] == d &&
      (j > 0 ==> r.list[j - 1] < CAPACITY) &&
      (p != NONE ==> m < |r.kids[p]| && (m > 0 ==> r.kids[p][m - 1] < CAPACITY)) &&
      var children := if p == NONE then [] else r.kids[p];
      Unlisted(Orphaned(r.pool, children, m, d), r.list, j)[d := Zeroed(NONE)] == Dropped(r, d, j, m)
  {
    StillListed(r, d, j, m);
    RemovalSizes(r, d, j, m);
  }

  /** No parent, or one in use. */
  predicate MayParent(r: Registry, parent: int) {
    parent == NONE || (0 <= parent < |r.used| && r.used[parent])
  }

  predicate AllUsed(r: Registry) {
    forall x | 0 <= x < |r.used| :: r.used[x]
  }

  ghost predicate IsCreated(r: Registry, r': Registry, dev: int, parent: int) {
    0 <= dev && CanCreate(r, dev, parent) && r' == Created(r, dev, parent)
  }

  lemma SameZeroed(parent: int)
    ensures Zeroed(NONE).(parent := parent) == Zeroed(parent)
  {
  }

  lemma NothingThere(r: Registry)
    requires |r.pool| == |r.used| == |r.kids| == CAPACITY && r.head == NONE && r.list == []
    requires forall i | 0 <= i < CAPACITY :: r.pool[i] == Zeroed(NONE) && !r.used[i] && r.kids[i] == []
    ensures r.Valid()
  {
    assert forall p: nat, c: nat | p < CAPACITY && c < CAPACITY :: r.Related(p, c);
    assert forall p: nat | p < CAPACITY :: r.KidsValid(p);
  }

  lemma SizesOf(r: Registry, p: int)
    requires r.Valid() && NONE <= p < CAPACITY
    ensures |r.pool| == |r.used| == |r.kids| == CAPACITY
    ensures r.list != [] ==> Last(r.list) < CAPACITY
    ensures p != NONE && r.kids[p] != [] ==> Last(r.kids[p]) < CAPACITY
    ensures (r.head == NONE <==> r.list == []) && (p != NONE ==> (r.pool[p].firstChild == NONE <==> r.kids[p] == []))
  {
    if p != NONE {
      assert r.KidsValid(p);
    }
  }

  /** The global list is still linked when the new slot has been zeroed. */
  lemma BeforeListing(r: Registry, i: nat, p: int)
    requires CanCreate(r, i, p)
    ensures LinkedBy(Nexts(r.pool[i := Zeroed(p)]), r.head, r.list)
  {
    Relinked(r.pool, i, Zeroed(p));
    assert LinkedBy(Nexts(r.pool), r.head, r.list) && i !in r.list;
    hide Registry.Valid, LinkedBy;
    OtherLink(Nexts(r.pool), r.head, r.list, i, Zeroed(p).next);
  }

  /** So are the parent's children when it has been listed. */
  lemma BeforeAdopting(r: Registry, i: nat, p: int)
    requires CanCreate(r, i, p)
    ensures var listed := Linked(r.pool[i := Zeroed(p)], r.list, i);
      |listed| == CAPACITY && (p != NONE ==> LinkedBy(Siblings(listed), listed[p].firstChild, r.kids[p]))
  {
    var zeroed := r.pool[i := Zeroed(p)];
    Relinked(r.pool, i, Zeroed(p));
    if r.list != [] {
      Relinked(zeroed, Last(r.list), zeroed[Last(r.list)].(next := i));
      assert Siblings(Linked(zeroed, r.list, i)) == Siblings(zeroed);
    }
    if p != NONE {
      assert r.KidsValid(p);
      NotYetKid(r, i, p);
      hide Registry.Valid, LinkedBy;
      OtherLink(Siblings(r.pool), r.pool[p].firstChild, r.kids[p], i, Zeroed(p).sibling);
    }
  }

  lemma LongBase(names: seq<string>, base: string)
    ensures |NewName(names, base)| > |base|
  {
  }

  lemma {:induction false} SameNames(pool: seq<Device>, pool': seq<Device>, list: seq<nat>)
    requires InPool(pool, list) && InPool(pool', list)
    requires forall i | 0 <= i < |list| :: pool'[list[i]].name == pool[list[i]].name
    ensures NamesOf(pool', list) == NamesOf(pool, list)
  {
    if list != [] {
      assert forall i | 0 <= i < |list[1..]| :: list[1..][i] == list[i + 1];
      SameNames(pool, pool', list[1..]);
    }
  }

  lemma CreatedFacts(r: Registry, dev: nat, parent: int)
    requires CanCreate(r, dev, parent) && InPool(r.pool, r.list)
    ensures var r' := Created(r, dev, parent);
      |r'.pool| == |r.pool| == CAPACITY && dev < CAPACITY && r'.list == r.list + [dev] &&
        r'.used == r.used[dev := true] &&
      dev !in r.list && InPool(r'.pool, r.list) && InPool(r'.pool, r'.list) &&
      r'.pool[dev].parent == parent && r'.pool[dev].firstChild == NONE && r'.pool[dev].name == Nul(NAME_MAX) &&
      forall i | 0 <= i < |r.list| :: r'.pool[r.list[i]].name == r.pool[r.list[i]].name
  {
    AppendedRest(r, dev, parent);
    assert |r.pool| == CAPACITY && dev !in r.list;
    hide Registry.Valid, Appended, Nul;
    var r' := Created(r, dev, parent);
    forall i | 0 <= i < |r.list| ensures r'.pool[r.list[i]].name == r.pool[r.list[i]].name {
      var c: nat := r.list[i];
      assert c in r.list && c != dev;
      assert r'.pool[c].name == r.pool[c].name;
    }
    assert r'.pool[dev].parent == parent;
  }

  lemma NamesOfMore(pool: seq<Device>, list: seq<nat>, dev: nat)
    requires InPool(pool, list + [dev]) && InPool(pool, list) && dev < |pool|
    ensures NamesOf(pool, list + [dev]) == NamesOf(pool, list) + [CString(pool[dev].name)]
  {
    hide NamesOf, CString;
    var names := NamesOf(pool, list + [dev]);
    assert forall i | 0 <= i < |list| :: (list + [dev])[i] == list[i];
    assert names[|list|] == CString(pool[(list + [dev])[|list|]].name);
  }

  /** While a new device is named, it stands last in the list, with the base as its name, and does not count. */
  lemma BaseDoesNotCount(pool: seq<Device>, list: seq<nat>, dev: nat, base: string)
    requires InPool(pool, list) && dev < |pool| && dev !in list && pool[dev].name == Nul(NAME_MAX)
    requires |base| < NAME_MAX && '\0' !in base
    ensures NewName(WithBase(pool, list + [dev], dev, base), base) == NewName(NamesOf(pool, list), base)
  {
    var text := base + pool[dev].name[|base|..];
    var pool' := pool[dev := pool[dev].(name := text)];
    hide Digits, NextSuffix;
    Terminated(text, base);
    SameNames(pool, pool', list);
    assert InPool(pool, list + [dev]);
    NamesOfMore(pool', list, dev);
    SuffixIgnored(NamesOf(pool, list), base, base, 0);
  }

  lemma CreatedNames(r: Registry, dev: nat, parent: int, base: string)
    requires CanCreate(r, dev, parent) && InPool(r.pool, r.list) && '\0' !in base
    ensures var r' := Created(r, dev, parent);
      InPool(r'.pool, r.list) && dev < |r'.pool| == CAPACITY &&
      r'.pool[dev].parent == parent && r'.pool[dev].firstChild == NONE &&
      r'.list == r.list + [dev] && r'.used == r.used[dev := true] && dev !in r.list && InPool(r'.pool, r'.list) &&
      NamesOf(r'.pool, r.list) == NamesOf(r.pool, r.list) &&
      (|base| < NAME_MAX ==>
         NewName(WithBase(r'.pool, r'.list, dev, base), base) == NewName(NamesOf(r.pool, r.list), base))
  {
    CreatedFacts(r, dev, parent);
    var r' := Created(r, dev, parent);
    hide Registry.Valid, Created, Nul, WithBase, NewName, CanCreate;
    SameNames(r.pool, r'.pool, r.list);
    if |base| < NAME_MAX {
      BaseDoesNotCount(r'.pool, r.list, dev, base);
    }
  }

  lemma NamedNames(r: Registry, r': Registry, dev: nat)
    requires r.list != [] && Last(r.list) == dev && dev !in r.list[..|r.list| - 1] && r'.list == r.list
    requires InPool(r.pool, r.list) && OnlyName(r.pool, r'.pool, dev)
    ensures InPool(r'.pool, r.list) && r'.pool[dev].parent == r.pool[dev].parent
    ensures var list := r.list[..|r.list| - 1];
      InPool(r.pool, list) && NamesOf(r'.pool, r.list) == NamesOf(r.pool, list) + [CString(r'.pool[dev].name)]
  {
    var list := r.list[..|r.list| - 1];
    assert r.list == list + [dev];
    assert forall i | 0 <= i < |list| :: list[i] == r.list[i];
    SameNames(r.pool, r'.pool, list);
    NamesOfMore(r'.pool, list, dev);
  }

  lemma StillLeaf(r: Registry, r': Registry, dev: nat)
    requires OnlyName(r.pool, r'.pool, dev) && r.pool[dev].firstChild == NONE
    ensures r'.pool[dev].firstChild == NONE
  {
  }

  /** A device that got no name leaves the list and the names of the others as they were. */
  lemma Undone(r: Registry, created: Registry, failed: Registry, r': Registry, dev: nat, j: nat, m: nat)
    requires InPool(r.pool, r.list) && InPool(created.pool, r.list) && dev !in r.list && created.list == r.list + [dev]
    requires NamesOf(created.pool, r.list) == NamesOf(r.pool, r.list)
    requires OnlyName(created.pool, failed.pool, dev) && failed.list == created.list
    requires CanRemove(failed, dev, j, m) && r' == Removed(failed, dev, j, m)
    ensures r'.list == r.list && InPool(r'.pool, r.list) && NamesOf(r'.pool, r.list) == NamesOf(r.pool, r.list)
  {
    DroppedRest(failed, dev, j, m);
    assert |failed.pool| == CAPACITY && |r'.pool| == CAPACITY;
    hide Registry.Valid, Dropped, NamesOf, CString;
    assert forall i | 0 <= i < |r.list| :: created.list[i] == r.list[i] && r.list[i] != dev;
    assert Less(r.list + [dev], |r.list|) == r.list;
    SameNames(created.pool, r'.pool, r.list);
  }

  lemma DroppedNames(r: Registry, dev: nat, j: nat, m: nat)
    requires CanRemove(r, dev, j, m) && InPool(r.pool, r.list)
    ensures var r', less := Removed(r, dev, j, m), Less(r.list, j);
      r'.list == less && |less| == |r.list| - 1 && |r'.pool| == |r.pool| == CAPACITY &&
      forall i | 0 <= i < |less| ::
        var x := r.list[if i < j then i else i + 1];
        less[i] == x && r'.pool[x].name == r.pool[x].name
  {
    DroppedRest(r, dev, j, m);
    RemovalSizes(r, dev, j, m);
    LessNoRepeat(r.list, j);
    assert |Dropped(r, dev, j, m)| == CAPACITY;
    hide Registry.Valid, Dropped, CanRemove, LinkedBy, NoRepeat, Nul;
    var pool', less := Dropped(r, dev, j, m), Less(r.list, j);
    forall i | 0 <= i < |less|
      ensures pool'[less[i]].name == r.pool[less[i]].name && less[i] == r.list[if i < j then i else i + 1]
    {
      var c: nat := r.list[if i < j then i else i + 1];
      assert less[i] == c && c in less && c != dev;
      assert pool'[c].name == r.pool[c].name;
    }
  }
}
