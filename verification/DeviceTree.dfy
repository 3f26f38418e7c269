/**
 The device pool as a value: every used slot is once in the global list, and the devices below a parent are linked
 from it in the order in which they came.
 */
module DeviceTree {
  import opened Links

  const CAPACITY := 16
  const NAME_MAX := 64

  datatype Device = Device(next: int, sibling: int, parent: int, firstChild: int, name: string)

  function Nul(n: nat): (s: string)
    ensures |s| == n && forall i | 0 <= i < n :: s[i] == '\0'
  {
    seq(n, _ => '\0')
  }

  /** A slot that was zeroed, but for the parent. */
  function Zeroed(parent: int): (d: Device)
    ensures |d.name| == NAME_MAX
  {
    Device(NONE, NONE, parent, NONE, Nul(NAME_MAX))
  }

  function Nexts(pool: seq<Device>): (s: seq<int>)
    ensures |s| == |pool| && forall i | 0 <= i < |s| :: s[i] == pool[i].next
  {
    seq(|pool|, i requires 0 <= i < |pool| => pool[i].next)
  }

  function Siblings(pool: seq<Device>): (s: seq<int>)
    ensures |s| == |pool| && forall i | 0 <= i < |s| :: s[i] == pool[i].sibling
  {
    seq(|pool|, i requires 0 <= i < |pool| => pool[i].sibling)
  }

  /** The pool, the used flags and the list head; for the proofs the global list and the child lists. */
  datatype Registry = Registry(pool: seq<Device>, used: seq<bool>, head: int, list: seq<nat>, kids: seq<seq<nat>>) {
    ghost predicate Sized() {
      |pool| == |used| == |kids| == CAPACITY && forall i | 0 <= i < CAPACITY :: |pool[i].name| == NAME_MAX
    }

    /** The global list holds every used slot once. */
    ghost predicate ListValid()
      requires Sized()
    {
      LinkedBy(Nexts(pool), head, list) && NoRepeat(list) && forall i: nat | i < CAPACITY :: i in list <==> used[i]
    }

    ghost predicate KidsValid(p: nat)
      requires Sized() && p < CAPACITY
    {
      LinkedBy(Siblings(pool), pool[p].firstChild, kids[p]) && NoRepeat(kids[p])
    }

    ghost predicate Related(p: nat, c: nat)
      requires Sized() && p < CAPACITY && c < CAPACITY
    {
      c in kids[p] <==> (used[c] && pool[c].parent == p)
    }

    ghost predicate ParentUsed(c: nat)
      requires Sized() && c < CAPACITY
    {
      pool[c].parent == NONE || (0 <= pool[c].parent < CAPACITY && used[pool[c].parent])
    }

    /** The child lists hold exactly the devices that name the parent, and parents are in use. */
    ghost predicate Family()
      requires Sized()
    {
      (forall p: nat, c: nat | p < CAPACITY && c < CAPACITY :: Related(p, c)) &&
      (forall c: nat | c < CAPACITY && used[c] :: ParentUsed(c))
    }

    ghost predicate Valid() {
      Sized() && ListValid() && Family() && forall p: nat | p < CAPACITY :: KidsValid(p)
    }
  }

  lemma ListInPool(r: Registry)
    requires r.Sized() && r.ListValid()
    ensures forall i | 0 <= i < |r.list| :: r.list[i] < CAPACITY
  {
  }

  lemma Relinked(pool: seq<Device>, i: nat, d: Device)
    requires i < |pool|
    ensures Nexts(pool[i := d]) == Nexts(pool)[i := d.next]
    ensures Siblings(pool[i := d]) == Siblings(pool)[i := d.sibling]
  {
  }

  // ---------- A new device ----------

  function Last(list: seq<nat>): nat
    requires list != []
  {
    list[|list| - 1]
  }

  /** append_device and append_child, on the pool. */
  function Appended(r: Registry, i: nat, p: int): (pool: seq<Device>)
    requires |r.pool| == |r.kids| == CAPACITY && i < CAPACITY && NONE <= p < CAPACITY
    requires r.list != [] ==> Last(r.list) < CAPACITY
    requires p != NONE && r.kids[p] != [] ==> Last(r.kids[p]) < CAPACITY
    ensures |pool| == |r.pool|
  {
    var zeroed := r.pool[i := Zeroed(p)];
    var listed := if r.list == [] then zeroed else zeroed[Last(r.list) := zeroed[Last(r.list)].(next := i)];
    if p == NONE then listed
    else if r.kids[p] == [] then listed[p := listed[p].(firstChild := i)]
    else listed[Last(r.kids[p]) := listed[Last(r.kids[p])].(sibling := i)]
  }

  function Created(r: Registry, i: nat, p: int): Registry
    requires |r.pool| == |r.kids| == |r.used| == CAPACITY && i < CAPACITY && NONE <= p < CAPACITY
    requires r.list != [] ==> Last(r.list) < CAPACITY
    requires p != NONE && r.kids[p] != [] ==> Last(r.kids[p]) < CAPACITY
  {
    Registry(Appended(r, i, p), r.used[i := true], if r.list == [] then i else r.head, r.list + [i],
             if p == NONE then r.kids else r.kids[p := r.kids[p] + [i]])
  }

  ghost predicate CanCreate(r: Registry, i: nat, p: int) {
    r.Valid() && i < CAPACITY && !r.used[i] && NONE <= p < CAPACITY && (p != NONE ==> r.used[p]) &&
    (r.list != [] ==> Last(r.list) < CAPACITY) && (p != NONE && r.kids[p] != [] ==> Last(r.kids[p]) < CAPACITY)
  }

  lemma AppendedLinks(r: Registry, i: nat, p: int)
    requires CanCreate(r, i, p)
    ensures var nexts := Nexts(r.pool)[i := NONE];
      Nexts(Appended(r, i, p)) == if r.list == [] then nexts else nexts[Last(r.list) := i]
    ensures var siblings := Siblings(r.pool)[i := NONE];
      Siblings(Appended(r, i, p))
        == if p == NONE || r.kids[p] == [] then siblings else siblings[Last(r.kids[p]) := i]
  {
    assert |r.pool| == |r.kids| == CAPACITY;
    hide Registry.Valid;
    var zeroed := r.pool[i := Zeroed(p)];
    Relinked(r.pool, i, Zeroed(p));
    var listed := if r.list == [] then zeroed else zeroed[Last(r.list) := zeroed[Last(r.list)].(next := i)];
    if r.list != [] {
      Relinked(zeroed, Last(r.list), zeroed[Last(r.list)].(next := i));
      assert Siblings(listed) == Siblings(zeroed);
    }
    if p != NONE {
      if r.kids[p] == [] {
        Relinked(listed, p, listed[p].(firstChild := i));
        var pool := listed[p := listed[p].(firstChild := i)];
        assert Nexts(pool) == Nexts(listed) && Siblings(pool) == Siblings(listed);
      } else {
        Relinked(listed, Last(r.kids[p]), listed[Last(r.kids[p])].(sibling := i));
        var pool := listed[Last(r.kids[p]) := listed[Last(r.kids[p])].(sibling := i)];
        assert Nexts(pool) == Nexts(listed);
      }
    }
  }

  /** Nothing but links changes in the other devices. */
  lemma AppendedRest(r: Registry, i: nat, p: int)
    requires CanCreate(r, i, p)
    ensures var pool := Appended(r, i, p);
      forall c: nat | c < CAPACITY ::
        pool[c].name == (if c == i then Nul(NAME_MAX) else r.pool[c].name) &&
        pool[c].parent == (if c == i then p else r.pool[c].parent) &&
        pool[c].firstChild
          == (if c == i then NONE else if c == p && r.kids[p] == [] then i else r.pool[c].firstChild)
  {
    assert p != i;
  }

  lemma CreatedIsSized(r: Registry, i: nat, p: int)
    requires CanCreate(r, i, p)
    ensures Created(r, i, p).Sized()
  {
    AppendedRest(r, i, p);
    hide Appended, Registry.ListValid, Registry.Family, Registry.KidsValid;
    var pool := Appended(r, i, p);
    forall c: nat | c < CAPACITY ensures |pool[c].name| == NAME_MAX {
      assert pool[c].name == if c == i then Nul(NAME_MAX) else r.pool[c].name;
    }
  }

  lemma CreatedIsListed(r: Registry, i: nat, p: int)
    requires CanCreate(r, i, p)
    ensures Created(r, i, p).Sized() && Created(r, i, p).ListValid()
  {
    AppendedLinks(r, i, p);
    CreatedIsSized(r, i, p);
    assert i !in r.list && LinkedBy(Nexts(r.pool), r.head, r.list) && NoRepeat(r.list);
    assert forall x: nat | x < CAPACITY :: x in r.list <==> r.used[x];
    hide Registry.Valid, Registry.Sized, Appended, LinkedBy, NoRepeat, Nexts, Siblings;
    var nexts := Nexts(r.pool);
    OtherLink(nexts, r.head, r.list, i, NONE);
    LinkLast(nexts[i := NONE], r.head, r.list, i);
  }

  lemma CreatedRelated(r: Registry, i: nat, p: int, q: nat, c: nat)
    requires CanCreate(r, i, p) && Created(r, i, p).Sized() && q < CAPACITY && c < CAPACITY && r.Related(q, c)
    ensures Created(r, i, p).Related(q, c)
  {
    AppendedRest(r, i, p);
    hide Registry.Valid, Appended;
    assert Appended(r, i, p)[c].parent == if c == i then p else r.pool[c].parent;
  }

  lemma CreatedParent(r: Registry, i: nat, p: int, c: nat)
    requires CanCreate(r, i, p) && Created(r, i, p).Sized() && c < CAPACITY && (r.used[c] ==> r.ParentUsed(c))
    ensures r.used[c] || c == i ==> Created(r, i, p).ParentUsed(c)
  {
    AppendedRest(r, i, p);
    hide Registry.Valid, Appended;
    assert Appended(r, i, p)[c].parent == if c == i then p else r.pool[c].parent;
  }

  lemma CreatedFamily(r: Registry, i: nat, p: int)
    requires CanCreate(r, i, p)
    ensures Created(r, i, p).Sized() && Created(r, i, p).Family()
  {
    CreatedIsSized(r, i, p);
    hide Registry.ListValid, Registry.KidsValid, Appended, Registry.Related, Registry.ParentUsed;
    var r' := Created(r, i, p);
    forall q: nat, c: nat | q < CAPACITY && c < CAPACITY ensures r'.Related(q, c) {
      assert r.Related(q, c);
      CreatedRelated(r, i, p, q, c);
    }
    forall c: nat | c < CAPACITY && r'.used[c] ensures r'.ParentUsed(c) {
      CreatedParent(r, i, p, c);
    }
  }

  lemma EmptyLink(link: seq<int>, head: int, list: seq<nat>)
    requires list == []
    ensures LinkedBy(link, NONE, list) && NoRepeat(list)
  {
  }

  lemma NotYetKid(r: Registry, i: nat, q: nat)
    requires r.Sized() && r.Family() && i < CAPACITY && q < CAPACITY && !r.used[i]
    ensures i !in r.kids[q]
  {
    assert r.Related(q, i);
  }

  lemma OneParent(r: Registry, p: nat, q: nat, c: nat)
    requires r.Sized() && r.Family() && p < CAPACITY && q < CAPACITY && p != q && c in r.kids[p] && c < CAPACITY
    ensures c !in r.kids[q]
  {
    assert r.Related(p, c) && r.Related(q, c);
  }

  lemma KidFacts(r: Registry, p: nat, c: nat)
    requires r.Sized() && r.Family() && p < CAPACITY && c < CAPACITY && c in r.kids[p]
    ensures r.used[c] && r.pool[c].parent == p && r.used[p]
  {
    assert r.Related(p, c);
    assert r.ParentUsed(c);
  }

  lemma NoKids(r: Registry, i: nat)
    requires r.Sized() && r.Family() && i < CAPACITY && r.KidsValid(i) && !r.used[i]
    ensures r.kids[i] == []
  {
    if r.kids[i] != [] {
      KidFacts(r, i, r.kids[i][0]);
    }
  }

  lemma CreatedKids(r: Registry, i: nat, p: int, q: nat)
    requires CanCreate(r, i, p) && q < CAPACITY
    ensures Created(r, i, p).Sized() && Created(r, i, p).KidsValid(q)
  {
    CreatedIsSized(r, i, p);
    AppendedLinks(r, i, p);
    AppendedRest(r, i, p);
    assert r.KidsValid(q);
    NotYetKid(r, i, q);
    if q == i {
      NoKids(r, i);
    }
    if p != NONE && r.kids[p] != [] && q != p {
      OneParent(r, p, q, Last(r.kids[p]));
    }
    var siblings := Siblings(r.pool);
    var link, head := siblings[i := NONE], r.pool[q].firstChild;
    var r' := Created(r, i, p);
    assert r'.pool[q].firstChild == if q == i then NONE else if q == p && r.kids[p] == [] then i else head;
    hide Registry.ListValid, Registry.Family, Registry.Sized, Appended, LinkedBy, NoRepeat;
    OtherLink(siblings, head, r.kids[q], i, NONE);
    if q == p {
      LinkLast(link, head, r.kids[q], i);
    } else if p != NONE && r.kids[p] != [] {
      OtherLink(link, head, r.kids[q], Last(r.kids[p]), i);
    }
    if q == i {
      EmptyLink(Siblings(r'.pool), head, r.kids[q]);
    }
  }

  lemma CreatedIsValid(r: Registry, i: nat, p: int)
    requires CanCreate(r, i, p)
    ensures Created(r, i, p).Valid()
  {
    CreatedIsListed(r, i, p);
    CreatedFamily(r, i, p);
    hide Registry.ListValid, Registry.Family, Registry.KidsValid, Registry.Sized, Created;
    forall q: nat | q < CAPACITY ensures Created(r, i, p).KidsValid(q) {
      CreatedKids(r, i, p, q);
    }
  }

  // ---------- A leaf goes ----------

  /** unlink_device_from_parent, the unlinking from the global list, and release_device; `j` and `m` are the places. */
  function Dropped(r: Registry, d: nat, j: nat, m: nat): (pool: seq<Device>)
    requires |r.pool| == |r.kids| == CAPACITY && d < CAPACITY && j < |r.list|
    requires j > 0 ==> r.list[j - 1] < CAPACITY
    requires var p := r.pool[d].parent;
      NONE <= p < CAPACITY && (p != NONE ==> m < |r.kids[p]| && (m > 0 ==> r.kids[p][m - 1] < CAPACITY))
    ensures |pool| == |r.pool|
  {
    var p, sibling := r.pool[d].parent, r.pool[d].sibling;
    var orphan := if p == NONE then r.pool
                  else if m == 0 then r.pool[p := r.pool[p].(firstChild := sibling)]
                  else r.pool[r.kids[p][m - 1] := r.pool[r.kids[p][m - 1]].(sibling := sibling)];
    var unlisted := if j == 0 then orphan
                    else orphan[r.list[j - 1] := orphan[r.list[j - 1]].(next := r.pool[d].next)];
    unlisted[d := Zeroed(NONE)]
  }

  /** A leaf at these places. */
  ghost predicate CanRemove(r: Registry, d: nat, j: nat, m: nat) {
    r.Valid() && d < CAPACITY && r.used[d] && r.kids[d] == [] && r.ParentUsed(d) &&
    (forall i | 0 <= i < |r.list| :: r.list[i] < CAPACITY) && j < |r.list| && r.list[j] == d &&
    var p := r.pool[d].parent;
    p != NONE ==> (forall i | 0 <= i < |r.kids[p]| :: r.kids[p][i] < CAPACITY) && m < |r.kids[p]| && r.kids[p][m] == d
  }

  function Removed(r: Registry, d: nat, j: nat, m: nat): Registry
    requires |r.pool| == |r.kids| == |r.used| == CAPACITY && d < CAPACITY && j < |r.list|
    requires j > 0 ==> r.list[j - 1] < CAPACITY
    requires var p := r.pool[d].parent;
      NONE <= p < CAPACITY && (p != NONE ==> m < |r.kids[p]| && (m > 0 ==> r.kids[p][m - 1] < CAPACITY))
  {
    var p := r.pool[d].parent;
    Registry(Dropped(r, d, j, m), r.used[d := false], if j == 0 then r.pool[d].next else r.head, Less(r.list, j),
             if p == NONE then r.kids else r.kids[p := Less(r.kids[p], m)])
  }

  lemma NeverOwnKid(r: Registry, d: nat, j: nat, m: nat)
    requires CanRemove(r, d, j, m)
    ensures var p := r.pool[d].parent; p != d && (p != NONE && m > 0 ==> r.kids[p][m - 1] != d)
    ensures j > 0 ==> r.list[j - 1] != d
  {
    var p := r.pool[d].parent;
    assert r.Related(d, d);
    if p != NONE {
      assert r.KidsValid(p);
    }
  }

  lemma ZeroedLinks()
    ensures Zeroed(NONE).next == NONE && Zeroed(NONE).sibling == NONE
  {
  }

  lemma DroppedLinks(r: Registry, d: nat, j: nat, m: nat)
    requires CanRemove(r, d, j, m)
    ensures var nexts := Nexts(r.pool);
      Nexts(Dropped(r, d, j, m)) == (if j == 0 then nexts else nexts[r.list[j - 1] := nexts[d]])[d := NONE]
    ensures var siblings, p := Siblings(r.pool), r.pool[d].parent;
      Siblings(Dropped(r, d, j, m))
        == (if p == NONE || m == 0 then siblings else siblings[r.kids[p][m - 1] := siblings[d]])[d := NONE]
  {
    assert |r.pool| == |r.kids| == CAPACITY;
    var p, sibling := r.pool[d].parent, r.pool[d].sibling;
    hide Registry.Valid, Registry.Sized, Zeroed;
    var orphan := r.pool;
    if p != NONE {
      var x := if m == 0 then p else r.kids[p][m - 1];
      var device := if m == 0 then r.pool[p].(firstChild := sibling) else r.pool[x].(sibling := sibling);
      orphan := r.pool[x := device];
      Relinked(r.pool, x, device);
      assert Nexts(orphan) == Nexts(r.pool);
      assert m == 0 ==> Siblings(orphan) == Siblings(r.pool);
    }
    var unlisted := orphan;
    if j > 0 {
      var x := r.list[j - 1];
      unlisted := orphan[x := orphan[x].(next := r.pool[d].next)];
      Relinked(orphan, x, orphan[x].(next := r.pool[d].next));
      assert Siblings(unlisted) == Siblings(orphan);
    }
    Relinked(unlisted, d, Zeroed(NONE));
    ZeroedLinks();
  }

  lemma DroppedRest(r: Registry, d: nat, j: nat, m: nat)
    requires CanRemove(r, d, j, m)
    ensures var pool, p := Dropped(r, d, j, m), r.pool[d].parent;
      forall c: nat | c < CAPACITY ::
        pool[c].name == (if c == d then Nul(NAME_MAX) else r.pool[c].name) &&
        pool[c].parent == (if c == d then NONE else r.pool[c].parent) &&
        pool[c].firstChild
          == (if c == d then NONE else if c == p && m == 0 then r.pool[d].sibling else r.pool[c].firstChild)
  {
    NeverOwnKid(r, d, j, m);
    hide Registry.Valid;
  }

  lemma RemovedIsSized(r: Registry, d: nat, j: nat, m: nat)
    requires CanRemove(r, d, j, m)
    ensures Removed(r, d, j, m).Sized()
  {
    DroppedRest(r, d, j, m);
    hide Dropped, Registry.ListValid, Registry.Family, Registry.KidsValid;
    var pool := Dropped(r, d, j, m);
    forall c: nat | c < CAPACITY ensures |pool[c].name| == NAME_MAX {
      assert pool[c].name == if c == d then Nul(NAME_MAX) else r.pool[c].name;
    }
  }

  lemma RemovedIsListed(r: Registry, d: nat, j: nat, m: nat)
    requires CanRemove(r, d, j, m)
    ensures Removed(r, d, j, m).Sized() && Removed(r, d, j, m).ListValid()
  {
    DroppedLinks(r, d, j, m);
    RemovedIsSized(r, d, j, m);
    assert LinkedBy(Nexts(r.pool), r.head, r.list) && NoRepeat(r.list) && Nexts(r.pool)[d] == r.pool[d].next;
    assert forall x: nat | x < CAPACITY :: x in r.list <==> r.used[x];
    hide Registry.Valid, Registry.Sized, Dropped, LinkedBy, NoRepeat, Less;
    var nexts := Nexts(r.pool);
    Unlink(nexts, r.head, r.list, j);
    LessNoRepeat(r.list, j);
    var relinked := if j == 0 then nexts else nexts[r.list[j - 1] := nexts[d]];
    OtherLink(relinked, if j == 0 then nexts[d] else r.head, Less(r.list, j), d, NONE);
    forall x: nat | x < CAPACITY ensures x in Less(r.list, j) <==> r.used[d := false][x] {
      InLess(r.list, j, x);
    }
  }

  lemma RemovedRelated(r: Registry, d: nat, j: nat, m: nat, q: nat, c: nat)
    requires CanRemove(r, d, j, m) && Removed(r, d, j, m).Sized() && q < CAPACITY && c < CAPACITY && r.Related(q, c)
    ensures Removed(r, d, j, m).Related(q, c)
  {
    DroppedRest(r, d, j, m);
    assert q == r.pool[d].parent ==> NoRepeat(r.kids[q]) by { assert r.KidsValid(q); }
    hide Registry.Valid, Dropped, NoRepeat, Less;
    assert Dropped(r, d, j, m)[c].parent == if c == d then NONE else r.pool[c].parent;
    if q == r.pool[d].parent {
      InLess(r.kids[q], m, c);
      LessNoRepeat(r.kids[q], m);
    }
  }

  lemma RemovedParent(r: Registry, d: nat, j: nat, m: nat, c: nat)
    requires CanRemove(r, d, j, m) && Removed(r, d, j, m).Sized() && c < CAPACITY && c != d
    requires r.used[c] && r.ParentUsed(c) && r.Related(d, c)
    ensures Removed(r, d, j, m).ParentUsed(c)
  {
    DroppedRest(r, d, j, m);
    hide Registry.Valid, Dropped, Less;
    assert Dropped(r, d, j, m)[c].parent == r.pool[c].parent;
  }

  lemma RemovedFamily(r: Registry, d: nat, j: nat, m: nat)
    requires CanRemove(r, d, j, m)
    ensures Removed(r, d, j, m).Sized() && Removed(r, d, j, m).Family()
  {
    RemovedIsSized(r, d, j, m);
    hide Registry.ListValid, Registry.KidsValid, Dropped, Registry.Related, Registry.ParentUsed, Less;
    var r' := Removed(r, d, j, m);
    forall q: nat, c: nat | q < CAPACITY && c < CAPACITY ensures r'.Related(q, c) {
      assert r.Related(q, c);
      RemovedRelated(r, d, j, m, q, c);
    }
    forall c: nat | c < CAPACITY && r'.used[c] ensures r'.ParentUsed(c) {
      assert r.Related(d, c);
      RemovedParent(r, d, j, m, c);
    }
  }

  lemma RemovedKids(r: Registry, d: nat, j: nat, m: nat, q: nat)
    requires CanRemove(r, d, j, m) && q < CAPACITY
    ensures Removed(r, d, j, m).Sized() && Removed(r, d, j, m).KidsValid(q)
  {
    RemovedIsSized(r, d, j, m);
    DroppedLinks(r, d, j, m);
    DroppedRest(r, d, j, m);
    NeverOwnKid(r, d, j, m);
    assert r.KidsValid(q);
    var p := r.pool[d].parent;
    if p != q {
      assert d !in r.kids[q] by { assert r.Related(q, d); }
      if p != NONE && m > 0 {
        OneParent(r, p, q, r.kids[p][m - 1]);
      }
    }
    var siblings := Siblings(r.pool);
    var head, r' := r.pool[q].firstChild, Removed(r, d, j, m);
    assert r'.pool[q].firstChild == if q == d then NONE else if q == p && m == 0 then r.pool[d].sibling else head;
    assert siblings[d] == r.pool[d].sibling;
    hide Registry.ListValid, Registry.Family, Registry.Sized, Dropped, LinkedBy, NoRepeat, Less;
    var link := if p == NONE || m == 0 then siblings else siblings[r.kids[p][m - 1] := siblings[d]];
    if q == p {
      Unlink(siblings, head, r.kids[q], m);
      LessNoRepeat(r.kids[q], m);
      OtherLink(link, if m == 0 then siblings[d] else head, Less(r.kids[q], m), d, NONE);
    } else {
      if p != NONE && m > 0 {
        OtherLink(siblings, head, r.kids[q], r.kids[p][m - 1], siblings[d]);
      }
      OtherLink(link, head, r.kids[q], d, NONE);
      if q == d {
        EmptyLink(Siblings(r'.pool), head, r.kids[q]);
      }
    }
  }

  lemma RemovedIsValid(r: Registry, d: nat, j: nat, m: nat)
    requires CanRemove(r, d, j, m)
    ensures Removed(r, d, j, m).Valid()
  {
    RemovedIsListed(r, d, j, m);
    RemovedFamily(r, d, j, m);
    hide Registry.ListValid, Registry.Family, Registry.KidsValid, Registry.Sized, Removed;
    forall q: nat | q < CAPACITY ensures Removed(r, d, j, m).KidsValid(q) {
      RemovedKids(r, d, j, m, q);
    }
  }
}
