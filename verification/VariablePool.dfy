/**
 The pool at work. Every run of setting, reading and removing variables, by any number of instances, does to each
 instance what it would do to a finite map of its own, as long as the sixteen slots last.
 */
module VariablePool {
  import opened Links
  import opened Variables

  // ---------- The whole state as a value ----------

  function Total(lists: seq<seq<nat>>): nat {
    if lists == [] then 0 else |lists[0]| + Total(lists[1..])
  }

  function CountUsed(used: seq<bool>): nat {
    if used == [] then 0 else (if used[0] then 1 else 0) + CountUsed(used[1..])
  }

  /** The pool, the used flags, the list heads, and for the proofs the lists and the owner of each slot. */
  datatype World = World(pool: seq<Slot>, used: seq<bool>, heads: seq<int>, lists: seq<seq<nat>>, owner: seq<int>) {

    ghost predicate ListValid(k: nat)
      requires k < |lists| && |heads| == |lists|
    {
      Linked(pool, heads[k], lists[k]) && Slots(pool, lists[k]) && Distinct(pool, lists[k])
    }

    /** The lists are disjoint and together hold exactly the used slots. */
    ghost predicate Owned() {
      |pool| == |used| == |owner| == CAPACITY && |heads| == |lists| &&
      (forall i | 0 <= i < CAPACITY :: NONE <= owner[i] < |lists| && (used[i] <==> owner[i] != NONE)) &&
      (forall k: nat, i: nat | k < |lists| && i < CAPACITY :: i in lists[k] <==> owner[i] == k) &&
      Total(lists) == CountUsed(used)
    }

    ghost predicate Valid() {
      Owned() && forall k: nat | k < |lists| :: ListValid(k)
    }

    /** What instance `k` has set. */
    ghost function Vars(k: nat): map<string, string>
      requires Valid() && k < |lists|
    {
      assert ListValid(k);
      MapOf(pool, lists[k])
    }

    /** What all instances have set. */
    ghost function Maps(): (m: seq<map<string, string>>)
      requires Valid()
      ensures |m| == |lists|
    {
      seq(|lists|, k requires 0 <= k < |lists| => Vars(k))
    }

    lemma ListFacts(k: nat)
      requires Valid() && k < |lists|
      ensures |pool| == CAPACITY && Linked(pool, heads[k], lists[k]) && Slots(pool, lists[k]) &&
          Distinct(pool, lists[k])
      ensures Maps()[k] == MapOf(pool, lists[k])
    {
      assert ListValid(k);
    }
  }

  lemma {:induction false} TotalChanges(lists: seq<seq<nat>>, k: nat, list: seq<nat>)
    requires k < |lists|
    ensures Total(lists[k := list]) == Total(lists) - |lists[k]| + |list|
  {
    if k == 0 {
      assert lists[k := list][1..] == lists[1..];
    } else {
      assert lists[k := list][1..] == lists[1..][k - 1 := list];
      TotalChanges(lists[1..], k - 1, list);
    }
  }

  lemma {:induction false} CountChanges(used: seq<bool>, i: nat, v: bool)
    requires i < |used|
    ensures CountUsed(used[i := v]) == CountUsed(used) - (if used[i] then 1 else 0) + if v then 1 else 0
  {
    if i == 0 {
      assert used[i := v][1..] == used[1..];
    } else {
      assert used[i := v][1..] == used[1..][i - 1 := v];
      CountChanges(used[1..], i - 1, v);
    }
  }

  lemma {:induction false} AllUsed(used: seq<bool>)
    ensures CountUsed(used) <= |used|
    ensures CountUsed(used) == |used| <==> forall i | 0 <= i < |used| :: used[i]
  {
    if used != [] {
      AllUsed(used[1..]);
      assert forall i | 0 < i < |used| :: used[i] == used[1..][i - 1];
      assert (forall i | 0 <= i < |used| :: used[i]) ==> forall i | 0 <= i < |used[1..]| :: used[1..][i];
    }
  }

  // ---------- The three changes ----------

  /** A key of instance `k` gets a new value, in its slot. */
  function Changed(w: World, k: nat, j: nat, s: Slot): World
    requires k < |w.lists| && j < |w.lists[k]| && w.lists[k][j] < |w.pool|
  {
    w.(pool := w.pool[w.lists[k][j] := s])
  }

  lemma SameLink(pool: seq<Slot>, head: int, list: seq<nat>, i: nat, s: Slot)
    requires Linked(pool, head, list) && i < |pool| && (i !in list || s.next == pool[i].next)
    ensures Linked(pool[i := s], head, list)
  {
    hide LinkedBy, Nexts;
    Relinked(pool, i, s);
    if i in list {
      assert Nexts(pool)[i := s.next] == Nexts(pool);
    } else {
      OtherLink(Nexts(pool), head, list, i, s.next);
    }
  }

  lemma ChangeOther(pool: seq<Slot>, head: int, list: seq<nat>, i: nat, s: Slot)
    requires Linked(pool, head, list) && Slots(pool, list) && Distinct(pool, list) && i < |pool| && i !in list
    ensures Linked(pool[i := s], head, list) && Slots(pool[i := s], list) && Distinct(pool[i := s], list)
    ensures MapOf(pool[i := s], list) == MapOf(pool, list)
  {
    SameLink(pool, head, list, i, s);
    hide Linked, Distinct, MapOf;
    OtherSlot(pool, list, i, s);
  }

  lemma ChangeOwn(pool: seq<Slot>, head: int, list: seq<nat>, j: nat, s: Slot)
    requires Linked(pool, head, list) && Slots(pool, list) && Distinct(pool, list) && j < |list|
    requires s.Filled() && s.next == pool[list[j]].next && s.Key() == pool[list[j]].Key()
    ensures var pool' := pool[list[j] := s];
      Linked(pool', head, list) && Slots(pool', list) && Distinct(pool', list) &&
      MapOf(pool', list) == MapOf(pool, list)[s.Key() := s.Value()]
  {
    SameLink(pool, head, list, list[j], s);
    hide Linked, Distinct, MapOf, Slot.Filled;
    NewValue(pool, list, j, s);
  }

  lemma OneOwner(w: World, k: nat, l: nat, i: nat)
    requires w.Owned() && k < |w.lists| && l < |w.lists| && k != l && i in w.lists[k] && i < |w.pool|
    ensures i !in w.lists[l]
  {
    hide Total, CountUsed;
    assert w.owner[i] == k;
  }

  lemma ChangeList(w: World, k: nat, j: nat, s: Slot, l: nat)
    requires w.Owned() && k < |w.lists| && j < |w.lists[k]| && l < |w.lists| && w.ListValid(k) && w.ListValid(l)
    requires s.Filled() && s.next == w.pool[w.lists[k][j]].next && s.Key() == w.pool[w.lists[k][j]].Key()
    ensures var w' := Changed(w, k, j, s);
      w'.ListValid(l) &&
      MapOf(w'.pool, w'.lists[l]) == if l == k then MapOf(w.pool, w.lists[k])[s.Key() := s.Value()]
        else MapOf(w.pool, w.lists[l])
  {
    assert l != k ==> w.lists[k][j] !in w.lists[l] by { if l != k { OneOwner(w, k, l, w.lists[k][j]); } }
    hide Slot.Filled, Slot.Key, Slot.Value, Linked, MapOf, Distinct, World.Owned, Total, CountUsed;
    if l == k {
      ChangeOwn(w.pool, w.heads[k], w.lists[k], j, s);
    } else {
      ChangeOther(w.pool, w.heads[l], w.lists[l], w.lists[k][j], s);
    }
  }

  lemma ChangeKeepsValid(w: World, k: nat, j: nat, s: Slot)
    requires w.Valid() && k < |w.lists| && j < |w.lists[k]|
    requires w.ListValid(k) && s.Filled() && s.next == w.pool[w.lists[k][j]].next &&
        s.Key() == w.pool[w.lists[k][j]].Key()
    ensures var w' := Changed(w, k, j, s);
      w'.Valid() && w'.Vars(k) == w.Vars(k)[s.Key() := s.Value()] &&
      forall l: nat | l < |w.lists| && l != k :: w'.Vars(l) == w.Vars(l)
  {
    assert Changed(w, k, j, s).Owned();
    hide Slot.Filled, Slot.Key, Slot.Value, World.Owned, MapOf, World.ListValid;
    var w' := Changed(w, k, j, s);
    forall l: nat | l < |w.lists|
      ensures w'.ListValid(l) && (w'.Valid() ==> l != k ==> w'.Vars(l) == w.Vars(l))
    {
      assert w.ListValid(l);
      ChangeList(w, k, j, s, l);
    }
    ChangeList(w, k, j, s, k);
  }

  /** A new key of instance `k` goes into a free slot at the head of its list. */
  function Added(w: World, k: nat, i: nat, s: Slot): World
    requires k < |w.lists| == |w.heads| && i < |w.pool| == |w.used| == |w.owner|
  {
    World(w.pool[i := s], w.used[i := true], w.heads[k := i], w.lists[k := [i] + w.lists[k]], w.owner[i := k])
  }

  lemma AddedIsOwned(w: World, k: nat, i: nat, s: Slot)
    requires w.Valid() && k < |w.lists| && i < CAPACITY && !w.used[i]
    ensures Added(w, k, i, s).Owned()
  {
    hide Total, CountUsed;
    var w' := Added(w, k, i, s);
    TotalChanges(w.lists, k, [i] + w.lists[k]);
    CountChanges(w.used, i, true);
    forall l: nat, x: nat | l < |w.lists| && x < CAPACITY ensures x in w'.lists[l] <==> w'.owner[x] == l {
      assert x in w.lists[l] <==> w.owner[x] == l;
    }
  }

  lemma FreeSlotInNoList(w: World, i: nat, l: nat)
    requires w.Owned() && l < |w.lists| && i < CAPACITY && !w.used[i]
    ensures i !in w.lists[l]
  {
    hide Total, CountUsed;
    assert w.owner[i] == NONE;
  }

  lemma PutInFront(pool: seq<Slot>, head: int, list: seq<nat>, i: nat, s: Slot)
    requires Linked(pool, head, list) && i < |pool| && i !in list && s.next == head
    ensures Linked(pool[i := s], i, [i] + list)
  {
    hide LinkedBy, Nexts;
    Relinked(pool, i, s);
    LinkFirst(Nexts(pool), head, list, i);
  }

  lemma DistinctInFront(pool: seq<Slot>, list: seq<nat>, i: nat)
    requires Slots(pool, list) && Distinct(pool, list) && i < |pool| && i !in list && pool[i].Filled()
    requires pool[i].Key() !in MapOf(pool, list)
    ensures Slots(pool, [i] + list) && Distinct(pool, [i] + list)
  {
    KeysOfMap(pool, list, pool[i].Key());
    hide Slot.Filled, Slot.Key, MapOf;
    var list' := [i] + list;
    assert forall j | 0 <= j < |list'| :: list'[j] == if j == 0 then i else list[j - 1];
  }

  lemma AddToList(w: World, k: nat, i: nat, s: Slot, l: nat)
    requires w.Valid() && k < |w.lists| && i < CAPACITY && !w.used[i] && l < |w.lists| && w.ListValid(k) &&
        w.ListValid(l)
    requires s.Filled() && s.next == w.heads[k] && s.Key() !in MapOf(w.pool, w.lists[k])
    ensures var w' := Added(w, k, i, s);
      w'.ListValid(l) &&
      MapOf(w'.pool, w'.lists[l]) == if l == k then MapOf(w.pool, w.lists[k])[s.Key() := s.Value()]
        else MapOf(w.pool, w.lists[l])
  {
    FreeSlotInNoList(w, i, l);
    hide Slot.Filled, Slot.Key, Slot.Value, Total, CountUsed, Distinct, Linked, World.Owned;
    ChangeOther(w.pool, w.heads[l], w.lists[l], i, s);
    if l == k {
      PutInFront(w.pool, w.heads[k], w.lists[k], i, s);
      DistinctInFront(w.pool[i := s], w.lists[k], i);
      assert ([i] + w.lists[k])[1..] == w.lists[k];
    }
  }

  lemma AddKeepsValid(w: World, k: nat, i: nat, s: Slot)
    requires w.Valid() && k < |w.lists| && i < CAPACITY && !w.used[i]
    requires s.Filled() && s.next == w.heads[k] && s.Key() !in w.Vars(k)
    ensures var w' := Added(w, k, i, s);
      w'.Valid() && w'.Vars(k) == w.Vars(k)[s.Key() := s.Value()] &&
      forall l: nat | l < |w.lists| && l != k :: w'.Vars(l) == w.Vars(l)
  {
    AddedIsOwned(w, k, i, s);
    assert |w.lists| == |w.heads| && |w.pool| == |w.used| == |w.owner| == CAPACITY;
    hide Slot.Filled, Slot.Key, Slot.Value, World.Owned, MapOf, World.ListValid;
    var w' := Added(w, k, i, s);
    assert w.ListValid(k);
    forall l: nat | l < |w.lists|
      ensures w'.ListValid(l) && (w'.Valid() ==> l != k ==> w'.Vars(l) == w.Vars(l))
    {
      assert w.ListValid(l);
      AddToList(w, k, i, s, l);
    }
    AddToList(w, k, i, s, k);
  }

  /** The pool after slot `j` of the list was unlinked and emptied. */
  function PoolWithout(pool: seq<Slot>, list: seq<nat>, j: nat, empty: Slot): seq<Slot>
    requires j < |list| && forall i | 0 <= i < |list| :: list[i] < |pool|
  {
    var next := pool[list[j]].next;
    var relinked := if j == 0 then pool else pool[list[j - 1] := pool[list[j - 1]].(next := next)];
    relinked[list[j] := empty]
  }

  /** The j-th slot of instance `k` is unlinked and emptied. */
  function Removed(w: World, k: nat, j: nat, empty: Slot): World
    requires k < |w.lists| == |w.heads| && |w.pool| == |w.used| == |w.owner| && j < |w.lists[k]|
    requires forall i | 0 <= i < |w.lists[k]| :: w.lists[k][i] < |w.pool|
  {
    var list := w.lists[k];
    var heads := if j == 0 then w.heads[k := w.pool[list[0]].next] else w.heads;
    World(PoolWithout(w.pool, list, j, empty), w.used[list[j] := false], heads,
          w.lists[k := Less(list, j)], w.owner[list[j] := NONE])
  }

  lemma RemovedIsOwned(w: World, k: nat, j: nat, empty: Slot)
    requires w.Valid() && k < |w.lists| && j < |w.lists[k]| && w.ListValid(k)
    ensures Removed(w, k, j, empty).Owned()
  {
    hide Total, CountUsed, Slot.Filled, Slot.Key, MapOf, Linked;
    var list := w.lists[k];
    var w', i := Removed(w, k, j, empty), list[j];
    TotalChanges(w.lists, k, Less(list, j));
    assert w.used[i] by { assert i in w.lists[k]; }
    CountChanges(w.used, i, false);
    LessSlots(w.pool, list, j);
    forall l: nat, x: nat | l < |w.lists| && x < CAPACITY ensures x in w'.lists[l] <==> w'.owner[x] == l {
      assert x in w.lists[l] <==> w.owner[x] == l;
      InLess(list, j, x);
    }
  }

  lemma SameText(s: Slot, next: int)
    requires s.Filled()
    ensures var t := s.(next := next); t.Filled() && t.Key() == s.Key() && t.Value() == s.Value()
  {
  }

  lemma {:induction false} RelinkKeeps(pool: seq<Slot>, list: seq<nat>, p: nat, next: int)
    requires Slots(pool, list) && Distinct(pool, list) && p < |pool| && pool[p].Filled()
    ensures var pool' := pool[p := pool[p].(next := next)];
      Slots(pool', list) && Distinct(pool', list) && MapOf(pool', list) == MapOf(pool, list)
  {
    var s := pool[p].(next := next);
    SameText(pool[p], next);
    hide Slot.Filled, Slot.Key, Slot.Value;
    var pool' := pool[p := s];
    forall i | 0 <= i < |list|
      ensures list[i] < |pool'| && pool'[list[i]].Filled() && pool'[list[i]].Key() == pool[list[i]].Key()
    {
    }
    if list != [] {
      assert forall j | 0 <= j < |list[1..]| :: list[1..][j] == list[j + 1];
      RelinkKeeps(pool, list[1..], p, next);
    }
  }

  lemma LinkedLess(pool: seq<Slot>, head: int, list: seq<nat>, j: nat, empty: Slot)
    requires Linked(pool, head, list) && j < |list| && NoRepeat(list) && forall i | 0 <= i < |list| :: list[i] < |pool|
    ensures Linked(PoolWithout(pool, list, j, empty), if j == 0 then pool[list[0]].next else head, Less(list, j))
  {
    hide LinkedBy, Nexts, Less, NoRepeat;
    var d, links := list[j], Nexts(pool);
    var relinked := if j == 0 then pool else pool[list[j - 1] := pool[list[j - 1]].(next := pool[d].next)];
    if j > 0 {
      Relinked(pool, list[j - 1], pool[list[j - 1]].(next := pool[d].next));
    }
    Relinked(relinked, d, empty);
    Unlink(links, head, list, j);
    LessNoRepeat(list, j);
    OtherLink(Nexts(relinked), if j == 0 then links[d] else head, Less(list, j), d, empty.next);
  }

  lemma MapLess(pool: seq<Slot>, list: seq<nat>, j: nat, empty: Slot)
    requires Slots(pool, list) && Distinct(pool, list) && j < |list|
    ensures var pool', less := PoolWithout(pool, list, j, empty), Less(list, j);
      Slots(pool', less) && Distinct(pool', less) && MapOf(pool', less) == MapOf(pool, list) - {pool[list[j]].Key()}
  {
    var next := pool[list[j]].next;
    var relinked := if j == 0 then pool else pool[list[j - 1] := pool[list[j - 1]].(next := next)];
    LessSlots(pool, list, j);
    hide Slot.Filled, Slot.Key, Slot.Value, MapOf, Distinct, Less;
    DropKey(pool, list, j);
    if j > 0 {
      RelinkKeeps(pool, Less(list, j), list[j - 1], next);
    }
    OtherSlot(relinked, Less(list, j), list[j], empty);
  }

  lemma RemoveOther(pool: seq<Slot>, head: int, list: seq<nat>, mine: seq<nat>, j: nat, empty: Slot)
    requires Linked(pool, head, list) && Slots(pool, list) && Distinct(pool, list) && j < |mine| && Slots(pool, mine)
    requires forall i | i in mine :: i !in list
    ensures var pool' := PoolWithout(pool, mine, j, empty);
      Linked(pool', head, list) && Slots(pool', list) && Distinct(pool', list) &&
        MapOf(pool', list) == MapOf(pool, list)
  {
    var next := pool[mine[j]].next;
    hide Slot.Filled, Slot.Key, Slot.Value, MapOf, Distinct, Linked;
    assert mine[j] in mine;
    if j > 0 {
      assert mine[j - 1] in mine;
      var s := pool[mine[j - 1]].(next := next);
      ChangeOther(pool, head, list, mine[j - 1], s);
      ChangeOther(pool[mine[j - 1] := s], head, list, mine[j], empty);
    } else {
      ChangeOther(pool, head, list, mine[j], empty);
    }
  }

  lemma RemoveFromList(w: World, k: nat, j: nat, empty: Slot, l: nat)
    requires w.Owned() && k < |w.lists| && j < |w.lists[k]| && l < |w.lists| && w.ListValid(k) && w.ListValid(l)
    ensures var w' := Removed(w, k, j, empty);
      w'.ListValid(l) &&
      MapOf(w'.pool, w'.lists[l])
        == if l == k then MapOf(w.pool, w.lists[k]) - {w.pool[w.lists[k][j]].Key()} else MapOf(w.pool, w.lists[l])
  {
    var w', list := Removed(w, k, j, empty), w.lists[k];
    assert w'.pool == PoolWithout(w.pool, list, j, empty);
    if l == k {
      assert NoRepeat(list);
      hide Slot.Filled, Slot.Key, Slot.Value, MapOf, Distinct, World.Owned, Linked, PoolWithout, Less;
      LinkedLess(w.pool, w.heads[k], list, j, empty);
      MapLess(w.pool, list, j, empty);
    } else {
      forall i | i in list ensures i !in w.lists[l] {
        OneOwner(w, k, l, i);
      }
      hide Slot.Filled, Slot.Key, Slot.Value, MapOf, Distinct, World.Owned, Linked, PoolWithout, Less;
      RemoveOther(w.pool, w.heads[l], w.lists[l], list, j, empty);
    }
  }

  lemma RemoveKeepsValid(w: World, k: nat, j: nat, empty: Slot)
    requires w.Valid() && k < |w.lists| && j < |w.lists[k]| && w.ListValid(k)
    ensures var w' := Removed(w, k, j, empty);
      w'.Valid() && w'.Vars(k) == w.Vars(k) - {w.pool[w.lists[k][j]].Key()} &&
      forall l: nat | l < |w.lists| && l != k :: w'.Vars(l) == w.Vars(l)
  {
    RemovedIsOwned(w, k, j, empty);
    assert |w.heads| == |w.lists| && |w.pool| == |w.used| == |w.owner|;
    hide Slot.Filled, Slot.Key, Slot.Value, World.Owned, MapOf, World.ListValid, Linked, Distinct, Less;
    var w' := Removed(w, k, j, empty);
    forall l: nat | l < |w.lists|
      ensures w'.ListValid(l) && (w'.Valid() ==> l != k ==> w'.Vars(l) == w.Vars(l))
    {
      assert w.ListValid(l);
      RemoveFromList(w, k, j, empty, l);
    }
    RemoveFromList(w, k, j, empty, k);
  }
}
