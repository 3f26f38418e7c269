/**
 The variable store on its arrays: sixteen slots, their flags, and one list head for each shell instance.
 */
module ShellVariables {
  import opened Links
  import opened Options
  import opened Shell
  import ShellLine
  import opened VariablePool
  import opened Variables

  datatype Status = Success | BufferTooSmall | InsufficientMemory | EntryNotFound

  const EMPTY := Slot(NONE, 0, 0, seq(STORAGE, _ => '\0'))

  predicate Text(s: string) {
    '\0' !in s
  }

  /** The slot with this key and value at the front of its storage. */
  function Stored(s: Slot, key: string, value: string): Slot
    requires |s.str| == STORAGE && |key| + |value| + 2 <= STORAGE
  {
    s.(keyLen := |key|, valueLen := |value|, str := key + "\0" + value + "\0" + s.str[|key| + |value| + 2..])
  }

  lemma StoredIsFilled(s: Slot, key: string, value: string)
    requires |s.str| == STORAGE && |key| + |value| + 2 <= STORAGE && Text(key) && Text(value)
    ensures var t := Stored(s, key, value); t.Filled() && t.Key() == key && t.Value() == value && t.next == s.next
  {
    var t := Stored(s, key, value);
    assert t.str[..|key|] == key;
    assert t.str[|key| + 1..|key| + 1 + |value|] == value;
  }

  /** The finite maps of all instances. */
  type Maps = seq<map<string, string>>

  ghost function TotalSize(m: Maps): nat {
    if m == [] then 0 else |m[0]| + TotalSize(m[1..])
  }

  datatype Op = Set(k: nat, key: string, value: string) | Remove(k: nat, key: string)

  predicate Allowed(op: Op, n: nat) {
    op.k < n && Text(op.key) && (op.Set? ==> Text(op.value))
  }

  /** What an operation does to the maps: a failing one does nothing. */
  ghost function Effect(m: Maps, op: Op): (Maps, Status)
    requires Allowed(op, |m|)
  {
    match op
    case Set(k, key, value) =>
      if |key| + |value| + 2 > STORAGE then (m, Status.BufferTooSmall)
      else if key !in m[k] && TotalSize(m) == CAPACITY then (m, InsufficientMemory)
      else (m[k := m[k][key := value]], Success)
    case Remove(k, key) =>
      if key in m[k] then (m[k := m[k] - {key}], Success) else (m, EntryNotFound)
  }

  /** A variable is set exactly if key and value have at most 124 characters and the key is there or a slot is free. */
  lemma SetMeans(m: Maps, k: nat, key: string, value: string)
    requires Allowed(Set(k, key, value), |m|)
    ensures var r := Effect(m, Set(k, key, value));
      && |r.0| == |m| && (forall j | 0 <= j < |m| && j != k :: r.0[j] == m[j])
      && (forall other | other != key :: (other in r.0[k] <==> other in m[k]) &&
                                         (other in m[k] ==> r.0[k][other] == m[k][other]))
      && (r.1.Success? <==> |key| + |value| <= 124 && (key in m[k] || TotalSize(m) != 16))
      && (r.1.Success? ==> key in r.0[k] && r.0[k][key] == value)
      && (!r.1.Success? ==> r.0 == m && (r.1.BufferTooSmall? <==> |key| + |value| > 124))
  {
    hide TotalSize;
  }

  /** A variable is removed exactly if it is there. */
  lemma RemoveMeans(m: Maps, k: nat, key: string)
    requires Allowed(Remove(k, key), |m|)
    ensures var r := Effect(m, Remove(k, key));
      && |r.0| == |m| && (forall j | 0 <= j < |m| && j != k :: r.0[j] == m[j])
      && (forall other | other != key :: (other in r.0[k] <==> other in m[k]) &&
                                         (other in m[k] ==> r.0[k][other] == m[k][other]))
      && key !in r.0[k] && r.1 == (if key in m[k] then Success else EntryNotFound)
  {
    hide TotalSize;
  }

  lemma Gone(w: World, k: nat, j: nat)
    requires w.Valid() && k < |w.lists| && j < |w.lists[k]| && Slots(w.pool, w.lists[k])
    ensures var w' := Removed(w, k, j, EMPTY);
      w'.Valid() && w'.Maps() == w.Maps()[k := w.Maps()[k] - {w.pool[w.lists[k][j]].Key()}]
  {
    w.ListFacts(k);
    assert w.ListValid(k);
    RemoveKeepsValid(w, k, j, EMPTY);
  }

  /** The storage with a text written over it at one place. */
  function Overwritten(str: string, at: nat, text: string): string
    requires at + |text| <= |str|
  {
    str[..at] + text + str[at + |text|..]
  }

  lemma OverwriteOne(str: string, at: nat, text: string, c: char)
    requires at + |text| < |str|
    ensures Overwritten(str, at, text)[at + |text| := c] == Overwritten(str, at, text + [c])
  {
  }

  lemma PutTogether(str: string, key: string, value: string)
    requires |key| + |value| + 2 <= |str|
    ensures Overwritten(Overwritten(str, 0, key + "\0"), |key| + 1, value + "\0")
         == key + "\0" + value + "\0" + str[|key| + |value| + 2..]
  {
  }

  lemma {:induction false} SizesAgree(m: Maps, lists: seq<seq<nat>>)
    requires |m| == |lists| && forall k | 0 <= k < |m| :: |m[k]| == |lists[k]|
    ensures TotalSize(m) == Total(lists)
  {
    if m != [] {
      SizesAgree(m[1..], lists[1..]);
    }
  }

  /** Memory runs out exactly when the maps together hold sixteen variables. */
  lemma FullWhen(w: World)
    requires w.Valid()
    ensures (forall x | 0 <= x < CAPACITY :: w.used[x]) <==> TotalSize(w.Maps()) == CAPACITY
  {
    AllUsed(w.used);
    forall k | 0 <= k < |w.lists| ensures |w.Maps()[k]| == |w.lists[k]| {
      w.ListFacts(k);
      MapSize(w.pool, w.lists[k]);
    }
    SizesAgree(w.Maps(), w.lists);
  }

  lemma Existing(w: World, k: nat, j: nat, s: Slot)
    requires w.Valid() && k < |w.lists| && j < |w.lists[k]| && w.lists[k][j] < |w.pool| &&
        w.pool[w.lists[k][j]].Filled()
    requires s.Filled() && s.next == w.pool[w.lists[k][j]].next && s.Key() == w.pool[w.lists[k][j]].Key()
    ensures var w' := Changed(w, k, j, s);
      w'.Valid() && w'.Maps() == w.Maps()[k := w.Maps()[k][s.Key() := s.Value()]]
  {
    w.ListFacts(k);
    ChangeKeepsValid(w, k, j, s);
  }

  lemma New(w: World, k: nat, i: nat, s: Slot)
    requires w.Valid() && k < |w.lists| && i < CAPACITY && !w.used[i]
    requires s.Filled() && s.next == w.heads[k] && s.Key() !in w.Maps()[k]
    ensures var w' := Added(w, k, i, s);
      w'.Valid() && w'.Maps() == w.Maps()[k := w.Maps()[k][s.Key() := s.Value()]]
  {
    AddKeepsValid(w, k, i, s);
  }

  lemma KeyInList(pool: seq<Slot>, list: seq<nat>, j: nat)
    requires Slots(pool, list) && j < |list|
    ensures pool[list[j]].Key() in MapOf(pool, list)
  {
    KeysOfMap(pool, list, pool[list[j]].Key());
  }

  lemma KeyNotInList(pool: seq<Slot>, list: seq<nat>, key: string)
    requires Slots(pool, list) && forall i | 0 <= i < |list| :: pool[list[i]].Key() != key
    ensures key !in MapOf(pool, list)
  {
    KeysOfMap(pool, list, key);
  }

  lemma NoNul(s: string)
    requires '\0' !in s
    ensures CString(s) == s
  {
  }

  lemma ValueIsString(s: Slot)
    requires s.Filled()
    ensures CString(s.str[s.keyLen + 1..]) == s.Value()
  {
    var t := s.str[s.keyLen + 1..];
    assert t[..s.valueLen] == s.Value() && t[s.valueLen] == '\0';
    ShellLine.WrittenIsRead(t, s.Value());
    NoNul(s.Value());
  }

  lemma NothingUsed(used: seq<bool>)
    requires forall i | 0 <= i < |used| :: !used[i]
    ensures CountUsed(used) == 0
  {
  }

  lemma NothingListed(lists: seq<seq<nat>>)
    requires forall i | 0 <= i < |lists| :: lists[i] == []
    ensures Total(lists) == 0
  {
  }

  class Shells {
    const pool: array<Slot>
    const used: array<bool>
    const heads: array<int>
    ghost var lists: seq<seq<nat>>
    ghost var owner: seq<int>

    ghost function State(): World
      reads this, pool, used, heads
    {
      World(pool[..], used[..], heads[..], lists, owner)
    }

    ghost predicate Apart() {
      var slots: object, flags: object, starts: object := pool, used, heads;
      slots != flags && slots != starts && flags != starts
    }

    ghost predicate Valid()
      reads this, pool, used, heads
    {
      Apart() && State().Valid()
    }

    ghost function Vars(): (m: Maps)
      requires Valid()
      reads this, pool, used, heads
      ensures |m| == heads.Length
    {
      State().Maps()
    }

    /** No instance has a variable. */
    constructor (instances: nat)
      ensures Valid() && heads.Length == instances && forall k | 0 <= k < instances :: Vars()[k] == map[]
      ensures fresh(pool) && fresh(used) && fresh(heads)
    {
      pool := new Slot[CAPACITY](_ => EMPTY);
      used := new bool[CAPACITY](_ => false);
      heads := new int[instances](_ => NONE);
      lists := seq(instances, _ => []);
      owner := seq(CAPACITY, _ => NONE);
      new;
      NothingUsed(used[..]);
      NothingListed(lists);
      assert forall k: nat | k < instances :: State().ListValid(k);
    }

    /** key_matches. */
    method KeyMatches(i: nat, key: string) returns (same: bool)
      requires i < pool.Length && pool[i].Filled() && Text(key)
      ensures same <==> pool[i].Key() == key
    {
      var entry := pool[i];
      var n := 0;
      while n < entry.keyLen
        invariant 0 <= n <= entry.keyLen && n <= |key| && entry.str[..n] == key[..n]
      {
        if (if n < |key| then key[n] else '\0') != entry.str[n] {
          assert entry.Key()[n] == entry.str[n] && entry.str[n] in entry.Key();
          return false;
        }
        assert entry.str[n] in entry.Key() by { assert entry.Key()[n] == entry.str[n]; }
        n := n + 1;
      }
      same := n == |key|;
    }

    /** The walk along the list of instance `k`: the slot with the key, the one before it, and its place. */
    method Find(k: nat, key: string) returns (current: int, prev: int, ghost j: nat)
      requires Valid() && k < heads.Length && Text(key)
      ensures current == NONE <==> key !in Vars()[k]
      ensures current != NONE ==>
                j < |lists[k]| && 0 <= current < pool.Length && current == lists[k][j] && pool[current].Filled() &&
                pool[current].Key() == key && prev == if j == 0 then NONE else lists[k][j - 1]
    {
      ghost var w, list := State(), lists[k];
      w.ListFacts(k);
      assert Vars()[k] == MapOf(w.pool, list);
      hide Valid, World.Valid, World.Maps, MapOf, Slot.Filled, Slot.Key, Distinct;
      current, prev, j := heads[k], NONE, 0;
      while current != NONE
        invariant j <= |list| && current == At(list, j) && prev == if j == 0 then NONE else list[j - 1]
        invariant forall i | 0 <= i < j :: w.pool[list[i]].Key() != key
        decreases |list| - j
      {
        assert w.pool[list[j]].Filled() && LinkAt(Nexts(w.pool), list, j);
        var same := KeyMatches(current, key);
        if same {
          KeyInList(w.pool, list, j);
          return;
        }
        prev, current, j := current, pool[current].next, j + 1;
      }
      KeyNotInList(w.pool, list, key);
    }

    method Get(k: nat, key: string) returns (value: Option<string>)
      requires Valid() && k < heads.Length && Text(key)
      ensures value == if key in Vars()[k] then Some(Vars()[k][key]) else None
    {
      var current, prev, j := Find(k, key);
      if current == NONE {
        return None;
      }
      State().ListFacts(k);
      hide World.Valid, World.Maps, MapOf, Distinct;
      ValueInMap(State().pool, lists[k], j);
      var entry := pool[current];
      value := Some(CString(entry.str[entry.keyLen + 1..]));
      ValueIsString(entry);
    }

    /** Copies a text and its terminator into the storage of a slot. */
    method WriteText(i: nat, at: nat, text: string)
      requires i < pool.Length && |pool[i].str| == STORAGE && at + |text| < STORAGE
      modifies pool
      ensures pool[..] == old(pool[..])[i := old(pool[i]).(str := Overwritten(old(pool[i].str), at, text + "\0"))]
    {
      ghost var str := pool[i].str;
      assert Overwritten(str, at, text[..0]) == str;
      var j := 0;
      while j < |text|
        invariant 0 <= j <= |text|
        invariant pool[..] == old(pool[..])[i := old(pool[i]).(str := Overwritten(str, at, text[..j]))]
      {
        OverwriteOne(str, at, text[..j], text[j]);
        assert text[..j + 1] == text[..j] + [text[j]];
        pool[i] := pool[i].(str := pool[i].str[at + j := text[j]]);
        j := j + 1;
      }
      assert text[..j] == text;
      OverwriteOne(str, at, text, '\0');
      pool[i] := pool[i].(str := pool[i].str[at + |text| := '\0']);
    }

    /** The fields and the two strings of a slot, character by character. */
    method WriteSlot(i: nat, key: string, value: string)
      requires i < pool.Length && |pool[i].str| == STORAGE && |key| + |value| + 2 <= STORAGE
      modifies pool
      ensures pool[..] == old(pool[..])[i := Stored(old(pool[i]), key, value)]
    {
      ghost var s := pool[i];
      pool[i] := pool[i].(keyLen := |key|, valueLen := |value|);
      WriteText(i, 0, key);
      WriteText(i, |key| + 1, value);
      PutTogether(s.str, key, value);
    }

    /** allocate_slot: the first free slot, emptied. */
    method Allocate() returns (i: int)
      requires pool.Length == used.Length == CAPACITY && Apart()
      modifies pool, used
      ensures i == NONE <==> forall x | 0 <= x < CAPACITY :: old(used[x])
      ensures i == NONE ==> pool[..] == old(pool[..]) && used[..] == old(used[..])
      ensures i != NONE ==> 0 <= i < CAPACITY && !old(used[i]) &&
                            pool[..] == old(pool[..])[i := EMPTY] && used[..] == old(used[..])[i := true]
    {
      for x := 0 to CAPACITY
        invariant pool[..] == old(pool[..]) && used[..] == old(used[..])
        invariant forall y | 0 <= y < x :: used[y]
      {
        if !used[x] {
          used[x] := true;
          pool[x] := EMPTY;
          return x;
        }
      }
      i := NONE;
    }

    /** The slot goes to the front of the list, with key and value in it. */
    method FillNew(k: nat, slot: nat, key: string, value: string, ghost w: World)
      requires w.Valid() && Apart() && k < |w.lists| == |w.heads| && |w.owner| == CAPACITY
      requires slot < CAPACITY == |w.pool| == |w.used| && !w.used[slot]
      requires pool[..] == w.pool[slot := EMPTY] && used[..] == w.used[slot := true] && heads[..] == w.heads
      requires lists == w.lists && owner == w.owner
      requires |key| + |value| + 2 <= STORAGE && '\0' !in key && '\0' !in value && key !in w.Maps()[k]
      modifies this, pool, heads
      ensures Valid() && Vars() == w.Maps()[k := w.Maps()[k][key := value]]
    {
      hide World.Valid, World.Maps, Stored, MapOf, Distinct, Linked, TotalSize;
      pool[slot] := pool[slot].(next := heads[k]);
      heads[k] := slot;
      WriteSlot(slot, key, value);
      ghost var s := Stored(EMPTY.(next := w.heads[k]), key, value);
      StoredIsFilled(EMPTY.(next := w.heads[k]), key, value);
      lists, owner := lists[k := [slot] + lists[k]], owner[slot := k];
      assert pool[..] == w.pool[slot := s];
      assert used[..] == w.used[slot := true] && heads[..] == w.heads[k := slot];
      New(w, k, slot, s);
    }

    method SetNew(k: nat, key: string, value: string) returns (status: Status)
      requires Valid() && Allowed(Set(k, key, value), heads.Length)
      requires |key| + |value| + 2 <= STORAGE && key !in Vars()[k]
      modifies this, pool, used, heads
      ensures Valid() && (Vars(), status) == Effect(old(Vars()), Set(k, key, value))
    {
      ghost var w := State();
      w.ListFacts(k);
      FullWhen(w);
      hide World.Valid, World.Maps, Stored, MapOf, Distinct, Linked, TotalSize;
      var slot := Allocate();
      if slot == NONE {
        assert heads[..] == w.heads;
        assert State() == w;
        return InsufficientMemory;
      }
      FillNew(k, slot, key, value, w);
      status := Success;
    }

    method SetVariable(k: nat, key: string, value: string) returns (status: Status)
      requires Valid() && Allowed(Set(k, key, value), heads.Length)
      modifies this, pool, used, heads
      ensures Valid() && (Vars(), status) == Effect(old(Vars()), Set(k, key, value))
    {
      if |key| + |value| + 2 > STORAGE {
        return Status.BufferTooSmall;
      }
      var current, prev, j := Find(k, key);
      ghost var w := State();
      w.ListFacts(k);
      hide World.Valid, World.Maps, Stored, MapOf, Distinct, Linked, TotalSize;
      if current != NONE {
        WriteSlot(current, key, value);
        ghost var s := Stored(w.pool[current], key, value);
        StoredIsFilled(w.pool[current], key, value);
        assert used[..] == w.used && heads[..] == w.heads;
        Existing(w, k, j, s);
      } else {
        status := SetNew(k, key, value);
        return;
      }
      status := Success;
    }

    /** The slot is taken out of the list and zeroed. */
    method Release(k: nat, current: int, prev: int, ghost w: World, ghost j: nat)
      requires Apart() && w == State() && w.Valid() && k < |w.lists| == |w.heads| && j < |w.lists[k]|
      requires |w.pool| == |w.used| == |w.owner| == CAPACITY && Slots(w.pool, w.lists[k]) &&
          Distinct(w.pool, w.lists[k])
      requires current == w.lists[k][j] && prev == if j == 0 then NONE else w.lists[k][j - 1]
      modifies this, pool, used, heads
      ensures Valid() && Vars() == w.Maps()[k := w.Maps()[k] - {w.pool[w.lists[k][j]].Key()}]
    {
      Gone(w, k, j);
      hide World.Valid, World.Maps, MapOf, Distinct, Linked, Slot.Filled, Slot.Key, Less;
      if prev != NONE {
        pool[prev] := pool[prev].(next := pool[current].next);
      } else {
        heads[k] := pool[current].next;
      }
      used[current] := false;
      pool[current] := EMPTY;
      lists, owner := lists[k := Less(lists[k], j)], owner[current := NONE];
      ghost var w' := Removed(w, k, j, EMPTY);
      assert pool[..] == w'.pool;
      assert used[..] == w'.used && heads[..] == w'.heads;
    }

    method RemoveVariable(k: nat, key: string) returns (status: Status)
      requires Valid() && Allowed(Remove(k, key), heads.Length)
      modifies this, pool, used, heads
      ensures Valid() && (Vars(), status) == Effect(old(Vars()), Remove(k, key))
    {
      var current, prev, j := Find(k, key);
      if current == NONE {
        return EntryNotFound;
      }
      ghost var w := State();
      w.ListFacts(k);
      hide World.Valid, World.Maps, MapOf, Distinct, Linked, Slot.Filled, Slot.Key, Less;
      Release(k, current, prev, w, j);
      status := Success;
    }
  }

  /** The maps after a run, starting from `m`, and what each operation returned. */
  ghost function RunOf(m: Maps, ops: seq<Op>): (r: (Maps, seq<Status>))
    requires forall i | 0 <= i < |ops| :: Allowed(ops[i], |m|)
    ensures |r.0| == |m|
    decreases |ops|
  {
    if ops == [] then (m, []) else
      var before := RunOf(m, ops[..|ops| - 1]);
      var last := Effect(before.0, ops[|ops| - 1]);
      (last.0, before.1 + [last.1])
  }

  /** Any run of operations on the shared slots is a run on finite maps, one for each instance. */
  method Run(shells: Shells, ops: seq<Op>) returns (statuses: seq<Status>)
    requires shells.Valid() && forall i | 0 <= i < |ops| :: Allowed(ops[i], shells.heads.Length)
    modifies shells, shells.pool, shells.used, shells.heads
    ensures shells.Valid() && (shells.Vars(), statuses) == RunOf(old(shells.Vars()), ops)
  {
    statuses := [];
    for i := 0 to |ops|
      invariant shells.Valid()
      invariant (shells.Vars(), statuses) == RunOf(old(shells.Vars()), ops[..i])
    {
      hide Shells.Valid, Effect;
      var status;
      match ops[i] {
        case Set(k, key, value) => status := shells.SetVariable(k, key, value);
        case Remove(k, key) => status := shells.RemoveVariable(k, key);
      }
      statuses := statuses + [status];
      assert ops[..i + 1][..i] == ops[..i];
    }
    assert ops[..|ops|] == ops;
  }
}
