/**
 Shell variables in a pool of sixteen slots that all shell instances share; every instance links its own slots into a
 list. Seen from outside each instance is a finite map.
 */
module Variables {
  import opened Links

  const CAPACITY := 16
  const STORAGE := 126

  /** A slot; the key, a NUL, the value and another NUL stand in its storage. */
  datatype Slot = Slot(next: int, keyLen: nat, valueLen: nat, str: string) {
    predicate Filled() {
      |str| == STORAGE && keyLen + valueLen + 2 <= STORAGE &&
      '\0' !in str[..keyLen] && '\0' !in str[keyLen + 1..keyLen + 1 + valueLen] &&
      str[keyLen] == '\0' && str[keyLen + 1 + valueLen] == '\0'
    }

    function Key(): string
      requires Filled()
    {
      str[..keyLen]
    }

    function Value(): string
      requires Filled()
    {
      str[keyLen + 1..keyLen + 1 + valueLen]
    }
  }

  // ---------- Lists in the pool ----------

  function Nexts(pool: seq<Slot>): (s: seq<int>)
    ensures |s| == |pool| && forall i | 0 <= i < |s| :: s[i] == pool[i].next
  {
    seq(|pool|, i requires 0 <= i < |pool| => pool[i].next)
  }

  /** The list that starts at `head` runs through exactly these slots. */
  ghost predicate Linked(pool: seq<Slot>, head: int, list: seq<nat>) {
    LinkedBy(Nexts(pool), head, list)
  }

  lemma Relinked(pool: seq<Slot>, i: nat, s: Slot)
    requires i < |pool|
    ensures Nexts(pool[i := s]) == Nexts(pool)[i := s.next]
  {
  }

  ghost predicate Slots(pool: seq<Slot>, list: seq<nat>) {
    forall i | 0 <= i < |list| :: list[i] < |pool| && pool[list[i]].Filled()
  }

  /** The map a list stands for; the keys are distinct. */
  ghost function MapOf(pool: seq<Slot>, list: seq<nat>): map<string, string>
    requires Slots(pool, list)
  {
    if list == [] then map[] else MapOf(pool, list[1..])[pool[list[0]].Key() := pool[list[0]].Value()]
  }

  ghost predicate Distinct(pool: seq<Slot>, list: seq<nat>)
    requires Slots(pool, list)
  {
    forall i, j | 0 <= i < j < |list| :: list[i] != list[j] && pool[list[i]].Key() != pool[list[j]].Key()
  }

  lemma {:induction false} KeysOfMap(pool: seq<Slot>, list: seq<nat>, key: string)
    requires Slots(pool, list)
    ensures key in MapOf(pool, list) <==> exists i :: 0 <= i < |list| && pool[list[i]].Key() == key
  {
    if list != [] {
      KeysOfMap(pool, list[1..], key);
      if i :| 0 <= i < |list| && pool[list[i]].Key() == key {
        if i > 0 {
          assert list[1..][i - 1] == list[i];
        }
      }
      if i :| 0 <= i < |list[1..]| && pool[list[1..][i]].Key() == key {
        assert list[1..][i] == list[i + 1];
      }
    }
  }

  lemma {:induction false} ValueInMap(pool: seq<Slot>, list: seq<nat>, i: nat)
    requires Slots(pool, list) && Distinct(pool, list) && i < |list|
    ensures var s := pool[list[i]]; s.Key() in MapOf(pool, list) && MapOf(pool, list)[s.Key()] == s.Value()
  {
    if i > 0 {
      assert list[1..][i - 1] == list[i];
      ValueInMap(pool, list[1..], i - 1);
    }
  }

  lemma {:induction false} MapSize(pool: seq<Slot>, list: seq<nat>)
    requires Slots(pool, list) && Distinct(pool, list)
    ensures |MapOf(pool, list)| == |list|
  {
    if list != [] {
      MapSize(pool, list[1..]);
      KeysOfMap(pool, list[1..], pool[list[0]].Key());
      assert forall i | 0 <= i < |list[1..]| :: list[1..][i] == list[i + 1];
    }
  }

  /** Slots outside a list do not matter to it. */
  lemma {:induction false} OtherSlot(pool: seq<Slot>, list: seq<nat>, i: nat, s: Slot)
    requires Slots(pool, list) && i < |pool| && i !in list
    ensures Slots(pool[i := s], list) && MapOf(pool[i := s], list) == MapOf(pool, list)
    ensures Distinct(pool, list) ==> Distinct(pool[i := s], list)
  {
    if list != [] {
      assert forall j | 0 <= j < |list[1..]| :: list[1..][j] == list[j + 1];
      OtherSlot(pool, list[1..], i, s);
    }
  }

  /** A new value in a slot of the list changes the map at its key. */
  lemma {:induction false} NewValue(pool: seq<Slot>, list: seq<nat>, i: nat, s: Slot)
    requires Slots(pool, list) && Distinct(pool, list) && i < |list|
    requires s.Filled() && s.Key() == pool[list[i]].Key()
    ensures Slots(pool[list[i] := s], list) && Distinct(pool[list[i] := s], list)
    ensures MapOf(pool[list[i] := s], list) == MapOf(pool, list)[s.Key() := s.Value()]
  {
    hide Slot.Filled, Slot.Key, Slot.Value;
    var pool' := pool[list[i] := s];
    if i == 0 {
      assert list[0] !in list[1..];
      OtherSlot(pool, list[1..], list[0], s);
      assert MapOf(pool', list) == MapOf(pool, list[1..])[s.Key() := s.Value()];
    } else {
      assert list[1..][i - 1] == list[i];
      NewValue(pool, list[1..], i - 1, s);
      assert pool[list[0]].Key() != s.Key();
      assert pool'[list[0]] == pool[list[0]];
    }
  }

  lemma LessSlots(pool: seq<Slot>, list: seq<nat>, i: nat)
    requires Slots(pool, list) && Distinct(pool, list) && i < |list|
    ensures Slots(pool, Less(list, i)) && Distinct(pool, Less(list, i)) && list[i] !in Less(list, i)
  {
    hide Slot.Filled, Slot.Key;
    var less := Less(list, i);
    assert forall j | 0 <= j < |less| :: less[j] == if j < i then list[j] else list[j + 1];
  }

  /** Taking a slot out of the list takes its key out of the map. */
  lemma {:induction false} DropKey(pool: seq<Slot>, list: seq<nat>, i: nat)
    requires Slots(pool, list) && Distinct(pool, list) && i < |list| && Slots(pool, Less(list, i))
    ensures MapOf(pool, Less(list, i)) == MapOf(pool, list) - {pool[list[i]].Key()}
  {
    hide Slot.Filled, Slot.Key, Slot.Value, Less;
    var key := pool[list[i]].Key();
    KeysOfMap(pool, list[1..], pool[list[0]].Key());
    assert forall j | 0 <= j < |list[1..]| :: list[1..][j] == list[j + 1];
    assert Slots(pool, list[1..]) && Distinct(pool, list[1..]);
    if i == 0 {
      assert Less(list, 0) == list[1..] by { LessOfHead(list); }
      assert MapOf(pool, list) - {key} == MapOf(pool, list[1..]);
    } else {
      LessOfTail(list, i);
      LessSlots(pool, list[1..], i - 1);
      DropKey(pool, list[1..], i - 1);
      var k, v, rest := pool[list[0]].Key(), pool[list[0]].Value(), MapOf(pool, list[1..]);
      assert MapOf(pool, Less(list, i)) == (rest - {key})[k := v];
      assert (rest - {key})[k := v] == rest[k := v] - {key} by { assert k != key; }
    }
  }

}
