/** Lists that are linked through the places of a pool. */
module Links {

  const NONE := -1

  ghost function At(list: seq<nat>, i: nat): int {
    if i < |list| then list[i] else NONE
  }

  /** The list without its element `i`. */
  function Less(list: seq<nat>, i: nat): seq<nat>
    requires i < |list|
  {
    list[..i] + list[i + 1..]
  }

  lemma LessOfTail(list: seq<nat>, i: nat)
    requires 0 < i < |list|
    ensures Less(list, i) != [] && Less(list, i)[0] == list[0]
    ensures Less(list, i)[1..] == Less(list[1..], i - 1) && list[1..][i - 1] == list[i]
  {
  }

  lemma LessOfHead(list: seq<nat>)
    requires list != []
    ensures Less(list, 0) == list[1..]
  {
  }

  lemma InLess(list: seq<nat>, j: nat, x: nat)
    requires j < |list|
    ensures x in list && x != list[j] ==> x in Less(list, j)
    ensures x in Less(list, j) ==> x in list
  {
    if x in list && x != list[j] {
      var i :| 0 <= i < |list| && list[i] == x;
      assert Less(list, j)[if i < j then i else i - 1] == x;
    }
  }

  predicate NoRepeat(list: seq<nat>) {
    forall i, j | 0 <= i < j < |list| :: list[i] != list[j]
  }

  /** The i-th place links to the next one, the last one nowhere. */
  ghost predicate LinkAt(link: seq<int>, list: seq<nat>, i: nat) {
    i < |list| && list[i] < |link| && link[list[i]] == At(list, i + 1)
  }

  /** Starting at `head` the links run through exactly these places. */
  ghost predicate LinkedBy(link: seq<int>, head: int, list: seq<nat>) {
    head == At(list, 0) && (forall i | 0 <= i < |list| :: list[i] < |link|) &&
    forall i: nat | i < |list| :: LinkAt(link, list, i)
  }

  lemma OtherLink(link: seq<int>, head: int, list: seq<nat>, i: nat, to: int)
    requires LinkedBy(link, head, list) && i < |link| && i !in list
    ensures LinkedBy(link[i := to], head, list)
  {
    var link' := link[i := to];
    forall j: nat | j < |list| ensures LinkAt(link', list, j) {
      assert LinkAt(link, list, j) && list[j] in list;
    }
  }

  /** A place that links nowhere goes to the end of the list. */
  lemma LinkLast(link: seq<int>, head: int, list: seq<nat>, i: nat)
    requires LinkedBy(link, head, list) && NoRepeat(list) && i < |link| && i !in list && link[i] == NONE
    ensures var link' := if list == [] then link else link[list[|list| - 1] := i];
      LinkedBy(link', if list == [] then i else head, list + [i]) && NoRepeat(list + [i])
  {
    var link', list' := if list == [] then link else link[list[|list| - 1] := i], list + [i];
    forall j: nat | j < |list'| ensures LinkAt(link', list', j) {
      if j < |list| {
        assert LinkAt(link, list, j) && list'[j] == list[j] && list[j] in list;
      }
    }
    assert forall j | 0 <= j < |list'| :: list'[j] == if j < |list| then list[j] else i;
  }

  lemma LessNoRepeat(list: seq<nat>, j: nat)
    requires NoRepeat(list) && j < |list|
    ensures NoRepeat(Less(list, j)) && list[j] !in Less(list, j)
  {
    var less := Less(list, j);
    assert forall i | 0 <= i < |less| :: less[i] == list[if i < j then i else i + 1];
  }

  lemma LessAt(list: seq<nat>, j: nat, i: nat)
    requires j < |list| && i <= |list| - 1
    ensures At(Less(list, j), i) == At(list, if i < j then i else i + 1)
  {
  }

  lemma UnlinkAt(link: seq<int>, list: seq<nat>, j: nat, i: nat)
    requires NoRepeat(list) && j < |list| && i + 1 < |list|
    requires forall k | 0 <= k < |list| :: list[k] < |link|
    requires link[list[j]] == At(list, j + 1)
    requires var from := if i < j then i else i + 1; link[list[from]] == At(list, from + 1)
    ensures var link' := if j == 0 then link else link[list[j - 1] := link[list[j]]];
      var from := if i < j then i else i + 1;
      link'[list[from]] == At(list, if i + 1 < j then i + 1 else i + 2)
  {
  }

  lemma LessLength(list: seq<nat>, j: nat)
    requires j < |list|
    ensures |Less(list, j)| == |list| - 1
  {
  }

  /** A place is taken out of the list: the one before it, or the head, links to the one behind it. */
  lemma Unlink(link: seq<int>, head: int, list: seq<nat>, j: nat)
    requires LinkedBy(link, head, list) && NoRepeat(list) && j < |list|
    ensures var link' := if j == 0 then link else link[list[j - 1] := link[list[j]]];
      LinkedBy(link', if j == 0 then link[list[0]] else head, Less(list, j))
  {
    var link' := if j == 0 then link else link[list[j - 1] := link[list[j]]];
    var less := Less(list, j);
    LessAt(list, j, 0);
    LessLength(list, j);
    assert LinkAt(link, list, j);
    forall i: nat | i < |less| ensures less[i] < |link'| && LinkAt(link', less, i) {
      assert LinkAt(link, list, if i < j then i else i + 1);
      hide NoRepeat, LinkedBy, Less;
      LessAt(list, j, i);
      LessAt(list, j, i + 1);
      UnlinkAt(link, list, j, i);
    }
  }

  /** A place becomes the first. */
  lemma LinkFirst(link: seq<int>, head: int, list: seq<nat>, i: nat)
    requires LinkedBy(link, head, list) && i < |link| && i !in list
    ensures LinkedBy(link[i := head], i, [i] + list)
  {
    var link', list' := link[i := head], [i] + list;
    forall j: nat | j < |list'| ensures list'[j] < |link'| && LinkAt(link', list', j) {
      if j > 0 {
        assert LinkAt(link, list, j - 1) && list'[j] == list[j - 1] && list[j - 1] in list;
      }
    }
  }
}
