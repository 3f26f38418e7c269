/**
 Runs of the device registry on values: the listed devices in order, each with its slot, its parent and the text of its
 name, and which of them were given a name.
 */
module DeviceRuns {
  import opened Decimal
  import opened DeviceNames
  import opened DeviceTree
  import opened Links
  import opened Shell

  datatype Entry = Entry(slot: nat, parent: int, text: string)

  datatype Op = Create(parent: int) | GenerateName(dev: nat, base: string) | Remove(dev: nat)

  /** NotCalled: a parent or device that is not listed, or a device with children. */
  datatype Status = Success | InsufficientMemory | BufferTooSmall | NotCalled

  /** The listed devices, and the slots of those whose last naming succeeded. */
  datatype Book = Book(entries: seq<Entry>, named: set<nat>)

  /** The name buffer after a text was put into it: with a terminator if there is room, else as far as it goes. */
  function Written(buf: string, text: string): string
    requires |buf| == NAME_MAX
  {
    if |text| < NAME_MAX then text + "\0" + buf[|text| + 1..] else text[..NAME_MAX - 1] + buf[NAME_MAX - 1..]
  }

  /** The name buffer after the base was copied into it, without a terminator. */
  function Copied(buf: string, base: string): string
    requires |buf| == NAME_MAX
  {
    if |base| < NAME_MAX then base + buf[|base|..] else base[..NAME_MAX - 1] + buf[NAME_MAX - 1..]
  }

  /** The name buffer with a text over its start. */
  function Over(buf: string, text: string): (s: string)
    requires |text| <= |buf|
    ensures |s| == |buf|
  {
    text + buf[|text|..]
  }

  lemma OverStart(buf: string, text: string)
    requires text <= buf
    ensures Over(buf, text) == buf
  {
  }

  lemma OverNext(buf: string, text: string, t: string, i: nat)
    requires i < |t| && |text| + i < |buf|
    ensures |text + t[..i]| == |text| + i && text + t[..i] + [t[i]] == text + t[..i + 1]
    ensures Over(buf, text + t[..i])[|text| + i := t[i]] == Over(buf, text + t[..i + 1])
  {
  }

  lemma OverCut(buf: string, text: string, t: string, i: nat)
    requires i < |t| && |buf| == NAME_MAX && |text| + i == NAME_MAX - 1
    ensures Over(buf, text + t[..i]) == Written(buf, text + t)
  {
    assert (text + t)[..NAME_MAX - 1] == text + t[..i];
  }

  lemma OverEnded(buf: string, text: string)
    requires |text| < |buf| == NAME_MAX
    ensures Over(buf, text)[|text| := '\0'] == Written(buf, text)
  {
  }

  function Names(entries: seq<Entry>): (names: seq<string>)
    ensures |names| == |entries| && forall i | 0 <= i < |names| :: names[i] == CString(entries[i].text)
  {
    seq(|entries|, i requires 0 <= i < |entries| => CString(entries[i].text))
  }

  predicate Listed(entries: seq<Entry>, dev: int) {
    exists i :: 0 <= i < |entries| && entries[i].slot == dev
  }

  predicate HasChild(entries: seq<Entry>, dev: nat) {
    exists i :: 0 <= i < |entries| && entries[i].parent == dev
  }

  function PlaceOf(entries: seq<Entry>, dev: nat): (i: nat)
    requires Listed(entries, dev)
    ensures i < |entries| && entries[i].slot == dev
  {
    if entries[0].slot == dev then 0 else
      assert Listed(entries[1..], dev) by {
        var i :| 0 <= i < |entries| && entries[i].slot == dev;
        assert entries[1..][i - 1] == entries[i];
      }
      1 + PlaceOf(entries[1..], dev)
  }

  /** The lowest slot from `i` on that no listed device has. */
  function FreeSlot(entries: seq<Entry>, i: nat): (slot: int)
    requires i <= CAPACITY
    ensures slot == NONE || (i <= slot < CAPACITY && !Listed(entries, slot))
    ensures forall x | i <= x < (if slot == NONE then CAPACITY else slot) :: Listed(entries, x)
    decreases CAPACITY - i
  {
    if i == CAPACITY then NONE else if !Listed(entries, i) then i else FreeSlot(entries, i + 1)
  }

  predicate Buffers(entries: seq<Entry>) {
    forall i | 0 <= i < |entries| :: |entries[i].text| == NAME_MAX
  }

  /** The names that the numbering sees: the base already stands in the buffer to be named. */
  function NamesSeen(entries: seq<Entry>, i: nat, base: string): seq<string>
    requires i < |entries| && Buffers(entries)
  {
    Names(entries[i := entries[i].(text := Copied(entries[i].text, base))])
  }

  function NameFor(entries: seq<Entry>, i: nat, base: string): string
    requires i < |entries| && Buffers(entries)
  {
    NewName(NamesSeen(entries, i, base), base)
  }

  function Step(book: Book, op: Op): (r: (Book, Status))
    requires Buffers(book.entries)
    ensures Buffers(r.0.entries)
  {
    var entries := book.entries;
    match op
    case Create(parent) =>
      var slot := FreeSlot(entries, 0);
      if parent != NONE && !Listed(entries, parent) then (book, NotCalled)
      else if slot == NONE then (book, InsufficientMemory)
      else (Book(entries + [Entry(slot, parent, Nul(NAME_MAX))], book.named - {slot as nat}), Success)
    case GenerateName(dev, base) =>
      if !Listed(entries, dev) then (book, NotCalled) else
        var i := PlaceOf(entries, dev);
        var name := NameFor(entries, i, base);
        var entries' := entries[i := entries[i].(text := Written(entries[i].text, name))];
        if |name| < NAME_MAX then (Book(entries', book.named + {dev}), Success)
        else (Book(entries', book.named - {dev}), Status.BufferTooSmall)
    case Remove(dev) =>
      if !Listed(entries, dev) || HasChild(entries, dev) then (book, NotCalled) else
        var i := PlaceOf(entries, dev);
        (Book(entries[..i] + entries[i + 1..], book.named - {dev}), Success)
  }

  /** A device is created exactly if one of the sixteen slots is free, and named exactly if 63 characters are enough. */
  lemma StatusMeans(book: Book, op: Op)
    requires Buffers(book.entries)
    ensures op.Create? && (op.parent == -1 || Listed(book.entries, op.parent)) ==>
              (Step(book, op).1.Success? <==> exists slot: nat | slot < 16 :: !Listed(book.entries, slot))
    ensures op.GenerateName? && Listed(book.entries, op.dev) ==>
              (Step(book, op).1.Success? <==> |NameFor(book.entries, PlaceOf(book.entries, op.dev), op.base)| <= 63)
  {
    hide NameFor, PlaceOf;
  }

  /** The registry after a run that starts with no device, and what each operation returned. */
  function RunOf(ops: seq<Op>): (r: (Book, seq<Status>))
    ensures Buffers(r.0.entries)
    decreases |ops|
  {
    if ops == [] then (Book([], {}), []) else
      var before := RunOf(ops[..|ops| - 1]);
      var last := Step(before.0, ops[|ops| - 1]);
      (last.0, before.1 + [last.1])
  }

  // ---------- Children ----------

  /** The devices below a parent, in the order of the list. */
  function ChildrenOf(entries: seq<Entry>, p: nat): seq<nat> {
    if entries == [] then [] else
      var last := entries[|entries| - 1];
      ChildrenOf(entries[..|entries| - 1], p) + (if last.parent == p then [last.slot] else [])
  }

  lemma {:induction false} ChildrenOfBoth(a: seq<Entry>, b: seq<Entry>, p: nat)
    ensures ChildrenOf(a + b, p) == ChildrenOf(a, p) + ChildrenOf(b, p)
    decreases |b|
  {
    if b == [] {
      assert a + b == a;
    } else {
      assert (a + b)[..|a + b| - 1] == a + b[..|b| - 1];
      ChildrenOfBoth(a, b[..|b| - 1], p);
    }
  }

  lemma {:induction false} ChildrenUnnamed(entries: seq<Entry>, i: nat, text: string, p: nat)
    requires i < |entries|
    ensures ChildrenOf(entries[i := entries[i].(text := text)], p) == ChildrenOf(entries, p)
    decreases |entries|
  {
    var entries' := entries[i := entries[i].(text := text)];
    var front := entries[..|entries| - 1];
    if i < |front| {
      assert entries'[..|entries| - 1] == front[i := front[i].(text := text)];
      ChildrenUnnamed(front, i, text, p);
    } else {
      assert entries'[..|entries| - 1] == front;
    }
  }

  /** When an entry goes, its slot goes from the children of its parent, and nothing else changes. */
  lemma ChildrenWithout(entries: seq<Entry>, i: nat, p: nat)
    requires i < |entries|
    ensures var a, b, x := ChildrenOf(entries[..i], p), ChildrenOf(entries[i + 1..], p), entries[i];
      ChildrenOf(entries[..i] + entries[i + 1..], p) == a + b &&
      (x.parent == p ==> ChildrenOf(entries, p) == a + [x.slot] + b) &&
      (x.parent != p ==> ChildrenOf(entries, p) == a + b)
  {
    ChildrenOfBoth(entries[..i], entries[i + 1..], p);
    ChildrenOfBoth(entries[..i + 1], entries[i + 1..], p);
    assert entries[..i + 1] + entries[i + 1..] == entries && entries[..i + 1][..i] == entries[..i];
    var a := ChildrenOf(entries[..i], p);
    assert a + [] == a;
  }

  // ---------- Names stay distinct ----------

  /** The names asked for are C strings. */
  predicate CStrings(ops: seq<Op>) {
    forall k | 0 <= k < |ops| :: ops[k].GenerateName? ==> '\0' !in ops[k].base
  }

  /** No two devices that were given a name share it. */
  predicate DistinctNames(book: Book) {
    forall i, j | 0 <= i < j < |book.entries| &&
                  book.entries[i].slot in book.named && book.entries[j].slot in book.named ::
      CString(book.entries[i].text) != CString(book.entries[j].text)
  }

  /** The operation asks for a name while a name that the numbering sees carries the largest 32-bit number. */
  predicate Overflows(entries: seq<Entry>, op: Op)
    requires Buffers(entries)
  {
    op.GenerateName? && Listed(entries, op.dev) &&
    Overflow(NamesSeen(entries, PlaceOf(entries, op.dev), op.base), op.base)
  }

  /** No operation of the run does. */
  predicate NeverOverflows(ops: seq<Op>) {
    forall k | 0 <= k < |ops| :: !Overflows(RunOf(ops[..k]).0.entries, ops[k])
  }

  predicate OwnSlots(entries: seq<Entry>) {
    forall i, j | 0 <= i < j < |entries| :: entries[i].slot != entries[j].slot
  }

  lemma StepKeepsSlots(book: Book, op: Op)
    requires Buffers(book.entries) && OwnSlots(book.entries)
    ensures OwnSlots(Step(book, op).0.entries)
  {
    hide Written, NameFor, CString;
    if op.Create? {
      var slot := FreeSlot(book.entries, 0);
      assert slot != NONE ==> forall i | 0 <= i < |book.entries| :: book.entries[i].slot != slot;
    }
  }

  lemma {:induction false} Terminated(s: string, text: string)
    requires |text| < |s| && s[..|text|] == text && s[|text|] == '\0' && '\0' !in text
    ensures CString(s) == text
  {
    if text != "" {
      assert s[0] == s[..|text|][0] && text[0] in text;
      assert s[1..][..|text| - 1] == s[..|text|][1..];
      Terminated(s[1..], text[1..]);
    }
  }

  lemma WrittenText(buf: string, text: string)
    requires |buf| == NAME_MAX && |text| < NAME_MAX && '\0' !in text
    ensures CString(Written(buf, text)) == text
  {
    Terminated(Written(buf, text), text);
  }

  /** Another text for one device, which is named only if no other device has that text for its name. */
  lemma RenamedDistinct(book: Book, i: nat, text: string, named: set<nat>)
    requires DistinctNames(book) && OwnSlots(book.entries) && i < |book.entries|
    requires forall dev | dev in named :: dev in book.named || dev == book.entries[i].slot
    requires book.entries[i].slot in named ==>
               forall j | 0 <= j < |book.entries| && j != i :: CString(book.entries[j].text) != CString(text)
    ensures DistinctNames(Book(book.entries[i := book.entries[i].(text := text)], named))
  {
    hide CString;
  }

  /** Without an overflow the name made is the name of no other device. */
  lemma NameUnused(entries: seq<Entry>, i: nat, base: string, j: nat)
    requires i < |entries| && Buffers(entries) && j < |entries| && j != i
    requires !Overflow(NamesSeen(entries, i, base), base)
    ensures CString(entries[j].text) != NameFor(entries, i, base)
  {
    var seen := NamesSeen(entries, i, base);
    hide CString, NewName, Copied, Overflow;
    NewNameIsNew(seen, base);
    assert seen[j] == CString(entries[j].text);
  }

  lemma NoNulInName(names: seq<string>, base: string)
    requires '\0' !in base
    ensures '\0' !in NewName(names, base)
  {
    NoNulInDigits(NextSuffix(names, base, 0));
  }

  lemma NamingKeepsDistinct(book: Book, dev: nat, base: string)
    requires Buffers(book.entries) && OwnSlots(book.entries) && DistinctNames(book) && '\0' !in base
    requires !Overflows(book.entries, GenerateName(dev, base))
    ensures DistinctNames(Step(book, GenerateName(dev, base)).0)
  {
    hide DistinctNames, OwnSlots, Overflow, CString, Written;
    if Listed(book.entries, dev) {
      var i := PlaceOf(book.entries, dev);
      var name, text := NameFor(book.entries, i, base), book.entries[i].text;
      assert !Overflow(NamesSeen(book.entries, i, base), base);
      NoNulInName(NamesSeen(book.entries, i, base), base);
      hide NameFor, NamesSeen;
      if |name| < NAME_MAX {
        WrittenText(text, name);
        forall j | 0 <= j < |book.entries| && j != i ensures CString(book.entries[j].text) != name {
          NameUnused(book.entries, i, base, j);
        }
        RenamedDistinct(book, i, Written(text, name), book.named + {dev});
      } else {
        RenamedDistinct(book, i, Written(text, name), book.named - {dev});
      }
    }
  }

  lemma StepKeepsDistinct(book: Book, op: Op)
    requires Buffers(book.entries) && OwnSlots(book.entries) && DistinctNames(book)
    requires !Overflows(book.entries, op) && (op.GenerateName? ==> '\0' !in op.base)
    ensures DistinctNames(Step(book, op).0)
  {
    hide Written, NameFor, CString, Overflows;
    match op
    case Create(parent) =>
    case GenerateName(dev, base) => NamingKeepsDistinct(book, dev, base);
    case Remove(dev) =>
      if Listed(book.entries, dev) && !HasChild(book.entries, dev) {
        var i := PlaceOf(book.entries, dev);
        var book' := Step(book, op).0;
        assert forall j | 0 <= j < |book'.entries| :: book'.entries[j] == book.entries[if j < i then j else j + 1];
      }
  }

  /** Until the 32-bit number would overflow, no two named devices share a name. */
  lemma {:induction false} NamesStayDistinct(ops: seq<Op>)
    requires CStrings(ops) && NeverOverflows(ops)
    ensures DistinctNames(RunOf(ops).0) && OwnSlots(RunOf(ops).0.entries)
    decreases |ops|
  {
    if ops != [] {
      var before := ops[..|ops| - 1];
      assert forall k | 0 <= k < |before| :: before[..k] == ops[..k] && before[k] == ops[k];
      NamesStayDistinct(before);
      hide Step, Overflows, CStrings, DistinctNames, OwnSlots;
      StepKeepsSlots(RunOf(before).0, ops[|ops| - 1]);
      StepKeepsDistinct(RunOf(before).0, ops[|ops| - 1]);
    }
  }
}
