/**
 Iterating a directory that is stored in a chain of clusters: the sequence of its slots, which of
 them are reported, and the two nested loops of the driver that find the next one.
 */
module FatDirectory {
  import opened Arithmetic
  import opened FatTable
  import opened FatVolume
  import opened FatNames
  import opened FatFile

  const SLOT_SIZE := 32

  // ---------- What is in a directory ----------

  datatype Kind = EndMark | Deleted | LongName | VolumeLabel | Live

  function KindOf(slot: Slot): Kind {
    if slot[0] == 0 then EndMark
    else if slot[0] == 0xE5 then Deleted
    else if slot[11] % 16 == 15 then LongName
    else if slot[11] / 8 % 2 == 1 then VolumeLabel
    else Live
  }

  lemma LowBits(x: nat, low: nat, high: nat)
    requires low < 16 && x == low + 16 * high
    ensures x % 16 == low && x / 8 % 2 == low / 8
  {
    assert x / 8 == low / 8 + 2 * high;
  }

  /**
   The attribute byte bit by bit: read-only, hidden, system, volume label, subdirectory, archive, and two more. Unless
   its first byte makes it free, a slot is a piece of a long name exactly if the first four are set, a label exactly if
   the fourth is but not all of them, and otherwise an entry, whatever the others are.
   */
  lemma KindByAttributes(slot: Slot, r: nat, h: nat, s: nat, v: nat, d: nat, a: nat, rest: nat)
    requires r < 2 && h < 2 && s < 2 && v < 2 && d < 2 && a < 2 && rest < 4
    requires slot[11] == r + 2 * h + 4 * s + 8 * v + 16 * d + 32 * a + 64 * rest
    ensures KindOf(slot).EndMark? <==> slot[0] == 0
    ensures KindOf(slot).Deleted? <==> slot[0] == 0xE5
    ensures slot[0] != 0 && slot[0] != 0xE5 ==>
              && (KindOf(slot).LongName? <==> r == 1 && h == 1 && s == 1 && v == 1)
              && (KindOf(slot).VolumeLabel? <==> v == 1 && !(r == 1 && h == 1 && s == 1))
              && (KindOf(slot).Live? <==> v == 0)
  {
    var low := r + 2 * h + 4 * s + 8 * v;
    LowBits(slot[11], low, d + 2 * a + 4 * rest);
    assert low / 8 == v;
  }

  /** An entry is a slot in use without the label bit: a file or a subdirectory. */
  lemma LiveByBytes(slot: Slot)
    ensures KindOf(slot).Live? <==> slot[0] != 0 && slot[0] != 0xE5 && slot[11] / 8 % 2 == 0
    ensures KindOf(slot).EndMark? <==> slot[0] == 0
  {
    LowBits(slot[11], slot[11] % 16, slot[11] / 16);
  }

  /** The first position from p on that holds a live entry or the end mark; |slots| if none does. */
  function NextStop(slots: seq<Slot>, p: nat): (q: nat)
    requires p <= |slots|
    ensures p <= q <= |slots|
    decreases |slots| - p
  {
    if p == |slots| || KindOf(slots[p]).EndMark? || KindOf(slots[p]).Live? then p
    else NextStop(slots, p + 1)
  }

  predicate LiveAt(slots: seq<Slot>, q: nat) {
    q < |slots| && KindOf(slots[q]).Live?
  }

  /** The positions iteration reports from p on. */
  function Reported(slots: seq<Slot>, p: nat): seq<nat>
    requires p <= |slots|
    decreases |slots| - p
  {
    var q := NextStop(slots, p);
    if LiveAt(slots, q) then [q] + Reported(slots, q + 1) else []
  }

  lemma {:induction false} NextStopIsFirst(slots: seq<Slot>, p: nat)
    requires p <= |slots|
    ensures forall i | p <= i < NextStop(slots, p) :: !KindOf(slots[i]).EndMark? && !KindOf(slots[i]).Live?
    ensures var q := NextStop(slots, p); q == |slots| || KindOf(slots[q]).EndMark? || KindOf(slots[q]).Live?
    decreases |slots| - p
  {
    if p < |slots| && !KindOf(slots[p]).EndMark? && !KindOf(slots[p]).Live? {
      NextStopIsFirst(slots, p + 1);
    }
  }

  lemma {:induction false} LiveReported(slots: seq<Slot>, p: nat)
    requires p <= |slots|
    ensures forall i | p <= i < |slots| ::
              i in Reported(slots, p) <==> LiveAt(slots, i) && forall j | p <= j < i :: !KindOf(slots[j]).EndMark?
    ensures forall i | i in Reported(slots, p) :: p <= i < |slots|
    ensures forall m, n | 0 <= m < n < |Reported(slots, p)| :: Reported(slots, p)[m] < Reported(slots, p)[n]
    decreases |slots| - p
  {
    hide KindOf;
    var q := NextStop(slots, p);
    NextStopIsFirst(slots, p);
    if LiveAt(slots, q) {
      LiveReported(slots, q + 1);
      var all, rest := Reported(slots, p), Reported(slots, q + 1);
      forall m, n | 0 <= m < n < |all|
        ensures all[m] < all[n]
      {
        assert all[n] == rest[n - 1] && rest[n - 1] in rest;
      }
    }
  }

  /** Each file or subdirectory before the first end mark exactly once, in disk order, and nothing else. */
  lemma {:induction false} ReportedExactly(slots: seq<Slot>, p: nat)
    requires p <= |slots|
    ensures forall i | p <= i < |slots| ::
              i in Reported(slots, p) <==>
              && slots[i][0] != 0xE5 && slots[i][11] / 8 % 2 == 0
              && forall j | p <= j <= i :: slots[j][0] != 0
    ensures forall i | i in Reported(slots, p) :: p <= i < |slots|
    ensures forall m, n | 0 <= m < n < |Reported(slots, p)| :: Reported(slots, p)[m] < Reported(slots, p)[n]
    decreases |slots| - p
  {
    LiveReported(slots, p);
    hide Reported;
    forall i | p <= i < |slots|
      ensures i in Reported(slots, p) <==>
              && slots[i][0] != 0xE5 && slots[i][11] / 8 % 2 == 0
              && forall j | p <= j <= i :: slots[j][0] != 0
    {
      LiveByBytes(slots[i]);
      forall j | p <= j <= i ensures KindOf(slots[j]).EndMark? <==> slots[j][0] == 0 {
        LiveByBytes(slots[j]);
      }
    }
  }

  /** The slots taken for the positions reported are files and subdirectories; taken for all of them, they are all. */
  lemma EntriesTaken(slots: seq<Slot>, entries: seq<Slot>)
    requires |entries| <= |Reported(slots, 0)|
    requires forall i | 0 <= i < |entries| ::
               Reported(slots, 0)[i] < |slots| && entries[i] == slots[Reported(slots, 0)[i]]
    ensures |entries| == |Reported(slots, 0)| ==> forall p | 0 <= p < |slots| ::
              slots[p][0] != 0xE5 && slots[p][11] / 8 % 2 == 0 && (forall j | 0 <= j <= p :: slots[j][0] != 0)
              ==> slots[p] in entries
    ensures forall e | e in entries :: e[0] != 0 && e[0] != 0xE5 && e[11] / 8 % 2 == 0
  {
    var list := Reported(slots, 0);
    ReportedExactly(slots, 0);
    hide Reported;
    forall p | 0 <= p < |slots| && p in list && |entries| == |list| ensures slots[p] in entries {
      var i :| 0 <= i < |list| && list[i] == p;
      assert entries[i] == slots[p];
    }
    forall e | e in entries ensures e[0] != 0 && e[0] != 0xE5 && e[11] / 8 % 2 == 0 {
      var i :| 0 <= i < |entries| && entries[i] == e;
      assert list[i] in list;
    }
  }

  /** Iteration from p produces what is left of the list. */
  lemma OneReported(slots: seq<Slot>, k: nat, p: nat)
    requires p <= |slots| && k <= |Reported(slots, 0)|
    requires Reported(slots, 0)[k..] == Reported(slots, p)
    ensures var q, all := NextStop(slots, p), Reported(slots, 0);
            if LiveAt(slots, q) then k < |all| && all[k] == q && all[k + 1..] == Reported(slots, q + 1)
            else k == |all|
  {
    var all := Reported(slots, 0);
    assert LiveAt(slots, NextStop(slots, p)) ==> all[k + 1..] == all[k..][1..];
  }

  // ---------- Names collected on the way ----------

  /** The long-name buffer of one call, and whether it holds a name. */
  datatype Collected = Collected(isLong: bool, units: seq<Unit>)

  ghost predicate ValidCollected(c: Collected) {
    |c.units| == LFN_UNITS
  }

  function Collect(c: Collected, slot: Slot): (r: Collected)
    requires ValidCollected(c) && (KindOf(slot).LongName? ==> Storable(slot))
    ensures ValidCollected(r)
  {
    match KindOf(slot)
    case LongName => Collected(true, StorePiece(c.units, slot))
    case VolumeLabel => c.(isLong := false)
    case _ => c
  }

  ghost predicate LongNamesStorable(slots: seq<Slot>) {
    forall s | s in slots && KindOf(s).LongName? :: Storable(s)
  }

  function CollectAll(c: Collected, slots: seq<Slot>): (r: Collected)
    requires ValidCollected(c) && LongNamesStorable(slots)
    ensures ValidCollected(r)
    decreases |slots|
  {
    if slots == [] then c else Collect(CollectAll(c, slots[..|slots| - 1]), slots[|slots| - 1])
  }

  /** One slot further. */
  lemma CollectOneMore(c: Collected, slots: seq<Slot>, from: nat, p: nat)
    requires ValidCollected(c) && LongNamesStorable(slots) && from <= p < |slots|
    ensures CollectAll(c, slots[from..p + 1]) == Collect(CollectAll(c, slots[from..p]), slots[p])
  {
    var s := slots[from..p + 1];
    assert s[..|s| - 1] == slots[from..p] && s[|s| - 1] == slots[p];
  }

  lemma NothingCollected(c: Collected, slots: seq<Slot>, p: nat)
    requires ValidCollected(c) && LongNamesStorable(slots) && p <= |slots|
    ensures CollectAll(c, slots[p..p]) == c
  {
  }

  /** The name an entry is reported under. */
  function NameOf(c: Collected, slot: Slot): seq<Byte>
    requires ValidCollected(c)
  {
    if c.isLong then NameBytes(c.units, UTF8_ROOM) else ShortName(slot)
  }

  /** `name` is reported for position q by a call that started at `from`. What the long-name buffer
      held before the call only shows when a set of pieces is incomplete. */
  ghost predicate IsReport(slots: seq<Slot>, from: nat, q: nat, name: seq<Byte>)
    requires LongNamesStorable(slots) && from <= q < |slots|
  {
    exists junk: seq<Unit> | |junk| == LFN_UNITS ::
      name == NameOf(CollectAll(Collected(false, junk), slots[from..q]), slots[q])
  }

  /** Where the call that reports entry i starts looking. */
  function StartOf(list: seq<nat>, i: nat): nat
    requires i <= |list|
  {
    if i == 0 then 0 else list[i - 1] + 1
  }

  /** names[i] is reported for entry i of the list. */
  ghost predicate AreReports(slots: seq<Slot>, list: seq<nat>, names: seq<seq<Byte>>)
    requires LongNamesStorable(slots)
  {
    && |names| <= |list|
    && forall i | 0 <= i < |names| ::
         StartOf(list, i) <= list[i] < |slots| && IsReport(slots, StartOf(list, i), list[i], names[i])
  }

  predicate SameIgnoringCase(a: seq<Byte>, b: seq<Byte>) {
    |a| == |b| && forall i | 0 <= i < |a| :: ToLower(a[i]) == ToLower(b[i])
  }

  /** Names match exactly if they are equally long and differ in the case of letters at most. */
  lemma MatchesUpToCase(a: seq<Byte>, b: seq<Byte>)
    ensures SameIgnoringCase(a, b) <==>
            |a| == |b| && forall i | 0 <= i < |a| ::
              || a[i] == b[i]
              || ('A' as int <= a[i] <= 'Z' as int && b[i] == a[i] + ('a' as int - 'A' as int))
              || ('A' as int <= b[i] <= 'Z' as int && a[i] == b[i] + ('a' as int - 'A' as int))
  {
    forall i | 0 <= i < |a| && i < |b|
      ensures ToLower(a[i]) == ToLower(b[i]) <==>
                || a[i] == b[i]
                || ('A' as int <= a[i] <= 'Z' as int && b[i] == a[i] + ('a' as int - 'A' as int))
                || ('A' as int <= b[i] <= 'Z' as int && a[i] == b[i] + ('a' as int - 'A' as int))
    {
      LettersAlike(a[i], b[i]);
    }
  }

  ghost predicate NoneMatches(wanted: seq<Byte>, names: seq<seq<Byte>>) {
    forall i | 0 <= i < |names| :: !SameIgnoringCase(wanted, names[i])
  }

  lemma ReportsGrow(slots: seq<Slot>, list: seq<nat>, names: seq<seq<Byte>>, name: seq<Byte>)
    requires LongNamesStorable(slots) && AreReports(slots, list, names) && |names| < |list|
    requires StartOf(list, |names|) <= list[|names|] < |slots|
    requires IsReport(slots, StartOf(list, |names|), list[|names|], name)
    ensures AreReports(slots, list, names + [name])
  {
    hide IsReport, StartOf, LongNamesStorable;
    var all := names + [name];
    forall i | 0 <= i < |all|
      ensures StartOf(list, i) <= list[i] < |slots| && IsReport(slots, StartOf(list, i), list[i], all[i])
    {
      assert i < |names| ==> all[i] == names[i];
    }
  }

  lemma MatchesGrow(wanted: seq<Byte>, names: seq<seq<Byte>>, name: seq<Byte>)
    ensures NoneMatches(wanted, names + [name]) <==> NoneMatches(wanted, names) && !SameIgnoringCase(wanted, name)
    ensures (names + [name])[..|names|] == names
  {
    hide SameIgnoringCase;
    var all := names + [name];
    assert forall i | 0 <= i < |names| :: all[i] == names[i];
    if NoneMatches(wanted, all) {
      assert !SameIgnoringCase(wanted, all[|names|]);
      assert forall i | 0 <= i < |names| :: !SameIgnoringCase(wanted, all[i]);
    }
  }

  lemma OneMoreReport(slots: seq<Slot>, list: seq<nat>, names: seq<seq<Byte>>, wanted: seq<Byte>, name: seq<Byte>)
    requires LongNamesStorable(slots) && AreReports(slots, list, names) && |names| < |list|
    requires StartOf(list, |names|) <= list[|names|] < |slots|
    requires IsReport(slots, StartOf(list, |names|), list[|names|], name)
    ensures AreReports(slots, list, names + [name])
    ensures NoneMatches(wanted, names + [name]) <==>
            NoneMatches(wanted, names) && !SameIgnoringCase(wanted, name)
    ensures (names + [name])[..|names|] == names
  {
    ReportsGrow(slots, list, names, name);
    MatchesGrow(wanted, names, name);
  }

  lemma NoReportsYet(slots: seq<Slot>, list: seq<nat>)
    requires LongNamesStorable(slots)
    ensures AreReports(slots, list, [])
  {
  }

  lemma ReportFrom(slots: seq<Slot>, from: nat, q: nat, c: Collected, name: seq<Byte>)
    requires LongNamesStorable(slots) && from <= q < |slots| && ValidCollected(c) && !c.isLong
    requires name == NameOf(CollectAll(c, slots[from..q]), slots[q])
    ensures IsReport(slots, from, q, name)
  {
    assert c == Collected(false, c.units);
  }

  /** Writes the name an entry is reported under. */
  method WriteName(slot: Slot, isLong: bool, lfn: array<Unit>, name: array<Byte>) returns (len: nat)
    requires lfn.Length == LFN_UNITS && name.Length >= 256
    modifies name
    ensures len <= 255 && name[..len] == NameOf(Collected(isLong, lfn[..]), slot)
  {
    if isLong {
      len := LfnToUtf8(name, lfn[..]);
    } else {
      len := SfnFilename(slot, name);
    }
  }

  // ---------- The driver ----------

  /** Slot `index` of cluster `block`, `n` slots a cluster. */
  lemma SlotInRange(block: nat, index: nat, clusters: nat, n: nat)
    requires 0 < n && index <= n && block < clusters
    ensures index < n ==>
      0 <= block * n + index < clusters * n && (block * n + index) / n == block && (block * n + index) % n == index
    ensures index == n && block + 1 == clusters ==> block * n + index == clusters * n
    ensures index == n && block + 1 < clusters ==> 0 <= block * n + index < clusters * n
  {
    MulStrict(block, clusters, n);
    assert (block + 1) * n == block * n + n;
    if block + 1 < clusters {
      MulStrict(block + 1, clusters, n);
    }
    if index < n {
      DivModUnique(block * n + index, block, index, n);
    }
  }

  class Directory {
    const volume: Volume
    const head: nat
    /** How many clusters the directory's chain has. */
    ghost const clusters: nat
    var current: nat
    var index: nat
    /** The slot reported last. */
    var direntry: Slot
    /** Which cluster of the chain `current` is. */
    ghost var block: nat

    /** A chain of n data clusters that ends. */
    static ghost predicate ChainOf(v: Volume, head: nat, n: nat) {
      && n > 0
      && (forall k | 0 <= k < n :: File.IsDataCluster(v, v.Follow(head, k)))
      && v.Follow(head, n) > v.Max()
    }

    /** Slots per cluster. */
    function PerBlock(): nat {
      volume.geometry.clusterSize / SLOT_SIZE
    }

    ghost function Pos(): nat
      reads this
    {
      block * PerBlock() + index
    }

    function SlotByte(k: nat, i: nat, j: nat): Byte {
      volume.ClusterByte(volume.Follow(head, k), SLOT_SIZE * i + j)
    }

    function SlotAt(k: nat, i: nat): Slot {
      var bytes: seq<Byte> := seq(SLOT_SIZE, j requires 0 <= j => SlotByte(k, i, j));
      assert |bytes| == 32;
      bytes
    }

    /** The directory: the slots of its clusters, one cluster after the other. */
    ghost function Slots(): (s: seq<Slot>)
      requires PerBlock() > 0
      ensures |s| == clusters * PerBlock()
    {
      seq(clusters * PerBlock(), p requires 0 <= p => SlotAt(p / PerBlock(), p % PerBlock()))
    }

    ghost predicate Valid()
      reads this, volume, volume.fatbuf, volume.databuf
    {
      && volume.Valid()
      && ChainOf(volume, head, clusters)
      && block < clusters && current == volume.Follow(head, block)
      && 0 < PerBlock() && index <= PerBlock()
      && Pos() <= |Slots()|
    }

    constructor (v: Volume, head: nat, ghost clusters: nat)
      requires v.Valid() && ChainOf(v, head, clusters)
      ensures Valid() && volume == v && this.head == head && this.clusters == clusters && Pos() == 0
    {
      volume, this.head, this.clusters := v, head, clusters;
      current, index, block, direntry := head, 0, 0, seq(SLOT_SIZE, i => 0);
      new;
      assert PerBlock() == 16 * v.geometry.sectorsPerCluster;
    }

    lemma PosInRange()
      requires Valid()
      ensures index < PerBlock() ==> Pos() < |Slots()| && Slots()[Pos()] == SlotAt(block, index)
      ensures index == PerBlock() && block + 1 == clusters ==> Pos() == |Slots()|
      ensures index == PerBlock() && block + 1 < clusters ==> Pos() < |Slots()|
    {
      SlotInRange(block, index, clusters, PerBlock());
    }

    /** The data buffer holds the current cluster. */
    ghost predicate Loaded()
      requires volume.Valid()
      reads this, volume, volume.fatbuf, volume.databuf
    {
      forall i | 0 <= i < volume.geometry.clusterSize :: volume.databuf[i] == volume.ClusterByte(current, i)
    }

    method Rewind()
      requires Valid()
      modifies this
      ensures Valid() && Pos() == 0 && current == head && index == 0 && block == 0
    {
      current, index, direntry, block := head, 0, seq(SLOT_SIZE, i => 0), 0;
    }

    /** The data buffer holds the current cluster, as far as its tag says. */
    predicate Cached()
      reads this, volume
    {
      volume.databufLba == volume.geometry.ClusterToSector(current)
    }

    /** At the end of a cluster the table entry can be read, but the next cluster cannot. */
    ghost predicate FallsBack()
      reads this, volume
    {
      var next := volume.requests + volume.LookupRequests(current);
      && index >= PerBlock() && block + 1 < clusters && volume.NoFaults(volume.requests, next)
      && volume.databufLba != volume.geometry.ClusterToSector(volume.Follow(head, block + 1)) && volume.fails(next)
    }

    /** The cluster behind the current one. */
    method NextCluster() returns (status: Status, cluster: nat)
      requires Valid()
      modifies volume`requests, volume`fatbufLba, volume.fatbuf
      ensures Valid() && old(volume.requests) <= volume.requests
      ensures status.Success? || status.EndOfList? || status.DeviceError?
      ensures status.Success? ==> block + 1 < clusters && cluster == volume.Follow(head, block + 1)
      ensures status.EndOfList? ==> block + 1 == clusters
      ensures status.DeviceError? <==> !volume.NoFaults(old(volume.requests), volume.requests)
      ensures status.DeviceError? <==>
              !volume.NoFaults(old(volume.requests), old(volume.requests) + old(volume.LookupRequests(current)))
      ensures !status.DeviceError? ==> volume.requests == old(volume.requests) + old(volume.LookupRequests(current))
    {
      hide Volume.Follow, Volume.ReachesFrom, Volume.ClusterByte, Volume.LookupRequests, Volume.NoFaults;
      ghost var steps;
      status, cluster, steps := volume.GetNextCluster(current, 1);
      volume.FollowAdds(head, block, steps);
      volume.OneLinkOn(current, 1);
    }

    lemma InsideVolume(k: nat)
      requires Valid() && k < clusters
      ensures !volume.geometry.InRootArea(volume.geometry.ClusterToSector(volume.Follow(head, k)))
    {
      volume.geometry.ClusterPlacement(volume.Follow(head, k));
    }

    lemma BlockInRange(k: nat)
      requires k < clusters && PerBlock() > 0
      ensures k * PerBlock() <= |Slots()|
    {
      MulMonotone(k, clusters, PerBlock());
    }

    lemma FirstInBlock()
      requires block < clusters && PerBlock() > 0 && index == 0
      ensures Pos() <= |Slots()|
    {
      BlockInRange(block);
    }

    /** The part of it at the end of a cluster. */
    method CrossBorder() returns (status: Status)
      requires Valid() && index >= PerBlock()
      modifies this`current, this`index, this`block, volume, volume.fatbuf, volume.databuf
      ensures Valid() && old(volume.requests) <= volume.requests
      ensures status.Success? || status.EndOfList? || status.DeviceError?
      ensures status.Success? ==> index == 0 && block == old(block) + 1 && Loaded() && Cached()
      ensures status.EndOfList? ==> index == old(index) && block == old(block) && block + 1 == clusters
      ensures status.DeviceError? <==> !volume.NoFaults(old(volume.requests), volume.requests)
      ensures status.DeviceError? ==> block == old(block) && index == if old(FallsBack()) then 0 else old(index)
      ensures old(FallsBack()) ==>
              status.DeviceError? && volume.databufLba == old(volume.databufLba) &&
              volume.requests == old(volume.requests) + old(volume.LookupRequests(current)) + 1
    {
      hide Volume.ClusterByte, Volume.Follow, Volume.LookupRequests;
      var cluster;
      status, cluster := NextCluster();
      if !status.Success? {
        return;
      }
      InsideVolume(block + 1);
      index := 0;
      assert Valid() by { FirstInBlock(); }
      status := volume.ReadCluster(cluster);
      if status.Success? {
        current, block := cluster, block + 1;
        assert Pos() <= |Slots()| by { BlockInRange(block); }
      }
    }

    /** Fetches the cluster with the next slot. If that fails after the step to a new cluster, the
        index is already reset but the cluster is not: the position falls back by one cluster. */
    method FetchBlock() returns (status: Status)
      requires Valid()
      modifies this`current, this`index, this`block, volume, volume.fatbuf, volume.databuf
      ensures Valid() && old(volume.requests) <= volume.requests
      ensures status.Success? || status.EndOfList? || status.DeviceError?
      ensures status.Success? ==> index < PerBlock() && Loaded() && Cached()
      ensures status.EndOfList? ==> index == PerBlock() && block + 1 == clusters
      ensures status.DeviceError? <==> !volume.NoFaults(old(volume.requests), volume.requests)
      ensures Pos() == old(Pos()) - if old(FallsBack()) then PerBlock() else 0
      ensures old(FallsBack()) ==>
              status.DeviceError? && volume.databufLba == old(volume.databufLba) &&
              volume.requests == old(volume.requests) + old(volume.LookupRequests(current)) + 1
      ensures old(index) < PerBlock() ==>
              block == old(block) && index == old(index) && volume.fatbufLba == old(volume.fatbufLba) &&
              volume.requests == old(volume.requests) + (if old(Cached()) then 0 else 1)
    {
      hide Volume.ClusterByte, Volume.Follow, Volume.LookupRequests;
      PosInRange();
      assert (block + 1) * PerBlock() == block * PerBlock() + PerBlock();
      if index >= PerBlock() {
        status := CrossBorder();
      } else {
        InsideVolume(block);
        status := volume.ReadCluster(current);
      }
    }

    /** The slot under the index, as it lies in the data buffer. */
    function BufferSlot(): Slot
      requires volume.Valid() && index < PerBlock()
      reads this, volume, volume.fatbuf, volume.databuf
    {
      assert SLOT_SIZE * index + SLOT_SIZE <= volume.databuf.Length;
      volume.databuf[SLOT_SIZE * index..SLOT_SIZE * index + SLOT_SIZE]
    }

    lemma BufferSlotIs()
      requires Valid() && Loaded() && index < PerBlock()
      ensures Pos() < |Slots()| && BufferSlot() == Slots()[Pos()]
    {
      PosInRange();
      hide Slots, Volume.ClusterByte;
      assert BufferSlot() == SlotAt(block, index);
    }

    ghost function Live(): seq<nat>
      requires PerBlock() > 0
    {
      Reported(Slots(), 0)
    }

    /** The inner loop: over the slots of the loaded cluster up to the next live entry or the end
        mark, collecting long-name pieces. `c` and `from` say where the call began. */
    method ScanBlock(lfn: array<Unit>, wasLong: bool, ghost c: Collected, ghost from: nat)
      returns (stop: bool, isLong: bool)
      requires Valid() && Loaded() && index < PerBlock() && from <= Pos()
      requires LongNamesStorable(Slots()) && lfn.Length == LFN_UNITS && ValidCollected(c)
      requires Collected(wasLong, lfn[..]) == CollectAll(c, Slots()[from..Pos()])
      modifies this`index, lfn
      ensures Valid() && Loaded() && old(Pos()) <= Pos()
      ensures NextStop(Slots(), Pos()) == NextStop(Slots(), old(Pos()))
      ensures if stop then index < PerBlock() && Pos() == NextStop(Slots(), Pos()) else index == PerBlock()
      ensures Collected(isLong, lfn[..]) == CollectAll(c, Slots()[from..Pos()])
    {
      hide Slots, CollectAll, Volume.ClusterByte, Volume.Follow, SlotByte;
      isLong, stop := wasLong, false;
      while index < PerBlock()
        invariant Valid() && Loaded() && old(Pos()) <= Pos() <= |Slots()|
        invariant NextStop(Slots(), Pos()) == NextStop(Slots(), old(Pos()))
        invariant Collected(isLong, lfn[..]) == CollectAll(c, Slots()[from..Pos()])
        decreases PerBlock() - index
      {
        BufferSlotIs();
        CollectOneMore(c, Slots(), from, Pos());
        var slot := BufferSlot();
        match KindOf(slot) {
          case EndMark => return true, isLong;
          case Live => return true, isLong;
          case Deleted =>
          case LongName =>
            StoreLfn(slot, lfn);
            isLong := true;
          case VolumeLabel => isLong := false;
        }
        index := index + 1;
      }
    }

    /** The next stop lies in the current cluster. */
    ghost predicate StopsHere()
      requires PerBlock() > 0
      reads this
    {
      index < PerBlock() && Pos() <= |Slots()| && NextStop(Slots(), Pos()) < (block + 1) * PerBlock()
    }

    /** What is left of the list from p on is what was left from `from` on, or will be one cluster later. */
    ghost predicate Resumes(from: nat, p: nat)
      requires PerBlock() > 0
    {
      from <= |Slots()| &&
      ((p <= |Slots()| && NextStop(Slots(), p) == NextStop(Slots(), from)) ||
       (p + PerBlock() <= |Slots()| && NextStop(Slots(), p + PerBlock()) == NextStop(Slots(), from)))
    }

    lemma ResumesAt(from: nat, q: nat)
      requires PerBlock() > 0 && from <= q <= |Slots()| && NextStop(Slots(), q) == NextStop(Slots(), from)
      ensures Resumes(from, q) && (q >= PerBlock() ==> Resumes(from, q - PerBlock()))
    {
    }

    ghost predicate Untouched(block: nat, index: nat, current: nat, requests: nat, databufLba: int, fatbufLba: int)
      reads this, volume
    {
      this.block == block && this.index == index && this.current == current && volume.requests == requests &&
      volume.databufLba == databufLba && volume.fatbufLba == fatbufLba
    }

    /** The two loops of iter_directory: on to the next live entry or the end of the list. */
    method FindNext(lfn: array<Unit>, ghost c: Collected) returns (status: Status, isLong: bool)
      requires Valid() && LongNamesStorable(Slots()) && lfn.Length == LFN_UNITS
      requires c == Collected(false, lfn[..])
      modifies this`current, this`index, this`block, volume, volume.fatbuf, volume.databuf, lfn
      ensures Valid() && old(volume.requests) <= volume.requests
      ensures status.Success? || status.EndOfList? || status.DeviceError?
      ensures status.DeviceError? <==> !volume.NoFaults(old(volume.requests), volume.requests)
      ensures status.DeviceError? ==> Resumes(old(Pos()), Pos())
      ensures !status.DeviceError? ==> Pos() == NextStop(Slots(), old(Pos()))
      ensures status.EndOfList? ==> !LiveAt(Slots(), Pos())
      ensures status.Success? ==>
              Loaded() && index < PerBlock() && LiveAt(Slots(), Pos()) && old(Pos()) <= Pos()
      ensures status.Success? ==> Collected(isLong, lfn[..]) == CollectAll(c, Slots()[old(Pos())..Pos()])
      ensures old(FallsBack()) ==>
              status.DeviceError? && Pos() == old(Pos()) - PerBlock() && volume.databufLba == old(volume.databufLba) &&
              volume.requests == old(volume.requests) + old(volume.LookupRequests(current)) + 1
      ensures old(StopsHere()) ==>
              block == old(block) && volume.fatbufLba == old(volume.fatbufLba) &&
              volume.requests == old(volume.requests) + (if old(Cached()) then 0 else 1)
      ensures old(StopsHere()) && status.Success? ==> Cached()
      ensures old(index) < PerBlock() && !old(Cached()) ==> old(volume.requests) < volume.requests
    {
      hide Slots, Volume.ClusterByte, Volume.Follow, SlotByte, ChainOf, FallsBack;
      hide Volume.LookupRequests;
      hide NextStop, CollectAll, Resumes, Loaded;
      isLong := false;
      ghost var from, first, here, fell := Pos(), true, StopsHere(), FallsBack();
      var stop := false;
      NothingCollected(c, Slots(), from);
      while !stop
        invariant Valid() && from <= Pos() && old(volume.requests) <= volume.requests
        invariant NextStop(Slots(), Pos()) == NextStop(Slots(), from)
        invariant stop ==> Loaded() && index < PerBlock() && Pos() == NextStop(Slots(), Pos())
        invariant Collected(isLong, lfn[..]) == CollectAll(c, Slots()[from..Pos()])
        invariant volume.NoFaults(old(volume.requests), volume.requests)
        invariant first ==> FallsBack() == fell && StopsHere() == here
        invariant first ==> Untouched(old(block), old(index), old(current), old(volume.requests),
                                      old(volume.databufLba), old(volume.fatbufLba))
        invariant !first ==> !fell
        invariant stop ==> !first
        invariant !first && old(index) < PerBlock() && !old(Cached()) ==> old(volume.requests) < volume.requests
        invariant !first && here ==>
            stop && block == old(block) && volume.fatbufLba == old(volume.fatbufLba) && Cached() &&
            volume.requests == old(volume.requests) + (if old(Cached()) then 0 else 1)
        decreases !stop, |Slots()| - Pos()
      {
        ghost var before := Pos();
        status := FetchBlock();
        PosInRange();
        if !status.Success? {
          ResumesAt(from, before);
          return;
        }
        stop, isLong := ScanBlock(lfn, isLong, c, from);
        first := false;
      }
      BufferSlotIs();
      NextStopIsFirst(Slots(), Pos());
      status := if KindOf(BufferSlot()).EndMark? then EndOfList else Success;
    }

    /** The entry under the index is reported. */
    method TakeEntry(name: array<Byte>, lfn: array<Unit>, isLong: bool, ghost c: Collected, ghost from: nat)
      returns (nameLen: nat)
      requires Valid() && Loaded() && index < PerBlock() && from <= Pos() && LongNamesStorable(Slots())
      requires lfn.Length == LFN_UNITS && ValidCollected(c) && !c.isLong
      requires LiveAt(Slots(), Pos()) && Collected(isLong, lfn[..]) == CollectAll(c, Slots()[from..Pos()])
      requires name.Length >= 256 && name != volume.fatbuf && name != volume.databuf
      modifies this`index, this`direntry, name
      ensures Valid() && Pos() == old(Pos()) + 1 && direntry == Slots()[old(Pos())]
      ensures nameLen <= 255 && IsReport(Slots(), from, old(Pos()), name[..nameLen])
    {
      hide Slots, Volume.ClusterByte, Volume.Follow, SlotByte, ChainOf, CollectAll, IsReport, NameOf;
      BufferSlotIs();
      PosInRange();
      direntry := BufferSlot();
      nameLen := WriteName(direntry, isLong, lfn, name);
      ReportFrom(Slots(), from, Pos(), c, name[..nameLen]);
      index := index + 1;
    }

    /** iter_directory. */
    method Iter(name: array<Byte>) returns (status: Status, nameLen: nat)
      requires Valid() && LongNamesStorable(Slots())
      requires name.Length >= 256 && name != volume.fatbuf && name != volume.databuf
      modifies this, volume, volume.fatbuf, volume.databuf, name
      ensures Valid() && old(volume.requests) <= volume.requests
      ensures status.Success? || status.EndOfList? || status.DeviceError?
      ensures status.DeviceError? <==> !volume.NoFaults(old(volume.requests), volume.requests)
      ensures status.DeviceError? ==> Resumes(old(Pos()), Pos()) && direntry == old(direntry)
      ensures status.Success? ==> old(Pos()) < Pos() == NextStop(Slots(), old(Pos())) + 1
      ensures status.Success? ==> LiveAt(Slots(), Pos() - 1) && direntry == Slots()[Pos() - 1]
      ensures status.Success? ==> nameLen <= 255 && IsReport(Slots(), old(Pos()), Pos() - 1, name[..nameLen])
      ensures status.EndOfList? ==> Pos() == NextStop(Slots(), old(Pos())) && !LiveAt(Slots(), Pos())
      ensures old(FallsBack()) ==>
              status.DeviceError? && Pos() == old(Pos()) - PerBlock() && volume.databufLba == old(volume.databufLba) &&
              volume.requests == old(volume.requests) + old(volume.LookupRequests(current)) + 1
      ensures old(StopsHere()) ==>
              block == old(block) && volume.fatbufLba == old(volume.fatbufLba) &&
              volume.requests == old(volume.requests) + (if old(Cached()) then 0 else 1)
      ensures old(StopsHere()) && status.Success? ==> Cached()
      ensures old(index) < PerBlock() && !old(Cached()) ==> old(volume.requests) < volume.requests
    {
      hide Slots, Volume.ClusterByte, Volume.Follow, SlotByte, ChainOf, CollectAll, IsReport;
      hide NameOf, NextStop, FallsBack, Volume.LookupRequests, StopsHere, Resumes, Volume.NoFaults;
      nameLen := 0;
      var lfn := new Unit[LFN_UNITS];
      ghost var c, from := Collected(false, lfn[..]), Pos();
      var isLong;
      status, isLong := FindNext(lfn, c);
      if !status.Success? {
        return;
      }
      nameLen := TakeEntry(name, lfn, isLong, c, from);
    }

    /** From rewind on, until the end of the list or a failing device: the live entries once, in disk order, with
        the names they are reported under. */
    method List() returns (status: Status, entries: seq<Slot>, names: seq<seq<Byte>>)
      requires Valid() && LongNamesStorable(Slots())
      modifies this, volume, volume.fatbuf, volume.databuf
      ensures Valid() && old(volume.requests) <= volume.requests
      ensures status == if volume.NoFaults(old(volume.requests), volume.requests) then EndOfList else DeviceError
      ensures |entries| == |names| <= |Live()| && (status.EndOfList? ==> |entries| == |Live()|)
      ensures forall i | 0 <= i < |entries| :: Live()[i] < |Slots()| && entries[i] == Slots()[Live()[i]]
      ensures AreReports(Slots(), Live(), names)
      ensures status.EndOfList? ==> forall p | 0 <= p < |Slots()| ::
                Slots()[p][0] != 0xE5 && Slots()[p][11] / 8 % 2 == 0 && (forall j | 0 <= j <= p :: Slots()[j][0] != 0)
                ==> Slots()[p] in entries
      ensures forall e | e in entries :: e[0] != 0 && e[0] != 0xE5 && e[11] / 8 % 2 == 0
    {
      hide Slots, Volume.ClusterByte, Volume.Follow, SlotByte, ChainOf, Reported, NextStop, IsReport;
      hide Volume.LookupRequests, FallsBack, StopsHere, Resumes, AreReports, LongNamesStorable, LiveAt;
      entries, names := [], [];
      var name := new Byte[256];
      Rewind();
      NoReportsYet(Slots(), Live());
      while true
        invariant Valid() && |entries| == |names| <= |Live()| && AreReports(Slots(), Live(), names)
        invariant Live()[|entries|..] == Reported(Slots(), Pos()) && Pos() == StartOf(Live(), |names|)
        invariant forall i | 0 <= i < |entries| :: Live()[i] < |Slots()| && entries[i] == Slots()[Live()[i]]
        invariant old(volume.requests) <= volume.requests && volume.NoFaults(old(volume.requests), volume.requests)
        decreases |Slots()| - Pos()
      {
        OneReported(Slots(), |entries|, Pos());
        var len;
        status, len := Iter(name);
        if !status.Success? {
          EntriesTaken(Slots(), entries);
          return;
        }
        ReportsGrow(Slots(), Live(), names, name[..len]);
        entries, names := entries + [direntry], names + [name[..len]];
      }
    }

    /** `names` were reported for the first live entries, none of them is the wanted one, the rest is still to come. */
    ghost predicate Looking(wanted: seq<Byte>, names: seq<seq<Byte>>)
      requires Valid() && LongNamesStorable(Slots())
      reads this, volume, volume.fatbuf, volume.databuf
    {
      && |names| <= |Live()| && AreReports(Slots(), Live(), names) && NoneMatches(wanted, names)
      && Live()[|names|..] == Reported(Slots(), Pos()) && Pos() == StartOf(Live(), |names|)
    }

    lemma LookingFromStart(wanted: seq<Byte>)
      requires Valid() && LongNamesStorable(Slots()) && Pos() == 0
      ensures Looking(wanted, [])
    {
      assert Live()[0..] == Live();
    }

    /** One round of match_name. */
    method TryNext(name: array<Byte>, wanted: seq<Byte>, ghost names: seq<seq<Byte>>)
      returns (status: Status, same: bool, ghost names': seq<seq<Byte>>)
      requires Valid() && LongNamesStorable(Slots()) && Looking(wanted, names)
      requires name.Length >= 256 && name != volume.fatbuf && name != volume.databuf
      modifies this, volume, volume.fatbuf, volume.databuf, name
      ensures Valid() && old(volume.requests) <= volume.requests
      ensures status.Success? || status.EndOfList? || status.DeviceError?
      ensures status.DeviceError? <==> !volume.NoFaults(old(volume.requests), volume.requests)
      ensures !status.Success? ==> names' == names
      ensures status.EndOfList? ==> |names| == |Live()|
      ensures status.Success? ==>
              |names'| == |names| + 1 && names'[..|names|] == names && AreReports(Slots(), Live(), names') &&
              direntry == Slots()[Live()[|names|]] && old(Pos()) < Pos() &&
              if same then SameIgnoringCase(wanted, names'[|names|]) else Looking(wanted, names')
      ensures old(index) < PerBlock() && !old(Cached()) ==> old(volume.requests) < volume.requests
    {
      hide Slots, Volume.ClusterByte, Volume.Follow, SlotByte, ChainOf, Reported, NextStop, IsReport, SameIgnoringCase;
      hide Volume.LookupRequests, FallsBack, StopsHere, Resumes, AreReports, NoneMatches, LongNamesStorable, LiveAt;
      OneReported(Slots(), |names|, Pos());
      var len;
      same, names' := false, names;
      status, len := Iter(name);
      if status.Success? {
        OneMoreReport(Slots(), Live(), names, wanted, name[..len]);
        same := SameIgnoringCase(wanted, name[..len]);
        names' := names + [name[..len]];
      }
    }

    /** match_name stops on the first live entry reported under the wanted name, whatever the case of its letters. It
        answers "not found" when it has looked at every live entry, and also when a request to the device failed. */
    method MatchName(wanted: seq<Byte>) returns (status: Status, ghost names: seq<seq<Byte>>)
      requires Valid() && LongNamesStorable(Slots())
      modifies this, volume, volume.fatbuf, volume.databuf
      ensures Valid() && old(volume.requests) <= volume.requests && AreReports(Slots(), Live(), names)
      ensures status.Success? || status.EntryNotFound?
      ensures status.Success? ==> names != [] && NoneMatches(wanted, names[..|names| - 1])
      ensures status.Success? ==> SameIgnoringCase(wanted, names[|names| - 1])
      ensures status.Success? ==> direntry == Slots()[Live()[|names| - 1]]
      ensures status.Success? ==> volume.NoFaults(old(volume.requests), volume.requests)
      ensures status.EntryNotFound? ==> NoneMatches(wanted, names)
      ensures status.EntryNotFound? && volume.NoFaults(old(volume.requests), volume.requests) ==> |names| == |Live()|
      ensures old(volume.databufLba) != volume.geometry.ClusterToSector(head) && volume.fails(old(volume.requests)) ==>
              status.EntryNotFound?
    {
      hide Slots, Volume.ClusterByte, Volume.Follow, SlotByte, ChainOf, Reported, NextStop, IsReport, SameIgnoringCase;
      hide AreReports, NoneMatches, LongNamesStorable, Live;
      names := [];
      var name := new Byte[256];
      Rewind();
      LookingFromStart(wanted);
      ghost var cached := Cached();
      while true
        invariant Valid() && Looking(wanted, names)
        invariant old(volume.requests) <= volume.requests && volume.NoFaults(old(volume.requests), volume.requests)
        invariant if |names| == 0 then index == 0 && volume.requests == old(volume.requests) && Cached() == cached
                  else cached || old(volume.requests) < volume.requests
        decreases |Slots()| - Pos()
      {
        var same;
        status, same, names := TryNext(name, wanted, names);
        if !status.Success? {
          return EntryNotFound, names;
        }
        if same {
          assert !cached ==> volume.NoFaults(old(volume.requests), old(volume.requests) + 1);
          return Success, names;
        }
      }
    }
  }
}
