/**
 What a failing device does to a directory listing: a cluster is reported twice, and a name that is there is not found.
 */
module FatListing {
  import opened FatDirectory
  import opened FatFile
  import opened FatNames
  import opened FatStream
  import opened FatTable
  import opened FatVolume

  /** The volume of two clusters, in which all slots of cluster 2 but the last one are deleted. */
  const LISTING_DISK: nat -> Byte := a => if 1024 <= a < 1504 then 0xE5 else TWO_CLUSTER_DISK(a)

  ghost predicate OnListingDisk(v: Volume) {
    v.geometry == TWO_CLUSTER_LAYOUT && v.disk == LISTING_DISK
  }

  lemma ListingLinks(v: Volume)
    requires OnListingDisk(v)
    ensures Entry(Fat12, v.Fat(), 2) == 3 && Entry(Fat12, v.Fat(), 3) == 0xFFF
  {
    Entry12(v.Fat(), 2);
    Entry12(v.Fat(), 3);
    hide Entry;
  }

  lemma ListingChain(v: Volume)
    requires OnListingDisk(v)
    ensures v.Follow(2, 0) == 2 && v.Follow(2, 1) == 3 && v.Follow(2, 2) == 0xFFF
    ensures Directory.ChainOf(v, 2, 2)
  {
    ListingLinks(v);
    hide Entry;
    assert v.Follow(2, 1) == Entry(Fat12, v.Fat(), v.Follow(2, 0));
    assert v.Follow(2, 2) == Entry(Fat12, v.Fat(), v.Follow(2, 1));
    hide Volume.Follow;
    forall k | 0 <= k < 2 ensures File.IsDataCluster(v, v.Follow(2, k)) {
      assert k == 0 || k == 1;
    }
  }

  lemma ListingSector(dir: Directory, k: nat)
    requires OnListingDisk(dir.volume) && dir.head == 2 && k < 2
    ensures dir.volume.Follow(dir.head, k) == 2 + k && dir.volume.geometry.ClusterToSector(2 + k) == 2 + k
  {
    ListingChain(dir.volume);
    hide Volume.Follow;
    assert dir.volume.Follow(2, k) == 2 + k;
  }

  lemma PlaceOnDisk(k: nat, i: nat, j: nat)
    requires k < 2 && i < 16 && j < 32
    ensures LISTING_DISK(512 * (2 + k) + (32 * i + j)) == if k == 1 then 66 else if i < 15 then 0xE5 else 65
  {
    if k == 0 && i < 15 {
      assert 32 * i + j < 480;
    }
  }

  lemma ListingByteAt(dir: Directory, k: nat, i: nat, j: nat)
    requires OnListingDisk(dir.volume) && dir.head == 2 && dir.clusters == 2 && k < 2 && i < 16 && j < 32
    ensures dir.SlotByte(k, i, j) == if k == 1 then 66 else if i < 15 then 0xE5 else 65
  {
    ListingSector(dir, k);
    PlaceOnDisk(k, i, j);
    hide Volume.Follow, Geometry.ClusterToSector;
  }

  /** Every slot is filled with one byte. */
  lemma ListingByte(dir: Directory, p: nat, j: nat)
    requires OnListingDisk(dir.volume) && dir.head == 2 && dir.clusters == 2 && p < 32 && j < 32
    ensures dir.SlotByte(p / 16, p % 16, j) == if p < 15 then 0xE5 else if p == 15 then 65 else 66
  {
    ListingByteAt(dir, p / 16, p % 16, j);
  }

  lemma ListingSlot(dir: Directory, p: nat)
    requires OnListingDisk(dir.volume) && dir.head == 2 && dir.clusters == 2 && p < 32
    ensures dir.PerBlock() == 16 && |dir.Slots()| == 32
    ensures KindOf(dir.Slots()[p]) == if p < 15 then Deleted else Live
  {
    ListingByte(dir, p, 0);
    ListingByte(dir, p, 11);
    hide Directory.SlotByte;
    assert dir.Slots()[p] == dir.SlotAt(p / 16, p % 16);
  }

  lemma ListingSlots(dir: Directory)
    requires OnListingDisk(dir.volume) && dir.head == 2 && dir.clusters == 2
    ensures dir.PerBlock() == 16 && |dir.Slots()| == 32 && LongNamesStorable(dir.Slots())
    ensures NextStop(dir.Slots(), 0) == 15 && LiveAt(dir.Slots(), 15)
  {
    ListingSlot(dir, 0);
    hide Directory.Slots, KindOf;
    forall p: nat | p < 32 ensures KindOf(dir.Slots()[p]) == if p < 15 then Deleted else Live {
      ListingSlot(dir, p);
    }
    NextStopIsFirst(dir.Slots(), 0);
    var q := NextStop(dir.Slots(), 0);
    assert q >= 15;
    assert KindOf(dir.Slots()[15]).Live?;
  }

  /** The directory above on a device of which one request fails, rewound and with cold caches. */
  method Listing(fault: nat) returns (dir: Directory)
    ensures fresh(dir) && fresh(dir.volume) && fresh(dir.volume.fatbuf) && fresh(dir.volume.databuf)
    ensures dir.Valid() && OnListingDisk(dir.volume) && dir.head == 2 && dir.clusters == 2 && dir.Pos() == 0
    ensures dir.volume.requests == 0 && forall t :: dir.volume.fails(t) <==> t == fault
    ensures dir.volume.fatbufLba == dir.volume.databufLba == -1 && dir.block == 0 && dir.index == 0
  {
    var v := new Volume(TWO_CLUSTER_LAYOUT, LISTING_DISK, t => t == fault);
    ListingChain(v);
    dir := new Directory(v, 2, 2);
  }

  lemma AtFirst(dir: Directory)
    requires dir.Valid() && OnListingDisk(dir.volume) && dir.head == 2 && dir.clusters == 2 && dir.Pos() == 0 &&
        dir.index == 0
    ensures dir.StopsHere() && NextStop(dir.Slots(), 0) == 15 && |dir.Slots()| == 32
    ensures dir.PerBlock() == 16 && LongNamesStorable(dir.Slots()) && LiveAt(dir.Slots(), 15)
  {
    ListingSlots(dir);
    hide Directory.Slots;
  }

  /** After the entry of the first cluster the second one is asked for, and the device fails. */
  lemma AtBorder(dir: Directory)
    requires dir.Valid() && OnListingDisk(dir.volume) && dir.head == 2 && dir.clusters == 2
    requires dir.block == 0 && dir.index == 16 && dir.volume.requests == 1
    requires dir.volume.fatbufLba == -1 && dir.volume.databufLba == 2 && forall t :: dir.volume.fails(t) <==> t == 2
    ensures dir.FallsBack() && dir.volume.LookupRequests(dir.current) == 1
  {
    ListingChain(dir.volume);
    ListingSlots(dir);
    hide Directory.Slots, Volume.Follow;
    assert dir.current == 2;
    assert dir.volume.geometry.ClusterToSector(3) == 3;
  }

  lemma FirstReported(dir: Directory)
    requires dir.Valid() && OnListingDisk(dir.volume) && dir.head == 2 && dir.clusters == 2
    requires dir.Pos() == 16 && dir.block == 0 && dir.Cached()
    ensures dir.index == 16 && dir.volume.databufLba == 2
  {
    ListingChain(dir.volume);
    assert dir.current == 2;
    assert dir.volume.geometry.ClusterToSector(2) == 2;
  }

  lemma EachOnce(dir: Directory)
    requires dir.PerBlock() > 0
    ensures forall m, n | 0 <= m < n < |dir.Live()| :: dir.Live()[m] != dir.Live()[n]
  {
    ReportedExactly(dir.Slots(), 0);
  }

  /**
   The third request fails. The first call reports the one entry of the first cluster, the second one fails at the
   border, and the third one, meant to go on, reports the same entry again.
   */
  method ReportedTwice() returns (first: Slot, failure: Status, second: Slot, ghost dir: Directory)
    ensures fresh(dir) && dir.PerBlock() > 0 && |dir.Slots()| == 32
    ensures failure.DeviceError? && first == second == dir.Slots()[15]
    ensures forall m, n | 0 <= m < n < |dir.Live()| :: dir.Live()[m] != dir.Live()[n]
  {
    hide Directory.Slots, Volume.Follow, NextStop, Directory.StopsHere, Directory.FallsBack, Volume.LookupRequests;
    hide LongNamesStorable, Directory.ChainOf, IsReport, Directory.Resumes, LiveAt;
    var d := Listing(2);
    dir := d;
    AtFirst(d);
    var name := new Byte[256];
    var status, len := d.Iter(name);
    first := d.direntry;
    assert status.Success? && d.Pos() == 16;
    FirstReported(d);
    AtBorder(d);
    failure, len := d.Iter(name);
    AtFirst(d);
    status, len := d.Iter(name);
    second := d.direntry;
    EachOnce(d);
  }

  /** Deleted slots leave no pieces of names. */
  lemma {:induction false} NothingCollectedFrom(c: Collected, slots: seq<Slot>, q: nat)
    requires ValidCollected(c) && LongNamesStorable(slots) && q <= |slots|
    requires forall p | 0 <= p < q :: KindOf(slots[p]).Deleted?
    ensures CollectAll(c, slots[0..q]) == c
    decreases q
  {
    if q > 0 {
      CollectOneMore(c, slots, 0, q - 1);
      NothingCollectedFrom(c, slots, q - 1);
    } else {
      NothingCollected(c, slots, 0);
    }
  }

  lemma NameOfFirst(dir: Directory, wanted: seq<Byte>)
    requires OnListingDisk(dir.volume) && dir.head == 2 && dir.clusters == 2
    requires dir.PerBlock() == 16 && |dir.Slots()| == 32 && LongNamesStorable(dir.Slots())
    requires NextStop(dir.Slots(), 0) == 15 && LiveAt(dir.Slots(), 15) && wanted == ShortName(dir.Slots()[15])
    ensures |dir.Live()| > 0 && dir.Live()[0] == 15 && IsReport(dir.Slots(), 0, 15, wanted)
  {
    var slots := dir.Slots();
    forall p: nat | p < 15 ensures KindOf(slots[p]).Deleted? {
      ListingSlot(dir, p);
    }
    hide Directory.Slots, ShortName;
    var junk := seq(LFN_UNITS, _ => 0);
    NothingCollectedFrom(Collected(false, junk), slots, 15);
    ReportFrom(slots, 0, 15, Collected(false, junk), wanted);
  }

  lemma LastOfFirst(dir: Directory)
    requires dir.PerBlock() == 16 && |dir.Slots()| == 32
    ensures dir.Slots()[15] == dir.SlotAt(0, 15)
  {
  }

  /** The first request fails: the name of the first entry is not found, although that entry is there. */
  method NotFound() returns (status: Status, wanted: seq<Byte>, ghost dir: Directory)
    ensures fresh(dir) && dir.PerBlock() > 0 && |dir.Slots()| == 32 && LongNamesStorable(dir.Slots())
    ensures |dir.Live()| > 0 && dir.Live()[0] == 15 && IsReport(dir.Slots(), 0, 15, wanted)
    ensures status.EntryNotFound?
  {
    hide Directory.Slots, Volume.Follow, NextStop, Directory.StopsHere, Directory.FallsBack, Volume.LookupRequests;
    hide LongNamesStorable, Directory.ChainOf, IsReport, ShortName;
    var d := Listing(0);
    dir := d;
    ListingSlots(d);
    wanted := ShortName(d.SlotAt(0, 15));
    assert d.SlotAt(0, 15) == d.Slots()[15] by { d.PosInRange(); LastOfFirst(d); }
    NameOfFirst(d, wanted);
    ghost var names;
    status, names := d.MatchName(wanted);
  }
}
