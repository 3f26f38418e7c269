/**
 A mounted FAT volume: its layout on the disk and the driver's two one-slot caches, one sector of
 the allocation table and one buffer shared by root-directory sectors and data clusters.
 */
module FatVolume {
  import opened Arithmetic
  import opened FatTable

  const SECTOR_SIZE := 512

  datatype Status = Success | InvalidValue | EndOfList | EndOfFile | DeviceError | EntryNotFound

  datatype Geometry = Geometry(
    fatType: FatType,
    reservedSectors: nat,
    sectorsPerCluster: nat,
    clusterSize: nat,
    dataBegin: nat,
    rootSectors: nat,
    clusterCount: nat)
  {
    /** The data clusters lie behind the root directory on FAT12 and FAT16; FAT32 has none. */
    function DataStart(): nat {
      dataBegin + if fatType.Fat32? then 0 else rootSectors
    }

    ghost predicate Valid() {
      && fatType == TypeOfVolume(clusterCount)
      && 1 <= sectorsPerCluster <= 64
      && clusterSize == SECTOR_SIZE * sectorsPerCluster
      && DataStart() + clusterCount * sectorsPerCluster < 0x1_0000_0000
    }

    ghost predicate IsCluster(c: nat) {
      2 <= c < clusterCount + 2
    }

    /** Where a cluster starts, in the driver's 32-bit arithmetic. */
    function ClusterToSector(c: int): nat {
      ((c - 2) * sectorsPerCluster + DataStart()) % 0x1_0000_0000
    }

    /** The sectors that read_sector is used for. */
    predicate InRootArea(lba: int) {
      !fatType.Fat32? && dataBegin <= lba < dataBegin + rootSectors
    }

    /** No cluster reaches past the volume, none starts in the root area, so a tag alone tells how
        many bytes of the shared buffer are filled. */
    lemma ClusterPlacement(c: nat)
      requires Valid() && IsCluster(c)
      ensures ClusterToSector(c) == (c - 2) * sectorsPerCluster + DataStart()
      ensures ClusterToSector(c) + sectorsPerCluster <= DataStart() + clusterCount * sectorsPerCluster
      ensures !InRootArea(ClusterToSector(c))
    {
      MulStrict(c - 2, clusterCount, sectorsPerCluster);
      MulMonotone(0, c - 2, sectorsPerCluster);
    }

    /** Distinct clusters share no sector. */
    lemma ClustersDisjoint(c: nat, d: nat)
      requires Valid() && IsCluster(c) && IsCluster(d) && c < d
      ensures ClusterToSector(c) + sectorsPerCluster <= ClusterToSector(d)
    {
      ClusterPlacement(c);
      ClusterPlacement(d);
      MulStrict(c - 2, d - 2, sectorsPerCluster);
    }
  }

  lemma ClustersFit(total: nat, front: nat, sectorsPerCluster: nat, n: nat)
    requires sectorsPerCluster > 0 && front <= total && n == (total - front) / sectorsPerCluster
    ensures front + n * sectorsPerCluster <= total < front + n * sectorsPerCluster + sectorsPerCluster
  {
    DivMod(total - front, sectorsPerCluster);
  }

  lemma RootFits(n: nat)
    ensures 512 * ((n * 32 + 511) / 512) - 512 < 32 * n <= 512 * ((n * 32 + 511) / 512)
  {
  }

  /** The fields of the boot sector that place the areas of the volume. */
  datatype BootSector = BootSector(
    reservedSectors: nat,
    fatCount: nat,
    fatSize: nat,
    rootEntryCount: nat,
    sectorsPerCluster: nat,
    totalSectors: nat)
  {
    function RootSectors(): (n: nat)
      ensures 512 * n - 512 < 32 * rootEntryCount <= 512 * n
    {
      RootFits(rootEntryCount);
      (rootEntryCount * 32 + (SECTOR_SIZE - 1)) / SECTOR_SIZE
    }

    function DataBegin(): nat {
      reservedSectors + fatCount * fatSize
    }

    /** Cluster size at most 32 KiB, areas in order, 32-bit sector numbers. */
    ghost predicate Valid() {
      && 1 <= sectorsPerCluster <= 64
      && DataBegin() + RootSectors() <= totalSectors < 0x1_0000_0000
    }

    /** How many clusters there is room for behind the root directory. */
    function ClusterCount(): (n: nat)
      requires Valid()
      ensures var used := DataBegin() + RootSectors() + n * sectorsPerCluster;
              used <= totalSectors < used + sectorsPerCluster
    {
      hide BootSector.RootSectors, BootSector.DataBegin;
      var front := DataBegin() + RootSectors();
      var n := (totalSectors - front) / sectorsPerCluster;
      ClustersFit(totalSectors, front, sectorsPerCluster, n);
      n
    }

    /** What mount computes and stores. The tables stand behind the reserved sectors, the root directory in the fewest
        sectors that hold it behind the tables, the clusters behind that, and less than a cluster is left over. */
    function Mount(): (g: Geometry)
      requires Valid()
      ensures g.Valid() && g.fatType == TypeOfVolume(g.clusterCount)
      ensures g.reservedSectors == reservedSectors && g.sectorsPerCluster == sectorsPerCluster
      ensures g.clusterSize == 512 * sectorsPerCluster
      ensures g.reservedSectors + fatCount * fatSize == g.dataBegin
      ensures 512 * g.rootSectors - 512 < 32 * rootEntryCount <= 512 * g.rootSectors
      ensures var used := g.dataBegin + g.rootSectors + g.clusterCount * sectorsPerCluster;
              used <= totalSectors < used + sectorsPerCluster
      ensures g.DataStart() + g.clusterCount * sectorsPerCluster <= totalSectors
    {
      hide BootSector.RootSectors, BootSector.ClusterCount;
      var count := ClusterCount();
      Geometry(TypeOfVolume(count), reservedSectors, sectorsPerCluster,
               SECTOR_SIZE * sectorsPerCluster, DataBegin(), RootSectors(), count)
    }

    /** On FAT12 and FAT16 just the root directory lies between the tables and cluster 2, on FAT32 nothing does. */
    lemma AreasInOrder()
      requires Valid()
      ensures var g, tables := Mount(), reservedSectors + fatCount * fatSize;
              && g.ClusterToSector(2) == tables + (if g.fatType.Fat32? then 0 else g.rootSectors)
              && forall lba: nat :: g.InRootArea(lba) <==> tables <= lba < g.ClusterToSector(2)
    {
      var g := Mount();
      MulMonotone(0, g.clusterCount, sectorsPerCluster);
      assert (2 - 2) * g.sectorsPerCluster == 0;
      assert g.ClusterToSector(2) == g.DataStart();
    }
  }

  class Volume {
    const geometry: Geometry
    /** The disk, byte by byte: sector s is the 512 bytes from 512 * s. */
    const disk: nat -> Byte
    /** Which of the requests sent to the device fail, in the order they are sent. */
    const fails: nat -> bool
    var requests: nat

    /** -1 names no sector. */
    var fatbufLba: int
    const fatbuf: array<Byte>
    var databufLba: int
    const databuf: array<Byte>

    /** How many bytes of the shared buffer a tag vouches for. */
    function Filled(lba: int): nat
    {
      if geometry.InRootArea(lba) then SECTOR_SIZE else geometry.clusterSize
    }

    /** The buffer starts with the n bytes found on the disk from sector lba. */
    ghost predicate Holds(buf: array<Byte>, lba: nat, n: nat)
      reads buf
    {
      n <= buf.Length && forall i | 0 <= i < n :: buf[i] == disk(SECTOR_SIZE * lba + i)
    }

    ghost predicate Valid()
      reads this, fatbuf, databuf
    {
      && geometry.Valid()
      && fatbuf.Length == SECTOR_SIZE
      && databuf.Length == geometry.clusterSize
      && fatbuf != databuf
      && -1 <= fatbufLba && -1 <= databufLba
      && (fatbufLba >= 0 ==> Holds(fatbuf, fatbufLba, SECTOR_SIZE))
      && (databufLba >= 0 ==> Holds(databuf, databufLba, Filled(databufLba)))
    }

    constructor (g: Geometry, disk: nat -> Byte, fails: nat -> bool)
      requires g.Valid()
      ensures Valid() && fresh(fatbuf) && fresh(databuf)
      ensures geometry == g && this.disk == disk && this.fails == fails && requests == 0
      ensures fatbufLba == databufLba == -1
    {
      geometry, this.disk, this.fails, requests := g, disk, fails, 0;
      fatbufLba, databufLba := -1, -1;
      fatbuf := new Byte[SECTOR_SIZE];
      databuf := new Byte[g.clusterSize];
    }

    // ---------- What the disk holds ----------

    function FatByte(i: nat): Byte {
      disk(SECTOR_SIZE * geometry.reservedSectors + i)
    }

    /** The allocation table on the disk. */
    function Fat(): Table {
      i => FatByte(i)
    }

    function ClusterByte(c: nat, i: nat): Byte
    {
      disk(SECTOR_SIZE * geometry.ClusterToSector(c) + i)
    }

    function Follow(c: nat, k: nat): nat
    {
      Nth(geometry.fatType, Fat(), c, k)
    }

    function Max(): nat
    {
      MaxCluster(geometry.fatType)
    }

    ghost predicate ReachesFrom(c: nat, n: nat)
    {
      Reaches(geometry.fatType, Fat(), c, n)
    }

    ghost predicate Healthy() {
      forall t :: !fails(t)
    }

    /** Every request numbered from `first` up to, not including, `last` went well. */
    ghost predicate NoFaults(first: nat, last: nat) {
      forall t | first <= t < last :: !fails(t)
    }

    // ---------- Coherence of the caches ----------

    /** One request to the block device; a failing one leaves the buffer alone. */
    method DeviceRead(lba: nat, buf: array<Byte>, count: nat) returns (status: Status)
      requires SECTOR_SIZE * count <= buf.Length
      modifies this`requests, buf
      ensures requests == old(requests) + 1
      ensures status == if fails(old(requests)) then DeviceError else Success
      ensures status.Success? ==> Holds(buf, lba, SECTOR_SIZE * count)
      ensures !status.Success? ==> forall i | 0 <= i < buf.Length :: buf[i] == old(buf[i])
    {
      status := if fails(requests) then DeviceError else Success;
      requests := requests + 1;
      if status.Success? {
        forall i | 0 <= i < SECTOR_SIZE * count {
          buf[i] := disk(SECTOR_SIZE * lba + i);
        }
      }
    }

    method ReadFat(fatSector: nat) returns (status: Status)
      requires Valid()
      modifies this`requests, this`fatbufLba, fatbuf
      ensures Valid()
      ensures status.Success? || status.DeviceError?
      ensures requests == old(requests) +
              if old(fatbufLba) == geometry.reservedSectors + fatSector then 0 else 1
      ensures status.Success? <==> NoFaults(old(requests), requests)
      ensures status.Success? ==>
              forall i | 0 <= i < SECTOR_SIZE :: fatbuf[i] == FatByte(SECTOR_SIZE * fatSector + i)
      ensures fatbufLba == if status.Success? then geometry.reservedSectors + fatSector else old(fatbufLba)
    {
      var lba := geometry.reservedSectors + fatSector;
      if fatbufLba != lba {
        status := DeviceRead(lba, fatbuf, 1);
        if !status.Success? {
          return;
        }
        fatbufLba := lba;
      }
      status := Success;
    }

    method ReadSector(lba: nat) returns (status: Status)
      requires Valid() && geometry.InRootArea(lba)
      modifies this`requests, this`databufLba, databuf
      ensures Valid()
      ensures status.Success? || status.DeviceError?
      ensures requests == old(requests) + if old(databufLba) == lba then 0 else 1
      ensures status.Success? <==> NoFaults(old(requests), requests)
      ensures status.Success? ==> Holds(databuf, lba, SECTOR_SIZE)
    {
      if databufLba != lba {
        status := DeviceRead(lba, databuf, 1);
        if !status.Success? {
          return;
        }
        databufLba := lba;
      }
      status := Success;
    }

    /** For every cluster that does not start in the root area, as all clusters of the volume do not. */
    method ReadCluster(c: nat) returns (status: Status)
      requires Valid() && !geometry.InRootArea(geometry.ClusterToSector(c))
      modifies this`requests, this`databufLba, databuf
      ensures Valid()
      ensures status.Success? || status.DeviceError?
      ensures requests == old(requests) + if old(databufLba) == geometry.ClusterToSector(c) then 0 else 1
      ensures status.Success? <==> NoFaults(old(requests), requests)
      ensures status.Success? ==>
              forall i | 0 <= i < geometry.clusterSize :: databuf[i] == ClusterByte(c, i)
      ensures databufLba == if status.Success? then geometry.ClusterToSector(c) else old(databufLba)
    {
      var lba := geometry.ClusterToSector(c);
      if databufLba != lba {
        status := DeviceRead(lba, databuf, geometry.sectorsPerCluster);
        if !status.Success? {
          return;
        }
        databufLba := lba;
      }
      status := Success;
    }

    // ---------- Looking entries up ----------

    /** The table sector with the first byte of an entry: there are 256 words or 128 double words in a sector. */
    function EntrySector(c: nat): nat {
      match geometry.fatType
      case Fat12 => (c + c / 2) / SECTOR_SIZE
      case Fat16 => c / 256
      case Fat32 => c / 128
    }

    predicate Straddles(c: nat) {
      geometry.fatType.Fat12? && (c + c / 2) % SECTOR_SIZE == SECTOR_SIZE - 1
    }

    /** How many requests the lookup of an entry needs. */
    function LookupRequests(c: nat): nat
      reads this`fatbufLba
    {
      (if fatbufLba == geometry.reservedSectors + EntrySector(c) then 0 else 1) + if Straddles(c) then 1 else 0
    }

    lemma Decoded12(c: nat)
      ensures Entry(Fat12, Fat(), c) == Decode12(c, FatByte(c + c / 2), FatByte(c + c / 2 + 1))
    {
      Entry12(Fat(), c);
    }

    lemma Decoded16(c: nat)
      ensures Entry(Fat16, Fat(), c) == Decode16(FatByte(2 * c), FatByte(2 * c + 1))
    {
      Entry16(Fat(), c);
    }

    lemma Decoded32(c: nat)
      ensures Entry(Fat32, Fat(), c)
           == Decode32(FatByte(4 * c), FatByte(4 * c + 1), FatByte(4 * c + 2), FatByte(4 * c + 3))
    {
      Entry32(Fat(), c);
    }

    /** One step of get_next_cluster12: an entry may straddle two sectors. */
    method Lookup12(c: nat) returns (status: Status, next: nat)
      requires Valid() && geometry.fatType.Fat12? && c <= Max()
      modifies this`requests, this`fatbufLba, fatbuf
      ensures Valid()
      ensures status.Success? || status.DeviceError?
      ensures old(requests) <= requests && (old(fatbufLba) == -1 ==> old(requests) < requests)
      ensures status.Success? <==> NoFaults(old(requests), requests)
      ensures status.Success? <==> NoFaults(old(requests), old(requests) + old(LookupRequests(c)))
      ensures status.Success? ==> requests == old(requests) + old(LookupRequests(c))
      ensures status.DeviceError? ==> next == c
      ensures status.Success? ==> next == Entry(Fat12, Fat(), c)
    {
      hide Entry, Decode12, FatByte;
      next := c;
      var byteIdx := c + c / 2;
      var sectorIdx := byteIdx / SECTOR_SIZE;
      byteIdx := byteIdx % SECTOR_SIZE;

      status := ReadFat(sectorIdx);
      if !status.Success? {
        return;
      }
      var b0, b1 := fatbuf[byteIdx], 0;
      if byteIdx == SECTOR_SIZE - 1 {
        status := ReadFat(sectorIdx + 1);
        if !status.Success? {
          return;
        }
        b1 := fatbuf[0];
      } else {
        b1 := fatbuf[byteIdx + 1];
      }
      next := Decode12(c, b0, b1);
      Decoded12(c);
    }

    method Lookup16(c: nat) returns (status: Status, next: nat)
      requires Valid() && geometry.fatType.Fat16? && c <= Max()
      modifies this`requests, this`fatbufLba, fatbuf
      ensures Valid()
      ensures status.Success? || status.DeviceError?
      ensures old(requests) <= requests && (old(fatbufLba) == -1 ==> old(requests) < requests)
      ensures status.Success? <==> NoFaults(old(requests), requests)
      ensures status.Success? <==> NoFaults(old(requests), old(requests) + old(LookupRequests(c)))
      ensures status.Success? ==> requests == old(requests) + old(LookupRequests(c))
      ensures status.DeviceError? ==> next == c
      ensures status.Success? ==> next == Entry(Fat16, Fat(), c)
    {
      hide Entry, Decode16, FatByte;
      next := c;
      var sectorIdx, entryIdx := c / 256, c % 256;
      status := ReadFat(sectorIdx);
      if !status.Success? {
        return;
      }
      var i := 2 * entryIdx;
      assert SECTOR_SIZE * sectorIdx + i == 2 * c;
      assert fatbuf[i] == FatByte(2 * c) && fatbuf[i + 1] == FatByte(2 * c + 1);
      next := Decode16(fatbuf[i], fatbuf[i + 1]);
      Decoded16(c);
    }

    method Lookup32(c: nat) returns (status: Status, next: nat)
      requires Valid() && geometry.fatType.Fat32? && c <= Max()
      modifies this`requests, this`fatbufLba, fatbuf
      ensures Valid()
      ensures status.Success? || status.DeviceError?
      ensures old(requests) <= requests && (old(fatbufLba) == -1 ==> old(requests) < requests)
      ensures status.Success? <==> NoFaults(old(requests), requests)
      ensures status.Success? <==> NoFaults(old(requests), old(requests) + old(LookupRequests(c)))
      ensures status.Success? ==> requests == old(requests) + old(LookupRequests(c))
      ensures status.DeviceError? ==> next == c
      ensures status.Success? ==> next == Entry(Fat32, Fat(), c)
    {
      hide Entry, Decode32, FatByte;
      next := c;
      var sectorIdx, entryIdx := c / 128, c % 128;
      status := ReadFat(sectorIdx);
      if !status.Success? {
        return;
      }
      var i := 4 * entryIdx;
      assert SECTOR_SIZE * sectorIdx + i == 4 * c;
      assert fatbuf[i] == FatByte(4 * c) && fatbuf[i + 1] == FatByte(4 * c + 1);
      assert fatbuf[i + 2] == FatByte(4 * c + 2) && fatbuf[i + 3] == FatByte(4 * c + 3);
      next := Decode32(fatbuf[i], fatbuf[i + 1], fatbuf[i + 2], fatbuf[i + 3]);
      Decoded32(c);
    }

    method Lookup(c: nat) returns (status: Status, next: nat)
      requires Valid() && c <= Max()
      modifies this`requests, this`fatbufLba, fatbuf
      ensures Valid()
      ensures status.Success? || status.DeviceError?
      ensures old(requests) <= requests && (old(fatbufLba) == -1 ==> old(requests) < requests)
      ensures status.Success? <==> NoFaults(old(requests), requests)
      ensures status.Success? <==> NoFaults(old(requests), old(requests) + old(LookupRequests(c)))
      ensures status.Success? ==> requests == old(requests) + old(LookupRequests(c))
      ensures status.DeviceError? ==> next == c
      ensures status.Success? ==> next == Follow(c, 1)
    {
      assert Follow(c, 1) == Entry(geometry.fatType, Fat(), Follow(c, 0));
      match geometry.fatType
      case Fat12 => status, next := Lookup12(c);
      case Fat16 => status, next := Lookup16(c);
      case Fat32 => status, next := Lookup32(c);
    }

    lemma FollowAdds(c: nat, k: nat, n: nat)
      ensures Follow(Follow(c, k), n) == Follow(c, k + n)
    {
      NthAdd(geometry.fatType, Fat(), c, k, n);
    }

    lemma OneLinkOn(start: nat, steps: nat)
      ensures Follow(Follow(start, steps), 1) == Follow(start, steps + 1)
      ensures ReachesFrom(start, steps + 1) <==> ReachesFrom(start, steps) && Follow(start, steps + 1) <= Max()
      ensures Follow(start, 0) == start && (ReachesFrom(start, 0) <==> start <= Max())
      ensures ReachesFrom(start, steps) ==> Follow(start, steps) <= Max()
    {
      OneMore(geometry.fatType, Fat(), start, steps);
    }

    /** Walks `count` links. Apart from a device error the walk succeeds exactly when no cluster on
        the way is an end mark; it stops on the first end mark. */
    method GetNextCluster(start: nat, count: nat) returns (status: Status, cluster: nat, ghost steps: nat)
      requires Valid()
      modifies this`requests, this`fatbufLba, fatbuf
      ensures Valid()
      ensures steps <= count && cluster == Follow(start, steps)
      ensures status.Success? || status.InvalidValue? || status.EndOfList? || status.DeviceError?
      ensures status.InvalidValue? <==> start > Max()
      ensures status.Success? ==> steps == count && ReachesFrom(start, count)
      ensures status.EndOfList? ==> 0 < steps && ReachesFrom(start, steps - 1) && cluster > Max()
      ensures old(requests) <= requests
      ensures old(fatbufLba) == -1 && start <= Max() && count > 0 ==> old(requests) < requests
      ensures status.DeviceError? <==> !NoFaults(old(requests), requests)
      ensures status.DeviceError? ==> steps < count && ReachesFrom(start, steps)
      ensures start <= Max() && count == 1 ==>
              (status.DeviceError? <==> !NoFaults(old(requests), old(requests) + old(LookupRequests(start))))
      ensures start <= Max() && count == 1 && !status.DeviceError? ==>
              requests == old(requests) + old(LookupRequests(start))
    {
      hide Follow, ReachesFrom, FatByte, EntrySector, Straddles;
      cluster, steps := start, 0;
      OneLinkOn(start, 0);
      if cluster > Max() {
        return InvalidValue, cluster, steps;
      }
      var remaining := count;
      while remaining > 0
        invariant Valid()
        invariant steps + remaining == count && cluster == Follow(start, steps)
        invariant ReachesFrom(start, steps) && cluster <= Max()
        invariant old(requests) <= requests && NoFaults(old(requests), requests)
        invariant old(fatbufLba) == -1 ==> if steps == 0 then fatbufLba == -1 else old(requests) < requests
        invariant steps == 0 ==> requests == old(requests) && fatbufLba == old(fatbufLba)
        invariant steps == 1 && count == 1 ==> requests == old(requests) + old(LookupRequests(start))
      {
        status, cluster := Lookup(cluster);
        if !status.Success? {
          return;
        }
        OneLinkOn(start, steps);
        steps, remaining := steps + 1, remaining - 1;
        if cluster > Max() {
          return EndOfList, cluster, steps;
        }
      }
      status := Success;
    }
  }
}
