/**
 The boot sector's loader: it reads eight sectors of a FAT12 table once and walks the kernel's chain
 in that flat copy, appending one cluster after the other.
 */
module FatLoader {
  import opened FatTable
  import opened FatVolume

  const LOADED_TABLE_BYTES := 4096

  /** The entry of cluster c lies within the loaded sectors. */
  predicate InLoadedTable(c: nat) {
    c * 3 / 2 + 1 < LOADED_TABLE_BYTES
  }

  function ClusterBytes(v: Volume, c: nat): seq<Byte> {
    seq(v.geometry.clusterSize, i requires 0 <= i => v.ClusterByte(c, i))
  }

  /** The contents of the first n clusters of the chain from c. */
  function ChainBytes(v: Volume, c: nat, n: nat): seq<Byte> {
    if n == 0 then [] else ChainBytes(v, c, n - 1) + ClusterBytes(v, v.Follow(c, n - 1))
  }

  /** The driver's lookup and the loader's agree on every entry the loader has. */
  lemma SameEntry(fat: Table, c: nat, b0: Byte, b1: Byte)
    requires b0 == fat(c * 3 / 2) && b1 == fat(c * 3 / 2 + 1)
    ensures Decode12(c, b0, b1) == Entry(Fat12, fat, c)
  {
    assert c * 3 / 2 == c + c / 2;
    Entry12(fat, c);
  }

  lemma BufferIsCluster(v: Volume, c: nat, buf: seq<Byte>)
    requires |buf| == v.geometry.clusterSize
    requires forall i | 0 <= i < |buf| :: buf[i] == v.disk(SECTOR_SIZE * v.geometry.ClusterToSector(c) + i)
    ensures buf == ClusterBytes(v, c)
  {
  }

  method NextInTable(v: Volume, sectBuf: array<Byte>, c: nat) returns (next: nat)
    requires v.geometry.fatType.Fat12? && InLoadedTable(c)
    requires sectBuf.Length == LOADED_TABLE_BYTES
    requires forall i | 0 <= i < LOADED_TABLE_BYTES :: sectBuf[i] == v.FatByte(i)
    ensures next == v.Follow(c, 1)
  {
    var b0, b1 := sectBuf[c * 3 / 2], sectBuf[c * 3 / 2 + 1];
    next := Decode12(c, b0, b1);
    SameEntry(v.Fat(), c, b0, b1);
    assert v.Follow(c, 1) == Entry(Fat12, v.Fat(), v.Follow(c, 0));
  }

  lemma NoChainBytes(v: Volume, c: nat)
    ensures ChainBytes(v, c, 0) == []
  {
  }

  lemma MoreChainBytes(v: Volume, c: nat, n: nat)
    ensures ChainBytes(v, c, n + 1) == ChainBytes(v, c, n) + ClusterBytes(v, v.Follow(c, n))
  {
  }

  /** Loads the n clusters of the chain from `start`. */
  method LoadChain(v: Volume, sectBuf: array<Byte>, start: nat, ghost n: nat)
    returns (status: Status, loaded: seq<Byte>)
    requires v.Valid() && v.geometry.fatType.Fat12?
    requires sectBuf.Length == LOADED_TABLE_BYTES
    requires forall i | 0 <= i < LOADED_TABLE_BYTES :: sectBuf[i] == v.FatByte(i)
    requires forall k | 0 <= k < n ::
               v.geometry.IsCluster(v.Follow(start, k)) && v.Follow(start, k) <= v.Max() &&
                 InLoadedTable(v.Follow(start, k))
    requires v.Follow(start, n) > v.Max()
    modifies v`requests
    ensures status.Success? || status.DeviceError?
    ensures status.Success? ==> loaded == ChainBytes(v, start, n)
    ensures status.DeviceError? <==> exists t | old(v.requests) <= t < v.requests :: v.fails(t)
  {
    hide Volume.FatByte, Volume.Follow, Volume.ClusterByte, ChainBytes, ClusterBytes;
    NoChainBytes(v, start);
    loaded := [];
    var current := start;
    var clusBuf := new Byte[v.geometry.clusterSize];
    ghost var k := 0;
    v.OneLinkOn(start, 0);
    while current <= v.Max()
      invariant k <= n && current == v.Follow(start, k)
      invariant loaded == ChainBytes(v, start, k)
      invariant old(v.requests) <= v.requests && forall t | old(v.requests) <= t < v.requests :: !v.fails(t)
      decreases n - k
    {
      status := v.DeviceRead(v.geometry.ClusterToSector(current), clusBuf, v.geometry.sectorsPerCluster);
      if !status.Success? {
        return;
      }
      BufferIsCluster(v, current, clusBuf[..]);
      MoreChainBytes(v, start, k);
      loaded := loaded + clusBuf[..];
      v.OneLinkOn(start, k);
      current := NextInTable(v, sectBuf, current);
      k := k + 1;
    }
    status := Success;
  }
}
