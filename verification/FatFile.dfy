/**
 An open file: a cursor paired with the cluster the cursor is in. Reads go through the volume's
 caches; what the caller sees is a byte sequence with a cursor.
 */
module FatFile {
  import opened Arithmetic
  import opened FatTable
  import opened FatVolume

  datatype Origin = FromStart | FromCursor | FromEnd | OtherOrigin

  // ---------- Blocks ----------

  /** Going n bytes forward from x stays in the block or stops at the start of the next one. */
  lemma Forward(x: nat, n: nat, d: nat)
    requires d > 0 && x % d + n <= d
    ensures x % d + n < d ==> (x + n) / d == x / d && (x + n) % d == x % d + n
    ensures x % d + n == d ==> (x + n) / d == x / d + 1 && (x + n) % d == 0
  {
    assert x == x / d * d + x % d;
    if x % d + n < d {
      DivModUnique(x + n, x / d, x % d + n, d);
    } else {
      assert (x / d + 1) * d == x / d * d + d;
      DivModUnique(x + n, x / d + 1, 0, d);
    }
  }

  class File {
    const volume: Volume
    const head: nat
    const size: nat
    var current: nat
    var cursor: nat
    /** How many clusters `current` is behind the cursor. */
    ghost var lag: nat

    function BlockSize(): nat {
      volume.geometry.clusterSize
    }

    static ghost predicate IsDataCluster(v: Volume, c: nat)
    {
      v.geometry.IsCluster(c) && c <= v.Max()
    }

    /** The chain provides a data cluster for every byte of the file. */
    static ghost predicate CoversSize(v: Volume, head: nat, size: nat)
    {
      forall k: nat | k * v.geometry.clusterSize < size :: IsDataCluster(v, v.Follow(head, k))
    }

    /** Cluster number k of the file's chain. */
    function ClusterAt(k: nat): nat
    {
      volume.Follow(head, k)
    }

    ghost predicate Valid()
      reads this, volume, volume.fatbuf, volume.databuf
    {
      && volume.Valid()
      && size < 0x1_0000_0000
      && CoversSize(volume, head, size)
      && cursor <= size
      && lag <= cursor / BlockSize()
      && current == ClusterAt(cursor / BlockSize() - lag)
    }

    /** Opening a file whose chain covers its size. */
    constructor (v: Volume, head: nat, size: nat)
      requires v.Valid() && size < 0x1_0000_0000 && CoversSize(v, head, size)
      ensures Valid() && volume == v && this.head == head && this.size == size
      ensures cursor == 0 && lag == 0
    {
      volume, this.head, this.size, current, cursor, lag := v, head, size, head, 0, 0;
      new;
      assert 0 / BlockSize() == 0;
    }

    /** Byte i of the file when the chain position is `behind` clusters short. */
    function LaggedByte(i: nat, behind: nat): Byte
      requires BlockSize() > 0
    {
      var block := i / BlockSize();
      volume.ClusterByte(ClusterAt(if behind <= block then block - behind else 0), i % BlockSize())
    }

    /** The file's bytes, in order. */
    function Content(): (s: seq<Byte>)
      requires BlockSize() > 0
      ensures |s| == size
    {
      seq(size, i requires 0 <= i < size => LaggedByte(i, 0))
    }

    /** current is a data cluster while there is something left to read. */
    lemma CurrentIsData()
      requires Valid() && cursor < size
      ensures IsDataCluster(volume, current)
    {
      var b := BlockSize();
      assert cursor == cursor / b * b + cursor % b;
      MulMonotone(cursor / b - lag, cursor / b, b);
    }

    /** The bytes of the block under the cursor. */
    lemma BytesOfBlock(n: nat)
      requires Valid() && cursor % BlockSize() + n <= BlockSize()
      ensures forall j | cursor <= j < cursor + n ::
                LaggedByte(j, lag) == volume.ClusterByte(current, cursor % BlockSize() + (j - cursor))
    {
      forall j | cursor <= j < cursor + n
        ensures LaggedByte(j, lag) == volume.ClusterByte(current, cursor % BlockSize() + (j - cursor))
      {
        Forward(cursor, j - cursor, BlockSize());
      }
    }

    /** buf[at..at + n] holds the n bytes from position `from`, `behind` clusters short. */
    ghost predicate Delivered(buf: array<Byte>, at: nat, from: nat, n: nat, behind: nat)
      reads buf
    {
      && BlockSize() > 0
      && at + n <= buf.Length
      && forall p | at <= p < at + n :: buf[p] == LaggedByte(from + (p - at), behind)
    }

    /** The step to the next cluster after the last byte of a block. A device error leaves `current`
        one more cluster behind. */
    method NextBlock() returns (more: bool)
      requires volume.Valid() && size < 0x1_0000_0000 && CoversSize(volume, head, size)
      requires cursor <= size && lag < cursor / BlockSize() && current <= volume.Max()
      requires current == ClusterAt(cursor / BlockSize() - 1 - lag)
      modifies this`current, this`lag, volume`requests, volume`fatbufLba, volume.fatbuf
      ensures Valid()
      ensures old(volume.requests) <= volume.requests
      ensures lag == old(lag) + if volume.NoFaults(old(volume.requests), volume.requests) then 0 else 1
      ensures more ==> lag == old(lag)
      ensures !more && lag == old(lag) ==> cursor == size
      ensures old(volume.fatbufLba) == -1 ==> old(volume.requests) < volume.requests
    {
      hide CoversSize, Volume.Follow, Volume.ReachesFrom;
      ghost var block := cursor / BlockSize();
      ghost var k := block - 1 - lag;
      var status, next, steps := volume.GetNextCluster(current, 1);
      current, more := next, status.Success?;
      volume.FollowAdds(head, k, steps);
      if status.DeviceError? {
        lag := lag + 1;
      }
      assert block - lag == k + steps;
      if !more && steps == 1 && cursor < size {
        CurrentIsData();
      }
    }

    /** Moves the cursor n bytes on, into the next block when this one is exhausted. */
    method Advance(n: nat) returns (more: bool)
      requires Valid() && cursor + n <= size && cursor < size
      requires 0 < n && cursor % BlockSize() + n <= BlockSize()
      modifies this`cursor, this`current, this`lag, volume`requests, volume`fatbufLba, volume.fatbuf
      ensures Valid() && cursor == old(cursor) + n
      ensures old(volume.requests) <= volume.requests
      ensures lag == old(lag) + if volume.NoFaults(old(volume.requests), volume.requests) then 0 else 1
      ensures more ==> lag == old(lag)
      ensures !more && lag == old(lag) ==> cursor == size
      ensures old(cursor) % BlockSize() + n == BlockSize() && old(volume.fatbufLba) == -1 ==>
              old(volume.requests) < volume.requests
    {
      CurrentIsData();
      Forward(cursor, n, BlockSize());
      var offset := cursor % BlockSize();
      cursor, more := cursor + n, true;
      if offset + n == BlockSize() {
        more := NextBlock();
      }
    }

    /** Fetches the current cluster and copies n bytes of it from under the cursor. */
    method CopyFromBlock(buf: array<Byte>, at: nat, n: nat) returns (status: Status)
      requires Valid() && cursor < size && at + n <= buf.Length
      requires cursor % BlockSize() + n <= BlockSize()
      requires buf != volume.fatbuf && buf != volume.databuf
      modifies volume`requests, volume`databufLba, volume.databuf, buf
      ensures Valid()
      ensures status.Success? || status.DeviceError?
      ensures status.Success? ==> Delivered(buf, at, cursor, n, lag)
      ensures forall p | 0 <= p < buf.Length && !(status.Success? && at <= p < at + n) :: buf[p] == old(buf[p])
      ensures old(volume.requests) <= volume.requests
      ensures status.Success? <==> volume.NoFaults(old(volume.requests), volume.requests)
      ensures old(volume.databufLba) == -1 ==> volume.requests == old(volume.requests) + 1
    {
      hide Volume.ClusterByte, CoversSize, LaggedByte, ClusterAt, Volume.Follow;
      CurrentIsData();
      volume.geometry.ClusterPlacement(current);
      var offset := cursor % BlockSize();
      status := volume.ReadCluster(current);
      if status.Success? {
        BytesOfBlock(n);
        forall p | at <= p < at + n {
          buf[p] := volume.databuf[offset + (p - at)];
        }
      }
    }

    /** How much a read of len bytes should deliver. */
    function Available(len: nat): nat
      requires Valid()
      reads this, volume, volume.fatbuf, volume.databuf
    {
      if cursor + len >= size then size - cursor else len
    }

    /** A read of len bytes that, from cold caches, gets its first cluster but not the table entry
        it needs at the end of that cluster. */
    ghost predicate FirstLookupFails(len: nat)
      requires Valid()
      reads this, volume, volume.fatbuf, volume.databuf
    {
      && volume.databufLba == volume.fatbufLba == -1
      && cursor < size && cursor % BlockSize() + Available(len) >= BlockSize()
      && !volume.fails(volume.requests) && volume.fails(volume.requests + 1)
    }

    /** One round of the read loop: at most one cluster's worth of bytes, then the step to the next
        cluster. When that step fails the loop is left although the bytes were delivered. */
    method ReadChunk(buf: array<Byte>, at: nat, len: nat) returns (status: Status, n: nat, more: bool)
      requires Valid() && 0 < len <= size - cursor && at + len <= buf.Length
      requires buf != volume.fatbuf && buf != volume.databuf
      modifies this, volume, volume.fatbuf, volume.databuf, buf
      ensures Valid()
      ensures status.Success? || status.DeviceError?
      ensures n <= len && cursor == old(cursor) + n
      ensures Delivered(buf, at, old(cursor), n, old(lag))
      ensures forall p | 0 <= p < buf.Length && !(at <= p < at + n) :: buf[p] == old(buf[p])
      ensures old(volume.requests) <= volume.requests
      ensures status.DeviceError? ==>
              lag == old(lag) && !more && !volume.NoFaults(old(volume.requests), volume.requests)
      ensures status.Success? ==> n > 0
      ensures status.Success? ==>
              lag == old(lag) + if volume.NoFaults(old(volume.requests), volume.requests) then 0 else 1
      ensures status.Success? && !more && lag == old(lag) ==> n == len
      ensures more ==> lag == old(lag)
      ensures old(FirstLookupFails(len)) ==> status.Success? && lag == old(lag) + 1
    {
      var offset := cursor % BlockSize();
      n := if BlockSize() - offset > len then len else BlockSize() - offset;
      status := CopyFromBlock(buf, at, n);
      if !status.Success? {
        return status, 0, false;
      }
      more := Advance(n);
    }

    /** The read loop. */
    method ReadRounds(buf: array<Byte>, len: nat) returns (status: Status, result: nat)
      requires Valid() && len <= size - cursor && len <= buf.Length
      requires buf != volume.fatbuf && buf != volume.databuf
      modifies this, volume, volume.fatbuf, volume.databuf, buf
      ensures Valid()
      ensures status.Success? || status.DeviceError?
      ensures result <= len && cursor == old(cursor) + result
      ensures Delivered(buf, 0, old(cursor), result, old(lag))
      ensures forall p | result <= p < buf.Length :: buf[p] == old(buf[p])
      ensures old(volume.requests) <= volume.requests
      ensures lag == old(lag) +
              if status.DeviceError? || volume.NoFaults(old(volume.requests), volume.requests) then 0 else 1
      ensures status.Success? && lag == old(lag) ==> result == len
      ensures status.DeviceError? ==> !volume.NoFaults(old(volume.requests), volume.requests)
      ensures len > 0 && old(FirstLookupFails(len)) ==> status.Success? && lag == old(lag) + 1
    {
      hide LaggedByte, CoversSize, ClusterAt, FirstLookupFails;
      ghost var trap := len > 0 && FirstLookupFails(len);
      var remaining, more := len, true;
      result := 0;
      while remaining > 0 && more
        invariant Valid()
        invariant cursor == old(cursor) + result && result + remaining == len
        invariant Delivered(buf, 0, old(cursor), result, old(lag))
        invariant forall p | result <= p < buf.Length :: buf[p] == old(buf[p])
        invariant old(volume.requests) <= volume.requests
        invariant lag == old(lag) + if volume.NoFaults(old(volume.requests), volume.requests) then 0 else 1
        invariant more ==> lag == old(lag)
        invariant !more && lag == old(lag) ==> remaining == 0
        invariant trap ==> if result == 0 then more && FirstLookupFails(remaining) && remaining > 0
                           else !more && lag == old(lag) + 1
        decreases remaining, more
      {
        var n;
        status, n, more := ReadChunk(buf, result, remaining);
        remaining, result := remaining - n, result + n;
        if !status.Success? {
          return;
        }
      }
      status := Success;
    }

    /** Reads up to len bytes from the cursor. Whatever happens, the bytes delivered are those the
        chain position stands for and the cursor has moved over exactly them. A read reported as a
        success keeps the chain position in step exactly when none of its device requests failed. */
    method Read(buf: array<Byte>, len: nat) returns (status: Status, result: nat)
      requires Valid() && len <= buf.Length && cursor + len < 0x1_0000_0000
      requires buf != volume.fatbuf && buf != volume.databuf
      modifies this, volume, volume.fatbuf, volume.databuf, buf
      ensures Valid()
      ensures status.Success? || status.DeviceError? || status.EndOfFile?
      ensures status.EndOfFile? <==> old(cursor) == size
      ensures status.EndOfFile? ==> cursor == old(cursor) && current == old(current) && lag == old(lag)
      ensures old(cursor) <= cursor <= old(cursor) + old(Available(len))
      ensures Delivered(buf, 0, old(cursor), cursor - old(cursor), old(lag))
      ensures forall p | cursor - old(cursor) <= p < buf.Length :: buf[p] == old(buf[p])
      ensures old(volume.requests) <= volume.requests
      ensures status.Success? ==> result == cursor - old(cursor)
      ensures status.Success? ==>
              lag == old(lag) + if volume.NoFaults(old(volume.requests), volume.requests) then 0 else 1
      ensures status.Success? && lag == old(lag) ==> result == old(Available(len))
      ensures status.DeviceError? ==>
              lag == old(lag) && !volume.NoFaults(old(volume.requests), volume.requests)
      ensures old(len > 0 && FirstLookupFails(len)) ==> status.Success? && lag == old(lag) + 1
    {
      hide LaggedByte, CoversSize, ClusterAt;
      if cursor >= size {
        return EndOfFile, 0;
      }
      var most := if cursor + len >= size then size - cursor else len;
      status, result := ReadRounds(buf, most);
    }

    // ---------- seek and tell ----------

    /** The position a seek asks for, before clamping to the file size. */
    function Target(offset: int, origin: Origin): int
      reads this`cursor
    {
      match origin
      case FromStart => offset
      case FromCursor => cursor + offset
      case FromEnd => size + offset
      case OtherOrigin => -1
    }

    /** The position a seek lands on. */
    function Clamp(target: nat): nat {
      if target > size then size else target
    }

    function BlockOf(p: nat): (k: nat)
      requires BlockSize() > 0
    {
      DivMonotone(0, p, BlockSize());
      p / BlockSize()
    }

    /** The chain has a cluster for position p. */
    ghost predicate Reachable(p: nat)
      requires BlockSize() > 0
    {
      volume.ReachesFrom(head, BlockOf(p))
    }

    lemma BlockOfIs(p: nat)
      requires BlockSize() > 0
      ensures BlockOf(p) == p / BlockSize()
    {
    }

    /** A walk that met an end mark did not reach further. */
    lemma ReachesFewer(c: nat, n: nat, k: nat)
      ensures volume.ReachesFrom(c, n) && k <= n ==> volume.Follow(c, k) <= volume.Max()
      ensures volume.ReachesFrom(c, n) ==> c <= volume.Max()
    {
      assert volume.Follow(c, 0) == c;
    }

    /** Moves cursor and cluster together, or neither. Unless the device fails, exactly the targets
        that are not negative and that the chain reaches are accepted. */
    method Seek(offset: int, origin: Origin) returns (status: Status)
      requires Valid()
      modifies this`current, this`cursor, this`lag
      modifies volume`requests, volume`fatbufLba, volume.fatbuf
      ensures Valid()
      ensures old(volume.requests) <= volume.requests
      ensures status.Success? || status.InvalidValue? || status.EndOfList? || status.DeviceError?
      ensures !status.Success? ==> cursor == old(cursor) && current == old(current) && lag == old(lag)
      ensures status.Success? ==> lag == 0
      ensures var t := old(Target(offset, origin));
              if t < 0 then status.InvalidValue? && volume.requests == old(volume.requests)
              else && (status.Success? ==> cursor == Clamp(t))
                   && (status.DeviceError? <==> !volume.NoFaults(old(volume.requests), volume.requests))
                   && (status.Success? <==> !status.DeviceError? && Reachable(Clamp(t)))
                   && (status.InvalidValue? <==> head > volume.Max())
    {
      hide BlockOf, Volume.Follow, Volume.ReachesFrom, CoversSize;
      var newCursor := Target(offset, origin);
      if newCursor < 0 {
        return InvalidValue;
      }
      if newCursor > size {
        newCursor := size;
      }
      var cluster;
      ghost var steps;
      status, cluster, steps := volume.GetNextCluster(head, BlockOf(newCursor));
      ReachesFewer(head, BlockOf(newCursor), steps);
      if !status.Success? {
        return;
      }
      current, cursor, lag := cluster, newCursor, 0;
      BlockOfIs(cursor);
    }

    method Tell() returns (result: nat)
      requires Valid()
      ensures result == cursor
    {
      result := cursor;
    }
  }
}
