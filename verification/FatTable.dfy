/**
 The file allocation table as a mathematical object: an endless byte string cut into entries of
 12, 16 or 32 bits, and the cluster chains those entries link together.
 */
module FatTable {
  import opened Arithmetic

  type Byte = b: int | 0 <= b < 256

  /** The bytes of the table, numbered from its first byte on the disk. */
  type Table = nat -> Byte

  datatype FatType = Fat12 | Fat16 | Fat32

  /** Cluster numbers above this value end a chain. */
  function MaxCluster(t: FatType): nat {
    match t
    case Fat12 => 0xFF4
    case Fat16 => 0xFFF4
    case Fat32 => 0x0FFFFFF6
  }

  /** The type of a volume follows from its cluster count alone. */
  function TypeOfVolume(clusterCount: nat): FatType {
    if clusterCount <= MaxCluster(Fat12) then Fat12
    else if clusterCount <= MaxCluster(Fat16) then Fat16
    else Fat32
  }

  /** Clusters are numbered from 2, so the last one is clusterCount + 1. A chain can name every
      cluster of the volume exactly when the count stays below the maximum: the last cluster of a
      FAT12 or FAT16 volume of maximal size reads as an end mark, and so it does on every FAT32 volume
      that has more clusters than 28-bit entries can name. */
  lemma LastClusterIsUsable(clusterCount: nat)
    ensures var t := TypeOfVolume(clusterCount);
            clusterCount + 1 <= MaxCluster(t) <==>
            clusterCount != 0xFF4 && clusterCount != 0xFFF4 && clusterCount < 0x0FFFFFF6
  {
  }

  // ---------- Packed entries ----------

  /** Half-byte number k of the table, the low half of each byte first. */
  function Nibble(fat: Table, k: nat): (d: nat)
    ensures d < 16
  {
    if k % 2 == 0 then fat(k / 2) % 16 else fat(k / 2) / 16
  }

  /** The number whose hexadecimal digits, least significant first, are `count` half-bytes. */
  function Number(fat: Table, first: nat, count: nat): nat
    decreases first + count, count
  {
    if count == 0 then 0 else Nibble(fat, first) + 16 * Number(fat, first + 1, count - 1)
  }

  function NibblesPerEntry(t: FatType): nat {
    match t
    case Fat12 => 3
    case Fat16 => 4
    case Fat32 => 8
  }

  /** The top half-byte of a 32-bit entry is reserved. */
  function SignificantNibbles(t: FatType): nat {
    match t
    case Fat12 => 3
    case Fat16 => 4
    case Fat32 => 7
  }

  /** Entry n: entries lie back to back without padding. */
  function Entry(t: FatType, fat: Table, n: nat): nat {
    Number(fat, NibblesPerEntry(t) * n, SignificantNibbles(t))
  }

  /** A 12-bit entry from the two bytes the driver fetches for it. */
  function Decode12(n: nat, b0: Byte, b1: Byte): nat {
    if n % 2 == 1 then b0 / 16 + 16 * b1 else b0 + 256 * (b1 % 16)
  }

  function Decode16(b0: Byte, b1: Byte): nat {
    var low: nat, high: nat := b0, b1;
    low + 256 * high
  }

  function Decode32(b0: Byte, b1: Byte, b2: Byte, b3: Byte): nat {
    (Decode16(b0, b1) + 0x10000 * Decode16(b2, b3)) % 0x10000000
  }

  lemma Entry12(fat: Table, n: nat)
    ensures Entry(Fat12, fat, n) == Decode12(n, fat(n + n / 2), fat(n + n / 2 + 1))
  {
    var k := 3 * n;
    assert Number(fat, k, 3) == Nibble(fat, k) + 16 * Number(fat, k + 1, 2);
    assert Number(fat, k + 1, 2) == Nibble(fat, k + 1) + 16 * Number(fat, k + 2, 1);
    assert Number(fat, k + 2, 1) == Nibble(fat, k + 2) + 16 * Number(fat, k + 3, 0);
    if n % 2 == 0 {
      assert k / 2 == n + n / 2 && (k + 1) / 2 == n + n / 2 && (k + 2) / 2 == n + n / 2 + 1;
    } else {
      assert k / 2 == n + n / 2 && (k + 1) / 2 == n + n / 2 + 1 && (k + 2) / 2 == n + n / 2 + 1;
    }
  }

  /** Two half-bytes that share a byte. */
  lemma WholeByte(fat: Table, i: nat, count: nat)
    requires count >= 2
    ensures Number(fat, 2 * i, count) == fat(i) + 256 * Number(fat, 2 * i + 2, count - 2)
  {
    assert Number(fat, 2 * i, count) == Nibble(fat, 2 * i) + 16 * Number(fat, 2 * i + 1, count - 1);
    assert (2 * i + 1) / 2 == i && (2 * i) / 2 == i;
  }

  lemma Entry16(fat: Table, n: nat)
    ensures Entry(Fat16, fat, n) == Decode16(fat(2 * n), fat(2 * n + 1))
  {
    WholeByte(fat, 2 * n, 4);
    WholeByte(fat, 2 * n + 1, 2);
  }

  lemma DropTopNibble(low: nat, top: nat)
    requires low < 0x1000000
    ensures (low + 0x1000000 * top) % 0x10000000 == low + 0x1000000 * (top % 16)
  {
    var high, rest := top / 16, top % 16;
    assert top == 16 * high + rest;
    DivModUnique(low + 0x1000000 * top, high, low + 0x1000000 * rest, 0x10000000);
  }

  lemma LastNibble(fat: Table, i: nat)
    ensures Number(fat, 2 * i, 1) == fat(i) % 16
  {
    assert (2 * i) / 2 == i;
    assert Number(fat, 2 * i + 1, 0) == 0;
  }

  /** The seven significant half-bytes of a 32-bit entry. */
  lemma SevenNibbles(fat: Table, i: nat)
    ensures Number(fat, 2 * i, 7)
         == fat(i) + 256 * fat(i + 1) + 0x10000 * fat(i + 2) + 0x1000000 * (fat(i + 3) % 16)
  {
    hide Number;
    assert 2 * (i + 1) == 2 * i + 2 && 2 * (i + 2) == 2 * i + 4 && 2 * (i + 3) == 2 * i + 6;
    WholeByte(fat, i, 7);
    WholeByte(fat, i + 1, 5);
    WholeByte(fat, i + 2, 3);
    LastNibble(fat, i + 3);
  }

  lemma Entry32(fat: Table, n: nat)
    ensures Entry(Fat32, fat, n) == Decode32(fat(4 * n), fat(4 * n + 1), fat(4 * n + 2), fat(4 * n + 3))
  {
    var i := 4 * n;
    SevenNibbles(fat, i);
    DropTopNibble(Decode16(fat(i), fat(i + 1)) + 0x10000 * fat(i + 2), fat(i + 3));
  }

  lemma ThreeBytes(even: nat, odd: nat)
    requires even < 0x1000 && odd < 0x1000
    ensures var b1 := even / 256 + 16 * (odd % 16);
      even % 256 + 256 * (b1 % 16) == even && b1 / 16 + 16 * (odd / 16) == odd
  {
    var b1 := even / 256 + 16 * (odd % 16);
    assert even / 256 < 16;
    assert b1 % 16 == even / 256 && b1 / 16 == odd % 16;
  }

  /** Two 12-bit entries packed into three bytes are read back. */
  lemma Packed12ReadsBack(fat: Table, i: nat, even: nat, odd: nat)
    requires even < 0x1000 && odd < 0x1000
    requires fat(3 * i) == even % 256 && fat(3 * i + 1) == even / 256 + 16 * (odd % 16) && fat(3 * i + 2) == odd / 16
    ensures Entry(Fat12, fat, 2 * i) == even && Entry(Fat12, fat, 2 * i + 1) == odd
  {
    ThreeBytes(even, odd);
    Entry12(fat, 2 * i);
    Entry12(fat, 2 * i + 1);
    hide Entry;
    assert 2 * i + 2 * i / 2 == 3 * i && 2 * i + 1 + (2 * i + 1) / 2 == 3 * i + 1;
    assert (2 * i) % 2 == 0 && (2 * i + 1) % 2 == 1;
  }

  /** An entry of 16 bits is stored with its low byte first. */
  lemma Packed16ReadsBack(fat: Table, n: nat, e: nat)
    requires e < 0x10000 && fat(2 * n) == e % 256 && fat(2 * n + 1) == e / 256
    ensures Entry(Fat16, fat, n) == e
  {
    Entry16(fat, n);
  }

  lemma FourBytes(e: nat)
    requires e < 0x1000_0000
    ensures e % 256 + 256 * (e / 256 % 256) + 0x10000 * (e / 0x10000 % 256) + 0x100_0000 * (e / 0x100_0000) == e
    ensures e / 0x100_0000 < 16
  {
    assert e / 256 / 256 == e / 0x10000 && e / 0x10000 / 256 == e / 0x100_0000;
  }

  lemma LowNibble(low: nat, top: nat)
    requires low < 16
    ensures (low + 16 * top) % 16 == low
  {
  }

  /** So is one of 28 bits; the top four bits on the disk do not count. */
  lemma Packed32ReadsBack(fat: Table, n: nat, e: nat, top: nat)
    requires e < 0x1000_0000 && fat(4 * n) == e % 256 && fat(4 * n + 1) == e / 256 % 256
    requires fat(4 * n + 2) == e / 0x10000 % 256 && fat(4 * n + 3) == e / 0x100_0000 + 16 * top
    ensures Entry(Fat32, fat, n) == e
  {
    FourBytes(e);
    LowNibble(e / 0x100_0000, top);
    SevenNibbles(fat, 4 * n);
    hide Number;
    assert 2 * (4 * n) == 8 * n;
  }

  // ---------- Chains ----------

  /** The cluster reached from c after k lookups. */
  function Nth(t: FatType, fat: Table, c: nat, k: nat): nat {
    if k == 0 then c else Entry(t, fat, Nth(t, fat, c, k - 1))
  }

  /** None of the first n + 1 clusters of the chain from c is an end mark. */
  ghost predicate Reaches(t: FatType, fat: Table, c: nat, n: nat) {
    forall k | 0 <= k <= n :: Nth(t, fat, c, k) <= MaxCluster(t)
  }

  /** Lookups compose. */
  lemma {:induction false} NthAdd(t: FatType, fat: Table, c: nat, j: nat, k: nat)
    ensures Nth(t, fat, Nth(t, fat, c, j), k) == Nth(t, fat, c, j + k)
  {
    if k > 0 {
      NthAdd(t, fat, c, j, k - 1);
    }
  }

  /** One more link. */
  lemma OneMore(t: FatType, fat: Table, c: nat, n: nat)
    ensures Nth(t, fat, Nth(t, fat, c, n), 1) == Nth(t, fat, c, n + 1)
    ensures Reaches(t, fat, c, n + 1) <==> Reaches(t, fat, c, n) && Nth(t, fat, c, n + 1) <= MaxCluster(t)
  {
    NthAdd(t, fat, c, n, 1);
  }

  /** A chain that returns to its start never ends: whatever is below the maximum stays below. */
  lemma {:induction false} CycleNeverEnds(t: FatType, fat: Table, c: nat, p: nat, n: nat)
    requires p > 0 && Nth(t, fat, c, p) == c && Reaches(t, fat, c, p)
    ensures Reaches(t, fat, c, n)
    decreases n
  {
    if n > p {
      CycleNeverEnds(t, fat, c, p, n - p);
      forall k | 0 <= k <= n
        ensures Nth(t, fat, c, k) <= MaxCluster(t)
      {
        if k > p {
          NthAdd(t, fat, c, p, k - p);
        }
      }
    }
  }

  /** Hence the clusters of a chain that ends are pairwise different. */
  lemma EndingChainHasNoRepeat(t: FatType, fat: Table, c: nat, n: nat, i: nat, j: nat)
    requires i < j <= n && Reaches(t, fat, c, n) && Nth(t, fat, c, n + 1) > MaxCluster(t)
    ensures Nth(t, fat, c, i) != Nth(t, fat, c, j)
  {
    var d := Nth(t, fat, c, i);
    if d == Nth(t, fat, c, j) {
      forall k | 0 <= k <= j - i
        ensures Nth(t, fat, d, k) <= MaxCluster(t)
      {
        NthAdd(t, fat, c, i, k);
      }
      NthAdd(t, fat, c, i, j - i);
      CycleNeverEnds(t, fat, d, j - i, n + 1 - i);
      NthAdd(t, fat, c, i, n + 1 - i);
    }
  }
}
