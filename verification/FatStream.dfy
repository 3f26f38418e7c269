/**
 What a caller sees of an open file: a byte sequence with a cursor. Every run of seek, read and tell
 on a volume whose device never fails is a run of this sequence.
 */
module FatStream {
  import opened Arithmetic
  import opened FatTable
  import opened FatVolume
  import opened FatFile

  datatype Op = Read(len: nat) | Seek(offset: int, origin: Origin) | Tell

  datatype Outcome = Bytes(data: seq<Byte>) | Position(at: nat) | Done | Refused(status: Status)

  /** `endReachable`: the chain has a cluster for the position just behind the last byte. */
  datatype Stream = Stream(content: seq<Byte>, at: nat, endReachable: bool) {

    function Target(offset: int, origin: Origin): int {
      match origin
      case FromStart => offset
      case FromCursor => at + offset
      case FromEnd => |content| + offset
      case OtherOrigin => -1
    }

    function Step(op: Op): (Stream, Outcome)
      requires at <= |content|
    {
      match op
      case Read(len) =>
        if at == |content| then (this, Refused(EndOfFile))
        else
          var end := if at + len > |content| then |content| else at + len;
          (this.(at := end), Bytes(content[at..end]))
      case Seek(offset, origin) =>
        var t := Target(offset, origin);
        if t < 0 then (this, Refused(InvalidValue))
        else if t < |content| then (this.(at := t), Done)
        else if endReachable then (this.(at := |content|), Done)
        else (this, Refused(EndOfList))
      case Tell => (this, Position(at))
    }

    /** The outcomes of a run. */
    function Run(ops: seq<Op>): seq<Outcome>
      requires at <= |content|
      decreases |ops|
    {
      if ops == [] then [] else
        var (next, outcome) := Step(ops[0]);
        [outcome] + next.Run(ops[1..])
    }
  }

  // ---------- What a caller can rely on ----------

  ghost predicate InStep(f: File)
    reads f, f.volume, f.volume.fatbuf, f.volume.databuf
  {
    f.Valid() && f.lag == 0 && f.head <= f.volume.Max()
  }

  /** Over every run the driver is a byte sequence with a cursor. */
  method Run(f: File, ops: seq<Op>) returns (outcomes: seq<Outcome>)
    requires InStep(f) && f.volume.Healthy()
    requires forall op | op in ops && op.Read? :: f.size + op.len < 0x1_0000_0000
    modifies f, f.volume, f.volume.fatbuf, f.volume.databuf
    ensures InStep(f)
    ensures outcomes == old(View(f)).Run(ops)
  {
    if ops == [] {
      return [];
    }
    var outcome;
    match ops[0] {
      case Read(len) => outcome := DoRead(f, len);
      case Seek(offset, origin) => outcome := DoSeek(f, offset, origin);
      case Tell =>
        var at := f.Tell();
        outcome := Position(at);
    }
    assert (View(f), outcome) == old(View(f)).Step(ops[0]);
    var rest := Run(f, ops[1..]);
    outcomes := [outcome] + rest;
  }

  lemma RunTwo(s: Stream, a: Op, b: Op)
    requires s.at <= |s.content|
    ensures s.Step(a).0.at <= |s.content| && s.Step(a).0.content == s.content
    ensures s.Run([a, b]) == [s.Step(a).1, s.Step(a).0.Step(b).1]
  {
    assert [a, b][1..] == [b] && [b][1..] == [];
    assert s.Step(a).0.Run([b]) == [s.Step(a).0.Step(b).1] + s.Step(a).0.Step(b).0.Run([]);
  }

  /** Every position inside the file is reached from the start, from the cursor and from the end. */
  lemma SeekArrives(s: Stream, p: nat)
    requires s.at <= |s.content| && p < |s.content|
    ensures forall seek | seek in [Seek(p, FromStart), Seek(p - s.at, FromCursor), Seek(p - |s.content|, FromEnd)] ::
              s.Run([seek, Tell]) == [Done, Position(p)]
  {
    forall seek | seek in [Seek(p, FromStart), Seek(p - s.at, FromCursor), Seek(p - |s.content|, FromEnd)]
      ensures s.Run([seek, Tell]) == [Done, Position(p)]
    {
      RunTwo(s, seek, Tell);
    }
  }

  function Reads(lens: seq<nat>): (ops: seq<Op>)
    ensures |ops| == |lens|
  {
    if lens == [] then [] else [Read(lens[0])] + Reads(lens[1..])
  }

  function Sum(lens: seq<nat>): nat {
    if lens == [] then 0 else lens[0] + Sum(lens[1..])
  }

  /** The bytes delivered, one read behind the other. */
  function Delivered(outcomes: seq<Outcome>): seq<Byte> {
    if outcomes == [] then []
    else (if outcomes[0].Bytes? then outcomes[0].data else []) + Delivered(outcomes[1..])
  }

  lemma OneRead(s: Stream, len: nat)
    requires s.at <= |s.content|
    ensures var (next, outcome) := s.Step(Read(len));
      && next.content == s.content && next.at == (if s.at + len <= |s.content| then s.at + len else |s.content|)
      && s.content[s.at..next.at] == (if outcome.Bytes? then outcome.data else [])
  {
  }

  lemma RunFirst(s: Stream, op: Op, ops: seq<Op>)
    requires s.at <= |s.content|
    ensures s.Step(op).0.at <= |s.content| == |s.Step(op).0.content|
    ensures s.Run([op] + ops) == [s.Step(op).1] + s.Step(op).0.Run(ops)
  {
    assert ([op] + ops)[1..] == ops;
  }

  lemma DeliveredFirst(outcome: Outcome, more: seq<Outcome>)
    ensures Delivered([outcome] + more) == (if outcome.Bytes? then outcome.data else []) + Delivered(more)
  {
    assert ([outcome] + more)[1..] == more;
  }

  lemma Slices(s: seq<Byte>, a: nat, b: nat, c: nat)
    requires a <= b <= c <= |s|
    ensures s[a..b] + s[b..c] == s[a..c]
  {
  }

  /** How far reads of `sum` bytes come. */
  function EndOf(s: Stream, sum: nat): (end: nat)
    requires s.at <= |s.content|
    ensures s.at <= end <= |s.content|
  {
    if s.at + sum <= |s.content| then s.at + sum else |s.content|
  }

  lemma FirstOfReads(lens: seq<nat>)
    requires lens != []
    ensures Reads(lens) == [Read(lens[0])] + Reads(lens[1..]) && Sum(lens) == lens[0] + Sum(lens[1..])
  {
  }

  /** However a file is cut into reads, they deliver its bytes in order, as far as they go. */
  lemma {:induction false} ReadInPieces(s: Stream, lens: seq<nat>)
    requires s.at <= |s.content|
    ensures Delivered(s.Run(Reads(lens))) == s.content[s.at..EndOf(s, Sum(lens))]
    decreases |lens|
  {
    if lens != [] {
      FirstOfReads(lens);
      OneRead(s, lens[0]);
      RunFirst(s, Read(lens[0]), Reads(lens[1..]));
      hide Stream.Step, Stream.Run, Delivered, Reads, Sum;
      var next, outcome := s.Step(Read(lens[0])).0, s.Step(Read(lens[0])).1;
      DeliveredFirst(outcome, next.Run(Reads(lens[1..])));
      ReadInPieces(next, lens[1..]);
      assert EndOf(next, Sum(lens[1..])) == EndOf(s, Sum(lens));
      Slices(s.content, s.at, next.at, EndOf(s, Sum(lens)));
    }
  }

  // ---------- The stream of an open file ----------

  /** The last byte is not the last one of a cluster, or the chain has one cluster more. */
  ghost predicate EndHasCluster(f: File)
    requires f.Valid()
    reads f, f.volume, f.volume.fatbuf, f.volume.databuf
  {
    f.size % f.BlockSize() != 0 || f.volume.Follow(f.head, f.size / f.BlockSize()) <= f.volume.Max()
  }

  /** The stream an open file stands for. */
  ghost function View(f: File): Stream
    requires f.Valid()
    reads f, f.volume, f.volume.fatbuf, f.volume.databuf
  {
    Stream(f.Content(), f.cursor, EndHasCluster(f))
  }

  lemma BlockStart(p: nat, b: nat)
    requires b > 0
    ensures p / b * b <= p
  {
  }

  /** Positions inside the file are always reachable. */
  lemma InsideIsReachable(f: File, p: nat)
    requires InStep(f) && p < f.size
    ensures f.Reachable(p)
  {
    var v := f.volume;
    forall k | 0 <= k <= f.BlockOf(p)
      ensures Nth(v.geometry.fatType, v.Fat(), f.head, k) <= MaxCluster(v.geometry.fatType)
    {
      assert v.Follow(f.head, k) == Nth(v.geometry.fatType, v.Fat(), f.head, k);
      MulMonotone(k, f.BlockOf(p), f.BlockSize());
      BlockStart(p, f.BlockSize());
      assert k * f.BlockSize() < f.size;
    }
  }

  lemma SameBlock(size: nat, b: nat)
    requires b > 0 && size % b != 0
    ensures size > 0 && (size - 1) / b == size / b
  {
    DivModUnique(size - 1, size / b, size % b - 1, b);
  }

  lemma LastBlock(size: nat, b: nat)
    requires b > 0 && size > 0 && size % b == 0
    ensures size / b > 0 && (size - 1) / b == size / b - 1
  {
    assert size == (size / b - 1) * b + b;
    DivModUnique(size - 1, size / b - 1, b - 1, b);
  }

  /** The end of the file is reachable unless the size is a multiple of the cluster size and the chain ends there. */
  lemma EndIsReachable(f: File)
    requires InStep(f)
    ensures f.Reachable(f.size) <==> EndHasCluster(f)
  {
    var v, b := f.volume, f.BlockSize();
    f.BlockOfIs(f.size);
    if f.size > 0 {
      InsideIsReachable(f, f.size - 1);
    }
    hide Volume.Follow, Volume.ReachesFrom;
    if f.size % b != 0 {
      SameBlock(f.size, b);
      assert f.BlockOf(f.size - 1) == f.BlockOf(f.size) by { f.BlockOfIs(f.size - 1); }
    } else if f.size > 0 {
      LastBlock(f.size, b);
      f.BlockOfIs(f.size - 1);
      v.OneLinkOn(f.head, f.size / b - 1);
    } else {
      v.OneLinkOn(f.head, 0);
    }
  }

  method DoRead(f: File, len: nat) returns (outcome: Outcome)
    requires InStep(f) && f.volume.Healthy() && f.size + len < 0x1_0000_0000
    modifies f, f.volume, f.volume.fatbuf, f.volume.databuf
    ensures InStep(f)
    ensures (View(f), outcome) == old(View(f)).Step(Read(len))
  {
    hide Volume.ReachesFrom, Volume.ClusterByte, File.CoversSize, File.ClusterAt, File.Reachable;
    var buf := new Byte[len];
    ghost var from := f.cursor;
    var status, n := f.Read(buf, len);
    if status.EndOfFile? {
      outcome := Refused(EndOfFile);
    } else {
      outcome := Bytes(buf[..n]);
      assert buf[..n] == f.Content()[from..from + n];
    }
  }

  method DoSeek(f: File, offset: int, origin: Origin) returns (outcome: Outcome)
    requires InStep(f) && f.volume.Healthy()
    modifies f, f.volume, f.volume.fatbuf, f.volume.databuf
    ensures InStep(f)
    ensures (View(f), outcome) == old(View(f)).Step(Seek(offset, origin))
  {
    hide Volume.ReachesFrom, File.CoversSize, File.BlockOf, File.Reachable, File.LaggedByte, File.ClusterAt;
    EndIsReachable(f);
    hide Volume.Follow;
    ghost var t := f.Target(offset, origin);
    if 0 <= t < f.size {
      InsideIsReachable(f, t);
    }
    var status := f.Seek(offset, origin);
    outcome := if status.Success? then Done else Refused(status);
  }

  // ---------- A device that fails once ----------

  /** A FAT12 volume of eight one-sector clusters; cluster 2 is full of 'A', links to cluster 3, and
      everything from cluster 3 on is full of 'B'. */
  const TWO_CLUSTER_DISK: nat -> Byte := a =>
    if a == 515 then 3 else if a == 516 then 0xF0 else if a == 517 then 0xFF
    else if a < 1536 then 65 else 66

  const TWO_CLUSTER_LAYOUT := Geometry(Fat12, 1, 1, 512, 2, 0, 8)

  lemma TwoClusterChain(v: Volume)
    requires v.geometry == TWO_CLUSTER_LAYOUT && v.disk == TWO_CLUSTER_DISK
    ensures v.Follow(2, 0) == 2 && v.Follow(2, 1) == 3
    ensures File.CoversSize(v, 2, 1024)
  {
    Entry12(v.Fat(), 2);
    assert v.Follow(2, 1) == Entry(Fat12, v.Fat(), v.Follow(2, 0));
    forall k: nat | k * 512 < 1024
      ensures File.IsDataCluster(v, v.Follow(2, k))
    {
      assert k == 0 || k == 1;
    }
  }

  /** The chain ends behind its two clusters. */
  lemma TwoClusterEnd(v: Volume)
    requires v.geometry == TWO_CLUSTER_LAYOUT && v.disk == TWO_CLUSTER_DISK
    ensures v.Follow(2, 2) == 0xFFF
  {
    TwoClusterChain(v);
    Entry12(v.Fat(), 3);
    assert v.Follow(2, 2) == Entry(Fat12, v.Fat(), v.Follow(2, 1));
  }

  /** On a device that never fails a seek to the end of this file is refused. */
  method RefusedSeek() returns (status: Status, f: File)
    ensures fresh(f) && f.Valid() && f.volume.Healthy() && f.size == 1024 && f.BlockSize() == 512
    ensures status.EndOfList? && f.cursor == 0
  {
    var v := new Volume(TWO_CLUSTER_LAYOUT, TWO_CLUSTER_DISK, t => false);
    TwoClusterChain(v);
    TwoClusterEnd(v);
    hide Volume.Follow, File.CoversSize;
    f := new File(v, 2, 1024);
    EndIsReachable(f);
    assert f.size / f.BlockSize() == 2 && f.size % f.BlockSize() == 0;
    status := f.Seek(0, FromEnd);
  }

  lemma TwoClusterBytes(f: File, j: nat)
    requires f.volume.geometry == TWO_CLUSTER_LAYOUT && f.volume.disk == TWO_CLUSTER_DISK
    requires f.head == 2 && j < 512
    ensures f.LaggedByte(512 + j, 1) == 65 && f.LaggedByte(512 + j, 0) == 66
  {
    TwoClusterChain(f.volume);
    assert f.ClusterAt(0) == 2 && f.ClusterAt(1) == 3;
    assert (512 + j) / 512 == 1 && (512 + j) % 512 == j;
  }

  /** The first read of the file above, from cold caches, on a device whose second request fails. */
  method FirstRead() returns (f: File, first: seq<Byte>)
    ensures f.volume.geometry == TWO_CLUSTER_LAYOUT && f.volume.disk == TWO_CLUSTER_DISK
    ensures f.head == 2 && f.size == 1024 && fresh(f) && fresh(f.volume)
    ensures fresh(f.volume.fatbuf) && fresh(f.volume.databuf)
    ensures f.volume.requests >= 2 && forall t :: f.volume.fails(t) <==> t == 1
    ensures f.Valid() && f.cursor == 512 && f.lag == 1
    ensures first == f.Content()[..512]
  {
    var v := new Volume(TWO_CLUSTER_LAYOUT, TWO_CLUSTER_DISK, t => t == 1);
    TwoClusterChain(v);
    hide File.LaggedByte, File.CoversSize, File.ClusterAt;
    f := new File(v, 2, 1024);
    var buf := new Byte[512];
    var _, _ := f.Read(buf, 512);
    first := buf[..];
  }

  /** One failing table lookup makes the driver hand out the same cluster twice: the first read
      reports success, the second one delivers 'A' where the file holds 'B'. */
  method StaleRead() returns (first: seq<Byte>, second: seq<Byte>, content: seq<Byte>)
    ensures |content| == 1024 && first == content[..512]
    ensures |second| == 512 && second != content[512..]
  {
    hide File.LaggedByte, File.CoversSize, File.ClusterAt;
    var f;
    f, first := FirstRead();
    content := f.Content();
    var buf := new Byte[512];
    var _, _ := f.Read(buf, 512);
    second := buf[..];
    TwoClusterBytes(f, 0);
    assert second[0] == 65 && content[512] == 66;
  }
}
