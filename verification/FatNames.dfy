/**
 File names: the 8.3 name of a directory slot, long names collected in 13-unit pieces, and their
 conversion to UTF-8.
 */
module FatNames {
  import opened FatTable
  import opened Utf8
  import opened Sequences

  type Unit = u: int | 0 <= u < 0x10000

  const LFN_UNITS := 256
  const UTF8_ROOM := 255
  const FALLBACK: Byte := 63

  /** A directory slot: 32 bytes. */
  type Slot = s: seq<Byte> | |s| == 32 witness seq(32, i => 0)

  // ---------- UCS-2 to UTF-8 ----------

  predicate IsTerminator(u: Unit) {
    u == 0 || u == 0xFFFF
  }

  function EncodeUnit(u: Unit): (bs: seq<Byte>)
    ensures 1 <= |bs| <= 3
  {
    if u < 0x7F then [u]
    else if u < 0x7FF then [0xC0 + u / 64, 0x80 + u % 64]
    else [0xE0 + u / 4096, 0x80 + u / 64 % 64, 0x80 + u % 64]
  }

  /** The driver's boundaries are one short: U+007F and U+07FF come out one byte too long. */
  lemma EncodesAsStandard(u: Unit)
    ensures EncodeUnit(u) == Encode(u) <==> u != 0x7F && u != 0x7FF
  {
    assert u == 0x7F ==> |EncodeUnit(u)| != |Encode(u)|;
    assert u == 0x7FF ==> |EncodeUnit(u)| != |Encode(u)|;
  }

  /** Still every unit reads back, the two overlong ones included. */
  lemma UnitReadsBack(u: Unit)
    ensures var bs := EncodeUnit(u); Announced(bs[0]) == |bs| && Value(bs) == u
  {
    if u == 0x7F || u == 0x7FF {
      ValueOfBytes(EncodeUnit(u));
    } else {
      EncodesAsStandard(u);
      hide EncodeUnit, Encode, Value, Announced;
      ValueOfEncoding(u);
    }
  }

  /** The units before the first terminator. */
  function UpToTerminator(units: seq<Unit>): seq<Unit> {
    if units == [] || IsTerminator(units[0]) then [] else [units[0]] + UpToTerminator(units[1..])
  }

  /** A name ends at its first zero, and at the padding behind it. */
  lemma {:induction false} NameEnds(name: seq<Unit>, rest: seq<Unit>)
    requires forall u | u in name :: u != 0 && u != 0xFFFF
    requires rest == [] || rest[0] == 0 || rest[0] == 0xFFFF
    ensures UpToTerminator(name + rest) == name
  {
    if name == [] {
      assert name + rest == rest;
    } else {
      HeadFirst(name, rest);
      assert name[0] in name && forall u | u in name[1..] :: u in name;
      NameEnds(name[1..], rest);
    }
  }

  function EncodeUnits(units: seq<Unit>): seq<Byte> {
    if units == [] then [] else EncodeUnit(units[0]) + EncodeUnits(units[1..])
  }

  lemma {:induction false} UnitsReadBack(units: seq<Unit>)
    ensures Decode(EncodeUnits(units)) == Decoded(units, [])
  {
    if units != [] {
      hide EncodeUnit, Value, Announced;
      UnitReadsBack(units[0]);
      TakeAndDrop(EncodeUnit(units[0]), EncodeUnits(units[1..]));
      UnitsReadBack(units[1..]);
    }
  }

  /** What fits in `room` bytes, a character without room being replaced by '?'. */
  function NameBytes(units: seq<Unit>, room: nat): (bs: seq<Byte>)
    ensures |bs| <= room
    decreases room
  {
    if room == 0 || units == [] || IsTerminator(units[0]) then []
    else
      var e := EncodeUnit(units[0]);
      if |e| <= room then e + NameBytes(units[1..], room - |e|)
      else [FALLBACK] + NameBytes(units[1..], room - 1)
  }

  lemma SameFront<T>(a: seq<T>, s: seq<T>, t: seq<T>)
    ensures a + s == a + t <==> s == t
  {
    TakeAndDrop(a, s);
    TakeAndDrop(a, t);
  }

  /** The conversion is lossless exactly for the names that fit. */
  lemma {:induction false} NameBytesComplete(units: seq<Unit>, room: nat)
    ensures NameBytes(units, room) == EncodeUnits(UpToTerminator(units))
       <==> |EncodeUnits(UpToTerminator(units))| <= room
    decreases room
  {
    if units != [] && !IsTerminator(units[0]) {
      hide EncodeUnit;
      var e, rest := EncodeUnit(units[0]), UpToTerminator(units[1..]);
      assert UpToTerminator(units)[1..] == rest;
      if |e| <= room {
        NameBytesComplete(units[1..], room - |e|);
        SameFront(e, NameBytes(units[1..], room - |e|), EncodeUnits(rest));
      }
    }
  }

  /** A name that does not fit keeps the characters that do, and the first one that does not becomes a question mark. */
  lemma {:induction false} NameCut(units: seq<Unit>, k: nat, room: nat)
    requires k < |units| && forall i | 0 <= i <= k :: units[i] != 0 && units[i] != 0xFFFF
    requires |EncodeUnits(units[..k])| < room < |EncodeUnits(units[..k + 1])|
    ensures EncodeUnits(units[..k]) + ['?' as int] <= NameBytes(units, room)
    decreases k
  {
    if k == 0 {
      assert EncodeUnits(units[..1]) == EncodeUnit(units[0]) + EncodeUnits([]);
      assert EncodeUnits(units[..0]) == [];
    } else {
      hide EncodeUnit;
      var e := EncodeUnit(units[0]);
      assert units[..k][1..] == units[1..][..k - 1] && units[..k + 1][1..] == units[1..][..k];
      NameCut(units[1..], k - 1, room - |e|);
      AppendIsAssociative(e, EncodeUnits(units[1..][..k - 1]), ['?' as int]);
    }
  }

  /** A long name that fits comes back unit for unit. */
  lemma LongNameReadsBack(units: seq<Unit>)
    requires |EncodeUnits(UpToTerminator(units))| <= UTF8_ROOM
    ensures Decode(NameBytes(units, UTF8_ROOM)) == Decoded(UpToTerminator(units), [])
  {
    NameBytesComplete(units, UTF8_ROOM);
    UnitsReadBack(UpToTerminator(units));
  }

  /** 0 for a terminator, -1 when the character does not fit. */
  method Ucs2ToUtf8(buf: array<Byte>, at: nat, room: nat, u: Unit) returns (n: int)
    requires at + room <= buf.Length
    modifies buf
    ensures n == if IsTerminator(u) then 0 else if |EncodeUnit(u)| > room then -1 else |EncodeUnit(u)|
    ensures n > 0 ==> buf[at..at + n] == EncodeUnit(u)
    ensures forall p | 0 <= p < buf.Length && !(at <= p < at + n) :: buf[p] == old(buf[p])
  {
    if u == 0 || u == 0xFFFF {
      return 0;
    }
    if u < 0x7F {
      if room < 1 {
        return -1;
      }
      buf[at] := u;
      return 1;
    }
    if u < 0x7FF {
      if room < 2 {
        return -1;
      }
      buf[at] := 0xC0 + u / 64;
      buf[at + 1] := 0x80 + u % 64;
      return 2;
    }
    if room < 3 {
      return -1;
    }
    buf[at] := 0xE0 + u / 4096;
    buf[at + 1] := 0x80 + u / 64 % 64;
    buf[at + 2] := 0x80 + u % 64;
    return 3;
  }

  /** What one unit adds. */
  function Piece(u: Unit, room: nat): seq<Byte> {
    if IsTerminator(u) then [] else if |EncodeUnit(u)| <= room then EncodeUnit(u) else [FALLBACK]
  }

  lemma OneUnitOn(units: seq<Unit>, k: nat, room: nat)
    requires k < |units| && room > 0
    ensures IsTerminator(units[k]) <==> Piece(units[k], room) == []
    ensures IsTerminator(units[k]) ==> NameBytes(units[k..], room) == []
    ensures !IsTerminator(units[k]) ==>
            && 0 < |Piece(units[k], room)| <= room
            && NameBytes(units[k..], room)
            == Piece(units[k], room) + NameBytes(units[k + 1..], room - |Piece(units[k], room)|)
  {
    assert units[k..][1..] == units[k + 1..];
  }

  /** One round of the conversion loop. */
  method PutUnit(utf8: array<Byte>, at: nat, room: nat, u: Unit) returns (n: nat)
    requires 0 < room && at + room <= utf8.Length
    modifies utf8
    ensures n == |Piece(u, room)| <= room
    ensures utf8[..at + n] == old(utf8[..at]) + Piece(u, room)
    ensures n == 0 ==> utf8[at] == 0
  {
    ghost var front := utf8[..at];
    var len := Ucs2ToUtf8(utf8, at, room, u);
    if len == 0 {
      utf8[at] := 0;
    } else if len < 0 {
      utf8[at] := FALLBACK;
      len := 1;
    }
    n := len;
    assert utf8[..at + n] == utf8[..at] + utf8[at..at + n];
    assert utf8[..at] == front;
  }

  /** Converts a long name; the result is NUL-terminated unless it fills the whole room. */
  method LfnToUtf8(utf8: array<Byte>, units: seq<Unit>) returns (written: nat)
    requires utf8.Length >= UTF8_ROOM && |units| >= LFN_UNITS
    modifies utf8
    ensures written <= UTF8_ROOM && utf8[..written] == NameBytes(units, UTF8_ROOM)
    ensures written < UTF8_ROOM ==> utf8[written] == 0
  {
    hide NameBytes, Piece;
    written := 0;
    var k := 0;
    assert units[0..] == units;
    while written < UTF8_ROOM
      invariant k <= written <= UTF8_ROOM
      invariant utf8[..written] + NameBytes(units[k..], UTF8_ROOM - written) == NameBytes(units, UTF8_ROOM)
    {
      ghost var front, room := utf8[..written], UTF8_ROOM - written;
      OneUnitOn(units, k, room);
      var n := PutUnit(utf8, written, UTF8_ROOM - written, units[k]);
      if n == 0 {
        return;
      }
      AppendIsAssociative(front, Piece(units[k], room), NameBytes(units[k + 1..], room - n));
      k, written := k + 1, written + n;
    }
  }

  // ---------- Long names in pieces ----------

  const PIECE_UNITS := 13

  function Ordinal(slot: Slot): nat {
    slot[0] % 32
  }

  /** Marks the piece with the end of the name, which comes first on the disk. */
  predicate IsLastPiece(slot: Slot) {
    slot[0] / 64 % 2 == 1
  }

  /** The first byte: the ordinal in its lower five bits, the mark of the last piece in bit 6. */
  lemma PieceByBits(slot: Slot, ordinal: nat, bit5: nat, last: nat, bit7: nat)
    requires ordinal < 32 && bit5 < 2 && last < 2 && slot[0] == ordinal + 32 * bit5 + 64 * last + 128 * bit7
    ensures Ordinal(slot) == ordinal && (IsLastPiece(slot) <==> last == 1)
  {
    assert slot[0] == ordinal + 32 * (bit5 + 2 * last + 4 * bit7);
    assert slot[0] / 64 == last + 2 * bit7;
  }

  /** Unit i of a slot: five, six and two units in three fields. */
  function SlotUnit(slot: Slot, i: nat): Unit
    requires i < PIECE_UNITS
  {
    var at := if i < 5 then 1 + 2 * i else if i < 11 then 14 + 2 * (i - 5) else 28 + 2 * (i - 11);
    Decode16(slot[at], slot[at + 1])
  }

  function PieceUnits(slot: Slot): (p: seq<Unit>)
    ensures |p| == PIECE_UNITS
  {
    seq(PIECE_UNITS, i requires 0 <= i < PIECE_UNITS => SlotUnit(slot, i))
  }

  /** Pairs of bytes, the low one first. */
  function Words(bytes: seq<Byte>): seq<Unit> {
    if |bytes| < 2 then []
    else
      var low: nat, high: nat := bytes[0], bytes[1];
      [low + 256 * high] + Words(bytes[2..])
  }

  lemma {:induction false} WordAt(bytes: seq<Byte>, i: nat)
    requires 2 * i + 1 < |bytes|
    ensures |Words(bytes)| == |bytes| / 2 && Words(bytes)[i] == Decode16(bytes[2 * i], bytes[2 * i + 1])
    decreases |bytes|
  {
    if |bytes| >= 4 {
      WordAt(bytes[2..], if i == 0 then 0 else i - 1);
    }
  }

  /** The thirteen units of a slot are the words of its bytes 1 to 10, 14 to 25, and 28 to 31. */
  lemma UnitsOfSlot(slot: Slot)
    ensures PieceUnits(slot) == Words(slot[1..11]) + Words(slot[14..26]) + Words(slot[28..32])
  {
    WordAt(slot[1..11], 0);
    WordAt(slot[14..26], 0);
    WordAt(slot[28..32], 0);
    var all := Words(slot[1..11]) + Words(slot[14..26]) + Words(slot[28..32]);
    hide Words, Decode16;
    forall i | 0 <= i < PIECE_UNITS
      ensures all[i] == SlotUnit(slot, i)
    {
      if i < 5 {
        WordAt(slot[1..11], i);
      } else if i < 11 {
        WordAt(slot[14..26], i - 5);
      } else {
        WordAt(slot[28..32], i - 11);
      }
    }
  }

  /** The pieces the 256-unit buffer has room for, terminator included. */
  predicate Storable(slot: Slot) {
    1 <= Ordinal(slot) <= 19
  }

  /** get_lfn_filename writes this place of the name buffer; a piece with the end of the name has a terminator. */
  predicate Writes(slot: Slot, p: int) {
    var at := (Ordinal(slot) - 1) * PIECE_UNITS;
    at <= p < at + PIECE_UNITS + if IsLastPiece(slot) then 1 else 0
  }

  /** A slot has a place in the buffer exactly when its ordinal is from 1 to 19; the driver takes every ordinal. */
  lemma HasPlace(slot: Slot)
    ensures (forall p | Writes(slot, p) :: 0 <= p < LFN_UNITS) <==> Storable(slot)
  {
    var at := (Ordinal(slot) - 1) * PIECE_UNITS;
    if Ordinal(slot) == 0 {
      assert Writes(slot, at);
    } else if Ordinal(slot) > 19 {
      assert Writes(slot, at + PIECE_UNITS - 1);
    }
  }

  function PieceStart(slot: Slot): nat
    requires Storable(slot)
  {
    (Ordinal(slot) - 1) * PIECE_UNITS
  }

  function StorePiece(units: seq<Unit>, slot: Slot): (r: seq<Unit>)
    requires |units| == LFN_UNITS && Storable(slot)
    ensures |r| == LFN_UNITS
  {
    var at := PieceStart(slot);
    var w := units[..at] + PieceUnits(slot) + units[at + PIECE_UNITS..];
    if IsLastPiece(slot) then w[at + PIECE_UNITS := 0] else w
  }

  lemma PieceStored(units: seq<Unit>, slot: Slot, stored: seq<Unit>)
    requires |units| == |stored| == LFN_UNITS && Storable(slot)
    requires forall p | 0 <= p < LFN_UNITS ::
               var i := p - PieceStart(slot);
               stored[p] == if 0 <= i < PIECE_UNITS then SlotUnit(slot, i)
                            else if i == PIECE_UNITS && IsLastPiece(slot) then 0 else units[p]
    ensures stored == StorePiece(units, slot)
  {
    hide SlotUnit;
  }

  /** get_lfn_filename. */
  method StoreLfn(slot: Slot, buf: array<Unit>)
    requires buf.Length == LFN_UNITS && Storable(slot)
    modifies buf
    ensures buf[..] == StorePiece(old(buf[..]), slot)
  {
    hide SlotUnit, StorePiece, IsLastPiece;
    ghost var units := buf[..];
    var at, count := PieceStart(slot), 0;
    while count < PIECE_UNITS
      invariant count <= PIECE_UNITS
      invariant forall p | 0 <= p < LFN_UNITS ::
                  buf[p] == if at <= p < at + count then SlotUnit(slot, p - at) else old(buf[p])
    {
      buf[at + count] := SlotUnit(slot, count);
      count := count + 1;
    }
    if IsLastPiece(slot) {
      buf[at + count] := 0;
    }
    PieceStored(units, slot, buf[..]);
  }

  predicate AllStorable(slots: seq<Slot>) {
    forall s | s in slots :: Storable(s)
  }

  function StoreAll(units: seq<Unit>, slots: seq<Slot>): (r: seq<Unit>)
    requires |units| == LFN_UNITS && AllStorable(slots)
    ensures |r| == LFN_UNITS
    decreases |slots|
  {
    if slots == [] then units else StoreAll(StorePiece(units, slots[0]), slots[1..])
  }

  /** The pieces of one name as they lie on the disk: last piece first, counting down to 1. */
  ghost predicate CountsDown(slots: seq<Slot>) {
    forall i | 0 <= i < |slots| :: Ordinal(slots[i]) == |slots| - i
  }

  /** The name the pieces spell. */
  function Spelled(slots: seq<Slot>): (name: seq<Unit>)
    ensures |name| == PIECE_UNITS * |slots|
  {
    if slots == [] then [] else Spelled(slots[1..]) + PieceUnits(slots[0])
  }

  /** From where a piece lies on, the buffer holds the piece and what was behind it. */
  lemma BehindPiece(units: seq<Unit>, slot: Slot)
    requires |units| == LFN_UNITS && Storable(slot)
    ensures var at := PieceStart(slot);
            var behind := units[at + PIECE_UNITS..];
            StorePiece(units, slot)[at..]
            == PieceUnits(slot) + (if IsLastPiece(slot) then [0] + behind[1..] else behind)
  {
  }

  /** None of the pieces is marked as the last one. */
  predicate NoneLast(slots: seq<Slot>) {
    forall s | s in slots :: !IsLastPiece(s)
  }

  lemma RestOfPieces(slots: seq<Slot>)
    requires slots != [] && |slots| <= 19 && CountsDown(slots) && AllStorable(slots) && NoneLast(slots)
    ensures CountsDown(slots[1..]) && AllStorable(slots[1..]) && NoneLast(slots[1..])
    ensures Storable(slots[0]) && PieceStart(slots[0]) == PIECE_UNITS * |slots[1..]| && !IsLastPiece(slots[0])
  {
    hide Ordinal, IsLastPiece;
  }

  lemma {:induction false} PiecesAssemble(units: seq<Unit>, slots: seq<Slot>)
    requires |units| == LFN_UNITS && |slots| <= 19 && CountsDown(slots) && AllStorable(slots)
    requires forall s | s in slots :: !IsLastPiece(s)
    ensures StoreAll(units, slots) == Spelled(slots) + units[PIECE_UNITS * |slots|..]
    decreases |slots|
  {
    if slots == [] {
      assert Spelled(slots) + units[0..] == units;
    } else {
      assert NoneLast(slots);
      RestOfPieces(slots);
      hide StorePiece, PieceUnits, CountsDown, AllStorable, Storable, IsLastPiece, PieceStart;
      PiecesAssemble(StorePiece(units, slots[0]), slots[1..]);
      BehindPiece(units, slots[0]);
      AppendIsAssociative(Spelled(slots[1..]), PieceUnits(slots[0]), units[PIECE_UNITS * |slots|..]);
    }
  }

  /** Whatever was in the buffer, a complete set of pieces leaves the name it spells and a
      terminator behind it. */
  lemma LongNameAssembles(junk: seq<Unit>, slots: seq<Slot>)
    requires |junk| == LFN_UNITS && 1 <= |slots| <= 19 && CountsDown(slots) && AllStorable(slots)
    requires forall i | 0 <= i < |slots| :: IsLastPiece(slots[i]) <==> i == 0
    ensures Spelled(slots) + [0] <= StoreAll(junk, slots)
  {
    hide StorePiece, PieceUnits;
    PiecesAssemble(StorePiece(junk, slots[0]), slots[1..]);
    BehindPiece(junk, slots[0]);
    assert Spelled(slots) + [0] == Spelled(slots[1..]) + (PieceUnits(slots[0]) + [0]);
  }

  // ---------- Short names ----------

  function ToLower(b: Byte): Byte {
    if 65 <= b <= 90 then b + 32 else b
  }

  /** A padded field up to its first blank. */
  function Field(bytes: seq<Byte>, lower: bool): seq<Byte> {
    if bytes == [] || bytes[0] == 32 then []
    else [if lower then ToLower(bytes[0]) else bytes[0]] + Field(bytes[1..], lower)
  }

  function Lowered(bytes: seq<Byte>): (r: seq<Byte>)
    ensures |r| == |bytes|
  {
    seq(|bytes|, i requires 0 <= i < |bytes| => ToLower(bytes[i]))
  }

  /** Only the two cases of one letter become alike. */
  lemma LettersAlike(x: Byte, y: Byte)
    ensures ToLower(x) == ToLower(y) <==>
              || x == y
              || ('A' as int <= x <= 'Z' as int && y == x + ('a' as int - 'A' as int))
              || ('A' as int <= y <= 'Z' as int && x == y + ('a' as int - 'A' as int))
  {
  }

  lemma FieldFirst(b: Byte, more: seq<Byte>, lower: bool)
    requires b != 32
    ensures Field([b] + more, lower) == [if lower then ToLower(b) else b] + Field(more, lower)
  {
    assert ([b] + more)[1..] == more;
  }

  lemma LoweredFirst(name: seq<Byte>)
    requires name != []
    ensures Lowered(name) == [ToLower(name[0])] + Lowered(name[1..])
  {
    hide ToLower;
  }

  lemma {:induction false} FieldPadded(name: seq<Byte>, blanks: seq<Byte>, lower: bool)
    requires 32 !in name && (blanks == [] || blanks[0] == 32)
    ensures Field(name + blanks, lower) == if lower then Lowered(name) else name
  {
    if name == [] {
      assert name + blanks == blanks;
    } else {
      FieldPadded(name[1..], blanks, lower);
      FieldFirst(name[0], name[1..] + blanks, lower);
      HeadFirst(name, blanks);
      LoweredFirst(name);
      hide Field, Lowered, ToLower;
      assert name == [name[0]] + name[1..];
    }
  }

  /** "NAME.EXT" of an 8.3 slot; two bits of byte 12 ask for lower case. */
  function ShortName(slot: Slot): seq<Byte> {
    Field(slot[..8], slot[12] / 8 % 2 == 1)
    + (if slot[8] != 32 then [46] else [])
    + Field(slot[8..11], slot[12] / 16 % 2 == 1)
  }

  lemma CaseBits(x: nat, low: nat, n: nat, e: nat, high: nat)
    requires low < 8 && n < 2 && e < 2 && x == low + 8 * n + 16 * e + 32 * high
    ensures x / 8 % 2 == n && x / 16 % 2 == e
  {
    assert x / 8 == n + 2 * (e + 2 * high) && x / 16 == e + 2 * high;
  }

  lemma ExtensionStarts(slot: Slot, ext: seq<Byte>)
    requires |ext| <= 3 && slot[8..11] == ext + seq(3 - |ext|, i => 32) && 32 !in ext
    ensures slot[8] != 32 <==> ext != []
  {
    assert slot[8] == slot[8..11][0];
  }

  lemma NameField(slot: Slot, name: seq<Byte>, blanks: seq<Byte>, low: nat, n: nat, e: nat, high: nat)
    requires slot[..8] == name + blanks && 32 !in name && (blanks == [] || blanks[0] == 32)
    requires low < 8 && n < 2 && e < 2 && slot[12] == low + 8 * n + 16 * e + 32 * high
    ensures Field(slot[..8], slot[12] / 8 % 2 == 1) == if n == 1 then Lowered(name) else name
  {
    hide Lowered, Field;
    CaseBits(slot[12], low, n, e, high);
    FieldPadded(name, blanks, n == 1);
  }

  lemma ExtensionField(slot: Slot, ext: seq<Byte>, blanks: seq<Byte>, low: nat, n: nat, e: nat, high: nat)
    requires slot[8..11] == ext + blanks && 32 !in ext && (blanks == [] || blanks[0] == 32)
    requires low < 8 && n < 2 && e < 2 && slot[12] == low + 8 * n + 16 * e + 32 * high
    ensures Field(slot[8..11], slot[12] / 16 % 2 == 1) == if e == 1 then Lowered(ext) else ext
  {
    hide Lowered, Field;
    CaseBits(slot[12], low, n, e, high);
    FieldPadded(ext, blanks, e == 1);
  }

  lemma NameAndExtension(slot: Slot, name: seq<Byte>, ext: seq<Byte>, empty: bool)
    requires Field(slot[..8], slot[12] / 8 % 2 == 1) == name && Field(slot[8..11], slot[12] / 16 % 2 == 1) == ext
    requires (empty <==> slot[8] == 32) && (empty ==> ext == [])
    ensures ShortName(slot) == name + if empty then [] else ['.' as int] + ext
  {
    hide Field;
    if empty {
      assert name + [] + ext == name + [];
    } else {
      AppendIsAssociative(name, [46], ext);
    }
  }

  /** A name and an extension padded with blanks come back, each in the case its bit of byte 12 asks for. */
  lemma ShortNameReadsBack(slot: Slot, name: seq<Byte>, ext: seq<Byte>, low: nat, n: nat, e: nat, high: nat)
    requires |name| <= 8 && slot[..8] == name + seq(8 - |name|, i => 32) && 32 !in name
    requires |ext| <= 3 && slot[8..11] == ext + seq(3 - |ext|, i => 32) && 32 !in ext
    requires low < 8 && n < 2 && e < 2 && slot[12] == low + 8 * n + 16 * e + 32 * high
    ensures ShortName(slot) == (if n == 1 then Lowered(name) else name)
                               + (if ext == [] then [] else ['.' as int] + if e == 1 then Lowered(ext) else ext)
  {
    ExtensionStarts(slot, ext);
    assert Lowered([]) == [];
    hide Lowered, Field, ShortName;
    NameField(slot, name, seq(8 - |name|, i => 32), low, n, e, high);
    ExtensionField(slot, ext, seq(3 - |ext|, i => 32), low, n, e, high);
    NameAndExtension(slot, if n == 1 then Lowered(name) else name, if e == 1 then Lowered(ext) else ext, ext == []);
  }

  method AppendField(bytes: seq<Byte>, lower: bool, buf: array<Byte>, at: nat) returns (end: nat)
    requires at + |bytes| <= buf.Length
    modifies buf
    ensures at <= end <= at + |bytes| && buf[..end] == old(buf[..at]) + Field(bytes, lower)
  {
    end := at;
    var i := 0;
    assert bytes[0..] == bytes;
    while i < |bytes| && bytes[i] != 32
      invariant 0 <= i <= |bytes| && end == at + i
      invariant buf[..end] + Field(bytes[i..], lower) == old(buf[..at]) + Field(bytes, lower)
    {
      ghost var front := buf[..end];
      buf[end] := if lower then ToLower(bytes[i]) else bytes[i];
      assert buf[..end + 1] == front + [buf[end]];
      AppendIsAssociative(front, [buf[end]], Field(bytes[i + 1..], lower));
      assert bytes[i..][1..] == bytes[i + 1..];
      end, i := end + 1, i + 1;
    }
    assert Field(bytes[i..], lower) == [];
  }

  method PutByte(buf: array<Byte>, at: nat, b: Byte)
    requires at < buf.Length
    modifies buf
    ensures buf[at] == b && buf[..at] == old(buf[..at]) && buf[..at + 1] == old(buf[..at]) + [b]
  {
    buf[at] := b;
  }

  lemma ShortNameIs(slot: Slot)
    ensures var name := Field(slot[..8], slot[12] / 8 % 2 == 1);
            var ext := Field(slot[8..11], slot[12] / 16 % 2 == 1);
            ShortName(slot) == (if slot[8] != 32 then name + [46] else name) + ext
  {
    hide Field;
  }

  /** get_sfn_filename: NUL-terminated, at most 12 characters. */
  method SfnFilename(slot: Slot, buf: array<Byte>) returns (count: nat)
    requires buf.Length >= 13
    modifies buf
    ensures count <= 12 && buf[..count] == ShortName(slot) && buf[count] == 0
  {
    hide Field, ShortName;
    ShortNameIs(slot);
    count := AppendField(slot[..8], slot[12] / 8 % 2 == 1, buf, 0);
    ghost var name := Field(slot[..8], slot[12] / 8 % 2 == 1);
    assert [] + name == name;
    assert buf[..count] == name;
    if slot[8] != 32 {
      PutByte(buf, count, 46);
      count := count + 1;
    }
    assert buf[..count] == if slot[8] != 32 then name + [46] else name;
    count := AppendField(slot[8..11], slot[12] / 16 % 2 == 1, buf, count);
    PutByte(buf, count, 0);
  }
}
