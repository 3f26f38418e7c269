/**
 The names of a listing: when the driver reports an entry under a long name, and that a complete long name in front of
 an entry, cut into pieces as names are on the disk, is reported character for character.
 */
module FatReports {
  import opened FatTable
  import opened FatNames
  import opened FatDirectory
  import opened Sequences
  import opened Utf8

  /** A piece of a long name with no volume label behind it. */
  predicate LongAt(slots: seq<Slot>, i: nat) {
    i < |slots| && KindOf(slots[i]).LongName? && forall j | i < j < |slots| :: !KindOf(slots[j]).VolumeLabel?
  }

  lemma LongAtFront(slots: seq<Slot>, i: nat)
    requires slots != [] && i < |slots| - 1 && !KindOf(slots[|slots| - 1]).VolumeLabel?
    ensures LongAt(slots, i) <==> LongAt(slots[..|slots| - 1], i)
  {
    hide KindOf;
    var front := slots[..|slots| - 1];
    assert forall j | 0 <= j < |front| :: front[j] == slots[j];
    if LongAt(front, i) {
      forall j | i < j < |slots| ensures !KindOf(slots[j]).VolumeLabel? {
        assert j < |front| ==> !KindOf(front[j]).VolumeLabel?;
      }
    }
  }

  /** A call takes the long name exactly if it has passed a piece, and no volume label since. */
  lemma {:induction false} LongExactly(c: Collected, slots: seq<Slot>)
    requires ValidCollected(c) && !c.isLong && LongNamesStorable(slots)
    ensures CollectAll(c, slots).isLong <==> exists i :: LongAt(slots, i)
    decreases |slots|
  {
    if slots != [] {
      var front, last := slots[..|slots| - 1], slots[|slots| - 1];
      LongExactly(c, front);
      hide KindOf, CollectAll;
      match KindOf(last)
      case LongName =>
        assert LongAt(slots, |slots| - 1);
      case VolumeLabel =>
        assert forall i: nat | i < |slots| :: !LongAt(slots, i);
      case _ =>
        forall i: nat | i < |front| ensures LongAt(slots, i) <==> LongAt(front, i) {
          LongAtFront(slots, i);
        }
        assert !LongAt(slots, |front|);
    }
  }

  /** Otherwise an entry is reported under its short name. */
  lemma ShortNameReported(slots: seq<Slot>, from: nat, q: nat, name: seq<Byte>)
    requires LongNamesStorable(slots) && from <= q < |slots| && IsReport(slots, from, q, name)
    requires !exists i :: LongAt(slots[from..q], i)
    ensures name == ShortName(slots[q])
  {
    var junk: seq<Unit> :| |junk| == LFN_UNITS &&
      name == NameOf(CollectAll(Collected(false, junk), slots[from..q]), slots[q]);
    LongExactly(Collected(false, junk), slots[from..q]);
  }

  lemma {:induction false} CollectInTwoParts(c: Collected, a: seq<Slot>, b: seq<Slot>)
    requires ValidCollected(c) && LongNamesStorable(a) && LongNamesStorable(b) && LongNamesStorable(a + b)
    ensures CollectAll(c, a + b) == CollectAll(CollectAll(c, a), b)
    decreases |b|
  {
    if b == [] {
      assert a + b == a;
    } else {
      var front, last := b[..|b| - 1], b[|b| - 1];
      assert (a + b)[..|a + b| - 1] == a + front && (a + b)[|a + b| - 1] == last;
      CollectInTwoParts(c, a, front);
    }
  }

  lemma {:induction false} StoreOneMore(units: seq<Unit>, slots: seq<Slot>, last: Slot)
    requires |units| == LFN_UNITS && AllStorable(slots) && Storable(last) && AllStorable(slots + [last])
    ensures StoreAll(units, slots + [last]) == StorePiece(StoreAll(units, slots), last)
    decreases |slots|
  {
    hide StorePiece, Storable;
    if slots == [] {
      assert [] + [last] == [last];
      assert StoreAll(StorePiece(units, last), []) == StorePiece(units, last);
    } else {
      assert (slots + [last])[1..] == slots[1..] + [last];
      StoreOneMore(StorePiece(units, slots[0]), slots[1..], last);
    }
  }

  lemma NothingStored(units: seq<Unit>)
    requires |units| == LFN_UNITS
    ensures StoreAll(units, []) == units
  {
  }

  /** Pieces one behind the other are stored one after the other. */
  lemma {:induction false} CollectPieces(c: Collected, pieces: seq<Slot>)
    requires ValidCollected(c) && pieces != [] && AllStorable(pieces) && LongNamesStorable(pieces)
    requires forall s | s in pieces :: KindOf(s).LongName?
    ensures CollectAll(c, pieces) == Collected(true, StoreAll(c.units, pieces))
    decreases |pieces|
  {
    var front, last := pieces[..|pieces| - 1], pieces[|pieces| - 1];
    hide StorePiece, KindOf, Storable, StoreAll;
    assert last in pieces;
    assert pieces == front + [last];
    StoreOneMore(c.units, front, last);
    if front == [] {
      assert StoreAll(c.units, []) == c.units by { NothingStored(c.units); }
    } else {
      CollectPieces(c, front);
    }
  }

  /**
   The pieces as they lie on the disk: the last one, which is marked, comes first. Together they spell the name, and
   behind it, if the pieces are not filled to the end, a zero and padding.
   */
  ghost predicate SpellName(pieces: seq<Slot>, name: seq<Unit>) {
    && 1 <= |pieces| <= 19 && CountsDown(pieces)
    && (forall i | 0 <= i < |pieces| :: KindOf(pieces[i]).LongName? && (IsLastPiece(pieces[i]) <==> i == 0))
    && (forall u | u in name :: u != 0 && u != 0xFFFF)
    && (name == Spelled(pieces) || name + [0] <= Spelled(pieces))
  }

  lemma PiecesAreStorable(pieces: seq<Slot>)
    requires 1 <= |pieces| <= 19 && CountsDown(pieces)
    ensures AllStorable(pieces) && LongNamesStorable(pieces)
  {
    hide KindOf, Ordinal;
    forall s | s in pieces ensures 1 <= Ordinal(s) <= 19 {
      var i :| 0 <= i < |pieces| && pieces[i] == s;
    }
  }

  lemma SpelledThenZero(spelled: seq<Unit>, all: seq<Unit>, name: seq<Unit>)
    requires spelled + [0] <= all && (name == spelled || name + [0] <= spelled)
    ensures |name| < |all| && all == name + all[|name|..] && all[|name|] == 0
  {
    assert spelled <= spelled + [0];
  }

  lemma NameInBuffer(junk: seq<Unit>, pieces: seq<Slot>, name: seq<Unit>)
    requires |junk| == LFN_UNITS && SpellName(pieces, name) && AllStorable(pieces)
    ensures UpToTerminator(StoreAll(junk, pieces)) == name
  {
    LongNameAssembles(junk, pieces);
    hide StoreAll, Spelled, UpToTerminator, KindOf, CountsDown, IsLastPiece, AllStorable;
    var all := StoreAll(junk, pieces);
    SpelledThenZero(Spelled(pieces), all, name);
    NameEnds(name, all[|name|..]);
  }

  lemma NotEmpty(pieces: seq<Slot>, name: seq<Unit>)
    requires SpellName(pieces, name)
    ensures pieces != []
  {
  }

  lemma CollectName(c: Collected, before: seq<Slot>, pieces: seq<Slot>, name: seq<Unit>)
    requires ValidCollected(c) && LongNamesStorable(before) && LongNamesStorable(before + pieces)
    requires SpellName(pieces, name)
    ensures var r := CollectAll(c, before + pieces); r.isLong && UpToTerminator(r.units) == name
  {
    PiecesAreStorable(pieces);
    hide LongNamesStorable;
    CollectInTwoParts(c, before, pieces);
    assert forall s | s in pieces :: KindOf(s).LongName?;
    var junk := CollectAll(c, before);
    hide CollectAll, KindOf, UpToTerminator, SpellName, AllStorable;
    assert pieces != [] by { NotEmpty(pieces, name); }
    CollectPieces(junk, pieces);
    NameInBuffer(junk.units, pieces, name);
  }

  lemma StorableInside(slots: seq<Slot>, from: nat, p: nat, q: nat)
    requires LongNamesStorable(slots) && from <= p <= q < |slots|
    ensures LongNamesStorable(slots[from..p]) && LongNamesStorable(slots[from..q])
  {
    hide KindOf, Storable;
  }

  lemma CollectInListing(slots: seq<Slot>, from: nat, p: nat, q: nat, name: seq<Unit>, c: Collected)
    requires LongNamesStorable(slots) && from <= p <= q < |slots| && SpellName(slots[p..q], name)
    requires ValidCollected(c) && LongNamesStorable(slots[from..q])
    ensures var r := CollectAll(c, slots[from..q]); r.isLong && UpToTerminator(r.units) == name
  {
    StorableInside(slots, from, p, q);
    hide LongNamesStorable, SpellName, CollectAll, UpToTerminator;
    assert slots[from..q] == slots[from..p] + slots[p..q];
    CollectName(c, slots[from..p], slots[p..q], name);
  }

  lemma NameFromUnits(c: Collected, slot: Slot, name: seq<Unit>)
    requires ValidCollected(c) && c.isLong && UpToTerminator(c.units) == name && |EncodeUnits(name)| <= 255
    ensures NameOf(c, slot) == EncodeUnits(name) && Decode(EncodeUnits(name)) == Decoded(name, [])
  {
    hide NameBytes, EncodeUnits, UpToTerminator, Decode;
    NameBytesComplete(c.units, UTF8_ROOM);
    UnitsReadBack(name);
  }

  /**
   An entry with such pieces in front of it is reported under that name, whatever came before: its UTF-8 bytes if they
   fit, from which the name can be read back.
   */
  lemma LongNameReported(slots: seq<Slot>, from: nat, p: nat, q: nat, name: seq<Unit>, bytes: seq<Byte>)
    requires LongNamesStorable(slots) && from <= p <= q < |slots| && SpellName(slots[p..q], name)
    requires IsReport(slots, from, q, bytes) && |EncodeUnits(name)| <= 255
    ensures bytes == EncodeUnits(name) && Decode(bytes) == Decoded(name, [])
  {
    StorableInside(slots, from, p, q);
    hide LongNamesStorable, SpellName, CollectAll, EncodeUnits, UpToTerminator, Decode, NameOf;
    var junk: seq<Unit> :| |junk| == LFN_UNITS &&
      bytes == NameOf(CollectAll(Collected(false, junk), slots[from..q]), slots[q]);
    hide IsReport;
    CollectInListing(slots, from, p, q, name, Collected(false, junk));
    NameFromUnits(CollectAll(Collected(false, junk), slots[from..q]), slots[q], name);
  }
}
