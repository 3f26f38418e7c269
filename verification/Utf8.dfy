/**
 UTF-8 as the console reads and the FAT driver writes it. The console's decoder is a stream: the
 bytes of one character may arrive in several calls, so an incomplete tail is carried along.
 */
module Utf8 {
  import opened FatTable
  import opened Sequences

  // ---------- The encoding (section 3 of RFC 3629) ----------

  predicate IsCodePoint(c: nat) {
    c <= 0x10FFFF
  }

  function Encode(c: nat): (bs: seq<Byte>)
    requires IsCodePoint(c)
    ensures 1 <= |bs| <= 4
  {
    if c < 0x80 then [c]
    else if c < 0x800 then [0xC0 + c / 64, 0x80 + c % 64]
    else if c < 0x10000 then [0xE0 + c / 4096, 0x80 + c / 64 % 64, 0x80 + c % 64]
    else [0xF0 + c / 262144, 0x80 + c / 4096 % 64, 0x80 + c / 64 % 64, 0x80 + c % 64]
  }

  function EncodeText(text: seq<nat>): seq<Byte>
    requires forall c | c in text :: IsCodePoint(c)
  {
    if text == [] then [] else Encode(text[0]) + EncodeText(text[1..])
  }

  /** a comes before b in the order of bytes. */
  predicate Before(a: seq<Byte>, b: seq<Byte>) {
    b != [] && (a == [] || a[0] < b[0] || (a[0] == b[0] && Before(a[1..], b[1..])))
  }

  lemma BeforeAt(a: seq<Byte>, b: seq<Byte>, k: nat)
    requires k < |a| && k < |b| && a[..k] == b[..k] && a[k] < b[k]
    ensures Before(a, b)
  {
    if k > 0 {
      assert a[0] == a[..k][0] == b[..k][0] == b[0];
      assert a[1..][..k - 1] == a[..k][1..] == b[..k][1..] == b[1..][..k - 1];
      BeforeAt(a[1..], b[1..], k - 1);
    }
  }

  lemma Quotients(c: nat, d: nat)
    requires c < d
    ensures c / 64 <= d / 64 && (c / 64 == d / 64 ==> c % 64 < d % 64)
  {
  }

  lemma DigitsInOrder(c: nat, d: nat)
    requires c < d
    ensures c / 4096 <= d / 4096 && c / 262144 <= d / 262144
    ensures c / 64 < d / 64 && c / 4096 == d / 4096 ==> c / 64 % 64 < d / 64 % 64
    ensures c / 4096 < d / 4096 && c / 262144 == d / 262144 ==> c / 4096 % 64 < d / 4096 % 64
  {
    assert c / 64 / 64 == c / 4096 && d / 64 / 64 == d / 4096;
    assert c / 4096 / 64 == c / 262144 && d / 4096 / 64 == d / 262144;
  }

  /** Encodings of one length differ first in a byte that is smaller. */
  lemma SameLengthInOrder(c: nat, d: nat)
    requires c < d && IsCodePoint(d) && |Encode(c)| == |Encode(d)|
    ensures Before(Encode(c), Encode(d))
  {
    var a, b := Encode(c), Encode(d);
    Quotients(c, d);
    DigitsInOrder(c, d);
    var k := if a[0] != b[0] then 0 else if a[1] != b[1] then 1 else if a[2] != b[2] then 2 else 3;
    hide Before;
    BeforeAt(a, b, k);
  }

  /** A shorter encoding starts with a smaller byte. */
  lemma ShorterInOrder(c: nat, d: nat)
    requires c < d && IsCodePoint(d) && |Encode(c)| != |Encode(d)|
    ensures Encode(c)[0] < Encode(d)[0]
  {
  }

  /** The order of code points is the order of their bytes. */
  lemma EncodingKeepsOrder(c: nat, d: nat)
    requires c < d && IsCodePoint(d)
    ensures Before(Encode(c), Encode(d))
  {
    hide Encode;
    if |Encode(c)| == |Encode(d)| {
      SameLengthInOrder(c, d);
    } else {
      ShorterInOrder(c, d);
    }
  }

  // ---------- Reading it back ----------

  predicate IsLead(b: Byte) {
    b < 0x80 || 0xC0 <= b < 0xF8
  }

  predicate IsContinuation(b: Byte) {
    0x80 <= b < 0xC0
  }

  /** How many bytes a lead byte announces. */
  function Announced(lead: Byte): (n: nat)
    ensures 1 <= n <= 4
  {
    if lead < 0x80 then 1 else if lead < 0xE0 then 2 else if lead < 0xF0 then 3 else 4
  }

  /** The bits a lead byte contributes, as a number. */
  function LeadBits(lead: Byte): nat {
    if lead < 0x80 then lead
    else if lead < 0xE0 then lead % 32
    else if lead < 0xF0 then lead % 16
    else lead % 8
  }

  function Low6(b: Byte): nat {
    b % 64
  }

  /** The number whose base-64 digits are the lead bits and the low six bits of what follows. */
  function Value(bs: seq<Byte>): nat
    requires bs != []
  {
    if |bs| == 1 then LeadBits(bs[0])
    else 64 * Value(bs[..|bs| - 1]) + Low6(bs[|bs| - 1])
  }

  /** Lead bytes are where they should be and every byte after one continues it. */
  ghost predicate Clean(bs: seq<Byte>)
    decreases |bs|
  {
    bs != [] ==>
      && IsLead(bs[0])
      && (forall i | 0 < i < Announced(bs[0]) && i < |bs| :: IsContinuation(bs[i]))
      && (Announced(bs[0]) <= |bs| ==> Clean(bs[Announced(bs[0])..]))
  }

  datatype Decoded = Decoded(text: seq<nat>, tail: seq<Byte>)

  /** The complete characters at the front and the bytes of the incomplete one behind them. */
  function Decode(bs: seq<Byte>): (d: Decoded)
    decreases |bs|
  {
    if bs == [] || |bs| < Announced(bs[0]) then Decoded([], bs)
    else
      var n := Announced(bs[0]);
      var rest := Decode(bs[n..]);
      Decoded([Value(bs[..n])] + rest.text, rest.tail)
  }

  // ---------- Decoding undoes encoding ----------

  lemma ValueOfBytes(bs: seq<Byte>)
    requires 2 <= |bs| <= 4
    ensures |bs| == 2 ==> Value(bs) == 64 * LeadBits(bs[0]) + Low6(bs[1])
    ensures |bs| == 3 ==> Value(bs) == 4096 * LeadBits(bs[0]) + 64 * Low6(bs[1]) + Low6(bs[2])
    ensures |bs| == 4 ==> Value(bs) == 262144 * LeadBits(bs[0]) + 4096 * Low6(bs[1])
                                       + 64 * Low6(bs[2]) + Low6(bs[3])
  {
    if |bs| > 2 {
      ValueOfBytes(bs[..|bs| - 1]);
    }
  }

  lemma Digits64(c: nat)
    ensures c == 64 * (c / 64) + c % 64
    ensures c / 64 == 64 * (c / 4096) + c / 64 % 64
    ensures c / 4096 == 64 * (c / 262144) + c / 4096 % 64
  {
  }

  lemma SplitByte(mark: nat, digit: nat)
    requires mark in {0x80, 0xC0, 0xE0, 0xF0} && digit < (if mark == 0x80 then 64 else (256 - mark) / 2)
    ensures (mark + digit) % 64 == digit || mark != 0x80
    ensures LeadBits(mark + digit) == digit || mark == 0x80
  {
  }

  lemma ValueOfEncoding(c: nat)
    requires IsCodePoint(c)
    ensures var bs := Encode(c);
            && Announced(bs[0]) == |bs| && Value(bs) == c && IsLead(bs[0])
            && forall i | 0 < i < |bs| :: IsContinuation(bs[i])
  {
    var bs := Encode(c);
    Digits64(c);
    if c >= 0x80 {
      ValueOfBytes(bs);
      hide Value, LeadBits;
      SplitByte(0x80, c % 64);
      SplitByte(0x80, c / 64 % 64);
      SplitByte(0x80, c / 4096 % 64);
      if |bs| == 2 {
        SplitByte(0xC0, c / 64);
      } else if |bs| == 3 {
        SplitByte(0xE0, c / 4096);
      } else {
        SplitByte(0xF0, c / 262144);
      }
    }
  }

  /** A whole character in front of other bytes. */
  lemma DecodeFirst(first: seq<Byte>, rest: seq<Byte>)
    requires first != [] && Announced(first[0]) == |first| && IsLead(first[0])
    requires forall i | 0 < i < |first| :: IsContinuation(first[i])
    ensures Decode(first + rest).text == [Value(first)] + Decode(rest).text
    ensures Decode(first + rest).tail == Decode(rest).tail
    ensures Clean(rest) ==> Clean(first + rest)
  {
    hide Value, IsLead, IsContinuation;
    var all := first + rest;
    assert all[0] == first[0];
    TakeAndDrop(first, rest);
    assert forall i | 0 < i < |first| :: all[i] == first[i];
  }

  lemma {:induction false} DecodeEncoded(text: seq<nat>, tail: seq<Byte>)
    requires forall c | c in text :: IsCodePoint(c)
    ensures Decode(EncodeText(text) + tail) == Decoded(text + Decode(tail).text, Decode(tail).tail)
    ensures Clean(tail) ==> Clean(EncodeText(text) + tail)
  {
    if text == [] {
      assert EncodeText(text) + tail == tail;
    } else {
      var first, rest := Encode(text[0]), EncodeText(text[1..]) + tail;
      assert EncodeText(text) == first + EncodeText(text[1..]);
      ValueOfEncoding(text[0]);
      hide Encode, EncodeText, Decode, Clean, Value, Announced, IsLead, IsContinuation;
      AppendIsAssociative(first, EncodeText(text[1..]), tail);
      DecodeFirst(first, rest);
      DecodeEncoded(text[1..], tail);
      HeadFirst(text, Decode(tail).text);
    }
  }

  /** Decoding everything at once or carrying the tail of the front part over is the same. */
  lemma {:induction false} DecodeInTwoParts(a: seq<Byte>, b: seq<Byte>)
    ensures Decode(a + b).text == Decode(a).text + Decode(Decode(a).tail + b).text
    ensures Decode(a + b).tail == Decode(Decode(a).tail + b).tail
    decreases |a|
  {
    if a != [] && Announced(a[0]) <= |a| {
      var n := Announced(a[0]);
      assert (a + b)[..n] == a[..n] && (a + b)[n..] == a[n..] + b;
      DecodeInTwoParts(a[n..], b);
    }
  }

  lemma {:induction false} CleanTail(a: seq<Byte>, b: seq<Byte>)
    requires Clean(a + b)
    ensures Clean(Decode(a).tail + b)
    decreases |a|
  {
    if a != [] && Announced(a[0]) <= |a| {
      var n := Announced(a[0]);
      assert (a + b)[0] == a[0] && (a + b)[n..] == a[n..] + b;
      CleanTail(a[n..], b);
    }
  }

  lemma {:induction false} CleanPrefix(a: seq<Byte>, b: seq<Byte>)
    requires Clean(a + b)
    ensures Clean(a)
    decreases |a|
  {
    if a != [] {
      assert forall i | 0 <= i < |a| :: (a + b)[i] == a[i];
      var n := Announced(a[0]);
      if n <= |a| {
        assert (a + b)[n..] == a[n..] + b;
        CleanPrefix(a[n..], b);
      }
    }
  }

  /** What two parts decode to, the second one behind the tail of the first. */
  lemma InParts(pending: seq<Byte>, front: seq<Byte>, back: seq<Byte>)
    requires Clean(pending + (front + back))
    ensures Clean(pending + front) && Clean(Decode(pending + front).tail + back)
    ensures var first := Decode(pending + front);
      Decode(pending + (front + back)).text == first.text + Decode(first.tail + back).text &&
      Decode(pending + (front + back)).tail == Decode(first.tail + back).tail
  {
    hide Decode, Clean;
    assert pending + (front + back) == (pending + front) + back;
    CleanPrefix(pending + front, back);
    CleanTail(pending + front, back);
    DecodeInTwoParts(pending + front, back);
  }

  /** What the bytes of one round decode to. */
  lemma DecodeStart(bs: seq<Byte>)
    requires bs != [] && Clean(bs)
    ensures |bs| < Announced(bs[0]) ==> Decode(bs) == Decoded([], bs)
    ensures |bs| >= Announced(bs[0]) ==>
              var n := Announced(bs[0]);
              && Clean(bs[n..]) && Decode(bs).text == [Value(bs[..n])] + Decode(bs[n..]).text
              && Decode(bs).tail == Decode(bs[n..]).tail
  {
    hide Value;
  }

  // ---------- The console's decoder ----------

  function Joined(chunks: seq<seq<Byte>>): seq<Byte> {
    if chunks == [] then [] else chunks[0] + Joined(chunks[1..])
  }

  lemma JoinedMore(chunks: seq<seq<Byte>>)
    requires chunks != []
    ensures Joined(chunks) == chunks[0] + Joined(chunks[1..])
  {
  }

  /** 64 to the power k, as a shift by 6 * k. */
  function Weight(k: nat): nat {
    if k == 0 then 1 else 64 * Weight(k - 1)
  }

  lemma Shifted(v: nat, d: nat, w: nat)
    ensures v * (64 * w) + d * w == (64 * v + d) * w
  {
  }

  lemma AddDigit(bs: seq<Byte>, k: nat)
    requires |bs| >= 2
    ensures var last := |bs| - 1;
            Value(bs[..last]) * Weight(k + 1) + Low6(bs[last]) * Weight(k) == Value(bs) * Weight(k)
  {
    var last := |bs| - 1;
    assert Value(bs) == 64 * Value(bs[..last]) + Low6(bs[last]) && Weight(k + 1) == 64 * Weight(k);
    hide Value, Low6, Weight;
    Shifted(Value(bs[..last]), Low6(bs[last]), Weight(k));
  }

  lemma FirstDigit(bs: seq<Byte>)
    requires |bs| == 1
    ensures Value(bs) == LeadBits(bs[0])
  {
  }

  /** What the first i of n bytes contribute to a character. */
  function PartValue(bytes: seq<Byte>, i: nat, n: nat): int
    requires 0 < i <= n <= |bytes|
  {
    Value(bytes[..i]) * Weight(n - i)
  }

  lemma PartStarts(bytes: seq<Byte>, n: nat)
    requires 0 < n <= |bytes|
    ensures PartValue(bytes, 1, n) == LeadBits(bytes[0]) * Weight(n - 1)
  {
    FirstDigit(bytes[..1]);
  }

  lemma PartGrows(bytes: seq<Byte>, i: nat, n: nat)
    requires 0 < i < n <= |bytes|
    ensures PartValue(bytes, i + 1, n) == PartValue(bytes, i, n) + Low6(bytes[i]) * Weight(n - i - 1)
  {
    hide Value, Low6, Weight;
    AddDigit(bytes[..i + 1], n - i - 1);
    assert bytes[..i + 1][..i] == bytes[..i];
  }

  lemma PartEnds(bytes: seq<Byte>, n: nat)
    requires 0 < n <= |bytes|
    ensures PartValue(bytes, n, n) == Value(bytes[..n])
  {
    assert Weight(0) == 1;
  }

  class Decoder {
    /** The bytes of a character whose end has not arrived yet. */
    const fragment: array<Byte>
    var fragmentLen: nat
    /** The characters handed to put_char, in order. */
    var received: seq<nat>

    function Pending(): seq<Byte>
      reads this, fragment
    {
      if fragmentLen <= fragment.Length then fragment[..fragmentLen] else []
    }

    ghost predicate Valid()
      reads this, fragment
    {
      && fragment.Length == 6
      && fragmentLen <= 3
      && Decode(Pending()) == Decoded([], Pending())
    }

    constructor ()
      ensures Valid() && fresh(fragment) && received == [] && Pending() == []
    {
      fragment := new Byte[6];
      fragmentLen, received := 0, [];
    }

    /** Byte i of the fragment followed by what is left of the caller's buffer. */
    function SeqChar(rest: seq<Byte>, i: nat): (b: Byte)
      requires Valid() && i < fragmentLen + |rest|
      reads this, fragment
      ensures b == (Pending() + rest)[i]
    {
      if i < fragmentLen then fragment[i] else rest[i - fragmentLen]
    }

    /** The loop of get_seq_char over the bytes of a complete character. */
    method Assemble(rest: seq<Byte>) returns (wch: int, charLen: int)
      requires Valid() && rest != [] && Clean(Pending() + rest)
      requires Announced((Pending() + rest)[0]) <= fragmentLen + |rest|
      ensures charLen == Announced((Pending() + rest)[0]) && wch == Value((Pending() + rest)[..charLen])
    {
      hide LeadBits, Low6, Weight, Value, PartValue;
      ghost var bytes := Pending() + rest;
      var lead := SeqChar(rest, 0);
      charLen := Announced(lead);
      wch := LeadBits(lead) * Weight(charLen - 1);
      PartStarts(bytes, charLen);
      var i := 1;
      while i < charLen
        invariant 1 <= i <= charLen == Announced(lead)
        invariant wch == PartValue(bytes, i, charLen)
      {
        var seqChar := SeqChar(rest, i);
        if !IsContinuation(seqChar) {
          wch, charLen := 0xFFFD, i;
          break;
        }
        PartGrows(bytes, i, charLen);
        wch := wch + Low6(seqChar) * Weight(charLen - i - 1);
        i := i + 1;
      }
      PartEnds(bytes, charLen);
    }

    /** One character off the front of the fragment and the buffer. */
    method TakeChar(rest: seq<Byte>) returns (charLen: int)
      requires Valid() && rest != [] && Clean(Pending() + rest)
      modifies this, fragment
      ensures Valid()
      ensures var bytes := old(Pending()) + rest;
              var n := Announced(bytes[0]);
              if |bytes| < n then charLen == 0 && received == old(received) && Pending() == bytes
              else charLen == n - old(fragmentLen) && 0 < charLen <= |rest|
                   && received == old(received) + [Value(bytes[..n])] && Pending() == []
    {
      hide Weight, Value, LeadBits, Low6;
      ghost var bytes := Pending() + rest;
      charLen := Announced(SeqChar(rest, 0));
      if fragmentLen + |rest| < charLen {
        hide Clean, IsLead, IsContinuation;
        forall i | 0 <= i < |rest| {
          fragment[fragmentLen + i] := rest[i];
        }
        fragmentLen := fragmentLen + |rest|;
        assert Pending() == bytes;
        return 0;
      }
      var wch;
      wch, charLen := Assemble(rest);
      received := received + [wch];
      charLen := charLen - fragmentLen;
      fragmentLen := 0;
    }

    /** One write call: hands on the characters completed by these bytes, keeps the rest. */
    method Write(buf: seq<Byte>) returns (written: nat)
      requires Valid() && Clean(Pending() + buf)
      modifies this, fragment
      ensures Valid() && written == |buf|
      ensures received == old(received) + Decode(old(Pending()) + buf).text
      ensures Pending() == Decode(old(Pending()) + buf).tail
    {
      hide Decode, Clean, Announced, Value;
      ghost var goal := Decode(Pending() + buf);
      var rest := buf;
      written := 0;
      while rest != []
        invariant Valid() && written + |rest| == |buf|
        invariant Clean(Pending() + rest)
        invariant received + Decode(Pending() + rest).text == old(received) + goal.text
        invariant Decode(Pending() + rest).tail == goal.tail
        decreases |rest|
      {
        ghost var bytes, so := Pending() + rest, received;
        DecodeStart(bytes);
        var charLen := TakeChar(rest);
        if charLen == 0 {
          assert received + [] == received;
          written := written + |rest|;
          return;
        }
        assert bytes[Announced(bytes[0])..] == rest[charLen..] == Pending() + rest[charLen..];
        AppendIsAssociative(so, [Value(bytes[..Announced(bytes[0])])], Decode(rest[charLen..]).text);
        rest, written := rest[charLen..], written + charLen;
      }
      assert Pending() + [] == Pending() && received + [] == received;
    }

    method WriteChunks(chunks: seq<seq<Byte>>)
      requires Valid() && Clean(Pending() + Joined(chunks))
      modifies this, fragment
      ensures Valid()
      ensures received == old(received) + Decode(old(Pending()) + Joined(chunks)).text
      ensures Pending() == Decode(old(Pending()) + Joined(chunks)).tail
      decreases |chunks|
    {
      if chunks == [] {
        ghost var pending := Pending();
        assert Decode(pending) == Decoded([], pending);
        assert pending + [] == pending && received + [] == received;
        return;
      }
      ghost var so, front, back := received, Pending() + chunks[0], Joined(chunks[1..]);
      hide Decode, Clean, Joined;
      JoinedMore(chunks);
      InParts(Pending(), chunks[0], back);
      AppendIsAssociative(so, Decode(front).text, Decode(Decode(front).tail + back).text);
      var _ := Write(chunks[0]);
      WriteChunks(chunks[1..]);
    }

    /** However the bytes of a text are cut into write calls, put_char receives that text. */
    method WriteAll(chunks: seq<seq<Byte>>, ghost text: seq<nat>)
      requires Valid() && Pending() == []
      requires forall c | c in text :: IsCodePoint(c)
      requires Joined(chunks) == EncodeText(text)
      modifies this, fragment
      ensures Valid() && Pending() == []
      ensures received == old(received) + text
    {
      DecodeEncoded(text, []);
      assert EncodeText(text) + [] == EncodeText(text) && text + [] == text;
      assert [] + Joined(chunks) == Joined(chunks);
      WriteChunks(chunks);
    }
  }
}
