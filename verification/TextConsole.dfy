/**
 From bytes to cells: the decoder in front of the cell buffer.
 */
module TextConsole {
  import opened FatTable
  import opened Terminal
  import opened Utf8

  lemma {:induction false} TypeAllInParts(p: Page, a: seq<nat>, b: seq<nat>)
    requires p.Valid()
    ensures p.TypeAll(a + b) == p.TypeAll(a).TypeAll(b)
    decreases |a|
  {
    if a == [] {
      assert a + b == b;
    } else {
      assert (a + b)[0] == a[0] && (a + b)[1..] == a[1..] + b;
      TypeAllInParts(p.Type(a[0]), a[1..], b);
    }
  }

  predicate AllPlain(text: seq<nat>) {
    forall i | 0 <= i < |text| :: IsPlain(text[i])
  }

  lemma PlainParts(a: seq<nat>, b: seq<nat>)
    requires AllPlain(a + b)
    ensures AllPlain(a) && AllPlain(b)
  {
    assert forall i | 0 <= i < |a| :: (a + b)[i] == a[i];
    assert forall i | 0 <= i < |b| :: (a + b)[|a| + i] == b[i];
  }

  class Tty {
    const decoder: Decoder
    const console: Console

    ghost predicate Valid()
      reads this, decoder, decoder.fragment, console, console.buffer
    {
      decoder.Valid() && console.Valid()
    }

    constructor (width: nat, height: nat, attr: nat)
      requires width > 0 && height > 0
      ensures Valid() && decoder.Pending() == []
      ensures fresh(decoder) && fresh(decoder.fragment) && fresh(console) && fresh(console.buffer)
      ensures console.page == Page(seq(height, i => BlankRow(width, attr)), 0, 0, width, attr)
    {
      decoder := new Decoder();
      console := new Console(width, height, attr);
    }

    /** One write call: the characters it completes are shown, the rest is kept. */
    method Write(buf: seq<Byte>)
      requires Valid() && Clean(decoder.Pending() + buf) && AllPlain(Decode(decoder.Pending() + buf).text)
      modifies decoder, decoder.fragment, console, console.buffer
      ensures Valid() && console.page == old(console.page).TypeAll(Decode(old(decoder.Pending()) + buf).text)
      ensures decoder.Pending() == Decode(old(decoder.Pending()) + buf).tail
    {
      hide Decode, Clean;
      var shown := |decoder.received|;
      var _ := decoder.Write(buf);
      console.PutText(decoder.received[shown..]);
    }

    method WriteChunks(chunks: seq<seq<Byte>>)
      requires Valid() && Clean(decoder.Pending() + Joined(chunks))
      requires AllPlain(Decode(decoder.Pending() + Joined(chunks)).text)
      modifies decoder, decoder.fragment, console, console.buffer
      ensures Valid()
      ensures console.page == old(console.page).TypeAll(Decode(old(decoder.Pending()) + Joined(chunks)).text)
      ensures decoder.Pending() == Decode(old(decoder.Pending()) + Joined(chunks)).tail
      decreases |chunks|
    {
      if chunks == [] {
        ghost var pending := decoder.Pending();
        assert Decode(pending) == Decoded([], pending);
        assert pending + [] == pending;
        return;
      }
      ghost var first := Decode(decoder.Pending() + chunks[0]);
      ghost var rest := Decode(first.tail + Joined(chunks[1..]));
      hide Decode, Clean, Page.TypeAll, AllPlain;
      InParts(decoder.Pending(), chunks[0], Joined(chunks[1..]));
      PlainParts(first.text, rest.text);
      TypeAllInParts(console.page, first.text, rest.text);
      Write(chunks[0]);
      WriteChunks(chunks[1..]);
    }

    /** However the bytes of a text are cut into write calls, the screen shows the end of the page with that text. */
    method WriteAll(chunks: seq<seq<Byte>>, ghost text: seq<nat>)
      requires Valid() && decoder.Pending() == [] && AllPlain(text)
      requires (forall c | c in text :: IsCodePoint(c)) && Joined(chunks) == EncodeText(text)
      modifies decoder, decoder.fragment, console, console.buffer
      ensures Valid() && decoder.Pending() == [] && console.page == old(console.page).TypeAll(text)
    {
      assert Clean([]) && Decode([]) == Decoded([], []);
      hide Decode, Clean, Page.TypeAll;
      DecodeEncoded(text, []);
      assert EncodeText(text) + [] == EncodeText(text) && text + [] == text;
      assert [] + Joined(chunks) == Joined(chunks);
      WriteChunks(chunks);
    }
  }
}
