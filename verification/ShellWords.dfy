/**
 What a word of the command line may be made of: plain characters, quoted stretches, escaped characters and numbers.
 The tokeniser reads every such word as the pieces in order. A letter behind a backslash is read twice.
 */
module ShellWords {
  import opened Arithmetic
  import opened Options
  import opened Shell

  datatype Piece =
    /** A character as it is. */
    | Bare(c: char)
    /** A stretch in quotes of one kind. */
    | Quoted(quote: char, s: string)
    /** A backslash, and a character that it keeps from meaning anything. */
    | Escaped(c: char)
    /** A backslash and one of the letters of `CONTROLS`. */
    | Letter(k: nat)
    /** A backslash and three octal digits. */
    | Octal(c: char)
    /** A backslash, an x and two hexadecimal digits. */
    | Hex(c: char)

  const CONTROLS := "abefnrtv"
  const CODES := [7, 8, 27, 12, 10, 13, 9, 11]
  const DIGITS := "0123456789abcdef"

  function DigitAt(c: char, unit: nat, base: nat): char
    requires 0 < unit && 0 < base <= 16
  {
    DIGITS[c as int / unit % base]
  }

  predicate WellFormed(p: Piece) {
    match p
    case Bare(c) => c != '"' && c != '\'' && c != '\\' && c != ' ' && c != '\t'
    case Quoted(quote, s) =>
      (quote == '"' || quote == '\'') && forall i | 0 <= i < |s| :: s[i] != '"' && s[i] != '\'' && s[i] != '\\'
    case Escaped(c) => c == '\\' || c == '\'' || c == '"' || c == '?' || c == ' ' || c == '\t'
    case Letter(k) => k < 8
    case Octal(c) => c as int < 256
    case Hex(c) => c as int < 256
  }

  function PieceText(p: Piece): string
    requires WellFormed(p)
  {
    match p
    case Bare(c) => [c]
    case Quoted(quote, s) => [quote] + s + [quote]
    case Escaped(c) => "\\" + [c]
    case Letter(k) => "\\" + [CONTROLS[k]]
    case Octal(c) => "\\" + [DigitAt(c, 64, 8), DigitAt(c, 8, 8), DigitAt(c, 1, 8)]
    case Hex(c) => "\\x" + [DigitAt(c, 16, 16), DigitAt(c, 1, 16)]
  }

  /** The letter of an escape comes once more behind the control character. */
  function PieceMeaning(p: Piece): string
    requires WellFormed(p)
  {
    match p
    case Bare(c) => [c]
    case Quoted(_, s) => s
    case Escaped(c) => [c]
    case Letter(k) => [CODES[k] as char, CONTROLS[k]]
    case Octal(c) => [c]
    case Hex(c) => [c]
  }

  /** A number ends where it seems to. */
  predicate Ends(p: Piece, rest: string) {
    match p
    case Octal(_) => rest == "" || !('0' <= rest[0] <= '7')
    case Hex(_) => rest == "" || !('0' <= rest[0] <= '9' || 'a' <= rest[0] <= 'f' || 'A' <= rest[0] <= 'F')
    case _ => true
  }

  function Text(ps: seq<Piece>): string
    requires forall p | p in ps :: WellFormed(p)
  {
    if ps == [] then "" else PieceText(ps[0]) + Text(ps[1..])
  }

  function Meaning(ps: seq<Piece>): string
    requires forall p | p in ps :: WellFormed(p)
  {
    if ps == [] then "" else PieceMeaning(ps[0]) + Meaning(ps[1..])
  }

  /** Every number among the pieces ends where it seems to, the last one in front of `rest`. */
  predicate AllEnd(ps: seq<Piece>, rest: string)
    requires forall p | p in ps :: WellFormed(p)
  {
    ps != [] ==> Ends(ps[0], Text(ps[1..]) + rest) && AllEnd(ps[1..], rest)
  }

  // ---------- Pushing several characters ----------

  /** What follows when the characters of s have been pushed. */
  function PushAll(s: string, more: Scanned): Scanned {
    if more.Full? then Full else Token(s + more.pushed, more.rest)
  }

  /** Scanning t pushes s and goes on with u. */
  ghost predicate Pushes(t: string, quote: char, s: string, u: string, quote': char) {
    forall room: nat :: Scan(t, quote, room) == if |s| <= room then PushAll(s, Scan(u, quote', room - |s|)) else Full
  }

  lemma PushesNothing(t: string, quote: char, u: string, quote': char)
    requires forall room: nat :: Scan(t, quote, room) == Scan(u, quote', room)
    ensures Pushes(t, quote, "", u, quote')
  {
    hide Scan;
    forall room: nat ensures Scan(t, quote, room) == PushAll("", Scan(u, quote', room)) {
      var more := Scan(u, quote', room);
      assert more.Token? ==> "" + more.pushed == more.pushed;
    }
  }

  lemma PushesOne(t: string, quote: char, c: char, u: string, quote': char)
    requires forall room: nat ::
               Scan(t, quote, room) == Push(c, room, if room > 0 then Scan(u, quote', room - 1) else Full)
    ensures Pushes(t, quote, [c], u, quote')
  {
    hide Scan;
  }

  lemma PushesBoth(t: string, q: char, s: string, u: string, q': char, s': string, w: string, q'': char)
    requires Pushes(t, q, s, u, q') && Pushes(u, q', s', w, q'')
    ensures Pushes(t, q, s + s', w, q'')
  {
    hide Scan;
    forall room: nat
      ensures Scan(t, q, room)
           == if |s + s'| <= room then PushAll(s + s', Scan(w, q'', room - |s + s'|)) else Full
    {
      if |s| <= room {
        var more := Scan(u, q', room - |s|);
        if |s'| <= room - |s| {
          var last := Scan(w, q'', room - |s| - |s'|);
          assert last.Token? ==> s + (s' + last.pushed) == s + s' + last.pushed;
        }
      }
    }
  }

  // ---------- One piece ----------

  lemma BareScanned(c: char, quote: char, u: string)
    requires c != '"' && c != '\'' && c != '\\' && ((c != ' ' && c != '\t') || quote != '\0')
    ensures Pushes([c] + u, quote, [c], u, quote)
  {
    assert ([c] + u)[1..] == u;
    PushesOne([c] + u, quote, c, u, quote);
  }

  lemma QuoteToggles(q: char, quote: char, u: string)
    requires q == '"' || q == '\''
    ensures Pushes([q] + u, quote, "", u, if quote == q then '\0' else q)
  {
    assert ([q] + u)[1..] == u;
    PushesNothing([q] + u, quote, u, if quote == q then '\0' else q);
  }

  lemma {:induction false} InsideQuotes(s: string, q: char, u: string)
    requires (q == '"' || q == '\'') && forall i | 0 <= i < |s| :: s[i] != '"' && s[i] != '\'' && s[i] != '\\'
    ensures Pushes(s + ([q] + u), q, s, u, '\0')
  {
    hide Pushes;
    if s == "" {
      assert s + ([q] + u) == [q] + u;
      QuoteToggles(q, q, u);
    } else {
      var more := s[1..] + ([q] + u);
      InsideQuotes(s[1..], q, u);
      BareScanned(s[0], q, more);
      PushesBoth([s[0]] + more, q, [s[0]], more, q, s[1..], u, '\0');
      assert s == [s[0]] + s[1..] && s + ([q] + u) == [s[0]] + more;
    }
  }

  lemma QuotedScanned(q: char, s: string, u: string)
    requires WellFormed(Quoted(q, s))
    ensures Pushes([q] + s + [q] + u, '\0', s, u, '\0')
  {
    hide Pushes;
    var more := s + ([q] + u);
    QuoteToggles(q, '\0', more);
    InsideQuotes(s, q, u);
    PushesBoth([q] + more, '\0', "", more, q, s, u, '\0');
    assert "" + s == s && [q] + s + [q] + u == [q] + more;
  }

  lemma EscapedScanned(c: char, u: string)
    requires WellFormed(Escaped(c))
    ensures Pushes("\\" + [c] + u, '\0', [c], u, '\0')
  {
    var t := "\\" + [c] + u;
    assert t[1..] == [c] + u && ([c] + u)[1..] == u;
    PushesOne(t, '\0', c, u, '\0');
  }

  lemma LetterScanned(k: nat, u: string)
    requires k < 8
    ensures Pushes("\\" + [CONTROLS[k]] + u, '\0', [CODES[k] as char, CONTROLS[k]], u, '\0')
  {
    var c, more := CONTROLS[k], [CONTROLS[k]] + u;
    var t := "\\" + [c] + u;
    assert t[1..] == more && t[0] == '\\';
    assert Control(c) == Some(CODES[k] as char) && !Verbatim(c) && !('0' <= c <= '7');
    PushesOne(t, '\0', CODES[k] as char, more, '\0');
    BareScanned(c, '\0', u);
    hide Pushes;
    PushesBoth(t, '\0', [CODES[k] as char], more, '\0', [c], u, '\0');
    assert [CODES[k] as char] + [c] == [CODES[k] as char, c];
  }

  lemma DigitIs(d: nat)
    requires d < 16
    ensures DigitOf(DIGITS[d]) == d && (d < 8 ==> '0' <= DIGITS[d] <= '7') && (d == 0 <==> DIGITS[d] == '0')
    ensures DIGITS[d] != ' ' && DIGITS[d] != '+' && DIGITS[d] != '-' && DIGITS[d] != 'x' && DIGITS[d] != 'X'
  {
  }

  lemma WrapSmall(x: nat)
    requires x < 0x8000_0000
    ensures Wrap32(x) == x
  {
  }

  lemma OneDigitRead(c: char, u: string, base: nat, ret: nat, next: nat)
    requires DigitOf(c) < base && next == ret * base + DigitOf(c) < 0x8000_0000
    ensures ReadNumber([c] + u, base, ret) == ReadNumber(u, base, next)
  {
    assert ([c] + u)[1..] == u;
    WrapSmall(next);
    hide Wrap32, DigitOf;
  }

  /** One digit more, while the number stays small. */
  lemma ReadDigit(d: nat, u: string, base: nat, ret: nat)
    requires d < base <= 16 && ret < 4096
    ensures ReadNumber([DIGITS[d]] + u, base, ret) == ReadNumber(u, base, ret * base + d)
  {
    DigitIs(d);
    assert 0 <= ret * base + d < 0x8000_0000 by { MulMonotone(ret, 4096, base); }
    hide ReadNumber, DigitOf;
    OneDigitRead(DIGITS[d], u, base, ret, ret * base + d);
  }

  lemma NumberEnds(u: string, base: nat, ret: nat)
    requires u == "" || DigitOf(u[0]) >= base
    ensures ReadNumber(u, base, ret) == Some((ret, u))
  {
  }

  lemma StrtolOf(c: char, more: string, base: nat)
    requires c != ' ' && c != '+' && c != '-' && more != "" && more[0] != 'x' && more[0] != 'X'
    ensures Strtol([c] + more, base) ==
      match ReadNumber(if c == '0' then more else [c] + more, base, 0)
      case Some(n) => ((n.0 % 256) as char, n.1)
      case None => (255 as char, [c] + more)
  {
    hide ReadNumber;
    var t := [c] + more;
    assert t[1..] == more && t[0] == c && t[1] == more[0];
    assert SkipBlanks(t, false) == t;
    hide SkipBlanks;
  }

  lemma StartDigit(d: nat, base: nat)
    ensures 0 * base + d == d
  {
  }

  lemma StrtolStarts(d: nat, more: string, base: nat)
    requires d < base <= 16 && more != "" && more[0] != 'x' && more[0] != 'X'
    ensures var n := ReadNumber(more, base, d);
      n.Some? ==> Strtol([DIGITS[d]] + more, base) == ((n.value.0 % 256) as char, n.value.1)
  {
    DigitIs(d);
    hide ReadNumber, DigitOf, Strtol;
    ReadDigit(d, more, base, 0);
    var c := DIGITS[d];
    StartDigit(d, base);
    assert c == '0' ==> d == 0;
    StrtolOf(c, more, base);
  }

  lemma BehindDigit(d: nat, u: string)
    requires d < 16
    ensures [DIGITS[d]] + u != "" && ([DIGITS[d]] + u)[0] != 'x' && ([DIGITS[d]] + u)[0] != 'X'
  {
    DigitIs(d);
  }

  lemma ByteAgain(c: char)
    requires c as int < 256
    ensures (c as int % 256) as char == c
  {
  }

  lemma ThreeDigits(x: nat, y: nat, z: nat, base: nat, c: char, u: string)
    requires x < base && y < base && z < base <= 8 && (x * base + y) * base + z == c as int < 256
    requires u == "" || DigitOf(u[0]) >= base
    ensures Strtol([DIGITS[x]] + ([DIGITS[y]] + ([DIGITS[z]] + u)), base) == (c, u)
  {
    NumberEnds(u, base, c as int);
    ByteAgain(c);
    assert x * base + y < 4096;
    hide ReadNumber, Strtol, DigitOf;
    ReadDigit(z, u, base, x * base + y);
    ReadDigit(y, [DIGITS[z]] + u, base, x);
    BehindDigit(y, [DIGITS[z]] + u);
    StrtolStarts(x, [DIGITS[y]] + ([DIGITS[z]] + u), base);
  }

  lemma TwoDigits(y: nat, z: nat, base: nat, c: char, u: string)
    requires y < base && z < base <= 16 && y * base + z == c as int < 256
    requires u == "" || DigitOf(u[0]) >= base
    ensures Strtol([DIGITS[y]] + ([DIGITS[z]] + u), base) == (c, u)
  {
    NumberEnds(u, base, c as int);
    ByteAgain(c);
    hide ReadNumber, Strtol, DigitOf;
    ReadDigit(z, u, base, y);
    BehindDigit(z, u);
    StrtolStarts(y, [DIGITS[z]] + u, base);
  }

  lemma OctalEnds(c: char, u: string)
    requires Ends(Octal(c), u)
    ensures u == "" || DigitOf(u[0]) >= 8
  {
  }

  lemma HexEnds(c: char, u: string)
    requires Ends(Hex(c), u)
    ensures u == "" || DigitOf(u[0]) >= 16
  {
  }

  lemma OctalDigits(c: nat)
    requires c < 256
    ensures c / 64 % 8 < 8 && (c / 64 % 8 * 8 + c / 8 % 8) * 8 + c / 1 % 8 == c
  {
  }

  lemma HexDigits(c: nat)
    requires c < 256
    ensures c / 16 % 16 < 16 && c / 16 % 16 * 16 + c / 1 % 16 == c
  {
  }

  lemma NumberEscape(x: char, w: string, c: char, u: string)
    requires '0' <= x <= '7' && Strtol([x] + w, 8) == (c, u)
    ensures Pushes("\\" + ([x] + w), '\0', [c], u, '\0')
  {
    hide Strtol;
    var t := "\\" + ([x] + w);
    assert t[1..] == [x] + w && !Verbatim(x) && Control(x) == None;
    PushesOne(t, '\0', c, u, '\0');
  }

  lemma HexEscape(w: string, c: char, u: string)
    requires Strtol(w, 16) == (c, u)
    ensures Pushes("\\" + ("x" + w), '\0', [c], u, '\0')
  {
    hide Strtol;
    var t := "\\" + ("x" + w);
    assert t[1..] == "x" + w && ("x" + w)[1..] == w;
    PushesOne(t, '\0', c, u, '\0');
  }

  lemma OctalScanned(c: char, u: string)
    requires c as int < 256 && Ends(Octal(c), u)
    ensures Pushes(PieceText(Octal(c)) + u, '\0', [c], u, '\0')
  {
    var x, y, z := c as int / 64 % 8, c as int / 8 % 8, c as int / 1 % 8;
    OctalDigits(c as int);
    OctalEnds(c, u);
    DigitIs(x);
    hide DigitOf, Pushes, Strtol, Ends;
    ThreeDigits(x, y, z, 8, c, u);
    NumberEscape(DIGITS[x], [DIGITS[y]] + ([DIGITS[z]] + u), c, u);
    assert PieceText(Octal(c)) + u == "\\" + ([DIGITS[x]] + ([DIGITS[y]] + ([DIGITS[z]] + u)));
  }

  lemma HexScanned(c: char, u: string)
    requires c as int < 256 && Ends(Hex(c), u)
    ensures Pushes(PieceText(Hex(c)) + u, '\0', [c], u, '\0')
  {
    var y, z := c as int / 16 % 16, c as int / 1 % 16;
    HexDigits(c as int);
    HexEnds(c, u);
    hide DigitOf, Pushes, Strtol, Ends;
    TwoDigits(y, z, 16, c, u);
    HexEscape([DIGITS[y]] + ([DIGITS[z]] + u), c, u);
    assert PieceText(Hex(c)) + u == "\\" + ("x" + ([DIGITS[y]] + ([DIGITS[z]] + u)));
  }

  lemma PieceScanned(p: Piece, u: string)
    requires WellFormed(p) && Ends(p, u)
    ensures Pushes(PieceText(p) + u, '\0', PieceMeaning(p), u, '\0')
  {
    hide Pushes, Ends, DigitAt;
    match p
    case Bare(c) => BareScanned(c, '\0', u);
    case Quoted(q, s) => QuotedScanned(q, s, u);
    case Escaped(c) => EscapedScanned(c, u);
    case Letter(k) => LetterScanned(k, u);
    case Octal(c) => OctalScanned(c, u);
    case Hex(c) => HexScanned(c, u);
  }

  // ---------- Whole words ----------

  lemma {:induction false} PiecesScanned(ps: seq<Piece>, rest: string)
    requires (forall p | p in ps :: WellFormed(p)) && AllEnd(ps, rest)
    ensures Pushes(Text(ps) + rest, '\0', Meaning(ps), rest, '\0')
  {
    hide WellFormed, PieceText, PieceMeaning, Ends;
    if ps == [] {
      assert Text(ps) + rest == rest;
      PushesNothing(Text(ps) + rest, '\0', rest, '\0');
    } else {
      hide Pushes;
      var u := Text(ps[1..]) + rest;
      assert Text(ps) + rest == PieceText(ps[0]) + u;
      assert ps[0] in ps;
      PieceScanned(ps[0], u);
      PiecesScanned(ps[1..], rest);
      PushesBoth(PieceText(ps[0]) + u, '\0', PieceMeaning(ps[0]), u, '\0', Meaning(ps[1..]), rest, '\0');
    }
  }

  /** A word that is followed by a blank or the end is read as the meaning of its pieces, if there is room for it. */
  lemma WordIsRead(ps: seq<Piece>, rest: string, room: nat)
    requires (forall p | p in ps :: WellFormed(p)) && AllEnd(ps, rest)
    requires rest == "" || rest[0] == ' ' || rest[0] == '\t'
    ensures Scan(Text(ps) + rest, '\0', room) == if |Meaning(ps)| <= room then Token(Meaning(ps), rest) else Full
  {
    PiecesScanned(ps, rest);
    var left := room - |Meaning(ps)|;
    if left >= 0 {
      assert Scan(rest, '\0', left) == Token("", rest);
      assert Meaning(ps) + "" == Meaning(ps);
    }
  }

  /** So a backslash and an n make a newline and an n. */
  lemma LetterReadTwice(room: nat)
    requires room >= 2
    ensures Scan("\\n", '\0', room) == Token([10 as char, 'n'], "")
  {
    LetterScanned(4, "");
    assert "\\" + [CONTROLS[4]] + "" == "\\n";
    assert Scan("", '\0', room - 2) == Token("", "");
    assert [CODES[4] as char, CONTROLS[4]] == [10 as char, 'n'];
    assert [10 as char, 'n'] + "" == [10 as char, 'n'];
  }

  /** The characters a variable's name may have. */
  lemma NameCharacters(c: char)
    ensures NameChar(c) <==>
            c in "abcdefghijklmnopqrstuvwxyz" || c in "ABCDEFGHIJKLMNOPQRSTUVWXYZ" || c in "0123456789_"
  {
  }

  // ---------- Numbers as strtol reads them ----------

  /** The 32-bit number with the same lowest bits. */
  lemma ThirtyTwoBits(x: int)
    ensures -0x8000_0000 <= Wrap32(x) < 0x8000_0000 && (x - Wrap32(x)) % 0x1_0000_0000 == 0
  {
  }

  function DigitChar(d: nat, upper: bool): char
    requires d < 16
  {
    if upper then "0123456789ABCDEF"[d] else "0123456789abcdef"[d]
  }

  lemma DigitCharIs(d: nat, upper: bool)
    requires d < 16
    ensures var c := DigitChar(d, upper);
      && DigitOf(c) == d && (c == '0' <==> d == 0)
      && c != ' ' && c != '+' && c != '-' && c != 'x' && c != 'X'
  {
    var s := "0123456789ABCDEF";
    assert upper ==> DigitChar(d, upper) == s[d];
    DigitIs(d);
  }

  /** Digits, each in the case chosen for it. */
  function DigitsText(ds: seq<nat>, upper: seq<bool>): string
    requires |upper| == |ds| && forall i | 0 <= i < |ds| :: ds[i] < 16
  {
    if ds == [] then "" else [DigitChar(ds[0], upper[0])] + DigitsText(ds[1..], upper[1..])
  }

  function Number(ds: seq<nat>, base: nat, start: nat): nat {
    if ds == [] then start else Number(ds[1..], base, start * base + ds[0])
  }

  lemma {:induction false} NumberGrows(ds: seq<nat>, base: nat, start: nat)
    requires base > 0
    ensures start <= Number(ds, base, start)
    decreases |ds|
  {
    if ds != [] {
      NumberGrows(ds[1..], base, start * base + ds[0]);
      assert start * base >= start;
    }
  }

  lemma {:induction false} DigitsRead(ds: seq<nat>, upper: seq<bool>, base: nat, ret: nat, u: string)
    requires |upper| == |ds| && 0 < base <= 16 && (forall i | 0 <= i < |ds| :: ds[i] < base)
    requires Number(ds, base, ret) < 0x8000_0000 && (u == "" || DigitOf(u[0]) >= base)
    ensures ReadNumber(DigitsText(ds, upper) + u, base, ret) == Some((Number(ds, base, ret), u))
    decreases |ds|
  {
    if ds == [] {
      assert DigitsText(ds, upper) + u == u;
      NumberEnds(u, base, ret);
    } else {
      hide ReadNumber, DigitOf, DigitChar;
      var c, more := DigitChar(ds[0], upper[0]), DigitsText(ds[1..], upper[1..]) + u;
      assert DigitsText(ds, upper) + u == [c] + more;
      DigitCharIs(ds[0], upper[0]);
      NumberGrows(ds[1..], base, ret * base + ds[0]);
      OneDigitRead(c, more, base, ret, ret * base + ds[0]);
      DigitsRead(ds[1..], upper[1..], base, ret * base + ds[0], u);
    }
  }

  lemma {:induction false} SpacesSkipped(n: nat, t: string)
    ensures SkipBlanks(seq(n, i => ' ') + t, false) == SkipBlanks(t, false)
  {
    var s := seq(n, i => ' ') + t;
    if n == 0 {
      assert s == t;
    } else {
      assert s[1..] == seq(n - 1, i => ' ') + t;
      SpacesSkipped(n - 1, t);
    }
  }

  predicate IsSign(sign: string) {
    sign == "" || sign == "+" || sign == "-"
  }

  predicate IsPrefix(prefix: string) {
    prefix == "" || prefix == "0" || prefix == "0x" || prefix == "0X"
  }

  /** What strtol takes for the digits when `d` stands behind spaces and sign. */
  function BehindPrefix(d: string): string {
    if |d| > 1 && d[0] == '0' && (d[1] == 'x' || d[1] == 'X') then d[2..]
    else if d != "" && d[0] == '0' then d[1..] else d
  }

  lemma PrefixCut(prefix: string, c: char, more: string)
    requires IsPrefix(prefix)
    requires c != ' ' && c != '+' && c != '-' && c != 'x' && c != 'X'
    requires more == "" || (more[0] != 'x' && more[0] != 'X')
    ensures var d := prefix + ([c] + more);
      && BehindPrefix(d) == (if prefix == "" && c == '0' then more else [c] + more)
      && d != "" && d[0] != ' ' && d[0] != '+' && d[0] != '-'
  {
    var d := prefix + ([c] + more);
    if prefix == "" {
      assert d == [c] + more && d[1..] == more;
    } else if prefix == "0" {
      assert d[1..] == [c] + more && d[1] == c;
    } else {
      assert d[2..] == [c] + more && d[0] == '0';
    }
  }

  /** The lowest eight bits of a number with a sign. */
  function LowByte(sign: string, value: int): char {
    ((if sign == "-" then -value else value) % 256) as char
  }

  lemma StrtolFrom(t: string, sign: string, d: string, base: nat)
    requires SkipBlanks(t, false) == sign + d && IsSign(sign)
    requires d != "" && d[0] != '+' && d[0] != '-'
    ensures var read := ReadNumber(BehindPrefix(d), base, 0);
      read.Some? ==>
        Strtol(t, base) == (LowByte(sign, read.value.0), read.value.1)
  {
    hide ReadNumber, SkipBlanks;
    assert sign != "" ==> (sign + d)[1..] == d;
    assert sign == "" ==> sign + d == d;
  }

  lemma SpacesInFront(n: nat, sign: string, d: string)
    requires IsSign(sign) && d != "" && d[0] != ' '
    ensures SkipBlanks(seq(n, i => ' ') + (sign + d), false) == sign + d
  {
    SpacesSkipped(n, sign + d);
    assert sign + d != "" && (sign + d)[0] != ' ';
  }

  lemma FirstDigit(ds: seq<nat>, upper: seq<bool>, u: string)
    requires ds != [] && |upper| == |ds| && (forall i | 0 <= i < |ds| :: ds[i] < 16)
    requires u == "" || (u[0] != 'x' && u[0] != 'X')
    ensures var c, more := DigitChar(ds[0], upper[0]), DigitsText(ds[1..], upper[1..]) + u;
      && DigitsText(ds, upper) + u == [c] + more && (c == '0' <==> ds[0] == 0)
      && c != ' ' && c != '+' && c != '-' && c != 'x' && c != 'X'
      && (more == "" || (more[0] != 'x' && more[0] != 'X'))
  {
    DigitCharIs(ds[0], upper[0]);
    if |ds| > 1 {
      DigitCharIs(ds[1], upper[1]);
    }
    hide DigitChar;
  }

  /** A leading zero adds nothing. */
  lemma LeadingZero(ds: seq<nat>, base: nat)
    requires ds != [] && ds[0] == 0
    ensures Number(ds[1..], base, 0) == Number(ds, base, 0)
  {
    assert 0 * base + 0 == 0;
  }

  /** With or without the first digit, if that is a zero. */
  lemma DigitsFound(ds: seq<nat>, upper: seq<bool>, base: nat, u: string, cut: bool)
    requires ds != [] && |upper| == |ds| && 0 < base <= 16 && (forall i | 0 <= i < |ds| :: ds[i] < base)
    requires Number(ds, base, 0) < 0x8000_0000 && (u == "" || DigitOf(u[0]) >= base) && (cut ==> ds[0] == 0)
    ensures var digits := if cut then DigitsText(ds[1..], upper[1..]) + u else DigitsText(ds, upper) + u;
      ReadNumber(digits, base, 0) == Some((Number(ds, base, 0), u))
  {
    hide ReadNumber, Number, DigitChar, DigitsText, DigitOf;
    if cut {
      LeadingZero(ds, base);
      DigitsRead(ds[1..], upper[1..], base, 0, u);
    } else {
      DigitsRead(ds, upper, base, 0, u);
    }
  }

  lemma StrtolOnDigits(n: nat, sign: string, prefix: string, c: char, more: string, base: nat, value: nat, u: string)
    requires IsSign(sign) && IsPrefix(prefix)
    requires c != ' ' && c != '+' && c != '-' && c != 'x' && c != 'X'
    requires more == "" || (more[0] != 'x' && more[0] != 'X')
    requires ReadNumber(if prefix == "" && c == '0' then more else [c] + more, base, 0) == Some((value, u))
    ensures Strtol(seq(n, i => ' ') + (sign + (prefix + ([c] + more))), base) == (LowByte(sign, value), u)
  {
    hide Strtol, ReadNumber, BehindPrefix, SkipBlanks, IsSign, IsPrefix, LowByte;
    var d := prefix + ([c] + more);
    PrefixCut(prefix, c, more);
    SpacesInFront(n, sign, d);
    StrtolFrom(seq(n, i => ' ') + (sign + d), sign, d, base);
  }

  lemma NumberEnd(base: nat, u: string)
    requires base == 8 || base == 16
    requires if base == 8 then Ends(Octal('0'), u) else Ends(Hex('0'), u)
    ensures u == "" || DigitOf(u[0]) >= base
  {
    if base == 8 {
      OctalEnds('0', u);
    } else {
      HexEnds('0', u);
    }
  }

  /**
   Behind any spaces, a sign and a prefix, strtol reads as many digits as there are, in either case of letters, and the
   escape is the character of the number's lowest eight bits, as long as the number has at most 31.
   */
  lemma StrtolReads(n: nat, sign: string, prefix: string, ds: seq<nat>, upper: seq<bool>, base: nat, u: string)
    requires IsSign(sign) && IsPrefix(prefix)
    requires ds != [] && |upper| == |ds| && (base == 8 || base == 16) && (forall i | 0 <= i < |ds| :: ds[i] < base)
    requires Number(ds, base, 0) < 0x8000_0000
    requires u == "" || (u[0] != 'x' && u[0] != 'X')
    requires if base == 8 then Ends(Octal('0'), u) else Ends(Hex('0'), u)
    ensures Strtol(seq(n, i => ' ') + (sign + (prefix + (DigitsText(ds, upper) + u))), base)
         == (LowByte(sign, Number(ds, base, 0)), u)
  {
    NumberEnd(base, u);
    hide Strtol, ReadNumber, Number, DigitChar, DigitsText, Ends, DigitOf, IsSign, IsPrefix, LowByte;
    FirstDigit(ds, upper, u);
    var c, more := DigitChar(ds[0], upper[0]), DigitsText(ds[1..], upper[1..]) + u;
    DigitsFound(ds, upper, base, u, prefix == "" && c == '0');
    StrtolOnDigits(n, sign, prefix, c, more, base, Number(ds, base, 0), u);
  }
}
