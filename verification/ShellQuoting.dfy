/**
 Quoting: a line made of quoted tokens comes back as exactly those tokens, whatever the variables are, if and only if
 they fit the buffers. Also what expansion makes of a line with variables in it.
 */
module ShellQuoting {
  import opened Options
  import opened Shell

  // ---------- Quoting ----------

  predicate Special(c: char) {
    c == '\\' || c == '\'' || c == '"' || Blank(c)
  }

  function EscapeChar(c: char): string {
    if Special(c) then "\\" + [c] else [c]
  }

  function QuoteChar(c: char): string {
    if Special(c) || c == '$' then "\\" + [c] else [c]
  }

  /** The token as it must stand in the expanded line. */
  function Escape(token: string): string {
    if token == "" then ""
    else EscapeChar(token[0]) + Escape(token[1..])
  }

  /** The token as it must be typed. */
  function Quote(token: string): string {
    if token == "" then ""
    else QuoteChar(token[0]) + Quote(token[1..])
  }

  function Join(words: seq<string>): string {
    if words == [] then ""
    else if |words| == 1 then words[0]
    else words[0] + (" " + Join(words[1..]))
  }

  function QuoteAll(tokens: seq<string>): (r: seq<string>)
    ensures |r| == |tokens|
  {
    if tokens == [] then [] else [Quote(tokens[0])] + QuoteAll(tokens[1..])
  }

  function EscapeAll(tokens: seq<string>): (r: seq<string>)
    ensures |r| == |tokens|
  {
    if tokens == [] then [] else [Escape(tokens[0])] + EscapeAll(tokens[1..])
  }

  /** What the arguments take in the buffer, each with its terminator. */
  function Room(tokens: seq<string>): nat {
    if tokens == [] then 0 else |tokens[0]| + 1 + Room(tokens[1..])
  }

  /** Non-empty C strings. */
  ghost predicate Tokens(tokens: seq<string>) {
    forall i | 0 <= i < |tokens| :: tokens[i] != "" && '\0' !in tokens[i]
  }

  // ---------- Expansion takes the dollar quotes away ----------

  lemma ExpandOne(vars: Lookup, t: string)
    requires t != "" && t[0] != '$' && (t[0] == '\\' ==> |t| > 1 ==> t[1] != '$')
    ensures Expanded(vars, t) == [t[0]] + Expanded(vars, t[1..])
  {
  }

  lemma ExpandDollar(vars: Lookup, t: string)
    ensures Expanded(vars, "\\$" + t) == "$" + Expanded(vars, t)
  {
    assert ("\\$" + t)[2..] == t;
  }

  lemma QuoteStarts(token: string, rest: string)
    requires rest == "" || rest[0] != '$'
    ensures Quote(token) + rest == "" || (Quote(token) + rest)[0] != '$'
  {
  }

  lemma ExpandChar(vars: Lookup, c: char, more: string)
    requires more == "" || more[0] != '$'
    ensures Expanded(vars, QuoteChar(c) + more) == EscapeChar(c) + Expanded(vars, more)
  {
    hide Expanded;
    assert ([c] + more)[1..] == more;
    if c == '$' {
      assert QuoteChar(c) == "\\$" && EscapeChar(c) == "$";
      ExpandDollar(vars, more);
    } else if Special(c) {
      assert QuoteChar(c) + more == "\\" + ([c] + more);
      ExpandOne(vars, "\\" + ([c] + more));
      assert ("\\" + ([c] + more))[1..] == [c] + more;
      ExpandOne(vars, [c] + more);
    } else {
      ExpandOne(vars, [c] + more);
    }
  }

  lemma {:induction false} ExpandQuoted(vars: Lookup, token: string, rest: string)
    requires rest == "" || rest[0] != '$'
    ensures Expanded(vars, Quote(token) + rest) == Escape(token) + Expanded(vars, rest)
  {
    hide Expanded, QuoteChar, EscapeChar;
    if token == "" {
      assert Quote(token) + rest == rest;
    } else {
      var more := Quote(token[1..]) + rest;
      QuoteStarts(token[1..], rest);
      ExpandQuoted(vars, token[1..], rest);
      assert Quote(token) + rest == QuoteChar(token[0]) + more;
      ExpandChar(vars, token[0], more);
    }
  }

  lemma ExpandNothing(vars: Lookup)
    ensures Expanded(vars, "") == ""
  {
  }

  lemma {:induction false} ExpandLine(vars: Lookup, tokens: seq<string>)
    ensures Expanded(vars, Join(QuoteAll(tokens))) == Join(EscapeAll(tokens))
  {
    hide Expanded;
    if tokens == [] {
      ExpandNothing(vars);
    } else if |tokens| == 1 {
      ExpandQuoted(vars, tokens[0], "");
      ExpandNothing(vars);
      assert Quote(tokens[0]) + "" == Quote(tokens[0]);
    } else {
      var more := Join(QuoteAll(tokens[1..]));
      assert QuoteAll(tokens)[1..] == QuoteAll(tokens[1..]) && EscapeAll(tokens)[1..] == EscapeAll(tokens[1..]);
      ExpandQuoted(vars, tokens[0], " " + more);
      ExpandOne(vars, " " + more);
      assert (" " + more)[1..] == more;
      ExpandLine(vars, tokens[1..]);
    }
  }

  // ---------- Tokenising takes the other quotes away ----------

  /** A text behind a token. */
  predicate EndsToken(rest: string) {
    rest == "" || Blank(rest[0])
  }

  lemma ScanChar(c: char, t: string, room: nat)
    ensures Scan(EscapeChar(c) + t, '\0', room) == Push(c, room, if room > 0 then Scan(t, '\0', room - 1) else Full)
  {
    assert ([c] + t)[1..] == t;
    if Special(c) {
      assert EscapeChar(c) + t == "\\" + ([c] + t);
      assert ("\\" + ([c] + t))[1..] == [c] + t;
    }
  }

  lemma ScanStops(rest: string, room: nat)
    requires EndsToken(rest)
    ensures Scan(rest, '\0', room) == Token("", rest)
  {
  }

  lemma {:induction false} ScanEscaped(token: string, rest: string, room: nat)
    requires EndsToken(rest)
    ensures Scan(Escape(token) + rest, '\0', room) == if |token| <= room then Token(token, rest) else Full
  {
    hide Scan, EscapeChar;
    if token == "" {
      assert Escape(token) + rest == rest;
      ScanStops(rest, room);
    } else {
      var more := Escape(token[1..]) + rest;
      if room > 0 {
        ScanEscaped(token[1..], rest, room - 1);
      }
      assert Escape(token) + rest == EscapeChar(token[0]) + more;
      ScanChar(token[0], more, room);
    }
  }

  lemma EscapeStarts(token: string)
    requires token != ""
    ensures Escape(token) != "" && !Blank(Escape(token)[0])
  {
  }

  lemma CStringOfToken(s: string)
    requires '\0' !in s
    ensures CString(s) == s
  {
  }

  /** What stands behind the first token of a joined line. */
  function AfterFirst(tokens: seq<string>): string
    requires tokens != []
  {
    if |tokens| == 1 then "" else " " + Join(EscapeAll(tokens[1..]))
  }

  lemma FirstToken(tokens: seq<string>)
    requires tokens != []
    ensures Join(EscapeAll(tokens)) == Escape(tokens[0]) + AfterFirst(tokens)
    ensures EndsToken(AfterFirst(tokens))
    ensures |tokens| == 1 ==> AfterFirst(tokens) == ""
    ensures |tokens| > 1 ==> AfterFirst(tokens) == " " + Join(EscapeAll(tokens[1..]))
  {
    if |tokens| == 1 {
      assert Escape(tokens[0]) + "" == Escape(tokens[0]);
    } else {
      assert EscapeAll(tokens)[1..] == EscapeAll(tokens[1..]);
    }
  }

  lemma NoBlankInFront(t: string)
    requires t != "" && !Blank(t[0])
    ensures SkipBlanks(t, true) == t
  {
  }

  lemma BlankInFront(t: string, room: nat, n: nat)
    requires n <= MAX_ARGS
    ensures Collect(" " + t, room, n) == Collect(t, room, n)
  {
    assert (" " + t)[1..] == t;
  }

  lemma JoinNothing()
    ensures Join(EscapeAll([])) == ""
  {
  }

  /** Collecting the tokens of a joined line gives them all back exactly when they fit. */
  lemma {:induction false} CollectLine(tokens: seq<string>, room: nat, n: nat)
    requires Tokens(tokens) && n <= MAX_ARGS
    ensures Collect(Join(EscapeAll(tokens)), room, n) == Argv(tokens, false)
       <==> n + |tokens| <= MAX_ARGS && Room(tokens) <= room
    decreases tokens
  {
    hide Scan, Join, EscapeAll, Escape, CString, AfterFirst, SkipBlanks;
    if tokens == [] {
      assert Join(EscapeAll(tokens)) == "" by { JoinNothing(); }
    } else {
      var t, rest := Join(EscapeAll(tokens)), AfterFirst(tokens);
      FirstToken(tokens);
      EscapeStarts(tokens[0]);
      NoBlankInFront(t);
      ScanEscaped(tokens[0], rest, room);
      CStringOfToken(tokens[0]);
      if n < MAX_ARGS && |tokens[0]| < room {
        var left := room - |tokens[0]| - 1;
        assert Tokens(tokens[1..]);
        CollectLine(tokens[1..], left, n + 1);
        if |tokens| > 1 {
          BlankInFront(Join(EscapeAll(tokens[1..])), left, n + 1);
        } else {
          assert Join(EscapeAll(tokens[1..])) == "" by { JoinNothing(); }
        }
        assert tokens == [tokens[0]] + tokens[1..];
      }
    }
  }

  lemma {:induction false} NoNulInEscape(token: string)
    requires '\0' !in token
    ensures '\0' !in Escape(token)
  {
    if token != "" {
      NoNulInEscape(token[1..]);
    }
  }

  lemma {:induction false} NoNulInLine(tokens: seq<string>)
    requires Tokens(tokens)
    ensures '\0' !in Join(EscapeAll(tokens))
  {
    if tokens != [] {
      NoNulInEscape(tokens[0]);
      FirstToken(tokens);
      assert Tokens(tokens[1..]);
      NoNulInLine(tokens[1..]);
    }
  }

  /**
   Quoted tokens joined by spaces become exactly those arguments if and only if there are at most 32 of them, they fit
   the argument buffer with their terminators, and the line without the dollar quotes leaves room for its own.
   */
  lemma QuotedLine(vars: Lookup, tokens: seq<string>)
    requires Tokens(tokens)
    ensures Execute(vars, Join(QuoteAll(tokens))) == Arguments(Argv(tokens, false))
       <==> |tokens| <= 32 && Room(tokens) <= 512 && |Join(EscapeAll(tokens))| < 4096
  {
    hide Expanded, Collect, Join, EscapeAll;
    ExpandLine(vars, tokens);
    NoNulInLine(tokens);
    CStringOfToken(Join(EscapeAll(tokens)));
    CollectLine(tokens, ELEM_BUF, 0);
  }

  // ---------- What expansion means ----------

  datatype Piece = Plain(c: char) | Dollar | Variable(name: string)

  function Text(pieces: seq<Piece>): string {
    if pieces == [] then ""
    else
      (match pieces[0]
       case Plain(c) => [c]
       case Dollar => "\\$"
       case Variable(name) => "$" + name) + Text(pieces[1..])
  }

  function Meaning(vars: Lookup, pieces: seq<Piece>): string {
    if pieces == [] then ""
    else
      (match pieces[0]
       case Plain(c) => [c]
       case Dollar => "$"
       case Variable(name) => (match vars(name) case Some(value) => value case None => ""))
      + Meaning(vars, pieces[1..])
  }

  predicate ReadablePiece(piece: Piece, rest: string) {
    match piece
    case Plain(c) => c != '$' && !(c == '\\' && rest != "" && rest[0] == '$')
    case Dollar => true
    case Variable(name) =>
      |name| <= 63 && (forall i | 0 <= i < |name| :: NameChar(name[i])) &&
      (|name| == 63 || rest == "" || !NameChar(rest[0]))
  }

  /** Plain pieces are no dollars, backslashes do not stand before dollars, and names end where they seem to. */
  ghost predicate Readable(pieces: seq<Piece>) {
    forall i | 0 <= i < |pieces| :: ReadablePiece(pieces[i], Text(pieces[i + 1..]))
  }

  lemma {:induction false} NameIsRead(name: string, rest: string, limit: nat)
    requires |name| <= limit && (forall i | 0 <= i < |name| :: NameChar(name[i]))
    requires |name| == limit || rest == "" || !NameChar(rest[0])
    ensures NameLength(name + rest, limit) == |name|
    decreases limit
  {
    if name == "" {
      assert name + rest == rest;
    } else {
      assert (name + rest)[1..] == name[1..] + rest;
      NameIsRead(name[1..], rest, limit - 1);
    }
  }

  lemma ExpandVariable(vars: Lookup, name: string, rest: string)
    requires ReadablePiece(Variable(name), rest)
    ensures Expanded(vars, "$" + name + rest) == ValueOf(vars, name) + Expanded(vars, rest)
  {
    var t, more := "$" + name + rest, name + rest;
    assert t[1..] == more && t[0] == '$';
    NameIsRead(name, rest, 63);
    assert more[..|name|] == name && more[|name|..] == rest;
    hide NameLength;
  }

  /** Every `$name` is replaced by its value, every `\$` by a dollar, and nothing else changes. */
  lemma {:induction false} ExpandPieces(vars: Lookup, pieces: seq<Piece>)
    requires Readable(pieces)
    ensures Expanded(vars, Text(pieces)) == Meaning(vars, pieces)
  {
    hide Expanded;
    if pieces == [] {
      ExpandNothing(vars);
    } else {
      var rest := Text(pieces[1..]);
      assert ReadablePiece(pieces[0], rest);
      assert Readable(pieces[1..]) by {
        forall i | 0 <= i < |pieces[1..]| ensures ReadablePiece(pieces[1..][i], Text(pieces[1..][i + 1..])) {
          assert pieces[1..][i + 1..] == pieces[i + 2..];
          assert ReadablePiece(pieces[i + 1], Text(pieces[i + 1 + 1..]));
        }
      }
      ExpandPieces(vars, pieces[1..]);
      match pieces[0]
      case Plain(c) =>
        ExpandOne(vars, [c] + rest);
        assert ([c] + rest)[1..] == rest;
      case Dollar => ExpandDollar(vars, rest);
      case Variable(name) => ExpandVariable(vars, name, rest);
    }
  }
}
