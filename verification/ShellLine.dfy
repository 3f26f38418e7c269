/**
 Expansion, tokenising and the argument loop as they run, on character buffers of fixed size. A pointer into a text is
 the text from there on.
 */
module ShellLine {
  import opened Options
  import opened Shell

  // ---------- VlShell_Expand ----------

  /** Writes `text` behind the first `used` characters as far as it fits. */
  method PushText(text: string, buf: array<char>, used: nat) returns (ok: bool)
    requires used <= buf.Length
    modifies buf
    ensures ok <==> used + |text| <= buf.Length
    ensures ok ==> buf[..used + |text|] == old(buf[..used]) + text
  {
    var i := 0;
    while i < |text|
      invariant 0 <= i <= |text| && used + i <= buf.Length
      invariant buf[..used + i] == old(buf[..used]) + text[..i]
    {
      if used + i == buf.Length {
        return false;
      }
      buf[used + i] := text[i];
      assert buf[..used + (i + 1)] == buf[..used + i] + [text[i]];
      assert text[..i + 1] == text[..i] + [text[i]];
      i := i + 1;
    }
    assert text[..i] == text;
    ok := true;
  }

  /** The name behind a `$`, cut off after 63 characters. */
  method ReadName(line: string) returns (key: string, rest: string)
    ensures var n := NameLength(line, 63); key == line[..n] && rest == line[n..]
  {
    var n := 0;
    while n < |line| && NameChar(line[n]) && n < 63
      invariant 0 <= n <= 63 && n <= |line|
      invariant n + NameLength(line[n..], 63 - n) == NameLength(line, 63)
    {
      assert line[n..][1..] == line[n + 1..];
      n := n + 1;
    }
    key, rest := line[..n], line[n..];
  }

  lemma ExpandedNothing(vars: Lookup)
    ensures Expanded(vars, "") == ""
  {
  }

  /** One round of the loop: what it pushes and where it goes on. */
  method NextPiece(vars: Lookup, line: string) returns (text: string, next: string)
    requires line != ""
    ensures |next| < |line| && Expanded(vars, line) == text + Expanded(vars, next)
  {
    if line[0] == '\\' && |line| > 1 && line[1] == '$' {
      text, next := "$", line[2..];
    } else if line[0] == '$' {
      var key;
      key, next := ReadName(line[1..]);
      text := ValueOf(vars, key);
    } else {
      text, next := [line[0]], line[1..];
    }
  }

  method Expand(vars: Lookup, line: string, buf: array<char>) returns (ok: bool)
    modifies buf
    ensures ok <==> |Expanded(vars, line)| <= buf.Length
    ensures ok ==> buf[..|Expanded(vars, line)|] == Expanded(vars, line)
    ensures ok && |Expanded(vars, line)| < buf.Length ==> buf[|Expanded(vars, line)|] == '\0'
  {
    hide Expanded;
    ExpandedNothing(vars);
    var rest, used := line, 0;
    while rest != ""
      invariant 0 <= used <= buf.Length
      invariant buf[..used] + Expanded(vars, rest) == Expanded(vars, line)
      decreases |rest|
    {
      ghost var before, more := buf[..used], Expanded(vars, rest);
      var text, next := NextPiece(vars, rest);
      assert |before| + |more| == |Expanded(vars, line)|;
      assert before + (text + Expanded(vars, next)) == (before + text) + Expanded(vars, next);
      var fits := PushText(text, buf, used);
      if !fits {
        return false;
      }
      used, rest := used + |text|, next;
    }
    assert buf[..used] + "" == buf[..used];
    if used < buf.Length {
      buf[used] := '\0';
    }
    ok := true;
  }

  // ---------- VlShell_Parse ----------

  function Prepend(p: string, s: Scanned): Scanned {
    if s.Full? then Full else Token(p + s.pushed, s.rest)
  }

  lemma PrependOne(p: string, c: char, s: Scanned)
    ensures Prepend(p, if s.Full? then Full else Token([c] + s.pushed, s.rest)) == Prepend(p + [c], s)
  {
    if s.Token? {
      assert p + ([c] + s.pushed) == p + [c] + s.pushed;
    }
  }

  /** What the next round of the loop does: stop, go on without a character, or push one. */
  datatype Action = Stop | Move(next: string, quote: char) | PushChar(c: char, next: string)

  method NextEscape(u: string, quote: char) returns (a: Action)
    ensures !a.Stop?
    ensures a.Move? ==> |a.next| <= |u| && forall room: nat :: ScanEscape(u, quote, room) == Scan(a.next, a.quote, room)
    ensures a.PushChar? ==> |a.next| <= |u| && forall room: nat ::
                ScanEscape(u, quote, room) == Push(a.c, room, if room > 0 then Scan(a.next, quote, room - 1) else Full)
  {
    if u == "" {
      a := Move(u, quote);
    } else if Verbatim(u[0]) {
      a := PushChar(u[0], u[1..]);
    } else if Control(u[0]).Some? {
      a := PushChar(Control(u[0]).value, u);
    } else if '0' <= u[0] <= '7' {
      a := PushChar(Strtol(u, 8).0, Strtol(u, 8).1);
    } else if u[0] == 'x' {
      a := PushChar(Strtol(u[1..], 16).0, Strtol(u[1..], 16).1);
    } else {
      a := Move(u, quote);
    }
  }

  method NextAction(line: string, quote: char) returns (a: Action)
    requires line != ""
    ensures a.Stop? ==> forall room: nat :: Scan(line, quote, room) == Token("", line)
    ensures a.Move? ==> |a.next| < |line| && forall room: nat :: Scan(line, quote, room) == Scan(a.next, a.quote, room)
    ensures a.PushChar? ==> |a.next| < |line| && forall room: nat ::
                Scan(line, quote, room) == Push(a.c, room, if room > 0 then Scan(a.next, quote, room - 1) else Full)
  {
    var c := line[0];
    if c == '"' || c == '\'' {
      a := Move(line[1..], if quote == c then '\0' else c);
    } else if c == '\\' {
      a := NextEscape(line[1..], quote);
    } else if Blank(c) && quote == '\0' {
      a := Stop;
    } else {
      a := PushChar(c, line[1..]);
    }
  }

  /** A token and its terminator, which is left out when there is no room for it. */
  predicate Written(s: string, token: string) {
    token <= s && (|token| < |s| ==> s[|token|] == '\0')
  }

  lemma ScanNothing(quote: char, room: nat)
    ensures Scan("", quote, room) == Token("", "")
  {
  }

  /** The main loop of VlShell_Parse. */
  method ParseToken(text: string, buf: array<char>, at: nat) returns (left: Option<string>)
    requires at <= buf.Length
    modifies buf
    ensures buf[..at] == old(buf[..at])
    ensures var t := Scan(text, '\0', buf.Length - at);
      if t.Full? then left == None else left == Some(t.rest) && Written(buf[at..], t.pushed)
  {
    hide Scan;
    var line, used, quote, end := text, at, '\0', false;
    while line != "" && !end
      invariant at <= used <= buf.Length && buf[..at] == old(buf[..at])
      invariant Scan(text, '\0', buf.Length - at) == Prepend(buf[at..used], Scan(line, quote, buf.Length - used))
      invariant end ==> Scan(line, quote, buf.Length - used) == Token("", line)
      decreases |line|, !end
    {
      var a := NextAction(line, quote);
      if a.Stop? {
        end := true;
      } else if a.Move? {
        line, quote := a.next, a.quote;
      } else if used == buf.Length {
        return None;
      } else {
        PrependOne(buf[at..used], a.c, Scan(a.next, quote, buf.Length - used - 1));
        buf[used] := a.c;
        assert buf[at..used + 1] == buf[at..used] + [a.c];
        used, line := used + 1, a.next;
      }
    }
    ScanNothing(quote, buf.Length - used);
    assert buf[at..used] + "" == buf[at..used];
    if used < buf.Length {
      buf[used] := '\0';
    }
    left := Some(line);
  }

  /** The token is written from `at` on; nothing in front of it is touched. */
  method Parse(start: string, buf: array<char>, at: nat) returns (left: Option<string>)
    requires at <= buf.Length
    modifies buf
    ensures buf[..at] == old(buf[..at])
    ensures var s, room := SkipBlanks(start, true), buf.Length - at;
      if s == "" || Scan(s, '\0', room).Full? then left == None else
      var t := Scan(s, '\0', room);
      left == Some(t.rest) && Written(buf[at..], t.pushed)
  {
    hide Scan;
    var line := start;
    while line != "" && Blank(line[0])
      invariant SkipBlanks(line, true) == SkipBlanks(start, true)
      decreases |line|
    {
      line := line[1..];
    }
    if line == "" {
      return None;
    }
    left := ParseToken(line, buf, at);
  }

  // ---------- The argument loop of VlShell_Execute ----------

  /** The argument that starts at `at`. */
  function ArgAt(buf: array<char>, at: nat): string
    requires at <= buf.Length
    reads buf
  {
    CString(buf[at..])
  }

  method StrNLen(buf: array<char>, at: nat) returns (n: nat)
    requires at <= buf.Length
    ensures n == |CString(buf[at..])|
  {
    n := 0;
    while at + n < buf.Length && buf[at + n] != '\0'
      invariant at + n <= buf.Length
      invariant n + |CString(buf[at + n..])| == |CString(buf[at..])|
    {
      assert buf[at + n..][1..] == buf[at + (n + 1)..];
      n := n + 1;
    }
  }

  lemma WrittenIsRead(s: string, token: string)
    requires Written(s, token)
    ensures CString(s) == CString(token)
  {
    if token == "" || token[0] == '\0' {
    } else {
      assert Written(s[1..], token[1..]);
      WrittenIsRead(s[1..], token[1..]);
    }
  }

  lemma {:induction false} PrefixDecides(s: string, t: string)
    requires |CString(s)| < |s| && |CString(s)| < |t| && s[..|CString(s)| + 1] == t[..|CString(s)| + 1]
    ensures CString(t) == CString(s)
  {
    var n := |CString(s)| + 1;
    assert s[0] == s[..n][0] == t[..n][0] == t[0];
    if s[0] != '\0' {
      assert |CString(s[1..])| + 1 == n - 1;
      assert s[1..][..n - 1] == s[..n][1..] && t[1..][..n - 1] == t[..n][1..];
      PrefixDecides(s[1..], t[1..]);
    }
  }

  ghost predicate HoldsOne(s: string, offset: nat, at: nat, arg: string) {
    at <= |s| && offset + |arg| < at && CString(s[offset..]) == arg
  }

  /** Arguments that end in front of `at`, one behind the other. */
  ghost predicate Holds(s: string, offsets: seq<nat>, at: nat, args: seq<string>) {
    |offsets| == |args| && at <= |s| &&
    forall i | 0 <= i < |args| :: HoldsOne(s, offsets[i], at, args[i])
  }

  lemma SliceOfPrefix(s: string, o: nat, n: nat, at: nat)
    requires o + n <= at <= |s|
    ensures s[o..][..n] == s[..at][o..o + n]
  {
  }

  lemma StillHolds(s: string, s': string, offsets: seq<nat>, at: nat, args: seq<string>)
    requires Holds(s, offsets, at, args) && |s'| == |s| && s'[..at] == s[..at]
    ensures Holds(s', offsets, at, args)
  {
    forall i | 0 <= i < |args| ensures HoldsOne(s', offsets[i], at, args[i]) {
      assert HoldsOne(s, offsets[i], at, args[i]);
      var o, n := offsets[i], |args[i]| + 1;
      SliceOfPrefix(s, o, n, at);
      SliceOfPrefix(s', o, n, at);
      PrefixDecides(s[o..], s'[o..]);
    }
  }

  ghost function Before(args: seq<string>, more: Argv): Argv {
    Argv(args + more.args, more.overrun)
  }

  lemma BeforeOne(args: seq<string>, arg: string, more: Argv)
    ensures Before(args, Argv([arg] + more.args, more.overrun)) == Before(args + [arg], more)
  {
    assert args + ([arg] + more.args) == args + [arg] + more.args;
  }

  /** One argument of the loop: where it ends, or that there is none, or that it fills the buffer. */
  lemma CollectOne(t: string, room: nat, n: nat)
    requires n < MAX_ARGS
    ensures var s := SkipBlanks(t, true);
      if s == "" || Scan(s, '\0', room).Full? then Collect(t, room, n) == Argv([], false) else
      var k := Scan(s, '\0', room);
      var arg := CString(k.pushed);
      if |arg| == room then Collect(t, room, n) == Argv([arg], true) else
      var more := Collect(k.rest, room - |arg| - 1, n + 1);
      Collect(t, room, n) == Argv([arg] + more.args, more.overrun)
  {
    hide Scan;
  }

  /** The arguments found so far, and what is still to come. */
  ghost predicate Progress(s: string, offsets: seq<nat>, at: nat, args: seq<string>, text: string, line: string) {
    |offsets| <= MAX_ARGS && Holds(s, offsets, at, args) &&
    Collect(text, |s|, 0) == Before(args, Collect(line, |s| - at, |offsets|))
  }

  /** The loop ended with these arguments. */
  ghost predicate Finished(s: string, offsets: seq<nat>, overrun: bool, text: string) {
    var spec := Collect(text, |s|, 0);
    overrun == spec.overrun && |offsets| == |spec.args| &&
    forall i | 0 <= i < |offsets| :: offsets[i] <= |s| && CString(s[offsets[i]..]) == spec.args[i]
  }

  lemma Ended(s: string, offsets: seq<nat>, at: nat, args: seq<string>, text: string, line: string)
    requires Progress(s, offsets, at, args, text, line)
    requires Collect(line, |s| - at, |offsets|) == Argv([], false)
    ensures Finished(s, offsets, false, text)
  {
    hide Collect, CString;
    assert args + [] == args;
    forall i | 0 <= i < |offsets| ensures offsets[i] <= |s| && CString(s[offsets[i]..]) == args[i] {
      assert HoldsOne(s, offsets[i], at, args[i]);
    }
  }

  lemma EndedFull(s: string, offsets: seq<nat>, at: nat, args: seq<string>, text: string, line: string, arg: string)
    requires Progress(s, offsets, at, args, text, line)
    requires Collect(line, |s| - at, |offsets|) == Argv([arg], true) && CString(s[at..]) == arg
    ensures Finished(s, offsets + [at], true, text)
  {
    hide Collect, CString;
    forall i | 0 <= i < |offsets| ensures offsets[i] <= |s| && CString(s[offsets[i]..]) == args[i] {
      assert HoldsOne(s, offsets[i], at, args[i]);
    }
  }

  lemma OneMore(s: string, offsets: seq<nat>, at: nat, args: seq<string>, text: string, line: string, arg: string,
      rest: string)
    requires Progress(s, offsets, at, args, text, line) && |offsets| < MAX_ARGS
    requires CString(s[at..]) == arg && |arg| < |s| - at
    requires var more := Collect(rest, |s| - at - |arg| - 1, |offsets| + 1);
      Collect(line, |s| - at, |offsets|) == Argv([arg] + more.args, more.overrun)
    ensures Progress(s, offsets + [at], at + |arg| + 1, args + [arg], text, rest)
  {
    hide Collect, CString;
    BeforeOne(args, arg, Collect(rest, |s| - at - |arg| - 1, |offsets| + 1));
    forall i | 0 <= i < |args| + 1 ensures HoldsOne(s, (offsets + [at])[i], at + |arg| + 1, (args + [arg])[i]) {
      assert i < |args| ==> HoldsOne(s, offsets[i], at, args[i]);
    }
  }

  lemma StillProgress(s: string, s': string, offsets: seq<nat>, at: nat, args: seq<string>, text: string, line: string)
    requires Progress(s, offsets, at, args, text, line) && |s'| == |s| && s'[..at] == s[..at]
    ensures Progress(s', offsets, at, args, text, line)
  {
    hide Collect, CString, HoldsOne;
    StillHolds(s, s', offsets, at, args);
  }

  lemma NoMoreRoom(t: string, room: nat)
    ensures Collect(t, room, MAX_ARGS) == Argv([], false)
  {
  }

  lemma Start(s: string, text: string)
    ensures Progress(s, [], 0, [], text, text)
  {
    hide Collect;
    assert [] + Collect(text, |s|, 0).args == Collect(text, |s|, 0).args;
  }

  /** The offsets of the arguments in the buffer. */
  method BuildArgv(text: string, elem: array<char>) returns (newargv: seq<nat>, overrun: bool)
    modifies elem
    ensures Finished(elem[..], newargv, overrun, text)
  {
    hide Progress, Finished, Collect, Scan, SkipBlanks, CString, Written;
    var line: string, at: nat := text, 0;
    ghost var args: seq<string> := [];
    newargv := [];
    Start(elem[..], text);
    while |newargv| < MAX_ARGS
      invariant |newargv| <= MAX_ARGS && at <= elem.Length
      invariant Progress(elem[..], newargv, at, args, text, line)
      decreases MAX_ARGS - |newargv|
    {
      ghost var s, room := elem[..], elem.Length - at;
      CollectOne(line, room, |newargv|);
      var left := Parse(line, elem, at);
      assert elem[..][..at] == elem[..at] && s[..at] == elem[..at];
      StillProgress(s, elem[..], newargv, at, args, text, line);
      if left.None? {
        Ended(elem[..], newargv, at, args, text, line);
        return newargv, false;
      }
      WrittenIsRead(elem[at..], Scan(SkipBlanks(line, true), '\0', room).pushed);
      assert elem[..][at..] == elem[at..];
      var length := StrNLen(elem, at);
      ghost var arg := CString(elem[at..]);
      if length == elem.Length - at {
        EndedFull(elem[..], newargv, at, args, text, line, arg);
        return newargv + [at], true;
      }
      OneMore(elem[..], newargv, at, args, text, line, arg, left.value);
      newargv, args, at, line := newargv + [at], args + [arg], at + length + 1, left.value;
    }
    NoMoreRoom(line, elem.Length - at);
    Ended(elem[..], newargv, at, args, text, line);
    overrun := false;
  }

  /** VlShell_Execute up to the argument vector, on its two buffers. */
  method Run(vars: Lookup, line: string) returns (outcome: Outcome)
    ensures outcome == Execute(vars, line)
  {
    hide Expanded, Collect, CString;
    var lineBuf, elemBuf := new char[LINE_BUF], new char[ELEM_BUF];
    ghost var out := Expanded(vars, line);
    var ok := Expand(vars, line, lineBuf);
    if !ok {
      return BufferTooSmall;
    }
    WrittenIsRead(lineBuf[..], out) by { assert lineBuf[..][..|out|] == lineBuf[..|out|]; }
    assert lineBuf[0..] == lineBuf[..];
    var length := StrNLen(lineBuf, 0);
    if length == LINE_BUF {
      return Unterminated;
    }
    var text := ArgAt(lineBuf, 0);
    var newargv, overrun := BuildArgv(text, elemBuf);
    var args: seq<string> := [];
    while |args| < |newargv|
      invariant |args| <= |newargv|
      invariant args == Collect(text, ELEM_BUF, 0).args[..|args|]
    {
      var i := |args|;
      assert elemBuf[..][newargv[i]..] == elemBuf[newargv[i]..];
      args := args + [ArgAt(elemBuf, newargv[i])];
    }
    outcome := Arguments(Argv(args, overrun));
  }
}
