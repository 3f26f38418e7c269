/**
 The shell's way from a command line to an argument vector: variables are expanded into one buffer, then the result
 is cut into tokens that are collected in another. Texts are what stands before the closing NUL.
 */
module Shell {
  import opened Arithmetic
  import opened Options

  /** What VlShell_GetVariable finds for a key. */
  type Lookup = string -> Option<string>

  // ---------- Characters and C strings ----------

  predicate NameChar(c: char) {
    'a' <= c <= 'z' || 'A' <= c <= 'Z' || '0' <= c <= '9' || c == '_'
  }

  predicate Blank(c: char) {
    c == ' ' || c == '\t'
  }

  function CString(s: string): (r: string)
    ensures |r| <= |s| && '\0' !in r && r == s[..|r|]
    ensures |r| < |s| ==> s[|r|] == '\0'
  {
    if s == "" || s[0] == '\0' then "" else [s[0]] + CString(s[1..])
  }

  // ---------- Expanding variables ----------

  /** How many characters behind a `$` name the variable: at most 63. */
  function NameLength(t: string, limit: nat): (n: nat)
    ensures n <= limit && n <= |t|
    ensures forall i | 0 <= i < n :: NameChar(t[i])
    ensures n < limit && n < |t| ==> !NameChar(t[n])
    decreases limit
  {
    if t != "" && NameChar(t[0]) && limit > 0 then 1 + NameLength(t[1..], limit - 1) else 0
  }

  function ValueOf(vars: Lookup, key: string): string {
    if vars(key).Some? then vars(key).value else ""
  }

  function Expanded(vars: Lookup, t: string): string {
    if t == "" then ""
    else if t[0] == '\\' && |t| > 1 && t[1] == '$' then "$" + Expanded(vars, t[2..])
    else if t[0] == '$' then
      var n := NameLength(t[1..], 63);
      ValueOf(vars, t[1..][..n]) + Expanded(vars, t[1..][n..])
    else [t[0]] + Expanded(vars, t[1..])
  }

  // ---------- Numeric escapes ----------

  /** The arithmetic of a 32-bit long, wrapping around. */
  function Wrap32(x: int): int {
    Signed(x, 0x8000_0000)
  }

  function DigitOf(c: char): nat {
    if '0' <= c <= '9' then c as nat - '0' as nat
    else if 'a' <= c <= 'z' then c as nat - 'a' as nat + 10
    else if 'A' <= c <= 'Z' then c as nat - 'A' as nat + 10
    else 36
  }

  /** The digit loop of strtol: the value and the text behind it, or None when the value turned negative. */
  function ReadNumber(t: string, base: nat, ret: int): (r: Option<(int, string)>)
    ensures r.Some? ==> |r.value.1| <= |t|
  {
    if t == "" || DigitOf(t[0]) >= base then Some((ret, t))
    else
      var next := Wrap32(ret * base + DigitOf(t[0]));
      if next < 0 then None else ReadNumber(t[1..], base, next)
  }

  function SkipBlanks(t: string, tabs: bool): (r: string)
    ensures |r| <= |t|
    ensures r != "" ==> r[0] != ' ' && !(tabs && r[0] == '\t')
  {
    if t != "" && (t[0] == ' ' || (tabs && t[0] == '\t')) then SkipBlanks(t[1..], tabs) else t
  }

  /** strtol in base 8 or 16: the character its value is cut to, and where the text goes on. */
  function Strtol(t: string, base: nat): (r: (char, string))
    ensures |r.1| <= |t|
  {
    var s := SkipBlanks(t, false);
    var sign := s != "" && s[0] == '-';
    var d := if s != "" && (s[0] == '+' || s[0] == '-') then s[1..] else s;
    var p := if |d| > 1 && d[0] == '0' && (d[1] == 'x' || d[1] == 'X') then d[2..]
             else if d != "" && d[0] == '0' then d[1..] else d;
    match ReadNumber(p, base, 0)
    case Some(n) => (((if sign then -n.0 else n.0) % 256) as char, n.1)
    case None => ((if sign then 0 else 255) as char, t)
  }

  // ---------- Cutting off one token ----------

  /** The characters pushed and the text left, or no room. */
  datatype Scanned = Token(pushed: string, rest: string) | Full

  function Push(c: char, room: nat, more: Scanned): Scanned {
    if room == 0 then Full else if more.Full? then Full else Token([c] + more.pushed, more.rest)
  }

  /** The control character behind a backslash and a letter. */
  function Control(c: char): Option<char> {
    match c
    case 'a' => Some(7 as char)
    case 'b' => Some(8 as char)
    case 'e' => Some(27 as char)
    case 'f' => Some(12 as char)
    case 'n' => Some(10 as char)
    case 'r' => Some(13 as char)
    case 't' => Some(9 as char)
    case 'v' => Some(11 as char)
    case _ => None
  }

  predicate Verbatim(c: char) {
    c == '\\' || c == '\'' || c == '"' || c == '?' || Blank(c)
  }

  /** The loop of VlShell_Parse from `t` on, inside the quotes `quote` (NUL when outside), with room in the buffer. */
  function Scan(t: string, quote: char, room: nat): (r: Scanned)
    ensures r.Token? ==> |r.rest| <= |t| && |r.pushed| <= room
    decreases |t|, room
  {
    if t == "" then Token("", "")
    else if t[0] == '"' || t[0] == '\'' then Scan(t[1..], if quote == t[0] then '\0' else t[0], room)
    else if t[0] == '\\' then ScanEscape(t[1..], quote, room)
    else if Blank(t[0]) && quote == '\0' then Token("", t)
    else Push(t[0], room, if room > 0 then Scan(t[1..], quote, room - 1) else Full)
  }

  /** Behind a backslash. A letter stands for a control character and is then read once more as itself. */
  function ScanEscape(u: string, quote: char, room: nat): (r: Scanned)
    ensures r.Token? ==> |r.rest| <= |u| && |r.pushed| <= room
    decreases |u|, room + 1
  {
    if u == "" then Token("", "")
    else if Verbatim(u[0]) then Push(u[0], room, if room > 0 then Scan(u[1..], quote, room - 1) else Full)
    else if Control(u[0]).Some? then
      Push(Control(u[0]).value, room, if room > 0 then Scan(u, quote, room - 1) else Full)
    else if '0' <= u[0] <= '7' then
      var n := Strtol(u, 8);
      Push(n.0, room, if room > 0 then Scan(n.1, quote, room - 1) else Full)
    else if u[0] == 'x' then
      var n := Strtol(u[1..], 16);
      Push(n.0, room, if room > 0 then Scan(n.1, quote, room - 1) else Full)
    else Scan(u, quote, room)
  }

  // ---------- The argument vector ----------

  const MAX_ARGS := 32

  /** The arguments collected; `overrun` when the last one filled the buffer and has no terminator. */
  datatype Argv = Argv(args: seq<string>, overrun: bool)

  /** The loop of VlShell_Execute, `n` arguments collected and `room` characters left. */
  function Collect(t: string, room: nat, n: nat): (r: Argv)
    requires n <= MAX_ARGS
    ensures n + |r.args| <= MAX_ARGS
    decreases MAX_ARGS - n
  {
    var s := SkipBlanks(t, true);
    if n == MAX_ARGS || s == "" then Argv([], false) else
      match Scan(s, '\0', room)
      case Full => Argv([], false)
      case Token(pushed, rest) =>
        var arg := CString(pushed);
        if |arg| == room then Argv([arg], true) else
          var more := Collect(rest, room - |arg| - 1, n + 1);
          Argv([arg] + more.args, more.overrun)
  }

  datatype Outcome = BufferTooSmall | Unterminated | Arguments(argv: Argv)

  const LINE_BUF := 4096
  const ELEM_BUF := 512

  /** VlShell_Execute up to the argument vector. */
  function Execute(vars: Lookup, line: string): Outcome {
    var out := Expanded(vars, line);
    if |out| > LINE_BUF then BufferTooSmall
    else if |CString(out)| == LINE_BUF then Unterminated
    else Arguments(Collect(CString(out), ELEM_BUF, 0))
  }
}
