/**
 JSON values, a printer, and what the recursive-descent parser makes of the text that is still unread.
 */
module Json {
  import opened Arithmetic
  import opened Decimal

  datatype Value =
    | Null
    | Bool(b: bool)
    | Number(n: int)
    | Str(s: string)
    | Array(elems: Elements)
    | Object(members: Members)

  /** The linked list of an array. */
  datatype Elements = NoElement | Element(index: nat, value: Value, next: Elements)

  /** The linked list of an object. */
  datatype Members = NoMember | Member(key: string, value: Value, next: Members)

  datatype Failure = InvalidSyntax | SyntaxError

  /** A parsed thing and the text behind it. */
  datatype Parsed<T> = Ok(value: T, rest: string) | Err(status: Failure)

  // ---------- Characters ----------

  predicate IsSpace(c: char) {
    c == ' ' || '\t' <= c <= '\r'
  }

  /** The character under the cursor; a NUL ends the text. */
  function Peek(t: string): char {
    if t == "" then '\0' else t[0]
  }

  function SkipSpace(t: string): (r: string)
    ensures |r| <= |t|
  {
    if t != "" && IsSpace(t[0]) then SkipSpace(t[1..]) else t
  }

  const MIN := -0x8000_0000_0000_0000

  /** The arithmetic of int64_t, wrapping around. */
  function Wrap64(x: int): int {
    Signed(x, -MIN)
  }

  // ---------- The parser ----------

  function ReadDigits(t: string, num: int): (p: Parsed<int>)
    ensures p.Ok? && |p.rest| <= |t|
  {
    if t != "" && IsDigit(t[0]) then ReadDigits(t[1..], Wrap64(num * 10 + (t[0] as int - '0' as int)))
    else Ok(num, t)
  }

  /** parse_number, on a text that starts with a digit or a minus. */
  function ParseNumber(t: string): (p: Parsed<Value>)
    requires t != "" && (t[0] == '-' || IsDigit(t[0]))
    ensures p.Ok? ==> |p.rest| < |t|
  {
    if |t| <= 1 then Err(InvalidSyntax)
    else if t[0] == '-' then
      var d := ReadDigits(t[1..], 0);
      Ok(Number(Wrap64(-d.value)), d.rest)
    else
      var d := ReadDigits(t, 0);
      Ok(Number(d.value), d.rest)
  }

  /** The rest of a string literal. A backslash and the character behind it are dropped. */
  function ReadString(t: string, str: string): (p: Parsed<string>)
    requires t != ""
    ensures p.Ok? ==> |p.rest| < |t| && str <= p.value
  {
    if t[0] == '\\' then (if |t| <= 2 then Err(InvalidSyntax) else ReadString(t[2..], str))
    else if |t| <= 1 then Err(InvalidSyntax)
    else if t[0] == '"' then Ok(str, t[1..])
    else ReadString(t[1..], str + [t[0]])
  }

  /** parse_string_literal. */
  function ParseLiteral(t: string): (p: Parsed<string>)
    ensures p.Ok? ==> |p.rest| < |t|
  {
    var q := SkipSpace(t);
    if Peek(q) != '"' || |q| <= 1 then Err(InvalidSyntax) else ReadString(q[1..], "")
  }

  /** parse_other: a keyword with at least one character behind it. */
  function ParseKeyword(t: string): (p: Parsed<Value>)
    ensures p.Ok? ==> |p.rest| < |t|
  {
    if Peek(t) == 't' && |t| > 4 && t[..4] == "true" then Ok(Bool(true), t[4..])
    else if Peek(t) == 'f' && |t| > 5 && t[..5] == "false" then Ok(Bool(false), t[5..])
    else if Peek(t) == 'n' && |t| > 4 && t[..4] == "null" then Ok(Null, t[4..])
    else Err(InvalidSyntax)
  }

  /** parse_value. */
  function ParseValue(t: string): (p: Parsed<Value>)
    ensures p.Ok? ==> |p.rest| < |t|
    decreases |t|, 0
  {
    var q := SkipSpace(t);
    if Peek(q) == '{' && |q| > 1 then
      var m := ParseMembers(q[1..]);
      if m.Err? then Err(m.status) else Ok(Object(m.value), m.rest)
    else if Peek(q) == '[' && |q| > 1 then
      var e := ParseElements(q[1..], 0);
      if e.Err? then Err(e.status) else Ok(Array(e.value), e.rest)
    else if Peek(q) == '"' then
      var l := ParseLiteral(q);
      if l.Err? then Err(l.status) else Ok(Str(l.value), l.rest)
    else if IsDigit(Peek(q)) || Peek(q) == '-' then ParseNumber(q)
    else ParseKeyword(q)
  }

  /** The elements from number `index` on. Behind a comma one more character is skipped. */
  function ParseElements(t: string, index: nat): (p: Parsed<Elements>)
    ensures p.Ok? ==> |p.rest| < |t|
    decreases |t|, 1
  {
    var v := ParseValue(t);
    if v.Err? then Err(v.status) else
      var r := SkipSpace(v.rest);
      if Peek(r) == ']' && |r| > 1 then Ok(Element(index, v.value, NoElement), r[1..])
      else if Peek(r) == ',' && |r| > 2 then
        var more := ParseElements(r[2..], index + 1);
        if more.Err? then more else Ok(Element(index, v.value, more.value), more.rest)
      else Err(InvalidSyntax)
  }

  /** The members that are left. */
  function ParseMembers(t: string): (p: Parsed<Members>)
    ensures p.Ok? ==> |p.rest| < |t|
    decreases |t|, 1
  {
    var k := ParseLiteral(t);
    if k.Err? then Err(k.status) else
      var c := SkipSpace(k.rest);
      if Peek(c) != ':' || |c| <= 1 then Err(SyntaxError) else
        var v := ParseValue(c[1..]);
        if v.Err? then Err(v.status) else
          var r := SkipSpace(v.rest);
          if Peek(r) == '}' && |r| > 1 then Ok(Member(k.value, v.value, NoMember), r[1..])
          else if Peek(r) == ',' && |r| > 2 then
            var more := ParseMembers(r[2..]);
            if more.Err? then more else Ok(Member(k.value, v.value, more.value), more.rest)
          else Err(SyntaxError)
  }

  // ---------- The printer ----------

  /** JSON in which `gap` follows every comma, and nothing else is spaced. */
  function Print(v: Value, gap: string): string {
    match v
    case Null => "null"
    case Bool(b) => if b then "true" else "false"
    case Number(n) => if n < 0 then "-" + Digits(-n) else Digits(n)
    case Str(s) => "\"" + s + "\""
    case Array(elems) => "[" + PrintElements(elems, gap)
    case Object(members) => "{" + PrintMembers(members, gap)
  }

  function PrintElements(elems: Elements, gap: string): string {
    match elems
    case NoElement => "]"
    case Element(_, v, NoElement) => Print(v, gap) + "]"
    case Element(_, v, next) => Print(v, gap) + ("," + gap + PrintElements(next, gap))
  }

  function PrintMembers(members: Members, gap: string): string {
    match members
    case NoMember => "}"
    case Member(k, v, NoMember) => "\"" + k + ("\":" + Print(v, gap) + "}")
    case Member(k, v, next) => "\"" + k + ("\":" + Print(v, gap) + ("," + gap + PrintMembers(next, gap)))
  }

  // ---------- The values that can be printed ----------

  predicate Plain(s: string) {
    '"' !in s && '\\' !in s
  }

  /** Built from null, booleans, int64 numbers, plain strings and non-empty containers with numbered elements. */
  predicate Printable(v: Value) {
    match v
    case Null => true
    case Bool(_) => true
    case Number(n) => MIN <= n < -MIN
    case Str(s) => Plain(s)
    case Array(elems) => elems.Element? && PrintableElements(elems, 0)
    case Object(members) => members.Member? && PrintableMembers(members)
  }

  predicate PrintableElements(elems: Elements, index: nat) {
    elems.Element? ==> elems.index == index && Printable(elems.value) && PrintableElements(elems.next, index + 1)
  }

  predicate PrintableMembers(members: Members) {
    members.Member? ==> Plain(members.key) && Printable(members.value) && PrintableMembers(members.next)
  }

  predicate AllSpace(s: string) {
    forall i | 0 <= i < |s| :: IsSpace(s[i])
  }
}
