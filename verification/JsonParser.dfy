/**
 The JSON parser as it runs: a cursor that only moves forward over the text, string buffers sized in advance, and
 linked lists that grow at the end. Also the three accessors.
 */
module JsonParser {
  import opened Decimal
  import opened Json
  import opened Options

  datatype Outcome<T> = Success(value: T) | Failed(status: Failure)

  /** An outcome and the text left behind it are what `p` says. */
  ghost predicate Agrees<T>(o: Outcome<T>, left: string, p: Parsed<T>) {
    match p
    case Ok(v, rest) => o == Success(v) && left == rest
    case Err(e) => o == Failed(e)
  }

  // ---------- Lists that grow at the end ----------

  function Append(elems: Elements, last: Elements): Elements {
    match elems
    case NoElement => last
    case Element(i, v, next) => Element(i, v, Append(next, last))
  }

  function AppendMembers(members: Members, last: Members): Members {
    match members
    case NoMember => last
    case Member(k, v, next) => Member(k, v, AppendMembers(next, last))
  }

  ghost function Behind(elems: Elements, p: Parsed<Elements>): Parsed<Elements> {
    if p.Err? then p else Ok(Append(elems, p.value), p.rest)
  }

  ghost function BehindMembers(members: Members, p: Parsed<Members>): Parsed<Members> {
    if p.Err? then p else Ok(AppendMembers(members, p.value), p.rest)
  }

  lemma AppendTwice(a: Elements, b: Elements, c: Elements)
    ensures Append(Append(a, b), c) == Append(a, Append(b, c))
  {
  }

  lemma AppendMembersTwice(a: Members, b: Members, c: Members)
    ensures AppendMembers(AppendMembers(a, b), c) == AppendMembers(a, AppendMembers(b, c))
  {
  }

  lemma NoSpaceTwice(t: string)
    ensures SkipSpace(SkipSpace(t)) == SkipSpace(t)
  {
  }

  lemma BehindTwice(list: Elements, one: Elements, p: Parsed<Elements>)
    ensures Behind(list, Behind(one, p)) == Behind(Append(list, one), p)
  {
    if p.Ok? {
      AppendTwice(list, one, p.value);
    }
  }

  lemma BehindMembersTwice(list: Members, one: Members, p: Parsed<Members>)
    ensures BehindMembers(list, BehindMembers(one, p)) == BehindMembers(AppendMembers(list, one), p)
  {
    if p.Ok? {
      AppendMembersTwice(list, one, p.value);
    }
  }

  lemma SpaceBeforeValue(t: string)
    ensures Json.ParseValue(SkipSpace(t)) == Json.ParseValue(t)
    ensures Json.ParseLiteral(SkipSpace(t)) == Json.ParseLiteral(t)
  {
    NoSpaceTwice(t);
  }

  // ---------- One round of the loops in parse_array and parse_object ----------

  lemma ElementFails(t: string, index: nat)
    ensures Json.ParseValue(t).Err? ==> ParseElements(t, index) == Err(Json.ParseValue(t).status)
  {
    hide Json.ParseValue;
  }

  /** What follows an element decides: the end, a comma, or nothing that is allowed. */
  lemma ElementStep(t: string, index: nat, v: Value, rest: string, r: string)
    requires Json.ParseValue(t) == Ok(v, rest) && r == SkipSpace(rest)
    ensures Peek(r) == ']' && |r| > 1 ==> ParseElements(t, index) == Ok(Element(index, v, NoElement), r[1..])
    ensures Peek(r) == ',' && |r| > 2 ==>
              ParseElements(t, index) == Behind(Element(index, v, NoElement), ParseElements(r[2..], index + 1))
    ensures Peek(r) != ']' && Peek(r) != ',' ==> ParseElements(t, index) == Err(InvalidSyntax)
    ensures |r| <= 1 || (|r| == 2 && Peek(r) == ',') ==> ParseElements(t, index) == Err(InvalidSyntax)
  {
    hide Json.ParseValue;
    if Peek(r) == ',' && |r| > 2 {
      var more := ParseElements(r[2..], index + 1);
      if more.Ok? {
        assert Append(Element(index, v, NoElement), more.value) == Element(index, v, more.value);
      }
    }
  }

  lemma KeyFails(t: string)
    ensures Json.ParseLiteral(t).Err? ==> ParseMembers(t) == Err(Json.ParseLiteral(t).status)
  {
    hide Json.ParseLiteral, Json.ParseValue;
  }

  lemma ColonStep(t: string, key: string, rest: string, c: string)
    requires Json.ParseLiteral(t) == Ok(key, rest) && c == SkipSpace(rest)
    ensures Peek(c) != ':' || |c| <= 1 ==> ParseMembers(t) == Err(SyntaxError)
    ensures Peek(c) == ':' && |c| > 1 && Json.ParseValue(c[1..]).Err? ==>
              ParseMembers(t) == Err(Json.ParseValue(c[1..]).status)
  {
    hide Json.ParseLiteral, Json.ParseValue;
  }

  lemma MemberStep(t: string, key: string, c: string, v: Value, rest: string, r: string)
    requires Json.ParseLiteral(t).Ok? && Json.ParseLiteral(t).value == key
    requires c == SkipSpace(Json.ParseLiteral(t).rest) && Peek(c) == ':' && |c| > 1
    requires Json.ParseValue(c[1..]) == Ok(v, rest) && r == SkipSpace(rest)
    ensures Peek(r) == '}' && |r| > 1 ==> ParseMembers(t) == Ok(Member(key, v, NoMember), r[1..])
    ensures Peek(r) == ',' && |r| > 2 ==>
              ParseMembers(t) == BehindMembers(Member(key, v, NoMember), ParseMembers(r[2..]))
    ensures Peek(r) != '}' && Peek(r) != ',' ==> ParseMembers(t) == Err(SyntaxError)
    ensures |r| <= 1 || (|r| == 2 && Peek(r) == ',') ==> ParseMembers(t) == Err(SyntaxError)
  {
    hide Json.ParseLiteral, Json.ParseValue;
    if Peek(r) == ',' && |r| > 2 {
      var more := ParseMembers(r[2..]);
      if more.Ok? {
        assert AppendMembers(Member(key, v, NoMember), more.value) == Member(key, v, more.value);
      }
    }
  }

  /** What count_escaped_string_len counts: an escaped pair is one character. */
  function EscapedLength(t: string): nat {
    if t == "" || t[0] == '"' then 0
    else if t[0] == '\\' && |t| > 1 then 1 + EscapedLength(t[2..])
    else 1 + EscapedLength(t[1..])
  }

  lemma CharacterStep(t: string, str: string)
    requires t != ""
    ensures t[0] == '"' && |t| > 1 ==> ReadString(t, str) == Ok(str, t[1..])
    ensures t[0] == '\\' && |t| > 2 ==> ReadString(t, str) == ReadString(t[2..], str)
    ensures t[0] == '\\' && |t| > 2 ==> EscapedLength(t) == 1 + EscapedLength(t[2..])
    ensures t[0] != '"' && t[0] != '\\' && |t| > 1 ==> ReadString(t, str) == ReadString(t[1..], str + [t[0]])
    ensures t[0] != '"' && t[0] != '\\' ==> EscapedLength(t) == 1 + EscapedLength(t[1..])
    ensures |t| <= 1 || (t[0] == '\\' && |t| <= 2) ==> ReadString(t, str) == Err(InvalidSyntax)
  {
  }

  ghost function AsObject(p: Parsed<Members>): Parsed<Value> {
    if p.Ok? then Ok(Object(p.value), p.rest) else Err(p.status)
  }

  ghost function AsArray(p: Parsed<Elements>): Parsed<Value> {
    if p.Ok? then Ok(Array(p.value), p.rest) else Err(p.status)
  }

  ghost function AsString(p: Parsed<string>): Parsed<Value> {
    if p.Ok? then Ok(Str(p.value), p.rest) else Err(p.status)
  }

  /** The first character that is no space says what a value is. */
  lemma ValueStep(t: string, q: string)
    requires q == SkipSpace(t)
    ensures Peek(q) == '{' && |q| > 1 ==> Json.ParseValue(t) == AsObject(ParseMembers(q[1..]))
    ensures Peek(q) == '[' && |q| > 1 ==> Json.ParseValue(t) == AsArray(ParseElements(q[1..], 0))
    ensures (Peek(q) == '{' || Peek(q) == '[') && |q| <= 1 ==> Json.ParseValue(t) == Err(InvalidSyntax)
    ensures Peek(q) == '"' ==> Json.ParseValue(t) == AsString(Json.ParseLiteral(q))
    ensures IsDigit(Peek(q)) || Peek(q) == '-' ==> Json.ParseValue(t) == Json.ParseNumber(q)
    ensures Peek(q) == 't' || Peek(q) == 'f' || Peek(q) == 'n' ==> Json.ParseValue(t) == ParseKeyword(q)
    ensures Peek(q) !in "{[\"-tfn" && !IsDigit(Peek(q)) ==> Json.ParseValue(t) == Err(InvalidSyntax)
  {
    hide ParseElements, ParseMembers, Json.ParseLiteral, Json.ParseNumber;
  }

  function Length(elems: Elements): nat {
    if elems.NoElement? then 0 else 1 + Length(elems.next)
  }

  class Parser {
    const str: string
    var cursor: nat

    ghost predicate Valid()
      reads this
    {
      cursor <= |str|
    }

    ghost function Left(): string
      requires Valid()
      reads this
    {
      str[cursor..]
    }

    constructor (str: string)
      ensures Valid() && this.str == str && cursor == 0
    {
      this.str := str;
      cursor := 0;
    }

    /** The character at the cursor, the closing NUL included. */
    function Here(): (c: char)
      requires Valid()
      reads this
      ensures c == Peek(Left())
    {
      if cursor < |str| then str[cursor] else '\0'
    }

    lemma Further(n: nat)
      requires Valid() && cursor + n <= |str|
      ensures str[cursor + n..] == Left()[n..]
    {
    }

    method SkipWhitespace()
      requires Valid()
      modifies this
      ensures Valid() && cursor >= old(cursor)
      ensures Left() == SkipSpace(old(Left()))
    {
      while cursor < |str| && IsSpace(str[cursor])
        invariant old(cursor) <= cursor <= |str|
        invariant SkipSpace(Left()) == SkipSpace(old(Left()))
      {
        Further(1);
        cursor := cursor + 1;
      }
    }

    method CountEscapedStringLen() returns (len: nat)
      requires Valid()
      ensures len == EscapedLength(Left())
    {
      var i: nat := 0;
      len := 0;
      while cursor + i < |str| && str[cursor + i] != '"'
        invariant cursor + i <= |str| + 1
        invariant cursor + i <= |str| ==> len + EscapedLength(str[cursor + i..]) == EscapedLength(Left())
        invariant cursor + i > |str| ==> len == EscapedLength(Left())
        decreases |str| + 1 - cursor - i
      {
        var t := str[cursor + i..];
        assert t[1..] == str[cursor + i + 1..];
        if str[cursor + i] == '\\' {
          assert |t| > 1 ==> t[2..] == str[cursor + i + 2..];
          i := i + 1;
        }
        len := len + 1;
        i := i + 1;
      }
    }

    /** The part behind the opening quote: the buffer is never written outside its count of characters. */
    method ParseCharacters() returns (o: Outcome<string>)
      requires Valid() && cursor < |str|
      modifies this
      ensures Valid() && cursor >= old(cursor)
      ensures Agrees(o, Left(), ReadString(old(Left()), ""))
    {
      hide ReadString, EscapedLength, SkipSpace;
      var length := CountEscapedStringLen();
      var buf := new char[length + 1];
      var bufcur := 0;
      var end := false;
      while !end
        invariant Valid() && cursor >= old(cursor) && 0 <= bufcur <= length < buf.Length
        invariant !end ==> cursor < |str| && bufcur + EscapedLength(Left()) <= length
        invariant !end ==> ReadString(Left(), buf[..bufcur]) == ReadString(old(Left()), "")
        invariant end ==> ReadString(old(Left()), "") == Ok(buf[..bufcur], Left())
        decreases !end, |str| - cursor
      {
        CharacterStep(Left(), buf[..bufcur]);
        if str[cursor] == '\\' {
          if cursor + 1 >= |str| {
            return Failed(InvalidSyntax);
          }
          assert cursor + 2 < |str| ==> str[cursor + 2..] == Left()[2..];
          cursor := cursor + 1;
        } else if str[cursor] == '"' {
          end := true;
          Further(1);
        } else {
          Further(1);
          buf[bufcur] := str[cursor];
          assert buf[..bufcur + 1] == buf[..bufcur] + [str[cursor]];
          bufcur := bufcur + 1;
        }
        if cursor + 1 >= |str| {
          return Failed(InvalidSyntax);
        }
        cursor := cursor + 1;
      }
      buf[bufcur] := '\0';
      o := Success(buf[..bufcur]);
    }

    method ParseStringLiteral() returns (o: Outcome<string>)
      requires Valid()
      modifies this
      ensures Valid() && cursor >= old(cursor)
      ensures Agrees(o, Left(), ParseLiteral(old(Left())))
    {
      SkipWhitespace();
      if Here() != '"' || cursor + 1 >= |str| {
        return Failed(InvalidSyntax);
      }
      Further(1);
      cursor := cursor + 1;
      o := ParseCharacters();
    }

    method ReadNumber() returns (num: int)
      requires Valid()
      modifies this
      ensures Valid() && cursor >= old(cursor)
      ensures ReadDigits(old(Left()), 0) == Ok(num, Left())
    {
      hide Wrap64;
      num := 0;
      while IsDigit(Here())
        invariant Valid() && cursor >= old(cursor)
        invariant ReadDigits(Left(), num) == ReadDigits(old(Left()), 0)
        decreases |str| - cursor
      {
        num := Wrap64(num * 10 + (Here() as int - '0' as int));
        Further(1);
        cursor := cursor + 1;
      }
    }

    method ParseNumber() returns (o: Outcome<Value>)
      requires Valid() && (Here() == '-' || IsDigit(Here()))
      modifies this
      ensures Valid() && cursor >= old(cursor)
      ensures Agrees(o, Left(), Json.ParseNumber(old(Left())))
    {
      hide ReadDigits, Wrap64;
      if cursor + 1 >= |str| {
        return Failed(InvalidSyntax);
      }
      var negate := false;
      if str[cursor] == '-' {
        negate := true;
        Further(1);
        cursor := cursor + 1;
      }
      var num := ReadNumber();
      if negate {
        num := Wrap64(-num);
      }
      o := Success(Number(num));
    }

    method ParseOther() returns (o: Outcome<Value>)
      requires Valid()
      modifies this
      ensures Valid() && cursor >= old(cursor)
      ensures Agrees(o, Left(), ParseKeyword(old(Left())))
    {
      var here := Here();
      if here == 't' && cursor + 4 < |str| && str[cursor..cursor + 4] == "true" {
        assert Left()[..4] == str[cursor..cursor + 4];
        Further(4);
        cursor := cursor + 4;
        o := Success(Bool(true));
      } else if here == 'f' && cursor + 5 < |str| && str[cursor..cursor + 5] == "false" {
        assert Left()[..5] == str[cursor..cursor + 5];
        Further(5);
        cursor := cursor + 5;
        o := Success(Bool(false));
      } else if here == 'n' && cursor + 4 < |str| && str[cursor..cursor + 4] == "null" {
        assert Left()[..4] == str[cursor..cursor + 4];
        Further(4);
        cursor := cursor + 4;
        o := Success(Null);
      } else {
        assert |Left()| > 4 ==> Left()[..4] == str[cursor..cursor + 4];
        assert |Left()| > 5 ==> Left()[..5] == str[cursor..cursor + 5];
        o := Failed(InvalidSyntax);
      }
    }

    /** The end of a round: the comma costs two characters, the closing bracket one. */
    method Separator(close: char, bad: Failure) returns (o: Outcome<bool>)
      requires Valid() && close != ',' && close != '\0'
      modifies this
      ensures Valid() && cursor >= old(cursor)
      ensures var r := old(Left());
        o == if Peek(r) == close && |r| > 1 then Success(true)
             else if Peek(r) == ',' && |r| > 2 then Success(false) else Failed(bad)
      ensures o.Success? ==> cursor > old(cursor) && Left() == old(Left())[if o.value then 1 else 2..]
    {
      if Here() == close {
        o := Success(true);
      } else if Here() == ',' {
        if cursor + 1 >= |str| {
          return Failed(bad);
        }
        cursor := cursor + 1;
        o := Success(false);
      } else {
        return Failed(bad);
      }
      if cursor + 1 >= |str| {
        return Failed(bad);
      }
      cursor := cursor + 1;
    }

    method ParseArray() returns (o: Outcome<Elements>)
      requires Valid() && Here() == '['
      modifies this
      ensures Valid() && cursor >= old(cursor)
      ensures Agrees(o, Left(), if |old(Left())| <= 1 then Err(InvalidSyntax) else ParseElements(old(Left())[1..], 0))
      decreases |str| - cursor, 0
    {
      if cursor + 1 >= |str| {
        return Failed(InvalidSyntax);
      }
      Further(1);
      cursor := cursor + 1;
      ghost var start := Left();
      var list, index, end := NoElement, 0, false;
      while !end
        invariant Valid() && cursor > old(cursor)
        invariant !end ==> Behind(list, ParseElements(Left(), index)) == ParseElements(start, 0)
        invariant end ==> ParseElements(start, 0) == Ok(list, Left())
        decreases !end, |str| - cursor
      {
        hide Json.ParseValue, ParseElements, SkipSpace;
        ghost var t := Left();
        SpaceBeforeValue(t);
        ElementFails(t, index);
        SkipWhitespace();
        var v := ParseValue();
        if v.Failed? {
          return Failed(v.status);
        }
        ghost var rest := Left();
        SkipWhitespace();
        ghost var r := Left();
        ElementStep(t, index, v.value, rest, r);
        var one := Element(index, v.value, NoElement);
        if |r| > 2 {
          BehindTwice(list, one, ParseElements(r[2..], index + 1));
        }
        list := Append(list, one);
        var sep := Separator(']', InvalidSyntax);
        if sep.Failed? {
          return Failed(sep.status);
        }
        end, index := sep.value, index + 1;
      }
      o := Success(list);
    }

    /** The first half of a round in parse_object: the key and the colon. */
    method ParseKey() returns (key: Outcome<string>)
      requires Valid()
      modifies this
      ensures Valid() && cursor >= old(cursor)
      ensures key.Failed? ==> ParseMembers(old(Left())) == Err(key.status)
      ensures key.Success? ==>
                var k := Json.ParseLiteral(old(Left()));
                k.Ok? && k.value == key.value && Peek(SkipSpace(k.rest)) == ':' && |SkipSpace(k.rest)| > 1
                && Left() == SkipSpace(k.rest)[1..] && cursor > old(cursor)
    {
      hide Json.ParseValue, Json.ParseLiteral, ParseMembers, SkipSpace;
      ghost var t := Left();
      SpaceBeforeValue(t);
      KeyFails(t);
      SkipWhitespace();
      key := ParseStringLiteral();
      if key.Success? {
        ghost var rest := Left();
        SkipWhitespace();
        ColonStep(t, key.value, rest, Left());
        if Here() != ':' || cursor + 1 >= |str| {
          return Failed(SyntaxError);
        }
        Further(1);
        cursor := cursor + 1;
      }
    }

    method ParseObject() returns (o: Outcome<Members>)
      requires Valid() && Here() == '{'
      modifies this
      ensures Valid() && cursor >= old(cursor)
      ensures Agrees(o, Left(), if |old(Left())| <= 1 then Err(InvalidSyntax) else ParseMembers(old(Left())[1..]))
      decreases |str| - cursor, 0
    {
      if cursor + 1 >= |str| {
        return Failed(InvalidSyntax);
      }
      Further(1);
      cursor := cursor + 1;
      ghost var start := Left();
      var list, end := NoMember, false;
      while !end
        invariant Valid() && cursor > old(cursor)
        invariant !end ==> BehindMembers(list, ParseMembers(Left())) == ParseMembers(start)
        invariant end ==> ParseMembers(start) == Ok(list, Left())
        decreases !end, |str| - cursor
      {
        hide Json.ParseValue, Json.ParseLiteral, ParseMembers, SkipSpace, AppendMembers;
        ghost var t := Left();
        var key := ParseKey();
        if key.Failed? {
          return Failed(key.status);
        }
        ghost var c := SkipSpace(Json.ParseLiteral(t).rest);
        SpaceBeforeValue(Left());
        SkipWhitespace();
        var v := ParseValue();
        ColonStep(t, key.value, Json.ParseLiteral(t).rest, c);
        if v.Failed? {
          return Failed(v.status);
        }
        ghost var rest := Left();
        SkipWhitespace();
        ghost var r := Left();
        MemberStep(t, key.value, c, v.value, rest, r);
        var one := Member(key.value, v.value, NoMember);
        if |r| > 2 {
          BehindMembersTwice(list, one, ParseMembers(r[2..]));
        }
        list := AppendMembers(list, one);
        var sep := Separator('}', SyntaxError);
        if sep.Failed? {
          return Failed(sep.status);
        }
        end := sep.value;
      }
      o := Success(list);
    }

    method ParseValue() returns (o: Outcome<Value>)
      requires Valid()
      modifies this
      ensures Valid() && cursor >= old(cursor)
      ensures Agrees(o, Left(), Json.ParseValue(old(Left())))
      decreases |str| - cursor, 1
    {
      hide ParseElements, ParseMembers, Json.ParseLiteral, Json.ParseNumber, ParseKeyword, SkipSpace;
      SkipWhitespace();
      ghost var q := Left();
      ValueStep(old(Left()), q);
      var here := Here();
      if here == '{' {
        var members := ParseObject();
        o := if members.Success? then Success(Object(members.value)) else Failed(members.status);
      } else if here == '[' {
        var elems := ParseArray();
        o := if elems.Success? then Success(Array(elems.value)) else Failed(elems.status);
      } else if here == '"' {
        var s := ParseStringLiteral();
        o := if s.Success? then Success(Str(s.value)) else Failed(s.status);
      } else if IsDigit(here) || here == '-' {
        o := ParseNumber();
      } else if here == 't' || here == 'f' || here == 'n' {
        o := ParseOther();
      } else {
        o := Failed(InvalidSyntax);
      }
    }
  }

  /** VlJson_Parse: what stands behind the value is not looked at. */
  method Parse(str: string) returns (o: Outcome<Value>)
    ensures match Json.ParseValue(str) case Ok(v, _) => o == Success(v) case Err(e) => o == Failed(e)
  {
    var parser := new Parser(str);
    assert parser.Left() == str;
    o := parser.ParseValue();
  }

  // ---------- What the parser can return ----------

  /** Containers are not empty, and elements are numbered from 0 on. */
  predicate Canonical(v: Value) {
    match v
    case Array(elems) => elems.Element? && Numbered(elems, 0)
    case Object(members) => members.Member? && CanonicalMembers(members)
    case Number(n) => MIN <= n < -MIN
    case _ => true
  }

  predicate Numbered(elems: Elements, index: nat) {
    elems.Element? ==> elems.index == index && Canonical(elems.value) && Numbered(elems.next, index + 1)
  }

  predicate CanonicalMembers(members: Members) {
    members.Member? ==> Canonical(members.value) && CanonicalMembers(members.next)
  }

  lemma {:induction false} DigitsInRange(t: string, num: int)
    requires MIN <= num < -MIN
    ensures MIN <= ReadDigits(t, num).value < -MIN
    decreases |t|
  {
    if t != "" && IsDigit(t[0]) {
      DigitsInRange(t[1..], Wrap64(num * 10 + (t[0] as int - '0' as int)));
    }
  }

  lemma NegatedInRange(n: int)
    ensures MIN <= Wrap64(-n) < -MIN
  {
  }

  /** Every text that is accepted, printed or not, yields a value of this form. */
  lemma {:induction false} ParsedIsCanonical(t: string)
    ensures var p := Json.ParseValue(t); p.Ok? ==> Canonical(p.value)
    decreases |t|, 0
  {
    hide ParseElements, ParseMembers, Json.ParseLiteral, ReadDigits, Wrap64;
    var q := SkipSpace(t);
    if |q| > 1 {
      DigitsInRange(q, 0);
      DigitsInRange(q[1..], 0);
      NegatedInRange(ReadDigits(q[1..], 0).value);
      ParsedElementsAreNumbered(q[1..], 0);
      ParsedMembersAreCanonical(q[1..]);
    }
  }

  lemma {:induction false} ParsedElementsAreNumbered(t: string, index: nat)
    ensures var p := ParseElements(t, index); p.Ok? ==> p.value.Element? && Numbered(p.value, index)
    decreases |t|, 1
  {
    hide Json.ParseValue;
    ParsedIsCanonical(t);
    var v := Json.ParseValue(t);
    if v.Ok? {
      var r := SkipSpace(v.rest);
      if Peek(r) == ',' && |r| > 2 {
        ParsedElementsAreNumbered(r[2..], index + 1);
      }
    }
  }

  lemma {:induction false} ParsedMembersAreCanonical(t: string)
    ensures var p := ParseMembers(t); p.Ok? ==> p.value.Member? && CanonicalMembers(p.value)
    decreases |t|, 1
  {
    hide Json.ParseValue, Json.ParseLiteral;
    var k := Json.ParseLiteral(t);
    if k.Ok? {
      var c := SkipSpace(k.rest);
      if Peek(c) == ':' && |c| > 1 {
        ParsedIsCanonical(c[1..]);
        var v := Json.ParseValue(c[1..]);
        if v.Ok? {
          var r := SkipSpace(v.rest);
          if Peek(r) == ',' && |r| > 2 {
            ParsedMembersAreCanonical(r[2..]);
          }
        }
      }
    }
  }

  // ---------- The accessors ----------

  predicate HasKey(members: Members, key: string) {
    members.Member? && (members.key == key || HasKey(members.next, key))
  }

  function Nth(elems: Elements, n: nat): Value
    requires n < Length(elems)
  {
    if n == 0 then elems.value else Nth(elems.next, n - 1)
  }

  lemma {:induction false} NoKeyIn(members: Members, last: Members, key: string)
    ensures HasKey(AppendMembers(members, last), key) <==> HasKey(members, key) || HasKey(last, key)
  {
    if members.Member? {
      NoKeyIn(members.next, last, key);
    }
  }

  /** The value of the first member with the key, if there is one. */
  method GetObjectElementValue(obj: Members, key: string) returns (found: Option<Value>)
    ensures found.Some? <==> HasKey(obj, key)
    ensures found.Some? ==>
              exists before, after :: obj == AppendMembers(before, Member(key, found.value, after)) &&
                !HasKey(before, key)
  {
    var elem := obj;
    ghost var before := NoMember;
    while elem.Member?
      invariant obj == AppendMembers(before, elem) && !HasKey(before, key)
      invariant HasKey(obj, key) <==> HasKey(elem, key)
      decreases elem
    {
      if elem.key == key {
        return Some(elem.value);
      }
      var one := Member(elem.key, elem.value, NoMember);
      AppendMembersTwice(before, one, elem.next);
      NoKeyIn(before, one, key);
      before, elem := AppendMembers(before, one), elem.next;
    }
    found := None;
  }

  predicate HasIndex(elems: Elements, idx: nat) {
    elems.Element? && (elems.index == idx || HasIndex(elems.next, idx))
  }

  /** On every array the parser builds, the element with number `idx` is the one at place `idx`. */
  method GetArrayElementValue(arr: Elements, idx: nat) returns (found: Option<Value>)
    ensures found.Some? <==> HasIndex(arr, idx)
    ensures Numbered(arr, 0) ==> found == if idx < Length(arr) then Some(Nth(arr, idx)) else None
  {
    var elem := arr;
    ghost var n: nat := 0;
    while elem.Element?
      invariant HasIndex(arr, idx) <==> HasIndex(elem, idx)
      invariant Numbered(arr, 0) ==> Numbered(elem, n) && n <= idx && Length(arr) == n + Length(elem)
      invariant Numbered(arr, 0) && idx < Length(arr) ==> Nth(arr, idx) == Nth(elem, idx - n)
      decreases elem
    {
      if elem.index == idx {
        return Some(elem.value);
      }
      elem, n := elem.next, n + 1;
    }
    found := None;
  }

  method GetArrayElementCount(arr: Elements) returns (count: nat)
    ensures count == Length(arr)
  {
    count := 0;
    var elem := arr;
    while elem.Element?
      invariant count + Length(elem) == Length(arr)
      decreases elem
    {
      count, elem := count + 1, elem.next;
    }
  }
}
