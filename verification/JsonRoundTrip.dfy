/**
 Which printed values the JSON parser reads back: all of them when some space follows every comma, and without it
 exactly those that lose nothing when the character behind each comma is skipped.
 */
module JsonRoundTrip {
  import opened Arithmetic
  import opened Decimal
  import opened Json

  // ---------- What may follow a value ----------

  predicate EndsValue(rest: string) {
    rest != "" && !IsDigit(rest[0])
  }

  lemma SkipsAllSpace(gap: string, t: string)
    requires AllSpace(gap)
    ensures SkipSpace(gap + t) == SkipSpace(t)
  {
    if gap == "" {
      assert gap + t == t;
    } else {
      assert (gap + t)[1..] == gap[1..] + t;
      SkipsAllSpace(gap[1..], t);
    }
  }

  // ---------- Numbers ----------

  lemma SignedStep(m: int, d: int)
    ensures Wrap64(Wrap64(m) * 10 + d) == Wrap64(m * 10 + d)
  {
    var w := 0x1_0000_0000_0000_0000;
    var k := (m - MIN) / w;
    assert Wrap64(m) == m - w * k;
    assert Wrap64(m) * 10 + d - MIN == (m * 10 + d - MIN) - w * (10 * k);
    AddMultiple(Wrap64(m) * 10 + d - MIN, 10 * k, w);
  }

  lemma WrapKeeps(n: int)
    requires MIN <= n < -MIN
    ensures Wrap64(n) == n
  {
  }

  lemma {:induction false} DigitsThen(n: nat, rest: string)
    ensures ReadDigits(Digits(n) + rest, 0) == ReadDigits(rest, Wrap64(n))
  {
    var d := [('0' as int + n % 10) as char];
    if n < 10 {
      assert (d + rest)[1..] == rest;
    } else {
      assert Digits(n) + rest == Digits(n / 10) + (d + rest);
      DigitsThen(n / 10, d + rest);
      assert (d + rest)[1..] == rest;
      SignedStep(n / 10, n % 10);
      assert n / 10 * 10 + n % 10 == n;
    }
  }

  /** Reading the digits of a number leaves the number, wrapped to 64 bits. */
  lemma {:induction false} DigitsReadBack(n: nat, rest: string)
    requires EndsValue(rest)
    ensures ReadDigits(Digits(n) + rest, 0) == Ok(Wrap64(n), rest)
  {
    DigitsThen(n, rest);
  }

  lemma NegatedTwice(n: int)
    requires MIN <= n < -MIN
    ensures Wrap64(-Wrap64(-n)) == n
  {
  }

  lemma {:induction false} NumberReadBack(n: int, gap: string, rest: string)
    requires MIN <= n < -MIN && EndsValue(rest)
    ensures ParseValue(Print(Number(n), gap) + rest) == Ok(Number(n), rest)
  {
    hide ReadDigits, Digits, Wrap64, ParseMembers, ParseElements;
    if n < 0 {
      var t := "-" + Digits(-n) + rest;
      assert t[1..] == Digits(-n) + rest;
      DigitsReadBack(-n, rest);
      NegatedTwice(n);
      assert ParseNumber(t) == Ok(Number(n), rest);
    } else {
      DigitsReadBack(n, rest);
      WrapKeeps(n);
      assert ParseNumber(Digits(n) + rest) == Ok(Number(n), rest);
    }
  }

  // ---------- Strings ----------

  lemma {:induction false} StringReadBack(s: string, str: string, rest: string)
    requires Plain(s) && rest != ""
    ensures ReadString(s + "\"" + rest, str) == Ok(str + s, rest)
  {
    var t := s + "\"" + rest;
    if s == "" {
      assert t[1..] == rest;
      assert str + s == str;
    } else {
      assert t[1..] == s[1..] + "\"" + rest;
      assert t[0] == s[0] && s[0] in s;
      StringReadBack(s[1..], str + [s[0]], rest);
      assert str + [s[0]] + s[1..] == str + s;
    }
  }

  lemma LiteralReadBack(s: string, rest: string)
    requires Plain(s) && rest != ""
    ensures ParseLiteral("\"" + s + ("\"" + rest)) == Ok(s, rest)
  {
    var t := "\"" + s + ("\"" + rest);
    assert t[1..] == s + "\"" + rest;
    StringReadBack(s, "", rest);
    assert "" + s == s;
  }

  // ---------- With a gap behind every comma ----------

  predicate Gap(gap: string) {
    gap != "" && AllSpace(gap)
  }

  lemma OpenArray(t: string, elems: Elements, rest: string)
    requires ParseElements(t, 0) == Ok(elems, rest)
    ensures ParseValue("[" + t) == Ok(Array(elems), rest)
  {
    hide ParseElements, ParseMembers;
    assert ("[" + t)[1..] == t;
  }

  lemma OpenObject(t: string, members: Members, rest: string)
    requires ParseMembers(t) == Ok(members, rest)
    ensures ParseValue("{" + t) == Ok(Object(members), rest)
  {
    hide ParseElements, ParseMembers;
    assert ("{" + t)[1..] == t;
  }

  lemma OpenString(t: string, str: string, rest: string)
    requires ParseLiteral("\"" + t) == Ok(str, rest)
    ensures ParseValue("\"" + t) == Ok(Str(str), rest)
  {
  }

  lemma CloseElements(t: string, index: nat, v: Value, rest: string)
    requires rest != "" && ParseValue(t) == Ok(v, "]" + rest)
    ensures ParseElements(t, index) == Ok(Element(index, v, NoElement), rest)
  {
    hide ParseValue;
    assert ("]" + rest)[1..] == rest;
  }

  lemma CommaElements(t: string, index: nat, v: Value, c: char, u: string)
    requires u != "" && ParseValue(t) == Ok(v, "," + [c] + u)
    ensures var more := ParseElements(u, index + 1);
      ParseElements(t, index) == if more.Err? then more else Ok(Element(index, v, more.value), more.rest)
  {
    hide ParseValue;
    assert ("," + [c] + u)[2..] == u;
  }

  lemma KeyAndValue(t: string, key: string, u: string, v: Value, rest: string)
    requires ParseLiteral(t) == Ok(key, ":" + u) && ParseValue(u) == Ok(v, rest) && rest != ""
    ensures Peek(rest) == '}' && |rest| > 1 ==> ParseMembers(t) == Ok(Member(key, v, NoMember), rest[1..])
    ensures Peek(rest) == ',' && |rest| > 2 ==>
              var more := ParseMembers(rest[2..]);
              ParseMembers(t) == if more.Err? then more else Ok(Member(key, v, more.value), more.rest)
  {
    hide ParseValue, ParseLiteral;
    assert (":" + u)[1..] == u;
  }

  lemma SpaceBeforeElements(gap: string, t: string, index: nat)
    requires AllSpace(gap)
    ensures ParseElements(gap + t, index) == ParseElements(t, index)
  {
    SkipsAllSpace(gap, t);
    assert ParseValue(gap + t) == ParseValue(t);
  }

  lemma SpaceBeforeMembers(gap: string, t: string)
    requires AllSpace(gap)
    ensures ParseMembers(gap + t) == ParseMembers(t)
  {
    SkipsAllSpace(gap, t);
    assert ParseLiteral(gap + t) == ParseLiteral(t);
  }

  lemma KeywordReadBack(v: Value, gap: string, rest: string)
    requires (v.Null? || v.Bool?) && rest != ""
    ensures ParseValue(Print(v, gap) + rest) == Ok(v, rest)
  {
    var t := Print(v, gap) + rest;
    assert t[..|Print(v, gap)|] == Print(v, gap) && t[|Print(v, gap)|..] == rest;
  }

  lemma {:induction false} SpacedReadBack(v: Value, gap: string, rest: string)
    requires Printable(v) && Gap(gap) && EndsValue(rest)
    ensures ParseValue(Print(v, gap) + rest) == Ok(v, rest)
    decreases v
  {
    hide ParseValue, ParseElements, ParseMembers, ParseLiteral, PrintElements, PrintMembers;
    match v
    case Null => KeywordReadBack(v, gap, rest);
    case Bool(_) => KeywordReadBack(v, gap, rest);
    case Number(n) => NumberReadBack(n, gap, rest);
    case Str(s) =>
      assert Print(v, gap) + rest == "\"" + s + ("\"" + rest) == "\"" + (s + ("\"" + rest));
      LiteralReadBack(s, rest);
      OpenString(s + ("\"" + rest), s, rest);
    case Array(elems) =>
      assert Print(v, gap) + rest == "[" + (PrintElements(elems, gap) + rest);
      SpacedElementsReadBack(elems, 0, gap, rest);
      OpenArray(PrintElements(elems, gap) + rest, elems, rest);
    case Object(members) =>
      assert Print(v, gap) + rest == "{" + (PrintMembers(members, gap) + rest);
      SpacedMembersReadBack(members, gap, rest);
      OpenObject(PrintMembers(members, gap) + rest, members, rest);
  }

  function AfterElement(elems: Elements, gap: string, rest: string): string
    requires elems.Element?
  {
    if elems.next.NoElement? then "]" + rest else "," + gap + (PrintElements(elems.next, gap) + rest)
  }

  lemma MoveRest(p: string, a: string, b: string, c: string, rest: string)
    ensures p + (a + b + c) + rest == p + (a + b + (c + rest))
  {
  }

  lemma PrintElement(elems: Elements, gap: string)
    requires elems.Element?
    ensures PrintElements(elems, gap) == Print(elems.value, gap)
            + if elems.next.NoElement? then "]" else "," + gap + PrintElements(elems.next, gap)
  {
    hide Print;
  }

  /** The text of the first element, with whatever follows it. */
  lemma FirstElement(elems: Elements, gap: string, rest: string)
    requires elems.Element?
    ensures PrintElements(elems, gap) + rest == Print(elems.value, gap) + AfterElement(elems, gap, rest)
  {
    hide Print, PrintElements;
    PrintElement(elems, gap);
    var p, next := Print(elems.value, gap), elems.next;
    if next.NoElement? {
      MoveRest(p, "", "", "]", rest);
    } else {
      MoveRest(p, ",", gap, PrintElements(next, gap), rest);
    }
  }

  lemma {:induction false} SpacedElementsReadBack(elems: Elements, index: nat, gap: string, rest: string)
    requires elems.Element? && PrintableElements(elems, index) && Gap(gap) && EndsValue(rest)
    ensures ParseElements(PrintElements(elems, gap) + rest, index) == Ok(elems, rest)
    decreases elems
  {
    hide ParseValue, ParseElements, Print, PrintElements;
    var p, next, after := Print(elems.value, gap), elems.next, AfterElement(elems, gap, rest);
    FirstElement(elems, gap, rest);
    SpacedReadBack(elems.value, gap, after);
    if next.NoElement? {
      CloseElements(p + after, index, elems.value, rest);
    } else {
      var more := PrintElements(next, gap) + rest;
      assert after == "," + [gap[0]] + (gap[1..] + more);
      CommaElements(p + after, index, elems.value, gap[0], gap[1..] + more);
      SpaceBeforeElements(gap[1..], more, index + 1);
      SpacedElementsReadBack(next, index + 1, gap, rest);
    }
  }

  lemma PrintMember(members: Members, gap: string)
    requires members.Member?
    ensures PrintMembers(members, gap) == "\"" + members.key + ("\":" + Print(members.value, gap)
            + if members.next.NoMember? then "}" else "," + gap + PrintMembers(members.next, gap))
  {
  }

  function AfterMember(members: Members, gap: string, rest: string): string
    requires members.Member?
  {
    if members.next.NoMember? then "}" + rest else "," + gap + (PrintMembers(members.next, gap) + rest)
  }

  /** The text of the first member, with whatever follows its value. */
  lemma FirstMember(members: Members, gap: string, rest: string)
    requires members.Member?
    ensures PrintMembers(members, gap) + rest
         == "\"" + members.key + ("\"" + (":" + (Print(members.value, gap) + AfterMember(members, gap, rest))))
  {
    hide Print, PrintMembers;
    assert PrintMembers(members, gap) == "\"" + members.key + ("\":" + Print(members.value, gap)
      + if members.next.NoMember? then "}" else "," + gap + PrintMembers(members.next, gap))
    by { PrintMember(members, gap); }
  }

  lemma {:induction false} SpacedMembersReadBack(members: Members, gap: string, rest: string)
    requires members.Member? && PrintableMembers(members) && Gap(gap) && EndsValue(rest)
    ensures ParseMembers(PrintMembers(members, gap) + rest) == Ok(members, rest)
    decreases members
  {
    hide ParseValue, ParseMembers, ParseLiteral, Print, PrintMembers;
    var k, p, next, after := members.key, Print(members.value, gap), members.next, AfterMember(members, gap, rest);
    FirstMember(members, gap, rest);
    LiteralReadBack(k, ":" + (p + after));
    SpacedReadBack(members.value, gap, after);
    KeyAndValue(PrintMembers(members, gap) + rest, k, p + after, members.value, after);
    if next.NoMember? {
      assert after[1..] == rest;
    } else {
      var more := PrintMembers(next, gap) + rest;
      assert after[2..] == gap[1..] + more;
      SpaceBeforeMembers(gap[1..], more);
      SpacedMembersReadBack(next, gap, rest);
    }
  }

  // ---------- Without a gap ----------

  /** Every element is the least int64, which reads the same without its minus sign. */
  predicate AllMin(elems: Elements) {
    elems.Element? ==> elems.value == Number(MIN) && AllMin(elems.next)
  }

  /** No container inside has a second member that would suffer from losing its first character. */
  predicate Intact(v: Value) {
    match v
    case Array(Element(_, e, next)) => Intact(e) && AllMin(next)
    case Object(Member(_, e, next)) => Intact(e) && next.NoMember?
    case _ => true
  }

  lemma {:induction false} CompactReadBack(v: Value, rest: string)
    requires Printable(v) && Intact(v) && EndsValue(rest)
    ensures ParseValue(Print(v, "") + rest) == Ok(v, rest)
    decreases v
  {
    hide ParseValue, ParseElements, ParseMembers, ParseLiteral, PrintElements, PrintMembers;
    match v
    case Null => KeywordReadBack(v, "", rest);
    case Bool(_) => KeywordReadBack(v, "", rest);
    case Number(n) => NumberReadBack(n, "", rest);
    case Str(s) =>
      assert Print(v, "") + rest == "\"" + s + ("\"" + rest) == "\"" + (s + ("\"" + rest));
      LiteralReadBack(s, rest);
      OpenString(s + ("\"" + rest), s, rest);
    case Array(elems) =>
      assert Print(v, "") + rest == "[" + (PrintElements(elems, "") + rest);
      CompactElementsReadBack(elems, rest);
      OpenArray(PrintElements(elems, "") + rest, elems, rest);
    case Object(members) =>
      assert Print(v, "") + rest == "{" + (PrintMembers(members, "") + rest);
      CompactMemberReadBack(members, rest);
      OpenObject(PrintMembers(members, "") + rest, members, rest);
  }

  lemma PrintStarts(v: Value)
    ensures Print(v, "") != "" && !IsSpace(Print(v, "")[0])
    ensures !v.Array? ==> Print(v, "")[0] != '['
  {
    hide PrintElements, PrintMembers;
  }

  /** What is left of the elements behind a comma: their text without its first character. */
  function Tail(elems: Elements, rest: string): (t: string)
    requires elems.Element?
  {
    PrintStarts(elems.value);
    FirstElement(elems, "", "");
    Print(elems.value, "")[1..] + AfterElement(elems, "", rest)
  }

  lemma CommaThenTail(elems: Elements, index: nat, t: string, rest: string)
    requires elems.Element? && elems.next.Element? && rest != ""
    requires ParseValue(t) == Ok(elems.value, AfterElement(elems, "", rest))
    ensures var more := ParseElements(Tail(elems.next, rest), index + 1);
      ParseElements(t, index) == if more.Err? then more else Ok(Element(index, elems.value, more.value), more.rest)
  {
    hide ParseValue, ParseElements, Print, PrintElements;
    var next := elems.next;
    PrintStarts(next.value);
    FirstElement(next, "", rest);
    var p := Print(next.value, "");
    assert AfterElement(elems, "", rest) == "," + [p[0]] + Tail(next, rest);
    CommaElements(t, index, elems.value, p[0], Tail(next, rest));
  }

  lemma WrapOfMin()
    ensures Wrap64(-MIN) == MIN
  {
  }

  lemma MinReadBack(rest: string)
    requires EndsValue(rest)
    ensures ParseValue(Print(Number(MIN), "")[1..] + rest) == Ok(Number(MIN), rest)
  {
    hide ReadDigits, Digits, Wrap64, ParseMembers, ParseElements;
    DigitsReadBack(-MIN, rest);
    assert Print(Number(MIN), "")[1..] == Digits(-MIN);
    assert Wrap64(-MIN) == MIN by { WrapOfMin(); }
  }

  lemma {:induction false} MinTailReadBack(elems: Elements, index: nat, rest: string)
    requires elems.Element? && PrintableElements(elems, index) && AllMin(elems) && EndsValue(rest)
    ensures ParseElements(Tail(elems, rest), index) == Ok(elems, rest)
    decreases elems
  {
    hide ParseValue, ParseElements, Print, PrintElements;
    MinReadBack(AfterElement(elems, "", rest));
    if elems.next.NoElement? {
      CloseElements(Tail(elems, rest), index, elems.value, rest);
    } else {
      CommaThenTail(elems, index, Tail(elems, rest), rest);
      MinTailReadBack(elems.next, index + 1, rest);
    }
  }

  lemma {:induction false} CompactElementsReadBack(elems: Elements, rest: string)
    requires elems.Element? && PrintableElements(elems, 0) && Intact(elems.value) && AllMin(elems.next) &&
        EndsValue(rest)
    ensures ParseElements(PrintElements(elems, "") + rest, 0) == Ok(elems, rest)
    decreases elems
  {
    hide ParseValue, ParseElements, Print, PrintElements;
    FirstElement(elems, "", rest);
    CompactReadBack(elems.value, AfterElement(elems, "", rest));
    if elems.next.NoElement? {
      CloseElements(PrintElements(elems, "") + rest, 0, elems.value, rest);
    } else {
      CommaThenTail(elems, 0, PrintElements(elems, "") + rest, rest);
      MinTailReadBack(elems.next, 1, rest);
    }
  }

  lemma {:induction false} CompactMemberReadBack(members: Members, rest: string)
    requires members.Member? && members.next.NoMember? && PrintableMembers(members)
    requires Intact(members.value) && EndsValue(rest)
    ensures ParseMembers(PrintMembers(members, "") + rest) == Ok(members, rest)
    decreases members
  {
    hide ParseValue, ParseMembers, ParseLiteral, Print, PrintMembers;
    var after := AfterMember(members, "", rest);
    FirstMember(members, "", rest);
    LiteralReadBack(members.key, ":" + (Print(members.value, "") + after));
    CompactReadBack(members.value, after);
    KeyAndValue(PrintMembers(members, "") + rest, members.key, Print(members.value, "") + after, members.value, after);
    assert after[1..] == rest;
  }

  // ---------- What a lost first character does ----------

  /** The number that is left when the first digit is dropped. */
  function LostDigit(n: nat): (m: nat)
    ensures n > 0 ==> m < n
  {
    if n < 10 then 0 else LostDigit(n / 10) * 10 + n % 10
  }

  lemma {:induction false} LostDigitRead(n: nat, rest: string)
    ensures ReadDigits(Digits(n)[1..] + rest, 0) == ReadDigits(rest, Wrap64(LostDigit(n)))
  {
    var d := [('0' as int + n % 10) as char];
    if n < 10 {
      assert Digits(n)[1..] + rest == rest;
      WrapKeeps(0);
    } else {
      assert Digits(n)[1..] + rest == Digits(n / 10)[1..] + (d + rest);
      LostDigitRead(n / 10, d + rest);
      assert (d + rest)[1..] == rest;
      SignedStep(LostDigit(n / 10), n % 10);
    }
  }

  /** A text that goes on after a value inside a container. */
  predicate Goes(rest: string) {
    rest != "" && rest[0] in ",]}:"
  }

  lemma StopsAt(rest: string, num: int)
    requires Goes(rest)
    ensures ReadDigits(rest, num) == Ok(num, rest)
  {
  }

  lemma {:induction false} NumberLost(n: int, rest: string)
    requires MIN < n < -MIN && Goes(rest)
    ensures var p := ParseValue(Print(Number(n), "")[1..] + rest); p.Ok? ==> p.value != Number(n)
  {
    hide ReadDigits, Digits, Wrap64, ParseMembers, ParseElements, LostDigit;
    if n < 0 {
      assert Print(Number(n), "")[1..] == Digits(-n);
      NumberReadBack(-n, "", rest);
    } else {
      var t := Digits(n)[1..] + rest;
      DigitsAreDigits(n);
      if n < 10 {
        assert t == rest;
      } else {
        assert t[0] == Digits(n)[1];
        LostDigitRead(n, rest);
        StopsAt(rest, Wrap64(LostDigit(n)));
        WrapKeeps(LostDigit(n));
        assert ParseValue(t) == ParseNumber(t);
      }
    }
  }

  lemma {:induction false} SkipInto(s: string, t: string)
    ensures (AllSpace(s) && SkipSpace(s + t) == SkipSpace(t))
         || (SkipSpace(s + t) != "" && SkipSpace(s + t)[0] in s)
  {
    if s == "" {
      assert s + t == t;
    } else if IsSpace(s[0]) {
      assert (s + t)[1..] == s[1..] + t;
      SkipInto(s[1..], t);
    } else {
      assert (s + t)[0] == s[0];
    }
  }

  lemma StartsWith(t: string)
    requires Goes(t)
    ensures var p := ReadString(t, ""); p.Ok? ==> p.value != "" && p.value[0] == t[0]
  {
  }

  /** A string whose opening quote is skipped is never read as the same string. */
  lemma StringLost(s: string, rest: string)
    requires Plain(s) && Goes(rest)
    ensures var p := ParseLiteral(s + ("\"" + rest)); p.Ok? ==> p.value != s
  {
    hide ReadString;
    var t := s + ("\"" + rest);
    SkipInto(s, "\"" + rest);
    if Peek(SkipSpace(t)) == '"' {
      assert ("\"" + rest)[1..] == rest;
      assert ParseLiteral(t) == if |rest| == 0 then Err(InvalidSyntax) else ReadString(rest, "");
      StartsWith(rest);
    }
  }

  /** How many arrays open at the start of the value's text. */
  function LeftDepth(v: Value): nat {
    match v
    case Array(Element(_, e, _)) => 1 + LeftDepth(e)
    case _ => 0
  }

  lemma OpensNoArray(t: string)
    requires t != "" && !IsSpace(t[0]) && t[0] != '['
    ensures var p := ParseValue(t); p.Ok? ==> !p.value.Array?
  {
    hide ParseElements, ParseMembers, ParseLiteral, ReadDigits;
  }

  lemma PrintArray(v: Value)
    requires v.Array?
    ensures Print(v, "") == "[" + PrintElements(v.elems, "")
  {
  }

  lemma HeadOfElements(t: string, index: nat)
    ensures var p := ParseElements(t, index);
      p.Ok? ==> ParseValue(t).Ok? && p.value.Element? && p.value.value == ParseValue(t).value
  {
    hide ParseValue;
  }

  lemma {:induction false} DepthKept(v: Value, rest: string)
    requires Printable(v) && rest != ""
    ensures var p := ParseValue(Print(v, "") + rest); p.Ok? ==> LeftDepth(p.value) == LeftDepth(v)
    decreases v
  {
    hide ParseElements, ParseMembers, ParseLiteral, ReadDigits, Print, PrintElements;
    PrintStarts(v);
    if v.Array? {
      var t := PrintElements(v.elems, "") + rest;
      assert Print(v, "") == "[" + PrintElements(v.elems, "") by { PrintArray(v); }
      assert Print(v, "") + rest == "[" + t && ("[" + t)[1..] == t;
      FirstElement(v.elems, "", rest);
      DepthKept(v.elems.value, AfterElement(v.elems, "", rest));
      HeadOfElements(t, 0);
    } else {
      OpensNoArray(Print(v, "") + rest);
    }
  }

  lemma NoValue(t: string)
    requires t != "" && t[0] in "ura"
    ensures ParseValue(t).Err?
  {
    hide ParseElements, ParseMembers, ParseLiteral, ReadDigits;
  }

  lemma SkipTwice(t: string)
    ensures SkipSpace(SkipSpace(t)) == SkipSpace(t)
  {
  }

  lemma StringComesFromLiteral(t: string)
    ensures var p := ParseValue(t); p.Ok? && p.value.Str? ==> ParseLiteral(t).Ok? && p.value.s == ParseLiteral(t).value
  {
    hide ParseElements, ParseMembers, ReadDigits, ReadString;
    SkipTwice(t);
  }

  lemma OpensNoObject(t: string)
    requires t != "" && t[0] == '"'
    ensures var p := ParseValue(t); p.Ok? ==> !p.value.Object?
  {
    hide ParseElements, ParseMembers, ParseLiteral;
  }

  lemma {:induction false} ValueLost(v: Value, rest: string)
    requires Printable(v) && v != Number(MIN) && Goes(rest) && Print(v, "") != ""
    ensures var p := ParseValue(Print(v, "")[1..] + rest); p.Ok? ==> p.value != v
  {
    hide ParseElements, ParseMembers, ParseLiteral, ReadDigits, PrintElements, PrintMembers, ParseValue;
    match v
    case Null => assert (Print(v, "")[1..] + rest)[0] == 'u'; NoValue(Print(v, "")[1..] + rest);
    case Bool(_) => NoValue(Print(v, "")[1..] + rest);
    case Number(n) => NumberLost(n, rest);
    case Str(s) =>
      assert Print(v, "")[1..] + rest == s + ("\"" + rest);
      StringLost(s, rest);
      StringComesFromLiteral(s + ("\"" + rest));
    case Array(elems) =>
      assert Print(v, "")[1..] + rest == PrintElements(elems, "") + rest;
      FirstElement(elems, "", rest);
      DepthKept(elems.value, AfterElement(elems, "", rest));
    case Object(members) =>
      FirstMember(members, "", rest);
      assert Print(v, "")[1..] + rest == PrintMembers(members, "") + rest;
      OpensNoObject(Print(v, "")[1..] + rest);
  }

  // ---------- Compact text of a value that is not intact ----------

  lemma ArrayComesFromElements(t: string)
    ensures var p := ParseValue("[" + t);
      p.Ok? ==> ParseElements(t, 0).Ok? && p.value == Array(ParseElements(t, 0).value)
  {
    hide ParseElements, ParseMembers;
    assert ("[" + t)[1..] == t;
  }

  lemma ObjectComesFromMembers(t: string)
    ensures var p := ParseValue("{" + t); p.Ok? ==> ParseMembers(t).Ok? && p.value == Object(ParseMembers(t).value)
  {
    hide ParseElements, ParseMembers;
    assert ("{" + t)[1..] == t;
  }

  lemma {:induction false} CompactMisread(v: Value, rest: string)
    requires Printable(v) && !Intact(v) && EndsValue(rest)
    ensures var p := ParseValue(Print(v, "") + rest); p.Ok? ==> p.value != v
    decreases v
  {
    hide ParseElements, ParseMembers, ParseLiteral, PrintElements, PrintMembers, ParseValue;
    match v
    case Array(elems) =>
      var t := PrintElements(elems, "") + rest;
      assert Print(v, "") + rest == "[" + t;
      CompactElementsMisread(elems, rest);
      ArrayComesFromElements(t);
    case Object(members) =>
      var t := PrintMembers(members, "") + rest;
      assert Print(v, "") + rest == "{" + t;
      CompactMembersMisread(members, rest);
      ObjectComesFromMembers(t);
    case _ =>
  }

  lemma {:induction false} TailMisread(elems: Elements, index: nat, rest: string)
    requires elems.Element? && PrintableElements(elems, index) && !AllMin(elems) && EndsValue(rest)
    ensures var p := ParseElements(Tail(elems, rest), index); p.Ok? ==> p.value != elems
    decreases elems
  {
    hide ParseValue, ParseElements, Print, PrintElements;
    var after := AfterElement(elems, "", rest);
    if elems.value == Number(MIN) {
      MinReadBack(after);
      CommaThenTail(elems, index, Tail(elems, rest), rest);
      TailMisread(elems.next, index + 1, rest);
    } else {
      PrintStarts(elems.value);
      ValueLost(elems.value, after);
      HeadOfElements(Tail(elems, rest), index);
    }
  }

  lemma {:induction false} CompactElementsMisread(elems: Elements, rest: string)
    requires elems.Element? && PrintableElements(elems, 0) && EndsValue(rest)
    requires !Intact(elems.value) || !AllMin(elems.next)
    ensures var p := ParseElements(PrintElements(elems, "") + rest, 0); p.Ok? ==> p.value != elems
    decreases elems
  {
    hide ParseValue, ParseElements, Print, PrintElements;
    var t, after := PrintElements(elems, "") + rest, AfterElement(elems, "", rest);
    FirstElement(elems, "", rest);
    if Intact(elems.value) {
      CompactReadBack(elems.value, after);
      CommaThenTail(elems, 0, t, rest);
      TailMisread(elems.next, 1, rest);
    } else {
      CompactMisread(elems.value, after);
      HeadOfElements(t, 0);
    }
  }

  lemma HeadOfMembers(t: string)
    ensures var p := ParseMembers(t);
      p.Ok? ==> ParseLiteral(t).Ok? && p.value.Member? && p.value.key == ParseLiteral(t).value
  {
    hide ParseValue, ParseLiteral;
  }

  lemma SecondOfMembers(t: string, key: string, u: string)
    requires ParseLiteral(t) == Ok(key, ":" + u)
    ensures var p := ParseMembers(t);
      p.Ok? ==> ParseValue(u).Ok? && p.value.Member? && p.value.value == ParseValue(u).value
  {
    hide ParseValue, ParseLiteral;
    assert u != "" ==> (":" + u)[1..] == u;
  }

  lemma {:induction false} CompactMembersMisread(members: Members, rest: string)
    requires members.Member? && PrintableMembers(members) && EndsValue(rest)
    requires !Intact(members.value) || members.next.Member?
    ensures var p := ParseMembers(PrintMembers(members, "") + rest); p.Ok? ==> p.value != members
    decreases members
  {
    hide ParseValue, ParseMembers, ParseLiteral, Print, PrintMembers;
    var t, after, next := PrintMembers(members, "") + rest, AfterMember(members, "", rest), members.next;
    var u := Print(members.value, "") + after;
    FirstMember(members, "", rest);
    LiteralReadBack(members.key, ":" + u);
    if Intact(members.value) {
      CompactReadBack(members.value, after);
      KeyAndValue(t, members.key, u, members.value, after);
      FirstMember(next, "", rest);
      var back := ":" + (Print(next.value, "") + AfterMember(next, "", rest));
      assert after[2..] == next.key + ("\"" + back);
      StringLost(next.key, back);
      HeadOfMembers(after[2..]);
    } else {
      CompactMisread(members.value, after);
      SecondOfMembers(t, members.key, u);
    }
  }

  // ---------- The round trip ----------

  /** Printed JSON reads back as the same value exactly when a space follows the commas or none of them does harm. */
  lemma RoundTrip(v: Value, gap: string, rest: string)
    requires Printable(v) && AllSpace(gap) && EndsValue(rest)
    ensures ParseValue(Print(v, gap) + rest) == Ok(v, rest) <==> gap != "" || Intact(v)
  {
    hide ParseValue, Print, Intact;
    if gap != "" {
      SpacedReadBack(v, gap, rest);
    } else if Intact(v) {
      CompactReadBack(v, rest);
    } else {
      CompactMisread(v, rest);
    }
  }
}
