/**
 Where the parser stops short of the standard: at the end of the text, at empty containers and at escapes; and which
 error it gives for a wrong separator.
 */
module JsonEdges {
  import opened Decimal
  import opened Json
  import opened JsonRoundTrip

  // ---------- The end of the text ----------

  lemma {:induction false} StringLeavesText(t: string, str: string)
    requires t != ""
    ensures var p := ReadString(t, str); p.Ok? ==> p.rest != ""
    decreases |t|
  {
    if t[0] == '\\' {
      if |t| > 2 {
        StringLeavesText(t[2..], str);
      }
    } else if |t| > 1 && t[0] != '"' {
      StringLeavesText(t[1..], str + [t[0]]);
    }
  }

  lemma LiteralLeavesText(t: string)
    ensures var p := ParseLiteral(t); p.Ok? ==> p.rest != ""
  {
    hide ReadString;
    var q := SkipSpace(t);
    if |q| > 1 {
      StringLeavesText(q[1..], "");
    }
  }

  lemma {:induction false} ElementsLeaveText(t: string, index: nat)
    ensures var p := ParseElements(t, index); p.Ok? ==> p.rest != ""
    decreases |t|, 1
  {
    hide ParseValue, SkipSpace;
    var v := ParseValue(t);
    if v.Ok? {
      var r := SkipSpace(v.rest);
      if |r| > 2 {
        ElementsLeaveText(r[2..], index + 1);
      }
    }
  }

  lemma {:induction false} MembersLeaveText(t: string)
    ensures var p := ParseMembers(t); p.Ok? ==> p.rest != ""
    decreases |t|, 1
  {
    hide ParseValue, SkipSpace, ParseLiteral;
    var k := ParseLiteral(t);
    if k.Ok? {
      var c := SkipSpace(k.rest);
      if Peek(c) == ':' && |c| > 1 {
        var v := ParseValue(c[1..]);
        if v.Ok? {
          var r := SkipSpace(v.rest);
          if |r| > 2 {
            MembersLeaveText(r[2..]);
          }
        }
      }
    }
  }

  /** Whatever the parser reads, at least one character is left behind it, unless it is a number. */
  lemma {:induction false} ValueLeavesText(t: string)
    ensures var p := ParseValue(t); p.Ok? && p.rest == "" ==> p.value.Number?
    decreases |t|, 0
  {
    hide ReadString, ParseElements, ParseMembers, ReadDigits, SkipSpace, ParseLiteral;
    var q := SkipSpace(t);
    if |q| > 1 {
      ElementsLeaveText(q[1..], 0);
      MembersLeaveText(q[1..]);
    }
    LiteralLeavesText(q);
  }

  lemma NoDigits(m: int)
    ensures ReadDigits("", m) == Ok(m, "")
  {
  }

  lemma NumberAtEnd(n: int)
    requires MIN <= n < -MIN
    ensures ParseValue(Print(Number(n), "")) == Ok(Number(n), "") <==> |Print(Number(n), "")| > 1
  {
    hide ReadDigits, Wrap64, ParseMembers, ParseElements;
    var t := Print(Number(n), "");
    if n < 0 {
      assert t[1..] == Digits(-n) && Digits(-n) + "" == Digits(-n);
      DigitsThen(-n, "");
      NegatedTwice(n);
      assert ReadDigits("", Wrap64(-n)) == Ok(Wrap64(-n), "") by { NoDigits(Wrap64(-n)); }
    } else {
      assert Digits(n) + "" == Digits(n);
      DigitsThen(n, "");
      WrapKeeps(n);
      assert ReadDigits("", Wrap64(n)) == Ok(Wrap64(n), "") by { NoDigits(Wrap64(n)); }
    }
  }

  /** A value with nothing behind it reads back if and only if it is a number of at least two characters. */
  lemma NothingBehind(v: Value, gap: string)
    requires Printable(v)
    ensures ParseValue(Print(v, gap)) == Ok(v, "") <==> v.Number? && |Print(v, gap)| > 1
  {
    if v.Number? {
      NumberAtEnd(v.n);
      assert Print(v, gap) == Print(v, "");
    } else {
      ValueLeavesText(Print(v, gap));
    }
  }

  // ---------- Empty containers and escapes ----------

  lemma NoValueInside(space: string, rest: string)
    requires SkipSpace(space + ("]" + rest)) == SkipSpace("]" + rest)
    requires SkipSpace(space + ("}" + rest)) == SkipSpace("}" + rest)
    ensures ParseValue(space + ("]" + rest)).Err? && ParseLiteral(space + ("}" + rest)).Err?
  {
  }

  lemma NoSpaceInFront(c: char, t: string)
    requires !IsSpace(c)
    ensures SkipSpace([c] + t) == [c] + t
  {
  }

  lemma OpenedArray(t: string)
    requires ParseValue(t).Err?
    ensures ParseValue("[" + t).Err?
  {
    hide ParseMembers, SkipSpace;
    assert ("[" + t)[1..] == t;
    assert SkipSpace("[" + t) == "[" + t by { NoSpaceInFront('[', t); }
    assert ParseElements(t, 0).Err?;
  }

  lemma OpenedObject(t: string)
    requires ParseLiteral(t).Err?
    ensures ParseValue("{" + t).Err?
  {
    hide ParseElements, SkipSpace, ParseLiteral;
    assert ("{" + t)[1..] == t;
    assert SkipSpace("{" + t) == "{" + t by { NoSpaceInFront('{', t); }
    assert ParseMembers(t).Err?;
  }

  /** Empty containers are refused. */
  lemma EmptyContainers(space: string, rest: string)
    requires AllSpace(space)
    ensures ParseValue("[" + (space + ("]" + rest))).Err? && ParseValue("{" + (space + ("}" + rest))).Err?
  {
    SkipsAllSpace(space, "]" + rest);
    SkipsAllSpace(space, "}" + rest);
    NoValueInside(space, rest);
    hide ParseValue, ParseLiteral, SkipSpace;
    assert ("[" + (space + ("]" + rest)))[1..] == space + ("]" + rest);
    assert ("{" + (space + ("}" + rest)))[1..] == space + ("}" + rest);
    OpenedArray(space + ("]" + rest));
    OpenedObject(space + ("}" + rest));
  }

  lemma {:induction false} ReadPlain(s: string, t: string, str: string)
    requires Plain(s) && t != ""
    ensures ReadString(s + t, str) == ReadString(t, str + s)
    decreases |s|
  {
    if s == "" {
      assert s + t == t && str + s == str;
    } else {
      assert s[0] in s && forall c | c in s[1..] :: c in s;
      ReadPlain(s[1..], t, str + [s[0]]);
      assert (s + t)[1..] == s[1..] + t && str + [s[0]] + s[1..] == str + s;
    }
  }

  lemma ReadEscape(c: char, t: string, str: string)
    requires t != ""
    ensures ReadString("\\" + ([c] + t), str) == ReadString(t, str)
  {
    assert ("\\" + ([c] + t))[2..] == t;
  }

  lemma ReadClosing(rest: string, str: string)
    requires rest != ""
    ensures ReadString("\"" + rest, str) == Ok(str, rest)
  {
    assert ("\"" + rest)[1..] == rest;
  }

  /** A backslash and the character behind it are dropped. */
  lemma EscapeDropped(s: string, c: char, t: string, rest: string)
    requires Plain(s) && Plain(t) && rest != ""
    ensures ParseLiteral("\"" + (s + ("\\" + ([c] + (t + ("\"" + rest)))))) == Ok(s + t, rest)
  {
    var close := "\"" + rest;
    ReadPlain(s, "\\" + ([c] + (t + close)), "");
    ReadEscape(c, t + close, s);
    ReadPlain(t, close, s);
    ReadClosing(rest, s + t);
    assert "" + s == s;
    var body := s + ("\\" + ([c] + (t + close)));
    assert ("\"" + body)[1..] == body;
    NoSpaceInFront('"', body);
    hide ReadString, SkipSpace;
  }

  // ---------- Wrong separators ----------

  /** Neither a comma nor the end of the array behind an element. */
  lemma WrongInArray(t: string, index: nat, v: Value, c: char, rest: string)
    requires ParseValue(t) == Ok(v, [c] + rest) && !IsSpace(c) && c != ',' && c != ']'
    ensures ParseElements(t, index) == Err(InvalidSyntax)
  {
    hide ParseValue;
    NoSpaceInFront(c, rest);
  }

  /** No colon behind a key, or neither a comma nor the end of the object behind a value. */
  lemma WrongInObject(t: string, key: string, c: char, rest: string)
    requires ParseLiteral(t) == Ok(key, [c] + rest) && !IsSpace(c)
    ensures c != ':' ==> ParseMembers(t) == Err(SyntaxError)
    ensures c == ':' && ParseValue(rest).Ok? && rest != "" ==>
              var r := SkipSpace(ParseValue(rest).rest);
              r != "" && r[0] != ',' && r[0] != '}' ==> ParseMembers(t) == Err(SyntaxError)
  {
    hide ParseValue, ParseLiteral;
    NoSpaceInFront(c, rest);
    assert ([c] + rest)[1..] == rest;
  }
}
