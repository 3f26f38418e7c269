/**
 JSON texts with white space wherever the grammar of RFC 8259 allows it, each stretch chosen freely, and that the
 parser reads all of them, as long as some space follows every comma.
 */
module JsonSpacing {
  import opened Decimal
  import opened Json
  import opened JsonRoundTrip

  // ---------- Texts with the space kept ----------

  /** A value as it is written: null, a boolean, a number or a string, or a container with its spacing. */
  datatype Doc = Word(v: Value) | List(open: string, items: Items) | Record(open: string, entries: Entries)

  datatype Items =
    | LastItem(doc: Doc, close: string)
    | Item(doc: Doc, before: string, after: string, next: Items)

  datatype Entries =
    | LastEntry(key: string, colon: string, value: string, doc: Doc, close: string)
    | Entry(key: string, colon: string, value: string, doc: Doc, before: string, after: string, next: Entries)

  function Text(d: Doc): string {
    match d
    case Word(v) => Print(v, "")
    case List(open, items) => "[" + (open + ItemsText(items))
    case Record(open, entries) => "{" + (open + EntriesText(entries))
  }

  function ItemsText(items: Items): string {
    match items
    case LastItem(doc, close) => Text(doc) + (close + "]")
    case Item(doc, before, after, next) => Text(doc) + (before + ("," + (after + ItemsText(next))))
  }

  function EntriesText(entries: Entries): string {
    match entries
    case LastEntry(key, colon, value, doc, close) =>
      "\"" + key + ("\"" + (colon + (":" + (value + (Text(doc) + (close + "}"))))))
    case Entry(key, colon, value, doc, before, after, next) =>
      "\"" + key + ("\"" + (colon + (":" + (value + (Text(doc) + (before + ("," + (after + EntriesText(next)))))))))
  }

  /** The value written, without its spacing. */
  function Written(d: Doc): Value {
    match d
    case Word(v) => v
    case List(_, items) => Array(WrittenItems(items, 0))
    case Record(_, entries) => Object(WrittenEntries(entries))
  }

  function WrittenItems(items: Items, index: nat): Elements {
    match items
    case LastItem(doc, _) => Element(index, Written(doc), NoElement)
    case Item(doc, _, _, next) => Element(index, Written(doc), WrittenItems(next, index + 1))
  }

  function WrittenEntries(entries: Entries): Members {
    match entries
    case LastEntry(key, _, _, doc, _) => Member(key, Written(doc), NoMember)
    case Entry(key, _, _, doc, _, _, next) => Member(key, Written(doc), WrittenEntries(next))
  }

  /** White space of RFC 8259, section 2. */
  predicate Blank(s: string) {
    forall i | 0 <= i < |s| :: s[i] == ' ' || s[i] == '\t' || s[i] == '\n' || s[i] == '\r'
  }

  predicate WellSpaced(d: Doc) {
    match d
    case Word(v) => Printable(v) && !v.Array? && !v.Object?
    case List(open, items) => Blank(open) && ItemsSpaced(items)
    case Record(open, entries) => Blank(open) && EntriesSpaced(entries)
  }

  predicate ItemsSpaced(items: Items) {
    match items
    case LastItem(doc, close) => WellSpaced(doc) && Blank(close)
    case Item(doc, before, after, next) =>
      WellSpaced(doc) && Blank(before) && Blank(after) && after != "" && ItemsSpaced(next)
  }

  predicate EntriesSpaced(entries: Entries) {
    match entries
    case LastEntry(key, colon, value, doc, close) =>
      Plain(key) && Blank(colon) && Blank(value) && WellSpaced(doc) && Blank(close)
    case Entry(key, colon, value, doc, before, after, next) =>
      Plain(key) && Blank(colon) && Blank(value) && WellSpaced(doc)
      && Blank(before) && Blank(after) && after != "" && EntriesSpaced(next)
  }

  // ---------- Spaces are skipped ----------

  lemma BlankIsSpace(s: string)
    requires Blank(s)
    ensures AllSpace(s)
  {
  }

  /** White space, and then a character that is none. */
  lemma SkipTo(s: string, c: char, t: string)
    requires Blank(s) && !IsSpace(c)
    ensures SkipSpace(s + ([c] + t)) == [c] + t && ([c] + t)[1..] == t
    ensures !IsDigit(c) ==> EndsValue(s + ([c] + t))
  {
    BlankIsSpace(s);
    SkipsAllSpace(s, [c] + t);
  }

  lemma SkipsBlank(s: string, t: string)
    requires Blank(s)
    ensures SkipSpace(s + t) == SkipSpace(t)
  {
    BlankIsSpace(s);
    SkipsAllSpace(s, t);
  }

  lemma BlankBeforeValue(s: string, t: string)
    requires Blank(s)
    ensures ParseValue(s + t) == ParseValue(t)
  {
    SkipsBlank(s, t);
  }

  lemma BlankBeforeElements(s: string, t: string, index: nat)
    requires Blank(s)
    ensures ParseElements(s + t, index) == ParseElements(t, index)
  {
    BlankIsSpace(s);
    SpaceBeforeElements(s, t, index);
  }

  lemma BlankBeforeMembers(s: string, t: string)
    requires Blank(s)
    ensures ParseMembers(s + t) == ParseMembers(t)
  {
    BlankIsSpace(s);
    SpaceBeforeMembers(s, t);
  }

  // ---------- One step of the parser ----------

  lemma LastOfElements(t: string, index: nat, v: Value, close: string, rest: string)
    requires Blank(close) && rest != "" && ParseValue(t) == Ok(v, close + ("]" + rest))
    ensures ParseElements(t, index) == Ok(Element(index, v, NoElement), rest)
  {
    hide ParseValue;
    SkipTo(close, ']', rest);
  }

  lemma MoreElements(t: string, index: nat, v: Value, before: string, after: string, u: string)
    requires Blank(before) && Blank(after) && after != "" && u != ""
    requires ParseValue(t) == Ok(v, before + ("," + (after + u)))
    ensures var more := ParseElements(u, index + 1);
      ParseElements(t, index) == if more.Err? then more else Ok(Element(index, v, more.value), more.rest)
  {
    hide ParseValue;
    SkipTo(before, ',', after + u);
    BlankBeforeElements(after[1..], u, index + 1);
    assert ("," + (after + u))[2..] == after[1..] + u;
  }

  lemma KeyOfMembers(t: string, key: string, colon: string, value: string, u: string, v: Value, rest: string)
    requires Blank(colon) && Blank(value) && u != ""
    requires ParseLiteral(t) == Ok(key, colon + (":" + (value + u))) && ParseValue(u) == Ok(v, rest)
    ensures var r := SkipSpace(rest);
      ParseMembers(t) ==
        if Peek(r) == '}' && |r| > 1 then Ok(Member(key, v, NoMember), r[1..])
        else if Peek(r) == ',' && |r| > 2 then
          var more := ParseMembers(r[2..]);
          if more.Err? then more else Ok(Member(key, v, more.value), more.rest)
        else Err(SyntaxError)
  {
    SkipTo(colon, ':', value + u);
    BlankBeforeValue(value, u);
    hide ParseValue, ParseLiteral;
  }

  lemma LastOfMembers(t: string, key: string, colon: string, value: string, u: string, v: Value,
      close: string, rest: string)
    requires Blank(colon) && Blank(value) && u != "" && Blank(close) && rest != ""
    requires ParseLiteral(t) == Ok(key, colon + (":" + (value + u))) && ParseValue(u) == Ok(v, close + ("}" + rest))
    ensures ParseMembers(t) == Ok(Member(key, v, NoMember), rest)
  {
    SkipTo(close, '}', rest);
    hide ParseValue, ParseLiteral, ParseMembers;
    KeyOfMembers(t, key, colon, value, u, v, close + ("}" + rest));
  }

  lemma BehindComma(after: string, w: string)
    requires after != "" && w != ""
    ensures var r := "," + (after + w); r == [','] + (after + w) && |r| > 2 && r[2..] == after[1..] + w && r[0] == ','
  {
  }

  lemma CommaThen(before: string, after: string, w: string)
    requires Blank(before) && Blank(after) && after != "" && w != ""
    ensures var r := SkipSpace(before + ("," + (after + w)));
      Peek(r) == ',' && |r| > 2 && ParseMembers(r[2..]) == ParseMembers(w)
  {
    assert Blank(after[1..]);
    hide ParseMembers, SkipSpace, Blank;
    BehindComma(after, w);
    SkipTo(before, ',', after + w);
    BlankBeforeMembers(after[1..], w);
  }

  lemma MoreMembers(t: string, key: string, colon: string, value: string, u: string, v: Value,
      before: string, after: string, w: string)
    requires Blank(colon) && Blank(value) && u != "" && Blank(before) && Blank(after) && after != "" && w != ""
    requires ParseLiteral(t) == Ok(key, colon + (":" + (value + u)))
    requires ParseValue(u) == Ok(v, before + ("," + (after + w)))
    ensures var more := ParseMembers(w);
      ParseMembers(t) == if more.Err? then more else Ok(Member(key, v, more.value), more.rest)
  {
    CommaThen(before, after, w);
    hide ParseValue, ParseLiteral, ParseMembers, SkipSpace, Blank, Peek;
    KeyOfMembers(t, key, colon, value, u, v, before + ("," + (after + w)));
  }

  // ---------- All of them are read ----------

  lemma Regroup(a: string, b: string, c: string, rest: string)
    ensures a + (b + c) + rest == a + (b + (c + rest))
  {
  }

  lemma RegroupItem(a: string, b: string, c: string, d: string, e: string, rest: string)
    ensures a + (b + (c + (d + e))) + rest == a + (b + (c + (d + (e + rest))))
  {
    Regroup(a, b, c + (d + e), rest);
    Regroup(c, d, e, rest);
  }

  lemma RegroupEntry(key: string, colon: string, value: string, t: string, rest: string)
    ensures "\"" + key + ("\"" + (colon + (":" + (value + t)))) + rest
         == "\"" + key + ("\"" + (colon + (":" + (value + (t + rest)))))
  {
    var a := "\"" + key;
    RegroupItem("\"", colon, ":", value, t, rest);
    assert a + ("\"" + (colon + (":" + (value + t)))) + rest == a + ("\"" + (colon + (":" + (value + t))) + rest);
  }

  lemma WordsHaveNoGap(v: Value)
    requires !v.Array? && !v.Object?
    ensures Print(v, " ") == Print(v, "")
  {
  }

  lemma {:induction false} DocReadBack(d: Doc, rest: string)
    requires WellSpaced(d) && EndsValue(rest)
    ensures ParseValue(Text(d) + rest) == Ok(Written(d), rest)
    decreases d
  {
    hide ParseValue, ParseElements, ParseMembers, ParseLiteral, Print, ItemsText, EntriesText, Blank;
    match d
    case Word(v) => SpacedReadBack(v, " ", rest); WordsHaveNoGap(v);
    case List(open, items) =>
      var t := ItemsText(items) + rest;
      Regroup("[", open, ItemsText(items), rest);
      ItemsReadBack(items, 0, rest);
      BlankBeforeElements(open, t, 0);
      OpenArray(open + t, WrittenItems(items, 0), rest);
    case Record(open, entries) =>
      var t := EntriesText(entries) + rest;
      Regroup("{", open, EntriesText(entries), rest);
      EntriesReadBack(entries, rest);
      BlankBeforeMembers(open, t);
      OpenObject(open + t, WrittenEntries(entries), rest);
  }

  lemma {:induction false} ItemsReadBack(items: Items, index: nat, rest: string)
    requires ItemsSpaced(items) && EndsValue(rest)
    ensures ParseElements(ItemsText(items) + rest, index) == Ok(WrittenItems(items, index), rest)
    decreases items
  {
    hide ParseValue, ParseElements, Text, Blank, WellSpaced;
    match items
    case LastItem(doc, close) =>
      Regroup(Text(doc), close, "]", rest);
      SkipTo(close, ']', rest);
      DocReadBack(doc, close + ("]" + rest));
      LastOfElements(ItemsText(items) + rest, index, Written(doc), close, rest);
    case Item(doc, before, after, next) =>
      var u := ItemsText(next) + rest;
      RegroupItem(Text(doc), before, ",", after, ItemsText(next), rest);
      SkipTo(before, ',', after + u);
      DocReadBack(doc, before + ("," + (after + u)));
      ItemsReadBack(next, index + 1, rest);
      MoreElements(ItemsText(items) + rest, index, Written(doc), before, after, u);
  }

  lemma {:induction false} EntriesReadBack(entries: Entries, rest: string)
    requires EntriesSpaced(entries) && EndsValue(rest)
    ensures ParseMembers(EntriesText(entries) + rest) == Ok(WrittenEntries(entries), rest)
    decreases entries
  {
    hide ParseValue, ParseMembers, ParseLiteral, Text, Blank, WellSpaced;
    var all := EntriesText(entries) + rest;
    match entries
    case LastEntry(key, colon, value, doc, close) =>
      var u := Text(doc) + (close + ("}" + rest));
      RegroupEntry(key, colon, value, Text(doc) + (close + "}"), rest);
      Regroup(Text(doc), close, "}", rest);
      LiteralReadBack(key, colon + (":" + (value + u)));
      SkipTo(close, '}', rest);
      DocReadBack(doc, close + ("}" + rest));
      LastOfMembers(all, key, colon, value, u, Written(doc), close, rest);
    case Entry(key, colon, value, doc, before, after, next) =>
      var w := EntriesText(next) + rest;
      var u := Text(doc) + (before + ("," + (after + w)));
      RegroupEntry(key, colon, value, Text(doc) + (before + ("," + (after + EntriesText(next)))), rest);
      RegroupItem(Text(doc), before, ",", after, EntriesText(next), rest);
      LiteralReadBack(key, colon + (":" + (value + u)));
      SkipTo(before, ',', after + w);
      DocReadBack(doc, before + ("," + (after + w)));
      EntriesReadBack(next, rest);
      MoreMembers(all, key, colon, value, u, Written(doc), before, after, w);
  }

  /** White space in front of the text does no harm either. */
  lemma AnySpacingReadBack(lead: string, d: Doc, rest: string)
    requires Blank(lead) && WellSpaced(d) && EndsValue(rest)
    ensures ParseValue(lead + (Text(d) + rest)) == Ok(Written(d), rest)
  {
    hide ParseValue, Text, WellSpaced, Blank, Written;
    DocReadBack(d, rest);
    BlankBeforeValue(lead, Text(d) + rest);
  }

  lemma ItemTexts(v: Value, w: Value)
    requires !v.Array? && !v.Object? && !w.Array? && !w.Object?
    ensures ItemsText(LastItem(Word(v), "")) == Print(v, "") + "]"
    ensures ItemsText(Item(Word(w), "", " ", LastItem(Word(v), ""))) == Print(w, "") + ", " + Print(v, "") + "]"
  {
    hide Print;
    assert Text(Word(v)) == Print(v, "") && Text(Word(w)) == Print(w, "");
    assert "" + "]" == "]" && "" + ("," + (" " + (Print(v, "") + "]"))) == ", " + Print(v, "") + "]";
  }

  /** An array, and the value it stands for. */
  lemma SampleArray()
    ensures ParseValue("[null, -7] ") == Ok(Array(Element(0, Null, Element(1, Number(-7), NoElement))), " ")
  {
    var items := Item(Word(Null), "", " ", LastItem(Word(Number(-7)), ""));
    ItemTexts(Number(-7), Null);
    assert Print(Number(-7), "") == "-7" by { assert Digits(7) == "7"; }
    assert Print(Null, "") == "null";
    assert ItemsText(items) == "null, -7]";
    hide ItemsText, ParseValue, Print;
    assert "" + "null, -7]" == "null, -7]";
    assert Text(List("", items)) == "[null, -7]";
    DocReadBack(List("", items), " ");
    assert "[null, -7]" + " " == "[null, -7] ";
  }

  lemma OnlyEntry(t: string)
    ensures "{" + ("" + ("\"" + "k" + ("\"" + ("" + (":" + (" " + (t + ("" + "}")))))))) == "{\"k\": " + t + "}"
  {
  }

  lemma EntryText(list: Doc)
    requires Text(list) == "[true, false]"
    ensures Text(Record("", LastEntry("k", "", " ", list, ""))) == "{\"k\": [true, false]}"
  {
    hide ItemsText;
    OnlyEntry(Text(list));
  }

  /** An array of booleans in an object, and the value it stands for. */
  lemma SampleObject()
    ensures ParseValue("{\"k\": [true, false]} ") ==
      Ok(Object(Member("k", Array(Element(0, Bool(true), Element(1, Bool(false), NoElement))), NoMember)), " ")
  {
    var items := Item(Word(Bool(true)), "", " ", LastItem(Word(Bool(false)), ""));
    ItemTexts(Bool(false), Bool(true));
    assert Print(Bool(true), "") == "true" && Print(Bool(false), "") == "false";
    assert ItemsText(items) == "true, false]";
    hide ItemsText, ParseValue, Print;
    assert "" + "true, false]" == "true, false]";
    var list := List("", items);
    assert Text(list) == "[true, false]";
    var entries := LastEntry("k", "", " ", list, "");
    EntryText(list);
    DocReadBack(Record("", entries), " ");
    assert "{\"k\": [true, false]}" + " " == "{\"k\": [true, false]} ";
  }
}
