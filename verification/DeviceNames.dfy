/**
 Device names: a base name and a decimal number one above every number that the base already carries.
 */
module DeviceNames {
  import opened Arithmetic
  import opened Decimal
  import opened Options
  import opened Sequences

  const MAX_SUFFIX := 0xFFFF_FFFF

  /** parse_decimal, with the wrap-around of an unsigned int. */
  function ParseDecimal(s: string, value: nat): (r: nat)
    requires value <= MAX_SUFFIX
    ensures r <= MAX_SUFFIX
  {
    if s != "" && IsDigit(s[0]) then ParseDecimal(s[1..], (value * 10 + (s[0] as nat - '0' as nat)) % (MAX_SUFFIX + 1))
    else value
  }

  /** The number a name carries behind the base, if it is the base and a digit follows. */
  function Suffix(name: string, base: string): (r: Option<nat>)
    ensures r.Some? ==> r.value <= MAX_SUFFIX
  {
    if base <= name && |base| < |name| && IsDigit(name[|base|]) then Some(ParseDecimal(name[|base|..], 0)) else None
  }

  /** The next number when one was met. */
  function Raised(met: Option<nat>, max: nat): (r: nat)
    requires max <= MAX_SUFFIX && (met.Some? ==> met.value <= MAX_SUFFIX)
    ensures r <= MAX_SUFFIX
  {
    if met.Some? && met.value >= max then (met.value + 1) % (MAX_SUFFIX + 1) else max
  }

  /** The loop of VlDev_GenerateName over the names in the order of the list. */
  function NextSuffix(names: seq<string>, base: string, max: nat): (r: nat)
    requires max <= MAX_SUFFIX
    ensures r <= MAX_SUFFIX
  {
    if names == [] then max else
      var s := Suffix(names[0], base);
      NextSuffix(names[1..], base, Raised(s, max))
  }

  function NewName(names: seq<string>, base: string): string {
    base + Digits(NextSuffix(names, base, 0))
  }

  // ---------- parse_decimal undoes write_decimal ----------

  lemma {:induction false} DigitsParsed(n: nat, rest: string)
    ensures ParseDecimal(Digits(n) + rest, 0) == ParseDecimal(rest, n % (MAX_SUFFIX + 1))
  {
    var d := [('0' as int + n % 10) as char];
    if n < 10 {
      assert (d + rest)[1..] == rest;
    } else {
      assert Digits(n) + rest == Digits(n / 10) + (d + rest);
      DigitsParsed(n / 10, d + rest);
      assert (d + rest)[1..] == rest;
      WrapStep(n / 10, n % 10, MAX_SUFFIX + 1);
      assert n / 10 * 10 + n % 10 == n;
    }
  }

  lemma {:induction false} ParseUndoesWrite(n: nat)
    requires n <= MAX_SUFFIX
    ensures ParseDecimal(Digits(n), 0) == n
  {
    hide Digits;
    DigitsParsed(n, "");
    assert Digits(n) + "" == Digits(n);
  }

  /** A name made from the base and a number carries that number. */
  lemma SuffixOfNew(base: string, n: nat)
    requires n <= MAX_SUFFIX
    ensures Suffix(base + Digits(n), base) == Some(n)
  {
    var name := base + Digits(n);
    assert name[|base|..] == Digits(n) && name[..|base|] == base;
    ParseUndoesWrite(n);
  }

  // ---------- A new name is new ----------

  /** Some name carries the largest number there is. */
  predicate Overflow(names: seq<string>, base: string) {
    exists i :: 0 <= i < |names| && Suffix(names[i], base) == Some(MAX_SUFFIX)
  }

  lemma {:induction false} AboveStart(names: seq<string>, base: string, max: nat)
    requires max <= MAX_SUFFIX
    ensures max <= NextSuffix(names, base, max) || Overflow(names, base)
    decreases |names|
  {
    if names != [] {
      var s := Suffix(names[0], base);
      if s.Some? && s.value == MAX_SUFFIX {
        assert Overflow(names, base);
      } else {
        AboveStart(names[1..], base, Raised(s, max));
        if Overflow(names[1..], base) {
          var j :| 0 <= j < |names[1..]| && Suffix(names[1..][j], base) == Some(MAX_SUFFIX);
          assert names[j + 1] == names[1..][j];
        }
      }
    }
  }

  /** Every number met is below the result, unless the counter overflowed at that name or behind it. */
  lemma {:induction false} AboveAll(names: seq<string>, base: string, max: nat, i: nat)
    requires max <= MAX_SUFFIX && i < |names| && Suffix(names[i], base).Some?
    ensures Suffix(names[i], base).value < NextSuffix(names, base, max) || Overflow(names[i..], base)
    decreases |names|
  {
    var s := Suffix(names[0], base);
    var max' := Raised(s, max);
    if i > 0 {
      AboveAll(names[1..], base, max', i - 1);
      assert names[1..][i - 1] == names[i] && names[1..][i - 1..] == names[i..];
    } else if s.value == MAX_SUFFIX {
      assert names[0..][0] == names[0];
    } else {
      AboveStart(names[1..], base, max');
      if Overflow(names[1..], base) {
        var j :| 0 <= j < |names[1..]| && Suffix(names[1..][j], base) == Some(MAX_SUFFIX);
        assert names[0..][j + 1] == names[1..][j];
      }
    }
  }

  lemma OverflowInPart(names: seq<string>, base: string, i: nat)
    requires i <= |names|
    ensures Overflow(names[i..], base) ==> Overflow(names, base)
  {
    if j :| 0 <= j < |names[i..]| && Suffix(names[i..][j], base) == Some(MAX_SUFFIX) {
      assert names[i..][j] == names[i + j];
    }
  }

  /** The new name is none of the old ones, as long as none of them carries the largest 32-bit number. */
  lemma NewNameIsNew(names: seq<string>, base: string)
    requires !Overflow(names, base)
    ensures NewName(names, base) !in names
  {
    if i: nat :| i < |names| && names[i] == NewName(names, base) {
      SuffixOfNew(base, NextSuffix(names, base, 0));
      OverflowInPart(names, base, i);
      AboveAll(names, base, 0, i);
    }
  }

  /** The number is the first one, or it is just behind one that was met; behind the largest one comes 0. */
  lemma {:induction false} JustBehindOne(names: seq<string>, base: string, max: nat)
    requires max <= MAX_SUFFIX
    ensures var r := NextSuffix(names, base, max);
      r == max || exists i | 0 <= i < |names| ::
        Suffix(names[i], base).Some? && r == (Suffix(names[i], base).value + 1) % 0x1_0000_0000
    decreases |names|
  {
    if names != [] {
      var s := Suffix(names[0], base);
      var max' := Raised(s, max);
      JustBehindOne(names[1..], base, max');
      var r := NextSuffix(names, base, max);
      if r != max' {
        var j :| 0 <= j < |names[1..]| && Suffix(names[1..][j], base).Some? &&
          r == (Suffix(names[1..][j], base).value + 1) % 0x1_0000_0000;
        assert names[j + 1] == names[1..][j];
      }
    }
  }

  /** A collision comes only from an overflow at the old name or behind it in the list. */
  lemma CollisionNeedsOverflow(names: seq<string>, base: string, i: nat)
    requires i < |names| && names[i] == NewName(names, base)
    ensures Overflow(names[i..], base)
  {
    SuffixOfNew(base, NextSuffix(names, base, 0));
    AboveAll(names, base, 0, i);
  }

  /** The largest number makes the numbering start again behind it. */
  lemma {:induction false} NumberingRestarts(names: seq<string>, base: string, max: nat, k: nat)
    requires max <= MAX_SUFFIX && k < |names| && Suffix(names[k], base) == Some(MAX_SUFFIX)
    ensures NextSuffix(names, base, max) == NextSuffix(names[k + 1..], base, 0)
    decreases k
  {
    if k > 0 {
      var s := Suffix(names[0], base);
      assert names[1..][k - 1] == names[k] && names[1..][k..] == names[k + 1..];
      NumberingRestarts(names[1..], base, Raised(s, max), k - 1);
    }
  }

  /**
   When `k` is the last name with the largest number, the new name is an old one exactly when the name that the later
   names alone would give is one of those up to `k`.
   */
  lemma CollisionExactly(names: seq<string>, base: string, k: nat)
    requires k < |names| && Suffix(names[k], base) == Some(MAX_SUFFIX) && !Overflow(names[k + 1..], base)
    ensures NewName(names, base) in names <==> NewName(names[k + 1..], base) in names[..k + 1]
  {
    var later := names[k + 1..];
    NumberingRestarts(names, base, 0, k);
    NewNameIsNew(later, base);
    assert names == names[..k + 1] + later;
  }

  /** Whenever there is an overflow, there is such a last name. */
  lemma {:induction false} LastOverflow(names: seq<string>, base: string) returns (k: nat)
    requires Overflow(names, base)
    ensures k < |names| && Suffix(names[k], base) == Some(MAX_SUFFIX) && !Overflow(names[k + 1..], base)
    decreases |names|
  {
    k :| k < |names| && Suffix(names[k], base) == Some(MAX_SUFFIX);
    if Overflow(names[k + 1..], base) {
      var later := LastOverflow(names[k + 1..], base);
      assert names[k + 1..][later + 1..] == names[k + 1 + later + 1..];
      k := k + 1 + later;
    }
  }

  /** With an overflow it does happen: number 0 and the largest number are followed by number 0 again. */
  lemma OverflowRepeatsName(base: string)
    ensures NewName([base + Digits(0), base + Digits(MAX_SUFFIX)], base) == base + Digits(0)
  {
    hide Suffix, Digits;
    var first, last := base + Digits(0), base + Digits(MAX_SUFFIX);
    SuffixOfNew(base, 0);
    SuffixOfNew(base, MAX_SUFFIX);
    assert [first, last][1..] == [last] && [last][1..] == [];
    assert NextSuffix([last], base, 1) == NextSuffix([], base, 0) == 0;
    assert NextSuffix([first, last], base, 0) == NextSuffix([last], base, 1);
  }

  // ---------- write_decimal ----------

  function Power10(n: nat): nat {
    if n == 0 then 1 else 10 * Power10(n - 1)
  }

  lemma ThirtyTwoBits()
    ensures Power10(15) > MAX_SUFFIX
  {
    assert Power10(5) == 100000;
    assert Power10(10) == 10000000000;
    assert Power10(15) == 1000000000000000;
  }

  lemma {:induction false} DigitsLength(n: nat, limit: nat)
    requires limit > 0 && n < Power10(limit)
    ensures |Digits(n)| <= limit
  {
    if n >= 10 {
      assert limit > 1 by { assert Power10(1) == 10; }
      DigitsLength(n / 10, limit - 1);
    }
  }

  lemma OneMoreDigit(n: nat, tmp: string, c: char)
    requires n > 0 && c == ('0' as int + n % 10) as char
    ensures Reversed(tmp + [c]) == [c] + Reversed(tmp)
    ensures Digits(n) + Reversed(tmp) == (if n / 10 == 0 then "" else Digits(n / 10)) + Reversed(tmp + [c])
  {
    assert (tmp + [c])[..|tmp|] == tmp;
  }

  lemma LastFirst(s: string)
    requires s != ""
    ensures Reversed(s) == [s[|s| - 1]] + Reversed(s[..|s| - 1])
  {
  }

  lemma NoDigits(value: nat)
    ensures forall s: string | s == "" :: Digits(value) + Reversed(s) == Digits(value)
  {
  }

  lemma LessPower(v: nat, n: nat)
    requires 0 < v < Power10(n)
    ensures n > 0 && v / 10 < Power10(n - 1)
  {
  }

  method CollectDigits(value: nat) returns (tmp: array<char>, digits: nat)
    requires 0 < value < Power10(15)
    ensures tmp.Length == 16 && digits <= 16 && Reversed(tmp[..digits]) == Digits(value)
  {
    hide Digits, Power10, Reversed;
    tmp := new char[16];
    digits := 0;
    var v: nat := value;
    NoDigits(value);
    while v > 0 && digits < 16
      invariant digits <= 15 && v < Power10(15 - digits)
      invariant (if v == 0 then "" else Digits(v)) + Reversed(tmp[..digits]) == Digits(value)
      decreases v
    {
      ghost var before := tmp[..digits];
      var c := ('0' as int + v % 10) as char;
      OneMoreDigit(v, before, c);
      LessPower(v, 15 - digits);
      tmp[digits] := c;
      assert tmp[..digits + 1] == before + [c];
      v, digits := v / 10, digits + 1;
    }
    assert "" + Reversed(tmp[..digits]) == Reversed(tmp[..digits]);
  }

  lemma OneDigitBack(tmp: string, digits: nat, buf: string, all: string)
    requires 0 < digits <= |tmp| && buf + Reversed(tmp[..digits]) == all
    ensures buf + [tmp[digits - 1]] + Reversed(tmp[..digits - 1]) == all
  {
    LastFirst(tmp[..digits]);
    assert tmp[..digits][..digits - 1] == tmp[..digits - 1];
    hide Reversed;
    var c, more := [tmp[digits - 1]], Reversed(tmp[..digits - 1]);
    assert buf + c + more == buf + (c + more);
  }

  /** Ten digits at most, so neither the 16 places for the digits nor those of the result run out. */
  method WriteDecimal(value: nat) returns (buf: string)
    requires value <= MAX_SUFFIX
    ensures buf == Digits(value)
  {
    if value == 0 {
      return "0";
    }
    hide Digits, Power10, Reversed;
    ThirtyTwoBits();
    DigitsLength(value, 15);
    var tmp, digits := CollectDigits(value);
    buf := "";
    while digits > 0 && |buf| + 1 < 16
      invariant 0 <= digits <= 16 && buf + Reversed(tmp[..digits]) == Digits(value)
      decreases digits
    {
      OneDigitBack(tmp[..], digits, buf, Digits(value));
      assert tmp[..][..digits] == tmp[..digits] && tmp[..][..digits - 1] == tmp[..digits - 1];
      digits := digits - 1;
      buf := buf + [tmp[digits]];
    }
    assert |Reversed(tmp[..digits])| == digits;
    assert buf + Reversed(tmp[..digits]) == buf;
  }

  // ---------- The scan over the names ----------

  /** has_prefix. */
  method HasPrefix(str: string, prefix: string) returns (has: bool)
    ensures has <==> prefix <= str
  {
    var i := 0;
    while i < |prefix|
      invariant 0 <= i <= |prefix| && i <= |str| && prefix[..i] == str[..i]
    {
      if i == |str| || str[i] != prefix[i] {
        return false;
      }
      i := i + 1;
    }
    has := true;
  }

  /** parse_decimal. */
  method ReadDecimal(str: string, from: nat) returns (value: nat)
    requires from <= |str|
    ensures value == ParseDecimal(str[from..], 0)
  {
    value := 0;
    var i := from;
    while i < |str| && IsDigit(str[i])
      invariant from <= i <= |str| && value <= MAX_SUFFIX
      invariant ParseDecimal(str[i..], value) == ParseDecimal(str[from..], 0)
    {
      assert str[i..][1..] == str[i + 1..];
      value := (value * 10 + (str[i] as nat - '0' as nat)) % (MAX_SUFFIX + 1);
      i := i + 1;
    }
  }

  /** One name of the scan. */
  method RaiseSuffix(name: string, base: string, max: nat) returns (next: nat)
    requires max <= MAX_SUFFIX
    ensures next <= MAX_SUFFIX
    ensures var s := Suffix(name, base);
      next == Raised(s, max)
  {
    next := max;
    var has := HasPrefix(name, base);
    if has && |base| < |name| && IsDigit(name[|base|]) {
      var value := ReadDecimal(name, |base|);
      if value >= max {
        next := (value + 1) % (MAX_SUFFIX + 1);
      }
    }
  }

  /** A name without a number behind the base does not count. */
  lemma {:induction false} SuffixIgnored(names: seq<string>, last: string, base: string, max: nat)
    requires max <= MAX_SUFFIX && Suffix(last, base).None?
    ensures NextSuffix(names + [last], base, max) == NextSuffix(names, base, max)
    decreases |names|
  {
    if names == [] {
      assert ([] + [last])[1..] == [];
    } else {
      assert (names + [last])[1..] == names[1..] + [last];
      var s := Suffix(names[0], base);
      SuffixIgnored(names[1..], last, base, Raised(s, max));
    }
  }
}
