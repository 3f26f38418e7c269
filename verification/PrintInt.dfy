/**
 The integer formatter: digits collected backwards in a buffer of 22 characters, then sign, padding and digits sent one
 by one to a sink that may refuse to take more.
 */
module PrintInt {
  import opened Arithmetic
  import opened Sequences

  // ---------- What is printed ----------

  /** A conversion: the width is a 24-bit field, the precision a 16-bit field. */
  datatype Spec = Spec(width: int, precision: int, base: nat, left: bool, plus: bool, space: bool, zero: bool,
      lower: bool) {
    predicate Valid() {
      -0x80_0000 <= width < 0x80_0000 && -0x8000 <= precision < 0x8000 && (base == 8 || base == 10 || base == 16)
    }
  }

  function Max(x: int, y: int): int {
    if x < y then y else x
  }

  /** The value a signed 16-bit field keeps. */
  function Field16(x: int): int {
    (x + 0x8000) % 0x1_0000 - 0x8000
  }

  function HexDigit(d: nat, lower: bool): char
    requires d < 16
  {
    (if lower then "0123456789abcdef" else "0123456789ABCDEF")[d]
  }

  /** The digits of a number without leading zeros; zero has one digit. */
  function Numeral(n: nat, base: nat, lower: bool): (s: string)
    requires 2 <= base <= 16
    ensures s != ""
  {
    if n < base then [HexDigit(n, lower)] else Numeral(n / base, base, lower) + [HexDigit(n % base, lower)]
  }

  function Times(c: char, n: int): (s: string)
    ensures |s| == Max(n, 0) && forall i | 0 <= i < |s| :: s[i] == c
  {
    if n <= 0 then "" else [c] + Times(c, n - 1)
  }

  predicate Negative(num: nat, spec: Spec, signed: bool) {
    signed && spec.base == 10 && num >= 0x8000_0000_0000_0000
  }

  function Magnitude(num: nat, spec: Spec, signed: bool): nat
    requires num < 0x1_0000_0000_0000_0000
  {
    if Negative(num, spec, signed) then 0x1_0000_0000_0000_0000 - num else num
  }

  function Sign(num: nat, spec: Spec, signed: bool): string {
    if Negative(num, spec, signed) then "-"
    else if spec.space then " " else if spec.plus then "+" else ""
  }

  function Digits(num: nat, spec: Spec, signed: bool): string
    requires num < 0x1_0000_0000_0000_0000 && spec.Valid()
  {
    Numeral(Magnitude(num, spec, signed), spec.base, spec.lower)
  }

  /** How many spaces and how many zeros are added. */
  function Spaces(num: nat, spec: Spec, signed: bool): int
    requires num < 0x1_0000_0000_0000_0000 && spec.Valid()
  {
    if spec.zero then -|Sign(num, spec, signed)|
    else spec.width - Max(spec.precision, |Digits(num, spec, signed)|) - |Sign(num, spec, signed)|
  }

  function Zeros(num: nat, spec: Spec, signed: bool): int
    requires num < 0x1_0000_0000_0000_0000 && spec.Valid()
  {
    (if spec.zero then Field16(Max(spec.width, spec.precision)) else spec.precision) - |Digits(num, spec, signed)|
  }

  /** Sign, spaces unless left-aligned, zeros, digits, spaces if left-aligned. */
  function Printed(num: nat, spec: Spec, signed: bool): string
    requires num < 0x1_0000_0000_0000_0000 && spec.Valid()
  {
    Sign(num, spec, signed)
    + Times(' ', if spec.left then 0 else Spaces(num, spec, signed))
    + Times('0', Zeros(num, spec, signed))
    + Digits(num, spec, signed)
    + Times(' ', if spec.left then Spaces(num, spec, signed) else 0)
  }

  // ---------- What the printed text means ----------

  function DigitValue(c: char): nat {
    if '0' <= c <= '9' then c as nat - '0' as nat
    else if 'a' <= c <= 'f' then c as nat - 'a' as nat + 10
    else if 'A' <= c <= 'F' then c as nat - 'A' as nat + 10
    else 16
  }

  function ValueOf(s: string, base: nat): nat {
    if s == "" then 0 else ValueOf(s[..|s| - 1], base) * base + DigitValue(s[|s| - 1])
  }

  lemma HexDigitValue(d: nat, lower: bool)
    requires d < 16
    ensures DigitValue(HexDigit(d, lower)) == d
  {
    var s := if lower then "0123456789abcdef" else "0123456789ABCDEF";
    assert lower ==> s == "0123456789abcdef";
    assert !lower ==> s == "0123456789ABCDEF";
  }

  lemma OneDigit(n: nat, base: nat, lower: bool)
    requires n < base <= 16
    ensures ValueOf([HexDigit(n, lower)], base) == n
  {
    hide HexDigit, DigitValue;
    HexDigitValue(n, lower);
    var s := [HexDigit(n, lower)];
    assert s[..0] == "" && ValueOf("", base) == 0;
  }

  lemma LastDigitAdds(s: string, d: nat, base: nat, lower: bool)
    requires d < base <= 16
    ensures ValueOf(s + [HexDigit(d, lower)], base) == ValueOf(s, base) * base + d
  {
    hide HexDigit, DigitValue;
    HexDigitValue(d, lower);
    var t := s + [HexDigit(d, lower)];
    assert t[..|t| - 1] == s;
  }

  lemma {:induction false} NumeralReadsBack(n: nat, base: nat, lower: bool)
    requires 2 <= base <= 16
    ensures ValueOf(Numeral(n, base, lower), base) == n
  {
    if n < base {
      OneDigit(n, base, lower);
    } else {
      hide ValueOf, HexDigit;
      var more := Numeral(n / base, base, lower);
      NumeralReadsBack(n / base, base, lower);
      DivMod(n, base);
      LastDigitAdds(more, n % base, base, lower);
    }
  }

  lemma {:induction false} SameTimes(s: string, c: char, n: int)
    requires |s| == Max(n, 0) && forall i | 0 <= i < |s| :: s[i] == c
    ensures s == Times(c, n)
  {
  }

  lemma {:induction false} AllZeros(n: int, base: nat)
    ensures ValueOf(Times('0', n), base) == 0
  {
    if n > 0 {
      var s := Times('0', n);
      SameTimes(s[..|s| - 1], '0', n - 1);
      AllZeros(n - 1, base);
    }
  }

  lemma {:induction false} ZerosInFront(n: int, s: string, base: nat)
    ensures ValueOf(Times('0', n) + s, base) == ValueOf(s, base)
  {
    var t := Times('0', n) + s;
    if s == "" {
      assert t == Times('0', n);
      if n > 0 {
        AllZeros(n, base);
      }
    } else {
      assert t[..|t| - 1] == Times('0', n) + s[..|s| - 1];
      ZerosInFront(n, s[..|s| - 1], base);
    }
  }

  /** Zeros and digits together read back as the magnitude of the number, in its base. */
  lemma PrintedReadsBack(num: nat, spec: Spec, signed: bool)
    requires num < 0x1_0000_0000_0000_0000 && spec.Valid()
    ensures ValueOf(Times('0', Zeros(num, spec, signed)) + Digits(num, spec, signed), spec.base)
        == Magnitude(num, spec, signed)
    ensures (Sign(num, spec, signed) == "-") <==> (signed && spec.base == 10 && num >= 0x8000_0000_0000_0000)
  {
    ZerosInFront(Zeros(num, spec, signed), Digits(num, spec, signed), spec.base);
    NumeralReadsBack(Magnitude(num, spec, signed), spec.base, spec.lower);
  }

  function Power8(n: nat): nat {
    if n == 0 then 1 else 8 * Power8(n - 1)
  }

  lemma Shrinks(n: nat, base: nat, limit: nat)
    requires 8 <= base <= 16 && 0 < n < Power8(limit)
    ensures limit > 0 && n / base < Power8(limit - 1)
  {
    var p := Power8(limit - 1);
    MulMonotone(8, base, p);
    assert n < p * base;
    BlockOf(n, p, base);
  }

  lemma {:induction false} NumeralLength(n: nat, base: nat, lower: bool, limit: nat)
    requires 8 <= base <= 16 && limit > 0 && n < Power8(limit)
    ensures |Numeral(n, base, lower)| <= limit
  {
    if n >= base {
      assert limit > 1 by { assert Power8(1) == 8; }
      hide Numeral, Power8, HexDigit;
      Shrinks(n, base, limit);
      NumeralLength(n / base, base, lower, limit - 1);
    }
  }

  lemma SixtyFourBits()
    ensures Power8(22) >= 0x1_0000_0000_0000_0000
  {
    assert Power8(11) == 0x2_0000_0000;
    assert Power8(22) == 0x2_0000_0000 * 0x2_0000_0000;
  }

  /** Without the zero flag the text fills the width, or is as long as its sign and the digits asked for. */
  lemma PrintedLength(num: nat, spec: Spec, signed: bool)
    requires num < 0x1_0000_0000_0000_0000 && spec.Valid() && !spec.zero
    ensures |Printed(num, spec, signed)|
         == Max(spec.width, |Sign(num, spec, signed)| + Max(spec.precision, |Digits(num, spec, signed)|))
  {
  }

  /** With it the sign comes on top of the width, and a width that the 16-bit field cannot hold is not filled. */
  lemma ZeroPaddedLength(num: nat, spec: Spec, signed: bool)
    requires num < 0x1_0000_0000_0000_0000 && spec.Valid() && spec.zero
    ensures |Printed(num, spec, signed)|
         == |Sign(num, spec, signed)| + Max(Max(spec.width, spec.precision), |Digits(num, spec, signed)|)
       <==> spec.width < 0x8000
  {
    SixtyFourBits();
    hide Numeral, Times, Power8;
    NumeralLength(Magnitude(num, spec, signed), spec.base, spec.lower, 22);
  }

  // ---------- The formatter ----------

  /** As much of a text as a sink takes. */
  function Cut(s: string, limit: nat): string {
    if |s| <= limit then s else s[..limit]
  }

  lemma OneMoreTime(c: char, n: nat)
    ensures Times(c, n) + [c] == Times(c, n + 1)
  {
    SameTimes(Times(c, n) + [c], c, n + 1);
  }

  lemma CutPad(s: string, c: char, count: nat, n: int, limit: nat)
    requires count <= Max(n, 0) && |s| + count <= limit && (count == Max(n, 0) || |s| + count == limit)
    ensures Cut(s + Times(c, n), limit) == s + Times(c, count)
  {
    var t := Times(c, n);
    SameTimes(t[..count], c, count);
    if |s| + |t| > limit {
      assert (s + t)[..limit] == s + t[..count];
    } else {
      assert t[..count] == t;
    }
  }

  /** What the sink has taken: it refuses every character after the first `limit`. */
  class Sink {
    const limit: nat
    var taken: string

    constructor (limit: nat)
      ensures this.limit == limit && taken == ""
    {
      this.limit := limit;
      taken := "";
    }

    /** The callback; true means failure. */
    method Put(c: char) returns (failed: bool)
      modifies this
      ensures failed <==> old(|taken|) >= limit
      ensures taken == if failed then old(taken) else old(taken) + [c]
    {
      failed := |taken| >= limit;
      if !failed {
        taken := taken + [c];
      }
    }

    /** A padding loop: `n` times the same character, or as many as are taken. */
    method Pad(c: char, n: int) returns (failed: bool, count: nat)
      requires |taken| <= limit
      modifies this
      ensures |taken| <= limit
      ensures taken == Cut(old(taken) + Times(c, n), limit) && count == |taken| - |old(taken)|
      ensures failed <==> |old(taken)| + Max(n, 0) > limit
    {
      var padLen := n;
      failed, count := false, 0;
      while padLen > 0
        invariant padLen == n - count && (padLen >= 0 || count == 0) && |taken| <= limit
        invariant taken == old(taken) + Times(c, count)
      {
        failed := Put(c);
        if failed {
          CutPad(old(taken), c, count, n, limit);
          return;
        }
        OneMoreTime(c, count);
        count, padLen := count + 1, padLen - 1;
      }
      CutPad(old(taken), c, count, n, limit);
    }
  }

  lemma CutTwice(s: string, t: string, limit: nat)
    ensures |s| <= limit ==> Cut(s, limit) == s
    ensures |s| > limit ==> Cut(s + t, limit) == Cut(s, limit)
  {
  }

  lemma CutNothing(s: string)
    ensures Cut(s, 0) == ""
  {
  }

  lemma CutInside(s: string, t: string, count: nat, limit: nat)
    requires count <= |t| && |s| + count <= limit && (count == |t| || |s| + count == limit)
    ensures Cut(s + t, limit) == s + t[..count]
  {
    if count < |t| {
      assert (s + t)[..limit] == s + t[..count];
    } else {
      assert t[..count] == t;
    }
  }

  /** The buffer is emptied backwards. */
  method Rewind(sink: Sink, rbuf: array<char>, length: nat, spec: Spec, num: nat) returns (failed: bool, count: nat)
    requires length <= rbuf.Length && spec.Valid() && |sink.taken| <= sink.limit
    requires rbuf[..length] == Reversed(Numeral(num, spec.base, spec.lower))
    modifies sink
    ensures |sink.taken| <= sink.limit
    ensures sink.taken == Cut(old(sink.taken) + Numeral(num, spec.base, spec.lower), sink.limit)
    ensures count == |sink.taken| - |old(sink.taken)|
    ensures failed <==> |old(sink.taken)| + length > sink.limit
  {
    hide Numeral, Reversed, Cut;
    ghost var s := Numeral(num, spec.base, spec.lower);
    assert |rbuf[..length]| == |s|;
    var left := length;
    failed, count := false, 0;
    while left > 0
      invariant 0 <= left <= length == |s| && count == length - left && |sink.taken| <= sink.limit
      invariant sink.taken == old(sink.taken) + s[..count]
    {
      ReversedAt(s, left - 1);
      assert rbuf[left - 1] == rbuf[..length][left - 1];
      failed := sink.Put(rbuf[left - 1]);
      if failed {
        CutInside(old(sink.taken), s, count, sink.limit);
        return;
      }
      assert s[..count + 1] == s[..count] + [s[count]];
      left, count := left - 1, count + 1;
    }
    assert s[..count] == s;
    CutInside(old(sink.taken), s, count, sink.limit);
  }

  /** Everything behind the sign. */
  method PrintBody(sink: Sink, before: int, zeros: int, rbuf: array<char>, length: nat, spec: Spec, num: nat,
      after: int)
    returns (count: nat)
    requires length <= rbuf.Length && spec.Valid() && |sink.taken| <= sink.limit
    requires rbuf[..length] == Reversed(Numeral(num, spec.base, spec.lower))
    modifies sink
    ensures count == |sink.taken| - |old(sink.taken)|
    ensures sink.taken == Cut(old(sink.taken) + Times(' ', before) + Times('0', zeros)
                              + Numeral(num, spec.base, spec.lower) + Times(' ', after), sink.limit)
  {
    hide Numeral, HexDigit, Times, Reversed, Cut;
    ghost var s0, a, b, c, d := sink.taken, Times(' ', before), Times('0', zeros),
                                Numeral(num, spec.base, spec.lower), Times(' ', after);
    CutTwice(s0, a, sink.limit);
    CutTwice(s0 + a, b, sink.limit);
    CutTwice(s0 + a, b + c, sink.limit);
    CutTwice(s0 + a + b, c, sink.limit);
    CutTwice(s0 + a + b + c, d, sink.limit);
    assert |rbuf[..length]| == length == |c|;
    var failed, n := sink.Pad(' ', before);
    count := n;
    if failed {
      return;
    }
    failed, n := sink.Pad('0', zeros);
    count := count + n;
    if failed {
      return;
    }
    failed, n := Rewind(sink, rbuf, length, spec, num);
    count := count + n;
    if failed {
      return;
    }
    failed, n := sink.Pad(' ', after);
    count := count + n;
  }

  lemma Smaller(n: nat, base: nat)
    requires n > 0 && 2 <= base
    ensures n / base < n && (n / base == 0 <==> n < base)
  {
    DivMod(n, base);
    if n / base >= n {
      MulMonotone(n, n / base, base);
      MulMonotone(2, base, n);
    }
    if n < base {
      DivModUnique(n, 0, n, base);
    }
  }

  lemma LastDigit(n: nat, base: nat, lower: bool)
    requires 8 <= base <= 16
    ensures var last := [HexDigit(n % base, lower)];
      Reversed(Numeral(n, base, lower)) == if n < base then last else last + Reversed(Numeral(n / base, base, lower))
  {
    hide HexDigit;
    if n < base {
      var s := [HexDigit(n, lower)];
      assert s[..0] == "" && Reversed("") == "";
      assert n % base == n;
    } else {
      var more := Numeral(n / base, base, lower);
      var s := more + [HexDigit(n % base, lower)];
      assert s[..|s| - 1] == more;
    }
  }

  /** One round of the loop that collects the digits. */
  method StoreDigit(rbuf: array<char>, length: nat, num: nat, spec: Spec, ghost all: string) returns (next: nat)
    requires rbuf.Length == 22 && length <= 22 && spec.Valid() && 0 < num < Power8(22 - length)
    requires rbuf[..length] + Reversed(Numeral(num, spec.base, spec.lower)) == all
    modifies rbuf
    ensures next < num && length < 22 && next < Power8(22 - (length + 1))
    ensures next > 0 ==> rbuf[..length + 1] + Reversed(Numeral(next, spec.base, spec.lower)) == all
    ensures next == 0 ==> rbuf[..length + 1] == all
  {
    hide Numeral, HexDigit, Reversed, Power8;
    Shrinks(num, spec.base, 22 - length);
    LastDigit(num, spec.base, spec.lower);
    Smaller(num, spec.base);
    ghost var before := rbuf[..length];
    next := num / spec.base;
    var digit := HexDigit(num % spec.base, spec.lower);
    rbuf[length] := digit;
    assert rbuf[..length + 1] == before + [digit];
  }

  lemma ZeroDigit(n: nat, base: nat, lower: bool)
    requires 2 <= base <= 16 && n == 0
    ensures Reversed(Numeral(n, base, lower)) == "0"
  {
    assert Numeral(n, base, lower) == "0";
    assert "0"[..0] == "";
  }

  /** The digits from the last to the first; 22 places are always enough. */
  method Reverse(number: nat, spec: Spec) returns (rbuf: array<char>, length: nat)
    requires number < 0x1_0000_0000_0000_0000 && spec.Valid()
    ensures fresh(rbuf) && rbuf.Length == 22 && 0 < length <= 22
    ensures length == |Numeral(number, spec.base, spec.lower)|
    ensures rbuf[..length] == Reversed(Numeral(number, spec.base, spec.lower))
  {
    hide Numeral, HexDigit, Reversed, Power8;
    rbuf := new char[22];
    length := 0;
    var num: nat := number;
    SixtyFourBits();
    ghost var all := Reversed(Numeral(number, spec.base, spec.lower));
    while num > 0
      invariant 0 <= length <= 22 && num < Power8(22 - length)
      invariant num > 0 ==> rbuf[..length] + Reversed(Numeral(num, spec.base, spec.lower)) == all
      invariant num == 0 ==> (number == 0 && length == 0) || (length > 0 && rbuf[..length] == all)
      decreases num
    {
      num := StoreDigit(rbuf, length, num, spec, all);
      length := length + 1;
    }
    if length == 0 {
      rbuf[0] := '0';
      length := 1;
      ZeroDigit(number, spec.base, spec.lower);
      assert rbuf[..1] == "0";
    }
    assert |rbuf[..length]| == length;
  }

  /** The sign, if there is one to print. */
  method PutSign(sink: Sink, sign: char, number: nat, spec: Spec, signed: bool) returns (refused: bool, count: nat)
    requires sink.taken == ""
    requires sign == if Negative(number, spec, signed) then '-' else if spec.space then ' ' else '+'
    modifies sink
    ensures refused ==> sink.limit == 0 && sink.taken == "" && count == 0
    ensures !refused ==> sink.taken == Sign(number, spec, signed) && count == |sink.taken| <= sink.limit
  {
    refused, count := false, 0;
    if sign == '-' || spec.space || spec.plus {
      refused := sink.Put(sign);
      if !refused {
        count := 1;
      }
    }
  }

  lemma PrintedInParts(num: nat, spec: Spec, signed: bool, pads: int, precision: int)
    requires num < 0x1_0000_0000_0000_0000 && spec.Valid()
    requires pads == if spec.zero then 0 else spec.width - Max(spec.precision, |Digits(num, spec, signed)|)
    requires precision == if spec.zero then Field16(Max(spec.width, spec.precision)) else spec.precision
    ensures var spaces, digits := pads - |Sign(num, spec, signed)|, Digits(num, spec, signed);
      Printed(num, spec, signed)
        == Sign(num, spec, signed) + Times(' ', if spec.left then 0 else spaces)
           + Times('0', precision - |digits|) + digits + Times(' ', if spec.left then spaces else 0)
  {
    hide Numeral, Times, Field16;
  }

  method DoPrintInt(sink: Sink, number: nat, spec: Spec, signed: bool) returns (count: nat)
    requires number < 0x1_0000_0000_0000_0000 && spec.Valid() && sink.taken == ""
    modifies sink
    ensures sink.taken == Cut(Printed(number, spec, signed), sink.limit) && count == |sink.taken|
  {
    hide Numeral, HexDigit, Times, Reversed, Field16, Printed, Sign, Cut;
    var num, sign := number, if spec.space then ' ' else '+';
    if signed && spec.base == 10 && number >= 0x8000_0000_0000_0000 {
      num, sign := 0x1_0000_0000_0000_0000 - number, '-';
    }
    var rbuf, length := Reverse(num, spec);
    var padLen, precision := spec.width - Max(spec.precision, length), spec.precision;
    if spec.zero {
      padLen, precision := 0, Field16(Max(spec.width, spec.precision));
    }
    PrintedInParts(number, spec, signed, padLen, precision);
    var refused;
    refused, count := PutSign(sink, sign, number, spec, signed);
    if refused {
      CutNothing(Printed(number, spec, signed));
      return;
    }
    padLen := padLen - count;
    var n := PrintBody(sink, if spec.left then 0 else padLen, precision - length, rbuf, length, spec, num,
                       if spec.left then padLen else 0);
    count := count + n;
  }
}
