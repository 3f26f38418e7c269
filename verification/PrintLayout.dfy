/**
 Where the parts of a printed number stand, and how that compares with section 7.21.6.1 of the C17 standard: there the
 plus flag wins over the space flag, and the sign stands behind the padding spaces.
 */
module PrintLayout {
  import opened Arithmetic
  import opened PrintInt
  import opened Sequences

  // ---------- The sign ----------

  /** The sign the standard asks for. */
  function StandardSign(negative: bool, spec: Spec): string {
    if negative then "-" else if spec.plus then "+" else if spec.space then " " else ""
  }

  /** The sign printed is the standard's unless a number that is not negative is printed with both flags. */
  lemma SignIsStandard(num: nat, spec: Spec, signed: bool)
    requires num < 0x1_0000_0000_0000_0000
    ensures var negative := signed && spec.base == 10 && num >= 0x8000_0000_0000_0000;
      Sign(num, spec, signed) == StandardSign(negative, spec) <==> negative || !spec.plus || !spec.space
  {
  }

  // ---------- The padding ----------

  /** Padding spaces, sign, zeros, digits, as the standard asks for. */
  function StandardText(num: nat, spec: Spec, signed: bool): string
    requires num < 0x1_0000_0000_0000_0000 && spec.Valid() && !spec.left
  {
    Times(' ', Spaces(num, spec, signed)) + Sign(num, spec, signed) + Times('0', Zeros(num, spec, signed))
    + Digits(num, spec, signed)
  }

  lemma SignBehindSpaces(sign: char, spaces: string, more: string)
    requires forall i | 0 <= i < |spaces| :: spaces[i] == ' '
    ensures [sign] + spaces + more == spaces + [sign] + more <==> sign == ' ' || spaces == ""
  {
    var t, u := [sign] + spaces + more, spaces + [sign] + more;
    if sign != ' ' && spaces != "" {
      assert t[0] == sign && u[0] == ' ';
    } else if sign == ' ' {
      assert [sign] + spaces == spaces + [sign];
    }
  }

  /** A right-aligned number is padded as the standard asks for exactly if there is nothing between sign and digits. */
  lemma PaddingIsStandard(num: nat, spec: Spec, signed: bool)
    requires num < 0x1_0000_0000_0000_0000 && spec.Valid() && !spec.left
    ensures Printed(num, spec, signed) == StandardText(num, spec, signed) <==>
            Sign(num, spec, signed) == "" || Sign(num, spec, signed) == " " || Spaces(num, spec, signed) <= 0
  {
    var sign, spaces := Sign(num, spec, signed), Times(' ', Spaces(num, spec, signed));
    var zeros, digits := Times('0', Zeros(num, spec, signed)), Digits(num, spec, signed);
    assert Times(' ', 0) == "";
    assert Printed(num, spec, signed) == sign + spaces + (zeros + digits);
    assert StandardText(num, spec, signed) == spaces + sign + (zeros + digits);
    if sign == "" {
      assert sign + spaces == spaces + sign;
    } else {
      assert |sign| == 1 && sign == [sign[0]];
      SignBehindSpaces(sign[0], spaces, zeros + digits);
    }
  }

  /** A left-aligned number stands in front, and only spaces follow. */
  lemma LeftAligned(num: nat, spec: Spec, signed: bool)
    requires num < 0x1_0000_0000_0000_0000 && spec.Valid() && spec.left
    ensures var number := Sign(num, spec, signed) + Times('0', Zeros(num, spec, signed)) + Digits(num, spec, signed);
      var text := Printed(num, spec, signed);
      number <= text && forall i | |number| <= i < |text| :: text[i] == ' '
  {
    assert Times(' ', 0) == "";
    var number := Sign(num, spec, signed) + Times('0', Zeros(num, spec, signed)) + Digits(num, spec, signed);
    var spaces := Times(' ', Spaces(num, spec, signed));
    assert Sign(num, spec, signed) + "" == Sign(num, spec, signed);
    assert Printed(num, spec, signed) == number + spaces;
  }

  // ---------- The digits ----------

  /** A digit, or a letter of the case asked for. */
  predicate InCase(c: char, lower: bool) {
    '0' <= c <= '9' || (if lower then 'a' <= c <= 'f' else 'A' <= c <= 'F')
  }

  lemma DigitCase(d: nat, lower: bool)
    requires d < 16
    ensures InCase(HexDigit(d, lower), lower)
  {
    var s := if lower then "0123456789abcdef" else "0123456789ABCDEF";
    assert lower ==> s == "0123456789abcdef";
    assert !lower ==> s == "0123456789ABCDEF";
  }

  lemma SmallerQuotient(n: nat, base: nat)
    requires 2 <= base && n > 0
    ensures n / base < n
  {
    DivMod(n, base);
    MulMonotone(2, base, n / base);
  }

  lemma NumeralStep(n: nat, base: nat, lower: bool)
    requires 2 <= base <= 16 && n >= base
    ensures n % base < 16
    ensures Numeral(n, base, lower) == Numeral(n / base, base, lower) + [HexDigit(n % base, lower)]
  {
    hide HexDigit;
  }

  /** Letters among the digits are of the case asked for. */
  lemma {:induction false} LettersHaveCase(n: nat, base: nat, lower: bool)
    requires 2 <= base <= 16
    ensures forall c | c in Numeral(n, base, lower) :: InCase(c, lower)
    decreases n
  {
    hide HexDigit, InCase;
    if n < base {
      DigitCase(n, lower);
    } else {
      NumeralStep(n, base, lower);
      SmallerQuotient(n, base);
      hide Numeral;
      DigitCase(n % base, lower);
      LettersHaveCase(n / base, base, lower);
    }
  }
}
