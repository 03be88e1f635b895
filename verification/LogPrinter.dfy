/** The integer conversion of the logging printf. */
module LogPrinter {
  import opened Options
  import opened Text
  import opened Arithmetic
  import opened Printers

  /** What a conversion asks for: %d and %i are signed decimal, %u decimal, %o octal, %x and
      %X hexadecimal; `width` is -1 when none is given. */
  datatype Conversion = Conversion(signed: bool, base: Base, upper: bool, leadingZero: bool, width: int)

  predicate Negative(f: Conversion, v: U32) { f.signed && v >= WORD / 2 }

  /** The absolute value of the word. */
  function Magnitude(f: Conversion, v: U32): U32 { if Negative(f, v) then WORD - v else v }

  /** The number as a signed or unsigned word. */
  function Value(f: Conversion, v: U32): int { if Negative(f, v) then v - WORD else v }

  /** The field: zeros go between the sign and the digits, blanks before the sign. */
  function Field(f: Conversion, v: U32): string {
    var digits := Numeral(Magnitude(f, v), f.base, f.upper);
    Lead(f, Negative(f, v), |digits|) + digits
  }

  /** What stands before the digits. */
  function Lead(f: Conversion, negative: bool, digits: nat): string {
    var sign := if negative then "-" else "";
    var gap := f.width - digits - |sign|;
    if f.leadingZero then sign + Fill('0', gap) else Fill(' ', gap) + sign
  }

  /** The field is exactly as wide as asked, or as the number needs. */
  lemma FieldWidth(f: Conversion, v: U32)
    ensures var needed := |Numeral(Magnitude(f, v), f.base, f.upper)| + if Negative(f, v) then 1 else 0;
      |Field(f, v)| == if f.width > needed then f.width else needed
  {
    hide Numeral;
  }

  /** Read as a signed numeral, the field is the value: the sign comes before the zeros and
      after the blanks. */
  lemma FieldReadsBack(f: Conversion, v: U32)
    ensures SignedDigits(Unpad(Field(f, v)), f.base) == Some(Value(f, v))
    ensures f.leadingZero ==> Unpad(Field(f, v)) == Field(f, v)
    ensures !f.leadingZero ==>
      Unpad(Field(f, v)) == (if Negative(f, v) then "-" else "") + Numeral(Magnitude(f, v), f.base, f.upper)
  {
    hide Numeral, Digits, Fill, DigitValue, Unpad, SignedDigits, Field, Magnitude, Negative, Value;
    var digits, sign := Numeral(Magnitude(f, v), f.base, f.upper), if Negative(f, v) then "-" else "";
    FieldParts(f, v);
    NumeralParses(Magnitude(f, v), f.base, f.upper);
    DigitsStart(digits, f.base);
    var gap := f.width - |digits| - |sign|;
    if f.leadingZero {
      ZerosRead(sign, gap, digits, f.base, Magnitude(f, v));
    } else {
      BlanksRead(sign, gap, digits, f.base, Magnitude(f, v));
    }
  }

  lemma FieldParts(f: Conversion, v: U32)
    ensures var digits, sign := Numeral(Magnitude(f, v), f.base, f.upper), if Negative(f, v) then "-" else "";
      var gap := f.width - |digits| - |sign|;
      Field(f, v) == if f.leadingZero then sign + Fill('0', gap) + digits else Fill(' ', gap) + sign + digits
    ensures Value(f, v) == WithSign(Negative(f, v), Magnitude(f, v))
  {
    hide Numeral, Fill;
  }

  lemma BlanksRead(sign: string, gap: int, digits: string, base: Base, n: nat)
    requires sign == "" || sign == "-"
    requires digits != "" && digits[0] != ' ' && digits[0] != '-' && Digits(digits, base) == Some(n)
    ensures var s := Fill(' ', gap) + sign + digits;
      Unpad(s) == sign + digits && SignedDigits(Unpad(s), base) == Some(WithSign(sign == "-", n))
  {
    hide Digits, Fill, Unpad, SignedDigits;
    assert Fill(' ', gap) + sign + digits == Fill(' ', gap) + (sign + digits);
    UnpadFill(gap, sign + digits);
    SignReads(sign, digits, base, n);
  }

  lemma ZerosRead(sign: string, gap: int, digits: string, base: Base, n: nat)
    requires sign == "" || sign == "-"
    requires digits != "" && digits[0] != ' ' && digits[0] != '-' && Digits(digits, base) == Some(n)
    ensures var s := sign + Fill('0', gap) + digits;
      Unpad(s) == s && SignedDigits(s, base) == Some(WithSign(sign == "-", n))
  {
    hide Digits, Fill, Unpad, SignedDigits;
    var padded := Fill('0', gap) + digits;
    assert sign + Fill('0', gap) + digits == sign + padded;
    PaddedReads(gap, digits, base);
    NothingToUnpad(sign + padded);
    SignReads(sign, padded, base, n);
  }

  lemma NothingToUnpad(s: string)
    requires s != "" && s[0] != ' '
    ensures Unpad(s) == s
  {
  }

  lemma SignReads(sign: string, digits: string, base: Base, n: nat)
    requires sign == "" || sign == "-"
    requires digits != "" && digits[0] != '-' && Digits(digits, base) == Some(n)
    ensures SignedDigits(sign + digits, base) == Some(WithSign(sign == "-", n))
  {
    hide Digits;
    assert ("-" + digits)[1..] == digits && "" + digits == digits;
  }

  lemma PaddedReads(gap: int, digits: string, base: Base)
    requires digits != "" && Digits(digits, base).Some? && digits[0] != ' ' && digits[0] != '-'
    ensures var s := Fill('0', gap) + digits;
      s != "" && s[0] != ' ' && s[0] != '-' && Digits(s, base) == Digits(digits, base)
  {
    ZerosParse(gap, base);
    DigitsConcat(Fill('0', gap), digits, base);
    hide Digits, Pow;
    if gap > 0 {
      FillStarts('0', gap);
    }
  }

  class Log {
    var out: string

    constructor ()
      ensures out == ""
    {
      out := "";
    }

    method TxChar(c: char)
      modifies this
      ensures out == old(out) + [c]
    {
      out := out + [c];
    }

    /** alt_log_repchar */
    method RepChar(c: char, count: int)
      modifies this
      ensures out == old(out) + Fill(c, count)
    {
      var r := count;
      ghost var done := 0;
      assert out == old(out) + Fill(c, 0);
      while r > 0
        invariant done == 0 || r >= 0
        invariant done + r == count && done >= 0 && out == old(out) + Fill(c, done)
      {
        TxChar(c);
        r := r - 1;
        done := done + 1;
      }
    }

    /** The digit-counting loop: the number of digits, and the place value of the first. It
        never exceeds the number, so it fits the word. */
    method CountDigits(v: U32, base: Base) returns (digitCount: nat, p: U32)
      ensures digitCount > 0 && p == Pow(base, digitCount - 1) && v < Pow(base, digitCount)
      ensures if v == 0 then digitCount == 1 else p <= v
      ensures digitCount == |Numeral(v, base, false)|
    {
      hide Pow, Numeral, Quot, Rem;
      PowUnfolds(base, 0);
      digitCount, p := 1, 1;
      assert Pow(base, 1) == base;
      var shrink := Quot(v, base);
      while shrink > 0
        invariant digitCount > 0 && p == Pow(base, digitCount - 1) && shrink == Quot(v, Pow(base, digitCount))
        invariant if v == 0 then digitCount == 1 else p <= v
        decreases shrink
      {
        CountStep(v, base, digitCount, p, shrink);
        digitCount := digitCount + 1;
        p := p * base;
        shrink := Quot(shrink, base);
      }
      Division(v, Pow(base, digitCount));
      PlacesAreDigits(v, base, digitCount, false);
    }

    /** The digit loop, from the first place down to the last. */
    method PutDigits(v: U32, base: Base, upper: bool, place: U32, ghost n: nat)
      requires n > 0 && place == Pow(base, n - 1) && v < Pow(base, n)
      modifies this
      ensures out == old(out) + LastDigits(v, base, n, upper)
    {
      hide Pow, LastDigits, DigitChar, DigitAt, Quot, Rem;
      var rest, p := v, place;
      ghost var k := n;
      Division(v, Pow(base, n));
      while p > 0
        invariant 0 <= k <= n && p == (if k == 0 then 0 else Pow(base, k - 1)) && rest == Rem(v, Pow(base, k))
        invariant out + LastDigits(v, base, k, upper) == old(out) + LastDigits(v, base, n, upper)
        decreases k
      {
        PowUnfolds(base, k - 1);
        DigitOfRemainder(v, base, k - 1);
        LastDigitsUnfolds(v, base, k, upper);
        PutDigit(Quot(rest, p), upper);
        rest := Rem(rest, p);
        if k > 1 {
          PowUnfolds(base, k - 2);
        }
        PlaceBelow(base, p, if k > 1 then Pow(base, k - 2) else 0);
        p := Quot(p, base);
        k := k - 1;
      }
      NoDigits(v, base, upper);
    }

    method PutDigit(value: nat, upper: bool)
      requires value < 16
      modifies this
      ensures out == old(out) + [DigitChar(value, upper)]
    {
      TxChar(if value <= 9 then '0' + value as char else '0' + value as char + ((if upper then 'A' else 'a') - '0') - 10 as char);
    }

    /** The sign and the padding. */
    method PutLead(f: Conversion, sign: bool, digitCount: nat)
      modifies this
      ensures out == old(out) + Lead(f, sign, digitCount)
    {
      hide Fill;
      var beforeDecimal := f.width - digitCount;
      if f.leadingZero {
        if sign {
          TxChar('-');
          beforeDecimal := beforeDecimal - 1;
        }
        RepChar('0', beforeDecimal);
      } else {
        if sign {
          beforeDecimal := beforeDecimal - 1;
        }
        RepChar(' ', beforeDecimal);
        if sign {
          TxChar('-');
        }
      }
    }

    /** The integer conversion. */
    method PrintInteger(f: Conversion, arg: U32)
      modifies this
      ensures out == old(out) + Field(f, arg)
    {
      hide Numeral, LastDigits, Pow, Lead, Quot, Rem;
      var v, sign := arg, false;
      if f.signed && v >= WORD / 2 {
        v := (WORD - 1 - v) + 1;
        sign := true;
      }
      var digitCount, p := CountDigits(v, f.base);
      PlacesAreDigits(v, f.base, digitCount, f.upper);
      PutLead(f, sign, digitCount);
      PutDigits(v, f.base, f.upper, p, digitCount);
    }
  }

  // ----- place values -----

  lemma CountStep(v: nat, base: Base, digitCount: nat, p: nat, shrink: nat)
    requires digitCount > 0 && p == Pow(base, digitCount - 1) && shrink == Quot(v, Pow(base, digitCount)) && shrink > 0
    ensures p * base == Pow(base, digitCount) <= v
    ensures Quot(shrink, base) == Quot(v, Pow(base, digitCount + 1)) && Quot(shrink, base) < shrink
  {
    PowUnfolds(base, digitCount - 1);
    PowUnfolds(base, digitCount);
    var place := Pow(base, digitCount);
    Division(v, place);
    Division(shrink, base);
    hide Pow, Quot, Rem;
    Grows(place, 1, shrink);
    DivideTwice(v, place, base);
    Commutes(p, base);
    Commutes(place, base);
  }

  /** A number of `n` places has `n` digits. */
  lemma PlacesAreDigits(v: nat, base: Base, n: nat, upper: bool)
    requires n > 0 && v < Pow(base, n) && if v == 0 then n == 1 else Pow(base, n - 1) <= v
    ensures LastDigits(v, base, n, upper) == Numeral(v, base, upper) && |Numeral(v, base, upper)| == n
  {
    LastDigitsLength(v, base, n, upper);
    if v == 0 {
      LastDigitsOfOne(v, base, upper);
    } else {
      LastDigitsIsNumeral(v, base, n - 1, upper);
    }
  }

  lemma {:induction false} LastDigitsLength(v: nat, base: Base, n: nat, upper: bool)
    ensures |LastDigits(v, base, n, upper)| == n
    decreases n
  {
    if n > 0 {
      LastDigitsLength(v, base, n - 1, upper);
    }
  }

  /** What is left below place `n + 1` starts with the digit at place `n`. */
  lemma DigitOfRemainder(v: nat, base: Base, n: nat)
    ensures var p := Pow(base, n);
      var rest := Rem(v, Pow(base, n + 1));
      Quot(rest, p) == DigitAt(v, base, n) && Quot(rest, p) < base && Rem(rest, p) == Rem(v, p)
  {
    PowUnfolds(base, n);
    RemainderParts(v, base, Pow(base, n));
    hide Pow, Quot, Rem;
  }

  lemma PlaceBelow(base: Base, p: nat, q: nat)
    requires p == base * q || (p == 1 && q == 0)
    ensures Quot(p, base) == q
  {
    hide Quot;
    DivisionIs(p, base, q, if p == base * q then 0 else 1);
  }
}
