/** Numbers printed by the target and read back by the host. */
module Printers {

  import opened Options
  import opened Text
  import opened Arithmetic

  const WORD := 0x1_0000_0000

  type U32 = x: int | 0 <= x < WORD witness 0

  // ----- numerals -----

  function DigitChar(d: nat, upper: bool): char
    requires d < 16
  {
    if d <= 9 then '0' + d as char else (if upper then 'A' else 'a') + (d - 10) as char
  }

  /** The shortest numeral of a number. */
  function Numeral(v: nat, base: Base, upper: bool): (s: string)
    ensures s != ""
  {
    if v < base then [DigitChar(v, upper)]
    else Numeral(Quot(v, base), base, upper) + [DigitChar(Rem(v, base), upper)]
  }

  function DigitValue(c: char): nat {
    if '0' <= c <= '9' then (c - '0') as nat
    else if 'a' <= c <= 'f' then (c - 'a') as nat + 10
    else if 'A' <= c <= 'F' then (c - 'A') as nat + 10
    else 16
  }

  /** The number a string of digits stands for. */
  function Digits(s: string, base: Base): Option<nat> {
    if s == "" then Some(0)
    else
      var last, rest := DigitValue(s[|s| - 1]), Digits(s[..|s| - 1], base);
      if last >= base || rest.None? then None else Some(rest.value * base + last)
  }

  lemma DigitRoundTrip(d: nat, upper: bool)
    requires d < 16
    ensures DigitValue(DigitChar(d, upper)) == d
  {
  }

  lemma DigitsSnoc(s: string, d: nat, base: Base, upper: bool)
    requires d < base
    ensures Digits(s + [DigitChar(d, upper)], base) ==
      if Digits(s, base).None? then None else Some(Digits(s, base).value * base + d)
  {
    DigitRoundTrip(d, upper);
    var t := s + [DigitChar(d, upper)];
    assert t[..|t| - 1] == s;
    hide DigitValue, DigitChar;
  }

  lemma NumeralUnfolds(v: nat, base: Base, upper: bool)
    requires v >= base
    ensures Numeral(v, base, upper) == Numeral(Quot(v, base), base, upper) + [DigitChar(Rem(v, base), upper)]
  {
    hide Quot, Rem;
  }

  lemma OneDigit(v: nat, base: Base, upper: bool)
    requires v < base
    ensures Numeral(v, base, upper) == [DigitChar(v, upper)]
  {
  }

  /** A numeral stands for its number. */
  lemma {:induction false} NumeralParses(v: nat, base: Base, upper: bool)
    ensures Digits(Numeral(v, base, upper), base) == Some(v)
    decreases v
  {
    Division(v, base);
    if v < base {
      OneDigit(v, base, upper);
      DigitsSnoc("", v, base, upper);
      assert "" + [DigitChar(v, upper)] == [DigitChar(v, upper)];
    } else {
      NumeralUnfolds(v, base, upper);
      hide Numeral, Digits, Quot, Rem;
      var q := Quot(v, base);
      NumeralParses(q, base, upper);
      DigitsSnoc(Numeral(q, base, upper), Rem(v, base), base, upper);
      Commutes(q, base);
    }
  }

  /** Numerals have no leading zero, except for zero itself. */
  lemma {:induction false} NumeralIsMinimal(v: nat, base: Base, upper: bool)
    ensures Numeral(v, base, upper)[0] == '0' <==> v == 0
    decreases v
  {
    Division(v, base);
    hide Quot, Rem;
    if v < base {
      OneDigit(v, base, upper);
    } else {
      NumeralUnfolds(v, base, upper);
      hide Numeral;
      NumeralIsMinimal(Quot(v, base), base, upper);
    }
  }

  /** The number of digits, by the powers of the base. */
  lemma {:induction false} NumeralLength(v: nat, base: Base, upper: bool)
    ensures var n := |Numeral(v, base, upper)|;
      v < Pow(base, n) && (v > 0 ==> Pow(base, n - 1) <= v)
    decreases v
  {
    if v < base {
      PowUnfolds(base, 0);
      OneDigit(v, base, upper);
    } else {
      Division(v, base);
      NumeralUnfolds(v, base, upper);
      hide Numeral, Quot, Rem, Pow;
      var q := Quot(v, base);
      NumeralLength(q, base, upper);
      var m := |Numeral(q, base, upper)|;
      PowUnfolds(base, m);
      PowUnfolds(base, m - 1);
      Grows(base, q + 1, Pow(base, m));
      Grows(base, Pow(base, m - 1), q);
      Distributes(base, q, 1);
    }
  }

  /** The number of `x` followed by digits worth `y`, whose places together are worth `p`. */
  function Appended(x: nat, p: nat, y: nat): nat { x * p + y }

  lemma DigitsPush(s: string, c: char, base: Base)
    ensures var last, rest := DigitValue(c), Digits(s, base);
      Digits(s + [c], base) == if last >= base || rest.None? then None else Some(Appended(rest.value, base, last))
  {
    assert (s + [c])[..|s + [c]| - 1] == s;
  }

  lemma {:induction false} DigitsConcat(s: string, t: string, base: Base)
    requires Digits(s, base).Some? && Digits(t, base).Some?
    ensures Digits(s + t, base) == Some(Appended(Digits(s, base).value, Pow(base, |t|), Digits(t, base).value))
    decreases |t|
  {
    if t == "" {
      assert s + t == s;
    } else {
      hide Digits, Pow, DigitValue, Appended;
      var t', c := t[..|t| - 1], t[|t| - 1];
      DigitsPush(t', c, base);
      DigitsPush(s + t', c, base);
      assert t' + [c] == t && s + t' + [c] == s + t;
      DigitsConcat(s, t', base);
      Regroup(Digits(s, base).value, |t'|, Digits(t', base).value, DigitValue(c), base);
    }
  }

  lemma Regroup(x: nat, n: nat, y: nat, d: nat, base: Base)
    ensures Appended(Appended(x, Pow(base, n), y), base, d) == Appended(x, Pow(base, n + 1), Appended(y, base, d))
  {
    PowUnfolds(base, n);
    hide Pow;
    assert x * (base * Pow(base, n)) == x * Pow(base, n) * base;
  }

  lemma {:induction false} ZerosParse(n: int, base: Base)
    ensures Digits(Fill('0', n), base) == Some(0)
    decreases if n < 0 then 0 else n
  {
    if n > 0 {
      ZerosParse(n - 1, base);
      assert Fill('0', n)[..n - 1] == Fill('0', n - 1);
    }
  }

  /** What reads as a number starts with a digit. */
  lemma {:induction false} DigitsStart(s: string, base: Base)
    requires s != "" && Digits(s, base).Some?
    ensures DigitValue(s[0]) < base && s[0] != ' ' && s[0] != '-'
    decreases |s|
  {
    assert DigitValue(' ') == 16 && DigitValue('-') == 16;
    if |s| > 1 {
      DigitsStart(s[..|s| - 1], base);
    }
  }

  function WithSign(negative: bool, n: int): int { if negative then -n else n }

  /** The number a string stands for that may start with a minus sign. */
  function SignedDigits(s: string, base: Base): Option<int> {
    if s == "" then None
    else
      var n := Digits(if s[0] == '-' then s[1..] else s, base);
      if n.None? || s == "-" then None
      else Some(WithSign(s[0] == '-', n.value))
  }

  // ----- alt_printf -----

  datatype Arg = Letter(c: char) | Hex(v: U32) | Text(s: string)

  /** The arguments are of the kinds the format asks for, which is the caller's part. */
  predicate Matches(fmt: string, args: seq<Arg>) {
    if fmt == "" then true
    else if fmt[0] != '%' then Matches(fmt[1..], args)
    else if |fmt| == 1 then true
    else if fmt[1] == 'c' then args != [] && args[0].Letter? && Matches(fmt[2..], args[1..])
    else if fmt[1] == 'x' then args != [] && args[0].Hex? && Matches(fmt[2..], args[1..])
    else if fmt[1] == 's' then args != [] && args[0].Text? && Matches(fmt[2..], args[1..])
    else Matches(fmt[2..], args)
  }

  /** What is printed: a letter that is no conversion is dropped with its percent sign. */
  function Formatted(fmt: string, args: seq<Arg>): string
    requires Matches(fmt, args)
  {
    if fmt == "" then ""
    else if fmt[0] != '%' then [fmt[0]] + Formatted(fmt[1..], args)
    else if |fmt| == 1 then ""
    else if fmt[1] == '%' then "%" + Formatted(fmt[2..], args)
    else if fmt[1] == 'c' then [args[0].c] + Formatted(fmt[2..], args[1..])
    else if fmt[1] == 'x' then Numeral(args[0].v, 16, false) + Formatted(fmt[2..], args[1..])
    else if fmt[1] == 's' then args[0].s + Formatted(fmt[2..], args[1..])
    else Formatted(fmt[2..], args)
  }

  /** The digit at place `n`, counted from the right. */
  function DigitAt(v: nat, base: Base, n: nat): (d: nat)
    ensures d < base
  {
    Rem(Quot(v, Pow(base, n)), base)
  }

  /** The last `n` digits, leading zeros included. */
  function LastDigits(v: nat, base: Base, n: nat, upper: bool): string {
    if n == 0 then "" else [DigitChar(DigitAt(v, base, n - 1), upper)] + LastDigits(v, base, n - 1, upper)
  }

  /** The place after the first `n` counted from the right, of a number without its last digit. */
  lemma DigitShifts(v: nat, base: Base, n: nat)
    requires n > 0
    ensures DigitAt(v, base, n) == DigitAt(Quot(v, base), base, n - 1)
  {
    PowUnfolds(base, n - 1);
    hide Pow, Quot, Rem;
    DivideTwice(v, base, Pow(base, n - 1));
  }

  lemma {:induction false} LastDigitsSnoc(v: nat, base: Base, n: nat, upper: bool)
    requires n > 0
    ensures LastDigits(v, base, n, upper) == LastDigits(Quot(v, base), base, n - 1, upper) + [DigitChar(Rem(v, base), upper)]
    decreases n
  {
    hide DigitAt, DigitChar, Quot, Rem, Pow;
    if n == 1 {
      LastDigit(v, base);
    } else {
      DigitShifts(v, base, n - 1);
      LastDigitsSnoc(v, base, n - 1, upper);
    }
  }

  lemma LastDigit(v: nat, base: Base)
    ensures DigitAt(v, base, 0) == Rem(v, base)
  {
    PowUnfolds(base, 0);
    DivisionIs(v, 1, v, 0);
    hide Quot, Rem, Pow;
  }

  /** Printed from the place of its first digit on, a number is its numeral. */
  lemma {:induction false} LastDigitsIsNumeral(v: nat, base: Base, n: nat, upper: bool)
    requires Pow(base, n) <= v < Pow(base, n + 1)
    ensures LastDigits(v, base, n + 1, upper) == Numeral(v, base, upper)
    decreases n
  {
    hide Pow, LastDigits, Numeral, DigitAt, DigitChar, Quot, Rem;
    LastDigitsSnoc(v, base, n + 1, upper);
    PowUnfolds(base, n);
    if n > 0 {
      PowUnfolds(base, n - 1);
      QuotientBounds(v, base, Pow(base, n - 1));
      NumeralUnfolds(v, base, upper);
      LastDigitsIsNumeral(Quot(v, base), base, n - 1, upper);
    } else {
      LastDigitsOfOne(v, base, upper);
    }
  }

  lemma ZeroNumeral()
    ensures Numeral(0, 16, false) == "0"
  {
  }

  lemma LastDigitsOfOne(v: nat, base: Base, upper: bool)
    requires v < base
    ensures LastDigits(v, base, 1, upper) == Numeral(v, base, upper)
  {
    LastDigitsSnoc(v, base, 1, upper);
    Division(v, base);
    NoDigits(Quot(v, base), base, upper);
    OneDigit(v, base, upper);
    assert "" + [DigitChar(v, upper)] == [DigitChar(v, upper)];
    hide LastDigits, DigitChar, Quot, Rem;
  }

  /** The digit at the highest place that can be one. */
  lemma TopDigit(v: nat, base: Base, n: nat)
    requires v < Pow(base, n + 1)
    ensures DigitAt(v, base, n) == 0 <==> v < Pow(base, n)
  {
    PowUnfolds(base, n);
    TopOfQuotient(v, base, Pow(base, n));
    Division(Quot(v, Pow(base, n)), base);
    hide Pow, Quot, Rem;
  }

  lemma WordHasEightDigits()
    ensures Pow(16, 8) == WORD
  {
    assert Pow(16, 2) == 256;
    assert Pow(16, 4) == 0x1_0000 && Pow(16, 6) == 0x100_0000;
  }

  lemma LastDigitsUnfolds(v: nat, base: Base, n: nat, upper: bool)
    requires n > 0
    ensures LastDigits(v, base, n, upper) == [DigitChar(DigitAt(v, base, n - 1), upper)] + LastDigits(v, base, n - 1, upper)
  {
  }

  lemma NoDigits(v: nat, base: Base, upper: bool)
    ensures LastDigits(v, base, 0, upper) == ""
  {
  }

  class Console {
    var out: string

    constructor ()
      ensures out == ""
    {
      out := "";
    }

    method PutChar(c: char)
      modifies this
      ensures out == old(out) + [c]
    {
      out := out + [c];
    }

    /** The place of the first digit that is not zero. */
    method FirstPlace(v: U32) returns (digitShift: nat)
      requires v > 0
      ensures digitShift % 4 == 0 && Pow(16, digitShift / 4) <= v < Pow(16, digitShift / 4 + 1)
    {
      hide Pow, DigitAt;
      WordHasEightDigits();
      PowUnfolds(16, 0);
      digitShift := 28;
      ghost var n := 7;
      TopDigit(v, 16, n);
      while DigitAt(v, 16, digitShift / 4) == 0
        invariant digitShift == 4 * n && 0 <= n && v < Pow(16, n + 1)
        invariant DigitAt(v, 16, n) == 0 <==> v < Pow(16, n)
        decreases n
      {
        digitShift := digitShift - 4;
        n := n - 1;
        TopDigit(v, 16, n);
      }
    }

    /** The %x conversion: from the first digit that is not zero on, one place at a time. */
    method PutHex(v: U32)
      modifies this
      ensures out == old(out) + Numeral(v, 16, false)
    {
      hide Pow, DigitAt, LastDigits, Numeral, DigitChar;
      if v == 0 {
        ZeroNumeral();
        PutChar('0');
        return;
      }
      var digitShift: int := FirstPlace(v);
      ghost var n := digitShift / 4;
      LastDigitsIsNumeral(v, 16, n, false);
      while digitShift >= 0
        invariant digitShift == 4 * n && n >= -1
        invariant out + LastDigits(v, 16, n + 1, false) == old(out) + Numeral(v, 16, false)
      {
        LastDigitsUnfolds(v, 16, n + 1, false);
        PutChar(DigitChar(DigitAt(v, 16, digitShift / 4), false));
        digitShift := digitShift - 4;
        n := n - 1;
      }
      NoDigits(v, 16, false);
    }

    /** alt_printf */
    method Printf(fmt: string, args: seq<Arg>)
      requires Matches(fmt, args)
      modifies this
      ensures out == old(out) + Formatted(fmt, args)
    {
      hide Numeral;
      var w, a := fmt, args;
      while w != ""
        invariant Matches(w, a) && out + Formatted(w, a) == old(out) + Formatted(fmt, args)
        decreases |w|
      {
        var c := w[0];
        if c != '%' {
          PutChar(c);
          w := w[1..];
        } else {
          if |w| == 1 {
            break;
          }
          c := w[1];
          if c == '%' {
            PutChar(c);
          } else if c == 'c' {
            PutChar(a[0].c);
            a := a[1..];
          } else if c == 'x' {
            PutHex(a[0].v);
            a := a[1..];
          } else if c == 's' {
            PutText(a[0].s);
            a := a[1..];
          }
          w := w[2..];
        }
      }
    }

    method PutText(s: string)
      modifies this
      ensures out == old(out) + s
    {
      var i := 0;
      while i < |s|
        invariant 0 <= i <= |s| && out == old(out) + s[..i]
      {
        PutChar(s[i]);
        i := i + 1;
      }
      assert s[..|s|] == s;
    }
  }
}
