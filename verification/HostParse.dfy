/** How the host scripts read the numbers back. */
module HostParse {
  import opened Options
  import opened Text
  import opened Arithmetic
  import opened Printers

  // ----- Python's int -----

  /** int(s, 16) on hexadecimal digits, with or without the prefix. */
  function HexInt(s: string): Option<nat> {
    var digits := if "0x" <= s || "0X" <= s then s[2..] else s;
    if digits == "" then None else Digits(digits, 16)
  }

  /** int(s) on decimal digits. */
  function DecimalInt(s: string): Option<nat> {
    if s == "" then None else Digits(s, 10)
  }

  // ----- parse_num -----

  /** None stands for a ValueError. */
  function ParseNum(num: string): Option<nat> {
    if Occurs("0x", num) then
      if '_' in num then
        var halves := SplitAt(num, '_');
        if |halves| != 2 then None
        else
          var high, low := HexInt(halves[0]), HexInt(halves[1]);
          if high.None? || low.None? then None else Some(high.value * WORD + low.value)
      else HexInt(num)
    else if num == "dnf" then Some(0xffde_adff_ffc0_deff)
    else DecimalInt(num)
  }

  /** The characters of a numeral are digits of its base. */
  lemma {:induction false} NumeralCharacters(v: nat, base: Base)
    ensures forall k :: 0 <= k < |Numeral(v, base, false)| ==> DigitValue(Numeral(v, base, false)[k]) < base
    decreases v
  {
    Division(v, base);
    hide Quot, Rem;
    DigitRoundTrip(Rem(v, base), false);
    if v < base {
      OneDigit(v, base, false);
    } else {
      NumeralUnfolds(v, base, false);
      hide Numeral, DigitValue, DigitChar;
      NumeralCharacters(Quot(v, base), base);
    }
  }

  /** A printed number has no prefix of its own and none of the separators. */
  lemma HexText(v: nat)
    ensures var s := Numeral(v, 16, false);
      s != "" && '_' !in s && ':' !in s && 'x' !in s && HexInt(s) == Some(v) && HexInt("0x" + s) == Some(v)
  {
    var s := Numeral(v, 16, false);
    NumeralCharacters(v, 16);
    NumeralParses(v, 16, false);
    assert DigitValue('_') == 16 && DigitValue(':') == 16 && DigitValue('x') == 16 && DigitValue('X') == 16;
    hide Numeral, DigitValue, Digits;
    assert ("0x" + s)[2..] == s;
    assert "0x"[1] == 'x' && "0X"[1] == 'X';
  }

  lemma FormatCharacter(c: char, fmt: string, args: seq<Arg>)
    requires c != '%' && Matches(fmt, args)
    ensures Matches([c] + fmt, args) && Formatted([c] + fmt, args) == [c] + Formatted(fmt, args)
  {
    assert ([c] + fmt)[1..] == fmt;
  }

  lemma FormatHex(v: U32, fmt: string, args: seq<Arg>)
    requires Matches(fmt, args)
    ensures Matches("%x" + fmt, [Hex(v)] + args)
    ensures Formatted("%x" + fmt, [Hex(v)] + args) == Numeral(v, 16, false) + Formatted(fmt, args)
  {
    assert ("%x" + fmt)[2..] == fmt && ([Hex(v)] + args)[1..] == args;
  }

  lemma FormatPrefixed(v: U32, fmt: string, args: seq<Arg>)
    requires Matches(fmt, args)
    ensures Matches("0x%x" + fmt, [Hex(v)] + args)
    ensures Formatted("0x%x" + fmt, [Hex(v)] + args) == "0x" + Numeral(v, 16, false) + Formatted(fmt, args)
  {
    FormatHex(v, fmt, args);
    FormatCharacter('x', "%x" + fmt, [Hex(v)] + args);
    FormatCharacter('0', ['x'] + ("%x" + fmt), [Hex(v)] + args);
    hide Numeral, Formatted, Matches;
    assert ['0'] + (['x'] + ("%x" + fmt)) == "0x%x" + fmt;
    var n, rest := Numeral(v, 16, false), Formatted(fmt, args);
    assert ['0'] + (['x'] + (n + rest)) == "0x" + n + rest;
  }

  /** What the target prints for a doubleword, as its two halves. */
  lemma HalvesPrinted(high: U32, low: U32)
    ensures Matches("0x%x_%x", [Hex(high), Hex(low)])
    ensures Formatted("0x%x_%x", [Hex(high), Hex(low)])
            == "0x" + Numeral(high, 16, false) + "_" + Numeral(low, 16, false)
  {
    FormatHex(low, "", []);
    FormatCharacter('_', "%x", [Hex(low)]);
    FormatPrefixed(high, "_%x", [Hex(low)]);
    NothingFormatted();
    hide Numeral, Formatted, Matches;
    assert "%x" + "" == "%x" && [Hex(low)] + [] == [Hex(low)] && ['_'] + "%x" == "_%x";
    assert "0x%x" + "_%x" == "0x%x_%x" && [Hex(high)] + [Hex(low)] == [Hex(high), Hex(low)];
    var h, l := Numeral(high, 16, false), Numeral(low, 16, false);
    assert "0x" + h + (['_'] + (l + "")) == "0x" + h + "_" + l;
  }

  lemma NothingFormatted()
    ensures Matches("", []) && Formatted("", []) == ""
  {
  }

  lemma {:induction false} NeedsX(s: string)
    requires 'x' !in s
    ensures !Occurs("0x", s)
    decreases |s|
  {
    if s != "" {
      assert "0x"[1] == 'x' && (|s| >= 2 ==> s[1] in s);
      NeedsX(s[1..]);
    }
  }

  /** Decimal numbers read as themselves, and a run that did not finish as its own number. */
  lemma DecimalParses(v: nat)
    ensures ParseNum(Numeral(v, 10, false)) == Some(v)
    ensures ParseNum("dnf") == Some(0xffde_adff_ffc0_deff)
  {
    var s := Numeral(v, 10, false);
    NumeralCharacters(v, 10);
    NumeralParses(v, 10, false);
    assert DigitValue('x') == 16 && DigitValue('n') == 16;
    hide Numeral, DigitValue, Digits, Occurs;
    NeedsX(s);
    NeedsX("dnf");
    assert "dnf"[1] == 'n';
  }

  /** A doubleword printed as two halves is read back as itself. */
  lemma HalvesParse(high: U32, low: U32)
    ensures Matches("0x%x_%x", [Hex(high), Hex(low)])
    ensures ParseNum(Formatted("0x%x_%x", [Hex(high), Hex(low)])) == Some(high * WORD + low)
  {
    HalvesPrinted(high, low);
    HexText(high);
    HexText(low);
    hide Numeral, Formatted, HexInt, Matches, ParseNum;
    var h, l := "0x" + Numeral(high, 16, false), Numeral(low, 16, false);
    NotInEither('_', "0x", Numeral(high, 16, false));
    TwoHalvesParse(h, l, high, low);
    assert h + ['_'] + l == "0x" + Numeral(high, 16, false) + "_" + Numeral(low, 16, false);
  }

  lemma TwoHalvesParse(h: string, l: string, high: nat, low: nat)
    requires "0x" <= h && '_' !in h && '_' !in l && HexInt(h) == Some(high) && HexInt(l) == Some(low)
    ensures ParseNum(h + ['_'] + l) == Some(high * WORD + low)
  {
    hide HexInt, SplitAt;
    SplitAtOne(h, l, '_');
    var text := h + ['_'] + l;
    assert text[..2] == h[..2];
    assert text[|h|] == '_';
  }

  lemma NotInEither(c: char, s: string, t: string)
    requires c !in s && c !in t
    ensures c !in s + t
  {
  }

  // ----- parse_memdump -----

  /** A number in a field of eight hexadecimal digits. */
  function EightDigits(v: nat): string { Fill('0', 8 - |Numeral(v, 16, false)|) + Numeral(v, 16, false) }

  /** A number in a field of four decimal digits. */
  function FourColumns(v: nat): string { Fill(' ', 4 - |Numeral(v, 10, false)|) + Numeral(v, 10, false) }

  /** One line of a dump, rewritten; None stands for a ValueError or an IndexError. */
  function ParseMemLine(line: string): Option<string> {
    var parts := SplitAt(line, ':');
    if |parts| != 2 then None
    else
      var data := SplitAt(parts[1], '_');
      var word := HexInt(parts[0]);
      if word.None? || |data| < 2 then None
      else
        var high, low := HexInt(data[0]), HexInt(data[1]);
        if high.None? || low.None? then None
        else Some(FourColumns(word.value) + ":0x" + EightDigits(high.value) + EightDigits(low.value))
  }

  function ParseMemLines(dump: seq<string>): Option<seq<string>> {
    if dump == [] then Some([])
    else
      var rest, last := ParseMemLines(dump[..|dump| - 1]), ParseMemLine(dump[|dump| - 1]);
      if rest.None? || last.None? then None else Some(rest.value + [last.value])
  }

  lemma {:induction false} FailingLine(dump: seq<string>, i: nat)
    requires i < |dump| && ParseMemLine(dump[i]).None?
    ensures ParseMemLines(dump).None?
  {
    if i < |dump| - 1 {
      FailingLine(dump[..|dump| - 1], i);
    }
  }

  method ParseMemdump(dump: seq<string>) returns (r: Option<seq<string>>)
    ensures r == ParseMemLines(dump)
  {
    var newDump: seq<string> := [];
    var i := 0;
    while i < |dump|
      invariant 0 <= i <= |dump| && ParseMemLines(dump[..i]) == Some(newDump)
    {
      var line := ParseMemLine(dump[i]);
      if line.None? {
        FailingLine(dump, i);
        return None;
      }
      assert dump[..i + 1][..i] == dump[..i];
      newDump := newDump + [line.value];
      i := i + 1;
    }
    assert dump[..|dump|] == dump;
    r := Some(newDump);
  }

  /** A word fills its field exactly. */
  lemma EightDigitsParse(v: U32)
    ensures |EightDigits(v)| == 8 && Digits(EightDigits(v), 16) == Some(v)
  {
    var s := Numeral(v, 16, false);
    NumeralLength(v, 16, false);
    NumeralParses(v, 16, false);
    NumeralIsOne(v);
    hide Numeral, Digits, Pow, Fill;
    AtMostEight(v, |s|);
    ZerosParse(8 - |s|, 16);
    DigitsConcat(Fill('0', 8 - |s|), s, 16);
  }

  lemma NumeralIsOne(v: U32)
    ensures v == 0 ==> |Numeral(v, 16, false)| == 1
  {
  }

  lemma AtMostEight(v: U32, n: nat)
    requires n > 0 && (v > 0 ==> Pow(16, n - 1) <= v) && (v == 0 ==> n == 1)
    ensures n <= 8
  {
    WordHasEightDigits();
    if n > 8 {
      PowGrows(16, 8, n - 1);
    }
  }

  /** What the target prints for one doubleword of its memory. */
  lemma MemLinePrinted(word: U32, high: U32, low: U32)
    ensures Matches("0x%x:0x%x_0x%x", [Hex(word), Hex(high), Hex(low)])
    ensures Formatted("0x%x:0x%x_0x%x", [Hex(word), Hex(high), Hex(low)])
            == ("0x" + Numeral(word, 16, false)) + [':']
               + (("0x" + Numeral(high, 16, false)) + ['_'] + ("0x" + Numeral(low, 16, false)))
  {
    hide Numeral, Formatted, Matches;
    BothPrinted(high, low);
    FormatCharacter(':', "0x%x_0x%x", [Hex(high), Hex(low)]);
    assert [':'] + "0x%x_0x%x" == ":0x%x_0x%x";
    FormatPrefixed(word, ":0x%x_0x%x", [Hex(high), Hex(low)]);
    assert "0x%x" + ":0x%x_0x%x" == "0x%x:0x%x_0x%x";
    assert [Hex(word)] + [Hex(high), Hex(low)] == [Hex(word), Hex(high), Hex(low)];
    var h, l := "0x" + Numeral(high, 16, false), "0x" + Numeral(low, 16, false);
    Joined("0x" + Numeral(word, 16, false), h, l);
  }

  lemma BothPrinted(high: U32, low: U32)
    ensures Matches("0x%x_0x%x", [Hex(high), Hex(low)])
    ensures Formatted("0x%x_0x%x", [Hex(high), Hex(low)])
            == ("0x" + Numeral(high, 16, false)) + (['_'] + ("0x" + Numeral(low, 16, false)))
  {
    hide Numeral, Formatted, Matches;
    NothingFormatted();
    FormatPrefixed(low, "", []);
    assert "0x%x" + "" == "0x%x" && [Hex(low)] + [] == [Hex(low)];
    FormatCharacter('_', "0x%x", [Hex(low)]);
    assert ['_'] + "0x%x" == "_0x%x";
    FormatPrefixed(high, "_0x%x", [Hex(low)]);
    assert "0x%x" + "_0x%x" == "0x%x_0x%x" && [Hex(high)] + [Hex(low)] == [Hex(high), Hex(low)];
  }

  lemma Joined(w: string, h: string, l: string)
    ensures w + ([':'] + (h + (['_'] + (l + "")))) == w + [':'] + (h + ['_'] + l)
  {
  }

  /** The rewritten line: the word's number in decimal, and the doubleword in sixteen digits. */
  lemma MemLineRewritten(word: U32, high: U32, low: U32)
    ensures Matches("0x%x:0x%x_0x%x", [Hex(word), Hex(high), Hex(low)])
    ensures ParseMemLine(Formatted("0x%x:0x%x_0x%x", [Hex(word), Hex(high), Hex(low)]))
            == Some(FourColumns(word) + ":0x" + EightDigits(high) + EightDigits(low))
  {
    MemLinePrinted(word, high, low);
    HexText(word);
    HexText(high);
    HexText(low);
    hide Numeral, Formatted, Matches, SplitAt, Digits, HexInt, EightDigits, FourColumns;
    var w, h, l := "0x" + Numeral(word, 16, false), "0x" + Numeral(high, 16, false), "0x" + Numeral(low, 16, false);
    SplitAtOne(w, h + ['_'] + l, ':');
    SplitAtOne(h, l, '_');
  }

  lemma {:induction false} NotInFill(c: char, d: char, n: int)
    requires c != d
    ensures c !in Fill(d, n)
  {
    if n > 0 {
      NotInFill(c, d, n - 1);
    }
  }

  /** The column reads back as the number, and has four characters or as many as it needs. */
  lemma FourColumnsRead(v: nat)
    ensures var s, n := FourColumns(v), |Numeral(v, 10, false)|;
      Unpad(s) != "" && Digits(Unpad(s), 10) == Some(v) && |s| == if n < 4 then 4 else n
  {
    var s := Numeral(v, 10, false);
    NumeralParses(v, 10, false);
    DigitsStart(s, 10);
    hide Numeral, Digits, Unpad, Fill;
    UnpadFill(4 - |s|, s);
  }

  lemma FourColumnsText(v: nat)
    ensures ':' !in FourColumns(v)
  {
    var s := Numeral(v, 10, false);
    NotInFill(':', ' ', 4 - |s|);
    NumeralCharacters(v, 10);
    assert DigitValue(':') == 16;
    hide Numeral, Fill, DigitValue;
  }

  lemma EightDigitsText(v: U32)
    ensures ':' !in EightDigits(v) && '_' !in EightDigits(v)
  {
    var s := Numeral(v, 16, false);
    HexText(v);
    hide Numeral, Fill, HexInt;
    NotInFill(':', '0', 8 - |s|);
    NotInFill('_', '0', 8 - |s|);
    NotInEither(':', Fill('0', 8 - |s|), s);
    NotInEither('_', Fill('0', 8 - |s|), s);
  }

  lemma SixteenDigitsParse(h: string, l: string, high: U32, low: U32)
    requires |l| == 8 && Digits(h, 16) == Some(high) && Digits(l, 16) == Some(low)
    requires '_' !in h && '_' !in l && h != ""
    ensures ParseNum("0x" + (h + l)) == Some(high * WORD + low)
  {
    WordHasEightDigits();
    hide Digits, Pow;
    DigitsConcat(h, l, 16);
    NotInEither('_', h, l);
    NotInEither('_', "0x", h + l);
    var num := "0x" + (h + l);
    assert num[..2] == "0x" && num[2..] == h + l;
  }

  /** A doubleword of memory printed by the target, rewritten by parse_memdump and read by
      parse_num is itself. */
  lemma MemLineParses(word: U32, high: U32, low: U32)
    ensures Matches("0x%x:0x%x_0x%x", [Hex(word), Hex(high), Hex(low)])
    ensures var line := ParseMemLine(Formatted("0x%x:0x%x_0x%x", [Hex(word), Hex(high), Hex(low)]));
      && line.Some? && |SplitAt(line.value, ':')| == 2
      && ParseNum(SplitAt(line.value, ':')[1]) == Some(high * WORD + low)
  {
    hide Numeral, Formatted, Matches, SplitAt, Digits, EightDigits, FourColumns, ParseMemLine, ParseNum;
    MemLineRewritten(word, high, low);
    FourColumnsText(word);
    EightDigitsText(high);
    EightDigitsText(low);
    EightDigitsParse(high);
    EightDigitsParse(low);
    var columns, h, l := FourColumns(word), EightDigits(high), EightDigits(low);
    SixteenDigitsParse(h, l, high, low);
    var num := "0x" + (h + l);
    NotInEither(':', h, l);
    NotInEither(':', "0x", h + l);
    SplitAtOne(columns, num, ':');
    assert columns + [':'] + num == columns + ":0x" + h + l;
  }
}
