/** The patch as a rewriting of assembly text, line by line, and what the rewritten
    lines say. */
module PatchText {
  import opened Isa
  import opened LoadPatch
  import opened Text

  datatype Result<T> = Ok(value: T) | ValueError | IndexError

  // ----- instr_patch -----

  predicate IsLoadLine(line: string) {
    "ld" <= line || "lw" <= line || "lh" <= line || "lb" <= line
  }

  function Doubled(line: string): string { line + "\n" + line + "\n" }

  /** The rewriting of one line. */
  function InstrPatch(line: string): Result<string> {
    if !IsLoadLine(line) then Ok(line + "\n")
    else
      var words := Split(line);
      if |words| != 2 then ValueError
      else
        var args := SplitAt(words[1], ',');
        if |args| < 2 then IndexError
        else if Occurs(args[0], args[1]) then
          var moved := words[0] + "\t" + args[0] + ", " + Replace(args[1], args[0], "t6");
          Ok("mv t6, " + args[0] + "\n" + Doubled(moved))
        else Ok(Doubled(line))
  }

  lemma EndingDoubled(head: string, line: string)
    ensures head + line + "\n" + line + "\n" == head + Doubled(line)
  {
  }

  /** The same in the order of the script's assignments. */
  method RewriteLine(line: string) returns (r: Result<string>)
    ensures r == InstrPatch(line)
  {
    hide Replace, Occurs, Split, SplitAt, Doubled;
    var patch, instr := "", line;
    if IsLoadLine(instr) {
      var words := Split(instr);
      if |words| != 2 {
        return ValueError;
      }
      var opcode, args := words[0], SplitAt(words[1], ',');
      if |args| < 2 {
        return IndexError;
      }
      if Occurs(args[0], args[1]) {
        patch := patch + ("mv t6, " + args[0] + "\n");
        assert patch == "mv t6, " + args[0] + "\n";
        args := args[1 := Replace(args[1], args[0], "t6")];
        instr := opcode + "\t" + args[0] + ", " + args[1];
      }
      EndingDoubled(patch, instr);
      assert patch == "" ==> patch + Doubled(instr) == Doubled(instr);
      patch := patch + instr + "\n";
    } else {
      assert patch + instr == instr;
    }
    patch := patch + instr + "\n";
    r := Ok(patch);
  }

  /** All lines of a file, patched and joined; the first line that fails fails the file. */
  function PatchFile(lines: seq<string>): Result<string> {
    if lines == [] then Ok("")
    else
      match InstrPatch(lines[0])
      case ValueError => ValueError
      case IndexError => IndexError
      case Ok(text) =>
        match PatchFile(lines[1..])
        case ValueError => ValueError
        case IndexError => IndexError
        case Ok(rest) => Ok(text + rest)
  }

  // ----- registers and lines -----

  function RegName(r: Reg): string {
    var n := r as int;
    if n == 0 then "zero" else if n == 1 then "ra" else if n == 2 then "sp" else if n == 3 then "gp"
    else if n == 4 then "tp" else if n == 5 then "t0" else if n == 6 then "t1" else if n == 7 then "t2"
    else if n == 8 then "s0" else if n == 9 then "s1" else if n == 10 then "a0" else if n == 11 then "a1"
    else if n == 12 then "a2" else if n == 13 then "a3" else if n == 14 then "a4" else if n == 15 then "a5"
    else if n == 16 then "a6" else if n == 17 then "a7" else if n == 18 then "s2" else if n == 19 then "s3"
    else if n == 20 then "s4" else if n == 21 then "s5" else if n == 22 then "s6" else if n == 23 then "s7"
    else if n == 24 then "s8" else if n == 25 then "s9" else if n == 26 then "s10" else if n == 27 then "s11"
    else if n == 28 then "t3" else if n == 29 then "t4" else if n == 30 then "t5" else "t6"
  }

  function Mnemonic(w: Width, unsigned: bool): string {
    match w
    case Byte1 => if unsigned then "lbu" else "lb"
    case Half2 => if unsigned then "lhu" else "lh"
    case Word4 => if unsigned then "lwu" else "lw"
    case Double8 => "ld"
  }

  /** The address operand of a load. */
  function Operand(offset: string, base: string): string { offset + "(" + base + ")" }

  /** A load as the compiler prints it. */
  function LoadLine(load: Instr, offset: string): string
    requires load.Load?
  {
    Mnemonic(load.w, load.unsigned) + "\t" + RegName(load.rd) + "," + Operand(offset, RegName(load.rs1))
  }

  /** A load as the patch prints it. */
  function MovedLine(load: Instr, offset: string): string
    requires load.Load?
  {
    Mnemonic(load.w, load.unsigned) + "\t" + RegName(load.rd) + ", " + Operand(offset, RegName(load.rs1))
  }

  /** What an assembler reads in a line: blanks may follow the comma. */
  ghost predicate Denotes(line: string, a: Asm, offset: string) {
    a.Plain? &&
    match a.i
    case Load(_, _, _, _, _) => line == LoadLine(a.i, offset) || line == MovedLine(a.i, offset)
    case OpImm(f, rd, rs1, imm) => f.Add? && imm == 0 && line == "mv " + RegName(rd) + ", " + RegName(rs1)
    case _ => false
  }

  // ----- occurrences in an address operand -----

  /** A name: non-empty, no parenthesis. */
  predicate IsName(s: string) { s != "" && '(' !in s && ')' !in s }

  lemma NotPrefixAcross(name: string, offset: string, base: string)
    requires IsName(name) && !(name <= offset)
    ensures !(name <= Operand(offset, base))
  {
    var s := Operand(offset, base);
    assert s[|offset|] == '(';
    assert s[..|offset|] == offset;
  }

  lemma NotPrefixOfBase(name: string, base: string)
    requires IsName(name) && !(name <= base)
    ensures !(name <= base + ")")
  {
    assert (base + ")")[|base|] == ')';
    assert (base + ")")[..|base|] == base;
  }

  /** In a base register followed by the closing parenthesis. */
  lemma {:induction false} OccursInBase(name: string, base: string)
    requires IsName(name)
    ensures Occurs(name, base + ")") == Occurs(name, base)
  {
    if name <= base {
      assert name <= base + ")";
    } else {
      NotPrefixOfBase(name, base);
      if base == "" {
        assert (base + ")")[1..] == "";
      } else {
        assert (base + ")")[1..] == base[1..] + ")";
        OccursInBase(name, base[1..]);
      }
    }
  }

  /** A destination occurs in the operand iff it occurs in the offset or in the base. */
  lemma {:induction false} OccursInOperand(name: string, offset: string, base: string)
    requires IsName(name)
    ensures Occurs(name, Operand(offset, base)) <==> Occurs(name, offset) || Occurs(name, base)
    decreases |offset|
  {
    OperandParts(offset, base);
    if name <= offset {
      assert name <= Operand(offset, base) by { assert Operand(offset, base)[..|offset|] == offset; }
    } else {
      NotPrefixAcross(name, offset, base);
      if offset == "" {
        OccursInBase(name, base);
      } else {
        OccursInOperand(name, offset[1..], base);
      }
    }
  }

  lemma OperandParts(offset: string, base: string)
    ensures var s := Operand(offset, base);
      && s != "" && s[1..] == (if offset == "" then base + ")" else Operand(offset[1..], base))
      && s == [s[0]] + s[1..] && s[0] == (if offset == "" then '(' else offset[0])
  {
  }

  /** Up to the base register, an offset that does not name the register stays as it is. */
  lemma {:induction false} ReplaceInBase(name: string, offset: string, base: string, base': string, put: string)
    requires IsName(name) && !Occurs(name, offset) && Replace(base + ")", name, put) == base' + ")"
    ensures Replace(Operand(offset, base), name, put) == Operand(offset, base')
    decreases |offset|
  {
    NotPrefixAcross(name, offset, base);
    OperandParts(offset, base);
    OperandParts(offset, base');
    ReplaceSkips(Operand(offset, base), name, put);
    if offset != "" {
      ReplaceInBase(name, offset[1..], base, base', put);
    }
    hide Replace, Operand, Occurs, IsName;
  }

  /** Replacing the base register itself. */
  lemma ReplaceBase(name: string, offset: string, put: string)
    requires IsName(name) && !Occurs(name, offset)
    ensures Replace(Operand(offset, name), name, put) == Operand(offset, put)
  {
    ReplaceHere(name, ")", put);
    TooShortOr(name, ")");
    ReplaceNothing(name, ")", put);
    hide Replace, Operand, Occurs;
    ReplaceInBase(name, offset, name, put, put);
  }

  lemma TooShortOr(name: string, s: string)
    requires name != "" && |s| == 1 && name != s
    ensures !Occurs(name, s)
  {
    assert s[1..] == "";
  }

  /** Replacing a proper part of the base register leaves the rest of its name behind. */
  lemma ReplacePart(name: string, rest: string, offset: string, put: string)
    requires IsName(name) && !Occurs(name, offset) && |rest| == 1 && |name| > 1
    ensures Replace(Operand(offset, name + rest), name, put) == Operand(offset, put + rest)
  {
    TooShort(name, rest);
    OccursInBase(name, rest);
    ReplaceNothing(name, rest + ")", put);
    ReplaceHere(name, rest + ")", put);
    hide Replace, Operand, Occurs;
    assert name + (rest + ")") == name + rest + ")" && put + (rest + ")") == put + rest + ")";
    ReplaceInBase(name, offset, name + rest, put + rest, put);
  }

  // ----- register names -----

  /** The register a name belongs to. */
  function RegOf(s: string): int
    requires |s| >= 2
  {
    var d := s[1] as int - '0' as int;
    if s[0] == 'z' then 0
    else if s[0] == 'r' then 1
    else if s[0] == 'g' then 3
    else if s[1] == 'p' then if s[0] == 's' then 2 else 4
    else if s[0] == 'a' then 10 + d
    else if s[0] == 't' then if d <= 2 then 5 + d else 25 + d
    else if |s| == 3 then 26 + (s[2] as int - '0' as int)
    else if d <= 1 then 8 + d else 16 + d
  }

  lemma NameShape(r: Reg)
    ensures var s := RegName(r);
      && 2 <= |s| <= 4 && RegOf(s) == r as int
      && (|s| == 4 <==> r == 0) && (|s| == 3 <==> r == 26 || r == 27)
  {
  }

  /** Names consist of letters and digits and start with a letter. */
  lemma NameCharacters(r: Reg)
    ensures var s := RegName(r); IsName(s) && NoBlank(s) && ',' !in s && 'a' <= s[0] <= 'z'
  {
    NameLetters(r);
    LetterOrDigit(RegName(r));
    hide RegName;
  }

  lemma NameLetters(r: Reg)
    ensures var s := RegName(r);
      s != "" && 'a' <= s[0] <= 'z' && forall k :: 0 <= k < |s| ==> '0' <= s[k] <= 'z'
  {
    NameShape(r);
    hide IsName, NoBlank, RegOf;
  }

  lemma LetterOrDigit(s: string)
    requires s != "" && forall k :: 0 <= k < |s| ==> '0' <= s[k] <= 'z'
    ensures IsName(s) && NoBlank(s) && ',' !in s
  {
  }

  lemma NamesDiffer(r: Reg, q: Reg)
    ensures RegName(r) == RegName(q) <==> r == q
  {
    NameShape(r);
    NameShape(q);
  }

  /** The destination's name is a proper part of the base's name. */
  predicate ProperPart(load: Instr)
    requires load.Load?
  {
    load.rd != load.rs1 && Occurs(RegName(load.rd), RegName(load.rs1))
  }

  /** A name is no part of the digits after the first letter. */
  lemma NotInDigits(r: Reg, digits: string)
    requires forall k :: 0 <= k < |digits| ==> !('a' <= digits[k] <= 'z')
    ensures !Occurs(RegName(r), digits)
    decreases |digits|
  {
    NameCharacters(r);
    assert digits != "" ==> digits[0] != RegName(r)[0];
    if digits != "" {
      NotInDigits(r, digits[1..]);
    }
  }

  lemma NotInZero(r: Reg)
    requires r != 0
    ensures !Occurs(RegName(r), "zero")
  {
    var name, s := RegName(r), "zero";
    NameShape(r);
    var s1 := s[1..];
    var s2 := s1[1..];
    var s3 := s2[1..];
    TooShort(name, s3);
    assert s2 == "ro" && !(name <= s2);
    assert !Occurs(name, s2);
    assert s1 == "ero" && !(name <= s1);
    assert !Occurs(name, s1);
    assert !(name <= s);
  }

  /** That happens only to s1 in s10 and s11. */
  lemma OnlyS1(load: Instr)
    requires load.Load?
    ensures ProperPart(load) <==> load.rd == 9 && (load.rs1 == 26 || load.rs1 == 27)
  {
    var name, base := RegName(load.rd), RegName(load.rs1);
    NameShape(load.rd);
    NameShape(load.rs1);
    NamesDiffer(load.rd, load.rs1);
    if load.rs1 == 0 {
      if load.rd != 0 { NotInZero(load.rd); }
    } else {
      if |base| == 3 { NotInDigits(load.rd, base[1..]); } else { TooShort(name, base[1..]); }
      assert Occurs(name, base) <==> name <= base;
      assert name <= base && name != base ==> |base| == 3 && name == "s1";
      if |base| == 3 {
        assert base[..2] == "s1";
        NamesDiffer(load.rd, 9);
      }
    }
  }

  // ----- the rewritten text -----

  /** The lines the patch puts in place of a load. */
  function PatchedLines(load: Instr, offset: string): seq<string>
    requires load.Load?
  {
    if load.rd == load.rs1 then
      var moved := MovedLine(Moved(load), offset);
      ["mv t6, " + RegName(load.rd), moved, moved]
    else [LoadLine(load, offset), LoadLine(load, offset)]
  }

  function Lines(lines: seq<string>): string {
    if lines == [] then "" else lines[0] + "\n" + Lines(lines[1..])
  }

  /** An offset without blanks and commas, as compilers print them. */
  predicate Printable(offset: string) { NoBlank(offset) && ',' !in offset }

  /** A printable offset that does not name the destination. */
  predicate CleanOffset(load: Instr, offset: string)
    requires load.Load?
  {
    Printable(offset) && !Occurs(RegName(load.rd), offset)
  }

  /** Numeric offsets are clean. */
  lemma NumericOffsetIsClean(load: Instr, offset: string)
    requires load.Load?
    requires forall k :: 0 <= k < |offset| ==> '0' <= offset[k] <= '9' || offset[k] == '-'
    ensures CleanOffset(load, offset)
  {
    NotInDigits(load.rd, offset);
  }

  lemma OperandCharacters(load: Instr, offset: string)
    requires load.Load? && Printable(offset)
    ensures var operand := Operand(offset, RegName(load.rs1)); NoBlank(operand) && ',' !in operand && operand != ""
    ensures NoBlank(RegName(load.rd) + "," + Operand(offset, RegName(load.rs1)))
  {
    hide RegName;
    NameCharacters(load.rd);
    NameCharacters(load.rs1);
  }

  lemma MnemonicIsLoad(w: Width, unsigned: bool)
    ensures var op := Mnemonic(w, unsigned); op != "" && NoBlank(op) && IsLoadLine(op)
  {
  }

  lemma LoadLineSplits(load: Instr, offset: string)
    requires load.Load? && Printable(offset)
    ensures var operand := Operand(offset, RegName(load.rs1));
      && IsLoadLine(LoadLine(load, offset))
      && Split(LoadLine(load, offset)) == [Mnemonic(load.w, load.unsigned), RegName(load.rd) + "," + operand]
      && SplitAt(RegName(load.rd) + "," + operand, ',') == [RegName(load.rd), operand]
  {
    hide RegName, Mnemonic, Operand, Split, SplitAt, NoBlank;
    var op, name, operand := Mnemonic(load.w, load.unsigned), RegName(load.rd), Operand(offset, RegName(load.rs1));
    NameCharacters(load.rd);
    OperandCharacters(load, offset);
    MnemonicIsLoad(load.w, load.unsigned);
    var args := name + "," + operand;
    assert LoadLine(load, offset) == op + "\t" + args;
    SplitsInTwo(op, args);
    SplitAtOne(name, operand, ',');
    assert name + [','] + operand == args;
  }

  lemma LinesOfTwo(line: string)
    ensures Lines([line, line]) == Doubled(line)
  {
    assert [line, line][1..] == [line] && [line][1..] == [];
    assert Lines([line]) == line + "\n" + "";
    assert Lines([line, line]) == line + "\n" + Lines([line]);
  }

  lemma LinesOfThree(first: string, line: string)
    ensures Lines([first, line, line]) == first + "\n" + Doubled(line)
  {
    assert [first, line, line][1..] == [line, line];
    LinesOfTwo(line);
  }

  /** What the patch prints for a load, in terms of its operand. */
  lemma PatchOfLoad(load: Instr, offset: string)
    requires load.Load? && Printable(offset)
    ensures var op, name, operand := Mnemonic(load.w, load.unsigned), RegName(load.rd), Operand(offset, RegName(load.rs1));
      InstrPatch(LoadLine(load, offset)) ==
        if Occurs(name, offset) || Occurs(name, RegName(load.rs1))
        then Ok("mv t6, " + name + "\n" + Doubled(op + "\t" + name + ", " + Replace(operand, name, "t6")))
        else Ok(Doubled(LoadLine(load, offset)))
  {
    hide RegName, Mnemonic, Operand, Split, SplitAt, NoBlank, LoadLine, IsLoadLine, Doubled, Replace, Occurs, IsName;
    LoadLineSplits(load, offset);
    NameCharacters(load.rd);
    OccursInOperand(RegName(load.rd), offset, RegName(load.rs1));
  }

  /** The destination's name is not mistaken: it is no proper part of the base's name, and
      does not occur in the offset, unless t6 is loaded over itself. */
  predicate NoCollision(load: Instr, offset: string)
    requires load.Load?
  {
    !ProperPart(load) && (Occurs(RegName(load.rd), offset) ==> load.rd == load.rs1 == T6)
  }

  /** Where the names do not collide, the patch prints its lines ... */
  lemma PatchPrints(load: Instr, offset: string)
    requires load.Load? && Printable(offset) && NoCollision(load, offset)
    ensures InstrPatch(LoadLine(load, offset)) == Ok(Lines(PatchedLines(load, offset)))
  {
    hide RegName, Mnemonic, Operand, Replace, Occurs, Doubled, InstrPatch, Lines, IsName, LoadLine;
    var name := RegName(load.rd);
    PatchOfLoad(load, offset);
    if load.rd == load.rs1 {
      NameCharacters(load.rd);
      T6Name();
      if Occurs(name, offset) {
        ReplaceItself(Operand(offset, name), name);
      } else {
        ReplaceBase(name, offset, "t6");
      }
      OccursInItself(name);
      LinesOfThree("mv t6, " + name, MovedLine(Moved(load), offset));
    } else {
      LinesOfTwo(LoadLine(load, offset));
    }
  }

  lemma T6Name()
    ensures RegName(T6) == "t6"
  {
  }

  /** ... and they say exactly what the instruction-level patch says. */
  lemma PatchedLinesDenote(load: Instr, offset: string)
    requires load.Load?
    ensures var patch := PatchOne(Plain(load));
      && |PatchedLines(load, offset)| == |patch|
      && forall k :: 0 <= k < |patch| ==> Denotes(PatchedLines(load, offset)[k], patch[k], offset)
  {
    hide RegName, LoadLine, MovedLine, Denotes;
    SaveDenotes(load, offset);
    LoadDenotes(load, offset);
    LoadDenotes(Moved(load), offset);
  }

  lemma SaveDenotes(load: Instr, offset: string)
    requires load.Load?
    ensures Denotes("mv t6, " + RegName(load.rd), Plain(OpImm(Add, T6, load.rd, 0)), offset)
  {
    T6Name();
    hide RegName;
    assert "mv " + "t6" + ", " == "mv t6, ";
  }

  lemma LoadDenotes(load: Instr, offset: string)
    requires load.Load?
    ensures Denotes(LoadLine(load, offset), Plain(load), offset) && Denotes(MovedLine(load, offset), Plain(load), offset)
  {
    hide RegName, LoadLine, MovedLine;
  }

  /** Where they collide (s1 against s10 and s11), the patch names a register that does
      not exist: t60 or t61. */
  lemma CollidingPatchPrints(load: Instr, offset: string)
    requires load.Load? && CleanOffset(load, offset) && ProperPart(load)
    ensures var base := if load.rs1 == 26 then "t60" else "t61";
      && InstrPatch(LoadLine(load, offset))
         == Ok("mv t6, s1\n" + Doubled(Mnemonic(load.w, load.unsigned) + "\ts1, " + Operand(offset, base)))
      && forall r: Reg :: RegName(r) != base
  {
    hide Mnemonic, Operand, Replace, Occurs, Doubled, InstrPatch, IsName, LoadLine, RegName;
    OnlyS1(load);
    S1Names();
    PatchOfLoad(load, offset);
    NameCharacters(load.rd);
    var rest := if load.rs1 == 26 then "0" else "1";
    ReplacePart("s1", rest, offset, "t6");
    assert "t6" + rest == if load.rs1 == 26 then "t60" else "t61";
    var op := Mnemonic(load.w, load.unsigned);
    assert "mv t6, " + "s1" + "\n" == "mv t6, s1\n";
    assert "\t" + "s1" + ", " == "\ts1, ";
    assert op + "\t" + "s1" + ", " == op + "\ts1, ";
  }

  lemma S1Names()
    ensures RegName(9) == "s1" && RegName(26) == "s1" + "0" && RegName(27) == "s1" + "1"
    ensures forall r: Reg :: RegName(r) != "t60" && RegName(r) != "t61"
  {
    forall r: Reg ensures RegName(r) != "t60" && RegName(r) != "t61" {
      NameShape(r);
    }
  }

  // ----- exactly which loads and files are patched as meant -----

  /** The text is lines that say what the instruction-level patch says. */
  ghost predicate Says(text: string, load: Instr, offset: string, lines: seq<string>)
    requires load.Load?
  {
    var patch := PatchOne(Plain(load));
    && text == Lines(lines) && |lines| == |patch|
    && forall k :: 0 <= k < |patch| ==> Denotes(lines[k], patch[k], offset)
  }

  /** A load is patched as meant if and only if its destination's name is not mistaken. */
  lemma PatchedIffNoCollision(load: Instr, offset: string)
    requires load.Load? && Printable(offset)
    ensures (exists text, lines :: InstrPatch(LoadLine(load, offset)) == Ok(text) && Says(text, load, offset, lines))
            <==> NoCollision(load, offset)
  {
    hide InstrPatch, LoadLine, RegName, Lines, Doubled, Printable, Denotes, Occurs;
    if NoCollision(load, offset) {
      PatchPrints(load, offset);
      PatchedLinesDenote(load, offset);
      assert Says(Lines(PatchedLines(load, offset)), load, offset, PatchedLines(load, offset));
    } else {
      forall text, lines | InstrPatch(LoadLine(load, offset)) == Ok(text) && Says(text, load, offset, lines)
        ensures false
      {
        CollisionNotMeant(load, offset, text, lines);
      }
    }
  }

  /** Where the name is mistaken, the text printed says something else. */
  lemma CollisionNotMeant(load: Instr, offset: string, text: string, lines: seq<string>)
    requires load.Load? && Printable(offset) && !NoCollision(load, offset)
    requires InstrPatch(LoadLine(load, offset)) == Ok(text)
    ensures !Says(text, load, offset, lines)
  {
    hide InstrPatch, LoadLine, RegName, Lines, Doubled, Printable, Denotes, Occurs, Mnemonic, Operand, Replace;
    var op, name := Mnemonic(load.w, load.unsigned), RegName(load.rd);
    PatchOfLoad(load, offset);
    if load.rd != load.rs1 {
      if |lines| == 2 && Denotes(lines[0], Plain(load), offset) {
        FirstCharacter(load, offset, lines);
      }
    } else if |lines| == 3 && Denotes(lines[0], PatchOne(Plain(load))[0], offset)
              && Denotes(lines[1], PatchOne(Plain(load))[1], offset) {
      MovedNotMeant(load, offset, lines);
    }
  }

  /** The case of a load over its own base, whose offset contains its name: the text
      departs from the lines meant where the offset is rewritten. */
  lemma MovedNotMeant(load: Instr, offset: string, lines: seq<string>)
    requires load.Load? && load.rd == load.rs1 && load.rd != T6 && Occurs(RegName(load.rd), offset)
    requires Printable(offset) && |lines| == 3
    requires Denotes(lines[0], Plain(OpImm(Add, T6, load.rd, 0)), offset) && Denotes(lines[1], Plain(Moved(load)), offset)
    ensures var op, name := Mnemonic(load.w, load.unsigned), RegName(load.rd);
      var operand := Operand(offset, name);
      Lines(lines) != "mv t6, " + name + "\n" + Doubled(op + "\t" + name + ", " + Replace(operand, name, "t6"))
  {
    var op, name := Mnemonic(load.w, load.unsigned), RegName(load.rd);
    NameCharacters(load.rd);
    NameStart(load.rd);
    T6Name();
    SaveLine(load.rd, lines[0], offset);
    var q := RewritingDeparts(name, offset, name);
    OperandStart(offset);
    hide RegName, Replace, Occurs, Mnemonic, Operand, NoBlank, Lines, Doubled, Denotes, Printable;
    MovedTexts(load, offset, lines, "mv t6, " + name + "\n", Replace(Operand(offset, name), name, "t6"), q);
  }

  lemma MovedTexts(load: Instr, offset: string, lines: seq<string>, head: string, found: string, q: nat)
    requires load.Load? && load.rd == load.rs1 && |lines| == 3 && head == lines[0] + "\n"
    requires Denotes(lines[1], Plain(Moved(load)), offset)
    requires var meant := Operand(offset, "t6");
      q < |found| && q < |meant| && found[q] != meant[q] && meant[0] != ' '
    ensures Lines(lines) != head + Doubled(Mnemonic(load.w, load.unsigned) + "\t" + RegName(load.rd) + ", " + found)
  {
    hide RegName, Mnemonic, Operand, Lines, Doubled, Denotes;
    var op, name, meant := Mnemonic(load.w, load.unsigned), RegName(load.rd), Operand(offset, "t6");
    LinesUnfold(lines);
    var args, rest, line := op + "\t" + name + ",", "\n" + Lines(lines[1..][1..]), op + "\t" + name + ", " + found;
    TextsDiffer(head, args, meant, found, rest, "\n" + line + "\n", q);
    PrintedText(head, op, name, found);
    MeantText(load, offset, lines[1], head, rest);
    assert lines[1] + rest == lines[1] + "\n" + Lines(lines[1..][1..]);
  }

  lemma PrintedText(head: string, op: string, name: string, found: string)
    ensures var line := op + "\t" + name + ", " + found;
      head + Doubled(line) == head + (op + "\t" + name + "," + (" " + found + ("\n" + line + "\n")))
  {
    assert "," + " " == ", ";
  }

  lemma MeantText(load: Instr, offset: string, line: string, head: string, rest: string)
    requires load.Load? && load.rd == load.rs1 && Denotes(line, Plain(Moved(load)), offset)
    ensures var args, meant := Mnemonic(load.w, load.unsigned) + "\t" + RegName(load.rd) + ",", Operand(offset, "t6");
      head + (line + rest) == head + (args + (meant + rest)) || head + (line + rest) == head + (args + (" " + meant + rest))
  {
    T6Name();
    hide RegName, Mnemonic, Operand;
    assert "," + " " == ", ";
    var name, op, meant := RegName(load.rd), Mnemonic(load.w, load.unsigned), Operand(offset, "t6");
    if line == LoadLine(Moved(load), offset) {
      assert line + rest == op + "\t" + name + "," + (meant + rest);
    } else {
      assert line + rest == op + "\t" + name + "," + (" " + meant + rest);
    }
  }

  lemma TextsDiffer(head: string, args: string, meant: string, found: string, rest: string, rest': string, q: nat)
    requires q < |found| && q < |meant| && found[q] != meant[q] && meant[0] != ' '
    ensures head + (args + (meant + rest)) != head + (args + (" " + found + rest'))
    ensures head + (args + (" " + meant + rest)) != head + (args + (" " + found + rest'))
  {
    var printed := " " + found + rest';
    DifferAt(args, meant + rest, printed, 0);
    DifferAt(args, " " + meant + rest, printed, 1 + q);
    Cancels(head, args + (meant + rest), args + printed);
    Cancels(head, args + (" " + meant + rest), args + printed);
  }

  lemma Cancels(head: string, x: string, y: string)
    requires x != y
    ensures head + x != head + y
  {
    assert (head + x)[|head|..] == x && (head + y)[|head|..] == y;
  }

  lemma DifferAt(head: string, x: string, y: string, k: nat)
    requires k < |x| && k < |y| && x[k] != y[k]
    ensures head + x != head + y
  {
    assert (head + x)[|head| + k] == x[k] && (head + y)[|head| + k] == y[k];
  }

  lemma LinesUnfold(lines: seq<string>)
    requires |lines| == 3
    ensures Lines(lines) == lines[0] + "\n" + (lines[1] + "\n" + Lines(lines[1..][1..]))
  {
    assert lines[1..][0] == lines[1];
  }

  lemma SaveLine(rd: Reg, line: string, offset: string)
    requires Denotes(line, Plain(OpImm(Add, T6, rd, 0)), offset)
    ensures line == "mv t6, " + RegName(rd)
  {
    T6Name();
    hide RegName;
    assert "mv " + "t6" + ", " == "mv t6, ";
  }

  /** Names differ from t6 within their first two letters. */
  lemma NameStart(r: Reg)
    ensures |RegName(r)| >= 2 && (RegName(r)[..2] == "t6" ==> r == T6)
  {
    assert RegName(r)[..2] == [RegName(r)[0], RegName(r)[1]];
  }

  lemma OperandStart(offset: string)
    requires NoBlank(offset)
    ensures var s := Operand(offset, "t6"); s != "" && s[0] != ' '
  {
  }

  lemma PrefixOfOperand(name: string, offset: string, base: string)
    requires name <= offset
    ensures Operand(offset, base) == name + (offset[|name|..] + "(" + base + ")")
  {
    assert name + offset[|name|..] == offset;
  }

  lemma OccursUnfolds(part: string, s: string)
    ensures Occurs(part, s) <==> part <= s || (s != "" && Occurs(part, s[1..]))
    ensures IsName(part) ==> part != ""
  {
  }

  /** A name put in place of another shows within its first two letters. */
  lemma NameDeparts(name: string, put: string, rest: string, meant: string) returns (q: nat)
    requires |name| >= 2 && |put| == 2 && name[..2] != put && name <= meant
    ensures q < |put + rest| && q < |meant| && (put + rest)[q] != meant[q]
  {
    q := if name[0] != put[0] then 0 else 1;
    assert name[..2] == [name[0], name[1]] && put == [put[0], put[1]];
  }

  /** Where an offset contains the name, replacing rewrites the offset itself. */
  lemma {:induction false} RewritingDeparts(name: string, offset: string, base: string) returns (q: nat)
    requires IsName(name) && Occurs(name, offset) && |name| >= 2 && name[..2] != "t6"
    ensures var found, meant := Replace(Operand(offset, base), name, "t6"), Operand(offset, "t6");
      q < |found| && q < |meant| && found[q] != meant[q]
    decreases |offset|
  {
    hide Replace, Operand, IsName, Occurs;
    OperandParts(offset, base);
    OperandParts(offset, "t6");
    OccursUnfolds(name, offset);
    if name <= offset {
      var after := offset[|name|..] + "(" + base + ")";
      PrefixOfOperand(name, offset, base);
      PrefixOfOperand(name, offset, "t6");
      ReplaceHere(name, after, "t6");
      q := NameDeparts(name, "t6", Replace(after, name, "t6"), Operand(offset, "t6"));
    } else {
      NotPrefixAcross(name, offset, base);
      ReplaceSkips(Operand(offset, base), name, "t6");
      q := RewritingDeparts(name, offset[1..], base);
      q := q + 1;
    }
  }

  /** A symbolic address under the medlow code model whose symbol contains the
      destination's name: the patch saves the destination and renames the symbol. */
  lemma SymbolRenamed(load: Instr, pre: string, post: string)
    requires load.Load? && load.rd != load.rs1 && Printable(pre + RegName(load.rd) + post)
    requires RegName(load.rd)[0] !in pre && !Occurs(RegName(load.rd), post) && !Occurs(RegName(load.rd), RegName(load.rs1))
    ensures var op, name := Mnemonic(load.w, load.unsigned), RegName(load.rd);
      && InstrPatch(LoadLine(load, pre + name + post))
         == Ok("mv t6, " + name + "\n" + Doubled(op + "\t" + name + ", " + Operand(pre + "t6" + post, RegName(load.rs1))))
      && !NoCollision(load, pre + name + post)
  {
    hide RegName, Occurs, InstrPatch, Mnemonic, Doubled, LoadLine, Operand, Replace, Printable, ProperPart;
    var name, base := RegName(load.rd), RegName(load.rs1);
    NameCharacters(load.rd);
    OccursWithin(name, pre, post);
    PatchOfLoad(load, pre + name + post);
    OccursInOperand(name, post, base);
    ReplaceInSymbol(name, pre, Operand(post, base), "t6");
    SymbolOperand(pre, name, post, base);
    SymbolOperand(pre, "t6", post, base);
  }

  lemma SymbolOperand(pre: string, name: string, post: string, base: string)
    ensures Operand(pre + name + post, base) == pre + (name + Operand(post, base))
  {
  }

  lemma OccursWithin(name: string, pre: string, post: string)
    ensures Occurs(name, pre + name + post)
  {
    var s := pre + name + post;
    assert s[|pre|..] == name + post;
    OccursLater(name, s, |pre|);
  }

  lemma {:induction false} ReplaceInSymbol(name: string, pre: string, after: string, put: string)
    requires name != "" && name[0] !in pre && !Occurs(name, after)
    ensures Replace(pre + (name + after), name, put) == pre + (put + after)
    decreases |pre|
  {
    var s := pre + (name + after);
    if pre == "" {
      assert s == name + after && pre + (put + after) == put + after;
      ReplaceHere(name, after, put);
      ReplaceNothing(name, after, put);
    } else {
      assert s[0] == pre[0] && s[1..] == pre[1..] + (name + after);
      ReplaceSkips(s, name, put);
      ReplaceInSymbol(name, pre[1..], after, put);
      assert [pre[0]] + (pre[1..] + (put + after)) == pre + (put + after);
    }
  }

  /** For instance lw a1,%lo(buf_a1)(a5), which becomes a load from another symbol. */
  lemma SymbolIsRenamed(load: Instr, pre: string, post: string)
    requires load == Load(Word4, false, 11, 15, 0) && pre == "%lo(buf_" && post == ")"
    ensures InstrPatch(LoadLine(load, pre + "a1" + post))
            == Ok("mv t6, " + "a1" + "\n" + Doubled("lw" + "\t" + "a1" + ", " + Operand(pre + "t6" + post, "a5")))
    ensures !ProperPart(load) && !NoCollision(load, pre + "a1" + post)
  {
    OnlyS1(load);
    TooShort("a1", ")");
    hide Occurs, Operand, InstrPatch, LoadLine, Doubled, NoCollision;
    SymbolRenamed(load, pre, post);
  }

  lemma {:induction false} OccursLater(part: string, s: string, n: nat)
    requires n <= |s| && part <= s[n..]
    ensures Occurs(part, s)
    decreases n
  {
    if n == 0 {
      assert s[0..] == s;
    } else {
      assert s[1..][n - 1..] == s[n..];
      OccursLater(part, s[1..], n - 1);
    }
  }

  lemma FirstCharacter(load: Instr, offset: string, lines: seq<string>)
    requires load.Load? && load.rd != load.rs1 && |lines| == 2 && Denotes(lines[0], Plain(load), offset)
    ensures Lines(lines) != "" && Lines(lines)[0] == 'l'
  {
    hide RegName;
  }

  /** The first two characters are not those of any load. */
  ghost predicate NoLoad(text: string) {
    forall w, unsigned | |Mnemonic(w, unsigned)| >= 2 :: !(Mnemonic(w, unsigned)[..2] <= text)
  }

  /** A line stays as it is if and only if it does not start like a load. */
  lemma KeptIff(text: string)
    ensures InstrPatch(text) == Ok(text + "\n") <==> NoLoad(text)
  {
    LoadStarts(text);
    hide IsLoadLine, Mnemonic, Split, SplitAt, Occurs, Replace, Doubled;
    if IsLoadLine(text) {
      StartsWithL(text);
      DoubledIsLonger(text);
      var words := Split(text);
      if |words| == 2 && |SplitAt(words[1], ',')| >= 2 {
        var args := SplitAt(words[1], ',');
        var moved := words[0] + "\t" + args[0] + ", " + Replace(args[1], args[0], "t6");
        assert ("mv t6, " + args[0] + "\n" + Doubled(moved))[0] == 'm' && (text + "\n")[0] == 'l';
      }
    }
  }

  lemma LoadStarts(text: string)
    ensures IsLoadLine(text) <==> !NoLoad(text)
  {
    var b, h, w, d := Mnemonic(Byte1, false), Mnemonic(Half2, false), Mnemonic(Word4, false), Mnemonic(Double8, false);
    assert b[..2] == "lb" && h[..2] == "lh" && w[..2] == "lw" && d[..2] == "ld";
    forall v, unsigned | |Mnemonic(v, unsigned)| >= 2 && Mnemonic(v, unsigned)[..2] <= text ensures IsLoadLine(text) {
      var m := Mnemonic(v, unsigned);
      assert m[..2] == [m[0], m[1]];
    }
  }

  lemma StartsWithL(text: string)
    requires IsLoadLine(text)
    ensures text != "" && text[0] == 'l'
  {
  }

  lemma DoubledIsLonger(text: string)
    ensures |Doubled(text)| > |text + "\n"|
  {
  }

  /** A line of a compiler's output: a load, or a line the patch leaves alone. */
  datatype Source = LoadSource(load: Instr, offset: string) | Other(text: string)

  ghost predicate Rewritable(l: Source) {
    match l
    case LoadSource(load, offset) => load.Load? && Printable(offset) && NoCollision(load, offset)
    case Other(text) => NoLoad(text)
  }

  function LineOf(l: Source): string
    requires Rewritable(l)
  {
    match l
    case LoadSource(load, offset) => LoadLine(load, offset)
    case Other(text) => text
  }

  function FileOf(file: seq<Source>): seq<string>
    requires forall l <- file :: Rewritable(l)
  {
    if file == [] then [] else [LineOf(file[0])] + FileOf(file[1..])
  }

  /** Every load in place replaced by its patch; all other lines kept, in order. */
  function PatchedFile(file: seq<Source>): seq<string>
    requires forall l <- file :: Rewritable(l)
  {
    if file == [] then []
    else
      assert Rewritable(file[0]);
      (if file[0].Other? then [file[0].text] else PatchedLines(file[0].load, file[0].offset)) + PatchedFile(file[1..])
  }

  lemma {:induction false} LinesConcat(a: seq<string>, b: seq<string>)
    ensures Lines(a + b) == Lines(a) + Lines(b)
  {
    if a == [] {
      assert a + b == b;
    } else {
      assert (a + b)[1..] == a[1..] + b;
      LinesConcat(a[1..], b);
    }
  }

  /** A file is patched if and only if every line is; otherwise the first line that fails
      says how. */
  lemma {:induction false} FilePatchedIff(lines: seq<string>)
    ensures PatchFile(lines).Ok? <==> forall k :: 0 <= k < |lines| ==> InstrPatch(lines[k]).Ok?
    ensures forall k :: 0 <= k < |lines| && !InstrPatch(lines[k]).Ok? && (forall j :: 0 <= j < k ==> InstrPatch(lines[j]).Ok?)
                        ==> PatchFile(lines) == InstrPatch(lines[k])
  {
    hide InstrPatch;
    if lines != [] {
      FilePatchedIff(lines[1..]);
      assert forall k :: 0 < k < |lines| ==> lines[k] == lines[1..][k - 1];
      assert forall k :: 0 <= k < |lines| - 1 ==> lines[1..][k] == lines[k + 1];
    }
  }

  /** The patched file is the original with every load, and nothing else, replaced by
      its patch. */
  lemma {:induction false} FilePatchPrints(file: seq<Source>)
    requires forall l <- file :: Rewritable(l)
    ensures PatchFile(FileOf(file)) == Ok(Lines(PatchedFile(file)))
  {
    hide RegName, LoadLine, InstrPatch, NoLoad, Printable, NoCollision, PatchedLines;
    if file != [] {
      FilePatchPrints(file[1..]);
      assert FileOf(file)[1..] == FileOf(file[1..]);
      var l := file[0];
      if l.LoadSource? {
        assert Rewritable(l);
        PatchPrints(l.load, l.offset);
        LinesConcat(PatchedLines(l.load, l.offset), PatchedFile(file[1..]));
      } else {
        assert Rewritable(l) && Lines([l.text]) == l.text + "\n";
        KeptIff(l.text);
        LinesConcat([l.text], PatchedFile(file[1..]));
      }
    }
  }
}
