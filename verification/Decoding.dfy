/** Decoding inverts encoding: every field and every immediate comes back. */
module Decoding {
  import opened Words
  import opened Isa
  import opened Rtl

  lemma RTypeFields(funct7: bv7, rs2: bv5, rs1: bv5, funct3: bv3, rd: bv5, opcode: bv7)
    ensures var w := RType(funct7, rs2, rs1, funct3, rd, opcode);
      && Opcode(w) == opcode && RdField(w) == rd && Funct3Field(w) == funct3
      && Rs1Field(w) == rs1 && Rs2Field(w) == rs2 && Funct7Field(w) == funct7
      && ImmField(w) == ((funct7 as bv12) << 5) | (rs2 as bv12)
  {
  }

  lemma ITypeFields(imm: bv12, rs1: bv5, funct3: bv3, rd: bv5, opcode: bv7)
    ensures var w := IType(imm, rs1, funct3, rd, opcode);
      && Opcode(w) == opcode && RdField(w) == rd && Funct3Field(w) == funct3
      && Rs1Field(w) == rs1 && ImmField(w) == imm && Funct7Field(w) == (imm >> 5) as bv7
  {
  }

  lemma STypeFields(imm: bv12, rs2: bv5, rs1: bv5, funct3: bv3)
    ensures var w := SType(imm, rs2, rs1, funct3, 0x23);
      Opcode(w) == 0x23 && StoreField(w) == imm
  {
  }

  lemma BTypeFields(half: bv12, rs2: bv5, rs1: bv5, funct3: bv3)
    ensures var w := BType(half, rs2, rs1, funct3, 0x63);
      Opcode(w) == 0x63 && BranchField(w) == half
  {
  }

  lemma UTypeFields(upper: bv20, rd: bv5, opcode: bv7)
    ensures var w := UType(upper, rd, opcode);
      Opcode(w) == opcode && RdField(w) == rd && UpperField(w) == upper
  {
  }

  lemma JTypeFields(half: bv20, rd: bv5)
    ensures var w := JType(half, rd, 0x6f);
      Opcode(w) == 0x6f && RdField(w) == rd && JumpField(w) == half
  {
  }

  /** S-format immediates. */
  lemma STypeImmediate(imm: bv12, rs2: bv5, rs1: bv5, funct3: bv3)
    ensures Signext(SType(imm, rs2, rs1, funct3, 0x23)) == Sext12(imm)
  {
    hide SType, Opcode, StoreField, Sext12;
    STypeFields(imm, rs2, rs1, funct3);
  }

  /** B-format immediates, in halfwords. */
  lemma BTypeImmediate(half: bv12, rs2: bv5, rs1: bv5, funct3: bv3)
    ensures Signext(BType(half, rs2, rs1, funct3, 0x63)) == Sext12(half)
  {
    hide BType, Opcode, BranchField, Sext12;
    BTypeFields(half, rs2, rs1, funct3);
  }

  /** I-format immediates; OP-IMM-32 keeps only the low 32 bits of the extension. */
  lemma ITypeImmediate(imm: bv12, rs1: bv5, funct3: bv3, rd: bv5, opcode: bv7)
    requires opcode == 0x13 || opcode == 0x67 || opcode == 0x03 || opcode == 0x1b
    ensures Signext(IType(imm, rs1, funct3, rd, opcode))
            == if opcode == 0x1b then Sext12(imm) % TWO32 else Sext12(imm)
  {
    hide IType, Opcode, ImmField, Sext12;
    ITypeFields(imm, rs1, funct3, rd, opcode);
  }

  /** U-format immediates. */
  lemma UTypeImmediate(upper: bv20, rd: bv5, opcode: bv7)
    requires opcode == 0x37 || opcode == 0x17
    ensures var w := UType(upper, rd, opcode);
      Opcode(w) == opcode && RdField(w) == rd && Signext(w) == Sext32(upper as int * 0x1000)
  {
    hide UType, Opcode, UpperField, RdField, Sext32;
    UTypeFields(upper, rd, opcode);
  }

  /** J-format immediates, in halfwords. */
  lemma JTypeImmediate(half: bv20, rd: bv5)
    ensures var w := JType(half, rd, 0x6f);
      Opcode(w) == 0x6f && RdField(w) == rd && Signext(w) == Sext20(half)
  {
    hide JType, Opcode, JumpField, RdField, Sext20;
    JTypeFields(half, rd);
  }
}
