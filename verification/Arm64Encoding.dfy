/**
 Bit-level facts about the words the A64 relocator reads and writes, each for all words.
 */
module Arm64Encoding {
  import opened A64
  import opened Arm64Relocation

  // The shift-based decoders compute the architectural immediates.

  lemma Extends16(u: bv64)
    requires u <= 0xFFFF
    ensures SignExtend(u, 48) == Extend16(u)
  {
  }

  lemma Extends21(u: bv64)
    requires u <= 0x1F_FFFF
    ensures SignExtend(u, 43) == Extend21(u)
  {
  }

  lemma Extends28(u: bv64)
    requires u <= 0xFFF_FFFF
    ensures SignExtend(u, 36) == Extend28(u)
  {
  }

  lemma FieldWidths(w: bv32)
    ensures Field14(w) <= 0xFFFF && Field19(w) <= 0x1F_FFFF && Field26(w) <= 0xFFF_FFFF && Field21(w) <= 0x1F_FFFF
  {
  }

  lemma SplitField(w: bv32)
    ensures ImmhiImmlo(w) == Field21(w) && ImmhiImmlo(w) <= 0x1F_FFFF
  {
  }

  lemma DecodesImm14(w: bv32)
    ensures DecodeImm14Offset(w) == Imm14(w)
  {
    FieldWidths(w);
    Extends16(Field14(w));
  }

  lemma DecodesImm19(w: bv32)
    ensures DecodeImm19Offset(w) == Imm19(w)
  {
    FieldWidths(w);
    Extends21(Field19(w));
  }

  lemma DecodesImm26(w: bv32)
    ensures DecodeImm26Offset(w) == Imm26(w)
  {
    FieldWidths(w);
    Extends28(Field26(w));
  }

  lemma DecodesImm21(w: bv32)
    ensures DecodeImmhiImmloOffset(w) == Imm21(w)
  {
    SplitField(w);
    Extends21(ImmhiImmlo(w));
  }

  lemma DecodesZero12(w: bv32)
    ensures DecodeImmhiImmloZero12Offset(w) == Shift12(Imm21(w))
  {
    hide DecodeImmhiImmloOffset, Imm21;
    DecodesImm21(w);
  }

  lemma DecodesRt(w: bv32)
    ensures DecodeRt(w) == Rt(w)
  {
  }

  lemma AlignsToPage(a: bv64)
    ensures AlignFloor12(a) == PageOf(a)
  {
  }

  // ---------------------------------------------------------------- decoding what was encoded

  // B with an offset of k words, in 26 bits of two's complement.
  lemma Place26(k: bv32)
    requires k <= 0x3FF_FFFF
    ensures Field26(0x1400_0000 | k) == k as bv64 << 2
  {
    assert (0x1400_0000 | k) & 0x3FF_FFFF == k;
  }

  lemma Sign28(k: bv64)
    ensures k <= 0x1FF_FFFF ==> Extend28(k << 2) == k << 2
    ensures 0x200_0000 <= k <= 0x3FF_FFFF ==> Extend28(k << 2) == (k << 2) | 0xFFFF_FFFF_F000_0000
  {
  }

  // The byte offset 26 bits of two's complement stand for, in words.
  function Scaled26(k: bv32): bv64 {
    if k <= 0x1FF_FFFF then k as bv64 << 2 else (k as bv64 << 2) | 0xFFFF_FFFF_F000_0000
  }

  lemma SignScaled26(k: bv32)
    requires k <= 0x3FF_FFFF
    ensures Extend28(k as bv64 << 2) == Scaled26(k)
  {
    Sign28(k as bv64);
  }

  lemma Imm26Is(k: bv32, w: bv32)
    requires k <= 0x3FF_FFFF && w == 0x1400_0000 | k
    ensures Imm26(w) == Scaled26(k)
  {
    hide Field26, Extend28, Scaled26;
    Place26(k);
    SignScaled26(k);
  }

  lemma EncodedImm26(k: bv32, w: bv32)
    requires k <= 0x3FF_FFFF && w == 0x1400_0000 | k
    ensures DecodeImm26Offset(w) == Scaled26(k)
  {
    hide DecodeImm26Offset, Imm26, Scaled26;
    DecodesImm26(w);
    Imm26Is(k, w);
  }

  // A conditional branch or a literal load, with 19 bits of offset between opcode and register.
  lemma Place19(op: bv32, k: bv32, rt: bv32)
    requires op & 0x00FF_FFFF == 0 && rt <= 31 && k <= 0x7_FFFF
    ensures ((op | (k << 5) | rt) >> 5) & 0x7_FFFF == k && (op | (k << 5) | rt) & 0x1F == rt
  {
  }

  lemma Sign21(k: bv64)
    ensures k <= 0x3_FFFF ==> Extend21(k << 2) == k << 2
    ensures 0x4_0000 <= k <= 0x7_FFFF ==> Extend21(k << 2) == (k << 2) | 0xFFFF_FFFF_FFE0_0000
  {
  }

  lemma Field19Is(w: bv32, k: bv32)
    requires (w >> 5) & 0x7_FFFF == k
    ensures Field19(w) == k as bv64 << 2
  {
  }

  function Scaled19(k: bv32): bv64 {
    if k <= 0x3_FFFF then k as bv64 << 2 else (k as bv64 << 2) | 0xFFFF_FFFF_FFE0_0000
  }

  lemma SignScaled19(k: bv32)
    requires k <= 0x7_FFFF
    ensures Extend21(k as bv64 << 2) == Scaled19(k)
  {
    Sign21(k as bv64);
  }

  lemma Imm19Is(w: bv32, k: bv32)
    requires (w >> 5) & 0x7_FFFF == k && k <= 0x7_FFFF
    ensures Imm19(w) == Scaled19(k)
  {
    hide Field19, Extend21, Scaled19;
    Field19Is(w, k);
    SignScaled19(k);
  }

  lemma EncodedImm19(op: bv32, k: bv32, rt: bv32, w: bv32)
    requires op & 0x00FF_FFFF == 0 && rt <= 31 && k <= 0x7_FFFF && w == op | (k << 5) | rt
    ensures DecodeImm19Offset(w) == Scaled19(k) && DecodeRt(w) == rt
  {
    hide DecodeImm19Offset, Imm19, Scaled19;
    DecodesImm19(w);
    Place19(op, k, rt);
    Imm19Is(w, k);
  }

  // A test-and-branch, with 14 bits of offset below the bit number.
  lemma Place14(op: bv32, k: bv32, rt: bv32)
    requires op & 0x0007_FFFF == 0 && rt <= 31 && k <= 0x3FFF
    ensures ((op | (k << 5) | rt) >> 5) & 0x3FFF == k
  {
  }

  lemma Sign16(k: bv64)
    ensures k <= 0x1FFF ==> Extend16(k << 2) == k << 2
    ensures 0x2000 <= k <= 0x3FFF ==> Extend16(k << 2) == (k << 2) | 0xFFFF_FFFF_FFFF_0000
  {
  }

  lemma Field14Is(w: bv32, k: bv32)
    requires (w >> 5) & 0x3FFF == k
    ensures Field14(w) == k as bv64 << 2
  {
  }

  function Scaled14(k: bv32): bv64 {
    if k <= 0x1FFF then k as bv64 << 2 else (k as bv64 << 2) | 0xFFFF_FFFF_FFFF_0000
  }

  lemma SignScaled14(k: bv32)
    requires k <= 0x3FFF
    ensures Extend16(k as bv64 << 2) == Scaled14(k)
  {
    Sign16(k as bv64);
  }

  lemma Imm14Is(w: bv32, k: bv32)
    requires (w >> 5) & 0x3FFF == k && k <= 0x3FFF
    ensures Imm14(w) == Scaled14(k)
  {
    hide Field14, Extend16, Scaled14;
    Field14Is(w, k);
    SignScaled14(k);
  }

  lemma EncodedImm14(op: bv32, k: bv32, rt: bv32, w: bv32)
    requires op & 0x0007_FFFF == 0 && rt <= 31 && k <= 0x3FFF && w == op | (k << 5) | rt
    ensures DecodeImm14Offset(w) == Scaled14(k)
  {
    hide DecodeImm14Offset, Imm14, Scaled14;
    DecodesImm14(w);
    Place14(op, k, rt);
    Imm14Is(w, k);
  }

  // ADR and ADRP, with 21 bits of offset split around the opcode.
  lemma Place21(op: bv32, k: bv32, rd: bv32)
    requires op & 0x60FF_FFFF == 0 && rd <= 31 && k <= 0x1F_FFFF
    ensures var w := op | ((k & 3) << 29) | ((k >> 2) << 5) | rd;
            (w >> 29) & 3 == k & 3 && (w >> 5) & 0x7_FFFF == k >> 2
  {
  }

  lemma SplitJoins(k: bv32)
    requires k <= 0x1F_FFFF
    ensures ((k >> 2) as bv64 << 2) | ((k & 3) as bv64) == k as bv64
  {
  }

  lemma Field21Is(w: bv32, k: bv32)
    requires (w >> 29) & 3 == k & 3 && (w >> 5) & 0x7_FFFF == k >> 2 && k <= 0x1F_FFFF
    ensures Field21(w) == k as bv64
  {
    SplitJoins(k);
  }

  lemma SignSplit(k: bv64)
    ensures k <= 0xF_FFFF ==> Extend21(k) == k
    ensures 0x10_0000 <= k <= 0x1F_FFFF ==> Extend21(k) == k | 0xFFFF_FFFF_FFE0_0000
  {
  }

  function Signed21(k: bv32): bv64 {
    if k <= 0xF_FFFF then k as bv64 else k as bv64 | 0xFFFF_FFFF_FFE0_0000
  }

  lemma SignSigned21(k: bv32)
    requires k <= 0x1F_FFFF
    ensures Extend21(k as bv64) == Signed21(k)
  {
    SignSplit(k as bv64);
  }

  lemma Imm21Is(w: bv32, k: bv32)
    requires (w >> 29) & 3 == k & 3 && (w >> 5) & 0x7_FFFF == k >> 2 && k <= 0x1F_FFFF
    ensures Imm21(w) == Signed21(k)
  {
    hide Field21, Extend21, Signed21;
    Field21Is(w, k);
    SignSigned21(k);
  }

  lemma EncodedImm21(op: bv32, k: bv32, rd: bv32, w: bv32)
    requires op & 0x60FF_FFFF == 0 && rd <= 31 && k <= 0x1F_FFFF && w == op | ((k & 3) << 29) | ((k >> 2) << 5) | rd
    ensures DecodeImmhiImmloOffset(w) == Signed21(k)
  {
    hide DecodeImmhiImmloOffset, Imm21, Signed21;
    DecodesImm21(w);
    Place21(op, k, rd);
    Imm21Is(w, k);
  }

  // ADRP counts pages of 4096 bytes.
  lemma PagesAre(w: bv32, pages: bv64)
    requires DecodeImmhiImmloOffset(w) == pages
    ensures DecodeImmhiImmloZero12Offset(w) == pages << 12
  {
    hide DecodeImmhiImmloOffset;
  }

  // A page has 4096 bytes.
  lemma PageSplits(page: bv64, offset: bv64)
    requires page <= 0xF_FFFF_FFFF_FFFF && offset <= 0xFFF
    ensures AlignFloor12((page << 12) | offset) == page << 12
  {
  }

  // ---------------------------------------------------------------- the conditions of branches

  // TBZ and TBNZ on bit b, its number split around the opcode.
  lemma PlaceBit(b: bv32, op: bv32, k: bv32, rt: bv32)
    requires b <= 63 && op <= 1 && k <= 0x3FFF && rt <= 31
    ensures var w := ((b >> 5) << 31) | 0x3600_0000 | (op << 24) | ((b & 31) << 19) | (k << 5) | rt;
            && w & 0x7E00_0000 == 0x3600_0000 && (w >> 31) & 1 == b >> 5 && (w >> 19) & 31 == b & 31
            && (w >> 24) & 1 == op && w & 31 == rt
  {
  }

  lemma BitNumber(b: bv32, w: bv32)
    requires b <= 63 && (w >> 31) & 1 == b >> 5 && (w >> 19) & 31 == b & 31
    ensures TestedBit(w) == b
  {
    assert ((b >> 5) << 5) | (b & 31) == b;
  }

  lemma TestMeaning(b: bv32, op: bv32, k: bv32, rt: bv32, w: bv32, value: bv64, f: Nzcv)
    requires b <= 63 && op <= 1 && k <= 0x3FFF && rt <= 31
    requires w == ((b >> 5) << 31) | 0x3600_0000 | (op << 24) | ((b & 31) << 19) | (k << 5) | rt
    ensures Classify(w).TestBranch? && Rt(w) == rt && TestedBit(w) == b
    ensures TakenOn(w, value, f) <==> BitAt(value, b) == op as bv64
  {
    hide BitAt;
    PlaceBit(b, op, k, rt);
    BitNumber(b, w);
    IsTest(w);
    TestTaken(w, b, op, value, f);
  }

  lemma IsTest(w: bv32)
    requires w & 0x7E00_0000 == 0x3600_0000
    ensures Classify(w).TestBranch?
  {
  }

  lemma TestTaken(w: bv32, b: bv32, op: bv32, value: bv64, f: Nzcv)
    requires Classify(w).TestBranch? && TestedBit(w) == b && (w >> 24) & 1 == op && op <= 1
    ensures TakenOn(w, value, f) <==> BitAt(value, b) == op as bv64
  {
    hide Classify, TestedBit, BitAt;
    OneBit(value, b);
  }

  lemma OneBit(value: bv64, b: bv32)
    ensures BitAt(value, b) == 0 || BitAt(value, b) == 1
  {
    var v := value >> (b & 63);
    assert v & 1 == 0 || v & 1 == 1;
  }

  // Bits are counted from the lowest.
  lemma BitIs(value: bv64)
    ensures BitAt(value, 0) == value & 1 && BitAt(value, 63) == value >> 63
  {
    assert BitAt(value, 0) == (value >> 0) & 1 && BitAt(value, 63) == (value >> 63) & 1;
  }

  // CBZ and CBNZ test the whole register, or its lower half in the 32-bit form.
  lemma CompareMeaning(w: bv32, value: bv64, f: Nzcv)
    requires Classify(w).CompareBranch?
    ensures w & 0xFF00_0000 == 0x3400_0000 ==> (TakenOn(w, value, f) <==> value & 0xFFFF_FFFF == 0)
    ensures w & 0xFF00_0000 == 0x3500_0000 ==> (TakenOn(w, value, f) <==> value & 0xFFFF_FFFF != 0)
    ensures w & 0xFF00_0000 == 0xB400_0000 ==> (TakenOn(w, value, f) <==> value == 0)
    ensures w & 0xFF00_0000 == 0xB500_0000 ==> (TakenOn(w, value, f) <==> value != 0)
  {
    hide Classify;
    CompareBits(w);
  }

  lemma CompareBits(w: bv32)
    ensures w & 0xFF00_0000 == 0x3400_0000 ==> (w >> 31) & 1 == 0 && (w >> 24) & 1 == 0
    ensures w & 0xFF00_0000 == 0x3500_0000 ==> (w >> 31) & 1 == 0 && (w >> 24) & 1 == 1
    ensures w & 0xFF00_0000 == 0xB400_0000 ==> (w >> 31) & 1 == 1 && (w >> 24) & 1 == 0
    ensures w & 0xFF00_0000 == 0xB500_0000 ==> (w >> 31) & 1 == 1 && (w >> 24) & 1 == 1
  {
  }

  // EQ, NE, CS, CC, MI, PL, VS, VC, HI, LS, GE, LT, GT, LE, AL and NV.
  lemma ConditionMeaning(f: Nzcv)
    ensures ConditionHolds(f, 0) == f.z && ConditionHolds(f, 1) == !f.z
    ensures ConditionHolds(f, 2) == f.c && ConditionHolds(f, 3) == !f.c
    ensures ConditionHolds(f, 4) == f.n && ConditionHolds(f, 5) == !f.n
    ensures ConditionHolds(f, 6) == f.v && ConditionHolds(f, 7) == !f.v
    ensures ConditionHolds(f, 8) == (f.c && !f.z) && ConditionHolds(f, 9) == (!f.c || f.z)
    ensures ConditionHolds(f, 10) == (f.n == f.v) && ConditionHolds(f, 11) == (f.n != f.v)
    ensures ConditionHolds(f, 12) == (!f.z && f.n == f.v) && ConditionHolds(f, 13) == (f.z || f.n != f.v)
    ensures ConditionHolds(f, 14) && ConditionHolds(f, 15)
  {
  }

  // The branch of the relocator each architectural class takes.
  lemma ClassesAgree(w: bv32)
    ensures Classify(w).LdrLiteralX? ==> IsLoadLiteral(w) && (w >> 30) & 3 == 1
    ensures Classify(w).LdrLiteralW? ==> IsLoadLiteral(w) && (w >> 30) & 3 == 0
    ensures Classify(w).Adr? || Classify(w).Adrp? <==> IsPcRelAddressing(w)
    ensures Classify(w).Adr? ==> w & 0x9F00_0000 == 0x1000_0000
    ensures Classify(w).Adrp? ==> w & 0x9F00_0000 != 0x1000_0000
    ensures Classify(w).B? || Classify(w).BL? <==> IsUnconditionalBranch(w)
    ensures Classify(w).BL? <==> w & 0xFC00_0000 == 0x9400_0000
    ensures Classify(w).TestBranch? <==> IsTestBranch(w)
    ensures Classify(w).CompareBranch? <==> IsCompareBranch(w)
    ensures Classify(w).BCond? ==> IsConditionalBranch(w)
  {
  }

  lemma BranchesExclusive(w: bv32)
    ensures IsPcRelAddressing(w) ==> !IsLoadLiteral(w)
    ensures IsUnconditionalBranch(w) ==> !IsLoadLiteral(w) && !IsPcRelAddressing(w)
    ensures IsTestBranch(w) || IsCompareBranch(w) || IsConditionalBranch(w) ==>
              !IsLoadLiteral(w) && !IsPcRelAddressing(w) && !IsUnconditionalBranch(w)
    ensures IsCompareBranch(w) ==> !IsTestBranch(w)
    ensures IsConditionalBranch(w) ==> !IsTestBranch(w) && !IsCompareBranch(w)
  {
  }

  // ---------------------------------------------------------------- Mov

  lemma MovzWord(rd: bv32, imm: bv64)
    requires rd <= 31
    ensures var w := MoveWideWord(rd, (imm & 0xFFFF) as bv32, 0, 0x4000_0000);
            Classify(w).Movz? && Rt(w) == rd && MoveWide(0, w, false) == imm & 0xFFFF
  {
  }

  lemma MovkWord1(rd: bv32, imm: bv64, v: bv64)
    requires rd <= 31
    ensures var w := MoveWideWord(rd, ((imm >> 16) & 0xFFFF) as bv32, 1, 0x6000_0000);
            Classify(w).Movk? && Rt(w) == rd && (v == imm & 0xFFFF ==> MoveWide(v, w, true) == imm & 0xFFFF_FFFF)
  {
  }

  lemma MovkWord2(rd: bv32, imm: bv64, v: bv64)
    requires rd <= 31
    ensures var w := MoveWideWord(rd, ((imm >> 32) & 0xFFFF) as bv32, 2, 0x6000_0000);
            Classify(w).Movk? && Rt(w) == rd && (v == imm & 0xFFFF_FFFF ==> MoveWide(v, w, true) == imm & 0xFFFF_FFFF_FFFF)
  {
  }

  lemma MovkWord3(rd: bv32, imm: bv64, v: bv64)
    requires rd <= 31
    ensures var w := MoveWideWord(rd, ((imm >> 48) & 0xFFFF) as bv32, 3, 0x6000_0000);
            Classify(w).Movk? && Rt(w) == rd && (v == imm & 0xFFFF_FFFF_FFFF ==> MoveWide(v, w, true) == imm)
  {
  }

  // ---------------------------------------------------------------- loads and register branches

  lemma LdrFromTmp(rt: bv32)
    requires rt <= 31
    ensures var w := LdrFromTmpWord(rt);
            Classify(w).LdrX? && Rt(w) == rt && Rn(w) == TMP && ((w >> 10) & 0xFFF) as bv64 << 3 == 0
  {
  }

  lemma BranchTmp()
    ensures Classify(BR_TMP).Br? && Rn(BR_TMP) == TMP
    ensures Classify(BLR_TMP).Blr? && Rn(BLR_TMP) == TMP
  {
  }

  // A linked literal load is a load of the temporary register at the distance it was given.
  lemma LinkedLoad(offset: bv64)
    requires InReach(offset) && offset & 3 == 0
    ensures var w := LinkWord(LDR_TMP_LITERAL, offset);
            Classify(w).LdrLiteralX? && Rt(w) == TMP && Imm19(w) == offset
  {
  }

  lemma JoinHalves(d: bv64)
    ensures Join(Low(d), High(d)) == d
  {
  }

  // ---------------------------------------------------------------- inverted branches

  // Is a conditional branch whose inversion by flipping one bit is its negation?
  predicate Invertible(w: bv32) {
    Classify(w).TestBranch? || Classify(w).CompareBranch? || (Classify(w).BCond? && w & 15 < 14)
  }

  function Inverted(w: bv32): bv32 {
    if Classify(w).TestBranch? then InvertedTestBranch(w)
    else if Classify(w).CompareBranch? then InvertedCompareBranch(w)
    else InvertedCondBranch(w)
  }

  lemma InvertedTestFields(w: bv32)
    ensures var i := InvertedTestBranch(w);
            && Imm14(i) == 12 && Rt(i) == Rt(w) && TestedBit(i) == TestedBit(w)
            && ((i >> 24) & 1 == 1 <==> (w >> 24) & 1 != 1)
  {
  }

  lemma InvertedTestClass(w: bv32)
    requires Classify(w).TestBranch?
    ensures Classify(InvertedTestBranch(w)).TestBranch?
    ensures InvertedTestBranch(w) & 0xFEF8_001F == w & 0xFEF8_001F
  {
  }

  // The rewrite keeps the class, the register and the tested bit; it flips the sense and
  // jumps over the next two words.
  lemma InvertedTest(w: bv32, value: bv64, f: Nzcv)
    requires Classify(w).TestBranch?
    ensures var i := InvertedTestBranch(w);
            && Classify(i).TestBranch? && Imm14(i) == 12 && Rt(i) == Rt(w)
            && i & 0xFEF8_001F == w & 0xFEF8_001F
            && (TakenOn(i, value, f) <==> !TakenOn(w, value, f))
  {
    var i := InvertedTestBranch(w);
    InvertedTestFields(w);
    InvertedTestClass(w);
  }

  lemma InvertedCompare(w: bv32, value: bv64, f: Nzcv)
    requires Classify(w).CompareBranch?
    ensures var i := InvertedCompareBranch(w);
            && Classify(i).CompareBranch? && Imm19(i) == 12 && Rt(i) == Rt(w)
            && i & 0xFE00_001F == w & 0xFE00_001F
            && (TakenOn(i, value, f) <==> !TakenOn(w, value, f))
  {
    var i := InvertedCompareBranch(w);
    assert (i >> 31) & 1 == (w >> 31) & 1;
    assert (i >> 24) & 1 == 1 <==> (w >> 24) & 1 != 1;
  }

  // For B.cond the inversion is the negation exactly when the condition is not 111x.
  lemma InvertedCond(w: bv32, value: bv64, f: Nzcv)
    requires Classify(w).BCond?
    ensures var i := InvertedCondBranch(w);
            && Classify(i).BCond? && Imm19(i) == 12
            && i & 0xFF00_001E == w & 0xFF00_001E
            && ((TakenOn(i, value, f) <==> !TakenOn(w, value, f)) <==> w & 15 < 14)
  {
    var i := InvertedCondBranch(w);
    var c := w & 15;
    assert i & 15 == c ^ 1;
    assert (c ^ 1) >> 1 == c >> 1;
    assert (c ^ 1) & 1 == 1 <==> c & 1 != 1;
    assert c < 14 ==> c != 15 && c ^ 1 != 15;
    assert c >= 14 ==> c >> 1 == 7;
    assert c < 14 ==> c >> 1 < 7;
  }

  // All three together: the inverted word branches 12 bytes ahead when the original is not
  // taken, and falls through when it is.
  lemma InvertedMeaning(w: bv32, pc: bv64, m: Machine, sem: Semantics)
    requires Invertible(w)
    ensures Execute(Inverted(w), pc, m, sem) == if Taken(w, m) then Next(m) else Goto(m, Sum(pc, 12))
  {
    hide Classify, TakenOn, InvertedTestBranch, InvertedCompareBranch, InvertedCondBranch, Imm14, Imm19, Rt, Sum;
    var i := Inverted(w);
    if Classify(w).TestBranch? {
      InvertedTest(w, X(m, Rt(w)), m.flags);
    } else if Classify(w).CompareBranch? {
      InvertedCompare(w, X(m, Rt(w)), m.flags);
    } else {
      CondIgnoresRegister(w, X(m, Rt(w)), X(m, Rt(i)), m.flags);
      InvertedCond(w, X(m, Rt(i)), m.flags);
    }
  }

  lemma CondIgnoresRegister(w: bv32, a: bv64, b: bv64, f: Nzcv)
    requires Classify(w).BCond?
    ensures TakenOn(w, a, f) == TakenOn(w, b, f)
  {
  }
}
