/**
 The part of the A64 instruction set the relocator reads and writes, after section C6.2
 of the Arm Architecture Reference Manual (DDI 0487). Every other instruction word gets
 its meaning from a parameter `sem`, which cannot see the program counter.
 */
module A64 {

  datatype Register = R(n: bv32)

  // Registers X0 to X30 have numbers 0 to 30; number 31 reads as zero and ignores writes.
  datatype Machine = Machine(
    x: map<Register, bv64>,
    sp: bv64,
    flags: Nzcv,
    mem: Memory,
    simd: seq<bv64>)

  const XZR: bv32 := 31
  const LR: bv32 := 30

  function X(m: Machine, r: bv32): bv64 {
    if r != XZR && R(r) in m.x then m.x[R(r)] else 0
  }

  function SetX(m: Machine, r: bv32, value: bv64): Machine {
    if r == XZR then m else m.(x := m.x[R(r) := value])
  }

  type Memory = map<bv64, bv8>

  function Byte(mem: Memory, a: bv64): bv8 {
    if a in mem then mem[a] else 0
  }

  function Read32(mem: Memory, a: bv64): bv32 {
    (Byte(mem, a) as bv32) | ((Byte(mem, a + 1) as bv32) << 8) |
    ((Byte(mem, a + 2) as bv32) << 16) | ((Byte(mem, a + 3) as bv32) << 24)
  }

  function Read64(mem: Memory, a: bv64): bv64 {
    Join(Read32(mem, a), Read32(mem, Plus4(a)))
  }

  function Join(lo: bv32, hi: bv32): bv64 {
    (lo as bv64) | ((hi as bv64) << 32)
  }

  // Address arithmetic wraps around. It is kept behind names, so that proofs about positions
  // do not have to look at bits.

  function Plus4(a: bv64): bv64 {
    a + 4
  }

  function Sum(a: bv64, b: bv64): bv64 {
    a + b
  }

  function PageOf(a: bv64): bv64 {
    a & 0xFFFF_FFFF_FFFF_F000
  }

  function Shift12(a: bv64): bv64 {
    a << 12
  }

  predicate Below(a: bv64, b: bv64) {
    a < b
  }

  // What an instruction does besides moving on: fall through, branch, or branch with link.
  datatype Action =
    | Next(m: Machine)
    | Goto(m: Machine, target: bv64)
    | Link(m: Machine, target: bv64)

  type Semantics = (bv32, Machine) -> Action

  datatype Class =
    | LdrLiteralW | LdrLiteralX | Adr | Adrp | B | BL | TestBranch | CompareBranch | BCond
    | Movz | Movk | LdrX | Br | Blr | Other

  function Classify(w: bv32): Class {
    if w & 0xFF00_0000 == 0x1800_0000 then LdrLiteralW
    else if w & 0xFF00_0000 == 0x5800_0000 then LdrLiteralX
    else if w & 0x9F00_0000 == 0x1000_0000 then Adr
    else if w & 0x9F00_0000 == 0x9000_0000 then Adrp
    else if w & 0xFC00_0000 == 0x1400_0000 then B
    else if w & 0xFC00_0000 == 0x9400_0000 then BL
    else if w & 0x7E00_0000 == 0x3600_0000 then TestBranch
    else if w & 0x7E00_0000 == 0x3400_0000 then CompareBranch
    else if w & 0xFF00_0010 == 0x5400_0000 then BCond
    else if w & 0xFF80_0000 == 0xD280_0000 then Movz
    else if w & 0xFF80_0000 == 0xF280_0000 then Movk
    else if w & 0xFFC0_0000 == 0xF940_0000 then LdrX
    else if w & 0xFFFF_FC1F == 0xD61F_0000 then Br
    else if w & 0xFFFF_FC1F == 0xD63F_0000 then Blr
    else Other
  }

  predicate IsPcRelative(c: Class) {
    c.LdrLiteralW? || c.LdrLiteralX? || c.Adr? || c.Adrp? || c.B? || c.BL? || c.TestBranch? || c.CompareBranch? || c.BCond?
  }

  // Immediate fields, scaled to bytes.

  function Field14(w: bv32): bv64 {
    ((w >> 5) & 0x3FFF) as bv64 << 2
  }

  function Field19(w: bv32): bv64 {
    ((w >> 5) & 0x7_FFFF) as bv64 << 2
  }

  function Field26(w: bv32): bv64 {
    (w & 0x3FF_FFFF) as bv64 << 2
  }

  function Field21(w: bv32): bv64 {
    (((w >> 5) & 0x7_FFFF) as bv64 << 2) | (((w >> 29) & 3) as bv64)
  }

  // Sign extension from 16, 21 and 28 bits.

  function Extend16(u: bv64): bv64 {
    if u & 0x8000 == 0 then u else u | 0xFFFF_FFFF_FFFF_0000
  }

  function Extend21(u: bv64): bv64 {
    if u & 0x10_0000 == 0 then u else u | 0xFFFF_FFFF_FFE0_0000
  }

  function Extend28(u: bv64): bv64 {
    if u & 0x800_0000 == 0 then u else u | 0xFFFF_FFFF_F000_0000
  }

  function Imm14(w: bv32): bv64 {
    Extend16(Field14(w))
  }

  function Imm19(w: bv32): bv64 {
    Extend21(Field19(w))
  }

  function Imm26(w: bv32): bv64 {
    Extend28(Field26(w))
  }

  function Imm21(w: bv32): bv64 {
    Extend21(Field21(w))
  }

  function Rt(w: bv32): bv32 {
    w & 31
  }

  function Rn(w: bv32): bv32 {
    (w >> 5) & 31
  }

  datatype Nzcv = Nzcv(n: bool, z: bool, c: bool, v: bool)

  // ConditionHolds: the upper three bits select a test, bit 0 inverts it except for 1111.
  predicate ConditionHolds(f: Nzcv, cond: bv32) {
    var test := cond >> 1;
    var holds :=
      if test == 0 then f.z else if test == 1 then f.c else if test == 2 then f.n else if test == 3 then f.v
      else if test == 4 then f.c && !f.z else if test == 5 then f.n == f.v
      else if test == 6 then f.n == f.v && !f.z else true;
    if cond & 1 == 1 && cond != 15 then !holds else holds
  }

  function BitAt(value: bv64, bit: bv32): bv64 {
    (value >> (bit & 63)) & 1
  }

  function TestedBit(w: bv32): bv32 {
    (((w >> 31) & 1) << 5) | ((w >> 19) & 31)
  }

  // Is the conditional branch `w` taken, when its register holds `value`?
  predicate TakenOn(w: bv32, value: bv64, f: Nzcv) {
    if Classify(w).TestBranch? then
      (BitAt(value, TestedBit(w)) == 1) == ((w >> 24) & 1 == 1)
    else if Classify(w).CompareBranch? then
      var operand := if (w >> 31) & 1 == 1 then value else value & 0xFFFF_FFFF;
      (operand != 0) == ((w >> 24) & 1 == 1)
    else
      ConditionHolds(f, w & 15)
  }

  predicate Taken(w: bv32, m: Machine) {
    TakenOn(w, X(m, Rt(w)), m.flags)
  }

  // The target of a direct branch at `pc`.
  function Target(w: bv32, pc: bv64): bv64 {
    match Classify(w)
    case B => Sum(pc, Imm26(w))
    case BL => Sum(pc, Imm26(w))
    case TestBranch => Sum(pc, Imm14(w))
    case _ => Sum(pc, Imm19(w))
  }

  function MoveWide(before: bv64, w: bv32, keep: bool): bv64 {
    var hw := (w >> 21) & 3;
    var imm := ((w >> 5) & 0xFFFF) as bv64;
    var base := if keep then before else 0;
    if hw == 0 then (base & 0xFFFF_FFFF_FFFF_0000) | imm
    else if hw == 1 then (base & 0xFFFF_FFFF_0000_FFFF) | (imm << 16)
    else if hw == 2 then (base & 0xFFFF_0000_FFFF_FFFF) | (imm << 32)
    else (base & 0x0000_FFFF_FFFF_FFFF) | (imm << 48)
  }

  // The instructions whose meaning does not involve the program counter.
  function Plain(w: bv32, m: Machine, sem: Semantics): Action {
    match Classify(w)
    case Movz => Next(SetX(m, Rt(w), MoveWide(0, w, false)))
    case Movk => Next(SetX(m, Rt(w), MoveWide(X(m, Rt(w)), w, true)))
    case LdrX =>
      var base := if Rn(w) == 31 then m.sp else X(m, Rn(w));
      Next(SetX(m, Rt(w), Read64(m.mem, Sum(base, ((w >> 10) & 0xFFF) as bv64 << 3))))
    case Br => Goto(m, X(m, Rn(w)))
    case Blr => Link(m, X(m, Rn(w)))
    case _ => sem(w, m)
  }

  function Execute(w: bv32, pc: bv64, m: Machine, sem: Semantics): Action {
    match Classify(w)
    case LdrLiteralW => Next(SetX(m, Rt(w), Read32(m.mem, Sum(pc, Imm19(w))) as bv64))
    case LdrLiteralX => Next(SetX(m, Rt(w), Read64(m.mem, Sum(pc, Imm19(w)))))
    case Adr => Next(SetX(m, Rt(w), Sum(pc, Imm21(w))))
    case Adrp => Next(SetX(m, Rt(w), Sum(PageOf(pc), Shift12(Imm21(w)))))
    case B => Goto(m, Target(w, pc))
    case BL => Link(m, Target(w, pc))
    case TestBranch => if Taken(w, m) then Goto(m, Target(w, pc)) else Next(m)
    case CompareBranch => if Taken(w, m) then Goto(m, Target(w, pc)) else Next(m)
    case BCond => if Taken(w, m) then Goto(m, Target(w, pc)) else Next(m)
    case _ => Plain(w, m, sem)
  }

  datatype Config = Config(pc: bv64, m: Machine)

  function Advance(a: Action, pc: bv64): Config {
    match a
    case Next(m) => Config(Plus4(pc), m)
    case Goto(m, target) => Config(target, m)
    case Link(m, target) => Config(target, SetX(m, LR, Plus4(pc)))
  }

  // ---------------------------------------------------------------- running a block

  // Below 1 MiB, the reach of a literal load.
  predicate InReach(a: bv64) {
    a < 0x10_0000
  }

  // Byte offset of word k of a block.
  function Offset(k: nat): bv64 {
    if k == 0 then 0 else Plus4(Offset(k - 1))
  }

  // Address of word k of a block placed at `base`.
  function Address(base: bv64, k: nat): bv64 {
    if k == 0 then base else Plus4(Address(base, k - 1))
  }

  ghost predicate Fits(n: nat) {
    forall k :: 0 <= k <= n ==> InReach(Offset(k))
  }

  ghost predicate Outside(base: bv64, n: nat, pc: bv64) {
    forall k :: 0 <= k < n ==> Address(base, k) != pc
  }

  // One step inside the block `code` placed at `base`; a configuration outside stays put.
  ghost function Step(code: seq<bv32>, base: bv64, sem: Semantics, s: Config): Config {
    if Outside(base, |code|, s.pc) then s
    else
      var k :| 0 <= k < |code| && Address(base, k) == s.pc;
      Advance(Execute(code[k], s.pc, s.m, sem), s.pc)
  }

  ghost function Run(code: seq<bv32>, base: bv64, sem: Semantics, s: Config, n: nat): Config
    decreases n
  {
    if n == 0 then s else Run(code, base, sem, Step(code, base, sem, s), n - 1)
  }

  lemma Plus4Increases(a: bv64)
    requires InReach(a)
    ensures Below(a, Plus4(a))
  {
  }

  lemma BelowTransitive(a: bv64, b: bv64, c: bv64)
    requires Below(a, b) && Below(b, c)
    ensures Below(a, c)
  {
  }

  lemma {:induction false} OffsetsIncrease(j: nat, k: nat)
    requires j < k && Fits(k)
    ensures Below(Offset(j), Offset(k))
    decreases k
  {
    Plus4Increases(Offset(k - 1));
    if j < k - 1 {
      OffsetsIncrease(j, k - 1);
      BelowTransitive(Offset(j), Offset(k - 1), Offset(k));
    }
  }

  function Minus(a: bv64, b: bv64): bv64 {
    a - b
  }

  lemma MinusSum(base: bv64, a: bv64)
    ensures Minus(Sum(base, a), base) == a
  {
    assert Sum(base, a) == base + a;
    assert Minus(Sum(base, a), base) == base + a - base;
  }

  lemma SumCancels(base: bv64, a: bv64, b: bv64)
    requires Sum(base, a) == Sum(base, b)
    ensures a == b
  {
    MinusSum(base, a);
    MinusSum(base, b);
  }

  lemma SumPlus4(base: bv64, a: bv64)
    ensures Sum(base, Plus4(a)) == Plus4(Sum(base, a))
  {
    assert Plus4(a) == a + 4;
    assert Sum(base, a) == base + a;
    assert Sum(base, Plus4(a)) == base + (a + 4);
    assert Plus4(Sum(base, a)) == base + a + 4;
  }

  lemma SumZero(base: bv64)
    ensures Sum(base, 0) == base
  {
  }

  lemma {:induction false} AddressAdds(base: bv64, p: nat, d: nat)
    ensures Sum(Address(base, p), Offset(d)) == Address(base, p + d)
    decreases d
  {
    if d == 0 {
      SumZero(Address(base, p));
    } else {
      AddressAdds(base, p, d - 1);
      SumPlus4(Address(base, p), Offset(d - 1));
    }
  }

  lemma MinusSelf(a: bv64)
    ensures Minus(a, a) == 0
  {
  }

  lemma MinusPlus4(a: bv64, b: bv64)
    ensures Minus(Plus4(a), b) == Plus4(Minus(a, b))
  {
    assert Plus4(a) == a + 4;
    assert Minus(a, b) == a - b;
    assert Minus(Plus4(a), b) == a + 4 - b;
    assert Plus4(Minus(a, b)) == a - b + 4;
  }

  lemma {:induction false} OffsetsSubtract(p: nat, d: nat)
    ensures Minus(Offset(p + d), Offset(p)) == Offset(d)
    decreases d
  {
    if d == 0 {
      MinusSelf(Offset(p));
    } else {
      OffsetsSubtract(p, d - 1);
      MinusPlus4(Offset(p + d - 1), Offset(p));
    }
  }

  lemma {:induction false} AddressIsSum(base: bv64, k: nat)
    ensures Address(base, k) == Sum(base, Offset(k))
  {
    if k == 0 {
      SumZero(base);
    } else {
      AddressIsSum(base, k - 1);
      SumPlus4(base, Offset(k - 1));
    }
  }

  lemma AddressesDiffer(base: bv64, j: nat, k: nat)
    requires j < k && Fits(k)
    ensures Address(base, j) != Address(base, k)
  {
    OffsetsIncrease(j, k);
    AddressIsSum(base, j);
    AddressIsSum(base, k);
    if Sum(base, Offset(j)) == Sum(base, Offset(k)) {
      SumCancels(base, Offset(j), Offset(k));
    }
  }

  // The step at a known position.
  lemma StepAt(code: seq<bv32>, base: bv64, sem: Semantics, s: Config, k: nat)
    requires k < |code| && s.pc == Address(base, k) && Fits(|code|)
    ensures Step(code, base, sem, s) == Advance(Execute(code[k], s.pc, s.m, sem), s.pc)
  {
    forall j | 0 <= j < |code| && Address(base, j) == s.pc
      ensures j == k
    {
      if j < k {
        AddressesDiffer(base, j, k);
      } else if k < j {
        AddressesDiffer(base, k, j);
      }
    }
  }

  // The end of a block is outside it.
  lemma EndOutside(base: bv64, n: nat)
    requires Fits(n)
    ensures Outside(base, n, Address(base, n))
  {
    forall k | 0 <= k < n
      ensures Address(base, k) != Address(base, n)
    {
      AddressesDiffer(base, k, n);
    }
  }

  lemma {:induction false} RunAdds(code: seq<bv32>, base: bv64, sem: Semantics, s: Config, a: nat, b: nat)
    ensures Run(code, base, sem, s, a + b) == Run(code, base, sem, Run(code, base, sem, s, a), b)
    decreases a
  {
    if a > 0 {
      RunAdds(code, base, sem, Step(code, base, sem, s), a - 1, b);
    }
  }
}
