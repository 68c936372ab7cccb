/**
 The A64 relocator: it rewrites a block of instruction words so that the block can run at
 another address. Each word becomes one or more words; branch targets go into a pool of
 64-bit literals behind the code, and a final branch leads back to the rest of the
 original function.
 */
module Arm64Relocation {
  import opened Wrappers
  import opened A64
  import opened LiteralPool

  // ---------------------------------------------------------------- decoding

  // SignExtend(x, M, N) with `unused` = N - M: (long)(x << unused) >> unused.
  function SignExtend(x: bv64, unused: bv7): bv64
    requires unused <= 64
  {
    var top := x << unused;
    if top & 0x8000_0000_0000_0000 == 0 then top >> unused else !(!top >> unused)
  }

  function DecodeImm14Offset(w: bv32): bv64 {
    SignExtend(((w >> 5) & 0x3FFF) as bv64 << 2, 48)
  }

  function DecodeImm19Offset(w: bv32): bv64 {
    SignExtend(((w >> 5) & 0x7_FFFF) as bv64 << 2, 43)
  }

  function DecodeImm26Offset(w: bv32): bv64 {
    SignExtend((w & 0x3FF_FFFF) as bv64 << 2, 36)
  }

  // immlo + (immhi << 2), as 32-bit bit fields.
  function ImmhiImmlo(w: bv32): bv64 {
    (((w >> 29) & 3) + (((w >> 5) & 0x7_FFFF) << 2)) as bv64
  }

  function DecodeImmhiImmloOffset(w: bv32): bv64 {
    SignExtend(ImmhiImmlo(w), 43)
  }

  function DecodeImmhiImmloZero12Offset(w: bv32): bv64 {
    DecodeImmhiImmloOffset(w) << 12
  }

  function DecodeRt(w: bv32): bv32 {
    w & 0x1F
  }

  // ALIGN_FLOOR(a, 1 << 12)
  function AlignFloor12(a: bv64): bv64 {
    a & !(0x1000 - 1)
  }

  // ---------------------------------------------------------------- encoding

  const TMP: bv32 := 17
  const LDR_TMP_LITERAL: bv32 := 0x5800_0000 | TMP
  const BR_TMP: bv32 := 0xD61F_0000 | (TMP << 5)
  const BLR_TMP: bv32 := 0xD63F_0000 | (TMP << 5)

  function MoveWideWord(rd: bv32, imm16: bv32, shift: bv32, op: bv32): bv32 {
    0x1280_0000 | op | 0x8000_0000 | ((shift & 3) << 21) | ((imm16 & 0xFFFF) << 5) | rd
  }

  // TurboAssembler::Mov: movz and three movk.
  function MovWords(rd: bv32, imm: bv64): seq<bv32> {
    [ MoveWideWord(rd, (imm & 0xFFFF) as bv32, 0, 0x4000_0000),
      MoveWideWord(rd, ((imm >> 16) & 0xFFFF) as bv32, 1, 0x6000_0000),
      MoveWideWord(rd, ((imm >> 32) & 0xFFFF) as bv32, 2, 0x6000_0000),
      MoveWideWord(rd, ((imm >> 48) & 0xFFFF) as bv32, 3, 0x6000_0000) ]
  }

  // ldr(rt, MEM(TMP, 0)): the assembler encodes the X form whatever the register's size.
  function LdrFromTmpWord(rt: bv32): bv32 {
    0x3900_0000 | 0xC040_0000 | (TMP << 5) | rt
  }

  // The inverted conditional branch over the two words that follow it.

  function InvertedTestBranch(w: bv32): bv32 {
    var op := ((w >> 24) & 1) ^ 1;
    var flipped := (w & 0xFEFF_FFFF) | (op << 24);
    (flipped & 0xFFF8_001F) | (3 << 5)
  }

  function InvertedCompareBranch(w: bv32): bv32 {
    var op := ((w >> 24) & 1) ^ 1;
    var flipped := (w & 0xFEFF_FFFF) | (op << 24);
    (flipped & 0xFF00_001F) | (3 << 5)
  }

  function InvertedCondBranch(w: bv32): bv32 {
    var cond := (w & 15) ^ 1;
    var flipped := (w & 0xFFFF_FFF0) | cond;
    (flipped & 0xFF00_001F) | (3 << 5)
  }

  // ---------------------------------------------------------------- one instruction

  predicate IsLoadLiteral(w: bv32) {
    w & 0x3B00_0000 == 0x1800_0000
  }

  predicate IsPcRelAddressing(w: bv32) {
    w & 0x1F00_0000 == 0x1000_0000
  }

  predicate IsUnconditionalBranch(w: bv32) {
    w & 0x7C00_0000 == 0x1400_0000
  }

  predicate IsTestBranch(w: bv32) {
    w & 0x7E00_0000 == 0x3600_0000
  }

  predicate IsCompareBranch(w: bv32) {
    w & 0x7E00_0000 == 0x3400_0000
  }

  predicate IsConditionalBranch(w: bv32) {
    w & 0xFE00_0000 == 0x5400_0000
  }

  // None is UNIMPLEMENTED().
  function Rewrite(w: bv32, pc: bv64): Option<Group<bv32>> {
    if IsLoadLiteral(w) then
      var address := Sum(pc, DecodeImm19Offset(w));
      var opc := (w >> 30) & 3;
      if opc == 0 || opc == 1 then Some(Group(MovWords(TMP, address) + [LdrFromTmpWord(DecodeRt(w))], None, 0)) else None
    else if IsPcRelAddressing(w) then
      var address :=
        if w & 0x9F00_0000 == 0x1000_0000 then Sum(pc, DecodeImmhiImmloOffset(w))
        else Sum(AlignFloor12(pc), DecodeImmhiImmloZero12Offset(w));
      Some(Group(MovWords(DecodeRt(w), address), None, 0))
    else if IsUnconditionalBranch(w) then
      var address := Sum(pc, DecodeImm26Offset(w));
      Some(Group([LDR_TMP_LITERAL, if w & 0xFC00_0000 == 0x9400_0000 then BLR_TMP else BR_TMP], Some(address), 0))
    else if IsTestBranch(w) then
      Some(Group([InvertedTestBranch(w), LDR_TMP_LITERAL, BR_TMP], Some(Sum(pc, DecodeImm14Offset(w))), 1))
    else if IsCompareBranch(w) then
      Some(Group([InvertedCompareBranch(w), LDR_TMP_LITERAL, BR_TMP], Some(Sum(pc, DecodeImm19Offset(w))), 1))
    else if IsConditionalBranch(w) then
      Some(Group([InvertedCondBranch(w), LDR_TMP_LITERAL, BR_TMP], Some(Sum(pc, DecodeImm19Offset(w))), 1))
    else
      Some(Group([w], None, 0))
  }

  // ---------------------------------------------------------------- the block

  // The groups emitted for the block `ws` found at `start`.
  function Rewritten(ws: seq<bv32>, start: bv64): Option<seq<Group<bv32>>> {
    if ws == [] then Some([])
    else
      var i := |ws| - 1;
      var before := Rewritten(ws[..i], start);
      if before.None? then None
      else
        var g := Rewrite(ws[i], Address(start, i));
        if g.None? then None else Some(before.value + [g.value])
  }

  function Low(d: bv64): bv32 {
    (d & 0xFFFF_FFFF) as bv32
  }

  function High(d: bv64): bv32 {
    (d >> 32) as bv32
  }

  // PseudoLabel::link_confused_instructions for one load.
  function LinkWord(w: bv32, offset: bv64): bv32 {
    (w & 0xFF00_001F) | ((((offset >> 2) & 0x7_FFFF) as bv32) << 5)
  }

  function LinkAt(w: bv32, pos: nat, target: nat): bv32 {
    LinkWord(w, Minus(Offset(target), Offset(pos)))
  }

  const A64_FORMAT: Format<bv32> := Format(LinkAt, Low, High)

  // CodeGen::LiteralLdrBranch
  function BranchTo(words: seq<bv32>, address: bv64): seq<bv32> {
    Bind(words + [LDR_TMP_LITERAL, BR_TMP], Label(|words|, address), A64_FORMAT)
  }

  // The relocated code, as placed in memory.
  function Image(ws: seq<bv32>, start: bv64): Option<seq<bv32>> {
    var gs := Rewritten(ws, start);
    if gs.None? then None
    else
      var b := Emit(gs.value);
      Some(BindAll(BranchTo(b.words, Address(start, |ws|)), b.labels, A64_FORMAT))
  }

  // The cursor loop of GenRelocateCodeAndBranch.
  method EmitBlock(ws: seq<bv32>, start: bv64) returns (r: Option<Buffer<bv32>>, pc: bv64)
    ensures r == if Rewritten(ws, start).None? then None else Some(Emit(Rewritten(ws, start).value))
    ensures r.Some? ==> pc == Address(start, |ws|)
  {
    hide Rewrite, Append, Plus4;
    var buffer := Buffer([], []);
    ghost var gs := [];
    pc := start;
    var i := 0;
    while i < |ws|
      invariant i <= |ws| && pc == Address(start, i)
      invariant Rewritten(ws[..i], start) == Some(gs) && buffer == Emit(gs)
    {
      var g := Rewrite(ws[i], pc);
      assert ws[..i + 1][..i] == ws[..i];
      if g.None? {
        FailureSpreads(ws, start, i + 1);
        return None, pc;
      }
      buffer := Append(buffer, g.value);
      assert (gs + [g.value])[..|gs|] == gs;
      gs := gs + [g.value];
      pc := Plus4(pc);
      i := i + 1;
    }
    assert ws[..i] == ws;
    return Some(buffer), pc;
  }

  // RelocBind: the label loop.
  method BindLabels(code: seq<bv32>, labels: seq<Label>) returns (words: seq<bv32>)
    ensures words == BindAll(code, labels, A64_FORMAT)
  {
    words := code;
    var j := 0;
    while j < |labels|
      invariant j <= |labels| && words == BindAll(code, labels[..j], A64_FORMAT)
    {
      words := Bind(words, labels[j], A64_FORMAT);
      assert labels[..j + 1][..j] == labels[..j];
      j := j + 1;
    }
    assert labels[..j] == labels;
  }

  // GenRelocateCodeAndBranch
  method Relocate(ws: seq<bv32>, start: bv64) returns (r: Option<seq<bv32>>)
    ensures r == Image(ws, start)
  {
    var buffer, pc := EmitBlock(ws, start);
    if buffer.None? {
      return None;
    }
    var words := BindLabels(BranchTo(buffer.value.words, pc), buffer.value.labels);
    return Some(words);
  }

  lemma {:induction false} FailureSpreads(ws: seq<bv32>, start: bv64, i: nat)
    requires i <= |ws| && Rewritten(ws[..i], start).None?
    ensures Rewritten(ws, start).None?
    decreases |ws| - i
  {
    if i < |ws| {
      assert ws[..i + 1][..i] == ws[..i];
      FailureSpreads(ws, start, i + 1);
    } else {
      assert ws[..i] == ws;
    }
  }

  lemma {:induction false} RewrittenAt(ws: seq<bv32>, start: bv64, i: nat)
    requires i < |ws| && Rewritten(ws, start).Some?
    ensures |Rewritten(ws, start).value| == |ws|
    ensures Rewrite(ws[i], Address(start, i)) == Some(Rewritten(ws, start).value[i])
  {
    var n := |ws| - 1;
    if i < n {
      RewrittenAt(ws[..n], start, i);
    } else if n > 0 {
      RewrittenAt(ws[..n], start, 0);
    }
  }
}
