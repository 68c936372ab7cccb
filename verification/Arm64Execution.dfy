/**
 What the relocated image contains, and what executing each piece of it does.
 */
module Arm64Execution {
  import opened Wrappers
  import opened A64
  import opened LiteralPool
  import opened Arm64Relocation
  import opened Arm64Encoding

  // ---------------------------------------------------------------- contents of the image

  lemma RewriteShape(w: bv32, pc: bv64)
    requires Rewrite(w, pc).Some?
    ensures WellShaped(Rewrite(w, pc).value, LDR_TMP_LITERAL) && |Rewrite(w, pc).value.words| <= 5
  {
  }

  lemma RewrittenShape(ws: seq<bv32>, start: bv64)
    requires Rewritten(ws, start).Some?
    ensures |Rewritten(ws, start).value| == |ws|
    ensures AllWellShaped(Rewritten(ws, start).value, LDR_TMP_LITERAL)
    ensures |Emit(Rewritten(ws, start).value).words| <= 5 * |ws|
  {
    var gs := Rewritten(ws, start).value;
    if ws != [] {
      RewrittenAt(ws, start, 0);
    }
    forall i | 0 <= i < |gs|
      ensures WellShaped(gs[i], LDR_TMP_LITERAL) && |gs[i].words| <= 5
    {
      RewrittenAt(ws, start, i);
      RewriteShape(ws[i], Address(start, i));
    }
    EmitLength(gs, 5);
  }

  // The load at `p` is linked to a literal `data` at `t`.
  ghost predicate LoadsLiteral(image: seq<bv32>, p: nat, t: nat, data: bv64) {
    && p < t && t + 1 < |image|
    && image[p] == LinkAt(LDR_TMP_LITERAL, p, t)
    && image[t] == Low(data) && image[t + 1] == High(data)
  }

  ghost predicate HasLiteral(image: seq<bv32>, p: nat, data: bv64) {
    exists t :: LoadsLiteral(image, p, t, data)
  }

  // The image of a block: the groups' words with their loads linked, then a branch to the
  // end of the original block.
  ghost predicate Contents(gs: seq<Group<bv32>>, end: bv64, image: seq<bv32>) {
    var n := |Emit(gs).words|;
    && n + 4 <= |image|
    && (forall i, j :: 0 <= i < |gs| && 0 <= j < |gs[i].words| ==> GroupWord(gs, image, i, j))
    && LoadsLiteral(image, n, n + 2, end)
    && image[n + 1] == BR_TMP
  }

  // Word j of a group is in the image at p, its load linked to its literal.
  ghost predicate HoldsWord(image: seq<bv32>, p: nat, g: Group<bv32>, j: nat)
    requires j < |g.words|
  {
    && p + j < |image|
    && if g.literal.Some? && j == g.at then HasLiteral(image, p + j, g.literal.value) else image[p + j] == g.words[j]
  }

  ghost predicate GroupWord(gs: seq<Group<bv32>>, image: seq<bv32>, i: nat, j: nat)
    requires i < |gs| && j < |gs[i].words|
  {
    HoldsWord(image, Start(gs, i), gs[i], j)
  }

  lemma ClosingBranch(words: seq<bv32>, end: bv64)
    ensures var n, code := |words|, BranchTo(words, end);
            && |code| == n + 4
            && (forall p :: 0 <= p < n ==> code[p] == words[p])
            && code[n] == LinkAt(LDR_TMP_LITERAL, n, n + 2) && code[n + 1] == BR_TMP
            && code[n + 2] == Low(end) && code[n + 3] == High(end)
  {
    var n := |words|;
    var open := words + [LDR_TMP_LITERAL, BR_TMP];
    var f := A64_FORMAT;
    assert open[n] == LDR_TMP_LITERAL;
    assert BranchTo(words, end) == open[n := f.link(open[n], n, n + 2)] + [f.low(end), f.high(end)];
  }

  lemma ImageLinked(ws: seq<bv32>, start: bv64)
    requires Image(ws, start).Some?
    ensures var gs := Rewritten(ws, start).value;
            var code := BranchTo(Emit(gs).words, Address(start, |ws|));
            && AllWellShaped(gs, LDR_TMP_LITERAL)
            && Emit(gs).words <= code
            && (forall k :: 0 <= k < |Emit(gs).labels| ==> Emit(gs).labels[k].pos < |Emit(gs).words|)
            && Linked(code, Emit(gs).labels, A64_FORMAT, LDR_TMP_LITERAL, Image(ws, start).value)
  {
    var gs := Rewritten(ws, start).value;
    var b, end := Emit(gs), Address(start, |ws|);
    RewrittenShape(ws, start);
    EmitUnlinked(gs, LDR_TMP_LITERAL);
    ClosingBranch(b.words, end);
    BindAllLinks(BranchTo(b.words, end), b.labels, A64_FORMAT, LDR_TMP_LITERAL);
  }

  lemma ImageContents(ws: seq<bv32>, start: bv64)
    requires Image(ws, start).Some?
    ensures Contents(Rewritten(ws, start).value, Address(start, |ws|), Image(ws, start).value)
  {
    hide LinkAt, Low, High, Emit, Rewrite, BranchTo;
    var gs := Rewritten(ws, start).value;
    var b, end := Emit(gs), Address(start, |ws|);
    var code, image := BranchTo(b.words, end), Image(ws, start).value;
    var n := |b.words|;
    ImageLinked(ws, start);
    ClosingBranch(b.words, end);
    assert image[n] == code[n] && image[n + 1] == code[n + 1] && image[n + 2] == code[n + 2] && image[n + 3] == code[n + 3];
    forall i, j | 0 <= i < |gs| && 0 <= j < |gs[i].words|
      ensures GroupWord(gs, image, i, j)
    {
      GroupInImage(gs, code, image, i, j);
    }
  }

  lemma GroupInImage(gs: seq<Group<bv32>>, code: seq<bv32>, image: seq<bv32>, i: nat, j: nat)
    requires AllWellShaped(gs, LDR_TMP_LITERAL) && i < |gs| && j < |gs[i].words|
    requires Emit(gs).words <= code
    requires Linked(code, Emit(gs).labels, A64_FORMAT, LDR_TMP_LITERAL, image)
    ensures GroupWord(gs, image, i, j)
  {
    hide LinkAt, Low, High, Emit;
    var g, p := gs[i], Start(gs, i);
    var labels := Emit(gs).labels;
    GroupWords(gs, i, j);
    if g.literal.Some? && j == g.at {
      var k := GroupLabel(gs, i);
      assert LinkedLabel(code, labels[k], k, A64_FORMAT, LDR_TMP_LITERAL, image);
      assert LoadsLiteral(image, p + j, |code| + 2 * k, g.literal.value);
    } else {
      forall k | 0 <= k < |labels|
        ensures labels[k].pos != p + j
      {
        if labels[k].pos == p + j {
          GroupOnlyLabel(gs, i, k, LDR_TMP_LITERAL);
        }
      }
    }
  }

  // ---------------------------------------------------------------- executing the pieces

  // Memory holds the image at `base`.
  ghost predicate Installed(m: Machine, base: bv64, image: seq<bv32>) {
    forall k :: 0 <= k < |image| ==> Read32(m.mem, Address(base, k)) == image[k]
  }

  lemma {:induction false} OffsetAligned(k: nat)
    ensures Offset(k) & 3 == 0
  {
    if k > 0 {
      OffsetAligned(k - 1);
      Plus4Aligned(Offset(k - 1));
    }
  }

  lemma Plus4Aligned(a: bv64)
    requires a & 3 == 0
    ensures Plus4(a) & 3 == 0
  {
  }

  // The linked load at p reads address t.
  lemma LinkedLoadAt(base: bv64, p: nat, t: nat)
    requires p < t && Fits(t)
    ensures var w := LinkAt(LDR_TMP_LITERAL, p, t);
            Classify(w).LdrLiteralX? && Rt(w) == TMP && Sum(Address(base, p), Imm19(w)) == Address(base, t)
  {
    var d := t - p;
    OffsetsSubtract(p, d);
    OffsetAligned(d);
    LinkedLoad(Offset(d));
    AddressAdds(base, p, d);
  }

  lemma ReadLiteral(image: seq<bv32>, base: bv64, m: Machine, p: nat, t: nat, data: bv64)
    requires LoadsLiteral(image, p, t, data) && Installed(m, base, image)
    ensures Read64(m.mem, Address(base, t)) == data
  {
    JoinHalves(data);
    assert Address(base, t + 1) == Plus4(Address(base, t));
  }

  lemma LoadStep(image: seq<bv32>, base: bv64, sem: Semantics, s: Config, p: nat, t: nat, data: bv64)
    requires LoadsLiteral(image, p, t, data) && Fits(|image|) && Installed(s.m, base, image)
    requires s.pc == Address(base, p)
    ensures Step(image, base, sem, s) == Config(Address(base, p + 1), SetX(s.m, TMP, data))
  {
    hide LinkAt, Classify, Imm19, Rt, Sum, Low, High;
    StepAt(image, base, sem, s, p);
    LinkedLoadAt(base, p, t);
    ReadLiteral(image, base, s.m, p, t, data);
  }

  lemma BranchStep(image: seq<bv32>, base: bv64, sem: Semantics, s: Config, p: nat)
    requires p < |image| && Fits(|image|) && s.pc == Address(base, p)
    ensures image[p] == BR_TMP ==> Step(image, base, sem, s) == Config(X(s.m, TMP), s.m)
    ensures image[p] == BLR_TMP ==> Step(image, base, sem, s) == Config(X(s.m, TMP), SetX(s.m, LR, Address(base, p + 1)))
  {
    StepAt(image, base, sem, s, p);
    BranchTmp();
  }

  lemma SetTwice(m: Machine, r: bv32, a: bv64, b: bv64)
    ensures SetX(SetX(m, r, a), r, b) == SetX(m, r, b)
    ensures r != XZR ==> X(SetX(m, r, a), r) == a
  {
    if r != XZR {
      assert m.x[R(r) := a][R(r) := b] == m.x[R(r) := b];
    }
  }

  // The move-wide steps.

  lemma MoveZeroStep(image: seq<bv32>, base: bv64, sem: Semantics, s: Config, p: nat)
    requires p < |image| && Fits(|image|) && s.pc == Address(base, p) && Classify(image[p]).Movz?
    ensures Step(image, base, sem, s) == Config(Address(base, p + 1), SetX(s.m, Rt(image[p]), MoveWide(0, image[p], false)))
  {
    hide Classify;
    StepAt(image, base, sem, s, p);
  }

  lemma MoveStep(image: seq<bv32>, base: bv64, sem: Semantics, s: Config, p: nat, m: Machine, rd: bv32, v: bv64)
    requires p < |image| && Fits(|image|) && s == Config(Address(base, p), SetX(m, rd, v)) && Rt(image[p]) == rd
    requires Classify(image[p]).Movk?
    ensures Step(image, base, sem, s) == Config(Address(base, p + 1), SetX(m, rd, MoveWide(v, image[p], true)))
  {
    hide Classify, MoveWide;
    StepAt(image, base, sem, s, p);
    SetTwice(m, rd, v, MoveWide(v, image[p], true));
  }

  lemma RunFour(code: seq<bv32>, base: bv64, sem: Semantics, s: Config)
    ensures var step := (c: Config) => Step(code, base, sem, c);
            Run(code, base, sem, s, 4) == step(step(step(step(s))))
  {
    var a := Step(code, base, sem, s);
    var b := Step(code, base, sem, a);
    assert Run(code, base, sem, s, 4) == Run(code, base, sem, a, 3) == Run(code, base, sem, b, 2);
    assert Run(code, base, sem, b, 2) == Run(code, base, sem, Step(code, base, sem, b), 1);
  }

  // The four words of Mov set the register to the immediate.
  lemma MovSteps(image: seq<bv32>, base: bv64, sem: Semantics, m: Machine, p: nat, rd: bv32, imm: bv64)
    requires p + 4 <= |image| && Fits(|image|) && rd <= 31
    requires forall j :: 0 <= j < 4 ==> image[p + j] == MovWords(rd, imm)[j]
    ensures Run(image, base, sem, Config(Address(base, p), m), 4) == Config(Address(base, p + 4), SetX(m, rd, imm))
  {
    hide Classify, MoveWide, MoveWideWord, Rt, Run, Step, SetX;
    var s0 := Config(Address(base, p), m);
    var v1, v2, v3 := imm & 0xFFFF, imm & 0xFFFF_FFFF, imm & 0xFFFF_FFFF_FFFF;
    MovzWord(rd, imm);
    MovkWord1(rd, imm, v1);
    MovkWord2(rd, imm, v2);
    MovkWord3(rd, imm, v3);
    var s1 := Config(Address(base, p + 1), SetX(m, rd, v1));
    var s2 := Config(Address(base, p + 2), SetX(m, rd, v2));
    var s3 := Config(Address(base, p + 3), SetX(m, rd, v3));
    assert image[p + 0] == MovWords(rd, imm)[0] && image[p + 1] == MovWords(rd, imm)[1];
    assert image[p + 2] == MovWords(rd, imm)[2] && image[p + 3] == MovWords(rd, imm)[3];
    MoveZeroStep(image, base, sem, s0, p);
    MoveStep(image, base, sem, s1, p + 1, m, rd, v1);
    MoveStep(image, base, sem, s2, p + 2, m, rd, v2);
    MoveStep(image, base, sem, s3, p + 3, m, rd, v3);
    RunFour(image, base, sem, s0);
  }

  lemma LoadThroughTmpStep(image: seq<bv32>, base: bv64, sem: Semantics, s: Config, p: nat, rt: bv32)
    requires p < |image| && Fits(|image|) && rt <= 31
    requires s.pc == Address(base, p) && image[p] == LdrFromTmpWord(rt)
    ensures Step(image, base, sem, s) == Config(Address(base, p + 1), SetX(s.m, rt, Read64(s.m.mem, X(s.m, TMP))))
  {
    StepAt(image, base, sem, s, p);
    LdrFromTmp(rt);
    SumZero(X(s.m, TMP));
  }
}
