/**
 Running the relocated image simulates running the original block: same exit address, same
 machine apart from the temporary register X17, and a link register that points to the
 relocated successor of the call.
 */
module Arm64Simulation {
  import opened Wrappers
  import opened A64
  import opened LiteralPool
  import opened Arm64Relocation
  import opened Arm64Encoding
  import opened Arm64Execution

  // ---------------------------------------------------------------- the pieces, run

  // The words of a group are in the image at p, its load linked to its literal.
  ghost predicate Holds(image: seq<bv32>, p: nat, g: Group<bv32>) {
    && p + |g.words| <= |image|
    && forall j :: 0 <= j < |g.words| ==> HoldsWord(image, p, g, j)
  }

  lemma RunOne(code: seq<bv32>, base: bv64, sem: Semantics, s: Config)
    ensures Run(code, base, sem, s, 1) == Step(code, base, sem, s)
  {
    assert Run(code, base, sem, Step(code, base, sem, s), 0) == Step(code, base, sem, s);
  }

  lemma RunTwo(code: seq<bv32>, base: bv64, sem: Semantics, s: Config)
    ensures Run(code, base, sem, s, 2) == Step(code, base, sem, Step(code, base, sem, s))
  {
    RunOne(code, base, sem, Step(code, base, sem, s));
  }

  lemma RunThree(code: seq<bv32>, base: bv64, sem: Semantics, s: Config)
    ensures Run(code, base, sem, s, 3) == Step(code, base, sem, Step(code, base, sem, Step(code, base, sem, s)))
  {
    RunTwo(code, base, sem, Step(code, base, sem, s));
  }

  // A literal load becomes Mov into X17 and a 64-bit load through it, in either size.
  lemma RunLoadGroup(image: seq<bv32>, base: bv64, sem: Semantics, p: nat, m: Machine, address: bv64, rt: bv32)
    requires Fits(|image|) && rt <= 31
    requires Holds(image, p, Group(MovWords(TMP, address) + [LdrFromTmpWord(rt)], None, 0))
    ensures Run(image, base, sem, Config(Address(base, p), m), 5) ==
            Config(Address(base, p + 5), SetX(SetX(m, TMP, address), rt, Read64(m.mem, address)))
  {
    hide Step, Run, Execute, Classify, LdrFromTmpWord, MoveWideWord, Read64;
    var words := MovWords(TMP, address) + [LdrFromTmpWord(rt)];
    var g := Group(words, None, 0);
    forall j | 0 <= j < 4
      ensures image[p + j] == MovWords(TMP, address)[j]
    {
      assert HoldsWord(image, p, g, j);
    }
    MovSteps(image, base, sem, m, p, TMP, address);
    var s := Config(Address(base, p + 4), SetX(m, TMP, address));
    assert HoldsWord(image, p, g, 4);
    SetTwice(m, TMP, address, address);
    LoadThroughTmpStep(image, base, sem, s, p + 4, rt);
    RunOne(image, base, sem, s);
    RunAdds(image, base, sem, Config(Address(base, p), m), 4, 1);
  }

  // A direct branch becomes a literal load of the target and a branch through X17.
  lemma RunBranchGroup(image: seq<bv32>, base: bv64, sem: Semantics, p: nat, m: Machine, target: bv64, last: bv32)
    requires Fits(|image|) && Installed(m, base, image)
    requires last == BR_TMP || last == BLR_TMP
    requires Holds(image, p, Group([LDR_TMP_LITERAL, last], Some(target), 0))
    ensures var m' := SetX(m, TMP, target);
            Run(image, base, sem, Config(Address(base, p), m), 2) ==
            Config(target, if last == BR_TMP then m' else SetX(m', LR, Address(base, p + 2)))
  {
    hide Step, Run, Execute, Classify, LinkAt, Installed;
    var s := Config(Address(base, p), m);
    var g := Group([LDR_TMP_LITERAL, last], Some(target), 0);
    assert HoldsWord(image, p, g, 0) && HoldsWord(image, p, g, 1);
    var t :| LoadsLiteral(image, p, t, target);
    LoadStep(image, base, sem, s, p, t, target);
    SetTwice(m, TMP, target, target);
    BranchStep(image, base, sem, Config(Address(base, p + 1), SetX(m, TMP, target)), p + 1);
    RunTwo(image, base, sem, s);
    BranchesDiffer();
  }

  lemma BranchesDiffer()
    ensures BR_TMP != BLR_TMP
  {
  }

  lemma OffsetOfThree()
    ensures Offset(3) == 12
  {
    assert Offset(1) == Plus4(0) && Offset(2) == Plus4(Offset(1)) && Offset(3) == Plus4(Offset(2));
  }

  // The first word of a rewritten conditional branch: skip the next two words or enter them.
  lemma InvertedStep(image: seq<bv32>, base: bv64, sem: Semantics, p: nat, m: Machine, w: bv32)
    requires Fits(|image|) && p + 3 <= |image| && image[p] == Inverted(w)
    requires Invertible(w)
    ensures Step(image, base, sem, Config(Address(base, p), m)) ==
            Config(Address(base, if Taken(w, m) then p + 1 else p + 3), m)
  {
    hide Step, Execute, Classify, Inverted, Taken, Sum;
    StepAt(image, base, sem, Config(Address(base, p), m), p);
    InvertedMeaning(w, Address(base, p), m, sem);
    OffsetOfThree();
    AddressAdds(base, p, 3);
  }

  // TBZ, TBNZ, CBZ, CBNZ and B.cond, for every word, address and machine: the sequence reaches
  // the original target exactly when the original branch is taken, and otherwise the word
  // after the sequence, with nothing changed.
  lemma RunConditionalGroup(image: seq<bv32>, base: bv64, sem: Semantics, p: nat, m: Machine, w: bv32, target: bv64)
    requires Fits(|image|) && Installed(m, base, image) && Invertible(w)
    requires Holds(image, p, Group([Inverted(w), LDR_TMP_LITERAL, BR_TMP], Some(target), 1))
    ensures var s := Config(Address(base, p), m);
            if Taken(w, m) then Run(image, base, sem, s, 3) == Config(target, SetX(m, TMP, target))
            else Run(image, base, sem, s, 1) == Config(Address(base, p + 3), m)
  {
    hide Step, Run, Execute, Classify, Inverted, Taken, LinkAt, Installed;
    var s := Config(Address(base, p), m);
    var g := Group([Inverted(w), LDR_TMP_LITERAL, BR_TMP], Some(target), 1);
    assert HoldsWord(image, p, g, 0) && HoldsWord(image, p, g, 1) && HoldsWord(image, p, g, 2);
    InvertedStep(image, base, sem, p, m, w);
    RunOne(image, base, sem, s);
    if Taken(w, m) {
      var t :| LoadsLiteral(image, p + 1, t, target);
      LoadStep(image, base, sem, Config(Address(base, p + 1), m), p + 1, t, target);
      SetTwice(m, TMP, target, target);
      BranchStep(image, base, sem, Config(Address(base, p + 2), SetX(m, TMP, target)), p + 2);
      RunThree(image, base, sem, s);
    }
  }

  // The same for B.cond with any condition: the first step enters the branch pair exactly when
  // the original is taken if and only if the condition is not 111x.
  lemma ConditionBoundary(image: seq<bv32>, base: bv64, sem: Semantics, p: nat, m: Machine, w: bv32)
    requires Fits(|image|) && p + 3 <= |image| && image[p] == InvertedCondBranch(w) && Classify(w).BCond?
    ensures (Step(image, base, sem, Config(Address(base, p), m)).pc == Address(base, p + 1) <==> Taken(w, m)) <==> w & 15 < 14
  {
    StepAt(image, base, sem, Config(Address(base, p), m), p);
    InvertedCond(w, X(m, Rt(InvertedCondBranch(w))), m.flags);
    CondIgnoresRegister(w, X(m, Rt(w)), X(m, Rt(InvertedCondBranch(w))), m.flags);
    OffsetOfThree();
    AddressAdds(base, p, 3);
    AddressesDiffer(base, p + 1, p + 3);
  }

  // For example b.al: it is always taken, and its rewritten form always skips the branch pair.
  lemma AlwaysBranchSkipped(image: seq<bv32>, base: bv64, sem: Semantics, p: nat, m: Machine)
    requires Fits(|image|) && p + 3 <= |image| && image[p] == InvertedCondBranch(0x5400_000E)
    ensures Classify(0x5400_000E).BCond? && Taken(0x5400_000E, m)
    ensures Step(image, base, sem, Config(Address(base, p), m)).pc == Address(base, p + 3)
  {
    StepAt(image, base, sem, Config(Address(base, p), m), p);
    OffsetOfThree();
    AddressAdds(base, p, 3);
  }

  // ---------------------------------------------------------------- agreement

  // Equal apart from X17.
  ghost predicate Agree(m: Machine, m': Machine) {
    && m.sp == m'.sp && m.flags == m'.flags && m.mem == m'.mem && m.simd == m'.simd
    && forall r :: r != TMP ==> X(m, r) == X(m', r)
  }

  // Equal apart from X17 and the link register.
  ghost predicate AgreeButLink(m: Machine, m': Machine) {
    && m.sp == m'.sp && m.flags == m'.flags && m.mem == m'.mem && m.simd == m'.simd
    && forall r :: r != TMP && r != LR ==> X(m, r) == X(m', r)
  }

  lemma SetReads(m: Machine, r: bv32, v: bv64, q: bv32)
    ensures X(SetX(m, r, v), q) == if r == q && r != XZR then v else X(m, q)
  {
    if r != XZR {
      assert R(q) in SetX(m, r, v).x <==> R(q) in m.x || r == q;
    }
  }

  lemma AgreeSetTmp(m: Machine, m': Machine, v: bv64)
    requires Agree(m, m')
    ensures Agree(m, SetX(m', TMP, v))
  {
    forall r | r != TMP
      ensures X(m, r) == X(SetX(m', TMP, v), r)
    {
      SetReads(m', TMP, v, r);
    }
  }

  lemma AgreeSet(m: Machine, m': Machine, r: bv32, v: bv64)
    requires Agree(m, m')
    ensures Agree(SetX(m, r, v), SetX(m', r, v))
  {
    forall q | q != TMP
      ensures X(SetX(m, r, v), q) == X(SetX(m', r, v), q)
    {
      SetReads(m, r, v, q);
      SetReads(m', r, v, q);
    }
  }

  lemma AgreeLink(m: Machine, m': Machine, a: bv64, b: bv64)
    requires Agree(m, m')
    ensures var l, l' := SetX(m, LR, a), SetX(m', LR, b);
            AgreeButLink(l, l') && X(l, LR) == a && X(l', LR) == b
  {
    var l, l' := SetX(m, LR, a), SetX(m', LR, b);
    forall q | q != TMP && q != LR
      ensures X(l, q) == X(l', q)
    {
      SetReads(m, LR, a, q);
      SetReads(m', LR, b, q);
    }
    SetReads(m, LR, a, LR);
    SetReads(m', LR, b, LR);
  }

  lemma TakenAgrees(w: bv32, m: Machine, m': Machine)
    requires Agree(m, m') && Invertible(w) && (Classify(w).BCond? || Rt(w) != TMP)
    ensures Taken(w, m) <==> Taken(w, m')
  {
    if Classify(w).BCond? {
      CondIgnoresRegister(w, X(m, Rt(w)), X(m', Rt(w)), m.flags);
    } else {
      assert X(m, Rt(w)) == X(m', Rt(w));
    }
  }

  // Storing different values in r keeps agreement exactly when r is not a compared register.
  lemma AgreeSetExact(m: Machine, r: bv32, a: bv64, u: bv64, v: bv64)
    ensures Agree(SetX(m, r, u), SetX(SetX(m, TMP, a), r, v)) <==> u == v || r == XZR || r == TMP
  {
    var n := SetX(m, TMP, a);
    AgreeSetTmp(m, m, a);
    AgreeSet(m, n, r, u);
    SetReads(m, r, u, r);
    SetReads(n, r, v, r);
    if r == TMP {
      SetTwice(m, TMP, a, v);
      AgreeSetTmp(m, m, u);
      AgreeSetTmp(SetX(m, TMP, u), m, v);
    }
  }

  // The 32-bit literal load, the case the relocator gets wrong: the relocated code agrees with
  // the original exactly when the word above the literal is zero or the result is not kept.
  lemma WordLoadExact(image: seq<bv32>, base: bv64, sem: Semantics, p: nat, m: Machine, w: bv32, pc: bv64)
    requires Fits(|image|) && Classify(w).LdrLiteralW?
    requires Rewrite(w, pc).Some? && Holds(image, p, Rewrite(w, pc).value)
    ensures var a := Sum(pc, Imm19(w));
            Agree(Execute(w, pc, m, sem).m, Run(image, base, sem, Config(Address(base, p), m), 5).m) <==>
            Read32(m.mem, Plus4(a)) == 0 || Rt(w) == XZR || Rt(w) == TMP
  {
    hide Step, Run, Rewrite, MovWords, LdrFromTmpWord, Join, Read32, Imm19, Sum, Agree, X, SetX;
    var a, rt := Sum(pc, Imm19(w)), Rt(w);
    LoadRewrite(w, pc);
    RtInRange(w);
    RunLoadGroup(image, base, sem, p, m, a, rt);
    var lo, hi := Read32(m.mem, a), Read32(m.mem, Plus4(a));
    JoinExtends(lo, hi);
    AgreeSetExact(m, rt, a, lo as bv64, Join(lo, hi));
  }

  // For example ldr w0, #0 where the next word of memory is 1: the original clears the upper
  // half of X0, the relocated code does not.
  lemma WordLoadDiffers(image: seq<bv32>, base: bv64, sem: Semantics, m: Machine)
    requires Rewrite(0x1800_0000, 0).Some? && Holds(image, 0, Rewrite(0x1800_0000, 0).value)
    requires Fits(|image|) && Read32(m.mem, 4) == 1
    ensures !Agree(Execute(0x1800_0000, 0, m, sem).m, Run(image, base, sem, Config(base, m), 5).m)
  {
    hide Run, Agree, Rewrite, Read32, Execute;
    var w: bv32 := 0x1800_0000;
    assert Classify(w).LdrLiteralW? && Rt(w) == 0 && Imm19(w) == 0 && Plus4(0) == 4;
    WordLoadExact(image, base, sem, 0, m, w, 0);
    SumZero(0);
  }

  lemma JoinExtends(lo: bv32, hi: bv32)
    ensures Join(lo, hi) == lo as bv64 <==> hi == 0
  {
  }

  lemma RtInRange(w: bv32)
    ensures Rt(w) <= 31
  {
  }

  lemma LoadRewrite(w: bv32, pc: bv64)
    requires Classify(w).LdrLiteralX? || Classify(w).LdrLiteralW?
    ensures Rewrite(w, pc) == Some(Group(MovWords(TMP, Sum(pc, Imm19(w))) + [LdrFromTmpWord(Rt(w))], None, 0))
  {
    ClassesAgree(w);
    DecodesImm19(w);
    DecodesRt(w);
  }
}
