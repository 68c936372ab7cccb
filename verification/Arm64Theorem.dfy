/**
 The simulation theorem for whole blocks.
 */
module Arm64Theorem {
  import opened Wrappers
  import opened A64
  import opened LiteralPool
  import opened Arm64Relocation
  import opened Arm64Encoding
  import opened Arm64Execution
  import opened Arm64Simulation

  // A block at `start` and its relocated image at `base`.
  datatype Placement = Placement(block: seq<bv32>, start: bv64, image: seq<bv32>, base: bv64, sem: Semantics)

  // The address is in neither.
  ghost predicate Leaves(c: Placement, pc: bv64) {
    Outside(c.start, |c.block|, pc) && Outside(c.base, |c.image|, pc)
  }

  ghost predicate SameAction(a: Action, b: Action) {
    && (a.Next? <==> b.Next?) && (a.Goto? <==> b.Goto?)
    && (!a.Next? ==> a.target == b.target)
    && Agree(a.m, b.m)
  }

  // The meaning of a copied instruction does not involve X17.
  ghost predicate IgnoresTmp(w: bv32, sem: Semantics) {
    forall m, m' :: Agree(m, m') ==> SameAction(Plain(w, m, sem), Plain(w, m', sem))
  }

  // What the words of a block must satisfy.
  ghost predicate Portable(w: bv32, sem: Semantics) {
    match Classify(w)
    case LdrLiteralX => true
    case LdrLiteralW => true
    case Adr => true
    case Adrp => true
    case B => true
    case BL => true
    case TestBranch => Rt(w) != TMP
    case CompareBranch => Rt(w) != TMP
    case BCond => w & 15 < 14
    case _ => !IsLoadLiteral(w) && !IsConditionalBranch(w) && IgnoresTmp(w, sem)
  }

  // The word above the literal of a 32-bit literal load is zero, or its result is not compared.
  ghost predicate Widens(w: bv32, pc: bv64, m: Machine) {
    Classify(w).LdrLiteralW? ==>
      Read32(m.mem, Plus4(Sum(pc, Imm19(w)))) == 0 || Rt(w) == XZR || Rt(w) == TMP
  }

  // Running the original from word i on machine m branches only out of the block and the
  // image, does not write over the image, and loads 32-bit literals only where the 64-bit load
  // they are rewritten to gives the same.
  ghost predicate Tame(c: Placement, i: nat, m: Machine)
    decreases |c.block| - i
  {
    if i >= |c.block| then true
    else
      var a := Execute(c.block[i], Address(c.start, i), m, c.sem);
      && Widens(c.block[i], Address(c.start, i), m)
      && Confined(c, a) && (a.Next? ==> Tame(c, i + 1, a.m))
  }

  // The word the original leaves from, |block| when it runs through.
  ghost function ExitWord(c: Placement, i: nat, m: Machine): nat
    decreases |c.block| - i
  {
    if i >= |c.block| then |c.block|
    else
      var a := Execute(c.block[i], Address(c.start, i), m, c.sem);
      if a.Next? then ExitWord(c, i + 1, a.m) else i
  }

  // It leaves by a branch with link.
  ghost predicate ExitsByLink(c: Placement, i: nat, m: Machine)
    decreases |c.block| - i
  {
    i < |c.block| &&
    var a := Execute(c.block[i], Address(c.start, i), m, c.sem);
    if a.Next? then ExitsByLink(c, i + 1, a.m) else a.Link?
  }

  ghost predicate Confined(c: Placement, a: Action) {
    && Installed(a.m, c.base, c.image)
    && (!a.Next? ==> Leaves(c, a.target))
  }

  ghost predicate Relocated(c: Placement) {
    && Image(c.block, c.start) == Some(c.image)
    && Fits(|c.image|)
    && (forall i :: 0 <= i < |c.block| ==> Portable(c.block[i], c.sem))
    && Outside(c.base, |c.image|, Address(c.start, |c.block|))
  }

  // Position of the code for word i in the image.
  ghost function Position(c: Placement, i: nat): nat {
    var gs := Rewritten(c.block, c.start);
    if gs.Some? && i <= |gs.value| then Start(gs.value, i) else 0
  }

  // ---------------------------------------------------------------- what each class is rewritten to

  // The address ADR or ADRP computes.
  function PcRelative(w: bv32, pc: bv64): bv64 {
    if Classify(w).Adr? then Sum(pc, Imm21(w)) else Sum(PageOf(pc), Shift12(Imm21(w)))
  }

  lemma AddressRewrite(w: bv32, pc: bv64)
    requires Classify(w).Adr? || Classify(w).Adrp?
    ensures Rewrite(w, pc) == Some(Group(MovWords(Rt(w), PcRelative(w, pc)), None, 0))
  {
    hide MovWords, Rt, Sum, Shift12, PageOf, Imm21, DecodeRt, AlignFloor12, DecodeImmhiImmloOffset, DecodeImmhiImmloZero12Offset;
    ClassesAgree(w);
    BranchesExclusive(w);
    DecodesImm21(w);
    DecodesZero12(w);
    DecodesRt(w);
    AlignsToPage(pc);
  }

  lemma AddressExecute(w: bv32, pc: bv64, m: Machine, sem: Semantics)
    requires Classify(w).Adr? || Classify(w).Adrp?
    ensures Execute(w, pc, m, sem) == Next(SetX(m, Rt(w), PcRelative(w, pc)))
  {
    hide Rt, Sum, Shift12, PageOf, Imm21;
  }

  lemma BranchRewrite(w: bv32, pc: bv64)
    requires Classify(w).B? || Classify(w).BL?
    ensures Rewrite(w, pc) ==
            Some(Group([LDR_TMP_LITERAL, if Classify(w).BL? then BLR_TMP else BR_TMP], Some(Target(w, pc)), 0))
  {
    hide Sum, Imm26;
    ClassesAgree(w);
    BranchesExclusive(w);
    DecodesImm26(w);
  }

  lemma ConditionalRewrite(w: bv32, pc: bv64)
    requires Classify(w).TestBranch? || Classify(w).CompareBranch? || Classify(w).BCond?
    ensures Rewrite(w, pc) == Some(Group([Inverted(w), LDR_TMP_LITERAL, BR_TMP], Some(Target(w, pc)), 1))
  {
    hide Sum, Imm14, Imm19, InvertedTestBranch, InvertedCompareBranch, InvertedCondBranch;
    ClassesAgree(w);
    BranchesExclusive(w);
    DecodesImm14(w);
    DecodesImm19(w);
  }

  lemma CopyRewrite(w: bv32, pc: bv64)
    requires !IsPcRelative(Classify(w)) && !IsLoadLiteral(w) && !IsConditionalBranch(w)
    ensures Rewrite(w, pc) == Some(Group([w], None, 0))
  {
    ClassesAgree(w);
  }

  lemma GroupOfContents(gs: seq<Group<bv32>>, end: bv64, image: seq<bv32>, i: nat)
    requires Contents(gs, end, image) && i < |gs| && gs[i].words != []
    ensures Holds(image, Start(gs, i), gs[i])
  {
    hide LoadsLiteral, HasLiteral, Emit, Start;
    var g, p := gs[i], Start(gs, i);
    assert GroupWord(gs, image, i, |g.words| - 1);
    forall j | 0 <= j < |g.words|
      ensures HoldsWord(image, p, g, j)
    {
      assert GroupWord(gs, image, i, j);
    }
  }

  // The group of word i is in the image.
  lemma GroupPresent(c: Placement, i: nat)
    requires Image(c.block, c.start) == Some(c.image) && i < |c.block|
    ensures Rewrite(c.block[i], Address(c.start, i)).Some?
    ensures var g := Rewrite(c.block[i], Address(c.start, i)).value;
            Holds(c.image, Position(c, i), g) && Position(c, i + 1) == Position(c, i) + |g.words|
  {
    hide Rewrite, BranchTo, BindAll, Contents, Holds, Emit, LinkAt;
    var gs := Rewritten(c.block, c.start).value;
    ImageContents(c.block, c.start);
    hide Image, Rewritten;
    RewrittenAt(c.block, c.start, i);
    RewrittenShape(c.block, c.start);
    assert WellShaped(gs[i], LDR_TMP_LITERAL);
    GroupOfContents(gs, Address(c.start, |c.block|), c.image, i);
    GroupStep(gs, i);
  }

  // ---------------------------------------------------------------- one instruction

  // The two machines stand before word i.
  ghost predicate Match(c: Placement, i: nat, s: Config, s': Config) {
    && s.pc == Address(c.start, i) && s'.pc == Address(c.base, Position(c, i))
    && Agree(s.m, s'.m) && Installed(s'.m, c.base, c.image)
  }

  // The action the original takes at word i.
  ghost function ActionAt(c: Placement, i: nat, s: Config): Action
    requires i < |c.block|
  {
    Execute(c.block[i], s.pc, s.m, c.sem)
  }

  // Both have left from word i to the same address; after a call the link registers point to
  // the respective successors, otherwise the machines agree.
  ghost predicate Gone(c: Placement, i: nat, s: Config, s': Config, linked: bool) {
    && s.pc == s'.pc && Leaves(c, s.pc)
    && if linked then i < |c.block| && Called(c, i, s, s') else Agree(s.m, s'.m)
  }

  ghost predicate Called(c: Placement, i: nat, s: Config, s': Config) {
    && AgreeButLink(s.m, s'.m)
    && X(s.m, LR) == Address(c.start, i + 1) && X(s'.m, LR) == Address(c.base, Position(c, i + 1))
  }

  // The original takes one step while the image takes `steps`.
  ghost predicate Follows(c: Placement, i: nat, s: Config, s': Config, steps: nat) {
    var t, t' := Step(c.block, c.start, c.sem, s), Run(c.image, c.base, c.sem, s', steps);
    1 <= steps <= 5 && i < |c.block| && if ActionAt(c, i, s).Next? then Match(c, i + 1, t, t') else Gone(c, i, t, t', ActionAt(c, i, s).Link?)
  }

  lemma AgreeInstalled(c: Placement, m: Machine, m': Machine)
    requires Installed(m, c.base, c.image) && m.mem == m'.mem
    ensures Installed(m', c.base, c.image)
  {
  }

  lemma SetKeepsMemory(m: Machine, r: bv32, v: bv64)
    ensures SetX(m, r, v).mem == m.mem
  {
  }

  lemma FollowLoad(c: Placement, i: nat, s: Config, s': Config) returns (steps: nat)
    requires Image(c.block, c.start) == Some(c.image) && Fits(|c.image|) && |c.block| <= |c.image|
    requires i < |c.block| && Match(c, i, s, s') && Classify(c.block[i]).LdrLiteralX?
    ensures Follows(c, i, s, s', steps)
  {
    hide Classify, Rewrite, MovWords, LdrFromTmpWord, Rt, Imm19, Sum, Read64, Step, Run, Installed, Agree, SetX, Position, Image, Fits;
    FitsLess(|c.block|, |c.image|);
    steps := 5;
    var w := c.block[i];
    var pc := s.pc;
    var a := Sum(pc, Imm19(w));
    StepAt(c.block, c.start, c.sem, s, i);
    GroupPresent(c, i);
    LoadRewrite(w, pc);
    RtInRange(w);
    RunLoadGroup(c.image, c.base, c.sem, Position(c, i), s'.m, a, Rt(w));
    AgreeSetTmp(s.m, s'.m, a);
    AgreeMemory(s.m, s'.m);
    AgreeSet(s.m, SetX(s'.m, TMP, a), Rt(w), Read64(s.m.mem, a));
    SetKeepsMemory(s'.m, TMP, a);
    SetKeepsMemory(SetX(s'.m, TMP, a), Rt(w), Read64(s.m.mem, a));
    AgreeInstalled(c, s'.m, SetX(SetX(s'.m, TMP, a), Rt(w), Read64(s.m.mem, a)));
    MovLength(TMP, a);
  }

  lemma AgreeWord(m: Machine, m': Machine, r: bv32, a: bv64, lo: bv32, hi: bv32)
    requires Agree(m, m') && (hi == 0 || r == XZR || r == TMP)
    ensures Agree(SetX(m, r, lo as bv64), SetX(SetX(m', TMP, a), r, Join(lo, hi)))
  {
    hide Agree, SetX, X, Join;
    var v, n := lo as bv64, SetX(m', TMP, a);
    JoinExtends(lo, hi);
    AgreeSetTmp(m, m', a);
    if r == TMP {
      AgreeSetTmp(m, n, Join(lo, hi));
      AgreeSym(m, SetX(n, TMP, Join(lo, hi)));
      AgreeSetTmp(SetX(n, TMP, Join(lo, hi)), m, v);
      AgreeSym(SetX(n, TMP, Join(lo, hi)), SetX(m, TMP, v));
    } else if hi == 0 {
      AgreeSet(m, n, r, v);
    } else {
      ZeroIgnoresWrites(m, v);
      ZeroIgnoresWrites(n, Join(lo, hi));
    }
  }

  lemma AgreeSym(m: Machine, m': Machine)
    requires Agree(m, m')
    ensures Agree(m', m)
  {
    hide X;
  }

  lemma ZeroIgnoresWrites(m: Machine, v: bv64)
    ensures SetX(m, XZR, v) == m
  {
  }

  // The 32-bit literal load, where the 64-bit load it is rewritten to gives the same.
  lemma FollowWordLoad(c: Placement, i: nat, s: Config, s': Config) returns (steps: nat)
    requires Image(c.block, c.start) == Some(c.image) && Fits(|c.image|) && |c.block| <= |c.image|
    requires i < |c.block| && Match(c, i, s, s') && Classify(c.block[i]).LdrLiteralW?
    requires Widens(c.block[i], s.pc, s.m)
    ensures Follows(c, i, s, s', steps)
  {
    hide Classify, Rewrite, MovWords, LdrFromTmpWord, Rt, Imm19, Sum, Read32, Join, Step, Run, Installed, Agree, SetX, Position, Image, Fits;
    FitsLess(|c.block|, |c.image|);
    steps := 5;
    var w := c.block[i];
    var a := Sum(s.pc, Imm19(w));
    var lo, hi := Read32(s.m.mem, a), Read32(s.m.mem, Plus4(a));
    StepAt(c.block, c.start, c.sem, s, i);
    GroupPresent(c, i);
    LoadRewrite(w, s.pc);
    RtInRange(w);
    AgreeMemory(s.m, s'.m);
    RunLoadGroup(c.image, c.base, c.sem, Position(c, i), s'.m, a, Rt(w));
    AgreeWord(s.m, s'.m, Rt(w), a, lo, hi);
    SetKeepsMemory(s'.m, TMP, a);
    SetKeepsMemory(SetX(s'.m, TMP, a), Rt(w), Join(lo, hi));
    AgreeInstalled(c, s'.m, SetX(SetX(s'.m, TMP, a), Rt(w), Join(lo, hi)));
    MovLength(TMP, a);
  }

  lemma MovLength(rd: bv32, imm: bv64)
    ensures |MovWords(rd, imm)| == 4
  {
  }

  lemma AgreeMemory(m: Machine, m': Machine)
    requires Agree(m, m')
    ensures m.mem == m'.mem
  {
  }

  lemma FollowAddress(c: Placement, i: nat, s: Config, s': Config) returns (steps: nat)
    requires Image(c.block, c.start) == Some(c.image) && Fits(|c.image|) && |c.block| <= |c.image|
    requires i < |c.block| && Match(c, i, s, s') && (Classify(c.block[i]).Adr? || Classify(c.block[i]).Adrp?)
    ensures Follows(c, i, s, s', steps)
  {
    hide Classify, Rewrite, MovWords, Rt, Execute, PcRelative, Step, Run, Installed, Agree, SetX, Position, Image, Fits;
    steps := 4;
    var w := c.block[i];
    var a := PcRelative(w, s.pc);
    FitsLess(|c.block|, |c.image|);
    StepAt(c.block, c.start, c.sem, s, i);
    GroupPresent(c, i);
    AddressRewrite(w, s.pc);
    AddressExecute(w, s.pc, s.m, c.sem);
    RtInRange(w);
    MovLength(Rt(w), a);
    var p := Position(c, i);
    forall j | 0 <= j < 4
      ensures c.image[p + j] == MovWords(Rt(w), a)[j]
    {
      assert HoldsWord(c.image, p, Group(MovWords(Rt(w), a), None, 0), j);
    }
    MovSteps(c.image, c.base, c.sem, s'.m, p, Rt(w), a);
    AgreeSet(s.m, s'.m, Rt(w), a);
    SetKeepsMemory(s'.m, Rt(w), a);
    AgreeInstalled(c, s'.m, SetX(s'.m, Rt(w), a));
  }

  lemma FollowBranch(c: Placement, i: nat, s: Config, s': Config) returns (steps: nat)
    requires Image(c.block, c.start) == Some(c.image) && Fits(|c.image|) && |c.block| <= |c.image|
    requires i < |c.block| && Match(c, i, s, s') && (Classify(c.block[i]).B? || Classify(c.block[i]).BL?)
    requires Confined(c, ActionAt(c, i, s))
    ensures Follows(c, i, s, s', steps)
  {
    hide Classify, Rewrite, Target, Step, Run, Installed, Agree, AgreeButLink, X, SetX, Position, Outside, Image, Fits;
    FitsLess(|c.block|, |c.image|);
    steps := 2;
    var w := c.block[i];
    var target := Target(w, s.pc);
    StepAt(c.block, c.start, c.sem, s, i);
    GroupPresent(c, i);
    BranchRewrite(w, s.pc);
    var p := Position(c, i);
    RunBranchGroup(c.image, c.base, c.sem, p, s'.m, target, if Classify(w).BL? then BLR_TMP else BR_TMP);
    BranchesDiffer();
    AgreeSetTmp(s.m, s'.m, target);
    AgreeLink(s.m, SetX(s'.m, TMP, target), Address(c.start, i + 1), Address(c.base, p + 2));
  }

  lemma FollowConditional(c: Placement, i: nat, s: Config, s': Config) returns (steps: nat)
    requires Image(c.block, c.start) == Some(c.image) && Fits(|c.image|) && |c.block| <= |c.image|
    requires i < |c.block| && Match(c, i, s, s') && Invertible(c.block[i])
    requires Classify(c.block[i]).BCond? || Rt(c.block[i]) != TMP
    requires Confined(c, ActionAt(c, i, s))
    ensures Follows(c, i, s, s', steps)
  {
    hide Classify, Rewrite, Target, Taken, Inverted, Rt, Step, Run, Installed, Agree, SetX, Position, Outside, Image, Fits;
    FitsLess(|c.block|, |c.image|);
    var w := c.block[i];
    var target := Target(w, s.pc);
    StepAt(c.block, c.start, c.sem, s, i);
    GroupPresent(c, i);
    ConditionalRewrite(w, s.pc);
    RunConditionalGroup(c.image, c.base, c.sem, Position(c, i), s'.m, w, target);
    TakenAgrees(w, s.m, s'.m);
    AgreeSetTmp(s.m, s'.m, target);
    steps := if Taken(w, s.m) then 3 else 1;
  }

  lemma FollowCopy(c: Placement, i: nat, s: Config, s': Config) returns (steps: nat)
    requires Image(c.block, c.start) == Some(c.image) && Fits(|c.image|) && |c.block| <= |c.image|
    requires i < |c.block| && Match(c, i, s, s')
    requires var w := c.block[i]; !IsPcRelative(Classify(w)) && !IsLoadLiteral(w) && !IsConditionalBranch(w) && IgnoresTmp(w, c.sem)
    requires Confined(c, ActionAt(c, i, s))
    ensures Follows(c, i, s, s', steps)
  {
    hide Classify, Rewrite, IsLoadLiteral, IsConditionalBranch, IsPcRelative, IgnoresTmp, Execute, Plain, Step, Run;
    hide Installed, Agree, AgreeButLink, X, SetX, Position, Outside, Image, Fits;
    steps := 1;
    var w, p := c.block[i], Position(c, i);
    FitsLess(|c.block|, |c.image|);
    StepAt(c.block, c.start, c.sem, s, i);
    GroupPresent(c, i);
    CopyRewrite(w, s.pc);
    assert HoldsWord(c.image, p, Group([w], None, 0), 0);
    StepAt(c.image, c.base, c.sem, s', p);
    RunOne(c.image, c.base, c.sem, s');
    ExecutesPlain(w, s.pc, s.m, c.sem);
    ExecutesPlain(w, s'.pc, s'.m, c.sem);
    var a, a' := Plain(w, s.m, c.sem), Plain(w, s'.m, c.sem);
    CopyAgrees(c, w, s.m, s'.m);
    AgreeLink(a.m, a'.m, Address(c.start, i + 1), Address(c.base, p + 1));
  }

  lemma ExecutesPlain(w: bv32, pc: bv64, m: Machine, sem: Semantics)
    requires !IsPcRelative(Classify(w))
    ensures Execute(w, pc, m, sem) == Plain(w, m, sem)
  {
    hide Classify, Plain;
  }

  lemma CopyAgrees(c: Placement, w: bv32, m: Machine, m': Machine)
    requires IgnoresTmp(w, c.sem) && Agree(m, m') && Confined(c, Plain(w, m, c.sem))
    ensures SameAction(Plain(w, m, c.sem), Plain(w, m', c.sem))
    ensures Installed(Plain(w, m', c.sem).m, c.base, c.image)
  {
    hide Plain, Installed;
    var a, a' := Plain(w, m, c.sem), Plain(w, m', c.sem);
    assert SameAction(a, a');
    AgreeInstalled(c, a.m, a'.m);
  }

  lemma FollowAny(c: Placement, i: nat, s: Config, s': Config) returns (steps: nat)
    requires Relocated(c) && |c.block| <= |c.image| && i < |c.block| && Match(c, i, s, s')
    requires Confined(c, ActionAt(c, i, s)) && Widens(c.block[i], s.pc, s.m)
    ensures Follows(c, i, s, s', steps)
  {
    hide Widens;
    hide Classify, Follows, Image, Fits, IgnoresTmp, Confined, ActionAt, Outside, IsLoadLiteral, IsConditionalBranch, Rt, Match;
    var w := c.block[i];
    assert Portable(w, c.sem);
    match Classify(w) {
      case LdrLiteralX => steps := FollowLoad(c, i, s, s');
      case LdrLiteralW => steps := FollowWordLoad(c, i, s, s');
      case Adr => steps := FollowAddress(c, i, s, s');
      case Adrp => steps := FollowAddress(c, i, s, s');
      case B => steps := FollowBranch(c, i, s, s');
      case BL => steps := FollowBranch(c, i, s, s');
      case TestBranch => steps := FollowConditional(c, i, s, s');
      case CompareBranch => steps := FollowConditional(c, i, s, s');
      case BCond => steps := FollowConditional(c, i, s, s');
      case _ => steps := FollowCopy(c, i, s, s');
    }
  }

  lemma AtStart(c: Placement, i: nat, s: Config, s': Config)
    requires Match(c, i, s, s')
    ensures s.pc == Address(c.start, i)
  {
  }

  // ---------------------------------------------------------------- the block

  lemma {:induction false} StaysOutside(code: seq<bv32>, base: bv64, sem: Semantics, s: Config, n: nat)
    requires Outside(base, |code|, s.pc)
    ensures Run(code, base, sem, s, n) == s
    decreases n
  {
    if n > 0 {
      StaysOutside(code, base, sem, s, n - 1);
    }
  }

  lemma ImageEnd(c: Placement)
    requires Image(c.block, c.start) == Some(c.image)
    ensures |c.block| <= |c.image| && Position(c, 0) == 0
    ensures Position(c, |c.block|) + 4 <= |c.image|
    ensures LoadsLiteral(c.image, Position(c, |c.block|), Position(c, |c.block|) + 2, Address(c.start, |c.block|))
    ensures c.image[Position(c, |c.block|) + 1] == BR_TMP
  {
    hide LoadsLiteral, GroupWord, LinkAt, Rewrite, BranchTo, BindAll;
    var gs := Rewritten(c.block, c.start).value;
    ImageContents(c.block, c.start);
    RewrittenShape(c.block, c.start);
    hide Image, Rewritten;
    assert gs[..|gs|] == gs && gs[..0] == [];
    EmitAtLeast(gs);
  }

  lemma {:induction false} EmitAtLeast(gs: seq<Group<bv32>>)
    requires AllWellShaped(gs, LDR_TMP_LITERAL)
    ensures |gs| <= |Emit(gs).words|
  {
    if gs != [] {
      EmitAtLeast(gs[..|gs| - 1]);
    }
  }

  // The closing branch leads to the first instruction after the block.
  lemma FollowEnd(c: Placement, s: Config, s': Config)
    requires Image(c.block, c.start) == Some(c.image) && Fits(|c.image|) && Match(c, |c.block|, s, s')
    requires Outside(c.base, |c.image|, Address(c.start, |c.block|))
    ensures var t' := Run(c.image, c.base, c.sem, s', 2);
            s.pc == t'.pc && Leaves(c, s.pc) && Agree(s.m, t'.m)
  {
    hide LoadsLiteral, Image, Fits, Outside, Position, Installed, Agree, Step, Run, SetX, X;
    ImageEnd(c);
    var p, end := Position(c, |c.block|), Address(c.start, |c.block|);
    LoadStep(c.image, c.base, c.sem, s', p, p + 2, end);
    SetTwice(s'.m, TMP, end, end);
    BranchStep(c.image, c.base, c.sem, Config(Address(c.base, p + 1), SetX(s'.m, TMP, end)), p + 1);
    RunTwo(c.image, c.base, c.sem, s');
    AgreeSetTmp(s.m, s'.m, end);
    FitsLess(|c.block|, |c.image|);
    EndOutside(c.start, |c.block|);
  }

  lemma FitsLess(j: nat, n: nat)
    requires j <= n && Fits(n)
    ensures Fits(j)
  {
  }

  // From word i on, both machines leave, from the same word and to the same address.
  lemma {:induction false} Simulates(c: Placement, i: nat, s: Config, s': Config) returns (j: nat)
    requires Relocated(c) && i <= |c.block| && Match(c, i, s, s') && Tame(c, i, s.m)
    ensures var left := |c.block| - i;
            var t, t' := Run(c.block, c.start, c.sem, s, left), Run(c.image, c.base, c.sem, s', 5 * left + 2);
            j == ExitWord(c, i, s.m) && Gone(c, j, t, t', ExitsByLink(c, i, s.m))
    decreases |c.block| - i
  {
    hide Relocated, Match, Image, Fits, Position, Called, Agree, Step, Outside, Execute, Confined, Widens;
    var left := |c.block| - i;
    if left == 0 {
      EndFacts(c);
      FollowEnd(c, s, s');
      j := i;
    } else {
      EndFacts(c);
      AtStart(c, i, s, s');
      var steps := FollowAny(c, i, s, s');
      StepAtWord(c, i, s);
      var t, t' := Step(c.block, c.start, c.sem, s), Run(c.image, c.base, c.sem, s', steps);
      var rest := 5 * left + 2 - steps;
      RunAdds(c.image, c.base, c.sem, s', steps, rest);
      if ActionAt(c, i, s).Next? {
        j := Simulates(c, i + 1, t, t');
        var u, u' := Run(c.block, c.start, c.sem, t, left - 1), Run(c.image, c.base, c.sem, t', 5 * (left - 1) + 2);
        RunAdds(c.image, c.base, c.sem, t', 5 * (left - 1) + 2, 5 - steps);
        StaysOutside(c.image, c.base, c.sem, u', 5 - steps);
        assert rest == 5 * (left - 1) + 2 + (5 - steps);
      } else {
        j := i;
        StaysOutside(c.block, c.start, c.sem, t, left - 1);
        StaysOutside(c.image, c.base, c.sem, t', rest);
      }
    }
  }

  lemma StepAtWord(c: Placement, i: nat, s: Config)
    requires Fits(|c.image|) && i < |c.block| <= |c.image| && s.pc == Address(c.start, i)
    ensures Step(c.block, c.start, c.sem, s) == Advance(ActionAt(c, i, s), s.pc)
  {
    hide Execute, Step;
    FitsLess(|c.block|, |c.image|);
    StepAt(c.block, c.start, c.sem, s, i);
  }

  lemma EndFacts(c: Placement)
    requires Relocated(c)
    ensures Image(c.block, c.start) == Some(c.image) && Fits(|c.image|) && |c.block| <= |c.image|
    ensures Outside(c.base, |c.image|, Address(c.start, |c.block|))
    ensures Position(c, 0) == 0
  {
    hide Portable, Image, Position;
    ImageEnd(c);
  }

  // For every relocatable block and every pair of machines that agree apart from X17, with the
  // image installed and the original run staying clear of it: both runs leave their code, to
  // the same address. If the original leaves by a call, the machines agree apart from X17 and
  // the link registers, which point to the call's successor and to its relocated successor;
  // otherwise they agree apart from X17.
  lemma RelocationCorrect(c: Placement, m: Machine, m': Machine)
    requires Relocated(c) && Agree(m, m') && Installed(m', c.base, c.image) && Tame(c, 0, m)
    ensures var t := Run(c.block, c.start, c.sem, Config(c.start, m), |c.block|);
            var t' := Run(c.image, c.base, c.sem, Config(c.base, m'), 5 * |c.block| + 2);
            && t.pc == t'.pc && Leaves(c, t.pc)
            && if ExitsByLink(c, 0, m) then ExitWord(c, 0, m) < |c.block| && Called(c, ExitWord(c, 0, m), t, t')
               else Agree(t.m, t'.m)
  {
    hide Relocated, Image, Position, Installed, Agree, Called, Step, Run, Outside, Tame, ExitWord, ExitsByLink;
    EndFacts(c);
    var s, s' := Config(c.start, m), Config(c.base, m');
    assert Match(c, 0, s, s');
    var j := Simulates(c, 0, s, s');
  }
}
