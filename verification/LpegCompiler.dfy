/** The LPeg compiler as it runs: it appends to and patches one code array
    (deps/lpeg/lpcode.c), and ends with jump optimisation. */
module LpegCompiler {
  import opened Common
  import opened LpegTree
  import opened LpegAnalysis
  import opened LpegMachine
  import opened LpegCodegen
  import opened LpegCorrectness
  import opened LpegPeephole
  import opened LpegLayout

  const NOINST := -1

  /** What the test at address `tt` (none when negative) says about the next character. */
  function DominatorAt(code: Code, tt: int): Dominator
    requires tt < |code|
  {
    if tt < 0 then NoTest
    else
      match code[tt]
      case ITestChar(c) => DomChar(c)
      case ITestSet => if HasBuffer(code, tt + 2) then DomSet(code[tt + 2].cs) else DomOther
      case _ => DomOther
  }

  /** `tt` is no test at all, or a whole test instruction already in the code. */
  predicate TestIn(code: Code, tt: int) {
    tt < 0 || (tt < |code| && tt + SizeI(code[tt]) <= |code| && (code[tt].ITestSet? ==> code[tt + 2].Buffer?))
  }

  lemma DominatorKept(code: Code, tt: int, more: Code)
    requires TestIn(code, tt)
    ensures TestIn(code + more, tt) && DominatorAt(code + more, tt) == DominatorAt(code, tt)
  {}

  // ----- Emitting in pieces and patching later builds the code shapes. -----
  // Below, o is the code before, and c1, c2, ... the successive states of the code array.

  lemma Cat(o: Code, f: Code, x: Code)
    ensures o + f + x == o + (f + x)
  {}

  lemma Patch(o: Code, f: Code, j: nat, v: Instr)
    requires j < |f|
    ensures (o + f)[|o| + j := v] == o + f[j := v]
  {}

  /** Patching slot 1 of a two-slot instruction inside a fragment. */
  lemma PatchPair(a: Code, op: Instr, n: int, b: Code)
    ensures (a + [op, Offset(0)] + b)[|a| + 1 := Offset(n)] == a + [op, Offset(n)] + b
  {}

  /** A test with its offset filled in; nothing when there is no test. */
  function Filled(t0: Code, n: int): Code {
    if |t0| >= 2 then t0[1 := Offset(n)] else t0
  }

  lemma FilledTest(cs: Charset, e: bool, n: int)
    ensures Filled(GenTest(cs, e, 0), n) == GenTest(cs, e, n)
    ensures |GenTest(cs, e, 0)| == TestSize(cs, e) == |GenTest(cs, e, n)|
  {}

  lemma PatchFilled(o: Code, t0: Code, n: int, rest: Code)
    requires |t0| >= 2
    ensures (o + (t0 + rest))[|o| + 1 := Offset(n)] == o + (Filled(t0, n) + rest)
  {}

  /** A slot patched by `jumptohere`. */
  function Patched(c: Code, i: int): Code
    requires i < 0 || i + 1 < |c|
  {
    if i >= 0 then c[i + 1 := Offset(|c| - i)] else c
  }

  lemma PatchedLength(c: Code, i: int)
    requires i < 0 || i + 1 < |c|
    ensures |Patched(c, i)| == |c|
  {}

  lemma TestHasOffset(cs: Charset, e: bool)
    ensures if e then GenTest(cs, e, 0) == [] else |GenTest(cs, e, 0)| >= 2
  {}

  // the shapes in terms of a filled test

  lemma TestChoiceShape(cs: Charset, g1: Code, emptyp2: bool, g2: Code)
    ensures var t0 := GenTest(cs, false, 0);
            var j := if emptyp2 then [] else [IJmp, Offset(2 + |g2|)];
            TestChoiceCode(cs, g1, emptyp2, g2) == Filled(t0, |t0| + |g1| + |j|) + g1 + j + g2
  {
    hide GenTest, TestSize, Filled;
    var j := if emptyp2 then [] else [IJmp, Offset(2 + |g2|)];
    FilledTest(cs, false, TestSize(cs, false) + |g1| + |j|);
  }

  lemma ChoiceShape(f: First, g1: Code, g2: Code)
    ensures var t0 := GenTest(f.cs, f.e, 0);
            ChoiceCode(f, g1, g2) == Filled(t0, |t0| + 4 + |g1|) + (GuardedCode(g1, |g2|) + g2)
  {
    hide GenTest, TestSize, Filled;
    FilledTest(f.cs, f.e, TestSize(f.cs, f.e) + 4 + |g1|);
  }

  lemma TestRepShape(cs: Charset, g: Code)
    ensures var t0 := GenTest(cs, false, 0);
            TestRepCode(cs, g) == Filled(t0, |t0| + |g| + 2) + g + [IJmp, Offset(-(|t0| + |g|))]
  {
    hide GenTest, TestSize, Filled;
    FilledTest(cs, false, TestSize(cs, false) + |g| + 2);
  }

  lemma RepShape(f: First, opt: bool, g: Code)
    ensures var t0 := GenTest(f.cs, f.e, 0);
            RepCode(f, opt, g) == Filled(t0, |t0| + 4 + |g|) + (RepHead(opt, |g|) + LoopCode(g))
  {
    hide GenTest, TestSize, Filled;
    FilledTest(f.cs, f.e, TestSize(f.cs, f.e) + 4 + |g|);
  }

  lemma PartialCommitPatched(c: Code)
    ensures Patched(c + [IPartialCommit, Offset(0)], |c|) == c + [IPartialCommit, Offset(2)]
  {}

  lemma AndIs(t: Tree, d: Dominator)
    requires t.TAnd?
    ensures Gen(t, false, d, FULLSET) == AndCode(FixedLen(t.body), Gen(t.body, false, d, FULLSET))
  {}

  lemma NoTestIn(c: Code)
    ensures TestIn(c, NOINST) && DominatorAt(c, NOINST) == NoTest
  {}

  lemma TestChoiceAssembled(o: Code, t0: Code, g1: Code, emptyp2: bool, g2: Code,
                            c1: Code, c2: Code, c3: Code, c4: Code, c5: Code, test: int, jmp: int)
    requires emptyp2 ==> g2 == []
    requires c1 == o + t0 && test == |o| && |t0| >= 2
    requires c2 == c1 + g1
    requires c3 == (if emptyp2 then c2 else c2 + [IJmp, Offset(0)]) && jmp == (if emptyp2 then NOINST else |c2|)
    requires c4 == Patched(c3, test)
    requires c5 == c4 + g2
    ensures jmp < 0 || jmp + 1 < |c5|
    ensures var j := if emptyp2 then [] else [IJmp, Offset(2 + |g2|)];
            Patched(c5, jmp) == o + (Filled(t0, |t0| + |g1| + |j|) + g1 + j + g2)
  {
    var j0 := if emptyp2 then [] else [IJmp, Offset(0)];
    var n := |t0| + |g1| + |j0|;
    var t1 := Filled(t0, n);
    assert c3 == o + (t0 + (g1 + j0));
    PatchFilled(o, t0, n, g1 + j0);
    assert c5 == o + (t1 + g1 + j0 + g2);
    if !emptyp2 {
      Patch(o, t1 + g1 + j0 + g2, |t1 + g1| + 1, Offset(2 + |g2|));
      PatchPair(t1 + g1, IJmp, 2 + |g2|, g2);
    }
  }

  lemma GuardedAssembled(o: Code, t0: Code, g1: Code, c1: Code, c2: Code, c3: Code, c4: Code, c5: Code, c6: Code,
                         test: int, pchoice: int)
    requires c1 == o + t0 && (|t0| >= 2 || t0 == []) && test == (if t0 == [] then NOINST else |o|)
    requires c2 == c1 + [IChoice, Offset(0)] && pchoice == |c1|
    requires c3 == c2 + g1
    requires c4 == c3 + [ICommit, Offset(0)]
    requires c5 == Patched(c4, pchoice)
    requires test + 1 < |c5| && c6 == Patched(c5, test)
    ensures c6 == o + (Filled(t0, |t0| + 4 + |g1|) + ([IChoice, Offset(4 + |g1|)] + g1 + [ICommit, Offset(0)]))
  {
    var body := [IChoice, Offset(4 + |g1|)] + g1 + [ICommit, Offset(0)];
    var tail := g1 + [ICommit, Offset(0)];
    assert c4 == o + t0 + [IChoice, Offset(0)] + tail;
    PatchPair(o + t0, IChoice, 4 + |g1|, tail);
    assert c5 == o + (t0 + body);
    if t0 != [] {
      PatchFilled(o, t0, |t0| + 4 + |g1|, body);
    }
  }

  lemma ChoiceAssembled(o: Code, t1: Code, g1: Code, g2: Code, c1: Code, c2: Code, pcommit: int)
    requires c1 == o + (t1 + ([IChoice, Offset(4 + |g1|)] + g1 + [ICommit, Offset(0)]))
    requires c2 == c1 + g2 && pcommit == |c1| - 2
    ensures 0 <= pcommit && pcommit + 1 < |c2|
    ensures Patched(c2, pcommit) == o + (t1 + (GuardedCode(g1, |g2|) + g2))
  {
    var head := [IChoice, Offset(4 + |g1|)] + g1;
    assert c2 == (o + t1 + head) + [ICommit, Offset(0)] + g2;
    PatchPair(o + t1 + head, ICommit, 2 + |g2|, g2);
  }

  lemma TestRepAssembled(o: Code, t0: Code, g: Code, c1: Code, c2: Code, c3: Code, c4: Code, test: int, jmp: int)
    requires c1 == o + t0 && test == |o| && |t0| >= 2
    requires c2 == c1 + g
    requires c3 == c2 + [IJmp, Offset(0)] && jmp == |c2|
    requires c4 == Patched(c3, test)
    ensures jmp + 1 < |c4|
    ensures var n := |t0| + |g|;
            c4[jmp + 1 := Offset(test - jmp)] == o + (Filled(t0, n + 2) + g + [IJmp, Offset(-n)])
  {
    var n := |t0| + |g|;
    var t1 := Filled(t0, n + 2);
    assert c3 == o + (t0 + (g + [IJmp, Offset(0)]));
    PatchFilled(o, t0, n + 2, g + [IJmp, Offset(0)]);
    assert c4 == (o + t1 + g) + [IJmp, Offset(0)] + [];
    PatchPair(o + t1 + g, IJmp, -n, []);
  }

  lemma LoopAssembled(c0: Code, g: Code, c1: Code, c2: Code, commit: int)
    requires c1 == c0 + g
    requires c2 == c1 + [IPartialCommit, Offset(0)] && commit == |c1|
    ensures c2[commit + 1 := Offset(|c0| - commit)] == c0 + LoopCode(g)
  {
    assert c2 == c0 + g + [IPartialCommit, Offset(0)] + [];
    PatchPair(c0 + g, IPartialCommit, -|g|, []);
  }

  lemma RepAssembled(o: Code, t0: Code, opt: bool, g: Code, c1: Code, c2: Code, c3: Code, c4: Code,
                     test: int, pchoice: int)
    requires c1 == o + t0 && (|t0| >= 2 || t0 == []) && test == (if t0 == [] then NOINST else |o|)
    requires c2 == c1 + (if opt then [IPartialCommit, Offset(2)] else [IChoice, Offset(0)])
    requires pchoice == if opt then NOINST else |c1|
    requires c3 == c2 + LoopCode(g)
    requires pchoice + 1 < |c3| && c4 == Patched(c3, pchoice)
    ensures test + 1 < |c4|
    ensures Patched(c4, test) == o + (Filled(t0, |t0| + 4 + |g|) + (RepHead(opt, |g|) + LoopCode(g)))
  {
    var body := RepHead(opt, |g|) + LoopCode(g);
    if !opt {
      PatchPair(o + t0, IChoice, 4 + |g|, LoopCode(g));
    }
    assert c4 == o + (t0 + body);
    if t0 != [] {
      PatchFilled(o, t0, |t0| + 4 + |g|, body);
    }
  }

  lemma NegationAssembled(o: Code, g: Code, c1: Code, c2: Code, c3: Code, pchoice: int)
    requires c1 == o + [IChoice, Offset(0)] && pchoice == |o|
    requires c2 == c1 + g
    requires c3 == c2 + [IFailTwice]
    ensures Patched(c3, pchoice) == o + ([IChoice, Offset(3 + |g|)] + g + [IFailTwice])
  {
    assert c3 == o + [IChoice, Offset(0)] + (g + [IFailTwice]);
    PatchPair(o, IChoice, 3 + |g|, g + [IFailTwice]);
  }

  /** fail   or   choice L1; p; failtwice; L1: */
  function NotBody(p: Tree): Code {
    if HeadFail(p) then [IFail]
    else
      var g := Gen(p, false, NoTest, FULLSET);
      [IChoice, Offset(3 + |g|)] + g + [IFailTwice]
  }

  lemma NotIsTested(t: Tree)
    requires t.TNot?
    ensures var f := GetFirst(t.body, FULLSET);
            var body := NotBody(t.body);
            Gen(t, false, NoTest, FULLSET) == GenTest(f.cs, f.e, TestSize(f.cs, f.e) + |body|) + body
  {
    hide GetFirst, HeadFail, CheckAux, GenTest, TestSize;
  }

  lemma TestedAssembled(o: Code, t0: Code, body: Code, c1: Code, c2: Code, test: int)
    requires c1 == o + t0 && (|t0| >= 2 || t0 == []) && test == (if t0 == [] then NOINST else |o|)
    requires c2 == c1 + body
    ensures test < 0 || test + 1 < |c2|
    ensures Patched(c2, test) == o + (Filled(t0, |t0| + |body|) + body)
  {
    assert c2 == o + (t0 + body);
    if t0 != [] {
      PatchFilled(o, t0, |t0| + |body|, body);
    }
  }

  lemma AndAssembled(o: Code, g: Code, c1: Code, c2: Code, c3: Code, c4: Code, c5: Code, pchoice: int, pcommit: int)
    requires c1 == o + [IChoice, Offset(0)] && pchoice == |o|
    requires c2 == c1 + g
    requires c3 == c2 + [IBackCommit, Offset(0)] && pcommit == |c2|
    requires c4 == Patched(c3, pchoice)
    requires c5 == c4 + [IFail]
    ensures Patched(c5, pcommit) == o + ([IChoice, Offset(4 + |g|)] + g + [IBackCommit, Offset(3), IFail])
  {
    var head := [IChoice, Offset(4 + |g|)];
    assert c3 == o + [IChoice, Offset(0)] + (g + [IBackCommit, Offset(0)]);
    PatchPair(o, IChoice, 4 + |g|, g + [IBackCommit, Offset(0)]);
    assert c5 == o + (head + g + [IBackCommit, Offset(0)] + [IFail]);
    Patch(o, head + g + [IBackCommit, Offset(0)] + [IFail], 2 + |g| + 1, Offset(3));
    PatchPair(head + g, IBackCommit, 3, [IFail]);
    assert head + g + [IBackCommit, Offset(3)] + [IFail] == head + g + [IBackCommit, Offset(3), IFail];
  }

  /** The cases of code generation, and what each kind of tree ignores. */
  lemma GenCases(t: Tree, opt: bool, d: Dominator, fl: Charset)
    ensures var g := Gen(t, opt, d, fl);
      match t
      case TChar(c) => g == GenChar(c, d)
      case TAny => g == [IAny]
      case TSet(cs) => g == GenCharset(cs, d)
      case TTrue => g == []
      case TFalse => g == [IFail]
      case TChoice(_, _) | TRep(_) => g == Gen(t, opt, NoTest, fl)
      case TBehind(_, _) | TNot(_) => g == Gen(t, false, NoTest, FULLSET)
      case TAnd(_) => g == Gen(t, false, d, FULLSET)
      case TSeq(p1, p2) =>
        g == Gen(p1, false, d, if NeedFollow(p1) then GetFirst(p2, fl).cs else FULLSET) +
             Gen(p2, opt, if FixedLen(p1) != 0 then NoTest else d, fl)
  {
    hide GetFirst, CheckAux, HeadFail, GenTest, TestSize, TestDominator, NeedFollow, FixedLenX;
  }

  lemma ChoiceCases(t: Tree, opt: bool, fl: Charset)
    requires t.TChoice?
    ensures var (p1, p2) := (t.sib1, t.sib2);
            var f := GetFirst(p1, FULLSET);
            var g := Gen(t, opt, NoTest, fl);
            if TestChoice(p1, p2, fl) then
              g == TestChoiceCode(f.cs, Gen(p1, false, TestDominator(f.cs, false), fl), p2.TTrue?,
                                  Gen(p2, opt, NoTest, fl))
            else if opt && p2.TTrue? then
              g == [IPartialCommit, Offset(2)] + Gen(p1, true, NoTest, FULLSET)
            else
              g == ChoiceCode(f, Gen(p1, p2.TTrue?, TestDominator(f.cs, f.e), FULLSET), Gen(p2, opt, NoTest, fl))
  {
    hide GetFirst, HeadFail, TestDominator, TestChoiceCode, ChoiceCode, TestChoice;
  }

  lemma RepCases(t: Tree, opt: bool, fl: Charset)
    requires t.TRep?
    ensures var p := t.body;
            var f := GetFirst(p, FULLSET);
            var g := Gen(t, opt, NoTest, fl);
            if ToCharset(p).Some? then g == [ISpan] + CharsetSlots(ToCharset(p).value)
            else if TestRep(p, fl) then g == TestRepCode(f.cs, Gen(p, opt, TestDominator(f.cs, false), FULLSET))
            else g == RepCode(f, opt, Gen(p, false, NoTest, FULLSET))
  {
    hide GetFirst, HeadFail, TestDominator, TestRepCode, RepCode, TestRep;
  }

  lemma SeqAssembled(o: Code, p1: Tree, p2: Tree, opt: bool, d: Dominator, fl: Charset, c1: Code, c2: Code)
    requires c1 == o + Gen(p1, false, d, if NeedFollow(p1) then GetFirst(p2, fl).cs else FULLSET)
    requires c2 == c1 + Gen(p2, opt, if FixedLen(p1) != 0 then NoTest else d, fl)
    ensures c2 == o + Gen(TSeq(p1, p2), opt, d, fl)
  {
    GenCases(TSeq(p1, p2), opt, d, fl);
    hide Gen, GetFirst, FixedLenX, NeedFollow;
  }

  class CompileState {
    var code: Code

    constructor ()
      ensures code == []
    {
      code := [];
    }

    method AddInstruction(op: Instr) returns (i: nat)
      modifies this
      ensures i == old(|code|)
      ensures code == old(code) + [op]
    {
      i := |code|;
      code := code + [op];
    }

    /** Adds an instruction followed by room for its offset. */
    method AddOffsetInst(op: Instr) returns (i: nat)
      modifies this
      ensures i == old(|code|)
      ensures code == old(code) + [op, Offset(0)]
    {
      i := AddInstruction(op);
      var _ := AddInstruction(Offset(0));
    }

    method AddCharset(cs: Charset)
      modifies this
      ensures code == old(code) + CharsetSlots(cs)
    {
      var _ := AddInstruction(Buffer(cs));
      var n := 1;
      while n < CHARSETSLOTS
        invariant 1 <= n <= CHARSETSLOTS
        invariant code == old(code) + [Buffer(cs)] + Padding(n - 1)
      {
        var _ := AddInstruction(Pad);
        n := n + 1;
      }
    }

    /** Patches `instruction` to jump to `target`; does nothing when there is no instruction. */
    method JumpToThere(instruction: int, target: int)
      requires instruction < 0 || instruction + 1 < |code|
      modifies this
      ensures code == if instruction >= 0 then old(code)[instruction + 1 := Offset(target - instruction)] else old(code)
    {
      if instruction >= 0 {
        code := code[instruction + 1 := Offset(target - instruction)];
      }
    }

    method JumpToHere(instruction: int)
      requires instruction < 0 || instruction + 1 < |code|
      modifies this
      ensures code == Patched(old(code), instruction)
    {
      if instruction >= 0 {
        JumpToThere(instruction, |code|);
      }
    }

    method CodeChar(c: Byte, tt: int)
      requires TestIn(code, tt)
      modifies this
      ensures code == old(code) + GenChar(c, DominatorAt(old(code), tt))
    {
      if tt >= 0 && code[tt] == ITestChar(c) {
        var _ := AddInstruction(IAny);
      } else {
        var _ := AddInstruction(IChar(c));
      }
    }

    method CodeCharset(cs: Charset, tt: int)
      requires TestIn(code, tt)
      modifies this
      ensures code == old(code) + GenCharset(cs, DominatorAt(old(code), tt))
    {
      match CharsetType(cs)
      case KEmpty => var _ := AddInstruction(IFail);
      case KFull => var _ := AddInstruction(IAny);
      case KSingle(c) => CodeChar(c, tt);
      case KGeneric =>
        if tt >= 0 && code[tt].ITestSet? && code[tt + 2] == Buffer(cs) {
          var _ := AddInstruction(IAny);
        } else {
          var _ := AddInstruction(ISet);
          AddCharset(cs);
        }
    }

    /** A test with its offset still to be patched; no instruction when it must accept the empty subject. */
    method CodeTestSet(cs: Charset, e: bool) returns (test: int)
      modifies this
      ensures code == old(code) + GenTest(cs, e, 0)
      ensures test == if e then NOINST else old(|code|)
      ensures TestIn(code, test) && DominatorAt(code, test) == TestDominator(cs, e)
    {
      if e {
        return NOINST;
      }
      match CharsetType(cs)
      case KEmpty => test := AddOffsetInst(IJmp);
      case KFull => test := AddOffsetInst(ITestAny);
      case KSingle(c) => test := AddOffsetInst(ITestChar(c));
      case KGeneric =>
        test := AddOffsetInst(ITestSet);
        AddCharset(cs);
    }

    method CodeBehind(tree: Tree)
      requires tree.TBehind?
      modifies this
      ensures code == old(code) + Gen(tree, false, NoTest, FULLSET)
      decreases tree, 2
    {
      hide TestIn, DominatorAt;
      if tree.n > 0 {
        var _ := AddInstruction(IBehind(tree.n % 256));
      }
      NoTestIn(code);
      CodeGen(tree.body, false, NOINST, FULLSET);
    }

    method CodeChoice(tree: Tree, opt: bool, fl: Charset)
      requires tree.TChoice?
      modifies this
      ensures code == old(code) + Gen(tree, opt, NoTest, fl)
      decreases tree, 2
    {
      hide Gen, GetFirst, HeadFail, TestDominator, TestChoiceCode, ChoiceCode;
      ChoiceCases(tree, opt, fl);
      var (p1, p2) := (tree.sib1, tree.sib2);
      var emptyp2 := p2.TTrue?;
      var first := GetFirst(p1, FULLSET);
      var (e1, cs1) := (first.e, first.cs);
      if HeadFail(p1) || (!e1 && cs1 !! GetFirst(p2, fl).cs) {
        CodeTestChoice(cs1, p1, p2, opt, fl);
      } else if opt && emptyp2 {
        ghost var o := code;
        var pc := AddOffsetInst(IPartialCommit);
        JumpToHere(pc);
        PartialCommitPatched(o);
        CodeGen(p1, true, NOINST, FULLSET);
        Cat(o, [IPartialCommit, Offset(2)], Gen(p1, true, NoTest, FULLSET));
      } else {
        CodeFullChoice(first, p1, p2, opt, fl);
      }
    }

    /** test (fail(p1)) -> L1; p1; jmp L2; L1: p2; L2: */
    method CodeTestChoice(cs1: Charset, p1: Tree, p2: Tree, opt: bool, fl: Charset)
      modifies this
      ensures code == old(code) + TestChoiceCode(cs1, Gen(p1, false, TestDominator(cs1, false), fl), p2.TTrue?,
                                                 Gen(p2, opt, NoTest, fl))
      decreases TChoice(p1, p2), 1
    {
      hide Gen, GenTest, TestSize, TestChoiceCode, TestDominator, Patched, TestIn, DominatorAt;
      GenCases(p2, opt, NoTest, fl);
      TestHasOffset(cs1, false);
      ghost var t0 := GenTest(cs1, false, 0);
      ghost var o := code;
      var test := CodeTestSet(cs1, false);
      ghost var c1 := code;
      CodeGen(p1, false, test, fl);
      ghost var c2 := code;
      var jmp := NOINST;
      if !p2.TTrue? {
        jmp := AddOffsetInst(IJmp);
      }
      ghost var c3 := code;
      JumpToHere(test);
      ghost var c4 := code;
      NoTestIn(code);
      CodeGen(p2, opt, NOINST, fl);
      ghost var g1 := Gen(p1, false, TestDominator(cs1, false), fl);
      ghost var g2 := Gen(p2, opt, NoTest, fl);
      TestChoiceAssembled(o, t0, g1, p2.TTrue?, g2, c1, c2, c3, c4, code, test, jmp);
      TestChoiceShape(cs1, g1, p2.TTrue?, g2);
      JumpToHere(jmp);
    }

    /** test (fail(p1)) -> L1; choice L1; p1; commit L2; L1: p2; L2: */
    method CodeFullChoice(first: First, p1: Tree, p2: Tree, opt: bool, fl: Charset)
      modifies this
      ensures code == old(code) + ChoiceCode(first, Gen(p1, p2.TTrue?, TestDominator(first.cs, first.e), FULLSET),
                                             Gen(p2, opt, NoTest, fl))
      decreases TChoice(p1, p2), 1
    {
      hide Gen, GenTest, TestSize, ChoiceCode, TestDominator, Patched, TestIn, DominatorAt, Filled;
      TestHasOffset(first.cs, first.e);
      ghost var t0 := GenTest(first.cs, first.e, 0);
      ghost var o := code;
      ghost var g1 := Gen(p1, p2.TTrue?, TestDominator(first.cs, first.e), FULLSET);
      var test := CodeTestSet(first.cs, first.e);
      ghost var c1 := code;
      DominatorKept(code, test, [IChoice, Offset(0)]);
      var pchoice := AddOffsetInst(IChoice);
      ghost var c2 := code;
      CodeGen(p1, p2.TTrue?, test, FULLSET);
      ghost var c3 := code;
      var pcommit := AddOffsetInst(ICommit);
      ghost var c4 := code;
      JumpToHere(pchoice);
      ghost var c5 := code;
      PatchedLength(c4, pchoice);
      JumpToHere(test);
      ghost var c6 := code;
      PatchedLength(c5, test);
      GuardedAssembled(o, t0, g1, c1, c2, c3, c4, c5, c6, test, pchoice);
      NoTestIn(code);
      CodeGen(p2, opt, NOINST, fl);
      ghost var g2 := Gen(p2, opt, NoTest, fl);
      ChoiceAssembled(o, Filled(t0, |t0| + 4 + |g1|), g1, g2, c6, code, pcommit);
      ChoiceShape(first, g1, g2);
      JumpToHere(pcommit);
    }

    method CodeRep(tree: Tree, opt: bool, fl: Charset)
      requires tree.TRep?
      modifies this
      ensures code == old(code) + Gen(tree, opt, NoTest, fl)
      decreases tree, 2
    {
      hide Gen, GetFirst, HeadFail, TestDominator, TestRepCode, RepCode;
      RepCases(tree, opt, fl);
      var p := tree.body;
      if ToCharset(p).Some? {
        var _ := AddInstruction(ISpan);
        AddCharset(ToCharset(p).value);
      } else {
        var first := GetFirst(p, FULLSET);
        if HeadFail(p) || (!first.e && first.cs !! fl) {
          CodeTestRep(first.cs, p, opt);
        } else {
          CodeFullRep(first, p, opt);
        }
      }
    }

    /** L1: test (fail(p)) -> L2; p; jmp L1; L2: */
    method CodeTestRep(st: Charset, p: Tree, opt: bool)
      modifies this
      ensures code == old(code) + TestRepCode(st, Gen(p, opt, TestDominator(st, false), FULLSET))
      decreases TRep(p), 1
    {
      hide Gen, GenTest, TestSize, TestRepCode, TestDominator, Patched, TestIn, DominatorAt, Filled;
      TestHasOffset(st, false);
      ghost var t0 := GenTest(st, false, 0);
      ghost var o := code;
      var test := CodeTestSet(st, false);
      ghost var c1 := code;
      CodeGen(p, opt, test, FULLSET);
      ghost var c2 := code;
      var jmp := AddOffsetInst(IJmp);
      ghost var c3 := code;
      JumpToHere(test);
      ghost var g := Gen(p, opt, TestDominator(st, false), FULLSET);
      TestRepAssembled(o, t0, g, c1, c2, c3, code, test, jmp);
      TestRepShape(st, g);
      JumpToThere(jmp, test);
    }

    /** test (fail(p)) -> L2; choice L2 (or partialcommit L1); L1: p; partialcommit L1; L2: */
    method CodeFullRep(first: First, p: Tree, opt: bool)
      modifies this
      ensures code == old(code) + RepCode(first, opt, Gen(p, false, NoTest, FULLSET))
      decreases TRep(p), 1
    {
      hide Gen, GenTest, TestSize, RepCode, LoopCode, TestDominator, TestIn, DominatorAt, Patched, Filled, GuardedCode;
      TestHasOffset(first.cs, first.e);
      ghost var t0 := GenTest(first.cs, first.e, 0);
      ghost var o := code;
      ghost var g := Gen(p, false, NoTest, FULLSET);
      var test := CodeTestSet(first.cs, first.e);
      ghost var c1 := code;
      var pchoice := NOINST;
      if opt {
        var pc := AddOffsetInst(IPartialCommit);
        JumpToHere(pc);
        PartialCommitPatched(c1);
      } else {
        pchoice := AddOffsetInst(IChoice);
      }
      ghost var c2 := code;
      CodeLoop(p);
      ghost var c3 := code;
      JumpToHere(pchoice);
      RepAssembled(o, t0, opt, g, c1, c2, c3, code, test, pchoice);
      RepShape(first, opt, g);
      JumpToHere(test);
    }

    /** L1: p; partialcommit L1 */
    method CodeLoop(p: Tree)
      modifies this
      ensures code == old(code) + LoopCode(Gen(p, false, NoTest, FULLSET))
      ensures |code| >= 2
      decreases TRep(p), 0
    {
      hide Gen, LoopCode;
      ghost var c0 := code;
      var l2 := |code|;
      CodeGen(p, false, NOINST, FULLSET);
      ghost var c1 := code;
      var commit := AddOffsetInst(IPartialCommit);
      LoopAssembled(c0, Gen(p, false, NoTest, FULLSET), c1, code, commit);
      JumpToThere(commit, l2);
    }

    method CodeNot(tree: Tree)
      requires tree.TNot?
      modifies this
      ensures code == old(code) + Gen(tree, false, NoTest, FULLSET)
      decreases tree, 2
    {
      hide Gen, GetFirst, NotBody, GenTest, TestSize, TestDominator, Patched, TestIn, DominatorAt;
      var p := tree.body;
      var first := GetFirst(p, FULLSET);
      ghost var body := NotBody(p);
      NotIsTested(tree);
      ghost var o := code;
      var test := CodeTestSet(first.cs, first.e);
      ghost var c1 := code;
      CodeNotBody(p);
      TestHasOffset(first.cs, first.e);
      TestedAssembled(o, GenTest(first.cs, first.e, 0), body, c1, code, test);
      FilledTest(first.cs, first.e, TestSize(first.cs, first.e) + |body|);
      JumpToHere(test);
    }

    /** fail   or   choice L1; p; failtwice; L1: */
    method CodeNotBody(p: Tree)
      modifies this
      ensures code == old(code) + NotBody(p)
      decreases TNot(p), 1
    {
      hide Gen, HeadFail;
      ghost var o := code;
      if HeadFail(p) {
        var _ := AddInstruction(IFail);
      } else {
        var pchoice := AddOffsetInst(IChoice);
        ghost var c1 := code;
        CodeGen(p, false, NOINST, FULLSET);
        ghost var c2 := code;
        var _ := AddInstruction(IFailTwice);
        NegationAssembled(o, Gen(p, false, NoTest, FULLSET), c1, c2, code, pchoice);
        JumpToHere(pchoice);
      }
    }

    method CodeAnd(tree: Tree, tt: int)
      requires tree.TAnd?
      requires TestIn(code, tt)
      modifies this
      ensures code == old(code) + Gen(tree, false, DominatorAt(old(code), tt), FULLSET)
      decreases tree, 2
    {
      hide Gen, FixedLenX;
      var p := tree.body;
      var n := FixedLen(p);
      AndIs(tree, DominatorAt(code, tt));
      if 0 <= n <= MAXBEHIND {
        CodeGen(p, false, tt, FULLSET);
        if n > 0 {
          var _ := AddInstruction(IBehind(n));
        }
      } else {
        CodeLongAnd(p, tt);
      }
    }

    /** choice L1; p; backcommit L2; L1: fail; L2: */
    method CodeLongAnd(p: Tree, tt: int)
      requires TestIn(code, tt)
      modifies this
      ensures var g := Gen(p, false, DominatorAt(old(code), tt), FULLSET);
              code == old(code) + ([IChoice, Offset(4 + |g|)] + g + [IBackCommit, Offset(3), IFail])
      decreases TAnd(p), 1
    {
      hide Gen, DominatorAt, Patched;
      ghost var o := code;
      ghost var g := Gen(p, false, DominatorAt(code, tt), FULLSET);
      DominatorKept(o, tt, [IChoice, Offset(0)]);
      var pchoice := AddOffsetInst(IChoice);
      ghost var c1 := code;
      CodeGen(p, false, tt, FULLSET);
      ghost var c2 := code;
      var pcommit := AddOffsetInst(IBackCommit);
      ghost var c3 := code;
      JumpToHere(pchoice);
      ghost var c4 := code;
      PatchedLength(c3, pchoice);
      var _ := AddInstruction(IFail);
      AndAssembled(o, g, c1, c2, c3, c4, code, pchoice, pcommit);
      JumpToHere(pcommit);
    }

    /** Codes the first part of a sequence; the answer is the test that still protects the second. */
    method CodeSeq1(p1: Tree, p2: Tree, tt: int, fl: Charset) returns (tt2: int)
      requires TestIn(code, tt)
      modifies this
      ensures code == old(code) + Gen(p1, false, DominatorAt(old(code), tt),
                                      if NeedFollow(p1) then GetFirst(p2, fl).cs else FULLSET)
      ensures TestIn(code, tt2)
      ensures DominatorAt(code, tt2) == if FixedLen(p1) != 0 then NoTest else DominatorAt(old(code), tt)
      decreases p1, 4
    {
      ghost var o := code;
      if NeedFollow(p1) {
        CodeGen(p1, false, tt, GetFirst(p2, fl).cs);
        DominatorKept(o, tt, Gen(p1, false, DominatorAt(o, tt), GetFirst(p2, fl).cs));
      } else {
        CodeGen(p1, false, tt, FULLSET);
        DominatorKept(o, tt, Gen(p1, false, DominatorAt(o, tt), FULLSET));
      }
      if FixedLen(p1) != 0 {
        return NOINST;
      } else {
        return tt;
      }
    }

    /** Main code-generation method: appends exactly the code of `tree`. */
    method CodeGen(tree: Tree, opt: bool, tt: int, fl: Charset)
      requires TestIn(code, tt)
      modifies this
      ensures code == old(code) + Gen(tree, opt, DominatorAt(old(code), tt), fl)
      decreases tree, 3
    {
      hide Gen;
      GenCases(tree, opt, DominatorAt(code, tt), fl);
      match tree
      case TChar(c) => CodeChar(c, tt);
      case TAny => var _ := AddInstruction(IAny);
      case TSet(cs) => CodeCharset(cs, tt);
      case TTrue =>
      case TFalse => var _ := AddInstruction(IFail);
      case TChoice(_, _) => CodeChoice(tree, opt, fl);
      case TRep(_) => CodeRep(tree, opt, fl);
      case TBehind(_, _) => CodeBehind(tree);
      case TNot(_) => CodeNot(tree);
      case TAnd(_) => CodeAnd(tree, tt);
      case TSeq(p1, p2) =>
        ghost var o := code;
        var tt2 := CodeSeq1(p1, p2, tt, fl);
        ghost var c1 := code;
        CodeGen(p2, opt, tt2, fl);
        SeqAssembled(o, p1, p2, opt, DominatorAt(o, tt), fl, c1, code);
    }

    // ----- Jump optimisation; c0 is the code before it -----

    /** The final destination of a sequence of jumps. */
    method FinalTarget(i: int, ghost c0: Code) returns (ft: int)
      requires WellLaid(c0) && Consistent(c0, code)
      requires 0 <= i < |code|
      ensures 0 <= ft < |code| && !code[ft].IJmp? && Follows(c0, i, ft)
      ensures code[i].IJmp? ==> HasOffset(code, i) && Follows(c0, Target(code, i), ft)
    {
      hide Follows, LandsIn, WellLaid;
      ft := i;
      ghost var n := WellLaidLands(c0, i);
      FollowsSelf(c0, i);
      while code[ft].IJmp?
        invariant 0 <= ft < |code| && Follows(c0, i, ft) && LandsIn(c0, ft, n)
        invariant ft != i ==> code[i].IJmp? && HasOffset(code, i) && Follows(c0, Target(code, i), ft)
        decreases n
      {
        ghost var n' := JumpStep(c0, code, ft, n);
        var next := Target(code, ft);
        FollowsTrans(c0, i, ft, next);
        if ft == i {
          FollowsSelf(c0, next);
        } else {
          FollowsTrans(c0, Target(code, i), ft, next);
        }
        ft, n := next, n';
      }
    }

    /** Redirects the label of the instruction at `i` to its final destination. */
    method OptimiseLabel(i: int, ghost c0: Code)
      requires WellLaid(c0) && Consistent(c0, code)
      requires 0 <= i < |code| && HasLabel(code[i])
      requires IsOpcode(c0[i]) && (HasLabel(c0[i]) || c0[i].IJmp?)
      modifies this
      ensures Consistent(c0, code)
      ensures i + 1 < |code| && code == old(code)[i + 1 := code[i + 1]]
    {
      hide Follows, WellLaid, Consistent;
      ConsistentLength(c0, code);
      LabelLands(c0, code, i);
      var l := FinalTarget(Target(code, i), c0);
      WellLaidInstr(c0);
      EditLabel(c0, code, i, l);
      JumpToThere(i, l);
    }

    /** A jump becomes the unconditional instruction it leads to, or jumps straight to its destination. */
    method OptimiseJump(i: int, ghost c0: Code)
      requires WellLaid(c0) && Consistent(c0, code)
      requires 0 <= i && i + 1 < |code| && code[i].IJmp? && c0[i].IJmp?
      modifies this
      ensures Consistent(c0, code)
      ensures |code| == |old(code)| && code[..i] == old(code)[..i] && code[i + 2..] == old(code)[i + 2..]
      ensures SizeI(code[i]) == 2 || (SizeI(code[i]) == 1 && code[i + 1].IAny?)
    {
      hide Follows, WellLaid, Consistent;
      WellLaidInstr(c0);
      ConsistentLength(c0, code);
      var ft := FinalTarget(i, c0);
      var op := code[ft];
      if op.IFail? || op.IFailTwice? || op.IEnd? {
        EditCopy(c0, code, i, ft, IAny);
        code := code[i := code[ft]];
        code := code[i + 1 := IAny];
      } else if op.ICommit? || op.IPartialCommit? || op.IBackCommit? {
        LabelLands(c0, code, ft);
        var fft := FinalTarget(Target(code, ft), c0);
        EditCopy(c0, code, i, ft, Offset(fft - i));
        code := code[i := code[ft]];
        JumpToThere(i, fft);
        OptimiseLabel(i, c0);
      } else {
        EditJump(c0, code, i, ft);
        JumpToThere(i, ft);
      }
    }

    /** Optimises jumps and other jump-like instructions in place. */
    method Peephole()
      requires WellLaid(code)
      modifies this
      ensures Optimised(old(code), code)
    {
      hide Follows, WellLaid, Consistent, Optimised, Tiled;
      ghost var c0 := code;
      WellLaidInstr(c0);
      ConsistentSelf(c0);
      var i := 0;
      while i < |code|
        invariant 0 <= i <= |code| == |c0|
        invariant Consistent(c0, code)
        invariant AtBoundary(c0, code, i)
      {
        ghost var before := code;
        BoundaryStep(c0, code, i);
        if HasLabel(code[i]) {
          OptimiseLabel(i, c0);
        } else if code[i].IJmp? {
          OptimiseJump(i, c0);
        }
        NextBoundary(c0, before, code, i);
        i := i + SizeI(code[i]);
      }
      ConsistentOptimised(c0, code);
    }

    /** Compiles a whole pattern. */
    method Compile(tree: Tree)
      requires code == []
      modifies this
      ensures Optimised(GenPattern(tree), code)
    {
      hide Gen, WellLaid, Optimised;
      CodeGen(tree, false, NOINST, FULLSET);
      var _ := AddInstruction(IEnd);
      assert code == GenPattern(tree);
      PatternWellLaid(tree);
      Peephole();
    }
  }

  /** `i` is where an instruction starts: in code not touched yet, or at the no-op left behind a removed offset. */
  ghost predicate AtBoundary(c0: Code, c: Code, i: int)
    requires 0 <= i <= |c| == |c0|
  {
    || (Tiled(c0, i) && c[i..] == c0[i..])
    || (i < |c0| && c[i].IAny? && Tiled(c0, i + 1) && c[i + 1..] == c0[i + 1..])
  }

  lemma BoundaryStep(c0: Code, c: Code, i: int)
    requires 0 <= i < |c| == |c0| && AtBoundary(c0, c, i)
    ensures c[i].IAny? || (c[i] == c0[i] && InstrAt(c0, i))
  {
    if Tiled(c0, i) && c[i..] == c0[i..] {
      assert c[i] == c[i..][0] == c0[i..][0];
    }
  }

  /** After the instruction at `i` has been edited, another one starts behind it. */
  lemma NextBoundary(c0: Code, before: Code, c: Code, i: int)
    requires 0 <= i < |before| == |c| == |c0| && AtBoundary(c0, before, i)
    requires c == before ||
             (!before[i].IAny? && i + 1 < |c| && c[i + 2..] == before[i + 2..] &&
              (SizeI(c[i]) == SizeI(before[i]) >= 2 ||
               (SizeI(before[i]) == 2 && SizeI(c[i]) == 1 && c[i + 1].IAny?)))
    ensures i + SizeI(c[i]) <= |c| && AtBoundary(c0, c, i + SizeI(c[i]))
  {
    var n := SizeI(c[i]);
    if Tiled(c0, i) && before[i..] == c0[i..] {
      assert before[i] == before[i..][0] == c0[i..][0] == c0[i];
      var m := SizeI(c0[i]);
      assert before[i + m..] == before[i..][m..] == c0[i..][m..] == c0[i + m..];
      if c == before {
      } else if n == m {
        assert c[i + m..] == c[i + 2..][m - 2..] == before[i + 2..][m - 2..] == before[i + m..];
      }
    }
  }

  lemma WellLaidInstr(c0: Code)
    requires WellLaid(c0)
    ensures AllInstr(c0) && Tiled(c0, 0)
  {
    TiledAllInstr(c0);
  }

  lemma ConsistentLength(c0: Code, c: Code)
    requires Consistent(c0, c)
    ensures |c| == |c0|
  {}

  lemma ConsistentOptimised(c0: Code, c: Code)
    requires Consistent(c0, c)
    ensures Optimised(c0, c)
  {}

  /** Labels of partly optimised code stay inside it. */
  lemma LabelLands(c0: Code, c: Code, i: int)
    requires WellLaid(c0) && Consistent(c0, c) && 0 <= i < |c| && HasLabel(c[i])
    ensures HasOffset(c, i) && 0 <= Target(c, i) < |c|
  {
    var m := LabelIsOriginal(c0, c, i);
    var n := WellLaidLands(c0, Target(c0, m));
    var n' := LandsAfter(c0, Target(c0, m), Target(c, i), n);
  }

  lemma WellLaidLands(c0: Code, i: int) returns (n: nat)
    requires WellLaid(c0) && 0 <= i < |c0|
    ensures LandsIn(c0, i, n)
  {
    assert Lands(c0, i);
    n :| LandsIn(c0, i, n);
  }

  /** One step of `FinalTarget`: closer to where the jumps land. */
  lemma JumpStep(c0: Code, c: Code, ft: int, n: nat) returns (n': nat)
    requires Consistent(c0, c) && 0 <= ft < |c| && c[ft].IJmp?
    requires LandsIn(c0, ft, n)
    ensures n' < n && HasOffset(c, ft)
    ensures var t := Target(c, ft); 0 <= t < |c| && LandsIn(c0, t, n') && Follows(c0, ft, t)
  {
    JmpIsOriginal(c0, c, ft);
    var t := Target(c, ft);
    FollowsTarget(c0, ft);
    FollowsTrans(c0, ft, Target(c0, ft), t);
    assert n > 0 && Jump(c0, ft, n) == Jump(c0, Target(c0, ft), n - 1);
    n' := LandsAfter(c0, Target(c0, ft), t, n - 1);
    if !(0 <= t < |c0|) {
      JumpStuck(c0, t, n');
    }
  }
}
