/** Layout of generated code: it is a sequence of well-formed instructions, and its
    unconditional jumps never cycle. This is what jump optimisation relies on to terminate. */
module LpegLayout {
  import opened Common
  import opened LpegTree
  import opened LpegAnalysis
  import opened LpegMachine
  import opened LpegCodegen
  import opened LpegCorrectness
  import opened LpegPeephole

  // ----- Instruction boundaries -----

  lemma {:induction false} TiledShift(a: Code, b: Code, j: nat)
    requires j <= |b| && Tiled(b, j)
    ensures Tiled(a + b, |a| + j)
    decreases |b| - j
  {
    if j < |b| {
      TiledShift(a, b, j + SizeI(b[j]));
      assert (a + b)[|a| + j] == b[j];
    }
  }

  lemma {:induction false} TiledAppend(a: Code, b: Code, i: nat)
    requires i <= |a| && Tiled(a, i) && Tiled(b, 0)
    ensures Tiled(a + b, i)
    decreases |a| - i
  {
    if i < |a| {
      TiledAppend(a, b, i + SizeI(a[i]));
    } else {
      TiledShift(a, b, 0);
    }
  }

  /** Every label of `g` leads to a relative address between `lo` and `hi`. */
  predicate LabelsIn(g: Code, lo: int, hi: int) {
    forall x :: 0 <= x < |g| && (HasLabel(g[x]) || g[x].IJmp?) ==>
      x + 1 < |g| && g[x + 1].Offset? && lo <= x + g[x + 1].offset <= hi
  }

  /** A sequence of well-formed instructions with labels between `lo` and `hi`. */
  predicate Laid(g: Code, lo: int, hi: int) {
    Tiled(g, 0) && LabelsIn(g, lo, hi)
  }

  lemma LaidAppend(a: Code, b: Code, lo: int, hi: int)
    requires Laid(a, lo, hi) && Laid(b, lo - |a|, hi - |a|)
    ensures Laid(a + b, lo, hi)
  {
    TiledAppend(a, b, 0);
    hide Tiled;
    forall x | 0 <= x < |a + b| && (HasLabel((a + b)[x]) || (a + b)[x].IJmp?)
      ensures x + 1 < |a + b| && (a + b)[x + 1].Offset? && lo <= x + (a + b)[x + 1].offset <= hi
    {
      if x >= |a| {
        assert (a + b)[x] == b[x - |a|];
        assert (a + b)[x + 1] == b[x - |a| + 1];
      }
    }
  }

  /** Appending code whose labels stay inside it. */
  lemma LaidAppendInner(a: Code, b: Code, lo: int, hi: int)
    requires Laid(a, lo, hi) && Laid(b, 0, |b|)
    requires lo <= |a| && |a| + |b| <= hi
    ensures Laid(a + b, lo, hi)
  {
    assert Laid(b, lo - |a|, hi - |a|);
    LaidAppend(a, b, lo, hi);
  }

  lemma LaidOne(g: Code, lo: int, hi: int)
    requires |g| > 0 && InstrAt(g, 0) && SizeI(g[0]) == |g|
    requires HasLabel(g[0]) || g[0].IJmp? ==> lo <= g[1].offset <= hi
    ensures Laid(g, lo, hi)
  {
    assert Tiled(g, |g|);
  }

  lemma LaidEmpty(lo: int, hi: int)
    ensures Laid([], lo, hi)
  {}

  lemma LaidTest(cs: Charset, e: bool, offset: int, lo: int, hi: int)
    requires lo <= offset <= hi
    ensures Laid(GenTest(cs, e, offset), lo, hi)
  {
    hide Laid;
    if e {
      LaidEmpty(lo, hi);
    } else {
      LaidOne(GenTest(cs, e, offset), lo, hi);
    }
  }

  /** Every generated fragment is a sequence of well-formed instructions with labels inside it. */
  lemma {:induction false} GenLaid(t: Tree, opt: bool, d: Dominator, fl: Charset)
    ensures Laid(Gen(t, opt, d, fl), 0, |Gen(t, opt, d, fl)|)
    decreases t, 1
  {
    hide GetFirst, CheckAux, HeadFail, FixedLenX, NeedFollow, TestDominator, Laid, NotCode, AndCode, GenTest;
    match t
    case TChar(_) | TSet(_) | TAny | TFalse => LaidOne(Gen(t, opt, d, fl), 0, |Gen(t, opt, d, fl)|);
    case TTrue => LaidEmpty(0, 0);
    case TChoice(_, _) => ChoiceTreeLaid(t, opt, d, fl);
    case TRep(_) => RepTreeLaid(t, opt, d, fl);
    case TBehind(n, p) =>
      var g := Gen(p, false, NoTest, FULLSET);
      var head := if n > 0 then [IBehind(n % 256)] else [];
      GenLaid(p, false, NoTest, FULLSET);
      if n > 0 {
        LaidOne(head, 0, |head| + |g|);
      } else {
        LaidEmpty(0, |head| + |g|);
      }
      LaidAppendInner(head, g, 0, |head| + |g|);
    case TNot(p) =>
      if HeadFail(p) {
        LaidEmpty(0, 0);
        NotLaid(GetFirst(p, FULLSET), true, []);
      } else {
        GenLaid(p, false, NoTest, FULLSET);
        NotLaid(GetFirst(p, FULLSET), false, Gen(p, false, NoTest, FULLSET));
      }
    case TAnd(p) =>
      GenLaid(p, false, d, FULLSET);
      AndLaid(FixedLen(p), Gen(p, false, d, FULLSET));
    case TSeq(p1, p2) =>
      var fl1 := if NeedFollow(p1) then GetFirst(p2, fl).cs else FULLSET;
      var d2 := if FixedLen(p1) != 0 then NoTest else d;
      GenLaid(p1, false, d, fl1);
      GenLaid(p2, opt, d2, fl);
      ConcatLaid(Gen(p1, false, d, fl1), Gen(p2, opt, d2, fl));
  }

  lemma {:induction false} ChoiceTreeLaid(t: Tree, opt: bool, d: Dominator, fl: Charset)
    requires t.TChoice?
    ensures Laid(Gen(t, opt, d, fl), 0, |Gen(t, opt, d, fl)|)
    decreases t, 0
  {
    hide GetFirst, CheckAux, HeadFail, TestDominator, GenTest, Laid;
    var (p1, p2) := (t.sib1, t.sib2);
    var f := GetFirst(p1, FULLSET);
    if TestChoice(p1, p2, fl) {
      GenLaid(p1, false, TestDominator(f.cs, false), fl);
      GenLaid(p2, opt, NoTest, fl);
      TestChoiceLaid(f.cs, Gen(p1, false, TestDominator(f.cs, false), fl), p2.TTrue?, Gen(p2, opt, NoTest, fl));
    } else if opt && p2.TTrue? {
      var g := Gen(p1, true, NoTest, FULLSET);
      GenLaid(p1, true, NoTest, FULLSET);
      LaidOne([IPartialCommit, Offset(2)], 0, 2 + |g|);
      LaidAppendInner([IPartialCommit, Offset(2)], g, 0, 2 + |g|);
    } else {
      GenLaid(p1, p2.TTrue?, TestDominator(f.cs, f.e), FULLSET);
      GenLaid(p2, opt, NoTest, fl);
      ChoiceLaid(f, Gen(p1, p2.TTrue?, TestDominator(f.cs, f.e), FULLSET), Gen(p2, opt, NoTest, fl));
    }
  }

  lemma {:induction false} RepTreeLaid(t: Tree, opt: bool, d: Dominator, fl: Charset)
    requires t.TRep?
    ensures Laid(Gen(t, opt, d, fl), 0, |Gen(t, opt, d, fl)|)
    decreases t, 0
  {
    hide GetFirst, CheckAux, HeadFail, TestDominator, GenTest, Laid;
    var p := t.body;
    var f := GetFirst(p, FULLSET);
    if ToCharset(p).Some? {
      LaidOne(Gen(t, opt, d, fl), 0, |Gen(t, opt, d, fl)|);
    } else if TestRep(p, fl) {
      GenLaid(p, opt, TestDominator(f.cs, false), FULLSET);
      TestRepLaid(f.cs, Gen(p, opt, TestDominator(f.cs, false), FULLSET));
    } else {
      GenLaid(p, false, NoTest, FULLSET);
      RepLaid(f, opt, Gen(p, false, NoTest, FULLSET));
    }
  }

  lemma LaidWiden(g: Code, lo: int, hi: int, lo': int, hi': int)
    requires Laid(g, lo, hi) && lo' <= lo && hi <= hi'
    ensures Laid(g, lo', hi')
  {
    hide Tiled;
  }

  lemma ConcatLaid(g1: Code, g2: Code)
    requires Laid(g1, 0, |g1|) && Laid(g2, 0, |g2|)
    ensures Laid(g1 + g2, 0, |g1 + g2|)
  {
    hide Laid;
    LaidWiden(g1, 0, |g1|, 0, |g1| + |g2|);
    LaidAppendInner(g1, g2, 0, |g1| + |g2|);
  }

  lemma TestChoiceLaid(cs: Charset, g1: Code, emptyp2: bool, g2: Code)
    requires Laid(g1, 0, |g1|) && Laid(g2, 0, |g2|)
    ensures Laid(TestChoiceCode(cs, g1, emptyp2, g2), 0, |TestChoiceCode(cs, g1, emptyp2, g2)|)
  {
    hide Laid;
    var jmp := if emptyp2 then [] else [IJmp, Offset(2 + |g2|)];
    var offset := TestSize(cs, false) + |g1| + |jmp|;
    var n := offset + |g2|;
    var test := GenTest(cs, false, offset);
    assert |test| == TestSize(cs, false);
    hide GenTest;
    LaidTest(cs, false, offset, 0, n);
    LaidAppendInner(test, g1, 0, n);
    if emptyp2 {
      LaidEmpty(-|test + g1|, n - |test + g1|);
    } else {
      LaidOne(jmp, -|test + g1|, n - |test + g1|);
    }
    LaidAppend(test + g1, jmp, 0, n);
    LaidAppendInner(test + g1 + jmp, g2, 0, n);
  }

  lemma ChoiceLaid(f: First, g1: Code, g2: Code)
    requires Laid(g1, 0, |g1|) && Laid(g2, 0, |g2|)
    ensures Laid(ChoiceCode(f, g1, g2), 0, |ChoiceCode(f, g1, g2)|)
  {
    hide Laid;
    var size := TestSize(f.cs, f.e);
    var n := 4 + |g1| + |g2|;
    var test := GenTest(f.cs, f.e, size + 4 + |g1|);
    assert |test| == size;
    hide GenTest;
    var head := [IChoice, Offset(4 + |g1|)];
    var tail := [ICommit, Offset(2 + |g2|)];
    LaidTest(f.cs, f.e, size + 4 + |g1|, 0, size + n);
    LaidOne(head, -size, n);
    LaidAppendInner(head, g1, -size, n);
    LaidOne(tail, -size - |head + g1|, n - |head + g1|);
    LaidAppend(head + g1, tail, -size, n);
    LaidAppendInner(GuardedCode(g1, |g2|), g2, -size, n);
    LaidAppend(test, GuardedCode(g1, |g2|) + g2, 0, size + n);
  }

  lemma TestRepLaid(cs: Charset, g: Code)
    requires Laid(g, 0, |g|)
    ensures Laid(TestRepCode(cs, g), 0, |TestRepCode(cs, g)|)
  {
    hide Laid;
    var n := TestSize(cs, false) + |g|;
    var test := GenTest(cs, false, n + 2);
    LaidTest(cs, false, n + 2, 0, n + 2);
    LaidAppendInner(test, g, 0, n + 2);
    LaidOne([IJmp, Offset(-n)], -n, 2);
    LaidAppend(test + g, [IJmp, Offset(-n)], 0, n + 2);
  }

  lemma RepLaid(f: First, opt: bool, g: Code)
    requires Laid(g, 0, |g|)
    ensures Laid(RepCode(f, opt, g), 0, |RepCode(f, opt, g)|)
  {
    hide Laid;
    var size := TestSize(f.cs, f.e);
    var test := GenTest(f.cs, f.e, size + 4 + |g|);
    assert |test| == size;
    hide GenTest;
    LaidTest(f.cs, f.e, size + 4 + |g|, 0, size + 4 + |g|);
    LaidOne(RepHead(opt, |g|), -size, 4 + |g|);
    LaidOne([IPartialCommit, Offset(-|g|)], -size - 2 - |g|, 2);
    LaidWiden(g, 0, |g|, -size - 2, 2 + |g|);
    LaidAppend(g, [IPartialCommit, Offset(-|g|)], -size - 2, 2 + |g|);
    LaidAppend(RepHead(opt, |g|), LoopCode(g), -size, 4 + |g|);
    LaidAppend(test, RepHead(opt, |g|) + LoopCode(g), 0, size + 4 + |g|);
  }

  lemma NotLaid(f: First, headfail: bool, g: Code)
    requires Laid(g, 0, |g|)
    ensures Laid(NotCode(f, headfail, g), 0, |NotCode(f, headfail, g)|)
  {
    hide Laid;
    var size := TestSize(f.cs, f.e);
    var head := [IChoice, Offset(3 + |g|)];
    var body := if headfail then [IFail] else head + g + [IFailTwice];
    var test := GenTest(f.cs, f.e, size + |body|);
    assert |test| == size;
    hide GenTest;
    LaidTest(f.cs, f.e, size + |body|, 0, size + |body|);
    if headfail {
      LaidOne(body, 0, |body|);
    } else {
      LaidOne(head, 0, |body|);
      LaidAppendInner(head, g, 0, |body|);
      LaidOne([IFailTwice], -|head + g|, 1);
      LaidAppend(head + g, [IFailTwice], 0, |body|);
    }
    LaidAppendInner(test, body, 0, size + |body|);
  }

  lemma AndLaid(n: int, g: Code)
    requires Laid(g, 0, |g|)
    ensures Laid(AndCode(n, g), 0, |AndCode(n, g)|)
  {
    hide Laid;
    if n == 0 {
      assert g + [] == g;
    } else if 0 < n <= MAXBEHIND {
      LaidOne([IBehind(n)], 0, 1);
      ConcatLaid(g, [IBehind(n)]);
    } else {
      var head := [IChoice, Offset(4 + |g|)];
      LaidOne(head, 0, |g| + 5);
      LaidAppendInner(head, g, 0, |g| + 5);
      LaidOne([IBackCommit, Offset(3)], 0, 3);
      LaidOne([IFail], 0, 1);
      LaidAppendInner([IBackCommit, Offset(3)], [IFail], 0, 3);
      assert [IBackCommit, Offset(3)] + [IFail] == [IBackCommit, Offset(3), IFail];
      LaidAppendInner(head + g, [IBackCommit, Offset(3), IFail], 0, |g| + 5);
    }
  }

  // ----- Jumps make progress -----

  /** Following jumps from `x` arrives at an instruction that is not a jump, or further on but not beyond `pe`. */
  ghost predicate Forward(code: Code, x: int, pe: int) {
    exists n: nat :: LandsIn(code, x, n) || x < Jump(code, x, n) <= pe
  }

  ghost predicate AllForward(code: Code, p: int, q: int, pe: int)
    requires 0 <= p && q <= |code|
  {
    forall x :: p <= x < q && code[x].IJmp? ==> Forward(code, x, pe)
  }

  lemma ForwardJump(code: Code, x: int, n: int, pe: int)
    requires At(code, x, [IJmp, Offset(n)])
    requires 0 < n && x + n <= pe
    ensures Forward(code, x, pe)
  {
    At2(code, x, IJmp, Offset(n));
    assert Jump(code, x, 1) == Jump(code, x + n, 0);
  }

  lemma NoJumps(code: Code, p: int, g: seq<Instr>, pe: int)
    requires At(code, p, g)
    requires forall i :: 0 <= i < |g| ==> !g[i].IJmp?
    ensures AllForward(code, p, p + |g|, pe)
  {
    forall x | p <= x < p + |g|
      ensures !code[x].IJmp?
    {
      AtIndex(code, p, g, x - p);
    }
  }

  lemma TestForward(code: Code, p: int, cs: Charset, e: bool, offset: int, pe: int)
    requires At(code, p, GenTest(cs, e, offset))
    requires 0 < offset && p + offset <= pe
    ensures AllForward(code, p, p + TestSize(cs, e), pe)
  {
    hide Forward;
    var g := GenTest(cs, e, offset);
    if !e && CharsetType(cs).KEmpty? {
      ForwardJump(code, p, offset, pe);
      AtIndex(code, p, g, 1);
    } else {
      NoJumps(code, p, g, pe);
    }
  }

  lemma Widen(code: Code, p: int, q: int, pe: int, pe': int)
    requires 0 <= p && q <= |code|
    requires AllForward(code, p, q, pe) && pe <= pe'
    ensures AllForward(code, p, q, pe')
  {
    forall x | p <= x < q && code[x].IJmp?
      ensures Forward(code, x, pe')
    {
      var n: nat :| LandsIn(code, x, n) || x < Jump(code, x, n) <= pe;
    }
  }

  /** Adjacent stretches of code whose jumps make progress up to `pe`. */
  lemma Join(code: Code, p: int, q: int, r: int, pe: int)
    requires 0 <= p <= q <= r <= |code|
    requires AllForward(code, p, q, pe) && AllForward(code, q, r, pe)
    ensures AllForward(code, p, r, pe)
  {
    hide Forward;
  }

  /** The first stretch may end its progress at `q`. */
  lemma Chain(code: Code, p: int, q: int, r: int, pe: int)
    requires 0 <= p <= q <= r <= |code| && q <= pe
    requires AllForward(code, p, q, q) && AllForward(code, q, r, pe)
    ensures AllForward(code, p, r, pe)
  {
    hide Forward;
    Widen(code, p, q, q, pe);
  }

  /** A fragment sits at `p` and its unconditional jumps make progress inside it. */
  ghost predicate ForwardAt(code: Code, p: int, g: seq<Instr>) {
    At(code, p, g) && AllForward(code, p, p + |g|, p + |g|)
  }

  lemma ConcatForward(code: Code, p: int, g1: seq<Instr>, g2: seq<Instr>)
    requires At(code, p, g1 + g2)
    requires ForwardAt(code, p, g1) && ForwardAt(code, p + |g1|, g2)
    ensures ForwardAt(code, p, g1 + g2)
  {
    hide AllForward;
    Chain(code, p, p + |g1|, p + |g1| + |g2|, p + |g1| + |g2|);
  }

  lemma PlainForward(code: Code, p: int, g: seq<Instr>)
    requires At(code, p, g)
    requires forall i :: 0 <= i < |g| ==> !g[i].IJmp?
    ensures ForwardAt(code, p, g)
  {
    hide AllForward;
    NoJumps(code, p, g, p + |g|);
  }

  /** Every unconditional jump of a generated fragment makes progress inside it. */
  lemma {:induction false} GenForward(code: Code, t: Tree, opt: bool, d: Dominator, fl: Charset, p: int)
    requires At(code, p, Gen(t, opt, d, fl))
    ensures ForwardAt(code, p, Gen(t, opt, d, fl))
    decreases t, 1
  {
    hide ForwardAt, At;
    match t
    case TChar(_) | TSet(_) | TAny | TTrue | TFalse => PlainForward(code, p, Gen(t, opt, d, fl));
    case TChoice(p1, p2) =>
      if TestChoice(p1, p2, fl) {
        TestChoiceTreeForward(code, t, opt, fl, p);
      } else {
        ChoiceTreeForward(code, t, opt, fl, p);
      }
    case TRep(q) => RepTreeForward(code, t, opt, fl, p);
    case TBehind(n, q) =>
      var head := if n > 0 then [IBehind(n % 256)] else [];
      var g := Gen(q, false, NoTest, FULLSET);
      AtSplit(code, p, head, g);
      PlainForward(code, p, head);
      GenForward(code, q, false, NoTest, FULLSET, p + |head|);
      ConcatForward(code, p, head, g);
    case TNot(q) =>
      var f := GetFirst(q, FULLSET);
      if HeadFail(q) {
        NotCodeForward(code, f, true, [], p);
      } else {
        var g := Gen(q, false, NoTest, FULLSET);
        NotCodeHolds(code, f, g, p);
        GenForward(code, q, false, NoTest, FULLSET, p + TestSize(f.cs, f.e) + 2);
        NotCodeForward(code, f, false, g, p);
      }
    case TAnd(q) => AndTreeForward(code, t, d, p);
    case TSeq(p1, p2) => SeqTreeForward(code, t, opt, d, fl, p);
  }

  lemma {:induction false} SeqTreeForward(code: Code, t: Tree, opt: bool, d: Dominator, fl: Charset, p: int)
    requires t.TSeq?
    requires At(code, p, Gen(t, opt, d, fl))
    ensures ForwardAt(code, p, Gen(t, opt, d, fl))
    decreases t, 0
  {
    hide GetFirst, CheckAux, HeadFail, FixedLenX, NeedFollow, GenTest, TestDominator, CharsetType;
    hide ForwardAt, At;
    var (p1, p2) := (t.sib1, t.sib2);
    var fl1 := if NeedFollow(p1) then GetFirst(p2, fl).cs else FULLSET;
    var d2 := if FixedLen(p1) != 0 then NoTest else d;
    var g1 := Gen(p1, false, d, fl1);
    var g2 := Gen(p2, opt, d2, fl);
    AtSplit(code, p, g1, g2);
    GenForward(code, p1, false, d, fl1, p);
    GenForward(code, p2, opt, d2, fl, p + |g1|);
    ConcatForward(code, p, g1, g2);
  }

  lemma {:induction false} TestChoiceTreeForward(code: Code, t: Tree, opt: bool, fl: Charset, p: int)
    requires t.TChoice? && TestChoice(t.sib1, t.sib2, fl)
    requires At(code, p, Gen(t, opt, NoTest, fl))
    ensures ForwardAt(code, p, Gen(t, opt, NoTest, fl))
    decreases t, 0
  {
    hide GetFirst, CheckAux, HeadFail, FixedLenX, NeedFollow, GenTest, TestDominator, CharsetType;
    hide ForwardAt, At;
    var (p1, p2) := (t.sib1, t.sib2);
    var cs := GetFirst(p1, FULLSET).cs;
    var d := TestDominator(cs, false);
    var g1 := Gen(p1, false, d, fl);
    var g2 := Gen(p2, opt, NoTest, fl);
    TestChoiceCodeHolds(code, cs, g1, p2.TTrue?, g2, p);
    GenForward(code, p1, false, d, fl, p + TestSize(cs, false));
    GenForward(code, p2, opt, NoTest, fl, p + |TestChoiceCode(cs, g1, p2.TTrue?, g2)| - |g2|);
    TestChoiceForward(code, cs, g1, p2.TTrue?, g2, p);
  }

  lemma {:induction false} ChoiceTreeForward(code: Code, t: Tree, opt: bool, fl: Charset, p: int)
    requires t.TChoice? && !TestChoice(t.sib1, t.sib2, fl)
    requires At(code, p, Gen(t, opt, NoTest, fl))
    ensures ForwardAt(code, p, Gen(t, opt, NoTest, fl))
    decreases t, 0
  {
    hide GetFirst, CheckAux, HeadFail, FixedLenX, NeedFollow, GenTest, TestDominator, CharsetType;
    hide ForwardAt, At;
    var (p1, p2) := (t.sib1, t.sib2);
    var f := GetFirst(p1, FULLSET);
    if opt && p2.TTrue? {
      var g := Gen(p1, true, NoTest, FULLSET);
      AtSplit(code, p, [IPartialCommit, Offset(2)], g);
      PlainForward(code, p, [IPartialCommit, Offset(2)]);
      GenForward(code, p1, true, NoTest, FULLSET, p + 2);
      ConcatForward(code, p, [IPartialCommit, Offset(2)], g);
    } else {
      var d := TestDominator(f.cs, f.e);
      var g1 := Gen(p1, p2.TTrue?, d, FULLSET);
      var g2 := Gen(p2, opt, NoTest, fl);
      ChoiceCodeHolds(code, f, g1, g2, p);
      GenForward(code, p1, p2.TTrue?, d, FULLSET, p + TestSize(f.cs, f.e) + 2);
      GenForward(code, p2, opt, NoTest, fl, p + TestSize(f.cs, f.e) + 4 + |g1|);
      ChoiceCodeForward(code, f, g1, g2, p);
    }
  }

  lemma {:induction false} RepTreeForward(code: Code, t: Tree, opt: bool, fl: Charset, p: int)
    requires t.TRep?
    requires At(code, p, Gen(t, opt, NoTest, fl))
    ensures ForwardAt(code, p, Gen(t, opt, NoTest, fl))
    decreases t, 0
  {
    hide GetFirst, CheckAux, HeadFail, FixedLenX, NeedFollow, GenTest, TestDominator, CharsetType;
    hide ForwardAt, At;
    var q := t.body;
    var f := GetFirst(q, FULLSET);
    if ToCharset(q).Some? {
      PlainForward(code, p, Gen(t, opt, NoTest, fl));
    } else if TestRep(q, fl) {
      var g := Gen(q, opt, TestDominator(f.cs, false), FULLSET);
      TestRepCodeHolds(code, f.cs, g, p);
      GenForward(code, q, opt, TestDominator(f.cs, false), FULLSET, p + TestSize(f.cs, false));
      TestRepForward(code, f.cs, g, p);
    } else {
      var g := Gen(q, false, NoTest, FULLSET);
      RepCodeHolds(code, f, opt, g, p);
      AtSplit(code, p + TestSize(f.cs, f.e) + 2, g, [IPartialCommit, Offset(-|g|)]);
      GenForward(code, q, false, NoTest, FULLSET, p + TestSize(f.cs, f.e) + 2);
      RepCodeForward(code, f, opt, g, p);
    }
  }

  lemma {:induction false} AndTreeForward(code: Code, t: Tree, d: Dominator, p: int)
    requires t.TAnd?
    requires At(code, p, Gen(t, false, d, FULLSET))
    ensures ForwardAt(code, p, Gen(t, false, d, FULLSET))
    decreases t, 0
  {
    hide GetFirst, CheckAux, HeadFail, FixedLenX, NeedFollow, GenTest, TestDominator, CharsetType;
    hide ForwardAt, At;
    var q := t.body;
    var n := FixedLen(q);
    var g := Gen(q, false, d, FULLSET);
    if 0 <= n <= MAXBEHIND {
      var back := if n > 0 then [IBehind(n)] else [];
      AtSplit(code, p, g, back);
      PlainForward(code, p + |g|, back);
      GenForward(code, q, false, d, FULLSET, p);
      ConcatForward(code, p, g, back);
    } else {
      var head := [IChoice, Offset(4 + |g|)];
      var tail := [IBackCommit, Offset(3), IFail];
      AtSplit(code, p, head + g, tail);
      AtSplit(code, p, head, g);
      PlainForward(code, p, head);
      PlainForward(code, p + 2 + |g|, tail);
      GenForward(code, q, false, d, FULLSET, p + 2);
      ConcatForward(code, p, head, g);
      ConcatForward(code, p, head + g, tail);
    }
  }

  lemma TestChoiceForward(code: Code, cs: Charset, g1: Code, emptyp2: bool, g2: Code, p: int)
    requires At(code, p, TestChoiceCode(cs, g1, emptyp2, g2))
    requires ForwardAt(code, p + TestSize(cs, false), g1)
    requires ForwardAt(code, p + |TestChoiceCode(cs, g1, emptyp2, g2)| - |g2|, g2)
    ensures ForwardAt(code, p, TestChoiceCode(cs, g1, emptyp2, g2))
  {
    hide Forward;
    var q1 := p + TestSize(cs, false);
    var jmp := if emptyp2 then [] else [IJmp, Offset(2 + |g2|)];
    var q2 := q1 + |g1| + |jmp|;
    var pe := q2 + |g2|;
    TestChoiceCodeHolds(code, cs, g1, emptyp2, g2, p);
    TestForward(code, p, cs, false, q2 - p, pe);
    Widen(code, q1, q1 + |g1|, q1 + |g1|, pe);
    if !emptyp2 {
      At2(code, q1 + |g1|, IJmp, Offset(2 + |g2|));
      ForwardJump(code, q1 + |g1|, 2 + |g2|, pe);
    }
  }

  /** A test in front of code whose end it may jump to. */
  lemma TestedForward(code: Code, p: int, cs: Charset, e: bool, offset: int, g: seq<Instr>)
    requires At(code, p, GenTest(cs, e, offset) + g)
    requires 0 < offset <= TestSize(cs, e) + |g|
    requires ForwardAt(code, p + TestSize(cs, e), g)
    ensures ForwardAt(code, p, GenTest(cs, e, offset) + g)
  {
    hide AllForward;
    var q := p + TestSize(cs, e);
    AtSplit(code, p, GenTest(cs, e, offset), g);
    TestForward(code, p, cs, e, offset, q + |g|);
    Join(code, p, q, q + |g|, q + |g|);
  }

  lemma GuardedForward(code: Code, q: int, g1: Code, over: nat)
    requires At(code, q, GuardedCode(g1, over))
    requires ForwardAt(code, q + 2, g1)
    ensures ForwardAt(code, q, GuardedCode(g1, over))
  {
    hide ForwardAt;
    var head := [IChoice, Offset(4 + |g1|)];
    var tail := [ICommit, Offset(2 + over)];
    AtSplit(code, q, head + g1, tail);
    AtSplit(code, q, head, g1);
    hide At;
    PlainForward(code, q, head);
    ConcatForward(code, q, head, g1);
    PlainForward(code, q + 2 + |g1|, tail);
    ConcatForward(code, q, head + g1, tail);
  }

  lemma ChoiceCodeForward(code: Code, f: First, g1: Code, g2: Code, p: int)
    requires At(code, p, ChoiceCode(f, g1, g2))
    requires ForwardAt(code, p + TestSize(f.cs, f.e) + 2, g1)
    requires ForwardAt(code, p + TestSize(f.cs, f.e) + 4 + |g1|, g2)
    ensures ForwardAt(code, p, ChoiceCode(f, g1, g2))
  {
    hide ForwardAt;
    var q := p + TestSize(f.cs, f.e);
    var guarded := GuardedCode(g1, |g2|);
    assert |guarded| == 4 + |g1|;
    var test := GenTest(f.cs, f.e, TestSize(f.cs, f.e) + 4 + |g1|);
    assert |test| == q - p;
    hide GenTest;
    AtSplit(code, p, test, guarded + g2);
    AtSplit(code, q, guarded, g2);
    hide At, ChoiceCode;
    GuardedForward(code, q, g1, |g2|);
    hide GuardedCode;
    ConcatForward(code, q, guarded, g2);
    TestedForward(code, p, f.cs, f.e, TestSize(f.cs, f.e) + 4 + |g1|, guarded + g2);
  }

  lemma TestRepForward(code: Code, cs: Charset, g: Code, p: int)
    requires At(code, p, TestRepCode(cs, g))
    requires ForwardAt(code, p + TestSize(cs, false), g)
    ensures ForwardAt(code, p, TestRepCode(cs, g))
  {
    hide Forward;
    var n := TestSize(cs, false) + |g|;
    var pe := p + n + 2;
    var x := p + n;
    TestRepCodeHolds(code, cs, g, p);
    AtSplit(code, p, GenTest(cs, false, n + 2) + g, [IJmp, Offset(-n)]);
    TestForward(code, p, cs, false, n + 2, pe);
    Widen(code, p + TestSize(cs, false), x, x, pe);
    At2(code, x, IJmp, Offset(-n));
    AtIndex(code, p, GenTest(cs, false, n + 2), 0);
    AtIndex(code, p, GenTest(cs, false, n + 2), 1);
    BackJump(code, x, n, p, pe);
  }

  /** A backward jump meets its loop's test: a real test, or a jump out of the loop. */
  lemma BackJump(code: Code, x: int, n: int, p: int, pe: int)
    requires 0 <= n && 0 <= p && p == x - n && x < pe && x + 1 < |code|
    requires code[x] == IJmp && code[x + 1] == Offset(-n)
    requires code[p].IJmp? ==> code[p + 1] == Offset(pe - p)
    ensures Forward(code, x, pe)
  {
    assert Jump(code, x, 1) == Jump(code, p, 0);
    assert Jump(code, x, 2) == Jump(code, p, 1);
    if code[p].IJmp? {
      assert Jump(code, p, 1) == Jump(code, pe, 0);
      assert x < Jump(code, x, 2) <= pe;
    } else {
      assert LandsIn(code, x, 1);
    }
  }

  lemma TestLength(cs: Charset, e: bool, offset: int)
    ensures |GenTest(cs, e, offset)| == TestSize(cs, e)
  {}

  lemma RepCodeForward(code: Code, f: First, opt: bool, g: Code, p: int)
    requires At(code, p, RepCode(f, opt, g))
    requires ForwardAt(code, p + TestSize(f.cs, f.e) + 2, g)
    ensures ForwardAt(code, p, RepCode(f, opt, g))
  {
    hide ForwardAt, GenTest, TestSize, At;
    var q := p + TestSize(f.cs, f.e);
    var head := RepHead(opt, |g|);
    var tail := [IPartialCommit, Offset(-|g|)];
    var test := GenTest(f.cs, f.e, TestSize(f.cs, f.e) + 4 + |g|);
    TestLength(f.cs, f.e, TestSize(f.cs, f.e) + 4 + |g|);
    AtSplit(code, p, test, head + LoopCode(g));
    AtSplit(code, q, head, LoopCode(g));
    AtSplit(code, q + 2, g, tail);
    PlainForward(code, q, head);
    PlainForward(code, q + 2 + |g|, tail);
    ConcatForward(code, q + 2, g, tail);
    ConcatForward(code, q, head, LoopCode(g));
    TestedForward(code, p, f.cs, f.e, TestSize(f.cs, f.e) + 4 + |g|, head + LoopCode(g));
  }

  lemma NotCodeForward(code: Code, f: First, headfail: bool, g: Code, p: int)
    requires At(code, p, NotCode(f, headfail, g))
    requires !headfail ==> ForwardAt(code, p + TestSize(f.cs, f.e) + 2, g)
    ensures ForwardAt(code, p, NotCode(f, headfail, g))
  {
    hide ForwardAt, GenTest, TestSize, At;
    var q := p + TestSize(f.cs, f.e);
    var head := [IChoice, Offset(3 + |g|)];
    var body := if headfail then [IFail] else head + g + [IFailTwice];
    var test := GenTest(f.cs, f.e, TestSize(f.cs, f.e) + |body|);
    TestLength(f.cs, f.e, TestSize(f.cs, f.e) + |body|);
    AtSplit(code, p, test, body);
    if headfail {
      PlainForward(code, q, body);
    } else {
      AtSplit(code, q, head + g, [IFailTwice]);
      AtSplit(code, q, head, g);
      PlainForward(code, q, head);
      PlainForward(code, q + 2 + |g|, [IFailTwice]);
      ConcatForward(code, q, head, g);
      ConcatForward(code, q, head + g, [IFailTwice]);
    }
    TestedForward(code, p, f.cs, f.e, TestSize(f.cs, f.e) + |body|, body);
  }

  /** In code that ends with a non-jump, jumps that make progress land. */
  lemma {:induction false} ForwardLands(code: Code, x: int)
    requires |code| > 0 && !code[|code| - 1].IJmp?
    requires AllForward(code, 0, |code| - 1, |code| - 1)
    requires 0 <= x < |code|
    ensures Lands(code, x)
    decreases |code| - x
  {
    if !code[x].IJmp? {
      assert LandsIn(code, x, 0);
    } else {
      var n: nat :| LandsIn(code, x, n) || x < Jump(code, x, n) <= |code| - 1;
      if !LandsIn(code, x, n) {
        var y := Jump(code, x, n);
        ForwardLands(code, y);
        var m: nat :| LandsIn(code, y, m);
        JumpCompose(code, x, n, m);
        assert LandsIn(code, x, n + m);
      }
    }
  }

  /** What jump optimisation relies on: well-formed instructions, labels inside the code, jumps that land. */
  ghost predicate WellLaid(code: Code) {
    && Tiled(code, 0)
    && |code| > 0 && code[|code| - 1].IEnd?
    && (forall x :: 0 <= x < |code| && (HasLabel(code[x]) || code[x].IJmp?) ==>
          HasOffset(code, x) && 0 <= Target(code, x) < |code|)
    && (forall x :: 0 <= x < |code| ==> Lands(code, x))
  }

  /** The code of every pattern is well laid. */
  lemma PatternWellLaid(t: Tree)
    ensures WellLaid(GenPattern(t))
  {
    var g := Gen(t, false, NoTest, FULLSET);
    var code := GenPattern(t);
    assert At(code, 0, g);
    assert code[|g|] == IEnd;
    PatternLabels(g) by { GenLaid(t, false, NoTest, FULLSET); }
    assert AllForward(code, 0, |g|, |g|) by {
      GenForward(code, t, false, NoTest, FULLSET, 0);
    }
    hide Gen, At, AllForward, Lands, Tiled;
    forall x | 0 <= x < |code|
      ensures Lands(code, x)
    {
      ForwardLands(code, x);
    }
  }

  lemma PatternLabels(g: Code)
    requires Laid(g, 0, |g|)
    ensures var code := g + [IEnd];
      && Tiled(code, 0)
      && (forall x :: 0 <= x < |code| && (HasLabel(code[x]) || code[x].IJmp?) ==>
            HasOffset(code, x) && 0 <= Target(code, x) < |code|)
  {
    var code := g + [IEnd];
    assert Tiled([IEnd], 1);
    TiledAppend(g, [IEnd], 0);
    forall x | 0 <= x < |code| && (HasLabel(code[x]) || code[x].IJmp?)
      ensures HasOffset(code, x) && 0 <= Target(code, x) < |code|
    {
      assert code[x] == g[x] && code[x + 1] == g[x + 1];
    }
  }
}
