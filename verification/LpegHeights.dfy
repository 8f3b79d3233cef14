/** The height of the backtrack stack: every address of compiled code has one, bounded by the nesting of the pattern. */
module LpegHeights {
  import opened Common
  import opened LpegTree
  import opened LpegAnalysis
  import opened LpegMachine
  import opened LpegCodegen
  import opened LpegPeephole

  /** How deep choices, loops and predicates are nested. */
  function Nest(t: Tree): nat {
    match t
    case TChoice(p1, p2) => Max(1 + Nest(p1), Nest(p2))
    case TSeq(p1, p2) => Max(Nest(p1), Nest(p2))
    case TRep(p) => 1 + Nest(p)
    case TNot(p) => 1 + Nest(p)
    case TAnd(p) => 1 + Nest(p)
    case TBehind(_, p) => Nest(p)
    case _ => 0
  }

  function Max(a: nat, b: nat): nat { if a < b then b else a }

  // ----- Heights of fragments -----

  predicate Is(h: seq<int>, p: int, v: int) { 0 <= p < |h| && h[p] == v }

  /** Address `p` has height `v`: inside the fragment, or it is the address `x`, which has height `hx`. */
  predicate To(h: seq<int>, p: int, v: int, x: int, hx: int) { Is(h, p, v) || (v == hx && p == x) }

  predicate LabelTo(g: Code, h: seq<int>, q: int, v: int, x: int, hx: int) {
    HasOffset(g, q) && To(h, Target(g, q), v, x, hx)
  }

  /** What the instruction at `q` does to the height; slots inside an instruction have height -1. */
  predicate TypedAt(g: Code, h: seq<int>, q: nat, x: int, hx: int)
    requires q < |g| && q < |h|
  {
    var v := h[q];
    v < 0 ||
    match g[q]
    case IAny | IChar(_) | IBehind(_) => Is(h, q + 1, v)
    case ISet | ISpan => Is(h, q + CHARSETINSTSIZE, v)
    case ITestAny | ITestChar(_) => Is(h, q + 2, v) && LabelTo(g, h, q, v, x, hx)
    case ITestSet => Is(h, q + 1 + CHARSETINSTSIZE, v) && LabelTo(g, h, q, v, x, hx)
    case IJmp | IPartialCommit => LabelTo(g, h, q, v, x, hx)
    case IChoice => Is(h, q + 2, v + 1) && LabelTo(g, h, q, v, x, hx)
    case ICommit | IBackCommit => v >= 1 && LabelTo(g, h, q, v - 1, x, hx)
    case IFail | IFailTwice | IEnd => true
    case _ => false
  }

  /** From height `b` at the start to height `e` at the end, and nowhere above `top`. */
  predicate Fits(g: Code, h: seq<int>, b: int, e: int, top: int, x: int, hx: int) {
    && |h| == |g| + 1 && h[0] == b && h[|g|] == e && (forall q :: 0 <= q < |h| ==> h[q] <= top)
    && forall q :: 0 <= q < |g| ==> TypedAt(g, h, q, x, hx)
  }

  ghost predicate Has(g: Code, b: int, e: int, top: int, x: int, hx: int) {
    exists h: seq<int> :: Fits(g, h, b, e, top, x, hx)
  }

  /** No label leaves the fragment. */
  ghost predicate Closed(g: Code, b: int, e: int, top: int) { Has(g, b, e, top, 0, b) }

  /** Where a label of a part may lead in the whole: to the start, the middle, the end, or out of it. */
  predicate Covered(p: int, hx: int, b: int, m: int, e: int, n1: nat, n2: nat, y: int) {
    (p == 0 && hx == b) || (p == n1 && hx == m) || (p == n1 + n2 && hx == e) || p == y
  }

  /** Two fragments, one after the other. */
  lemma {:induction false} Join(g1: Code, g2: Code, b: int, m: int, e: int, top: int, hx: int, x: int, z: int, y: int)
    requires Has(g1, b, m, top, x, hx) && Has(g2, m, e, top, z, hx)
    requires Covered(x, hx, b, m, e, |g1|, |g2|, y) && Covered(z + |g1|, hx, b, m, e, |g1|, |g2|, y)
    ensures Has(g1 + g2, b, e, top, y, hx)
  {
    hide TypedAt, Covered;
    var h1: seq<int> :| Fits(g1, h1, b, m, top, x, hx);
    var h2: seq<int> :| Fits(g2, h2, m, e, top, z, hx);
    var h := h1[..|g1|] + h2;
    Heights(h1, h2, |g1|);
    Below(h1, h2, |g1|, top);
    forall q | 0 <= q < |g1 + g2|
      ensures TypedAt(g1 + g2, h, q, y, hx)
    {
      JoinTyped(g1, h1, g2, h2, h, b, m, e, hx, x, z, y, q);
    }
    assert h[|g1| + |g2|] == e;
    assert Fits(g1 + g2, h, b, e, top, y, hx);
  }

  lemma {:induction false} JoinTyped(g1: Code, h1: seq<int>, g2: Code, h2: seq<int>, h: seq<int>, b: int, m: int, e: int, hx: int,
                                     x: int, z: int, y: int, q: nat)
    requires |h1| == |g1| + 1 && |h2| == |g2| + 1 && |h| == |g1| + |g2| + 1 && q < |g1 + g2|
    requires (forall p :: 0 <= p <= |g1| ==> h[p] == h1[p]) && forall p :: 0 <= p < |h2| ==> h[|g1| + p] == h2[p]
    requires h1[0] == b && h1[|g1|] == m && h2[|g2|] == e
    requires if q < |g1| then TypedAt(g1, h1, q, x, hx) else TypedAt(g2, h2, q - |g1|, z, hx)
    requires Covered(x, hx, b, m, e, |g1|, |g2|, y) && Covered(z + |g1|, hx, b, m, e, |g1|, |g2|, y)
    ensures TypedAt(g1 + g2, h, q, y, hx)
  {
    hide TypedAt;
    var n := |g1|;
    assert h[0] == h1[0] && h[n] == h1[n] && h[n + |g2|] == h2[|g2|];
    if q < n {
      TypedMoved(g1, h1, q, x, g1 + g2, h, 0, y, hx);
    } else {
      TypedMoved(g2, h2, q - n, z, g1 + g2, h, n, y, hx);
    }
  }

  lemma {:induction false} Heights(h1: seq<int>, h2: seq<int>, n: nat)
    requires |h1| == n + 1 && h2 != [] && h1[n] == h2[0]
    ensures var h := h1[..n] + h2;
            (forall q :: 0 <= q <= n ==> h[q] == h1[q]) && forall q :: 0 <= q < |h2| ==> h[n + q] == h2[q]
  {}

  lemma {:induction false} Below(h1: seq<int>, h2: seq<int>, n: nat, top: int)
    requires n <= |h1| && (forall q :: 0 <= q < |h1| ==> h1[q] <= top) && forall q :: 0 <= q < |h2| ==> h2[q] <= top
    ensures var h := h1[..n] + h2; forall q :: 0 <= q < |h| ==> h[q] <= top
  {}

  /** An instruction of a part, in the whole. */
  lemma {:induction false} TypedMoved(g: Code, h: seq<int>, q: nat, x: int, g': Code, h': seq<int>, n: nat, y: int, hx: int)
    requires q < |g| && |h| == |g| + 1 && n + |h| <= |h'| && |h'| == |g'| + 1 && TypedAt(g, h, q, x, hx)
    requires forall p :: 0 <= p < |g| ==> g'[n + p] == g[p]
    requires forall p :: 0 <= p < |h| ==> h'[n + p] == h[p]
    requires To(h', x + n, hx, y, hx)
    ensures TypedAt(g', h', n + q, y, hx)
  {
    assert forall p, w :: Is(h, p, w) ==> Is(h', n + p, w);
    if HasOffset(g, q) {
      assert g'[n + (q + 1)] == g[q + 1];
      assert Target(g', n + q) == n + Target(g, q);
    }
  }

  /** A closed fragment in any surroundings. */
  lemma {:induction false} Anywhere(g: Code, b: int, e: int, top: int, x: int, hx: int)
    requires Closed(g, b, e, top)
    ensures Has(g, b, e, top, x, hx)
  {
    hide TypedAt;
    var h: seq<int> :| Fits(g, h, b, e, top, 0, b);
    forall q | 0 <= q < |g|
      ensures TypedAt(g, h, q, x, hx)
    {
      Weaker(g, h, q, b, x, hx);
    }
    assert Fits(g, h, b, e, top, x, hx);
  }

  lemma {:induction false} Weaker(g: Code, h: seq<int>, q: nat, b: int, x: int, hx: int)
    requires q < |g| && |h| == |g| + 1 && h[0] == b && TypedAt(g, h, q, 0, b)
    ensures TypedAt(g, h, q, x, hx)
  {}

  lemma {:induction false} Higher(g: Code, b: int, e: int, top: int, top': int)
    requires Closed(g, b, e, top) && top <= top'
    ensures Closed(g, b, e, top')
  {
    hide TypedAt;
    var h: seq<int> :| Fits(g, h, b, e, top, 0, b);
    assert Fits(g, h, b, e, top', 0, b);
  }

  lemma {:induction false} HasEmpty(b: int, top: int, x: int, hx: int)
    requires b <= top
    ensures Has([], b, b, top, x, hx)
  {
    assert Fits([], [b], b, b, top, x, hx);
  }

  /** One instruction with its operands, from height `b` to `e`. */
  lemma {:induction false} HasOne(g: Code, b: nat, e: int, top: int, x: int, hx: int)
    requires |g| > 0 && b <= top && e <= top
    requires TypedAt(g, [b] + seq(|g| - 1, _ => -1) + [e], 0, x, hx)
    ensures Has(g, b, e, top, x, hx)
  {
    var h := [b] + seq(|g| - 1, _ => -1) + [e];
    assert Fits(g, h, b, e, top, x, hx);
  }

  lemma {:induction false} HasTest(cs: Charset, e: bool, offset: int, b: nat, top: int)
    requires b <= top
    ensures Has(GenTest(cs, e, offset), b, b, top, offset, b) && |GenTest(cs, e, offset)| == TestSize(cs, e)
  {
    if e {
      HasEmpty(b, top, offset, b);
    } else {
      HasOne(GenTest(cs, e, offset), b, b, top, offset, b);
    }
  }

  /** A choice, or an instruction that does not go on behind it. */
  lemma {:induction false} HasLabelled(op: Instr, n: int, b: nat, e: int, top: int)
    requires op.IChoice? || op.IJmp? || op.ICommit? || op.IPartialCommit? || op.IBackCommit?
    requires b + 1 <= top && e <= top && (op.IChoice? ==> e == b + 1)
    ensures Has([op, Offset(n)], if op.ICommit? || op.IBackCommit? then b + 1 else b, e, top, n, b)
  {
    HasOne([op, Offset(n)], if op.ICommit? || op.IBackCommit? then b + 1 else b, e, top, n, b);
  }

  lemma {:induction false} HasJump(n: int, b: nat, e: int, top: int)
    requires b <= top && e <= top
    ensures Has([IJmp, Offset(n)], b, e, top, n, b) && Has([IPartialCommit, Offset(n)], b, e, top, n, b)
  {
    HasOne([IJmp, Offset(n)], b, e, top, n, b);
    HasOne([IPartialCommit, Offset(n)], b, e, top, n, b);
  }

  lemma {:induction false} HasFail(b: nat, e: int, top: int, x: int, hx: int)
    requires b <= top && e <= top
    ensures Has([IFail], b, e, top, x, hx) && Has([IFailTwice], b, e, top, x, hx)
  {
    HasOne([IFail], b, e, top, x, hx);
    HasOne([IFailTwice], b, e, top, x, hx);
  }

  // ----- Heights of the code shapes -----

  lemma {:induction false} SeqHeights(g1: Code, g2: Code, b: int, top: int)
    requires Closed(g1, b, b, top) && Closed(g2, b, b, top)
    ensures Closed(g1 + g2, b, b, top)
  {
    hide Has;
    Join(g1, g2, b, b, b, top, b, 0, 0, 0);
  }

  /** A test in front of code whose end it may jump to. */
  lemma {:induction false} TestedHeights(cs: Charset, e: bool, body: Code, b: nat, top: int)
    requires b <= top && Closed(body, b, b, top)
    ensures Closed(GenTest(cs, e, TestSize(cs, e) + |body|) + body, b, b, top)
  {
    hide Has, GenTest;
    var offset := TestSize(cs, e) + |body|;
    HasTest(cs, e, offset, b, top);
    Join(GenTest(cs, e, offset), body, b, b, b, top, b, offset, 0, 0);
  }

  /** choice L1; p */
  lemma {:induction false} OpenHeights(n: int, g: Code, b: nat, top: int)
    requires b + 1 <= top && Closed(g, b + 1, b + 1, top)
    ensures Has([IChoice, Offset(n)] + g, b, b + 1, top, n, b)
  {
    hide Has;
    HasLabelled(IChoice, n, b, b + 1, top);
    Anywhere(g, b + 1, b + 1, top, n - 2, b);
    Join([IChoice, Offset(n)], g, b, b + 1, b + 1, top, b, n, n - 2, n);
  }

  lemma {:induction false} NotHeights(f: First, headfail: bool, g: Code, b: nat, top: int)
    requires b + 1 <= top && (!headfail ==> Closed(g, b + 1, b + 1, top))
    ensures Closed(NotCode(f, headfail, g), b, b, top)
  {
    hide Has, GenTest, TestSize;
    var body := if headfail then [IFail] else [IChoice, Offset(3 + |g|)] + g + [IFailTwice];
    if headfail {
      HasFail(b, b, top, 0, b);
    } else {
      OpenHeights(3 + |g|, g, b, top);
      HasFail(b + 1, b, top, 0, b);
      Anywhere([IFailTwice], b + 1, b, top, -2 - |g|, b) by { HasFail(b + 1, b, top, 0, b + 1); }
      Join([IChoice, Offset(3 + |g|)] + g, [IFailTwice], b, b + 1, b, top, b, 3 + |g|, -2 - |g|, 0);
    }
    TestedHeights(f.cs, f.e, body, b, top);
  }

  lemma {:induction false} AndHeights(n: int, g: Code, b: nat, top: int)
    requires b + 1 <= top && (if 0 <= n <= MAXBEHIND then Closed(g, b, b, top) else Closed(g, b + 1, b + 1, top))
    ensures Closed(AndCode(n, g), b, b, top)
  {
    hide Has;
    if n == 0 {
      assert g + [] == g;
    } else if 0 < n <= MAXBEHIND {
      HasOne([IBehind(n)], b, b, top, 0, b);
      SeqHeights(g, [IBehind(n)], b, top);
    } else {
      var head := [IChoice, Offset(4 + |g|)] + g;
      OpenHeights(4 + |g|, g, b, top);
      HasLabelled(IBackCommit, 3, b, b, top);
      Join(head, [IBackCommit, Offset(3)], b, b + 1, b, top, b, 4 + |g|, 3, 5 + |g|);
      HasFail(b, b, top, 1, b);
      Join(head + [IBackCommit, Offset(3)], [IFail], b, b, b, top, b, 5 + |g|, 1, 0);
      assert head + [IBackCommit, Offset(3)] + [IFail] == head + [IBackCommit, Offset(3), IFail];
    }
  }

  lemma {:induction false} TestChoiceHeights(cs: Charset, g1: Code, emptyp2: bool, g2: Code, b: nat, top: int)
    requires b <= top && Closed(g1, b, b, top) && Closed(g2, b, b, top)
    ensures Closed(TestChoiceCode(cs, g1, emptyp2, g2), b, b, top)
  {
    hide Has, GenTest;
    var jmp := if emptyp2 then [] else [IJmp, Offset(2 + |g2|)];
    var (size, over) := (TestSize(cs, false), |jmp| + |g2|);
    var offset := size + |g1| + |jmp|;
    var test := GenTest(cs, false, offset);
    HasTest(cs, false, offset, b, top);
    Anywhere(g1, b, b, top, offset - size, b);
    Join(test, g1, b, b, b, top, b, offset, offset - size, offset);
    if emptyp2 {
      HasEmpty(b, top, over, b);
    } else {
      HasJump(over, b, b, top);
    }
    Join(test + g1, jmp, b, b, b, top, b, offset, over, size + |g1| + over);
    Anywhere(g2, b, b, top, |g2|, b);
    Join(test + g1 + jmp, g2, b, b, b, top, b, size + |g1| + over, |g2|, 0);
  }

  lemma {:induction false} GuardedHeights(g1: Code, over: nat, b: nat, top: int)
    requires b + 1 <= top && Closed(g1, b + 1, b + 1, top)
    ensures Has(GuardedCode(g1, over), b, b, top, 4 + |g1| + over, b)
  {
    hide Has;
    OpenHeights(4 + |g1|, g1, b, top);
    HasLabelled(ICommit, 2 + over, b, b, top);
    Join([IChoice, Offset(4 + |g1|)] + g1, [ICommit, Offset(2 + over)], b, b + 1, b, top, b, 4 + |g1|, 2 + over, 4 + |g1| + over);
  }

  lemma {:induction false} ChoiceHeights(f: First, g1: Code, g2: Code, b: nat, top: int)
    requires b + 1 <= top && Closed(g1, b + 1, b + 1, top) && Closed(g2, b, b, top)
    ensures Closed(ChoiceCode(f, g1, g2), b, b, top)
  {
    hide Has, GenTest;
    var offset := TestSize(f.cs, f.e) + 4 + |g1|;
    var (test, guarded) := (GenTest(f.cs, f.e, offset), GuardedCode(g1, |g2|));
    HasTest(f.cs, f.e, offset, b, top);
    GuardedHeights(g1, |g2|, b, top);
    Join(test, guarded, b, b, b, top, b, offset, 4 + |g1| + |g2|, offset + |g2|);
    Anywhere(g2, b, b, top, |g2|, b);
    Join(test + guarded, g2, b, b, b, top, b, offset + |g2|, |g2|, 0);
    Assoc(test, guarded, g2);
  }

  lemma {:induction false} TestRepHeights(cs: Charset, g: Code, b: nat, top: int)
    requires b <= top && Closed(g, b, b, top)
    ensures Closed(TestRepCode(cs, g), b, b, top)
  {
    hide Has, GenTest;
    var n := TestSize(cs, false) + |g|;
    var test := GenTest(cs, false, n + 2);
    HasTest(cs, false, n + 2, b, top);
    Anywhere(g, b, b, top, |g| + 2, b);
    Join(test, g, b, b, b, top, b, n + 2, |g| + 2, n + 2);
    HasJump(-n, b, b, top);
    Join(test + g, [IJmp, Offset(-n)], b, b, b, top, b, n + 2, -n, 0);
  }

  /** The body runs with an entry of its own, or with the enclosing one. */
  lemma {:induction false} RepHeights(f: First, opt: bool, g: Code, b: nat, top: int)
    requires b + 1 <= top && (if opt then Closed(g, b, b, top) else Closed(g, b + 1, b + 1, top))
    ensures Closed(RepCode(f, opt, g), b, b, top)
  {
    hide Has, GenTest, TestSize;
    var m := if opt then b else b + 1;
    HasJump(-|g|, m, b, top);
    Join(g, [IPartialCommit, Offset(-|g|)], m, m, b, top, m, 0, -|g|, 0);
    Anywhere(LoopCode(g), m, b, top, |LoopCode(g)|, b);
    if opt {
      HasJump(2, b, b, top);
      Join(RepHead(opt, |g|), LoopCode(g), b, b, b, top, b, 2, |LoopCode(g)|, 0);
    } else {
      HasLabelled(IChoice, 4 + |g|, b, b + 1, top);
      Join(RepHead(opt, |g|), LoopCode(g), b, b + 1, b, top, b, 4 + |g|, |LoopCode(g)|, 0);
    }
    TestedHeights(f.cs, f.e, RepHead(opt, |g|) + LoopCode(g), b, top);
  }

  // ----- Heights of generated code -----

  /** Generated code starts and ends at the same height, and rises by no more than the pattern is nested. */
  lemma {:induction false} GenHeights(t: Tree, opt: bool, d: Dominator, fl: Charset, b: nat)
    ensures Closed(Gen(t, opt, d, fl), b, b, b + Nest(t))
    decreases t, 1
  {
    hide Closed, GetFirst, CheckAux, HeadFail, FixedLenX, NeedFollow, TestDominator, NotCode, AndCode, TypedAt, CharsetType;
    match t
    case TChar(_) | TSet(_) | TAny | TFalse | TTrue => LeafHeights(t, opt, d, fl, b);
    case TChoice(_, _) => ChoiceTreeHeights(t, opt, d, fl, b);
    case TRep(_) => RepTreeHeights(t, opt, d, fl, b);
    case TBehind(n, p) =>
      GenHeights(p, false, NoTest, FULLSET, b);
      BehindHeights(n, Gen(p, false, NoTest, FULLSET), b, b + Nest(p));
    case TNot(_) => NotTreeHeights(t, opt, d, fl, b);
    case TAnd(_) => AndTreeHeights(t, opt, d, fl, b);
    case TSeq(_, _) => SeqTreeHeights(t, opt, d, fl, b);
  }

  lemma {:induction false} NotTreeHeights(t: Tree, opt: bool, d: Dominator, fl: Charset, b: nat)
    requires t.TNot?
    ensures Closed(Gen(t, opt, d, fl), b, b, b + Nest(t))
    decreases t, 0
  {
    hide Closed, GetFirst, CheckAux, HeadFail, FixedLenX, NeedFollow, TestDominator, NotCode, AndCode, TypedAt, CharsetType;
    var p := t.body;
    GenHeights(p, false, NoTest, FULLSET, b + 1);
    NotHeights(GetFirst(p, FULLSET), HeadFail(p), if HeadFail(p) then [] else Gen(p, false, NoTest, FULLSET), b, b + Nest(t));
  }

  lemma {:induction false} AndTreeHeights(t: Tree, opt: bool, d: Dominator, fl: Charset, b: nat)
    requires t.TAnd?
    ensures Closed(Gen(t, opt, d, fl), b, b, b + Nest(t))
    decreases t, 0
  {
    hide Closed, GetFirst, CheckAux, HeadFail, FixedLenX, NeedFollow, TestDominator, NotCode, AndCode, TypedAt, CharsetType;
    var p := t.body;
    var g := Gen(p, false, d, FULLSET);
    GenHeights(p, false, d, FULLSET, b);
    GenHeights(p, false, d, FULLSET, b + 1);
    Higher(g, b, b, b + Nest(p), b + Nest(t));
    AndHeights(FixedLen(p), g, b, b + Nest(t));
  }

  lemma {:induction false} SeqTreeHeights(t: Tree, opt: bool, d: Dominator, fl: Charset, b: nat)
    requires t.TSeq?
    ensures Closed(Gen(t, opt, d, fl), b, b, b + Nest(t))
    decreases t, 0
  {
    hide Closed, GetFirst, FixedLenX, NeedFollow, Gen, Nest;
    var (p1, p2, top) := (t.sib1, t.sib2, b + Nest(t));
    var fl1 := if NeedFollow(p1) then GetFirst(p2, fl).cs else FULLSET;
    var d2 := if FixedLen(p1) != 0 then NoTest else d;
    var (g1, g2) := (Gen(p1, false, d, fl1), Gen(p2, opt, d2, fl));
    assert t == TSeq(p1, p2);
    SeqNest(p1, p2);
    SeqGen(p1, p2, opt, d, fl);
    GenHeights(p1, false, d, fl1, b);
    GenHeights(p2, opt, d2, fl, b);
    Higher(g1, b, b, b + Nest(p1), top);
    Higher(g2, b, b, b + Nest(p2), top);
    SeqHeights(g1, g2, b, top);
  }

  lemma {:induction false} SeqNest(p1: Tree, p2: Tree)
    ensures Nest(p1) <= Nest(TSeq(p1, p2)) && Nest(p2) <= Nest(TSeq(p1, p2))
  {}

  lemma {:induction false} SeqGen(p1: Tree, p2: Tree, opt: bool, d: Dominator, fl: Charset)
    ensures Gen(TSeq(p1, p2), opt, d, fl) ==
      Gen(p1, false, d, if NeedFollow(p1) then GetFirst(p2, fl).cs else FULLSET) +
      Gen(p2, opt, if FixedLen(p1) != 0 then NoTest else d, fl)
  {
    hide GetFirst, FixedLenX, NeedFollow;
  }

  lemma {:induction false} LeafHeights(t: Tree, opt: bool, d: Dominator, fl: Charset, b: nat)
    requires t.TChar? || t.TSet? || t.TAny? || t.TFalse? || t.TTrue?
    ensures Closed(Gen(t, opt, d, fl), b, b, b + Nest(t))
  {
    if t.TTrue? {
      HasEmpty(b, b, 0, b);
    } else {
      HasOne(Gen(t, opt, d, fl), b, b, b, 0, b);
    }
  }

  lemma {:induction false} BehindHeights(n: nat, g: Code, b: nat, top: int)
    requires b <= top && Closed(g, b, b, top)
    ensures Closed((if n > 0 then [IBehind(n % 256)] else []) + g, b, b, top)
  {
    if n > 0 {
      HasOne([IBehind(n % 256)], b, b, top, 0, b);
      SeqHeights([IBehind(n % 256)], g, b, top);
    } else {
      assert [] + g == g;
    }
  }

  lemma {:induction false} ChoiceTreeHeights(t: Tree, opt: bool, d: Dominator, fl: Charset, b: nat)
    requires t.TChoice?
    ensures Closed(Gen(t, opt, d, fl), b, b, b + Nest(t))
    decreases t, 0
  {
    hide Closed, GetFirst, CheckAux, HeadFail, TestDominator, GenTest, TypedAt, ChoiceCode, TestChoiceCode, TestChoice, Nest;
    var (p1, p2, top) := (t.sib1, t.sib2, b + Nest(t));
    ChoiceNest(p1, p2);
    var f := GetFirst(p1, FULLSET);
    var g2 := Gen(p2, opt, NoTest, fl);
    GenHeights(p2, opt, NoTest, fl, b);
    Higher(g2, b, b, b + Nest(p2), top);
    if TestChoice(p1, p2, fl) {
      var g1 := Gen(p1, false, TestDominator(f.cs, false), fl);
      GenHeights(p1, false, TestDominator(f.cs, false), fl, b);
      Higher(g1, b, b, b + Nest(p1), top);
      TestChoiceHeights(f.cs, g1, p2.TTrue?, g2, b, top);
    } else if opt && p2.TTrue? {
      var g1 := Gen(p1, true, NoTest, FULLSET);
      GenHeights(p1, true, NoTest, FULLSET, b);
      Higher(g1, b, b, b + Nest(p1), top);
      PartialHeights(g1, b, top);
    } else {
      var g1 := Gen(p1, p2.TTrue?, TestDominator(f.cs, f.e), FULLSET);
      GenHeights(p1, p2.TTrue?, TestDominator(f.cs, f.e), FULLSET, b + 1);
      Higher(g1, b + 1, b + 1, b + 1 + Nest(p1), top);
      ChoiceHeights(f, g1, g2, b, top);
    }
  }

  lemma {:induction false} ChoiceNest(p1: Tree, p2: Tree)
    ensures 1 + Nest(p1) <= Nest(TChoice(p1, p2)) && Nest(p2) <= Nest(TChoice(p1, p2))
  {}

  lemma {:induction false} PartialHeights(g: Code, b: nat, top: int)
    requires b <= top && Closed(g, b, b, top)
    ensures Closed([IPartialCommit, Offset(2)] + g, b, b, top)
  {
    hide Has;
    HasJump(2, b, b, top);
    Join([IPartialCommit, Offset(2)], g, b, b, b, top, b, 2, 0, 0);
  }

  lemma {:induction false} RepTreeHeights(t: Tree, opt: bool, d: Dominator, fl: Charset, b: nat)
    requires t.TRep?
    ensures Closed(Gen(t, opt, d, fl), b, b, b + Nest(t))
    decreases t, 0
  {
    hide Closed, GetFirst, CheckAux, HeadFail, TestDominator, GenTest, TypedAt, RepCode, TestRepCode, TestRep, CharsetSlots;
    var (p, top) := (t.body, b + Nest(t));
    var f := GetFirst(p, FULLSET);
    if ToCharset(p).Some? {
      SpanHeights(ToCharset(p).value, b, top);
    } else if TestRep(p, fl) {
      var g := Gen(p, opt, TestDominator(f.cs, false), FULLSET);
      GenHeights(p, opt, TestDominator(f.cs, false), FULLSET, b);
      Higher(g, b, b, b + Nest(p), top);
      TestRepHeights(f.cs, g, b, top);
    } else {
      var g := Gen(p, false, NoTest, FULLSET);
      GenHeights(p, false, NoTest, FULLSET, b);
      GenHeights(p, false, NoTest, FULLSET, b + 1);
      Higher(g, b, b, b + Nest(p), top);
      RepHeights(f, opt, g, b, top);
    }
  }

  lemma {:induction false} SpanHeights(cs: Charset, b: nat, top: int)
    requires b <= top
    ensures Closed([ISpan] + CharsetSlots(cs), b, b, top)
  {
    HasOne([ISpan] + CharsetSlots(cs), b, b, top, 0, b);
  }

  // ----- Heights of whole programs -----

  /** Every address has a height, and the code starts at height 1: the entry that gives up. */
  predicate Leveled(code: Code, h: seq<int>, top: int) {
    && |h| == |code| > 0 && h[0] == 1 && (forall q :: 0 <= q < |h| ==> h[q] <= top)
    && forall q :: 0 <= q < |code| ==> TypedAt(code, h, q, 0, 1)
  }

  lemma {:induction false} PatternLeveled(t: Tree) returns (h: seq<int>)
    ensures Leveled(GenPattern(t), h, 1 + Nest(t))
  {
    hide TypedAt, Gen, Nest;
    var g := Gen(t, false, NoTest, FULLSET);
    GenHeights(t, false, NoTest, FULLSET, 1);
    h :| Fits(g, h, 1, 1, 1 + Nest(t), 0, 1);
    forall q | 0 <= q < |g|
      ensures TypedAt(g + [IEnd], h, q, 0, 1)
    {
      EndAppended(g, h, q);
    }
    EndTyped(g + [IEnd], h, |g|);
  }

  lemma {:induction false} EndTyped(code: Code, h: seq<int>, q: nat)
    requires q < |code| == |h| && code[q].IEnd?
    ensures TypedAt(code, h, q, 0, 1)
  {}

  lemma {:induction false} EndAppended(g: Code, h: seq<int>, q: nat)
    requires q < |g| && |h| == |g| + 1 && TypedAt(g, h, q, 0, 1)
    ensures TypedAt(g + [IEnd], h, q, 0, 1)
  {
    if HasOffset(g, q) {
      assert (g + [IEnd])[q + 1] == g[q + 1];
    }
  }

  /** Jumps stay at their height. */
  lemma {:induction false} JumpLevel(code: Code, h: seq<int>, top: int, a: int, n: nat)
    requires Leveled(code, h, top) && 0 <= a < |h| && h[a] >= 0
    ensures Is(h, Jump(code, a, n), h[a])
    decreases n
  {
    if n > 0 && code[a].IJmp? && HasOffset(code, a) {
      assert TypedAt(code, h, a, 0, 1);
      JumpLevel(code, h, top, Target(code, a), n - 1);
    }
  }

  lemma {:induction false} FollowsLevel(code: Code, h: seq<int>, top: int, a: int, b: int, v: int)
    requires Leveled(code, h, top) && Is(h, a, v) && v >= 0 && Follows(code, a, b)
    ensures Is(h, b, v)
  {
    var n: nat :| Jump(code, a, n) == b;
    JumpLevel(code, h, top, a, n);
  }

  /** **Optimised code has the heights of the original.** */
  lemma {:induction false} OptimisedLeveled(c0: Code, c: Code, h: seq<int>, top: int)
    requires Leveled(c0, h, top) && Optimised(c0, c)
    ensures Leveled(c, h, top)
  {
    hide TypedAt, Related;
    forall q | 0 <= q < |c|
      ensures TypedAt(c, h, q, 0, 1)
    {
      assert Related(c0, c, q);
      SlotLeveled(c0, c, h, top, q);
    }
  }

  lemma {:induction false} SlotLeveled(c0: Code, c: Code, h: seq<int>, top: int, q: nat)
    requires Leveled(c0, h, top) && |c| == |c0| && q < |c| && Related(c0, c, q)
    ensures TypedAt(c, h, q, 0, 1)
  {
    hide Leveled, Follows;
    LeveledAt(c0, h, top, q);
    if h[q] >= 0 {
      var v := h[q];
      if c[q].IJmp? && c0[q].IJmp? && HasOffset(c0, q) && HasOffset(c, q) && Follows(c0, Target(c0, q), Target(c, q)) {
        FollowsLevel(c0, h, top, Target(c0, q), Target(c, q), v);
      } else {
        var m :| Follows(c0, q, m) && Executes(c0, c, q, m);
        FollowsLevel(c0, h, top, q, m, v);
        LeveledAt(c0, h, top, m);
        if HasLabel(c[q]) {
          FollowsLevel(c0, h, top, Target(c0, m), Target(c, q), if c[q].ICommit? || c[q].IBackCommit? then v - 1 else v);
        }
      }
    }
  }

  lemma {:induction false} LeveledAt(code: Code, h: seq<int>, top: int, q: nat)
    requires Leveled(code, h, top) && q < |code|
    ensures |h| == |code| && h[0] == 1 && TypedAt(code, h, q, 0, 1) && h[q] <= top
  {}

  // ----- Heights of runs -----

  function Depth(k: Stack): nat {
    match k
    case Bottom => 0
    case Push(_, rest) => 1 + Depth(rest)
  }

  /** Backtracking to an entry finds the stack at the height of its address. */
  predicate Entries(h: seq<int>, k: Stack) {
    k.Push? ==> Entries(h, k.rest) && ((k.top.p == GIVEUP && k.rest.Bottom?) || Is(h, k.top.p, Depth(k.rest)))
  }

  predicate Level(h: seq<int>, st: State) {
    st.Running? ==> Entries(h, st.stack) && ((st.p == GIVEUP && st.stack.Bottom?) || Is(h, st.p, Depth(st.stack)))
  }

  lemma {:induction false} FailLevel(h: seq<int>, k: Stack)
    requires Entries(h, k)
    ensures Level(h, FailTo(k))
  {}

  /** Every instruction keeps the stack at the height of its address. */
  lemma {:induction false} StepLevel(code: Code, h: seq<int>, top: int, s: Subject, st: State)
    requires Leveled(code, h, top) && Level(h, st)
    ensures Level(h, Step(code, s, st))
  {
    hide Leveled, FailTo, Target, HeadIn, SpanEnd;
    if st.Running? && 0 <= st.p < |code| && st.pos <= |s| {
      LeveledAt(code, h, top, st.p);
      FailLevel(h, st.stack);
      if st.stack.Push? {
        FailLevel(h, st.stack.rest);
      }
    }
  }

  lemma {:induction false} StepsLevel(code: Code, h: seq<int>, top: int, s: Subject, st: State, n: nat)
    requires Leveled(code, h, top) && Level(h, st)
    ensures Level(h, Steps(code, s, st, n))
    decreases n
  {
    hide Leveled, Level, Step;
    if n > 0 {
      StepLevel(code, h, top, s, st);
      StepsLevel(code, h, top, s, Step(code, s, st), n - 1);
    }
  }

  /** **The stack is bounded**: a run of a compiled pattern never has more entries than the pattern is nested, and one. */
  lemma {:induction false} BoundedStack(t: Tree, code: Code, s: Subject, i: nat, n: nat)
    requires Optimised(GenPattern(t), code)
    ensures var st := Steps(code, s, Start(i), n); st.Running? ==> Depth(st.stack) <= 1 + Nest(t)
  {
    hide Optimised, GenPattern, Steps, Nest;
    var h := PatternLeveled(t);
    OptimisedLeveled(GenPattern(t), code, h, 1 + Nest(t));
    StartLevel(code, h, 1 + Nest(t), i);
    StepsLevel(code, h, 1 + Nest(t), s, Start(i), n);
  }

  lemma {:induction false} StartLevel(code: Code, h: seq<int>, top: int, i: nat)
    requires Leveled(code, h, top)
    ensures Level(h, Start(i))
  {}
}
