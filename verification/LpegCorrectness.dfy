/** Running the generated code agrees with PEG matching. */
module LpegCorrectness {
  import opened Common
  import opened LpegTree
  import opened LpegAnalysis
  import opened LpegMachine
  import opened LpegCodegen

  /** The fragment `g` sits at address `p` of `code`. */
  predicate At(code: Code, p: int, g: seq<Instr>) {
    0 <= p && p + |g| <= |code| && code[p..p + |g|] == g
  }

  lemma AtSplit(code: Code, p: int, a: seq<Instr>, b: seq<Instr>)
    requires At(code, p, a + b)
    ensures At(code, p, a) && At(code, p + |a|, b)
  {
    assert code[p..p + |a|] == (a + b)[..|a|] == a;
    assert code[p + |a|..p + |a + b|] == (a + b)[|a|..] == b;
  }

  lemma AtIndex(code: Code, p: int, g: seq<Instr>, n: nat)
    requires At(code, p, g)
    requires n < |g|
    ensures code[p + n] == g[n]
  {
    assert code[p + n] == code[p..p + |g|][n];
  }

  /** The subject at `i` passes the test described by `d`. */
  predicate Passes(d: Dominator, s: Subject, i: nat) {
    match d
    case DomChar(c) => i < |s| && s[i] == c
    case DomSet(cs) => HeadIn(s, i, cs)
    case _ => true
  }

  /** Whether code generated under `opt` moves the enclosing backtrack entry forward. */
  predicate UsesOpt(t: Tree, fl: Charset) {
    match t
    case TChoice(p1, p2) => (!TestChoice(p1, p2, fl) && p2.TTrue?) || UsesOpt(p2, fl)
    case TRep(p) => ToCharset(p).None? && (!TestRep(p, fl) || UsesOpt(p, FULLSET))
    case TSeq(_, p2) => UsesOpt(p2, fl)
    case _ => false
  }

  /** No test-coded loop is generated under `opt` with a body that uses it. */
  predicate OptSafe(t: Tree, opt: bool, fl: Charset) {
    match t
    case TChoice(p1, p2) =>
      if TestChoice(p1, p2, fl) then OptSafe(p1, false, fl) && OptSafe(p2, opt, fl)
      else if opt && p2.TTrue? then OptSafe(p1, true, FULLSET)
      else OptSafe(p1, p2.TTrue?, FULLSET) && OptSafe(p2, opt, fl)
    case TRep(p) =>
      (opt && TestRep(p, fl) ==> !UsesOpt(p, FULLSET)) && OptSafe(p, false, FULLSET)
    case TSeq(p1, p2) =>
      OptSafe(p1, false, if NeedFollow(p1) then GetFirst(p2, fl).cs else FULLSET) && OptSafe(p2, opt, fl)
    case TNot(p) => OptSafe(p, false, FULLSET)
    case TAnd(p) => OptSafe(p, false, FULLSET)
    case TBehind(_, p) => OptSafe(p, false, FULLSET)
    case _ => true
  }

  lemma {:induction false} UnusedOpt(t: Tree, d: Dominator, fl: Charset)
    requires !UsesOpt(t, fl)
    ensures Gen(t, true, d, fl) == Gen(t, false, d, fl)
  {
    match t
    case TChoice(p1, p2) => UnusedOpt(p2, NoTest, fl);
    case TRep(p) =>
      if ToCharset(p).None? {
        UnusedOpt(p, TestDominator(GetFirst(p, FULLSET).cs, false), FULLSET);
      }
    case TSeq(p1, p2) => UnusedOpt(p2, if FixedLen(p1) != 0 then NoTest else d, fl);
    case _ =>
  }

  /** What running code between `p` and `pe` may do when the pattern's match is `m`.
      A failing match backtracks. A match up to `j` arrives at `pe` in position `j`, except that
      - when the character at `j` is not in the follow set, the code may backtrack instead, since
        whatever follows would do so anyway;
      - under `opt`, it may have moved the enclosing entry forward, or may already have
        continued from that entry in position `j`. */
  ghost predicate Outcome(code: Code, s: Subject, opt: bool, fl: Charset, p: int, pe: int,
                          i: nat, k: Stack, m: Option<nat>)
    requires k.Push?
  {
    var a := Running(p, i, k);
    match m
    case None => Reaches(code, s, a, FailTo(k))
    case Some(j) =>
      || Reaches(code, s, a, Running(pe, j, k))
      || (j < |s| && s[j] !in fl && Reaches(code, s, a, FailTo(k)))
      || (opt && exists x :: Reaches(code, s, a, Running(pe, j, Push(Entry(k.top.p, x), k.rest))))
      || (opt && Reaches(code, s, a, Running(k.top.p, j, k.rest)))
  }

  /** An outcome is not affected by what leads to its start. */
  lemma OutcomeAfter(code: Code, s: Subject, opt: bool, fl: Charset, p: int, pe: int, i: nat, k: Stack,
                     m: Option<nat>, p0: int, i0: nat)
    requires k.Push?
    requires Reaches(code, s, Running(p0, i0, k), Running(p, i, k))
    requires Outcome(code, s, opt, fl, p, pe, i, k, m)
    ensures Outcome(code, s, opt, fl, p0, pe, i0, k, m)
  {
    var a := Running(p0, i0, k);
    var b := Running(p, i, k);
    if Reaches(code, s, b, FailTo(k)) {
      ReachesTrans(code, s, a, b, FailTo(k));
    }
    if m.Some? {
      var j := m.value;
      if Reaches(code, s, b, Running(pe, j, k)) {
        ReachesTrans(code, s, a, b, Running(pe, j, k));
      }
      if opt && Reaches(code, s, b, Running(k.top.p, j, k.rest)) {
        ReachesTrans(code, s, a, b, Running(k.top.p, j, k.rest));
      }
      forall x | Reaches(code, s, b, Running(pe, j, Push(Entry(k.top.p, x), k.rest)))
        ensures Reaches(code, s, a, Running(pe, j, Push(Entry(k.top.p, x), k.rest)))
      {
        ReachesTrans(code, s, a, b, Running(pe, j, Push(Entry(k.top.p, x), k.rest)));
      }
    }
  }

  lemma OutcomeDirect(code: Code, s: Subject, opt: bool, fl: Charset, p: int, pe: int, i: nat, k: Stack,
                      m: Option<nat>)
    requires k.Push?
    requires Reaches(code, s, Running(p, i, k), if m.Some? then Running(pe, m.value, k) else FailTo(k))
    ensures Outcome(code, s, opt, fl, p, pe, i, k, m)
  {}

  /** With a full follow set and no `opt` the outcome is exact. */
  lemma OutcomeExact(code: Code, s: Subject, p: int, pe: int, i: nat, k: Stack, m: Option<nat>)
    requires k.Push?
    requires Outcome(code, s, false, FULLSET, p, pe, i, k, m)
    ensures Reaches(code, s, Running(p, i, k), if m.Some? then Running(pe, m.value, k) else FailTo(k))
  {}

  lemma HeadFailNotEmpty(t: Tree, follow: Charset)
    requires HeadFail(t)
    ensures !GetFirst(t, follow).e
    decreases t
  {
    match t
    case TSeq(p1, p2) =>
      HeadFailNotEmpty(p1, FULLSET);
      HeadFailNotEmpty(p1, GetFirst(p2, follow).cs);
    case TChoice(p1, p2) =>
      HeadFailNotEmpty(p1, follow);
      HeadFailNotEmpty(p2, follow);
    case TAnd(p) => HeadFailNotEmpty(p, follow);
    case _ =>
  }

  lemma {:induction false} SpanIsRep(t: Tree, cs: Charset, s: Subject, i: nat)
    requires i <= |s|
    requires ToCharset(t) == Some(cs)
    ensures Match(TRep(t), s, i) == Some(SpanEnd(cs, s, i))
    decreases |s| - i
  {
    if HeadIn(s, i, cs) {
      SpanIsRep(t, cs, s, i + 1);
    }
  }

  // ----- Runs of the code shapes. The outcome of a part is a hypothesis; trees do not appear. -----

  lemma At1(code: Code, p: int, x: Instr)
    requires At(code, p, [x])
    ensures 0 <= p < |code| && code[p] == x
  {
    AtIndex(code, p, [x], 0);
  }

  lemma At2(code: Code, p: int, x: Instr, y: Instr)
    requires At(code, p, [x, y])
    ensures 0 <= p && p + 1 < |code| && code[p] == x && code[p + 1] == y
  {
    AtIndex(code, p, [x, y], 0);
    AtIndex(code, p, [x, y], 1);
  }

  lemma JmpRuns(code: Code, s: Subject, p: int, n: int, i: nat, k: Stack)
    requires i <= |s|
    requires At(code, p, [IJmp, Offset(n)])
    ensures Reaches(code, s, Running(p, i, k), Running(p + n, i, k))
  {
    At2(code, p, IJmp, Offset(n));
    ReachesStep(code, s, Running(p, i, k));
  }

  lemma ChoiceRuns(code: Code, s: Subject, p: int, n: int, i: nat, k: Stack)
    requires i <= |s|
    requires At(code, p, [IChoice, Offset(n)])
    ensures Reaches(code, s, Running(p, i, k), Running(p + 2, i, Push(Entry(p + n, i), k)))
  {
    At2(code, p, IChoice, Offset(n));
    ReachesStep(code, s, Running(p, i, k));
  }

  lemma CommitRuns(code: Code, s: Subject, p: int, n: int, i: nat, e: Entry, k: Stack)
    requires i <= |s|
    requires At(code, p, [ICommit, Offset(n)])
    ensures Reaches(code, s, Running(p, i, Push(e, k)), Running(p + n, i, k))
  {
    At2(code, p, ICommit, Offset(n));
    ReachesStep(code, s, Running(p, i, Push(e, k)));
  }

  lemma PartialCommitRuns(code: Code, s: Subject, p: int, n: int, i: nat, e: Entry, k: Stack)
    requires i <= |s|
    requires At(code, p, [IPartialCommit, Offset(n)])
    ensures Reaches(code, s, Running(p, i, Push(e, k)), Running(p + n, i, Push(Entry(e.p, i), k)))
  {
    At2(code, p, IPartialCommit, Offset(n));
    ReachesStep(code, s, Running(p, i, Push(e, k)));
  }

  lemma BehindRuns(code: Code, s: Subject, p: int, n: Byte, i: nat, k: Stack)
    requires i <= |s|
    requires At(code, p, [IBehind(n)])
    ensures Reaches(code, s, Running(p, i, k), if n <= i then Running(p + 1, i - n, k) else FailTo(k))
  {
    At1(code, p, IBehind(n));
    ReachesStep(code, s, Running(p, i, k));
  }

  lemma FailRuns(code: Code, s: Subject, p: int, i: nat, k: Stack)
    requires i <= |s|
    requires At(code, p, [IFail])
    ensures Reaches(code, s, Running(p, i, k), FailTo(k))
  {
    At1(code, p, IFail);
    ReachesStep(code, s, Running(p, i, k));
  }

  lemma SpanRuns(code: Code, s: Subject, p: int, cs: Charset, i: nat, k: Stack)
    requires i <= |s|
    requires At(code, p, [ISpan] + CharsetSlots(cs))
    ensures Reaches(code, s, Running(p, i, k), Running(p + CHARSETINSTSIZE, SpanEnd(cs, s, i), k))
  {
    AtIndex(code, p, [ISpan] + CharsetSlots(cs), 0);
    AtIndex(code, p, [ISpan] + CharsetSlots(cs), 1);
    ReachesStep(code, s, Running(p, i, k));
  }

  /** A test goes on to the next instruction exactly when it is absent or the next character is in its set. */
  lemma TestRuns(code: Code, s: Subject, p: int, cs: Charset, e: bool, offset: int, i: nat, k: Stack)
    requires i <= |s|
    requires At(code, p, GenTest(cs, e, offset))
    ensures Reaches(code, s, Running(p, i, k),
                    if e || HeadIn(s, i, cs) then Running(p + TestSize(cs, e), i, k)
                    else Running(p + offset, i, k))
  {
    var g := GenTest(cs, e, offset);
    if e {
      ReachesSelf(code, s, Running(p, i, k));
    } else {
      AtIndex(code, p, g, 0);
      AtIndex(code, p, g, 1);
      if CharsetType(cs).KGeneric? {
        AtIndex(code, p, g, 2);
      }
      ReachesStep(code, s, Running(p, i, k));
    }
  }

  /** p1; p2 -- when the code of p1 gives up at `j`, p2 can only match nothing there. */
  lemma SeqRuns(code: Code, s: Subject, opt: bool, fl: Charset, fl1: Charset, p: int, q: int, pe: int, i: nat,
                k: Stack, m1: Option<nat>, m2: Option<nat>)
    requires k.Push?
    requires Outcome(code, s, false, fl1, p, q, i, k, m1)
    requires m1.Some? ==> Outcome(code, s, opt, fl, q, pe, m1.value, k, m2)
    requires m1.Some? && m1.value < |s| && s[m1.value] !in fl1 && m2.Some? ==>
               m2.value == m1.value && s[m1.value] !in fl
    ensures Outcome(code, s, opt, fl, p, pe, i, k, if m1.Some? then m2 else None)
  {
    hide Reaches;
    if m1.Some? && Reaches(code, s, Running(p, i, k), Running(q, m1.value, k)) {
      OutcomeAfter(code, s, opt, fl, q, pe, m1.value, k, m2, p, i);
    }
  }

  /** p; failtwice between a choice and its label. */
  lemma NegationRuns(code: Code, s: Subject, g: seq<Instr>, p: int, i: nat, k: Stack, m: Option<nat>)
    requires i <= |s| && (m.Some? ==> m.value <= |s|)
    requires At(code, p, [IChoice, Offset(3 + |g|)] + g + [IFailTwice])
    requires Outcome(code, s, false, FULLSET, p + 2, p + 2 + |g|, i, Push(Entry(p + 3 + |g|, i), k), m)
    ensures Reaches(code, s, Running(p, i, k), if m.Some? then FailTo(k) else Running(p + 3 + |g|, i, k))
  {
    hide Reaches;
    var head := [IChoice, Offset(3 + |g|)];
    AtSplit(code, p, head + g, [IFailTwice]);
    AtSplit(code, p, head, g);
    var k' := Push(Entry(p + 3 + |g|, i), k);
    ChoiceRuns(code, s, p, 3 + |g|, i, k);
    OutcomeExact(code, s, p + 2, p + 2 + |g|, i, k', m);
    if m.Some? {
      var c := Running(p + 2 + |g|, m.value, k');
      At1(code, p + 2 + |g|, IFailTwice);
      ReachesStep(code, s, c);
      ReachesTrans(code, s, Running(p + 2, i, k'), c, FailTo(k));
    }
    ReachesTrans(code, s, Running(p, i, k), Running(p + 2, i, k'),
                 if m.Some? then FailTo(k) else Running(p + 3 + |g|, i, k));
  }

  lemma NotRuns(code: Code, s: Subject, f: First, headfail: bool, g: seq<Instr>, p: int, i: nat, k: Stack,
                m: Option<nat>)
    requires i <= |s| && (m.Some? ==> m.value <= |s|)
    requires At(code, p, NotCode(f, headfail, g))
    requires !f.e && !HeadIn(s, i, f.cs) ==> m.None?
    requires headfail ==> !f.e && (m.Some? <==> HeadIn(s, i, f.cs))
    requires !headfail ==>
      var q := p + TestSize(f.cs, f.e);
      Outcome(code, s, false, FULLSET, q + 2, q + 2 + |g|, i, Push(Entry(q + 3 + |g|, i), k), m)
    ensures Reaches(code, s, Running(p, i, k),
                    if m.Some? then FailTo(k) else Running(p + |NotCode(f, headfail, g)|, i, k))
  {
    hide Reaches, Outcome;
    var body := if headfail then [IFail] else [IChoice, Offset(3 + |g|)] + g + [IFailTwice];
    var size := TestSize(f.cs, f.e);
    var offset := size + |body|;
    var test := GenTest(f.cs, f.e, offset);
    assert |test| == size;
    AtSplit(code, p, test, body);
    TestRuns(code, s, p, f.cs, f.e, offset, i, k);
    if f.e || HeadIn(s, i, f.cs) {
      var b := Running(p + size, i, k);
      if headfail {
        FailRuns(code, s, p + size, i, k);
      } else {
        NegationRuns(code, s, g, p + size, i, k, m);
      }
      ReachesTrans(code, s, Running(p, i, k), b, if m.Some? then FailTo(k) else Running(p + offset, i, k));
    }
  }

  /** p; behind n */
  lemma AndShortRuns(code: Code, s: Subject, n: Byte, g: seq<Instr>, p: int, i: nat, k: Stack, m: Option<nat>)
    requires i <= |s| && k.Push?
    requires m.Some? ==> m.value == i + n <= |s|
    requires At(code, p, AndCode(n, g))
    requires Outcome(code, s, false, FULLSET, p, p + |g|, i, k, m)
    ensures Reaches(code, s, Running(p, i, k),
                    if m.Some? then Running(p + |AndCode(n, g)|, i, k) else FailTo(k))
  {
    hide Reaches, Outcome;
    OutcomeExact(code, s, p, p + |g|, i, k, m);
    if m.Some? && n > 0 {
      AtSplit(code, p, g, [IBehind(n)]);
      BehindRuns(code, s, p + |g|, n, i + n, k);
      ReachesTrans(code, s, Running(p, i, k), Running(p + |g|, i + n, k), Running(p + |g| + 1, i, k));
    }
  }

  /** choice L1; p; backcommit L2; L1: fail; L2: */
  lemma AndLongRuns(code: Code, s: Subject, n: int, g: seq<Instr>, p: int, i: nat, k: Stack, m: Option<nat>)
    requires i <= |s| && (m.Some? ==> m.value <= |s|)
    requires !(0 <= n <= MAXBEHIND)
    requires At(code, p, AndCode(n, g))
    requires Outcome(code, s, false, FULLSET, p + 2, p + 2 + |g|, i, Push(Entry(p + 4 + |g|, i), k), m)
    ensures Reaches(code, s, Running(p, i, k),
                    if m.Some? then Running(p + |AndCode(n, g)|, i, k) else FailTo(k))
  {
    hide Reaches, Outcome;
    var q := p + 2 + |g|;
    AtSplit(code, p, [IChoice, Offset(4 + |g|)] + g, [IBackCommit, Offset(3), IFail]);
    AtSplit(code, p, [IChoice, Offset(4 + |g|)], g);
    hide At;
    var k' := Push(Entry(q + 2, i), k);
    ChoiceRuns(code, s, p, 4 + |g|, i, k);
    OutcomeExact(code, s, p + 2, q, i, k', m);
    var c := if m.Some? then Running(q, m.value, k') else FailTo(k');
    var goal := if m.Some? then Running(q + 3, i, k) else FailTo(k);
    AndTailRuns(code, s, q, c.pos, i, k);
    ReachesTrans(code, s, Running(p + 2, i, k'), c, goal);
    ReachesTrans(code, s, Running(p, i, k), Running(p + 2, i, k'), goal);
  }

  lemma AndTailRuns(code: Code, s: Subject, q: int, j: nat, i: nat, k: Stack)
    requires j <= |s| && i <= |s|
    requires At(code, q, [IBackCommit, Offset(3), IFail])
    ensures Reaches(code, s, Running(q, j, Push(Entry(q + 2, i), k)), Running(q + 3, i, k))
    ensures Reaches(code, s, Running(q + 2, i, k), FailTo(k))
  {
    var tail := [IBackCommit, Offset(3), IFail];
    AtIndex(code, q, tail, 0);
    AtIndex(code, q, tail, 1);
    AtIndex(code, q, tail, 2);
    ReachesStep(code, s, Running(q, j, Push(Entry(q + 2, i), k)));
    ReachesStep(code, s, Running(q + 2, i, k));
  }

  /** choice L1; p1; commit L2; L1: */
  lemma GuardedRuns(code: Code, s: Subject, g: seq<Instr>, opt: bool, over: nat, p: int, i: nat, k: Stack,
                    m: Option<nat>)
    requires i <= |s| && (m.Some? ==> m.value <= |s|)
    requires opt ==> over == 0
    requires At(code, p, GuardedCode(g, over))
    requires Outcome(code, s, opt, FULLSET, p + 2, p + 2 + |g|, i, Push(Entry(p + 4 + |g|, i), k), m)
    ensures Reaches(code, s, Running(p, i, k),
                    if m.Some? then Running(p + 4 + |g| + over, m.value, k) else Running(p + 4 + |g|, i, k))
  {
    hide Reaches;
    var tail := [ICommit, Offset(2 + over)];
    AtSplit(code, p, [IChoice, Offset(4 + |g|)] + g, tail);
    AtSplit(code, p, [IChoice, Offset(4 + |g|)], g);
    var l1 := p + 4 + |g|;
    var k' := Push(Entry(l1, i), k);
    var b := Running(p + 2, i, k');
    ChoiceRuns(code, s, p, 4 + |g|, i, k);
    var goal := if m.Some? then Running(l1 + over, m.value, k) else Running(l1, i, k);
    if m.Some? {
      var j := m.value;
      if opt && Reaches(code, s, b, Running(l1, j, k)) {
      } else {
        var x: nat :| Reaches(code, s, b, Running(p + 2 + |g|, j, Push(Entry(l1, x), k)));
        CommitRuns(code, s, p + 2 + |g|, 2 + over, j, Entry(l1, x), k);
        ReachesTrans(code, s, b, Running(p + 2 + |g|, j, Push(Entry(l1, x), k)), goal);
      }
    }
    ReachesTrans(code, s, Running(p, i, k), b, goal);
  }

  lemma TestChoiceCodeHolds(code: Code, cs: Charset, g1: seq<Instr>, emptyp2: bool, g2: seq<Instr>, p: int)
    requires At(code, p, TestChoiceCode(cs, g1, emptyp2, g2))
    ensures var q1 := p + TestSize(cs, false);
            var jmp := if emptyp2 then [] else [IJmp, Offset(2 + |g2|)];
            var q2 := q1 + |g1| + |jmp|;
            && At(code, p, GenTest(cs, false, q2 - p))
            && At(code, q1, g1)
            && At(code, q1 + |g1|, jmp)
            && At(code, q2, g2)
            && p + |TestChoiceCode(cs, g1, emptyp2, g2)| == q2 + |g2|
  {
    var size := TestSize(cs, false);
    var jmp := if emptyp2 then [] else [IJmp, Offset(2 + |g2|)];
    var test := GenTest(cs, false, size + |g1| + |jmp|);
    assert |test| == size;
    AtSplit(code, p, test + g1 + jmp, g2);
    AtSplit(code, p, test + g1, jmp);
    AtSplit(code, p, test, g1);
  }

  /** test (fail(p1)) -> L1; p1; jmp L2; L1: p2; L2: */
  lemma TestChoiceRuns(code: Code, s: Subject, opt: bool, fl: Charset, cs: Charset, g1: seq<Instr>, emptyp2: bool,
                       g2: seq<Instr>, p: int, i: nat, k: Stack, m1: Option<nat>, m2: Option<nat>)
    requires i <= |s| && k.Push? && (m1.Some? ==> m1.value <= |s|)
    requires emptyp2 ==> g2 == []
    requires At(code, p, TestChoiceCode(cs, g1, emptyp2, g2))
    requires HeadIn(s, i, cs) ==>
      var q1 := p + TestSize(cs, false);
      Outcome(code, s, false, fl, q1, q1 + |g1|, i, k, m1)
    requires HeadIn(s, i, cs) && m1.None? && m2.Some? ==> m2.value == i && s[i] !in fl
    requires !HeadIn(s, i, cs) ==>
      var pe := p + |TestChoiceCode(cs, g1, emptyp2, g2)|;
      m1.None? && Outcome(code, s, opt, fl, pe - |g2|, pe, i, k, m2)
    ensures Outcome(code, s, opt, fl, p, p + |TestChoiceCode(cs, g1, emptyp2, g2)|, i, k,
                    if m1.Some? then m1 else m2)
  {
    hide Reaches, Outcome;
    var q1 := p + TestSize(cs, false);
    var jmp := if emptyp2 then [] else [IJmp, Offset(2 + |g2|)];
    var q2 := q1 + |g1| + |jmp|;
    var pe := q2 + |g2|;
    TestChoiceCodeHolds(code, cs, g1, emptyp2, g2, p);
    hide At;
    TestRuns(code, s, p, cs, false, q2 - p, i, k);
    if HeadIn(s, i, cs) {
      if m1.Some? {
        JumpOver(code, s, opt, fl, q1, q1 + |g1|, jmp, |g2|, i, k, m1.value);
      } else {
        GivesUp(code, s, opt, fl, q1, pe, i, k, m2, q1 + |g1|);
      }
      OutcomeAfter(code, s, opt, fl, q1, pe, i, k, if m1.Some? then m1 else m2, p, i);
    } else {
      OutcomeAfter(code, s, opt, fl, q2, pe, i, k, m2, p, i);
    }
  }

  /** test (fail(p1)) -> L1; choice L1; p1; commit L2; L1: p2; L2: */
  lemma ChoiceRunsAll(code: Code, s: Subject, opt: bool, fl: Charset, f: First, opt1: bool, g1: seq<Instr>,
                      g2: seq<Instr>, p: int, i: nat, k: Stack, m1: Option<nat>, m2: Option<nat>)
    requires i <= |s| && k.Push? && (m1.Some? ==> m1.value <= |s|)
    requires opt1 ==> g2 == []
    requires At(code, p, ChoiceCode(f, g1, g2))
    requires f.e || HeadIn(s, i, f.cs) ==>
      var q := p + TestSize(f.cs, f.e) + 2;
      Outcome(code, s, opt1, FULLSET, q, q + |g1|, i, Push(Entry(q + 2 + |g1|, i), k), m1)
    requires !f.e && !HeadIn(s, i, f.cs) ==> m1.None?
    requires m1.None? ==>
      var pe := p + |ChoiceCode(f, g1, g2)|;
      Outcome(code, s, opt, fl, pe - |g2|, pe, i, k, m2)
    ensures Outcome(code, s, opt, fl, p, p + |ChoiceCode(f, g1, g2)|, i, k, if m1.Some? then m1 else m2)
  {
    hide Reaches, Outcome;
    ChoiceCodeHolds(code, f, g1, g2, p);
    hide At, ChoiceCode, GuardedCode;
    var q1 := p + TestSize(f.cs, f.e);
    var q2 := q1 + 4 + |g1|;
    var pe := q2 + |g2|;
    TestRuns(code, s, p, f.cs, f.e, q2 - p, i, k);
    if f.e || HeadIn(s, i, f.cs) {
      GuardedRuns(code, s, g1, opt1, |g2|, q1, i, k, m1);
      if m1.Some? {
        OutcomeDirect(code, s, opt, fl, q1, pe, i, k, m1);
      } else {
        OutcomeAfter(code, s, opt, fl, q2, pe, i, k, m2, q1, i);
      }
      OutcomeAfter(code, s, opt, fl, q1, pe, i, k, if m1.Some? then m1 else m2, p, i);
    } else {
      OutcomeAfter(code, s, opt, fl, q2, pe, i, k, m2, p, i);
    }
  }

  /** One turn of a test-coded loop. */
  lemma TestRepTurn(code: Code, s: Subject, cs: Charset, g: seq<Instr>, p: int, i: nat, k: Stack, m: Option<nat>)
    requires i <= |s| && (m.Some? ==> m.value <= |s|) && k.Push?
    requires At(code, p, TestRepCode(cs, g))
    requires HeadIn(s, i, cs) ==>
      var q := p + TestSize(cs, false);
      Outcome(code, s, false, FULLSET, q, q + |g|, i, k, m)
    ensures Reaches(code, s, Running(p, i, k),
                    if !HeadIn(s, i, cs) then Running(p + |TestRepCode(cs, g)|, i, k)
                    else if m.Some? then Running(p, m.value, k)
                    else FailTo(k))
  {
    hide Reaches, Outcome;
    var size := TestSize(cs, false);
    var n := size + |g|;
    var test := GenTest(cs, false, n + 2);
    assert |test| == size;
    var jmp := [IJmp, Offset(-n)];
    AtSplit(code, p, test + g, jmp);
    AtSplit(code, p, test, g);
    TestRuns(code, s, p, cs, false, n + 2, i, k);
    if HeadIn(s, i, cs) {
      var b := Running(p + size, i, k);
      OutcomeExact(code, s, p + size, p + n, i, k, m);
      if m.Some? {
        JmpRuns(code, s, p + n, -n, m.value, k);
        ReachesTrans(code, s, b, Running(p + n, m.value, k), Running(p, m.value, k));
      }
      ReachesTrans(code, s, Running(p, i, k), b, if m.Some? then Running(p, m.value, k) else FailTo(k));
    }
  }

  /** One turn of L1: p; partialcommit L1. */
  lemma LoopTurn(code: Code, s: Subject, g: seq<Instr>, p: int, i: nat, l: int, k: Stack, m: Option<nat>)
    requires i <= |s| && (m.Some? ==> m.value <= |s|)
    requires At(code, p, LoopCode(g))
    requires Outcome(code, s, false, FULLSET, p, p + |g|, i, Push(Entry(l, i), k), m)
    ensures Reaches(code, s, Running(p, i, Push(Entry(l, i), k)),
                    if m.Some? then Running(p, m.value, Push(Entry(l, m.value), k)) else Running(l, i, k))
  {
    hide Reaches, Outcome;
    AtSplit(code, p, g, [IPartialCommit, Offset(-|g|)]);
    var k' := Push(Entry(l, i), k);
    OutcomeExact(code, s, p, p + |g|, i, k', m);
    if m.Some? {
      PartialCommitRuns(code, s, p + |g|, -|g|, m.value, Entry(l, i), k);
      ReachesTrans(code, s, Running(p, i, k'), Running(p + |g|, m.value, k'),
                   Running(p, m.value, Push(Entry(l, m.value), k)));
    }
  }

  // ----- Code of a tree, by induction on the tree -----

  /** Code behind a test runs only on subjects that pass it. */
  lemma DominatorPasses(cs: Charset, s: Subject, i: nat)
    ensures HeadIn(s, i, cs) ==> Passes(TestDominator(cs, false), s, i)
    ensures Passes(TestDominator(cs, true), s, i)
  {}

  /** The code of a single-character pattern. */
  lemma CharCorrect(code: Code, s: Subject, t: Tree, opt: bool, d: Dominator, fl: Charset, p: int, i: nat, k: Stack)
    requires t.TChar? || t.TSet? || t.TAny?
    requires i <= |s| && k.Push?
    requires Passes(d, s, i)
    requires At(code, p, Gen(t, opt, d, fl))
    ensures Outcome(code, s, opt, fl, p, p + |Gen(t, opt, d, fl)|, i, k, Match(t, s, i))
  {
    var g := Gen(t, opt, d, fl);
    AtIndex(code, p, g, 0);
    if |g| > 1 {
      AtIndex(code, p, g, 1);
    }
    ReachesStep(code, s, Running(p, i, k));
    OutcomeDirect(code, s, opt, fl, p, p + |g|, i, k, Match(t, s, i));
  }

  lemma {:induction false} GenCorrect(code: Code, s: Subject, t: Tree, opt: bool, d: Dominator, fl: Charset,
                                      p: int, i: nat, k: Stack)
    requires WellFormed(t) && OptSafe(t, opt, fl)
    requires opt ==> fl == FULLSET
    requires i <= |s| && k.Push?
    requires Passes(d, s, i)
    requires At(code, p, Gen(t, opt, d, fl))
    ensures Outcome(code, s, opt, fl, p, p + |Gen(t, opt, d, fl)|, i, k, Match(t, s, i))
    decreases t, 1
  {
    hide Reaches, Outcome, At;
    match t
    case TChar(_) | TSet(_) | TAny => CharCorrect(code, s, t, opt, d, fl, p, i, k);
    case TTrue =>
      ReachesSelf(code, s, Running(p, i, k));
      OutcomeDirect(code, s, opt, fl, p, p, i, k, Some(i));
    case TFalse =>
      FailRuns(code, s, p, i, k);
      OutcomeDirect(code, s, opt, fl, p, p + 1, i, k, None);
    case TChoice(p1, p2) =>
      if TestChoice(p1, p2, fl) {
        TestChoiceCorrect(code, s, t, opt, fl, p, i, k);
      } else if opt && p2.TTrue? {
        OptionalCorrect(code, s, t, p, i, k);
      } else {
        ChoiceCorrect(code, s, t, opt, fl, p, i, k);
      }
    case TRep(q) =>
      if ToCharset(q).Some? {
        var cs := ToCharset(q).value;
        SpanIsRep(q, cs, s, i);
        SpanRuns(code, s, p, cs, i, k);
        OutcomeDirect(code, s, opt, fl, p, p + CHARSETINSTSIZE, i, k, Match(t, s, i));
      } else if TestRep(q, fl) {
        TestRepCorrect(code, s, t, opt, fl, p, i, k);
      } else {
        RepCorrect(code, s, t, opt, fl, p, i, k);
      }
    case TBehind(n, q) => BehindCorrect(code, s, t, opt, d, fl, p, i, k);
    case TNot(q) => NotCorrect(code, s, t, opt, d, fl, p, i, k);
    case TAnd(q) => AndCorrect(code, s, t, opt, d, fl, p, i, k);
    case TSeq(p1, p2) => SeqCorrect(code, s, t, opt, d, fl, p, i, k);
  }

  lemma {:induction false} SeqCorrect(code: Code, s: Subject, t: Tree, opt: bool, d: Dominator, fl: Charset,
                                      p: int, i: nat, k: Stack)
    requires t.TSeq? && WellFormed(t) && OptSafe(t, opt, fl)
    requires opt ==> fl == FULLSET
    requires i <= |s| && k.Push?
    requires Passes(d, s, i)
    requires At(code, p, Gen(t, opt, d, fl))
    ensures Outcome(code, s, opt, fl, p, p + |Gen(t, opt, d, fl)|, i, k, Match(t, s, i))
    decreases t, 0
  {
    hide GetFirst, CheckAux, HeadFail, FixedLenX, NeedFollow, GenTest, TestDominator, CharsetType;
    hide Reaches, Outcome;
    var (p1, p2) := (t.sib1, t.sib2);
    var fl1 := if NeedFollow(p1) then GetFirst(p2, fl).cs else FULLSET;
    var d2 := if FixedLen(p1) != 0 then NoTest else d;
    var g1 := Gen(p1, false, d, fl1);
    var g2 := Gen(p2, opt, d2, fl);
    AtSplit(code, p, g1, g2);
    GenCorrect(code, s, p1, false, d, fl1, p, i, k);
    var m1 := Match(p1, s, i);
    if m1.Some? {
      if FixedLen(p1) == 0 {
        FixedLenSound(p1, s, i);
      }
      GenCorrect(code, s, p2, opt, d2, fl, p + |g1|, m1.value, k);
      SeqGivesUp(s, p2, fl, m1.value);
      SeqRuns(code, s, opt, fl, fl1, p, p + |g1|, p + |g1| + |g2|, i, k, m1, Match(p2, s, m1.value));
    } else {
      SeqRuns(code, s, opt, fl, fl1, p, p + |g1|, p + |g1| + |g2|, i, k, m1, None);
    }
  }

  /** What cannot start at a character, before that character is followed by nothing, matches nothing there. */
  lemma SeqGivesUp(s: Subject, p2: Tree, fl: Charset, j: nat)
    requires j <= |s|
    ensures j < |s| && s[j] !in GetFirst(p2, fl).cs && Match(p2, s, j).Some? ==>
              Match(p2, s, j).value == j && s[j] !in fl
  {
    if j < |s| && Match(p2, s, j).Some? && (s[j] in fl || j < Match(p2, s, j).value) {
      FirstSound(p2, fl, s, j);
    }
  }

  lemma {:induction false} BehindCorrect(code: Code, s: Subject, t: Tree, opt: bool, d: Dominator, fl: Charset,
                                         p: int, i: nat, k: Stack)
    requires t.TBehind? && WellFormed(t) && OptSafe(t, opt, fl)
    requires i <= |s| && k.Push?
    requires At(code, p, Gen(t, opt, d, fl))
    ensures Outcome(code, s, opt, fl, p, p + |Gen(t, opt, d, fl)|, i, k, Match(t, s, i))
    decreases t, 0
  {
    hide GetFirst, CheckAux, HeadFail, FixedLenX, NeedFollow, GenTest, TestDominator, CharsetType;
    hide Reaches, Outcome;
    var (n, q) := (t.n, t.body);
    var g := Gen(q, false, NoTest, FULLSET);
    AtSplit(code, p, [IBehind(n)], g);
    BehindRuns(code, s, p, n, i, k);
    if n <= i {
      var m := Match(q, s, i - n);
      GenCorrect(code, s, q, false, NoTest, FULLSET, p + 1, i - n, k);
      FixedLenSound(q, s, i - n);
      OutcomeExact(code, s, p + 1, p + 1 + |g|, i - n, k, m);
      ReachesTrans(code, s, Running(p, i, k), Running(p + 1, i - n, k),
                   if m.Some? then Running(p + 1 + |g|, i, k) else FailTo(k));
    }
    OutcomeDirect(code, s, opt, fl, p, p + 1 + |g|, i, k, Match(t, s, i));
  }

  lemma {:induction false} NotCorrect(code: Code, s: Subject, t: Tree, opt: bool, d: Dominator, fl: Charset,
                                      p: int, i: nat, k: Stack)
    requires t.TNot? && WellFormed(t) && OptSafe(t, opt, fl)
    requires i <= |s| && k.Push?
    requires At(code, p, Gen(t, opt, d, fl))
    ensures Outcome(code, s, opt, fl, p, p + |Gen(t, opt, d, fl)|, i, k, Match(t, s, i))
    decreases t, 0
  {
    hide GetFirst, CheckAux, HeadFail, FixedLenX, NeedFollow, GenTest, TestDominator, CharsetType;
    hide Reaches, Outcome;
    var q := t.body;
    var f := GetFirst(q, FULLSET);
    var m := Match(q, s, i);
    if !f.e && !HeadIn(s, i, f.cs) {
      TestExcludesMatch(q, s, i);
    }
    if HeadFail(q) {
      HeadFailNotEmpty(q, FULLSET);
      HeadFailExact(q, s, i);
      NotRuns(code, s, f, true, [], p, i, k, m);
    } else {
      var g := Gen(q, false, NoTest, FULLSET);
      var q1 := p + TestSize(f.cs, f.e);
      NotCodeHolds(code, f, g, p);
      GenCorrect(code, s, q, false, NoTest, FULLSET, q1 + 2, i, Push(Entry(q1 + 3 + |g|, i), k));
      NotRuns(code, s, f, false, g, p, i, k, m);
    }
    OutcomeDirect(code, s, opt, fl, p, p + |Gen(t, opt, d, fl)|, i, k, Match(t, s, i));
  }

  lemma NotCodeHolds(code: Code, f: First, g: seq<Instr>, p: int)
    requires At(code, p, NotCode(f, false, g))
    ensures At(code, p + TestSize(f.cs, f.e) + 2, g)
  {
    var head := [IChoice, Offset(3 + |g|)];
    var body := head + g + [IFailTwice];
    AtSplit(code, p, GenTest(f.cs, f.e, TestSize(f.cs, f.e) + |body|), body);
    AtSplit(code, p + TestSize(f.cs, f.e), head + g, [IFailTwice]);
    AtSplit(code, p + TestSize(f.cs, f.e), head, g);
  }

  lemma {:induction false} AndCorrect(code: Code, s: Subject, t: Tree, opt: bool, d: Dominator, fl: Charset,
                                      p: int, i: nat, k: Stack)
    requires t.TAnd? && WellFormed(t) && OptSafe(t, opt, fl)
    requires i <= |s| && k.Push?
    requires Passes(d, s, i)
    requires At(code, p, Gen(t, opt, d, fl))
    ensures Outcome(code, s, opt, fl, p, p + |Gen(t, opt, d, fl)|, i, k, Match(t, s, i))
    decreases t, 0
  {
    hide GetFirst, CheckAux, HeadFail, FixedLenX, NeedFollow, GenTest, TestDominator, CharsetType;
    hide Reaches, Outcome;
    var q := t.body;
    var n := FixedLen(q);
    var g := Gen(q, false, d, FULLSET);
    var m := Match(q, s, i);
    if n >= 0 {
      FixedLenSound(q, s, i);
    }
    if 0 <= n <= MAXBEHIND {
      AtSplit(code, p, g, if n > 0 then [IBehind(n)] else []);
      GenCorrect(code, s, q, false, d, FULLSET, p, i, k);
      AndShortRuns(code, s, n, g, p, i, k, m);
    } else {
      AtSplit(code, p, [IChoice, Offset(4 + |g|)] + g, [IBackCommit, Offset(3), IFail]);
      AtSplit(code, p, [IChoice, Offset(4 + |g|)], g);
      GenCorrect(code, s, q, false, d, FULLSET, p + 2, i, Push(Entry(p + 4 + |g|, i), k));
      AndLongRuns(code, s, n, g, p, i, k, m);
    }
    OutcomeDirect(code, s, opt, fl, p, p + |Gen(t, opt, d, fl)|, i, k, Match(t, s, i));
  }

  lemma {:induction false} TestChoiceCorrect(code: Code, s: Subject, t: Tree, opt: bool, fl: Charset,
                                             p: int, i: nat, k: Stack)
    requires t.TChoice? && WellFormed(t) && OptSafe(t, opt, fl)
    requires TestChoice(t.sib1, t.sib2, fl)
    requires opt ==> fl == FULLSET
    requires i <= |s| && k.Push?
    requires At(code, p, Gen(t, opt, NoTest, fl))
    ensures Outcome(code, s, opt, fl, p, p + |Gen(t, opt, NoTest, fl)|, i, k, Match(t, s, i))
    decreases t, 0
  {
    hide GetFirst, CheckAux, HeadFail, FixedLenX, NeedFollow, GenTest, TestDominator, CharsetType;
    hide Reaches, Outcome, At;
    var (p1, p2) := (t.sib1, t.sib2);
    var f := GetFirst(p1, FULLSET);
    var d := TestDominator(f.cs, false);
    var g1 := Gen(p1, false, d, fl);
    var g2 := Gen(p2, opt, NoTest, fl);
    var pe := p + |TestChoiceCode(f.cs, g1, p2.TTrue?, g2)|;
    TestChoiceCodeHolds(code, f.cs, g1, p2.TTrue?, g2, p);
    assert Gen(t, opt, NoTest, fl) == TestChoiceCode(f.cs, g1, p2.TTrue?, g2);
    assert Match(t, s, i) == if Match(p1, s, i).Some? then Match(p1, s, i) else Match(p2, s, i);
    assert p2.TTrue? ==> g2 == [];
    assert WellFormed(p1) && WellFormed(p2) && OptSafe(p1, false, fl) && OptSafe(p2, opt, fl);
    hide TestChoiceCode, Gen, Match, WellFormed, OptSafe, TestSize, TestDominator;
    if HeadIn(s, i, f.cs) {
      DominatorPasses(f.cs, s, i);
      GenCorrect(code, s, p1, false, d, fl, p + TestSize(f.cs, false), i, k);
      if Match(p1, s, i).None? {
        TestChoiceGivesUp(s, p1, p2, fl, i);
      }
    } else {
      TestExcludesMatch(p1, s, i);
      GenCorrect(code, s, p2, opt, NoTest, fl, pe - |g2|, i, k);
    }
    TestChoiceRuns(code, s, opt, fl, f.cs, g1, p2.TTrue?, g2, p, i, k, Match(p1, s, i), Match(p2, s, i));
  }

  /** When p1 fails after its test passed, p2 can only match nothing, before a character outside `fl`. */
  lemma TestChoiceGivesUp(s: Subject, p1: Tree, p2: Tree, fl: Charset, i: nat)
    requires TestChoice(p1, p2, fl)
    requires i <= |s| && HeadIn(s, i, GetFirst(p1, FULLSET).cs)
    requires Match(p1, s, i).None?
    ensures Match(p2, s, i).Some? ==> Match(p2, s, i).value == i && s[i] !in fl
  {
    if HeadFail(p1) {
      HeadFailExact(p1, s, i);
    } else if Match(p2, s, i).Some? && (s[i] in fl || i < Match(p2, s, i).value) {
      FirstSound(p2, fl, s, i);
    }
  }

  lemma GivesUp(code: Code, s: Subject, opt: bool, fl: Charset, p: int, pe: int, i: nat, k: Stack, m: Option<nat>,
                q: int)
    requires k.Push? && i < |s|
    requires m.Some? ==> m.value == i && s[i] !in fl
    requires Outcome(code, s, false, fl, p, q, i, k, None)
    ensures Outcome(code, s, opt, fl, p, pe, i, k, m)
  {
    hide Reaches;
  }

  lemma JumpOver(code: Code, s: Subject, opt: bool, fl: Charset, p: int, q: int, jmp: seq<Instr>, over: nat,
                 i: nat, k: Stack, j: nat)
    requires k.Push? && j <= |s|
    requires Outcome(code, s, false, fl, p, q, i, k, Some(j))
    requires (jmp == [] && over == 0) || (jmp == [IJmp, Offset(2 + over)] && At(code, q, jmp))
    ensures Outcome(code, s, opt, fl, p, q + |jmp| + over, i, k, Some(j))
  {
    hide Reaches;
    if Reaches(code, s, Running(p, i, k), Running(q, j, k)) {
      if jmp != [] {
        JmpRuns(code, s, q, 2 + over, j, k);
        ReachesTrans(code, s, Running(p, i, k), Running(q, j, k), Running(q + 2 + over, j, k));
      }
    }
  }

  /** `p1?` under `opt` reuses the enclosing entry. */
  lemma {:induction false} OptionalCorrect(code: Code, s: Subject, t: Tree, p: int, i: nat, k: Stack)
    requires t.TChoice? && WellFormed(t) && OptSafe(t, true, FULLSET)
    requires t.sib2.TTrue? && !TestChoice(t.sib1, t.sib2, FULLSET)
    requires i <= |s| && k.Push?
    requires At(code, p, Gen(t, true, NoTest, FULLSET))
    ensures Outcome(code, s, true, FULLSET, p, p + |Gen(t, true, NoTest, FULLSET)|, i, k, Match(t, s, i))
    decreases t, 0
  {
    hide GetFirst, CheckAux, HeadFail, FixedLenX, NeedFollow, GenTest, TestDominator, CharsetType;
    hide Reaches;
    var p1 := t.sib1;
    var g := Gen(p1, true, NoTest, FULLSET);
    AtSplit(code, p, [IPartialCommit, Offset(2)], g);
    var k' := Push(Entry(k.top.p, i), k.rest);
    var a := Running(p, i, k);
    var b := Running(p + 2, i, k');
    var pe := p + 2 + |g|;
    PartialCommitRuns(code, s, p, 2, i, k.top, k.rest);
    GenCorrect(code, s, p1, true, NoTest, FULLSET, p + 2, i, k');
    var m1 := Match(p1, s, i);
    var j := if m1.Some? then m1.value else i;
    if Reaches(code, s, b, Running(k.top.p, j, k.rest)) {
      ReachesTrans(code, s, a, b, Running(k.top.p, j, k.rest));
    } else {
      var x: nat :| Reaches(code, s, b, Running(pe, j, Push(Entry(k.top.p, x), k.rest)));
      ReachesTrans(code, s, a, b, Running(pe, j, Push(Entry(k.top.p, x), k.rest)));
    }
  }

  lemma {:induction false} ChoiceCorrect(code: Code, s: Subject, t: Tree, opt: bool, fl: Charset,
                                         p: int, i: nat, k: Stack)
    requires t.TChoice? && WellFormed(t) && OptSafe(t, opt, fl)
    requires !TestChoice(t.sib1, t.sib2, fl) && !(opt && t.sib2.TTrue?)
    requires opt ==> fl == FULLSET
    requires i <= |s| && k.Push?
    requires At(code, p, Gen(t, opt, NoTest, fl))
    ensures Outcome(code, s, opt, fl, p, p + |Gen(t, opt, NoTest, fl)|, i, k, Match(t, s, i))
    decreases t, 0
  {
    hide GetFirst, CheckAux, HeadFail, FixedLenX, NeedFollow, GenTest, TestDominator, CharsetType;
    hide Reaches, Outcome, At;
    var (p1, p2) := (t.sib1, t.sib2);
    var f := GetFirst(p1, FULLSET);
    var d := TestDominator(f.cs, f.e);
    var g1 := Gen(p1, p2.TTrue?, d, FULLSET);
    var g2 := Gen(p2, opt, NoTest, fl);
    var q := p + TestSize(f.cs, f.e) + 2;
    ChoiceCodeHolds(code, f, g1, g2, p);
    hide ChoiceCode, GuardedCode, TestSize;
    if f.e || HeadIn(s, i, f.cs) {
      DominatorPasses(f.cs, s, i);
      GenCorrect(code, s, p1, p2.TTrue?, d, FULLSET, q, i, Push(Entry(q + 2 + |g1|, i), k));
    } else {
      TestExcludesMatch(p1, s, i);
    }
    GenCorrect(code, s, p2, opt, NoTest, fl, q + 2 + |g1|, i, k);
    ChoiceRunsAll(code, s, opt, fl, f, p2.TTrue?, g1, g2, p, i, k, Match(p1, s, i), Match(p2, s, i));
  }

  lemma ChoiceCodeHolds(code: Code, f: First, g1: seq<Instr>, g2: seq<Instr>, p: int)
    requires At(code, p, ChoiceCode(f, g1, g2))
    ensures var size := TestSize(f.cs, f.e);
            && At(code, p, GenTest(f.cs, f.e, size + 4 + |g1|))
            && At(code, p + size, GuardedCode(g1, |g2|))
            && At(code, p + size + 2, g1)
            && At(code, p + size + 4 + |g1|, g2)
            && |ChoiceCode(f, g1, g2)| == size + 4 + |g1| + |g2|
  {
    hide At, CharsetType;
    var size := TestSize(f.cs, f.e);
    var test := GenTest(f.cs, f.e, size + 4 + |g1|);
    assert |test| == size;
    AtSplit(code, p, test, GuardedCode(g1, |g2|) + g2);
    AtSplit(code, p + size, GuardedCode(g1, |g2|), g2);
    AtSplit(code, p + size, [IChoice, Offset(4 + |g1|)] + g1, [ICommit, Offset(2 + |g2|)]);
    AtSplit(code, p + size, [IChoice, Offset(4 + |g1|)], g1);
  }

  lemma {:induction false} TestRepCorrect(code: Code, s: Subject, t: Tree, opt: bool, fl: Charset,
                                          p: int, i: nat, k: Stack)
    requires t.TRep? && WellFormed(t) && OptSafe(t, opt, fl)
    requires ToCharset(t.body).None? && TestRep(t.body, fl)
    requires i <= |s| && k.Push?
    requires At(code, p, Gen(t, opt, NoTest, fl))
    ensures Outcome(code, s, opt, fl, p, p + |Gen(t, opt, NoTest, fl)|, i, k, Match(t, s, i))
    decreases t, 0, |s| - i
  {
    hide GetFirst, CheckAux, HeadFail, FixedLenX, NeedFollow, GenTest, TestDominator, CharsetType;
    hide Reaches, Outcome, At;
    var q := t.body;
    var f := GetFirst(q, FULLSET);
    var d := TestDominator(f.cs, false);
    if opt {
      UnusedOpt(q, d, FULLSET);
    }
    var g := Gen(q, false, d, FULLSET);
    var pe := p + |TestRepCode(f.cs, g)|;
    var m := Match(q, s, i);
    TestRepCodeHolds(code, f.cs, g, p);
    hide TestRepCode;
    if HeadIn(s, i, f.cs) {
      DominatorPasses(f.cs, s, i);
      GenCorrect(code, s, q, false, d, FULLSET, p + TestSize(f.cs, false), i, k);
    } else {
      TestExcludesMatch(q, s, i);
    }
    TestRepTurn(code, s, f.cs, g, p, i, k, m);
    if m.Some? {
      var j := m.value;
      if j == i {
        NullableSound(q, s, i);
      }
      TestRepCorrect(code, s, t, opt, fl, p, j, k);
      OutcomeAfter(code, s, opt, fl, p, pe, j, k, Match(t, s, j), p, i);
    } else if HeadIn(s, i, f.cs) {
      // only possible when the first set is disjoint from 'fl': the code fails, as what follows would
      if HeadFail(q) {
        HeadFailExact(q, s, i);
      }
      OutcomeDirect(code, s, false, fl, p, pe, i, k, None);
      GivesUp(code, s, opt, fl, p, pe, i, k, Some(i), pe);
    } else {
      OutcomeDirect(code, s, opt, fl, p, pe, i, k, Some(i));
    }
  }

  lemma TestRepCodeHolds(code: Code, cs: Charset, g: seq<Instr>, p: int)
    requires At(code, p, TestRepCode(cs, g))
    ensures At(code, p, GenTest(cs, false, TestSize(cs, false) + |g| + 2))
    ensures At(code, p + TestSize(cs, false), g)
  {
    var n := TestSize(cs, false) + |g|;
    AtSplit(code, p, GenTest(cs, false, n + 2) + g, [IJmp, Offset(-n)]);
    AtSplit(code, p, GenTest(cs, false, n + 2), g);
  }

  lemma {:induction false} RepCorrect(code: Code, s: Subject, t: Tree, opt: bool, fl: Charset,
                                      p: int, i: nat, k: Stack)
    requires t.TRep? && WellFormed(t) && OptSafe(t, opt, fl)
    requires ToCharset(t.body).None? && !TestRep(t.body, fl)
    requires i <= |s| && k.Push?
    requires At(code, p, Gen(t, opt, NoTest, fl))
    ensures Outcome(code, s, opt, fl, p, p + |Gen(t, opt, NoTest, fl)|, i, k, Match(t, s, i))
    decreases t, 0
  {
    hide GetFirst, CheckAux, HeadFail, FixedLenX, NeedFollow, GenTest, TestDominator, CharsetType;
    hide Reaches;
    var q := t.body;
    var f := GetFirst(q, FULLSET);
    var g := Gen(q, false, NoTest, FULLSET);
    var offset := TestSize(f.cs, f.e) + 4 + |g|;
    RepCodeHolds(code, f, opt, g, p);
    var q1 := p + TestSize(f.cs, f.e);
    var pe := p + offset;
    var a := Running(p, i, k);
    var b := Running(q1, i, k);
    TestRuns(code, s, p, f.cs, f.e, offset, i, k);
    if !f.e && !HeadIn(s, i, f.cs) {
      TestExcludesMatch(q, s, i);
    } else {
      RepMatches(q, s, i);
      var j := Match(t, s, i).value;
      if opt {
        PartialCommitRuns(code, s, q1, 2, i, k.top, k.rest);
        LoopRuns(code, s, q, q1 + 2, i, k.top.p, k.rest);
        ReachesTrans(code, s, b, Running(q1 + 2, i, Push(Entry(k.top.p, i), k.rest)), Running(k.top.p, j, k.rest));
        ReachesTrans(code, s, a, b, Running(k.top.p, j, k.rest));
      } else {
        ChoiceRuns(code, s, q1, 4 + |g|, i, k);
        LoopRuns(code, s, q, q1 + 2, i, pe, k);
        ReachesTrans(code, s, b, Running(q1 + 2, i, Push(Entry(pe, i), k)), Running(pe, j, k));
        ReachesTrans(code, s, a, b, Running(pe, j, k));
      }
    }
  }

  lemma RepCodeHolds(code: Code, f: First, opt: bool, g: seq<Instr>, p: int)
    requires At(code, p, RepCode(f, opt, g))
    ensures var q := p + TestSize(f.cs, f.e);
            && At(code, p, GenTest(f.cs, f.e, TestSize(f.cs, f.e) + 4 + |g|))
            && At(code, q, RepHead(opt, |g|))
            && At(code, q + 2, LoopCode(g))
            && p + |RepCode(f, opt, g)| == q + 4 + |g|
  {
    var test := GenTest(f.cs, f.e, TestSize(f.cs, f.e) + 4 + |g|);
    AtSplit(code, p, test, RepHead(opt, |g|) + LoopCode(g));
    AtSplit(code, p + |test|, RepHead(opt, |g|), LoopCode(g));
  }

  /** L1: p; partialcommit L1 -- runs until p fails, then continues at the entry's address. */
  lemma {:induction false} LoopRuns(code: Code, s: Subject, q: Tree, p: int, i: nat, l: int, k: Stack)
    requires WellFormed(q) && OptSafe(q, false, FULLSET) && !Nullable(q)
    requires i <= |s|
    requires At(code, p, LoopCode(Gen(q, false, NoTest, FULLSET)))
    ensures Match(TRep(q), s, i).Some?
    ensures Reaches(code, s, Running(p, i, Push(Entry(l, i), k)), Running(l, Match(TRep(q), s, i).value, k))
    decreases q, 2, |s| - i
  {
    hide GetFirst, CheckAux, HeadFail, FixedLenX, NeedFollow, GenTest, TestDominator, CharsetType;
    hide Reaches, Outcome;
    var g := Gen(q, false, NoTest, FULLSET);
    RepMatches(q, s, i);
    AtSplit(code, p, g, [IPartialCommit, Offset(-|g|)]);
    var k' := Push(Entry(l, i), k);
    var m := Match(q, s, i);
    GenCorrect(code, s, q, false, NoTest, FULLSET, p, i, k');
    LoopTurn(code, s, g, p, i, l, k, m);
    if m.Some? {
      var j := m.value;
      if j == i {
        NullableSound(q, s, i);
      }
      LoopRuns(code, s, q, p, j, l, k);
      ReachesTrans(code, s, Running(p, i, k'), Running(p, j, Push(Entry(l, j), k)),
                   Running(l, Match(TRep(q), s, j).value, k));
    }
  }

  /** What matching pattern `t` on `s` from `i` must answer. */
  function Answer(t: Tree, s: Subject, i: nat): State
    requires i <= |s|
  {
    match Match(t, s, i)
    case Some(j) => Matched(j)
    case None => Failed
  }

  /** Main theorem: generated code, run from the start state, halts with the PEG answer. */
  lemma GeneratedCodeMatches(t: Tree, s: Subject, i: nat)
    requires WellFormed(t) && OptSafe(t, false, FULLSET)
    requires i <= |s|
    ensures Reaches(GenPattern(t), s, Start(i), Answer(t, s, i))
  {
    var code := GenPattern(t);
    var g := Gen(t, false, NoTest, FULLSET);
    var k := Push(Entry(GIVEUP, i), Bottom);
    assert At(code, 0, g);
    GenCorrect(code, s, t, false, NoTest, FULLSET, 0, i, k);
    OutcomeExact(code, s, 0, |g|, i, k, Match(t, s, i));
    var b := if Match(t, s, i).Some? then Running(|g|, Match(t, s, i).value, k) else FailTo(k);
    ReachesStep(code, s, b);
    ReachesTrans(code, s, Start(i), b, Answer(t, s, i));
  }
}
