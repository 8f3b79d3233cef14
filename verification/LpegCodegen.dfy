/** The code that the LPeg compiler generates (deps/lpeg/lpcode.c), as a function of the
    tree, the `opt` flag, the dominating test and the follow set. Offsets are relative, so
    the code of a pattern does not depend on where it is placed. */
module LpegCodegen {
  import opened Common
  import opened LpegTree
  import opened LpegAnalysis
  import opened LpegMachine

  datatype SetKind = KEmpty | KSingle(c: Byte) | KFull | KGeneric

  /** The four kinds of charset that get their own instruction. */
  function CharsetType(cs: Charset): (k: SetKind)
    ensures k.KEmpty? <==> cs == {}
    ensures forall c: Byte :: k == KSingle(c) <==> cs == {c}
    ensures k.KFull? <==> cs == FULLSET
  {
    FullsetIsNotSingle();
    if cs == {} then KEmpty
    else if exists c | c in cs :: cs == {c} then var c :| c in cs && cs == {c}; KSingle(c)
    else if cs == FULLSET then KFull
    else KGeneric
  }

  lemma FullsetIsNotSingle()
    ensures FULLSET != {}
    ensures forall c: Byte :: FULLSET != {c}
  {
    assert 0 in FULLSET && 1 in FULLSET;
  }

  /** What is known about the test that protects some code. */
  datatype Dominator = NoTest | DomChar(c: Byte) | DomSet(cs: Charset) | DomOther

  function Padding(n: nat): seq<Instr> { seq(n, _ => Pad) }

  function CharsetSlots(cs: Charset): seq<Instr> { [Buffer(cs)] + Padding(CHARSETSLOTS - 1) }

  function GenChar(c: Byte, d: Dominator): seq<Instr> {
    if d == DomChar(c) then [IAny] else [IChar(c)]
  }

  function GenCharset(cs: Charset, d: Dominator): seq<Instr> {
    match CharsetType(cs)
    case KEmpty => [IFail]
    case KFull => [IAny]
    case KSingle(c) => GenChar(c, d)
    case KGeneric => if d == DomSet(cs) then [IAny] else [ISet] + CharsetSlots(cs)
  }

  /** A test that continues when the next character is in `cs` and else jumps by `offset`;
      no code when the test would have to accept the empty subject. */
  function GenTest(cs: Charset, e: bool, offset: int): seq<Instr> {
    if e then []
    else
      match CharsetType(cs)
      case KEmpty => [IJmp, Offset(offset)]
      case KFull => [ITestAny, Offset(offset)]
      case KSingle(c) => [ITestChar(c), Offset(offset)]
      case KGeneric => [ITestSet, Offset(offset)] + CharsetSlots(cs)
  }

  function TestSize(cs: Charset, e: bool): nat { |GenTest(cs, e, 0)| }

  /** What code placed right after that test may rely on. */
  function TestDominator(cs: Charset, e: bool): Dominator {
    if e then NoTest
    else
      match CharsetType(cs)
      case KSingle(c) => DomChar(c)
      case KGeneric => DomSet(cs)
      case _ => DomOther
  }

  /** Whether a choice is coded as a plain test, with no backtrack entry. */
  predicate TestChoice(p1: Tree, p2: Tree, fl: Charset) {
    var f1 := GetFirst(p1, FULLSET);
    HeadFail(p1) || (!f1.e && f1.cs !! GetFirst(p2, fl).cs)
  }

  /** Whether a repetition is coded as a plain test. */
  predicate TestRep(p: Tree, fl: Charset) {
    var f := GetFirst(p, FULLSET);
    HeadFail(p) || (!f.e && f.cs !! fl)
  }

  /** test (fail(p)) -> L1; fail; L1:   or   test (fail(p)) -> L1; choice L1; p; failtwice; L1: */
  function NotCode(f: First, headfail: bool, g: seq<Instr>): seq<Instr> {
    var body := if headfail then [IFail] else [IChoice, Offset(3 + |g|)] + g + [IFailTwice];
    GenTest(f.cs, f.e, TestSize(f.cs, f.e) + |body|) + body
  }

  /** p; behind n   or   choice L1; p; backcommit L2; L1: fail; L2: */
  function AndCode(n: int, g: seq<Instr>): seq<Instr> {
    if 0 <= n <= MAXBEHIND then g + (if n > 0 then [IBehind(n)] else [])
    else [IChoice, Offset(4 + |g|)] + g + [IBackCommit, Offset(3), IFail]
  }

  /** test (fail(p1)) -> L1; p1; jmp L2; L1: p2; L2:   (no jump over an empty p2) */
  function TestChoiceCode(cs: Charset, g1: seq<Instr>, emptyp2: bool, g2: seq<Instr>): seq<Instr> {
    var jmp := if emptyp2 then [] else [IJmp, Offset(2 + |g2|)];
    GenTest(cs, false, TestSize(cs, false) + |g1| + |jmp|) + g1 + jmp + g2
  }

  /** test (fail(p1)) -> L1; choice L1; p1; commit L2; L1: p2; L2: */
  function ChoiceCode(f: First, g1: seq<Instr>, g2: seq<Instr>): seq<Instr> {
    GenTest(f.cs, f.e, TestSize(f.cs, f.e) + 4 + |g1|) +
    (GuardedCode(g1, |g2|) + g2)
  }

  /** choice L1; p1; commit L2; L1:   with `over` slots between L1 and L2 */
  function GuardedCode(g1: seq<Instr>, over: nat): seq<Instr> {
    [IChoice, Offset(4 + |g1|)] + g1 + [ICommit, Offset(2 + over)]
  }

  /** L1: test (fail(p)) -> L2; p; jmp L1; L2: */
  function TestRepCode(cs: Charset, g: seq<Instr>): seq<Instr> {
    var n := TestSize(cs, false) + |g|;
    GenTest(cs, false, n + 2) + g + [IJmp, Offset(-n)]
  }

  /** test (fail(p)) -> L2; choice L2 (or partialcommit L1); L1: p; partialcommit L1; L2: */
  function RepCode(f: First, opt: bool, g: seq<Instr>): seq<Instr> {
    GenTest(f.cs, f.e, TestSize(f.cs, f.e) + 4 + |g|) + (RepHead(opt, |g|) + LoopCode(g))
  }

  function RepHead(opt: bool, n: nat): seq<Instr> {
    if opt then [IPartialCommit, Offset(2)] else [IChoice, Offset(4 + n)]
  }

  /** L1: p; partialcommit L1 */
  function LoopCode(g: seq<Instr>): seq<Instr> {
    g + [IPartialCommit, Offset(-|g|)]
  }

  /** The code of `t` under the `opt` flag, dominated by test `d` and with follow set `fl`. */
  function Gen(t: Tree, opt: bool, d: Dominator, fl: Charset): seq<Instr> {
    match t
    case TChar(c) => GenChar(c, d)
    case TAny => [IAny]
    case TSet(cs) => GenCharset(cs, d)
    case TTrue => []
    case TFalse => [IFail]
    case TChoice(p1, p2) =>
      var f := GetFirst(p1, FULLSET);
      if TestChoice(p1, p2, fl) then
        TestChoiceCode(f.cs, Gen(p1, false, TestDominator(f.cs, false), fl), p2.TTrue?, Gen(p2, opt, NoTest, fl))
      else if opt && p2.TTrue? then
        [IPartialCommit, Offset(2)] + Gen(p1, true, NoTest, FULLSET)
      else
        ChoiceCode(f, Gen(p1, p2.TTrue?, TestDominator(f.cs, f.e), FULLSET), Gen(p2, opt, NoTest, fl))
    case TRep(p) =>
      var f := GetFirst(p, FULLSET);
      if ToCharset(p).Some? then [ISpan] + CharsetSlots(ToCharset(p).value)
      else if TestRep(p, fl) then TestRepCode(f.cs, Gen(p, opt, TestDominator(f.cs, false), FULLSET))
      else RepCode(f, opt, Gen(p, false, NoTest, FULLSET))
    case TBehind(n, p) =>
      (if n > 0 then [IBehind(n % 256)] else []) + Gen(p, false, NoTest, FULLSET)
    case TNot(p) =>
      NotCode(GetFirst(p, FULLSET), HeadFail(p), if HeadFail(p) then [] else Gen(p, false, NoTest, FULLSET))
    case TAnd(p) => AndCode(FixedLen(p), Gen(p, false, d, FULLSET))
    case TSeq(p1, p2) =>
      Gen(p1, false, d, if NeedFollow(p1) then GetFirst(p2, fl).cs else FULLSET) +
      Gen(p2, opt, if FixedLen(p1) != 0 then NoTest else d, fl)
  }

  /** The code of a whole pattern before jump optimisation. */
  function GenPattern(t: Tree): Code {
    Gen(t, false, NoTest, FULLSET) + [IEnd]
  }
}
