/** Why `OptSafe` is needed: `coderep` passes `opt` on to the body of a test-coded loop
    (deps/lpeg/lpcode.c:762). When the body uses it, a failure inside one turn of the loop
    leaves the whole optional pattern instead of only the tail of that turn. */
module LpegOptDefect {
  import opened Common
  import opened LpegTree
  import opened LpegAnalysis
  import opened LpegMachine
  import opened LpegCodegen
  import opened LpegCorrectness
  import opened LpegPeephole

  function Pair(a: Byte, c: Byte): Tree { TSeq(TChar(a), TChar(c)) }

  /** (a (a c)*)* */
  function Turns(a: Byte, c: Byte): Tree { TRep(Turn(a, c)) }

  function Turn(a: Byte, c: Byte): Tree { TSeq(TChar(a), TRep(Pair(a, c))) }

  /** ((a (a c)*)*)?  */
  function Witness(a: Byte, c: Byte): Tree { TChoice(Turns(a, c), TTrue) }

  function TailCode(a: Byte, c: Byte): Code {
    [ITestChar(a), Offset(8), IPartialCommit, Offset(2), IChar(a), IChar(c), IPartialCommit, Offset(-2)]
  }

  lemma TailGen(a: Byte, c: Byte)
    ensures Gen(TRep(Pair(a, c)), true, NoTest, FULLSET) == TailCode(a, c)
    ensures UsesOpt(TRep(Pair(a, c)), FULLSET)
  {
    var y := Pair(a, c);
    assert GetFirst(y, FULLSET) == First(false, {a});
    assert a in FULLSET;
    assert !TestRep(y, FULLSET);
    assert Gen(y, false, NoTest, FULLSET) == [IChar(a), IChar(c)];
  }

  lemma TurnsGen(a: Byte, c: Byte)
    ensures Gen(Turns(a, c), true, NoTest, FULLSET) ==
            [ITestChar(a), Offset(13), IAny] + TailCode(a, c) + [IJmp, Offset(-11)]
    ensures UsesOpt(Turn(a, c), FULLSET) && TestRep(Turn(a, c), FULLSET)
  {
    TailGen(a, c);
    var x := Turn(a, c);
    assert GetFirst(x, FULLSET) == First(false, {a});
    assert NoFail(TRep(Pair(a, c))) && HeadFail(x);
    var g := [IAny] + TailCode(a, c);
    assert Gen(x, true, DomChar(a), FULLSET) == g;
    assert TestDominator({a}, false) == DomChar(a);
    assert TestRepCode({a}, g) == [ITestChar(a), Offset(13)] + g + [IJmp, Offset(-11)];
  }

  /** The code that the witness compiles to. */
  lemma WitnessGen(a: Byte, c: Byte)
    ensures GenPattern(Witness(a, c)) ==
            [IChoice, Offset(17), ITestChar(a), Offset(13), IAny] + TailCode(a, c) +
            [IJmp, Offset(-11), ICommit, Offset(2), IEnd]
    ensures !OptSafe(Witness(a, c), false, FULLSET)
  {
    TurnsGen(a, c);
    var t := Witness(a, c);
    assert GetFirst(Turns(a, c), FULLSET).e;
    assert !TestChoice(Turns(a, c), TTrue, FULLSET);
    var g1 := Gen(Turns(a, c), true, NoTest, FULLSET);
    assert |g1| == 13;
    assert Gen(t, false, NoTest, FULLSET) == [IChoice, Offset(17)] + g1 + [ICommit, Offset(2)];
  }

  lemma WitnessWellFormed(a: Byte, c: Byte)
    ensures WellFormed(Witness(a, c))
  {
    assert !CheckAux(TChar(a), PEnullable);
    assert !CheckAux(Pair(a, c), PEnullable);
    assert !CheckAux(Turn(a, c), PEnullable);
    assert WellFormed(TChar(a)) && WellFormed(TChar(c));
    assert WellFormed(Pair(a, c));
    assert WellFormed(TRep(Pair(a, c)));
    assert WellFormed(Turn(a, c));
  }

  /** For all characters a and c that differ: on the subject `aa`, PEG matching consumes both
      characters and the code, optimised or not, only one. */
  lemma OptMatters(a: Byte, c: Byte)
    requires a != c
    ensures WellFormed(Witness(a, c)) && !OptSafe(Witness(a, c), false, FULLSET)
    ensures Match(Witness(a, c), [a, a], 0) == Some(2)
    ensures Reaches(GenPattern(Witness(a, c)), [a, a], Start(0), Matched(1))
    ensures forall code :: Optimised(GenPattern(Witness(a, c)), code) ==> Reaches(code, [a, a], Start(0), Matched(1))
  {
    WitnessWellFormed(a, c);
    WitnessMatches(a, c);
    WitnessGen(a, c);
    WitnessRuns(a, c, GenPattern(Witness(a, c)));
    forall code | Optimised(GenPattern(Witness(a, c)), code)
      ensures Reaches(code, [a, a], Start(0), Matched(1))
    {
      OptimisedAgrees(GenPattern(Witness(a, c)), code, [a, a], 0, Matched(1));
    }
  }

  lemma WitnessMatches(a: Byte, c: Byte)
    requires a != c
    ensures Match(Witness(a, c), [a, a], 0) == Some(2)
  {
    var s: Subject := [a, a];
    var y := Pair(a, c);
    assert Match(TChar(a), s, 1) == Some(2);
    assert Match(TChar(c), s, 2) == None;
    assert Match(y, s, 1) == None;
    assert Match(y, s, 2) == None;
    assert Match(TRep(y), s, 1) == Some(1);
    assert Match(TRep(y), s, 2) == Some(2);
    var x := Turn(a, c);
    assert Match(x, s, 0) == Some(1);
    assert Match(x, s, 1) == Some(2);
    assert Match(x, s, 2) == None;
    assert Match(TRep(x), s, 2) == Some(2);
    assert Match(TRep(x), s, 1) == Some(2);
    assert Match(TRep(x), s, 0) == Some(2);
  }

  lemma WitnessRuns(a: Byte, c: Byte, code: Code)
    requires a != c
    requires code == [IChoice, Offset(17), ITestChar(a), Offset(13), IAny] + TailCode(a, c) +
                     [IJmp, Offset(-11), ICommit, Offset(2), IEnd]
    ensures Reaches(code, [a, a], Start(0), Matched(1))
  {
    var s: Subject := [a, a];
    var k := Push(Entry(GIVEUP, 0), Bottom);
    var s0 := Start(0);
    var s1 := Running(2, 0, Push(Entry(17, 0), k));
    var s2 := Running(4, 0, Push(Entry(17, 0), k));
    var s3 := Running(5, 1, Push(Entry(17, 0), k));
    var s4 := Running(7, 1, Push(Entry(17, 0), k));
    var s5 := Running(9, 1, Push(Entry(17, 1), k));
    var s6 := Running(10, 2, Push(Entry(17, 1), k));
    var s7 := Running(17, 1, k);
    assert Step(code, s, s0) == s1;
    assert Step(code, s, s1) == s2;
    assert Step(code, s, s2) == s3;
    assert Step(code, s, s3) == s4;
    assert Step(code, s, s4) == s5;
    assert Step(code, s, s5) == s6;
    assert Step(code, s, s6) == s7;
    assert Step(code, s, s7) == Matched(1);
    ReachesStep(code, s, s7);
    ReachesNext(code, s, s6, Matched(1));
    ReachesNext(code, s, s5, Matched(1));
    ReachesNext(code, s, s4, Matched(1));
    ReachesNext(code, s, s3, Matched(1));
    ReachesNext(code, s, s2, Matched(1));
    ReachesNext(code, s, s1, Matched(1));
    ReachesNext(code, s, s0, Matched(1));
  }

  lemma FalseFirst(t: Tree)
    ensures Gen(TSeq(TFalse, t), false, NoTest, FULLSET) == [IFail] + Gen(t, false, NoTest, FULLSET)
  {
    assert Gen(TFalse, false, NoTest, FULLSET) == [IFail];
  }

  /** `OptSafe` is not needed for correct code: behind a pattern that always fails any pattern is compiled correctly. */
  lemma UnsafeButCorrect(t: Tree, code: Code, s: Subject, i: nat)
    requires i <= |s| && Optimised(GenPattern(TSeq(TFalse, t)), code)
    ensures Reaches(code, s, Start(i), Answer(TSeq(TFalse, t), s, i))
    ensures OptSafe(TSeq(TFalse, t), false, FULLSET) ==> OptSafe(t, false, FULLSET)
  {
    hide Optimised;
    var u := TSeq(TFalse, t);
    var c0 := GenPattern(u);
    assert c0 == [IFail] + Gen(t, false, NoTest, FULLSET) + [IEnd] by { FalseFirst(t); }
    assert c0[0] == IFail && Match(u, s, i) == None;
    var st := Running(GIVEUP, i, Bottom);
    assert Step(c0, s, Start(i)) == st && Step(c0, s, st) == Failed;
    ReachesStep(c0, s, st);
    ReachesNext(c0, s, Start(i), Failed);
    OptimisedAgrees(c0, code, s, i, Failed);
  }
}
