/** Jump optimisation (deps/lpeg/lpcode.c, `peephole`): the optimised code simulates the original. */
module LpegPeephole {
  import opened LpegTree
  import opened LpegMachine

  /** Size of an instruction in slots. */
  function SizeI(op: Instr): nat {
    match op
    case ISet | ISpan => CHARSETINSTSIZE
    case ITestSet => CHARSETINSTSIZE + 1
    case ITestChar(_) | ITestAny | IChoice | IJmp | ICommit | IPartialCommit | IBackCommit => 2
    case _ => 1
  }

  predicate IsOpcode(op: Instr) {
    !op.Offset? && !op.Buffer? && !op.Pad?
  }

  /** Instructions with a label that may be redirected. */
  predicate HasLabel(op: Instr) {
    op.IChoice? || op.ICommit? || op.IPartialCommit? || op.IBackCommit? || op.ITestChar? || op.ITestSet? || op.ITestAny?
  }

  /** Instructions that a jump to them may be replaced with. */
  predicate NeverFallsThrough(op: Instr) {
    op.IFail? || op.IFailTwice? || op.IEnd? || op.ICommit? || op.IPartialCommit? || op.IBackCommit?
  }

  /** A well-formed instruction starts at `i`. */
  predicate InstrAt(code: Code, i: nat) {
    && i < |code| && IsOpcode(code[i]) && i + SizeI(code[i]) <= |code|
    && (forall j :: i < j < i + SizeI(code[i]) ==> !IsOpcode(code[j]))
    && (HasLabel(code[i]) || code[i].IJmp? ==> code[i + 1].Offset?)
    && (code[i].ISet? || code[i].ISpan? ==> code[i + 1].Buffer?)
    && (code[i].ITestSet? ==> code[i + 2].Buffer?)
  }

  /** The code from `i` on is a sequence of well-formed instructions. */
  predicate Tiled(code: Code, i: nat)
    requires i <= |code|
    decreases |code| - i
  {
    i == |code| || (InstrAt(code, i) && Tiled(code, i + SizeI(code[i])))
  }

  /** The address after following `n` unconditional jumps from `q`. */
  function Jump(code: Code, q: int, n: nat): int
    decreases n
  {
    if n == 0 then q
    else if 0 <= q < |code| && code[q].IJmp? && HasOffset(code, q) then Jump(code, Target(code, q), n - 1)
    else q
  }

  ghost predicate Follows(code: Code, a: int, b: int) {
    exists n: nat :: Jump(code, a, n) == b
  }

  lemma {:induction false} JumpCompose(code: Code, a: int, m: nat, n: nat)
    ensures Jump(code, Jump(code, a, m), n) == Jump(code, a, m + n)
    decreases m
  {
    if m == 0 {
    } else if 0 <= a < |code| && code[a].IJmp? && HasOffset(code, a) {
      JumpCompose(code, Target(code, a), m - 1, n);
    } else {
      JumpStuck(code, a, n);
      JumpStuck(code, a, m + n);
    }
  }

  lemma JumpStuck(code: Code, a: int, n: nat)
    requires !(0 <= a < |code| && code[a].IJmp? && HasOffset(code, a))
    ensures Jump(code, a, n) == a
  {}

  lemma FollowsTrans(code: Code, a: int, b: int, c: int)
    requires Follows(code, a, b) && Follows(code, b, c)
    ensures Follows(code, a, c)
  {
    var m: nat :| Jump(code, a, m) == b;
    var n: nat :| Jump(code, b, n) == c;
    JumpCompose(code, a, m, n);
    assert Jump(code, a, m + n) == c;
  }

  lemma FollowsSelf(code: Code, a: int)
    ensures Follows(code, a, a)
  {
    assert Jump(code, a, 0) == a;
  }

  lemma FollowsTarget(code: Code, a: int)
    requires HasOffset(code, a) && code[a].IJmp?
    ensures Follows(code, a, Target(code, a))
  {
    assert Jump(code, a, 1) == Jump(code, Target(code, a), 0);
  }

  /** Following jumps from `q` never cycles: it ends at an instruction that is not a jump. */
  ghost predicate Lands(code: Code, q: int) {
    exists n: nat :: LandsIn(code, q, n)
  }

  predicate LandsIn(code: Code, q: int, n: nat) {
    var x := Jump(code, q, n);
    0 <= x < |code| && !code[x].IJmp?
  }

  /** The instruction of `c` at `q` does what the original does after following jumps from `q` to `m`. */
  ghost predicate Executes(c0: Code, c: Code, q: int, m: int) {
    && 0 <= q < |c| && 0 <= m < |c0| && IsOpcode(c0[m])
    && c[q] == c0[m]
    && (HasLabel(c[q]) ==>
          HasOffset(c, q) && HasOffset(c0, m) && Follows(c0, Target(c0, m), Target(c, q)))
    && !c[q].IJmp?
    && (m == q || NeverFallsThrough(c0[m]))
    && (c[q].ISet? || c[q].ISpan? ==> q + 1 < |c| == |c0| && c[q + 1] == c0[q + 1])
    && (c[q].ITestSet? ==> q + 2 < |c| == |c0| && c[q + 2] == c0[q + 2])
  }

  /** How the slot `q` of the current code `c` relates to the original code `c0`. */
  ghost predicate Related(c0: Code, c: Code, q: int)
    requires 0 <= q < |c0|
  {
    IsOpcode(c0[q]) ==>
      || (c0[q].IJmp? && 0 <= q < |c| && c[q].IJmp? && HasOffset(c0, q) && HasOffset(c, q) &&
          Follows(c0, Target(c0, q), Target(c, q)))
      || (exists m :: Follows(c0, q, m) && Executes(c0, c, q, m))
  }

  ghost predicate Optimised(c0: Code, c: Code) {
    |c| == |c0| && forall q :: 0 <= q < |c0| ==> Related(c0, c, q)
  }

  /** Stacks whose entries agree up to following jumps. */
  ghost predicate StackSim(c0: Code, a: Stack, b: Stack) {
    match a
    case Bottom => b.Bottom?
    case Push(e, r) => b.Push? && e.pos == b.top.pos && Follows(c0, e.p, b.top.p) && StackSim(c0, r, b.rest)
  }

  ghost predicate StateSim(c0: Code, a: State, b: State) {
    match a
    case Running(p, i, k) => b.Running? && b.pos == i && Follows(c0, p, b.p) && StackSim(c0, k, b.stack)
    case _ => a == b
  }

  predicate Halted(st: State) { st.Matched? || st.Failed? }

  lemma {:induction false} HaltedStays(code: Code, s: Subject, st: State, n: nat)
    requires !st.Running?
    ensures Steps(code, s, st, n) == st
    decreases n
  {
    if n > 0 {
      HaltedStays(code, s, st, n - 1);
    }
  }

  /** One executed instruction keeps the simulation. */
  lemma ExecSim(c0: Code, c: Code, s: Subject, a: State, b: State)
    requires a.Running? && b.Running? && a.pos == b.pos && StackSim(c0, a.stack, b.stack)
    requires a.p != GIVEUP && b.p != GIVEUP
    requires Executes(c0, c, b.p, a.p)
    requires |c| == |c0|
    requires Step(c0, s, a) != Crash
    ensures StateSim(c0, Step(c0, s, a), Step(c, s, b))
  {
    hide Follows;
    var (m, q) := (a.p, b.p);
    FollowsSelf(c0, m + 1);
    FollowsSelf(c0, m + 2);
    FollowsSelf(c0, m + CHARSETINSTSIZE);
    FollowsSelf(c0, m + 1 + CHARSETINSTSIZE);
  }

  /** The original, on its way along jumps to `m`, still has to run from `m`. */
  lemma {:induction false} RunsAlongJumps(c0: Code, s: Subject, a: State, j: nat, n: nat) returns (n': nat)
    requires a.Running? && a.p != GIVEUP && Halted(Steps(c0, s, a, n))
    ensures n' <= n
    ensures Steps(c0, s, Running(Jump(c0, a.p, j), a.pos, a.stack), n') == Steps(c0, s, a, n)
    decreases j
  {
    var q := a.p;
    if j == 0 || !(0 <= q < |c0| && c0[q].IJmp? && HasOffset(c0, q)) {
      n' := n;
    } else {
      if a.pos > |s| {
        HaltedStays(c0, s, Crash, n - 1);
      }
      if Target(c0, q) == GIVEUP {
        JumpStuck(c0, GIVEUP, j - 1);
        n' := n - 1;
      } else {
        n' := RunsAlongJumps(c0, s, Step(c0, s, a), j - 1, n - 1);
      }
    }
  }

  /** Whatever the original code answers, the optimised code answers too. */
  lemma {:induction false} Simulates(c0: Code, c: Code, s: Subject, a: State, b: State, n: nat)
    requires Optimised(c0, c)
    requires StateSim(c0, a, b)
    requires Halted(Steps(c0, s, a, n))
    ensures Reaches(c, s, b, Steps(c0, s, a, n))
    decreases n
  {
    var r := Steps(c0, s, a, n);
    if !a.Running? {
      HaltedStays(c0, s, a, n);
      ReachesSelf(c, s, a);
    } else {
      var a' := Step(c0, s, a);
      if !a'.Running? {
        HaltedStays(c0, s, a', n - 1);
      }
      var j: nat :| Jump(c0, a.p, j) == b.p;
      if a.p == GIVEUP {
        JumpStuck(c0, GIVEUP, j);
        ReachesStep(c, s, b);
      } else if a.p != b.p {
        assert Jump(c0, a'.p, j - 1) == b.p;
        Simulates(c0, c, s, a', b, n - 1);
      } else {
        SimulatesHere(c0, c, s, a, b, n);
      }
    }
  }

  lemma {:induction false} SimulatesHere(c0: Code, c: Code, s: Subject, a: State, b: State, n: nat)
    requires Optimised(c0, c)
    requires StateSim(c0, a, b)
    requires Halted(Steps(c0, s, a, n))
    requires a.Running? && a.p == b.p != GIVEUP
    ensures Reaches(c, s, b, Steps(c0, s, a, n))
    decreases n, 0
  {
    var q := a.p;
    var a' := Step(c0, s, a);
    if !a'.Running? {
      HaltedStays(c0, s, a', n - 1);
    }
    assert Related(c0, c, q);
    if c[q].IJmp? {
      Simulates(c0, c, s, a', Step(c, s, b), n - 1);
      ReachesNext(c, s, b, Steps(c0, s, a, n));
    } else {
      var m :| Follows(c0, q, m) && Executes(c0, c, q, m);
      var j: nat :| Jump(c0, q, j) == m;
      var n' := RunsAlongJumps(c0, s, a, j, n);
      var a2 := Running(m, a.pos, a.stack);
      if !Step(c0, s, a2).Running? {
        HaltedStays(c0, s, Step(c0, s, a2), n' - 1);
      }
      ExecSim(c0, c, s, a2, b);
      Simulates(c0, c, s, Step(c0, s, a2), Step(c, s, b), n' - 1);
      ReachesNext(c, s, b, Steps(c0, s, a, n));
    }
  }

  lemma {:induction false} StackSimSelf(c0: Code, k: Stack)
    ensures StackSim(c0, k, k)
  {
    if k.Push? {
      FollowsSelf(c0, k.top.p);
      StackSimSelf(c0, k.rest);
    }
  }

  /** Jump optimisation preserves the answer of every run. */
  lemma OptimisedAgrees(c0: Code, c: Code, s: Subject, i: nat, r: State)
    requires Optimised(c0, c)
    requires Reaches(c0, s, Start(i), r) && Halted(r)
    ensures Reaches(c, s, Start(i), r)
  {
    var n: nat :| Steps(c0, s, Start(i), n) == r;
    FollowsSelf(c0, 0);
    StackSimSelf(c0, Start(i).stack);
    Simulates(c0, c, s, Start(i), Start(i), n);
  }

  // ----- What each edit of the optimiser keeps -----

  /** Every opcode slot starts a well-formed instruction. */
  ghost predicate AllInstr(code: Code) {
    forall q :: 0 <= q < |code| && IsOpcode(code[q]) ==> InstrAt(code, q)
  }

  /** The partly optimised code `c`: related to the original, and operands stay operands or become no-ops. */
  ghost predicate Consistent(c0: Code, c: Code) {
    Optimised(c0, c) && forall q :: 0 <= q < |c0| && !IsOpcode(c0[q]) ==> !IsOpcode(c[q]) || c[q].IAny?
  }

  lemma {:induction false} TiledInstr(code: Code, i: nat, q: nat)
    requires i <= q < |code| && Tiled(code, i) && IsOpcode(code[q])
    ensures InstrAt(code, q)
    decreases |code| - i
  {
    if i < q && i + SizeI(code[i]) <= q {
      TiledInstr(code, i + SizeI(code[i]), q);
    }
  }

  lemma TiledAllInstr(code: Code)
    requires Tiled(code, 0)
    ensures AllInstr(code)
  {
    forall q | 0 <= q < |code| && IsOpcode(code[q])
      ensures InstrAt(code, q)
    {
      TiledInstr(code, 0, q);
    }
  }

  lemma ConsistentSelf(c0: Code)
    requires AllInstr(c0)
    ensures Consistent(c0, c0)
  {
    forall q | 0 <= q < |c0|
      ensures Related(c0, c0, q)
    {
      if IsOpcode(c0[q]) {
        assert InstrAt(c0, q);
        FollowsSelf(c0, q);
        if HasLabel(c0[q]) || c0[q].IJmp? {
          FollowsSelf(c0, Target(c0, q));
        }
        if !c0[q].IJmp? {
          assert Executes(c0, c0, q, q);
        }
      }
    }
  }

  lemma FollowsMoves(code: Code, a: int, b: int)
    requires Follows(code, a, b) && a != b
    ensures 0 <= a < |code| && code[a].IJmp?
  {
    var n: nat :| Jump(code, a, n) == b;
    if !(0 <= a < |code| && code[a].IJmp?) {
      JumpStuck(code, a, n);
    }
  }

  /** An edit of one instruction and its offset slot. */
  lemma EditKeeps(c0: Code, c: Code, c': Code, i: nat)
    requires AllInstr(c0) && Consistent(c0, c)
    requires i + 1 < |c0| && IsOpcode(c0[i]) && SizeI(c0[i]) >= 2 && (HasLabel(c0[i]) || c0[i].IJmp?)
    requires |c'| == |c| && forall q :: 0 <= q < |c| && q != i && q != i + 1 ==> c'[q] == c[q]
    requires c'[i + 1].Offset? || c'[i + 1].IAny?
    requires Related(c0, c', i)
    ensures Consistent(c0, c')
  {
    hide Follows;
    assert InstrAt(c0, i) && !IsOpcode(c0[i + 1]);
    forall q | 0 <= q < |c0|
      ensures Related(c0, c', q)
    {
      if q != i && IsOpcode(c0[q]) {
        assert InstrAt(c0, q);
        assert q != i + 1;
        assert Related(c0, c, q);
        if c[q].IJmp? {
        } else {
          var m :| Follows(c0, q, m) && Executes(c0, c, q, m);
          if m != q {
            FollowsMoves(c0, q, m);
          }
          assert Executes(c0, c', q, m);
        }
      }
    }
  }

  /** Redirecting a label to where its jumps lead. */
  lemma EditLabel(c0: Code, c: Code, i: nat, l: int)
    requires AllInstr(c0) && Consistent(c0, c)
    requires i < |c0| && IsOpcode(c0[i]) && SizeI(c0[i]) >= 2 && (HasLabel(c0[i]) || c0[i].IJmp?)
    requires HasLabel(c[i]) && HasOffset(c, i) && Follows(c0, Target(c, i), l)
    ensures Consistent(c0, c[i + 1 := Offset(l - i)])
  {
    var c' := c[i + 1 := Offset(l - i)];
    assert InstrAt(c0, i);
    assert Related(c0, c, i);
    var m :| Follows(c0, i, m) && Executes(c0, c, i, m);
    FollowsTrans(c0, Target(c0, m), Target(c, i), l);
    assert Executes(c0, c', i, m);
    EditKeeps(c0, c, c', i);
  }

  lemma EditJump(c0: Code, c: Code, i: nat, l: int)
    requires AllInstr(c0) && Consistent(c0, c)
    requires i < |c0| && c0[i].IJmp? && c[i].IJmp? && HasOffset(c, i) && Follows(c0, Target(c, i), l)
    ensures Consistent(c0, c[i + 1 := Offset(l - i)])
  {
    assert InstrAt(c0, i);
    assert Related(c0, c, i);
    FollowsTrans(c0, Target(c0, i), Target(c, i), l);
    EditKeeps(c0, c, c[i + 1 := Offset(l - i)], i);
  }

  /** Replacing a jump by the instruction it leads to, and its offset by `operand`. */
  lemma EditCopy(c0: Code, c: Code, i: nat, ft: nat, operand: Instr)
    requires AllInstr(c0) && Consistent(c0, c)
    requires i < |c0| && ft < |c0| && c0[i].IJmp? && NeverFallsThrough(c[ft]) && Follows(c0, i, ft)
    requires operand.Offset? || operand.IAny?
    requires HasLabel(c[ft]) ==>
      operand.Offset? && HasOffset(c, ft) && Follows(c0, Target(c, ft), i + operand.offset)
    requires i + 1 < |c0|
    ensures Consistent(c0, c[i := c[ft]][i + 1 := operand])
  {
    var c' := c[i := c[ft]][i + 1 := operand];
    assert InstrAt(c0, i);
    assert Related(c0, c, ft);
    var m :| Follows(c0, ft, m) && Executes(c0, c, ft, m);
    FollowsTrans(c0, i, ft, m);
    if HasLabel(c[ft]) {
      FollowsTrans(c0, Target(c0, m), Target(c, ft), Target(c', i));
    }
    assert Executes(c0, c', i, m);
    EditKeeps(c0, c, c', i);
  }

  /** A jump of the partly optimised code is a jump of the original. */
  lemma JmpIsOriginal(c0: Code, c: Code, q: int)
    requires Consistent(c0, c) && 0 <= q < |c0| && c[q].IJmp?
    ensures c0[q].IJmp? && HasOffset(c0, q) && HasOffset(c, q) && Follows(c0, Target(c0, q), Target(c, q))
  {
    assert Related(c0, c, q);
  }

  /** A label of the partly optimised code leads where a label of the original leads, after jumps. */
  lemma LabelIsOriginal(c0: Code, c: Code, q: int) returns (m: int)
    requires Consistent(c0, c) && 0 <= q < |c0| && HasLabel(c[q])
    ensures 0 <= m < |c0| && HasLabel(c0[m])
    ensures HasOffset(c, q) && HasOffset(c0, m) && Follows(c0, Target(c0, m), Target(c, q))
  {
    assert Related(c0, c, q);
    m :| Follows(c0, q, m) && Executes(c0, c, q, m);
  }

  /** Following jumps from a place that lands gives a place that lands, no further away. */
  lemma LandsAfter(c0: Code, a: int, b: int, n: nat) returns (n': nat)
    requires LandsIn(c0, a, n) && Follows(c0, a, b)
    ensures n' <= n && LandsIn(c0, b, n')
  {
    var j: nat :| Jump(c0, a, j) == b;
    if j <= n {
      n' := n - j;
      JumpCompose(c0, a, j, n - j);
    } else {
      n' := 0;
      JumpCompose(c0, a, n, j - n);
      JumpStuck(c0, Jump(c0, a, n), j - n);
    }
  }
}
