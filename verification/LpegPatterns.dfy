/** Matching a pattern end to end: compile it, then run the virtual machine. */
module LpegPatterns {
  import opened LpegTree
  import opened LpegAnalysis
  import opened LpegMachine
  import opened LpegCodegen
  import opened LpegCorrectness
  import opened LpegPeephole
  import opened LpegCompiler
  import opened LpegHeights
  import opened LpegAssociativity
  import opened LpegFixed

  /** Main theorem: compiled and optimised code, run on any subject from any position, halts with the PEG answer. */
  lemma CompiledCodeMatches(t: Tree, code: Code, s: Subject, i: nat)
    requires WellFormed(t) && OptSafe(t, false, FULLSET)
    requires Optimised(GenPattern(t), code)
    requires i <= |s|
    ensures Reaches(code, s, Start(i), Answer(t, s, i))
  {
    GeneratedCodeMatches(t, s, i);
    OptimisedAgrees(GenPattern(t), code, s, i, Answer(t, s, i));
  }

  /** No choice has an empty second alternative. */
  predicate NoOptional(t: Tree) {
    match t
    case TChoice(p1, p2) => !p2.TTrue? && NoOptional(p1) && NoOptional(p2)
    case TSeq(p1, p2) => NoOptional(p1) && NoOptional(p2)
    case TRep(p) => NoOptional(p)
    case TNot(p) => NoOptional(p)
    case TAnd(p) => NoOptional(p)
    case TBehind(_, p) => NoOptional(p)
    case _ => true
  }

  /** Without optional parts the compiler never sets the flag, so every such pattern is compiled correctly. */
  lemma {:induction false} NoOptionalSafe(t: Tree, fl: Charset)
    requires NoOptional(t)
    ensures OptSafe(t, false, fl)
  {
    hide GetFirst, NeedFollow, TestChoice, TestRep, UsesOpt;
    match t
    case TChoice(p1, p2) =>
      NoOptionalSafe(p1, fl);
      NoOptionalSafe(p1, FULLSET);
      NoOptionalSafe(p2, fl);
    case TSeq(p1, p2) =>
      NoOptionalSafe(p1, if NeedFollow(p1) then GetFirst(p2, fl).cs else FULLSET);
      NoOptionalSafe(p2, fl);
    case TRep(p) => NoOptionalSafe(p, FULLSET);
    case TNot(p) => NoOptionalSafe(p, FULLSET);
    case TAnd(p) => NoOptionalSafe(p, FULLSET);
    case TBehind(_, p) => NoOptionalSafe(p, FULLSET);
    case _ =>
  }

  // ----- The interpreter with its growing stack -----

  /** The stack held in the first `top` slots of a buffer, newest entry last. */
  function StackOf(entries: seq<Entry>): Stack {
    if entries == [] then Bottom else Push(entries[|entries| - 1], StackOf(entries[..|entries| - 1]))
  }

  lemma StackOfPush(entries: seq<Entry>, e: Entry)
    ensures StackOf(entries + [e]) == Push(e, StackOf(entries))
  {
    assert (entries + [e])[..|entries|] == entries;
  }

  datatype MatchResult = Position(pos: nat) | NoMatch | TooManyPending

  lemma {:induction false} DepthOf(entries: seq<Entry>)
    ensures Depth(StackOf(entries)) == |entries|
  {
    if entries != [] {
      DepthOf(entries[..|entries| - 1]);
    }
  }

  /** What the interpreter reports for a halted machine. */
  predicate Reports(r: MatchResult, st: State) {
    match st
    case Matched(j) => r == Position(j)
    case Failed => r == NoMatch
    case _ => false
  }

  class Machine {
    var stack: array<Entry>
    var top: nat
    const max: nat

    ghost predicate Valid()
      reads this, stack
    {
      top <= stack.Length && INITBACK <= stack.Length <= Limit()
    }

    /** The most entries the stack may have. */
    function Limit(): nat { Max(INITBACK, max) }

    ghost function Entries(): seq<Entry>
      requires Valid()
      reads this, stack
    {
      stack[..top]
    }

    constructor (max: nat)
      ensures Valid() && fresh(stack) && Entries() == [] && this.max == max
    {
      stack := new Entry[INITBACK](_ => Entry(GIVEUP, 0));
      top := 0;
      this.max := max;
    }

    /** Doubles the stack, up to the maximum size; the answer says whether there was room to grow. */
    method DoubleStack() returns (ok: bool)
      requires Valid()
      modifies this
      ensures Valid() && Entries() == old(Entries()) && top == old(top)
      ensures ok == (old(stack.Length) < max)
      ensures if ok then fresh(stack) && top <= old(stack.Length) < stack.Length else stack == old(stack)
    {
      var n := stack.Length;
      ok := n < max;
      if ok {
        var newn := if 2 * n > max then max else 2 * n;
        var newstack := new Entry[newn](_ => Entry(GIVEUP, 0));
        var j := 0;
        while j < top
          invariant 0 <= j <= top == old(top) <= n == stack.Length < newn
          invariant stack == old(stack) && Valid() && Entries() == old(Entries())
          invariant newstack[..j] == stack[..j]
        {
          newstack[j] := stack[j];
          j := j + 1;
        }
        stack := newstack;
      }
    }

    /** Pushes a choice; fails when the stack may not grow any more. */
    method PushEntry(e: Entry) returns (ok: bool)
      requires Valid()
      modifies this, stack
      ensures Valid() && (stack == old(stack) || fresh(stack))
      ensures ok <==> old(top) < Limit()
      ensures Entries() == if ok then old(Entries()) + [e] else old(Entries())
    {
      ok := true;
      if top == stack.Length {
        ok := DoubleStack();
        if !ok {
          return;
        }
      }
      stack[top] := e;
      top := top + 1;
    }

    /** Takes the newest entry off the stack. */
    method PopEntry() returns (e: Entry)
      requires Valid() && top > 0
      modifies this`top
      ensures Valid() && top == old(top) - 1
      ensures StackOf(old(Entries())) == Push(e, StackOf(Entries()))
    {
      top := top - 1;
      e := stack[top];
      StackOfPush(stack[..top], e);
      assert stack[..top + 1] == stack[..top] + [e];
    }

    /** Opcode interpreter: runs `code` on `s` from position `start`. The run is known to halt after `n` steps. */
    method Match(code: Code, s: Subject, start: nat, ghost n: nat) returns (r: MatchResult)
      requires Valid() && top == 0
      requires start <= |s|
      requires Halted(Steps(code, s, Start(start), n))
      modifies this, stack
      ensures r.TooManyPending? || Reports(r, Steps(code, s, Start(start), n))
      ensures r.TooManyPending? <==> exists k :: 0 <= k <= n && Above(Steps(code, s, Start(start), k), Limit())
    {
      hide Steps, Step, Above;
      var p, pos := 0, start;
      var ok := PushEntry(Entry(GIVEUP, start));
      StackOfPush([], Entry(GIVEUP, start));
      ghost var k := 0;
      StepsZero(code, s, Start(start));
      StartsBelow(start, Limit());
      while true
        invariant Valid() && (stack == old(stack) || fresh(stack))
        invariant k <= n
        invariant Steps(code, s, Start(start), k) == Running(p, pos, StackOf(Entries()))
        invariant forall j :: 0 <= j <= k ==> !Above(Steps(code, s, Start(start), j), Limit())
        decreases n - k
      {
        NextStep(code, s, Start(start), k, n);
        StepKinds(code, s, p, pos, StackOf(Entries()));
        if p == GIVEUP {
          StaysBelow(code, s, Start(start), k, Limit());
          return NoMatch;
        }
        if code[p].IEnd? {
          StaysBelow(code, s, Start(start), k, Limit());
          return Position(pos);
        }
        k := k + 1;
        AboveChoice(code, s, p, pos, Entries(), Limit());
        ok, p, pos := Exec(code, s, p, pos);
        if !ok {
          return TooManyPending;
        }
        BelowNow(p, pos, Entries(), Limit());
      }
    }

    /** Executes one instruction that neither ends nor gives up; not `ok` when the stack may not grow. */
    method Exec(code: Code, s: Subject, p0: int, pos0: nat) returns (ok: bool, p: int, pos: nat)
      requires Valid()
      requires 0 <= p0 < |code| && !code[p0].IEnd? && pos0 <= |s|
      requires Step(code, s, Running(p0, pos0, StackOf(Entries()))) != Crash
      modifies this, stack
      ensures Valid() && (stack == old(stack) || fresh(stack))
      ensures ok ==> Step(code, s, Running(p0, pos0, StackOf(old(Entries())))) == Running(p, pos, StackOf(Entries()))
      ensures !ok ==> code[p0].IChoice? && old(top) >= Limit()
    {
      ok, p, pos := true, p0, pos0;
      match code[p]
      case IAny =>
        if pos < |s| { p, pos := p + 1, pos + 1; } else { p, pos := Backtrack(); }
      case IChar(c) =>
        if pos < |s| && s[pos] == c { p, pos := p + 1, pos + 1; } else { p, pos := Backtrack(); }
      case ISet =>
        if HeadIn(s, pos, code[p + 1].cs) { p, pos := p + CHARSETINSTSIZE, pos + 1; } else { p, pos := Backtrack(); }
      case ITestAny => p := if pos < |s| then p + 2 else Target(code, p);
      case ITestChar(c) => p := if pos < |s| && s[pos] == c then p + 2 else Target(code, p);
      case ITestSet =>
        p := if HeadIn(s, pos, code[p + 2].cs) then p + 1 + CHARSETINSTSIZE else Target(code, p);
      case IBehind(m) =>
        if m > pos { p, pos := Backtrack(); } else { p, pos := p + 1, pos - m; }
      case ISpan =>
        pos := Span(code[p + 1].cs, s, pos);
        p := p + CHARSETINSTSIZE;
      case IJmp => p := Target(code, p);
      case IFail => p, pos := Backtrack();
      case IChoice => ok, p, pos := ExecStack(code, s, p0, pos0);
      case ICommit => ok, p, pos := ExecStack(code, s, p0, pos0);
      case IPartialCommit => ok, p, pos := ExecStack(code, s, p0, pos0);
      case IBackCommit => ok, p, pos := ExecStack(code, s, p0, pos0);
      case IFailTwice => ok, p, pos := ExecStack(code, s, p0, pos0);
      case IEnd => assert false;
      case Offset(_) => assert false;
      case Buffer(_) => assert false;
      case Pad => assert false;
    }

    /** The instructions that work on the backtrack stack. */
    method ExecStack(code: Code, s: Subject, p0: int, pos0: nat) returns (ok: bool, p: int, pos: nat)
      requires Valid()
      requires 0 <= p0 < |code| && pos0 <= |s|
      requires var op := code[p0];
               op.IChoice? || op.ICommit? || op.IPartialCommit? || op.IBackCommit? || op.IFailTwice?
      requires Step(code, s, Running(p0, pos0, StackOf(Entries()))) != Crash
      modifies this, stack
      ensures Valid() && (stack == old(stack) || fresh(stack))
      ensures ok ==> Step(code, s, Running(p0, pos0, StackOf(old(Entries())))) == Running(p, pos, StackOf(Entries()))
      ensures !ok ==> code[p0].IChoice? && old(top) >= Limit()
    {
      hide StackOf, Step, FailTo, HasOffset;
      ok, p, pos := true, p0, pos0;
      StackStep(code, s, p, pos, StackOf(Entries()));
      if !code[p].IChoice? {
        HasTop(Entries());
      }
      if code[p].IChoice? {
        StackOfPush(Entries(), Entry(Target(code, p), pos));
        ok := PushEntry(Entry(Target(code, p), pos));
        p := p + 2;
      } else if code[p].ICommit? {
        var e := PopEntry();
        p := Target(code, p);
      } else if code[p].IPartialCommit? {
        UpdateTop(pos);
        p := Target(code, p);
      } else if code[p].IBackCommit? {
        var e := PopEntry();
        p, pos := Target(code, p), e.pos;
      } else {
        var e := PopEntry();
        FailsTo(StackOf(Entries()));
        HasTop(Entries());
        p, pos := Backtrack();
      }
    }

    /** Moves the newest entry to subject position `pos`. */
    method UpdateTop(pos: nat)
      requires Valid() && top > 0
      modifies stack
      ensures Valid()
      ensures var k := StackOf(old(Entries()));
              k.Push? && StackOf(Entries()) == Push(Entry(k.top.p, pos), k.rest)
    {
      StackOfPush(stack[..top - 1], stack[top - 1]);
      assert stack[..top] == stack[..top - 1] + [stack[top - 1]];
      stack[top - 1] := Entry(stack[top - 1].p, pos);
      StackOfPush(stack[..top - 1], stack[top - 1]);
      assert stack[..top] == stack[..top - 1] + [stack[top - 1]];
    }

    /** The pattern failed: go back to the newest entry. */
    method Backtrack() returns (p: int, pos: nat)
      requires Valid() && top > 0
      modifies this`top
      ensures Valid()
      ensures FailTo(StackOf(old(Entries()))) == Running(p, pos, StackOf(Entries()))
    {
      var e := PopEntry();
      p, pos := e.p, e.pos;
    }

    /** Skips the characters in `cs`. */
    method Span(cs: Charset, s: Subject, i: nat) returns (j: nat)
      requires i <= |s|
      ensures j == SpanEnd(cs, s, i)
    {
      j := i;
      while j < |s|
        invariant i <= j <= |s| && SpanEnd(cs, s, j) == SpanEnd(cs, s, i)
      {
        if s[j] !in cs {
          break;
        }
        j := j + 1;
      }
    }
  }

  lemma HasTop(entries: seq<Entry>)
    ensures StackOf(entries).Push? <==> entries != []
  {}

  lemma FailsTo(k: Stack)
    ensures FailTo(k) != Crash ==> k.Push?
  {}

  /** What the instructions on the backtrack stack do. */
  lemma StackStep(code: Code, s: Subject, p: int, i: nat, k: Stack)
    requires 0 <= p < |code| && i <= |s| && Step(code, s, Running(p, i, k)) != Crash
    ensures code[p].IChoice? ==>
      HasOffset(code, p) && Step(code, s, Running(p, i, k)) == Running(p + 2, i, Push(Entry(Target(code, p), i), k))
    ensures code[p].ICommit? ==>
      HasOffset(code, p) && k.Push? && Step(code, s, Running(p, i, k)) == Running(Target(code, p), i, k.rest)
    ensures code[p].IPartialCommit? ==>
      HasOffset(code, p) && k.Push? && Step(code, s, Running(p, i, k)) == Running(Target(code, p), i, Push(Entry(k.top.p, i), k.rest))
    ensures code[p].IBackCommit? ==>
      HasOffset(code, p) && k.Push? && Step(code, s, Running(p, i, k)) == Running(Target(code, p), k.top.pos, k.rest)
    ensures code[p].IFailTwice? ==> k.Push? && Step(code, s, Running(p, i, k)) == FailTo(k.rest)
  {}

  /** More than `limit` entries on the stack. */
  predicate Above(st: State, limit: nat) { st.Running? && Depth(st.stack) > limit }

  lemma StartsBelow(i: nat, limit: nat)
    requires limit >= INITBACK
    ensures !Above(Start(i), limit)
  {
    assert Depth(Start(i).stack) == 1 + Depth(Bottom);
  }

  /** A choice that finds the stack full. */
  lemma AboveChoice(code: Code, s: Subject, p: int, i: nat, entries: seq<Entry>, limit: nat)
    requires 0 <= p < |code| && i <= |s| && Step(code, s, Running(p, i, StackOf(entries))) != Crash
    ensures code[p].IChoice? && |entries| >= limit ==> Above(Step(code, s, Running(p, i, StackOf(entries))), limit)
  {
    hide Step, StackOf;
    StackStep(code, s, p, i, StackOf(entries));
    DepthOf(entries);
  }

  lemma BelowNow(p: int, i: nat, entries: seq<Entry>, limit: nat)
    requires |entries| <= limit
    ensures !Above(Running(p, i, StackOf(entries)), limit)
  {
    hide StackOf;
    DepthOf(entries);
  }

  /** A step that does not go on is the last one. */
  lemma StaysBelow(code: Code, s: Subject, a: State, k: nat, limit: nat)
    requires !Steps(code, s, a, k + 1).Running?
    ensures forall j :: j > k ==> !Above(Steps(code, s, a, j), limit)
  {
    hide Steps;
    forall j | j > k
      ensures !Above(Steps(code, s, a, j), limit)
    {
      StepsCompose(code, s, a, k + 1, j - k - 1);
      HaltedStays(code, s, Steps(code, s, a, k + 1), j - k - 1);
    }
  }

  lemma StepKinds(code: Code, s: Subject, p: int, i: nat, k: Stack)
    requires Step(code, s, Running(p, i, k)) != Crash
    ensures p == GIVEUP ==> Step(code, s, Running(p, i, k)) == Failed
    ensures p != GIVEUP ==> 0 <= p < |code| && i <= |s|
    ensures p != GIVEUP && code[p].IEnd? ==> Step(code, s, Running(p, i, k)) == Matched(i)
  {}

  lemma StepsZero(code: Code, s: Subject, a: State)
    ensures Steps(code, s, a, 0) == a
  {}

  /** A run that halts well after `n` steps takes an uncrashed step from every running state on its way. */
  lemma NextStep(code: Code, s: Subject, a: State, k: nat, n: nat)
    requires k <= n && Halted(Steps(code, s, a, n)) && Steps(code, s, a, k).Running?
    ensures k < n
    ensures Steps(code, s, a, k + 1) == Step(code, s, Steps(code, s, a, k)) != Crash
    ensures !Steps(code, s, a, k + 1).Running? ==> Steps(code, s, a, k + 1) == Steps(code, s, a, n)
  {
    var b := Steps(code, s, a, k);
    StepsCompose(code, s, a, k, n - k);
    StepsCompose(code, s, a, k, 1);
    StepsZero(code, s, Step(code, s, b));
    assert Steps(code, s, b, 1) == Steps(code, s, Step(code, s, b), 0);
    if k < n && !Step(code, s, b).Running? {
      HaltedStays(code, s, Step(code, s, b), n - k - 1);
    }
  }

  /** Compiles `t` and matches it on `s` from `start`, with at most `max` pending choices; they are enough when the pattern
      is nested less deeply, or less than the initial stack. */
  method MatchPattern(t: Tree, s: Subject, start: nat, max: nat) returns (r: MatchResult)
    requires WellFormed(t) && OptSafe(t, false, FULLSET)
    requires start <= |s|
    ensures r.TooManyPending? || Reports(r, Answer(t, s, start))
    ensures r.TooManyPending? ==> Nest(t) >= max && Nest(t) >= INITBACK
  {
    hide Optimised, OptSafe, Match, Step, Steps, GenPattern, Nest;
    var compst := new CompileState();
    compst.Compile(t);
    CompiledCodeMatches(t, compst.code, s, start);
    ghost var n: nat :| Steps(compst.code, s, Start(start), n) == Answer(t, s, start);
    var machine := new Machine(max);
    r := machine.Match(compst.code, s, start, n);
    forall k: nat ensures Above(Steps(compst.code, s, Start(start), k), machine.Limit()) ==> 1 + Nest(t) > machine.Limit() {
      BoundedStack(t, compst.code, s, start, k);
    }
  }

  // ----- The pattern as it is adjusted before it is compiled -----

  /** **From the pattern to the answer**: adjusting, compiling and optimising a pattern and running the code gives the answer
      of the pattern itself. */
  lemma FixedCodeMatches(t: Tree, code: Code, s: Subject, i: nat)
    requires WellFormed(t) && OptSafe(t, false, FULLSET) && i <= |s|
    requires Optimised(GenPattern(Fixed(t)), code)
    ensures Reaches(code, s, Start(i), Answer(t, s, i))
  {
    FixedWellFormed(t);
    FixedSafe(t, false, FULLSET);
    FixedMatches(t, s, i);
    CompiledCodeMatches(Fixed(t), code, s, i);
  }

  lemma {:induction false} RightAssocNest(t: Tree)
    requires IsOp(t)
    ensures Nest(RightAssoc(t)) <= Nest(t)
    decreases t.sib1
  {
    if SameOp(t, t.sib1) {
      RightAssocNest(Rotate(t));
    }
  }

  lemma {:induction false} FixedNest(t: Tree)
    ensures Nest(Fixed(t)) <= Nest(t)
    decreases |Encode(t)|
  {
    hide Encode;
    if IsOp(t) {
      var r := RightAssoc(t);
      Smaller(t);
      RightAssocNest(t);
      FixedNest(r.sib1);
      FixedNest(r.sib2);
    } else if t.TRep? || t.TNot? || t.TAnd? || t.TBehind? {
      UnaryEncode(t);
      FixedNest(t.body);
    }
  }

  /** Adjusts, compiles and matches a pattern. */
  method MatchFixed(t: Tree, s: Subject, start: nat, max: nat) returns (r: MatchResult)
    requires WellFormed(t) && OptSafe(t, false, FULLSET)
    requires start <= |s|
    ensures r.TooManyPending? || Reports(r, Answer(t, s, start))
    ensures r.TooManyPending? ==> Nest(t) >= max && Nest(t) >= INITBACK
  {
    hide OptSafe, WellFormed, Fixed, Match;
    FixedWellFormed(t);
    FixedSafe(t, false, FULLSET);
    FixedMatches(t, s, start);
    FixedNest(t);
    r := MatchPattern(Fixed(t), s, start, max);
  }
}
