/** The LPeg virtual machine (deps/lpeg/lpvm.c), capture-free opcodes.

    Code is a sequence of physical slots: a jump occupies two (opcode, relative
    offset) and a charset eight slots of four bytes after its opcode. */
module LpegMachine {
  import opened LpegTree

  const CHARSETSLOTS := 8
  const CHARSETINSTSIZE := 1 + CHARSETSLOTS
  const INITBACK := 100

  datatype Instr =
    | IAny
    | IChar(aux: Byte)
    | ISet
    | ITestAny
    | ITestChar(aux: Byte)
    | ITestSet
    | ISpan
    | IBehind(n: Byte)
    | IEnd
    | IChoice
    | IJmp
    | ICommit
    | IPartialCommit
    | IBackCommit
    | IFailTwice
    | IFail
    | Offset(offset: int)
    | Buffer(cs: Charset)
    | Pad

  type Code = seq<Instr>

  /** Address of the instruction that the bottom stack entry points to, outside the code. */
  const GIVEUP := -1

  datatype Entry = Entry(p: int, pos: nat)

  datatype Stack = Bottom | Push(top: Entry, rest: Stack)

  /** `Crash` stands for a violated assertion of the interpreter or an access outside the code. */
  datatype State =
    | Running(p: int, pos: nat, stack: Stack)
    | Matched(pos: nat)
    | Failed
    | Crash

  predicate HasOffset(code: Code, p: int) {
    0 <= p && p + 1 < |code| && code[p + 1].Offset?
  }

  function Target(code: Code, p: int): int
    requires HasOffset(code, p)
  {
    p + code[p + 1].offset
  }

  predicate HasBuffer(code: Code, p: int) {
    0 <= p < |code| && code[p].Buffer?
  }

  /** Backtrack to the newest entry. */
  function FailTo(stack: Stack): State {
    match stack
    case Bottom => Crash
    case Push(e, rest) => Running(e.p, e.pos, rest)
  }

  /** First position at or after `i` whose character is not in `cs`. */
  function SpanEnd(cs: Charset, s: Subject, i: nat): (j: nat)
    requires i <= |s|
    ensures i <= j <= |s|
    decreases |s| - i
  {
    if HeadIn(s, i, cs) then SpanEnd(cs, s, i + 1) else i
  }

  /** One instruction. */
  function Step(code: Code, s: Subject, st: State): State {
    if !st.Running? then st
    else if st.p == GIVEUP then (if st.stack.Bottom? then Failed else Crash)
    else if !(0 <= st.p < |code|) || st.pos > |s| then Crash
    else
      var (p, i, k) := (st.p, st.pos, st.stack);
      match code[p]
      case IEnd => if k.Push? && k.rest.Bottom? then Matched(i) else Crash
      case IAny => if i < |s| then Running(p + 1, i + 1, k) else FailTo(k)
      case IChar(c) => if i < |s| && s[i] == c then Running(p + 1, i + 1, k) else FailTo(k)
      case ISet =>
        if !HasBuffer(code, p + 1) then Crash
        else if HeadIn(s, i, code[p + 1].cs) then Running(p + CHARSETINSTSIZE, i + 1, k)
        else FailTo(k)
      case ITestAny =>
        if !HasOffset(code, p) then Crash
        else if i < |s| then Running(p + 2, i, k)
        else Running(Target(code, p), i, k)
      case ITestChar(c) =>
        if !HasOffset(code, p) then Crash
        else if i < |s| && s[i] == c then Running(p + 2, i, k)
        else Running(Target(code, p), i, k)
      case ITestSet =>
        if !HasOffset(code, p) || !HasBuffer(code, p + 2) then Crash
        else if HeadIn(s, i, code[p + 2].cs) then Running(p + 1 + CHARSETINSTSIZE, i, k)
        else Running(Target(code, p), i, k)
      case IBehind(n) => if n > i then FailTo(k) else Running(p + 1, i - n, k)
      case ISpan =>
        if !HasBuffer(code, p + 1) then Crash
        else Running(p + CHARSETINSTSIZE, SpanEnd(code[p + 1].cs, s, i), k)
      case IJmp => if !HasOffset(code, p) then Crash else Running(Target(code, p), i, k)
      case IChoice =>
        if !HasOffset(code, p) then Crash
        else Running(p + 2, i, Push(Entry(Target(code, p), i), k))
      case ICommit =>
        if !HasOffset(code, p) || k.Bottom? then Crash
        else Running(Target(code, p), i, k.rest)
      case IPartialCommit =>
        if !HasOffset(code, p) || k.Bottom? then Crash
        else Running(Target(code, p), i, Push(Entry(k.top.p, i), k.rest))
      case IBackCommit =>
        if !HasOffset(code, p) || k.Bottom? then Crash
        else Running(Target(code, p), k.top.pos, k.rest)
      case IFailTwice => if k.Bottom? then Crash else FailTo(k.rest)
      case IFail => FailTo(k)
      case _ => Crash
  }

  function Steps(code: Code, s: Subject, st: State, n: nat): State
    decreases n
  {
    if n == 0 then st else Steps(code, s, Step(code, s, st), n - 1)
  }

  ghost predicate Reaches(code: Code, s: Subject, a: State, b: State) {
    exists n: nat :: Steps(code, s, a, n) == b
  }

  lemma {:induction false} StepsCompose(code: Code, s: Subject, a: State, m: nat, n: nat)
    ensures Steps(code, s, a, m + n) == Steps(code, s, Steps(code, s, a, m), n)
    decreases m
  {
    if m > 0 {
      StepsCompose(code, s, Step(code, s, a), m - 1, n);
    }
  }

  lemma ReachesTrans(code: Code, s: Subject, a: State, b: State, c: State)
    requires Reaches(code, s, a, b)
    requires Reaches(code, s, b, c)
    ensures Reaches(code, s, a, c)
  {
    var m: nat :| Steps(code, s, a, m) == b;
    var n: nat :| Steps(code, s, b, n) == c;
    StepsCompose(code, s, a, m, n);
    assert Steps(code, s, a, m + n) == c;
  }

  lemma ReachesSelf(code: Code, s: Subject, a: State)
    ensures Reaches(code, s, a, a)
  {
    assert Steps(code, s, a, 0) == a;
  }

  lemma ReachesStep(code: Code, s: Subject, a: State)
    ensures Reaches(code, s, a, Step(code, s, a))
  {
    assert Steps(code, s, a, 1) == Steps(code, s, Step(code, s, a), 0);
  }

  /** One step followed by a run. */
  lemma ReachesNext(code: Code, s: Subject, a: State, b: State)
    requires Reaches(code, s, Step(code, s, a), b)
    ensures Reaches(code, s, a, b)
  {
    ReachesStep(code, s, a);
    ReachesTrans(code, s, a, Step(code, s, a), b);
  }

  /** The state in which a match of `s` from `i` starts: only the give-up entry on the stack. */
  function Start(i: nat): State {
    Running(0, i, Push(Entry(GIVEUP, i), Bottom))
  }
}
