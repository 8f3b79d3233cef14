/** The static analyses of the LPeg compiler (deps/lpeg/lpcode.c) and their
    soundness with respect to PEG matching. */
module LpegAnalysis {
  import opened Common
  import opened LpegTree

  datatype Property = PEnullable | PEnofail

  function CheckAux(t: Tree, pred: Property): bool {
    match t
    case TChar(_) | TSet(_) | TAny | TFalse => false
    case TRep(_) | TTrue => true
    case TNot(_) | TBehind(_, _) => pred.PEnullable?
    case TAnd(p) => if pred.PEnullable? then true else CheckAux(p, pred)
    case TSeq(p1, p2) => if !CheckAux(p1, pred) then false else CheckAux(p2, pred)
    case TChoice(p1, p2) => if CheckAux(p2, pred) then true else CheckAux(p1, pred)
  }

  predicate Nullable(t: Tree) { CheckAux(t, PEnullable) }

  predicate NoFail(t: Tree) { CheckAux(t, PEnofail) }

  /** Length consumed by `t` plus `len`, or -1 when it varies. */
  function FixedLenX(t: Tree, len: nat): (r: int)
    ensures r >= -1
  {
    match t
    case TChar(_) | TSet(_) | TAny => len + 1
    case TFalse | TTrue | TNot(_) | TAnd(_) | TBehind(_, _) => len
    case TRep(_) => -1
    case TSeq(p1, p2) =>
      var len1 := FixedLenX(p1, len);
      if len1 < 0 then -1 else FixedLenX(p2, len1)
    case TChoice(p1, p2) =>
      var n1 := FixedLenX(p1, len);
      if n1 < 0 then -1
      else
        var n2 := FixedLenX(p2, len);
        if n1 == n2 then n1 else -1
  }

  function FixedLen(t: Tree): int { FixedLenX(t, 0) }

  /** The charset of a single-character pattern. */
  function ToCharset(t: Tree): Option<Charset> {
    match t
    case TSet(cs) => Some(cs)
    case TChar(c) => Some({c})
    case TAny => Some(FULLSET)
    case _ => None
  }

  /** What `getfirst` computes: whether the pattern may accept the empty subject, and its first set. */
  datatype First = First(e: bool, cs: Charset)

  function GetFirst(t: Tree, follow: Charset): First {
    match t
    case TChar(_) | TSet(_) | TAny => First(false, ToCharset(t).value)
    case TTrue => First(true, follow)
    case TFalse => First(false, {})
    case TChoice(p1, p2) =>
      var f1 := GetFirst(p1, follow);
      var f2 := GetFirst(p2, follow);
      First(f1.e || f2.e, f1.cs + f2.cs)
    case TSeq(p1, p2) =>
      if !Nullable(p1) then GetFirst(p1, FULLSET)
      else
        var f2 := GetFirst(p2, follow);
        var f1 := GetFirst(p1, f2.cs);
        First(if !f1.e then false else f2.e, f1.cs)
    case TRep(p) => First(true, GetFirst(p, follow).cs + follow)
    case TAnd(p) =>
      var f := GetFirst(p, follow);
      First(f.e, f.cs * follow)
    case TNot(p) =>
      if ToCharset(p).Some? then First(true, FULLSET - ToCharset(p).value)
      else First(true, follow)
    case TBehind(_, _) => First(true, follow)
  }

  function HeadFail(t: Tree): bool {
    match t
    case TChar(_) | TSet(_) | TAny | TFalse => true
    case TTrue | TRep(_) | TNot(_) | TBehind(_, _) => false
    case TAnd(p) => HeadFail(p)
    case TSeq(p1, p2) => if !NoFail(p2) then false else HeadFail(p1)
    case TChoice(p1, p2) => if !HeadFail(p1) then false else HeadFail(p2)
  }

  function NeedFollow(t: Tree): bool {
    match t
    case TChoice(_, _) | TRep(_) => true
    case TSeq(_, p2) => NeedFollow(p2)
    case _ => false
  }

  /** What the pattern constructors guarantee about every tree they build: loop bodies
      are not nullable and a look-behind records the fixed length of its body. */
  predicate WellFormed(t: Tree) {
    match t
    case TRep(p) => !Nullable(p) && WellFormed(p)
    case TSeq(p1, p2) => WellFormed(p1) && WellFormed(p2)
    case TChoice(p1, p2) => WellFormed(p1) && WellFormed(p2)
    case TNot(p) => WellFormed(p)
    case TAnd(p) => WellFormed(p)
    case TBehind(n, p) => FixedLen(p) == n && 0 < n <= MAXBEHIND && WellFormed(p)
    case _ => true
  }

  /** A pattern that matches the empty string somewhere is nullable. */
  lemma {:induction false} NullableSound(t: Tree, s: Subject, i: nat)
    requires i <= |s|
    requires Match(t, s, i) == Some(i)
    ensures Nullable(t)
  {
    match t
    case TSeq(p1, p2) =>
      NullableSound(p1, s, i);
      NullableSound(p2, s, i);
    case TChoice(p1, p2) =>
      if Match(p1, s, i).Some? {
        NullableSound(p1, s, i);
      } else {
        NullableSound(p2, s, i);
      }
    case _ =>
  }

  /** A `nofail` pattern matches at every position of every subject. */
  lemma {:induction false} NoFailSound(t: Tree, s: Subject, i: nat)
    requires i <= |s|
    requires NoFail(t)
    ensures Match(t, s, i).Some?
    decreases t, |s| - i
  {
    match t
    case TRep(p) => RepMatches(p, s, i);
    case TAnd(p) => NoFailSound(p, s, i);
    case TSeq(p1, p2) =>
      NoFailSound(p1, s, i);
      NoFailSound(p2, s, Match(p1, s, i).value);
    case TChoice(p1, p2) =>
      if NoFail(p1) {
        NoFailSound(p1, s, i);
      } else {
        NoFailSound(p2, s, i);
      }
    case _ =>
  }

  lemma {:induction false} RepMatches(p: Tree, s: Subject, i: nat)
    requires i <= |s|
    ensures Match(TRep(p), s, i).Some?
    decreases |s| - i
  {
    var m := Match(p, s, i);
    if m.Some? && i < m.value {
      RepMatches(p, s, m.value);
    }
  }

  /** The accumulator of `fixedlenx` only shifts the result. */
  lemma {:induction false} FixedLenXShift(t: Tree, len: nat)
    ensures FixedLenX(t, len) == if FixedLen(t) < 0 then -1 else len + FixedLen(t)
  {
    match t
    case TSeq(p1, p2) =>
      FixedLenXShift(p1, len);
      if FixedLen(p1) >= 0 {
        FixedLenXShift(p2, FixedLenX(p1, len));
        FixedLenXShift(p2, FixedLen(p1));
      }
    case TChoice(p1, p2) =>
      FixedLenXShift(p1, len);
      FixedLenXShift(p2, len);
    case _ =>
  }

  /** A fixed length is the exact length every match consumes. */
  lemma {:induction false} FixedLenSound(t: Tree, s: Subject, i: nat)
    requires i <= |s|
    requires FixedLen(t) >= 0
    ensures Match(t, s, i).Some? ==> Match(t, s, i).value == i + FixedLen(t)
  {
    match t
    case TSeq(p1, p2) =>
      FixedLenXShift(p2, FixedLen(p1));
      FixedLenSound(p1, s, i);
      if Match(p1, s, i).Some? {
        FixedLenSound(p2, s, Match(p1, s, i).value);
      }
    case TChoice(p1, p2) =>
      FixedLenSound(p1, s, i);
      FixedLenSound(p2, s, i);
    case _ =>
  }

  /** The promise of `getfirst`: a match on character `a` that consumes something, or that is
      followed by a character of `follow`, starts with a character of the first set. */
  lemma {:induction false} FirstSound(t: Tree, follow: Charset, s: Subject, i: nat)
    requires i < |s|
    requires Match(t, s, i).Some?
    requires i < Match(t, s, i).value || s[i] in follow
    ensures s[i] in GetFirst(t, follow).cs
  {
    match t
    case TChoice(p1, p2) =>
      if Match(p1, s, i).Some? {
        FirstSound(p1, follow, s, i);
      } else {
        FirstSound(p2, follow, s, i);
      }
    case TSeq(p1, p2) =>
      var j := Match(p1, s, i).value;
      if !Nullable(p1) {
        if j == i {
          NullableSound(p1, s, i);
        }
        FirstSound(p1, FULLSET, s, i);
      } else {
        if j == i {
          FirstSound(p2, follow, s, i);
        }
        FirstSound(p1, GetFirst(p2, follow).cs, s, i);
      }
    case TRep(p) =>
      if Match(p, s, i).Some? && i < Match(p, s, i).value {
        FirstSound(p, follow, s, i);
      }
    case TAnd(p) => FirstSound(p, follow, s, i);
    case TNot(p) =>
    case _ =>
  }

  /** When `getfirst` answers 0 the pattern fails at the end of the subject. */
  lemma {:induction false} FirstRejectsEnd(t: Tree, follow: Charset, s: Subject)
    requires !GetFirst(t, follow).e
    ensures Match(t, s, |s|).None?
  {
    match t
    case TChoice(p1, p2) =>
      FirstRejectsEnd(p1, follow, s);
      FirstRejectsEnd(p2, follow, s);
    case TSeq(p1, p2) =>
      if !Nullable(p1) {
        FirstRejectsEnd(p1, FULLSET, s);
      } else if !GetFirst(p1, GetFirst(p2, follow).cs).e {
        FirstRejectsEnd(p1, GetFirst(p2, follow).cs, s);
      } else {
        FirstRejectsEnd(p2, follow, s);
      }
    case TAnd(p) => FirstRejectsEnd(p, follow, s);
    case _ =>
  }

  /** A `nofail` pattern can start with any character. */
  lemma NoFailFirstIsFull(t: Tree)
    requires NoFail(t)
    ensures GetFirst(t, FULLSET).cs == FULLSET
  {
    forall a: Byte
      ensures a in GetFirst(t, FULLSET).cs
    {
      NoFailSound(t, [a], 0);
      FirstSound(t, FULLSET, [a], 0);
    }
  }

  /** A `headfail` pattern matches exactly when the next character exists and is in its first set. */
  lemma {:induction false} HeadFailExact(t: Tree, s: Subject, i: nat)
    requires i <= |s|
    requires HeadFail(t)
    ensures Match(t, s, i).Some? <==> HeadIn(s, i, GetFirst(t, FULLSET).cs)
  {
    match t
    case TAnd(p) => HeadFailExact(p, s, i);
    case TChoice(p1, p2) =>
      HeadFailExact(p1, s, i);
      HeadFailExact(p2, s, i);
    case TSeq(p1, p2) =>
      HeadFailExact(p1, s, i);
      NoFailFirstIsFull(p2);
      if Match(p1, s, i).Some? {
        NoFailSound(p2, s, Match(p1, s, i).value);
      }
    case _ =>
  }

  /** A pattern whose first set is used as a test fails whenever the test fails. */
  lemma TestExcludesMatch(t: Tree, s: Subject, i: nat)
    requires i <= |s|
    requires !GetFirst(t, FULLSET).e || HeadFail(t)
    requires !HeadIn(s, i, GetFirst(t, FULLSET).cs)
    ensures Match(t, s, i).None?
  {
    if HeadFail(t) {
      HeadFailExact(t, s, i);
    } else if i == |s| {
      FirstRejectsEnd(t, FULLSET, s);
    } else if Match(t, s, i).Some? {
      FirstSound(t, FULLSET, s, i);
    }
  }
}
