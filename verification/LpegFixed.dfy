/** The final adjustment of a pattern (deps/lpeg/lptree.c, `finalfix`) changes nothing that the compiler relies on. */
module LpegFixed {
  import opened Common
  import opened LpegTree
  import opened LpegAnalysis
  import opened LpegCodegen
  import opened LpegCorrectness
  import opened LpegAssociativity

  // ----- The analyses -----

  /** The analyses other than the first set agree. */
  ghost predicate Alike(t: Tree, r: Tree) {
    && (forall pred :: CheckAux(t, pred) == CheckAux(r, pred)) && (forall n: nat :: FixedLenX(t, n) == FixedLenX(r, n))
    && HeadFail(t) == HeadFail(r) && NeedFollow(t) == NeedFollow(r) && ToCharset(t) == ToCharset(r) && t.TTrue? == r.TTrue?
  }

  lemma {:induction false} RotateAlike(t: Tree, fl: Charset)
    requires IsOp(t) && SameOp(t, t.sib1)
    ensures Alike(t, Rotate(t)) && GetFirst(t, fl) == GetFirst(Rotate(t), fl)
  {
    hide FixedLenX, GetFirst, CheckAux, HeadFail;
    var (a, b, c) := (t.sib1.sib1, t.sib1.sib2, t.sib2);
    var r := Rotate(t);
    assert if t.TSeq? then t == TSeq(TSeq(a, b), c) && r == TSeq(a, TSeq(b, c))
           else t == TChoice(TChoice(a, b), c) && r == TChoice(a, TChoice(b, c));
    RotateFirst(a, b, c, fl);
    forall pred ensures CheckAux(t, pred) == CheckAux(r, pred) { RotateCheck(a, b, c, pred); }
    forall n: nat ensures FixedLenX(t, n) == FixedLenX(r, n) { RotateLen(a, b, c, n); }
    RotateHead(a, b, c);
    assert HeadFail(t) == HeadFail(r) && NeedFollow(t) == NeedFollow(r) && ToCharset(t) == ToCharset(r);
  }

  lemma {:induction false} RotateCheck(a: Tree, b: Tree, c: Tree, pred: Property)
    ensures CheckAux(TSeq(TSeq(a, b), c), pred) == CheckAux(TSeq(a, TSeq(b, c)), pred)
    ensures CheckAux(TChoice(TChoice(a, b), c), pred) == CheckAux(TChoice(a, TChoice(b, c)), pred)
  {}

  lemma {:induction false} RotateLen(a: Tree, b: Tree, c: Tree, n: nat)
    ensures FixedLenX(TSeq(TSeq(a, b), c), n) == FixedLenX(TSeq(a, TSeq(b, c)), n)
    ensures FixedLenX(TChoice(TChoice(a, b), c), n) == FixedLenX(TChoice(a, TChoice(b, c)), n)
  {}

  lemma {:induction false} RotateHead(a: Tree, b: Tree, c: Tree)
    ensures HeadFail(TSeq(TSeq(a, b), c)) == HeadFail(TSeq(a, TSeq(b, c)))
    ensures HeadFail(TChoice(TChoice(a, b), c)) == HeadFail(TChoice(a, TChoice(b, c)))
  {}

  lemma {:induction false} RotateFirst(a: Tree, b: Tree, c: Tree, fl: Charset)
    ensures GetFirst(TSeq(TSeq(a, b), c), fl) == GetFirst(TSeq(a, TSeq(b, c)), fl)
    ensures GetFirst(TChoice(TChoice(a, b), c), fl) == GetFirst(TChoice(a, TChoice(b, c)), fl)
  {}

  lemma {:induction false} RightAssocAlike(t: Tree, fl: Charset)
    requires IsOp(t)
    ensures Alike(t, RightAssoc(t)) && GetFirst(t, fl) == GetFirst(RightAssoc(t), fl)
    decreases t.sib1
  {
    hide Alike, GetFirst;
    if SameOp(t, t.sib1) {
      RotateAlike(t, fl);
      RightAssocAlike(Rotate(t), fl);
      AlikeTrans(t, Rotate(t), RightAssoc(t));
    } else {
      AlikeSelf(t);
    }
  }

  lemma {:induction false} AlikeTrans(t: Tree, r: Tree, u: Tree)
    requires Alike(t, r) && Alike(r, u)
    ensures Alike(t, u)
  {
    hide CheckAux, FixedLenX;
  }

  lemma {:induction false} AlikeSelf(t: Tree)
    ensures Alike(t, t)
  {}

  /** Operators of operands that agree. */
  lemma {:induction false} OpAlike(r: Tree, f1: Tree, f2: Tree, fl: Charset)
    requires IsOp(r) && Alike(r.sib1, f1) && Alike(r.sib2, f2)
    requires GetFirst(r.sib1, fl) == GetFirst(f1, fl) && GetFirst(r.sib2, fl) == GetFirst(f2, fl)
    requires GetFirst(r.sib1, FULLSET) == GetFirst(f1, FULLSET)
    requires GetFirst(r.sib1, GetFirst(r.sib2, fl).cs) == GetFirst(f1, GetFirst(r.sib2, fl).cs)
    ensures Alike(r, MakeOp(r, f1, f2)) && GetFirst(r, fl) == GetFirst(MakeOp(r, f1, f2), fl)
  {
    hide FixedLenX;
    var q := MakeOp(r, f1, f2);
    forall n: nat ensures FixedLenX(r, n) == FixedLenX(q, n) { OpLen(r, f1, f2, n); }
    assert forall pred :: CheckAux(r, pred) == CheckAux(q, pred);
    assert HeadFail(r) == HeadFail(q) && NeedFollow(r) == NeedFollow(q);
  }

  lemma {:induction false} OpLen(r: Tree, f1: Tree, f2: Tree, n: nat)
    requires IsOp(r) && Alike(r.sib1, f1) && Alike(r.sib2, f2)
    ensures FixedLenX(r, n) == FixedLenX(MakeOp(r, f1, f2), n)
  {
    hide CheckAux, HeadFail, NeedFollow;
  }

  function MakeUnary(t: Tree, f: Tree): Tree
    requires t.TRep? || t.TNot? || t.TAnd? || t.TBehind?
  {
    if t.TRep? then TRep(f) else if t.TNot? then TNot(f) else if t.TAnd? then TAnd(f) else TBehind(t.n, f)
  }

  lemma {:induction false} UnaryAlike(t: Tree, f: Tree, fl: Charset)
    requires (t.TRep? || t.TNot? || t.TAnd? || t.TBehind?) && Alike(t.body, f) && GetFirst(t.body, fl) == GetFirst(f, fl)
    ensures Alike(t, MakeUnary(t, f)) && GetFirst(t, fl) == GetFirst(MakeUnary(t, f), fl)
  {
    var r := MakeUnary(t, f);
    assert forall n: nat :: FixedLenX(t, n) == FixedLenX(r, n);
    assert forall pred :: CheckAux(t, pred) == CheckAux(r, pred);
    assert HeadFail(t) == HeadFail(r);
    assert NeedFollow(t) == NeedFollow(r);
  }

  /** All analyses agree on the adjusted tree. */
  lemma {:induction false} FixedAlike(t: Tree, fl: Charset)
    ensures Alike(t, Fixed(t)) && GetFirst(t, fl) == GetFirst(Fixed(t), fl)
    decreases |Encode(t)|
  {
    hide Alike, GetFirst, Encode;
    if IsOp(t) {
      var r := RightAssoc(t);
      Smaller(t);
      RightAssocAlike(t, fl);
      FixedAlike(r.sib1, fl);
      FixedAlike(r.sib1, FULLSET);
      FixedAlike(r.sib1, GetFirst(r.sib2, fl).cs);
      FixedAlike(r.sib2, fl);
      OpAlike(r, Fixed(r.sib1), Fixed(r.sib2), fl);
      AlikeTrans(t, r, Fixed(t));
    } else if t.TRep? || t.TNot? || t.TAnd? || t.TBehind? {
      UnaryEncode(t);
      FixedAlike(t.body, fl);
      UnaryAlike(t, Fixed(t.body), fl);
    } else {
      AlikeSelf(t);
    }
  }

  lemma {:induction false} Smaller(t: Tree)
    requires IsOp(t)
    ensures var r := RightAssoc(t);
            && IsOp(r) && SameOp(t, r) && |Encode(r)| == |Encode(t)| && |Encode(r.sib1)| < |Encode(t)| && |Encode(r.sib2)| < |Encode(t)|
            && Fixed(t) == MakeOp(r, Fixed(r.sib1), Fixed(r.sib2))
  {
    RightAssocShape(t);
    OpEncode(RightAssoc(t));
  }

  // ----- Well-formedness -----

  lemma {:induction false} RightAssocWellFormed(t: Tree)
    requires IsOp(t) && WellFormed(t)
    ensures WellFormed(RightAssoc(t))
    decreases t.sib1
  {
    if SameOp(t, t.sib1) {
      RightAssocWellFormed(Rotate(t));
    }
  }

  lemma {:induction false} FixedWellFormed(t: Tree)
    requires WellFormed(t)
    ensures WellFormed(Fixed(t))
    decreases |Encode(t)|
  {
    hide Encode;
    if IsOp(t) {
      var r := RightAssoc(t);
      Smaller(t);
      RightAssocWellFormed(t);
      FixedWellFormed(r.sib1);
      FixedWellFormed(r.sib2);
    } else if t.TRep? || t.TNot? || t.TAnd? || t.TBehind? {
      UnaryEncode(t);
      FixedWellFormed(t.body);
      FixedAlike(t.body, FULLSET);
    }
  }

  // ----- The condition on `opt` -----

  /** A smaller follow set gives a smaller first set. */
  lemma {:induction false} FirstMono(t: Tree, fl: Charset, fl': Charset)
    requires fl' <= fl
    ensures GetFirst(t, fl').cs <= GetFirst(t, fl).cs && GetFirst(t, fl').e == GetFirst(t, fl).e
    decreases t
  {
    match t
    case TSeq(p1, p2) =>
      FirstMono(p2, fl, fl');
      FirstMono(p1, GetFirst(p2, fl).cs, GetFirst(p2, fl').cs);
    case TChoice(p1, p2) =>
      FirstMono(p1, fl, fl');
      FirstMono(p2, fl, fl');
    case TRep(p) => FirstMono(p, fl, fl');
    case TAnd(p) => FirstMono(p, fl, fl');
    case _ =>
  }

  /** What follows a pattern that is not nullable is not in its first set. */
  lemma {:induction false} FirstFixed(t: Tree, fl: Charset, fl': Charset)
    requires !Nullable(t)
    ensures GetFirst(t, fl) == GetFirst(t, fl')
    decreases t
  {
    match t
    case TSeq(p1, p2) =>
      if Nullable(p1) {
        FirstFixed(p2, fl, fl');
      }
    case TChoice(p1, p2) =>
      FirstFixed(p1, fl, fl');
      FirstFixed(p2, fl, fl');
    case _ =>
  }

  lemma {:induction false} AllBytes(fl: Charset)
    ensures fl <= FULLSET
  {}

  lemma {:induction false} TestMono(p1: Tree, p2: Tree, fl: Charset, fl': Charset)
    requires TestChoice(p1, p2, fl) && fl' <= fl
    ensures TestChoice(p1, p2, fl')
  {
    FirstMono(p2, fl, fl');
  }

  /** Code that may use `opt` has a full follow set, so a smaller follow set or no `opt` is as safe. */
  lemma {:induction false} SafeDown(t: Tree, opt: bool, fl: Charset, opt': bool, fl': Charset)
    requires OptSafe(t, opt, fl) && fl' <= fl && (opt' ==> opt && fl' == fl)
    ensures OptSafe(t, opt', fl')
    decreases t
  {
    hide GetFirst, TestRep, TestChoice, NeedFollow, UsesOpt;
    AllBytes(fl');
    match t
    case TChoice(p1, p2) =>
      if TestChoice(p1, p2, fl) {
        TestMono(p1, p2, fl, fl');
        SafeDown(p1, false, fl, false, fl');
        SafeDown(p2, opt, fl, opt', fl');
      } else {
        if TestChoice(p1, p2, fl') {
          SafeDown(p1, p2.TTrue?, FULLSET, false, fl');
        }
        if !p2.TTrue? {
          SafeDown(p2, opt, fl, opt', fl');
        }
      }
    case TSeq(p1, p2) =>
      FirstMono(p2, fl, fl');
      if NeedFollow(p1) {
        SafeDown(p1, false, GetFirst(p2, fl).cs, false, GetFirst(p2, fl').cs);
      }
      SafeDown(p2, opt, fl, opt', fl');
    case _ =>
  }

  lemma {:induction false} SeqRotateSafe(a: Tree, b: Tree, c: Tree, opt: bool, fl: Charset)
    requires OptSafe(TSeq(TSeq(a, b), c), opt, fl)
    ensures OptSafe(TSeq(a, TSeq(b, c)), opt, fl)
    ensures !UsesOpt(TSeq(TSeq(a, b), c), fl) ==> !UsesOpt(TSeq(a, TSeq(b, c)), fl)
  {
    hide UsesOpt;
    var f1 := if NeedFollow(b) then GetFirst(c, fl).cs else FULLSET;
    AllBytes(GetFirst(c, fl).cs);
    if Nullable(b) {
      FirstMono(b, f1, GetFirst(c, fl).cs);
    } else {
      FirstFixed(b, FULLSET, f1);
    }
    if NeedFollow(a) {
      SafeDown(a, false, GetFirst(b, f1).cs, false, GetFirst(TSeq(b, c), fl).cs);
    }
    SeqUses(a, b, c, fl);
  }

  lemma {:induction false} SeqUses(a: Tree, b: Tree, c: Tree, fl: Charset)
    ensures UsesOpt(TSeq(TSeq(a, b), c), fl) == UsesOpt(TSeq(a, TSeq(b, c)), fl)
  {}

  /** The tests of both alternatives. */
  lemma {:induction false} ChoiceTests(a: Tree, b: Tree, c: Tree, fl: Charset)
    ensures TestChoice(TChoice(a, b), c, fl) ==> TestChoice(b, c, fl)
    ensures TestChoice(TChoice(a, b), c, fl) && TestChoice(a, b, fl) ==> TestChoice(a, TChoice(b, c), fl)
  {}

  lemma {:induction false} ChoiceRotateSafe(a: Tree, b: Tree, c: Tree, opt: bool, fl: Charset)
    requires OptSafe(TChoice(TChoice(a, b), c), opt, fl) && (opt ==> fl == FULLSET)
    ensures OptSafe(TChoice(a, TChoice(b, c)), opt, fl)
    ensures !UsesOpt(TChoice(TChoice(a, b), c), fl) ==> !UsesOpt(TChoice(a, TChoice(b, c)), fl)
  {
    hide GetFirst, TestRep, TestChoice, NeedFollow, UsesOpt;
    ChoiceTests(a, b, c, fl);
    ChoiceUses(a, b, c, fl);
    AllBytes(fl);
    var ab := TChoice(a, b);
    if TestChoice(ab, c, fl) {
      if TestChoice(a, b, fl) {
      } else {
        SafeDown(a, b.TTrue?, FULLSET, false, fl);
        SafeDown(a, b.TTrue?, FULLSET, false, FULLSET);
      }
    } else {
      assert OptSafe(ab, c.TTrue?, FULLSET);
      if TestChoice(a, b, FULLSET) {
        SafeDown(a, false, FULLSET, false, fl);
      } else if c.TTrue? && b.TTrue? {
        SafeDown(a, true, FULLSET, false, fl);
        SafeDown(a, true, FULLSET, false, FULLSET);
      } else {
        SafeDown(a, b.TTrue?, FULLSET, false, fl);
        SafeDown(a, b.TTrue?, FULLSET, false, FULLSET);
      }
      if !b.TTrue? {
        SafeDown(b, c.TTrue?, FULLSET, false, fl);
      }
      assert OptSafe(b, c.TTrue?, FULLSET) && OptSafe(b, false, fl);
      assert OptSafe(c, opt, fl);
      assert OptSafe(TChoice(b, c), opt, fl);
    }
  }

  lemma {:induction false} ChoiceUses(a: Tree, b: Tree, c: Tree, fl: Charset)
    ensures !UsesOpt(TChoice(TChoice(a, b), c), fl) ==> !UsesOpt(TChoice(a, TChoice(b, c)), fl)
  {
    hide TestChoice;
    ChoiceTests(a, b, c, fl);
  }

  lemma {:induction false} RightAssocSafe(t: Tree, opt: bool, fl: Charset)
    requires IsOp(t) && OptSafe(t, opt, fl) && (opt ==> fl == FULLSET)
    ensures OptSafe(RightAssoc(t), opt, fl) && (!UsesOpt(t, fl) ==> !UsesOpt(RightAssoc(t), fl))
    decreases t.sib1
  {
    hide OptSafe, UsesOpt;
    if SameOp(t, t.sib1) {
      if t.TSeq? {
        SeqRotateSafe(t.sib1.sib1, t.sib1.sib2, t.sib2, opt, fl);
      } else {
        ChoiceRotateSafe(t.sib1.sib1, t.sib1.sib2, t.sib2, opt, fl);
      }
      RightAssocSafe(Rotate(t), opt, fl);
    }
  }

  lemma {:induction false} TestsAlike(p1: Tree, p2: Tree, fl: Charset)
    ensures TestChoice(Fixed(p1), Fixed(p2), fl) == TestChoice(p1, p2, fl)
    ensures TestRep(Fixed(p1), fl) == TestRep(p1, fl)
    ensures Fixed(p2).TTrue? == p2.TTrue? && ToCharset(Fixed(p1)) == ToCharset(p1)
    ensures NeedFollow(Fixed(p1)) == NeedFollow(p1) && GetFirst(Fixed(p2), fl) == GetFirst(p2, fl)
  {
    hide GetFirst, CheckAux, FixedLenX, HeadFail, NeedFollow, Fixed;
    FixedAlike(p1, FULLSET);
    FixedAlike(p2, fl);
  }

  /** **The adjusted tree is as safe**: no test-coded loop appears under `opt` whose body uses it. */
  lemma {:induction false} FixedSafe(t: Tree, opt: bool, fl: Charset)
    requires OptSafe(t, opt, fl) && (opt ==> fl == FULLSET)
    ensures OptSafe(Fixed(t), opt, fl) && (!UsesOpt(t, fl) ==> !UsesOpt(Fixed(t), fl))
    decreases |Encode(t)|, 1
  {
    hide Encode, TestChoice, TestRep, GetFirst, NeedFollow, RightAssoc, ToCharset;
    if IsOp(t) {
      Smaller(t);
      RightAssocSafe(t, opt, fl);
      if t.TSeq? {
        SeqFixedSafe(RightAssoc(t), opt, fl);
      } else {
        ChoiceFixedSafe(RightAssoc(t), opt, fl);
      }
    } else if t.TRep? || t.TNot? || t.TAnd? || t.TBehind? {
      UnaryEncode(t);
      FixedSafe(t.body, false, FULLSET);
      TestsAlike(t.body, t.body, fl);
    }
  }

  lemma {:induction false} SeqFixedSafe(r: Tree, opt: bool, fl: Charset)
    requires r.TSeq? && OptSafe(r, opt, fl) && (opt ==> fl == FULLSET)
    ensures var f := TSeq(Fixed(r.sib1), Fixed(r.sib2)); OptSafe(f, opt, fl) && (!UsesOpt(r, fl) ==> !UsesOpt(f, fl))
    decreases |Encode(r)|, 0
  {
    hide Encode, TestChoice, TestRep, GetFirst, NeedFollow, RightAssoc, ToCharset, Fixed;
    OpEncode(r);
    TestsAlike(r.sib1, r.sib2, fl);
    FixedSafe(r.sib1, false, if NeedFollow(r.sib1) then GetFirst(r.sib2, fl).cs else FULLSET);
    FixedSafe(r.sib2, opt, fl);
  }

  lemma {:induction false} ChoiceFixedSafe(r: Tree, opt: bool, fl: Charset)
    requires r.TChoice? && OptSafe(r, opt, fl) && (opt ==> fl == FULLSET)
    ensures var f := TChoice(Fixed(r.sib1), Fixed(r.sib2)); OptSafe(f, opt, fl) && (!UsesOpt(r, fl) ==> !UsesOpt(f, fl))
    decreases |Encode(r)|, 0
  {
    hide Encode, TestChoice, TestRep, GetFirst, NeedFollow, RightAssoc, ToCharset, Fixed;
    OpEncode(r);
    var (p1, p2) := (r.sib1, r.sib2);
    TestsAlike(p1, p2, fl);
    if TestChoice(p1, p2, fl) {
      FixedSafe(p1, false, fl);
    } else {
      FixedSafe(p1, p2.TTrue?, FULLSET);
    }
    if TestChoice(p1, p2, fl) || !p2.TTrue? {
      FixedSafe(p2, opt, fl);
    } else {
      FixedTrue(p2, opt, fl);
    }
  }

  lemma {:induction false} FixedTrue(t: Tree, opt: bool, fl: Charset)
    requires t.TTrue?
    ensures Fixed(t) == t && OptSafe(t, opt, fl) && !UsesOpt(t, fl)
  {}
}
