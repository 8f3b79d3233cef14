/** Trees as the compiler stores them, one array in prefix order, and the in-place
    rotation that makes sequences and choices right associative (deps/lpeg/lptree.c). */
module LpegAssociativity {
  import opened Common
  import opened LpegTree

  datatype Tag = GChar | GSet | GAny | GTrue | GFalse | GRep | GSeq | GChoice | GNot | GAnd | GBehind

  /** A node with its tag and its second-sibling offset or counter, or four bytes of a charset. */
  datatype Cell = Cell(tag: Tag, u: int) | Bytes(cs: Charset)

  const CHARSETCELLS := 4

  function Encode(t: Tree): seq<Cell> {
    match t
    case TChar(c) => [Cell(GChar, c)]
    case TSet(cs) => [Cell(GSet, 0)] + seq(CHARSETCELLS, _ => Bytes(cs))
    case TAny => [Cell(GAny, 0)]
    case TTrue => [Cell(GTrue, 0)]
    case TFalse => [Cell(GFalse, 0)]
    case TRep(p) => [Cell(GRep, 0)] + Encode(p)
    case TSeq(p1, p2) => [Cell(GSeq, 1 + |Encode(p1)|)] + Encode(p1) + Encode(p2)
    case TChoice(p1, p2) => [Cell(GChoice, 1 + |Encode(p1)|)] + Encode(p1) + Encode(p2)
    case TNot(p) => [Cell(GNot, 0)] + Encode(p)
    case TAnd(p) => [Cell(GAnd, 0)] + Encode(p)
    case TBehind(n, p) => [Cell(GBehind, n)] + Encode(p)
  }

  predicate IsOp(t: Tree) { t.TSeq? || t.TChoice? }

  predicate SameOp(t: Tree, t1: Tree) { (t.TSeq? && t1.TSeq?) || (t.TChoice? && t1.TChoice?) }

  function MakeOp(t: Tree, p1: Tree, p2: Tree): Tree
    requires IsOp(t)
  {
    if t.TSeq? then TSeq(p1, p2) else TChoice(p1, p2)
  }

  function OpTag(t: Tree): Tag
    requires IsOp(t)
  {
    if t.TSeq? then GSeq else GChoice
  }

  /** Op (Op t11 t12) t2 => Op t11 (Op t12 t2) */
  function Rotate(t: Tree): Tree
    requires IsOp(t) && SameOp(t, t.sib1)
  {
    MakeOp(t, t.sib1.sib1, MakeOp(t, t.sib1.sib2, t.sib2))
  }

  /** Rotates until the first sibling is no longer the same operator. */
  function RightAssoc(t: Tree): Tree
    requires IsOp(t)
    decreases t.sib1
  {
    if SameOp(t, t.sib1) then RightAssoc(Rotate(t)) else t
  }

  /** The operands of a tree of one operator, from left to right. */
  function Leaves(t: Tree, op: Tree): seq<Tree>
    requires IsOp(op)
  {
    if SameOp(op, t) then Leaves(t.sib1, op) + Leaves(t.sib2, op) else [t]
  }

  /** Rotation changes the meaning of no tree. */
  lemma {:induction false} RightAssocMatches(t: Tree, s: Subject, i: nat)
    requires IsOp(t) && i <= |s|
    ensures Match(RightAssoc(t), s, i) == Match(t, s, i)
    decreases t.sib1
  {
    if SameOp(t, t.sib1) {
      RightAssocMatches(Rotate(t), s, i);
    }
  }

  /** Rotation leaves no nested operator on the left and keeps the encoded size. */
  lemma {:induction false} RightAssocShape(t: Tree)
    requires IsOp(t)
    ensures IsOp(RightAssoc(t)) && SameOp(t, RightAssoc(t)) && !SameOp(t, RightAssoc(t).sib1)
    ensures |Encode(RightAssoc(t))| == |Encode(t)|
    decreases t.sib1
  {
    hide Encode;
    if SameOp(t, t.sib1) {
      var r := Rotate(t);
      RightAssocShape(r);
      RotateCells(t);
    }
  }

  /** Rotation keeps the operands and their order. */
  lemma {:induction false} RightAssocLeaves(t: Tree)
    requires IsOp(t)
    ensures Leaves(RightAssoc(t), t) == Leaves(t, t)
    decreases t.sib1
  {
    if SameOp(t, t.sib1) {
      var r := Rotate(t);
      RightAssocLeaves(r);
      LeavesSameOp(t, RightAssoc(t), r);
      LeavesSameOp(t, r, r);
      var (t11, t12, t2) := (t.sib1.sib1, t.sib1.sib2, t.sib2);
      assert Leaves(t, t) == Leaves(t11, t) + Leaves(t12, t) + Leaves(t2, t);
      assert Leaves(r, t) == Leaves(t11, t) + (Leaves(t12, t) + Leaves(t2, t));
    }
  }

  lemma {:induction false} LeavesSameOp(op: Tree, t: Tree, op': Tree)
    requires IsOp(op) && IsOp(op') && SameOp(op, op')
    ensures Leaves(t, op) == Leaves(t, op')
  {
    if SameOp(op, t) {
      LeavesSameOp(op, t.sib1, op');
      LeavesSameOp(op, t.sib2, op');
    }
  }

  lemma {:induction false} EncodeNonEmpty(t: Tree)
    ensures |Encode(t)| >= 1
    ensures IsOp(t) ==> Encode(t)[0] == Cell(OpTag(t), 1 + |Encode(t.sib1)|)
    ensures Encode(t)[0].Cell?
    ensures Encode(t)[0].tag == GSeq <==> t.TSeq?
    ensures Encode(t)[0].tag == GChoice <==> t.TChoice?
  {}

  lemma OpEncode(t: Tree)
    requires IsOp(t)
    ensures Encode(t) == [Cell(OpTag(t), 1 + |Encode(t.sib1)|)] + Encode(t.sib1) + Encode(t.sib2)
  {}

  /** The cells of a rotated tree, spelled out. */
  lemma RotateCells(t: Tree)
    requires IsOp(t) && SameOp(t, t.sib1)
    ensures var (e11, e12, e2) := (Encode(t.sib1.sib1), Encode(t.sib1.sib2), Encode(t.sib2));
            && Encode(t) == [Cell(OpTag(t), 2 + |e11| + |e12|), Cell(OpTag(t), 1 + |e11|)] + e11 + e12 + e2
            && Encode(Rotate(t)) == [Cell(OpTag(t), 1 + |e11|)] + e11 + [Cell(OpTag(t), 1 + |e12|)] + e12 + e2
  {
    hide Encode;
    OpEncode(t);
    OpEncode(t.sib1);
    OpEncode(Rotate(t));
    OpEncode(Rotate(t).sib2);
    Regroup(Cell(OpTag(t), 1 + |Encode(t.sib1)|), Cell(OpTag(t), 1 + |Encode(t.sib1.sib1)|),
            Cell(OpTag(t), 1 + |Encode(t.sib1.sib2)|), Encode(t.sib1.sib1), Encode(t.sib1.sib2), Encode(t.sib2));
  }

  lemma Regroup(x: Cell, y: Cell, z: Cell, e11: seq<Cell>, e12: seq<Cell>, e2: seq<Cell>)
    ensures [x] + ([y] + e11 + e12) + e2 == [x, y] + e11 + e12 + e2
    ensures [y] + e11 + ([z] + e12 + e2) == [y] + e11 + [z] + e12 + e2
  {}

  /** `t` is stored at `base`. */
  predicate Stored(a: seq<Cell>, base: nat, t: Tree) {
    base + |Encode(t)| <= |a| && a[base..base + |Encode(t)|] == Encode(t)
  }

  lemma StoredAt(a: seq<Cell>, base: nat, t: Tree, j: nat)
    requires Stored(a, base, t) && j < |Encode(t)|
    ensures a[base + j] == Encode(t)[j]
  {
    assert a[base + j] == a[base..base + |Encode(t)|][j];
  }

  /** What one rotation does to the cells: t11 moves one cell down, and the cell behind it becomes the new operator. */
  lemma RotationStores(a: seq<Cell>, b: seq<Cell>, base: nat, t: Tree, n11: nat, n12: nat)
    requires IsOp(t) && SameOp(t, t.sib1) && Stored(a, base, t) && |b| == |a|
    requires n11 == |Encode(t.sib1.sib1)| && n12 == |Encode(t.sib1.sib2)|
    requires base + 2 + n11 + n12 <= |a|
    requires b[base] == Cell(OpTag(t), n11 + 1)
    requires forall j :: base + 1 <= j < base + 1 + n11 ==> b[j] == a[j + 1]
    requires b[base + n11 + 1] == Cell(OpTag(t), n12 + 1)
    requires forall j :: base + n11 + 1 < j < |a| ==> b[j] == a[j]
    ensures Stored(b, base, Rotate(t)) && |Encode(Rotate(t))| == |Encode(t)|
  {
    hide Encode;
    RotateCells(t);
    var n := |Encode(t)|;
    forall j | 0 <= j < n
      ensures b[base + j] == Encode(Rotate(t))[j]
    {
      if 1 <= j <= n11 {
        StoredAt(a, base, t, j + 1);
      } else if n11 + 1 < j {
        StoredAt(a, base, t, j);
      }
    }
    assert b[base..base + n] == Encode(Rotate(t));
  }

  /** Rotates the operator stored at `base` in place, as long as its first sibling is the same operator. */
  method CorrectAssociativity(a: array<Cell>, base: nat, ghost t: Tree)
    requires IsOp(t) && Stored(a[..], base, t)
    modifies a
    ensures Stored(a[..], base, RightAssoc(t))
    ensures |Encode(RightAssoc(t))| == |Encode(t)|
    ensures a[..base] == old(a[..base]) && a[base + |Encode(t)|..] == old(a[base + |Encode(t)|..])
  {
    hide Encode, Stored;
    ghost var n := |Encode(t)|;
    ghost var cur := t;
    OpCells(a[..], base, cur);
    while a[base + 1].tag == a[base].tag
      invariant IsOp(cur) && RightAssoc(cur) == RightAssoc(t) && |Encode(cur)| == n
      invariant base + 1 < a.Length && base + n <= a.Length && Stored(a[..], base, cur)
      invariant a[base].Cell? && a[base + 1].Cell?
      invariant a[base + 1].tag == a[base].tag <==> SameOp(cur, cur.sib1)
      invariant a[..base] == old(a[..base]) && a[base + n..] == old(a[base + n..])
      decreases cur.sib1
    {
      OpCells(a[..], base, cur);
      OpCells1(a[..], base, cur);
      ghost var before := a[..];
      var n1size := a[base].u - 1;
      var n11size := a[base + 1].u - 1;
      var n12size := n1size - n11size - 1;
      ShiftDown(a, base + 1, n11size);
      a[base] := a[base].(u := n11size + 1);
      a[base + n11size + 1] := Cell(a[base].tag, n12size + 1);
      RotationStores(before, a[..], base, cur, n11size, n12size);
      cur := Rotate(cur);
      OpCells(a[..], base, cur);
    }
    RightAssocShape(t);
  }

  /** Moves `n` cells from `at + 1` to `at`. */
  method ShiftDown(a: array<Cell>, at: nat, n: nat)
    requires at + n < a.Length
    modifies a
    ensures forall j :: at <= j < at + n ==> a[j] == old(a[j + 1])
    ensures forall j :: 0 <= j < a.Length && !(at <= j < at + n) ==> a[j] == old(a[j])
  {
    var j := at;
    while j < at + n
      invariant at <= j <= at + n
      invariant forall m :: at <= m < j ==> a[m] == old(a[m + 1])
      invariant forall m :: 0 <= m < a.Length && !(at <= m < j) ==> a[m] == old(a[m])
    {
      a[j] := a[j + 1];
      j := j + 1;
    }
  }

  /** What the first two cells of a stored operator say. */
  lemma OpCells(a: seq<Cell>, base: nat, t: Tree)
    requires IsOp(t) && Stored(a, base, t)
    ensures base + 1 < |a| && a[base] == Cell(OpTag(t), 1 + |Encode(t.sib1)|)
    ensures a[base + 1] == Encode(t.sib1)[0] && a[base + 1].Cell?
    ensures a[base + 1].tag == a[base].tag <==> SameOp(t, t.sib1)
    ensures |Encode(t)| == 1 + |Encode(t.sib1)| + |Encode(t.sib2)| && base + |Encode(t)| <= |a|
  {
    EncodeNonEmpty(t);
    EncodeNonEmpty(t.sib1);
    StoredAt(a, base, t, 0);
    StoredAt(a, base, t, 1);
  }

  /** What the second cell says when it is the same operator. */
  lemma OpCells1(a: seq<Cell>, base: nat, t: Tree)
    requires IsOp(t) && SameOp(t, t.sib1) && Stored(a, base, t)
    ensures var (n11, n12) := (|Encode(t.sib1.sib1)|, |Encode(t.sib1.sib2)|);
            base + 2 + n11 + n12 <= |a| && |Encode(t.sib1)| == 1 + n11 + n12 &&
            a[base + 1] == Cell(OpTag(t), 1 + n11)
  {
    OpCells(a, base, t);
    OpEncode(t.sib1);
  }

  // ----- The whole tree -----

  /** Every sequence and choice of the tree made right associative. */
  function Fixed(t: Tree): (r: Tree)
    ensures |Encode(r)| == |Encode(t)|
    decreases |Encode(t)|
  {
    match t
    case TSeq(_, _) =>
      RightAssocShape(t); var r := RightAssoc(t);
      OpEncode(r);
      TSeq(Fixed(r.sib1), Fixed(r.sib2))
    case TChoice(_, _) =>
      RightAssocShape(t); var r := RightAssoc(t);
      OpEncode(r);
      TChoice(Fixed(r.sib1), Fixed(r.sib2))
    case TRep(p) => TRep(Fixed(p))
    case TNot(p) => TNot(Fixed(p))
    case TAnd(p) => TAnd(Fixed(p))
    case TBehind(n, p) => TBehind(n, Fixed(p))
    case _ => t
  }

  /** The final adjustment of a pattern matches exactly what the pattern matched. */
  lemma {:induction false} FixedMatches(t: Tree, s: Subject, i: nat)
    requires i <= |s|
    ensures Match(Fixed(t), s, i) == Match(t, s, i)
    decreases |Encode(t)|, 1, |s| - i
  {
    hide Encode;
    match t
    case TSeq(_, _) =>
      var r := OpFixedMatches(t, s, i);
      var m := Match(r.sib1, s, i);
      if m.Some? {
        FixedMatches(r.sib2, s, m.value);
      }
    case TChoice(_, _) =>
      var r := OpFixedMatches(t, s, i);
      FixedMatches(r.sib2, s, i);
    case TRep(p) =>
      UnaryEncode(t);
      FixedMatches(p, s, i);
      var m := Match(p, s, i);
      if m.Some? && i < m.value {
        FixedMatches(t, s, m.value);
      }
    case TNot(p) =>
      UnaryEncode(t);
      FixedMatches(p, s, i);
    case TAnd(p) =>
      UnaryEncode(t);
      FixedMatches(p, s, i);
    case TBehind(n, p) =>
      UnaryEncode(t);
      if n <= i {
        FixedMatches(p, s, i - n);
      }
    case _ =>
  }

  lemma {:induction false} OpFixedMatches(t: Tree, s: Subject, i: nat) returns (r: Tree)
    requires IsOp(t) && i <= |s|
    ensures r == RightAssoc(t) && SameOp(t, r)
    ensures |Encode(r.sib1)| < |Encode(t)| && |Encode(r.sib2)| < |Encode(t)|
    ensures Match(r, s, i) == Match(t, s, i)
    ensures Match(Fixed(r.sib1), s, i) == Match(r.sib1, s, i)
    decreases |Encode(t)|, 0, 0
  {
    r := RightAssoc(t);
    RightAssocShape(t);
    RightAssocMatches(t, s, i);
    OpEncode(r);
    FixedMatches(r.sib1, s, i);
  }

  lemma UnaryEncode(t: Tree)
    requires t.TRep? || t.TNot? || t.TAnd? || t.TBehind?
    ensures |Encode(t)| == 1 + |Encode(t.body)|
    ensures Encode(t) == [Encode(t)[0]] + Encode(t.body)
  {}

  /** The tree stored at `base` is finally fixed in place. */
  method FinalFix(a: array<Cell>, base: nat, ghost t: Tree)
    requires Stored(a[..], base, t)
    modifies a
    ensures Stored(a[..], base, Fixed(t))
    ensures forall j :: 0 <= j < a.Length && !(base <= j < base + |Encode(t)|) ==> a[j] == old(a[j])
    decreases |Encode(t)|, 1
  {
    hide Encode, Fixed;
    TagTells(a[..], base, t);
    var tag := a[base].tag;
    if tag == GSeq || tag == GChoice {
      CorrectAssociativity(a, base, t);
      OutsideKept(old(a[..]), a[..], base, base + |Encode(t)|);
      RightAssocShape(t);
      FixSiblings(a, base, RightAssoc(t));
      FixedOp(t);
    } else if tag == GRep || tag == GNot || tag == GAnd || tag == GBehind {
      UnaryParts(a[..], base, t);
      FinalFix(a, base + 1, t.body);
      UnaryStored(old(a[..]), a[..], base, t);
    }
  }

  /** Fixes both siblings of the operator stored at `base`. */
  method FixSiblings(a: array<Cell>, base: nat, ghost r: Tree)
    requires IsOp(r) && Stored(a[..], base, r)
    modifies a
    ensures Stored(a[..], base, MakeOp(r, Fixed(r.sib1), Fixed(r.sib2)))
    ensures forall j :: 0 <= j < a.Length && !(base <= j < base + |Encode(r)|) ==> a[j] == old(a[j])
    decreases |Encode(r)|, 0
  {
    hide Encode, Fixed, Stored;
    StoredParts(a[..], base, r);
    ghost var c0 := a[..];
    var ps := a[base].u;
    FinalFix(a, base + 1, r.sib1);
    ghost var c1 := a[..];
    StoredKept(c0, c1, base + ps, r.sib2);
    FinalFix(a, base + ps, r.sib2);
    StoredKept(c1, a[..], base + 1, Fixed(r.sib1));
    OpStored(a[..], base, r, Fixed(r.sib1), Fixed(r.sib2));
  }

  lemma FixedOp(t: Tree)
    requires IsOp(t)
    ensures var r := RightAssoc(t); IsOp(r) && SameOp(t, r) && Fixed(t) == MakeOp(r, Fixed(r.sib1), Fixed(r.sib2))
  {
    RightAssocShape(t);
  }

  lemma TagTells(a: seq<Cell>, base: nat, t: Tree)
    requires Stored(a, base, t)
    ensures base < |a| && a[base].Cell?
    ensures (a[base].tag == GSeq || a[base].tag == GChoice) <==> IsOp(t)
    ensures (a[base].tag == GRep || a[base].tag == GNot || a[base].tag == GAnd || a[base].tag == GBehind) <==>
            (t.TRep? || t.TNot? || t.TAnd? || t.TBehind?)
    ensures !IsOp(t) && !(t.TRep? || t.TNot? || t.TAnd? || t.TBehind?) ==> Fixed(t) == t
  {
    EncodeNonEmpty(t);
    StoredAt(a, base, t, 0);
  }

  lemma OutsideKept(a: seq<Cell>, b: seq<Cell>, lo: nat, hi: nat)
    requires lo <= hi <= |a| == |b| && b[..lo] == a[..lo] && b[hi..] == a[hi..]
    ensures forall j :: 0 <= j < |a| && !(lo <= j < hi) ==> b[j] == a[j]
  {
    forall j | 0 <= j < |a| && !(lo <= j < hi)
      ensures b[j] == a[j]
    {
      if j < lo {
        assert b[j] == b[..lo][j];
      } else {
        assert b[j] == b[hi..][j - hi];
      }
    }
  }

  lemma StoredKept(a: seq<Cell>, b: seq<Cell>, base: nat, t: Tree)
    requires Stored(a, base, t) && |b| == |a|
    requires forall j :: base <= j < base + |Encode(t)| ==> b[j] == a[j]
    ensures Stored(b, base, t)
  {
    assert b[base..base + |Encode(t)|] == a[base..base + |Encode(t)|];
  }

  /** The siblings of a stored operator are stored behind it. */
  lemma StoredParts(a: seq<Cell>, base: nat, t: Tree)
    requires IsOp(t) && Stored(a, base, t)
    ensures base < |a| && a[base] == Cell(OpTag(t), 1 + |Encode(t.sib1)|)
    ensures Stored(a, base + 1, t.sib1) && Stored(a, base + 1 + |Encode(t.sib1)|, t.sib2)
    ensures |Encode(t)| == 1 + |Encode(t.sib1)| + |Encode(t.sib2)| && base + |Encode(t)| <= |a|
  {
    hide Encode;
    OpCells(a, base, t);
    OpEncode(t);
    var (e1, e2) := (Encode(t.sib1), Encode(t.sib2));
    forall j | 0 <= j < |e1|
      ensures a[base + 1 + j] == e1[j]
    {
      StoredAt(a, base, t, 1 + j);
    }
    forall j | 0 <= j < |e2|
      ensures a[base + 1 + |e1| + j] == e2[j]
    {
      StoredAt(a, base, t, 1 + |e1| + j);
    }
    assert a[base + 1..base + 1 + |e1|] == e1;
    assert a[base + 1 + |e1|..base + 1 + |e1| + |e2|] == e2;
  }

  lemma OpStored(a: seq<Cell>, base: nat, r: Tree, f1: Tree, f2: Tree)
    requires IsOp(r) && |Encode(f1)| == |Encode(r.sib1)|
    requires base < |a| && a[base] == Cell(OpTag(r), 1 + |Encode(f1)|)
    requires Stored(a, base + 1, f1) && Stored(a, base + 1 + |Encode(f1)|, f2)
    ensures Stored(a, base, MakeOp(r, f1, f2))
  {
    hide Encode;
    OpEncode(MakeOp(r, f1, f2));
    var (e1, e2) := (Encode(f1), Encode(f2));
    ThreeSlices(a, base, base + 1 + |e1|, base + 1 + |e1| + |e2|);
  }

  lemma ThreeSlices(a: seq<Cell>, lo: nat, mid: nat, hi: nat)
    requires lo < mid <= hi <= |a|
    ensures a[lo..hi] == [a[lo]] + a[lo + 1..mid] + a[mid..hi]
  {}

  lemma UnaryParts(a: seq<Cell>, base: nat, t: Tree)
    requires t.TRep? || t.TNot? || t.TAnd? || t.TBehind?
    requires Stored(a, base, t)
    ensures Stored(a, base + 1, t.body) && |Encode(t)| == 1 + |Encode(t.body)|
  {
    UnaryEncode(t);
    forall j | 0 <= j < |Encode(t.body)|
      ensures a[base + 1 + j] == Encode(t.body)[j]
    {
      StoredAt(a, base, t, 1 + j);
    }
    assert a[base + 1..base + 1 + |Encode(t.body)|] == Encode(t.body);
  }

  lemma UnaryFixed(t: Tree)
    requires t.TRep? || t.TNot? || t.TAnd? || t.TBehind?
    ensures |Encode(t)| > 0 && Encode(Fixed(t)) == [Encode(t)[0]] + Encode(Fixed(t.body))
  {
    UnaryEncode(Fixed(t));
  }

  lemma UnaryStored(a: seq<Cell>, b: seq<Cell>, base: nat, t: Tree)
    requires t.TRep? || t.TNot? || t.TAnd? || t.TBehind?
    requires Stored(a, base, t) && |b| == |a| && b[base] == a[base]
    requires Stored(b, base + 1, Fixed(t.body))
    ensures Stored(b, base, Fixed(t))
  {
    hide Encode, Fixed;
    UnaryFixed(t);
    StoredAt(a, base, t, 0);
    var e := Encode(Fixed(t.body));
    assert b[base..base + 1 + |e|] == [b[base]] + b[base + 1..base + 1 + |e|];
  }
}
