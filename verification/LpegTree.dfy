/** The capture-free pattern trees of LPeg and their PEG meaning.

    `Match` is the reference semantics that the analyses, the code generator and
    the virtual machine are proved against; it knows nothing about any of them. */
module LpegTree {
  import opened Common

  type Byte = b: int | 0 <= b < 256

  type Charset = set<Byte>

  type Subject = seq<Byte>

  const FULLSET: Charset := set b: Byte | 0 <= b < 256

  const MAXBEHIND := 255

  datatype Tree =
    | TChar(c: Byte)
    | TSet(cs: Charset)
    | TAny
    | TTrue
    | TFalse
    | TRep(body: Tree)
    | TSeq(sib1: Tree, sib2: Tree)
    | TChoice(sib1: Tree, sib2: Tree)
    | TNot(body: Tree)
    | TAnd(body: Tree)
    | TBehind(n: nat, body: Tree)

  /** Whether the subject has a character at `i` and that character is in `cs`. */
  predicate HeadIn(s: Subject, i: nat, cs: Charset) {
    i < |s| && s[i] in cs
  }

  /** PEG matching: `Some(j)` when `t` matches at `i` and stops at `j`.
      A loop stops at an iteration that consumes nothing, which makes the meaning total. */
  function Match(t: Tree, s: Subject, i: nat): (m: Option<nat>)
    requires i <= |s|
    ensures m.Some? ==> i <= m.value <= |s|
    decreases t, |s| - i
  {
    match t
    case TChar(c) => if i < |s| && s[i] == c then Some(i + 1) else None
    case TSet(cs) => if i < |s| && s[i] in cs then Some(i + 1) else None
    case TAny => if i < |s| then Some(i + 1) else None
    case TTrue => Some(i)
    case TFalse => None
    case TRep(p) =>
      var m := Match(p, s, i);
      if m.Some? && i < m.value then Match(t, s, m.value) else Some(i)
    case TSeq(p1, p2) =>
      var m := Match(p1, s, i);
      if m.Some? then Match(p2, s, m.value) else None
    case TChoice(p1, p2) =>
      var m := Match(p1, s, i);
      if m.Some? then m else Match(p2, s, i)
    case TNot(p) => if Match(p, s, i).Some? then None else Some(i)
    case TAnd(p) => if Match(p, s, i).Some? then Some(i) else None
    case TBehind(n, p) => if n <= i && Match(p, s, i - n).Some? then Some(i) else None
  }
}
