/** Bytes, and numbers in network byte order. */
module ByteCodes {
  type Byte = x: int | 0 <= x < 256

  /** Two bytes, most significant first. */
  function Big16(n: nat): (r: seq<Byte>)
    ensures |r| == 2
  {
    [n / 256 % 256, n % 256]
  }

  function FromBig16(s: seq<Byte>): (n: nat)
    requires |s| == 2
    ensures n < 0x1_0000
  {
    (s[0] as int) * 256 + s[1] as int
  }

  lemma Big16RoundTrip(n: nat, s: seq<Byte>)
    requires |s| == 2
    ensures FromBig16(Big16(n)) == n % 0x1_0000 && Big16(FromBig16(s)) == s
  {
    assert n % 0x1_0000 == 256 * (n / 256 % 256) + n % 256;
    assert FromBig16(s) / 256 == s[0] as int;
  }

  /** The order of byte strings: the first byte that differs decides. */
  predicate Before(s: seq<Byte>, t: seq<Byte>) {
    exists i :: 0 <= i < |s| && i < |t| && s[..i] == t[..i] && s[i] < t[i]
  }

  /** **Network byte order**: larger numbers have later bytes. There are as many numbers as byte strings, so no other code
      of two or four bytes has this property. */
  lemma Big16Order(m: nat, n: nat)
    requires m < n < 0x1_0000
    ensures Before(Big16(m), Big16(n))
  {
    var i := if m / 256 == n / 256 then 1 else 0;
    assert Big16(m)[..0] == Big16(n)[..0];
    assert i == 1 ==> Big16(m)[..1] == [m / 256 % 256] == Big16(n)[..1];
    assert Big16(m)[i] < Big16(n)[i];
  }

  lemma Big32Order(m: nat, n: nat)
    requires m < n < 0x1_0000_0000
    ensures Before(Big32(m), Big32(n))
  {
    var (s, t) := (Big32(m), Big32(n));
    var i := if m / 0x100_0000 != n / 0x100_0000 then 0 else if m / 0x1_0000 != n / 0x1_0000 then 1
             else if m / 0x100 != n / 0x100 then 2 else 3;
    SameAbove(m, n);
    assert forall j :: 0 <= j < i ==> s[..i][j] == t[..i][j];
    assert s[i] < t[i];
  }

  /** Numbers that agree above a byte are told apart by that byte or below it. */
  lemma SameAbove(m: nat, n: nat)
    requires m < n < 0x1_0000_0000
    ensures m / 0x100_0000 != n / 0x100_0000 ==> m / 0x100_0000 % 256 < n / 0x100_0000 % 256
    ensures m / 0x100_0000 == n / 0x100_0000 && m / 0x1_0000 != n / 0x1_0000 ==> m / 0x1_0000 % 256 < n / 0x1_0000 % 256
    ensures m / 0x1_0000 == n / 0x1_0000 && m / 0x100 != n / 0x100 ==> m / 0x100 % 256 < n / 0x100 % 256
    ensures m / 0x100 == n / 0x100 ==> m % 256 < n % 256
    ensures m / 0x100 == n / 0x100 ==> m / 0x1_0000 == n / 0x1_0000
    ensures m / 0x1_0000 == n / 0x1_0000 ==> m / 0x100_0000 == n / 0x100_0000
  {
    var (a, b, c) := (m / 0x100, m / 0x1_0000, m / 0x100_0000);
    var (a', b', c') := (n / 0x100, n / 0x1_0000, n / 0x100_0000);
    assert b == a / 256 && c == b / 256 && b' == a' / 256 && c' == b' / 256;
  }

  /** Four bytes, most significant first. */
  function Big32(n: nat): (r: seq<Byte>)
    ensures |r| == 4
  {
    [n / 0x100_0000 % 256, n / 0x1_0000 % 256, n / 0x100 % 256, n % 256]
  }

  function FromBig32(s: seq<Byte>): (n: nat)
    requires |s| == 4
    ensures n < 0x1_0000_0000
  {
    (s[0] as int) * 0x100_0000 + (s[1] as int) * 0x1_0000 + (s[2] as int) * 0x100 + s[3] as int
  }

  lemma Big32RoundTrip(n: nat)
    requires n < 0x1_0000_0000
    ensures FromBig32(Big32(n)) == n
  {
    var (a, b, c) := (n / 0x100, n / 0x1_0000, n / 0x100_0000);
    assert b == a / 256 && c == b / 256 && c < 256;
  }
}
