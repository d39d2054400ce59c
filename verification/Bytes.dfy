/** Bytes of the wire, with the characters the client gives a meaning to. */
module Bytes {
  type byte = b: int | 0 <= b < 256

  const TAB: byte := 9
  const LF: byte := 10
  const CR: byte := 13
  const SPACE: byte := 32
  const QUOTE: byte := 34
  const DOLLAR: byte := 36
  const STAR: byte := 42
  const PLUS: byte := 43
  const MINUS: byte := 45
  const ZERO: byte := 48
  const NINE: byte := 57
  const COLON: byte := 58

  const CRLF: seq<byte> := [CR, LF]

  /** Lexicographic order by unsigned byte, the order of `std::string` and of a byte vector. */
  predicate Before(a: seq<byte>, b: seq<byte>) {
    if b == [] then false
    else if a == [] then true
    else a[0] < b[0] || (a[0] == b[0] && Before(a[1..], b[1..]))
  }

  /** The byte order is total: of two strings exactly one precedes, unless they are the same. */
  lemma {:induction false} BeforeTotal(a: seq<byte>, b: seq<byte>)
    ensures !(Before(a, b) && Before(b, a))
    ensures a == b <==> !Before(a, b) && !Before(b, a)
  {
    if a == [] || b == [] {
    } else {
      BeforeTotal(a[1..], b[1..]);
      assert a == [a[0]] + a[1..] && b == [b[0]] + b[1..];
    }
  }

  lemma {:induction false} BeforeTransitive(a: seq<byte>, b: seq<byte>, c: seq<byte>)
    requires Before(a, b) && Before(b, c)
    ensures Before(a, c)
  {
    if a == [] || b == [] || c == [] {
    } else if a[0] == b[0] == c[0] {
      BeforeTransitive(a[1..], b[1..], c[1..]);
    }
  }

  /** The strings agree in front of position `k`; there `a` ends, or has the smaller byte. */
  predicate SmallerAt(a: seq<byte>, b: seq<byte>, k: nat) {
    k <= |a| && k < |b| && a[..k] == b[..k] && (k == |a| || a[k] < b[k])
  }

  lemma SmallerShift(a: seq<byte>, b: seq<byte>, k: nat)
    requires a != [] && b != [] && a[0] == b[0]
    ensures SmallerAt(a, b, k + 1) <==> SmallerAt(a[1..], b[1..], k)
  {
    if k < |a| && k + 1 < |b| {
      assert a[..k + 1] == [a[0]] + a[1..][..k] && b[..k + 1] == [b[0]] + b[1..][..k];
      assert a[..k + 1][1..] == a[1..][..k] && b[..k + 1][1..] == b[1..][..k];
    }
  }

  /** What the byte order means: the first byte that differs decides, and a proper prefix comes first. */
  lemma {:induction false} BeforeMeaning(a: seq<byte>, b: seq<byte>)
    ensures Before(a, b) <==> exists k :: SmallerAt(a, b, k)
  {
    if a == [] || b == [] || a[0] != b[0] {
      if Before(a, b) {
        assert SmallerAt(a, b, 0);
      }
      if k: nat :| SmallerAt(a, b, k) {
        assert k == 0 || a[..k][0] == b[..k][0];
      }
    } else {
      BeforeMeaning(a[1..], b[1..]);
      if k: nat :| SmallerAt(a[1..], b[1..], k) {
        SmallerShift(a, b, k);
      }
      if k: nat :| SmallerAt(a, b, k) {
        SmallerShift(a, b, k - 1);
      }
    }
  }

  /** The number of bytes in front of the first CR; all of them when there is none. */
  function LineEnd(s: seq<byte>): (n: nat)
    ensures n <= |s|
    ensures n < |s| ==> s[n] == CR
    ensures forall i :: 0 <= i < n ==> s[i] != CR
  {
    if s == [] || s[0] == CR then 0 else 1 + LineEnd(s[1..])
  }

  lemma LineEndIs(s: seq<byte>, n: nat)
    requires n <= |s| && (n < |s| ==> s[n] == CR)
    requires forall i :: 0 <= i < n ==> s[i] != CR
    ensures LineEnd(s) == n
  {
  }

  /** Whatever precedes and follows it, a CR-free line in front of a CR is found. */
  lemma LineEndAfter(line: seq<byte>, rest: seq<byte>)
    requires CR !in line
    requires rest != [] && rest[0] == CR
    ensures LineEnd(line + rest) == |line|
  {
    var s := line + rest;
    assert forall i :: 0 <= i < |line| ==> s[i] == line[i] && line[i] in line;
    LineEndIs(s, |line|);
  }
}
