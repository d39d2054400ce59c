/** Decimal text: `std::to_string`, and `std::stol` / `std::stoi` with their real bounds. */
module Decimal {
  import opened Sequences
  import opened Bytes

  const INT64_LIMIT: int := 0x8000_0000_0000_0000
  const INT32_LIMIT: int := 0x8000_0000

  type int64 = n: int | -INT64_LIMIT <= n < INT64_LIMIT

  predicate FitsInt64(n: int) { -INT64_LIMIT <= n < INT64_LIMIT }

  predicate FitsInt32(n: int) { -INT32_LIMIT <= n < INT32_LIMIT }

  predicate IsDigit(b: byte) { ZERO <= b <= NINE }

  /** `isspace` in the C locale. */
  predicate IsSpace(b: byte) { b == SPACE || TAB <= b <= CR }

  function Digits(n: nat): (s: seq<byte>)
    ensures s != [] && forall b :: b in s ==> IsDigit(b)
  {
    if n < 10 then [ZERO + n] else Digits(n / 10) + [ZERO + n % 10]
  }

  function ToString(n: int): (s: seq<byte>)
    ensures s != [] && CR !in s && LF !in s
  {
    if n < 0 then [MINUS] + Digits(-n) else Digits(n)
  }

  /** The two exceptions of the `sto*` functions are outcomes of their own. */
  datatype Conversion = Number(n: int) | InvalidArgument | RangeError

  function SkipSpaces(s: seq<byte>): seq<byte> {
    if s != [] && IsSpace(s[0]) then SkipSpaces(s[1..]) else s
  }

  /** Reads on from `acc` over the leading digits of `s` and ignores what follows them. */
  function Accumulate(s: seq<byte>, acc: nat): nat {
    if s != [] && IsDigit(s[0]) then Accumulate(s[1..], 10 * acc + (s[0] - ZERO)) else acc
  }

  /** `strtol` in base ten before its range check: spaces, an optional sign, then digits. */
  function Scan(s: seq<byte>): Conversion {
    var t := SkipSpaces(s);
    var signed := t != [] && (t[0] == MINUS || t[0] == PLUS);
    var u := if signed then t[1..] else t;
    if u == [] || !IsDigit(u[0]) then InvalidArgument
    else
      var magnitude: int := Accumulate(u, 0);
      Number(if signed && t[0] == MINUS then -magnitude else magnitude)
  }

  function Stol(s: seq<byte>): (c: Conversion)
    ensures c.Number? ==> FitsInt64(c.n)
  {
    var c := Scan(s);
    if c.Number? && !FitsInt64(c.n) then RangeError else c
  }

  function Stoi(s: seq<byte>): (c: Conversion)
    ensures c.Number? ==> FitsInt32(c.n)
  {
    var c := Scan(s);
    if c.Number? && !FitsInt32(c.n) then RangeError else c
  }

  lemma {:induction false} AccumulateDigits(n: nat, rest: seq<byte>)
    ensures Accumulate(Digits(n) + rest, 0) == Accumulate(rest, n)
  {
    if n < 10 {
      assert (Digits(n) + rest)[1..] == rest;
    } else {
      var d: byte := ZERO + n % 10;
      AccumulateDigits(n / 10, [d] + rest);
      assert Digits(n) + rest == Digits(n / 10) + ([d] + rest);
      assert ([d] + rest)[1..] == rest;
    }
  }

  lemma {:induction false} SkipSpacesOver(spaces: seq<byte>, s: seq<byte>)
    requires forall b :: b in spaces ==> IsSpace(b)
    requires s != [] && !IsSpace(s[0])
    ensures SkipSpaces(spaces + s) == s
  {
    if spaces == [] {
      assert spaces + s == s;
    } else {
      assert (spaces + s)[1..] == spaces[1..] + s;
      SkipSpacesOver(spaces[1..], s);
    }
  }

  lemma DigitsFollow(n: nat, rest: seq<byte>)
    requires rest == [] || !IsDigit(rest[0])
    ensures var s := Digits(n) + rest;
            s != [] && IsDigit(s[0]) && Accumulate(s, 0) == n
  {
    AccumulateDigits(n, rest);
    assert Digits(n)[0] in Digits(n);
  }

  /** Reading finds the printed number, whatever spaces precede it and whatever non-digit follows. */
  lemma ScanPrinted(spaces: seq<byte>, n: int, rest: seq<byte>)
    requires forall b :: b in spaces ==> IsSpace(b)
    requires rest == [] || !IsDigit(rest[0])
    ensures Scan(spaces + ToString(n) + rest) == Number(n)
  {
    var t := ToString(n) + rest;
    Associate(spaces, ToString(n), rest);
    if n < 0 {
      DigitsFollow(-n, rest);
      assert t[1..] == Digits(-n) + rest;
    } else {
      DigitsFollow(n, rest);
    }
    SkipSpacesOver(spaces, t);
  }

  /** Printing then reading gives the number back exactly when it fits; otherwise it is out of range. */
  lemma ReadPrinted(n: int)
    ensures Stol(ToString(n)) == if FitsInt64(n) then Number(n) else RangeError
    ensures Stoi(ToString(n)) == if FitsInt32(n) then Number(n) else RangeError
  {
    ScanPrinted([], n, []);
    assert [] + ToString(n) + [] == ToString(n);
  }
}
