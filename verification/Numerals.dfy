/** What decimal text means, written out apart from the code that reads and prints it. */
module Numerals {
  import opened Sequences
  import opened Bytes
  import opened Decimal

  predicate Blank(b: byte) { b == ' ' as int || '\t' as int <= b <= '\r' as int }

  predicate Digit(b: byte) { '0' as int <= b <= '9' as int }

  /** The number that a row of digits stands for, each worth ten times the one behind it. */
  function Worth(digits: seq<byte>): nat
    requires forall b :: b in digits ==> Digit(b)
  {
    if digits == [] then 0
    else
      var last: int := digits[|digits| - 1];
      assert Digit(digits[|digits| - 1]);
      10 * Worth(digits[..|digits| - 1]) + (last - '0' as int)
  }

  /** Blanks, a sign or none, and digits. */
  datatype Numeral = Numeral(blanks: seq<byte>, sign: seq<byte>, digits: seq<byte>) {
    predicate Valid() {
      && (forall b :: b in blanks ==> Blank(b))
      && (sign == [] || sign == ['+' as int] || sign == ['-' as int])
      && digits != [] && forall b :: b in digits ==> Digit(b)
    }

    function Text(): seq<byte> { blanks + (sign + digits) }

    function Value(): int
      requires Valid()
    {
      var worth: int := Worth(digits);
      if sign == ['-' as int] then -worth else worth
    }
  }

  /** The text is the numeral and something behind it that does not go on with a digit. */
  predicate Spells(s: seq<byte>, numeral: Numeral) {
    numeral.Valid() && numeral.Text() <= s &&
    (|numeral.Text()| < |s| ==> !Digit(s[|numeral.Text()|]))
  }

  // ---- Reading ----

  lemma {:induction false} AccumulateWorth(digits: seq<byte>, rest: seq<byte>)
    requires forall b :: b in digits ==> Digit(b)
    ensures Accumulate(digits + rest, 0) == Accumulate(rest, Worth(digits))
  {
    if digits == [] {
      assert digits + rest == rest;
    } else {
      var front, last := digits[..|digits| - 1], digits[|digits| - 1];
      assert digits == front + [last] && last in digits;
      AccumulateWorth(front, [last] + rest);
      Associate(front, [last], rest);
      assert ([last] + rest)[1..] == rest;
    }
  }

  lemma SignedRead(sign: seq<byte>, digits: seq<byte>, rest: seq<byte>)
    requires Numeral([], sign, digits).Valid() && (rest == [] || !Digit(rest[0]))
    ensures var t := sign + digits + rest;
            t != [] && !IsSpace(t[0]) && Scan(t) == Number(Numeral([], sign, digits).Value())
  {
    var t := sign + digits + rest;
    AccumulateWorth(digits, rest);
    assert digits[0] in digits;
    if sign == [] {
      assert t == digits + rest;
    } else {
      assert t[0] == sign[0] && t[1..] == digits + rest;
    }
  }

  lemma SkipsBlanks(blanks: seq<byte>, t: seq<byte>)
    requires (forall b :: b in blanks ==> Blank(b)) && t != [] && !IsSpace(t[0])
    ensures Scan(blanks + t) == Scan(t)
  {
    SkipSpacesOver(blanks, t);
  }

  /** A numeral is read as what it stands for: leading zeros, plus signs and what follows included. */
  lemma ScanSpelled(s: seq<byte>, numeral: Numeral)
    requires Spells(s, numeral)
    ensures Scan(s) == Number(numeral.Value())
  {
    var rest := s[|numeral.Text()|..];
    assert s == numeral.Text() + rest;
    var t := numeral.sign + numeral.digits + rest;
    SignedRead(numeral.sign, numeral.digits, rest);
    SkipsBlanks(numeral.blanks, t);
    Associate(numeral.blanks, numeral.sign + numeral.digits, rest);
  }

  lemma {:induction false} BlanksInFront(s: seq<byte>) returns (blanks: seq<byte>)
    ensures s == blanks + SkipSpaces(s) && forall b :: b in blanks ==> Blank(b)
  {
    if s != [] && IsSpace(s[0]) {
      var others := BlanksInFront(s[1..]);
      blanks := [s[0]] + others;
      Associate([s[0]], others, SkipSpaces(s[1..]));
      assert s == [s[0]] + s[1..];
    } else {
      blanks := [];
    }
  }

  lemma {:induction false} DigitsInFront(s: seq<byte>) returns (digits: seq<byte>)
    ensures digits <= s && (forall b :: b in digits ==> Digit(b))
    ensures |digits| < |s| ==> !Digit(s[|digits|])
  {
    if s != [] && IsDigit(s[0]) {
      var others := DigitsInFront(s[1..]);
      digits := [s[0]] + others;
      assert s == [s[0]] + s[1..];
    } else {
      digits := [];
    }
  }

  lemma Assembled(s: seq<byte>, blanks: seq<byte>, sign: seq<byte>, digits: seq<byte>, rest: seq<byte>)
    requires s == blanks + (sign + (digits + rest))
    ensures s == blanks + (sign + digits) + rest
  {
    Associate(sign, digits, rest);
    Associate(blanks, sign + digits, rest);
  }

  lemma SignedIn(t: seq<byte>) returns (sign: seq<byte>, digits: seq<byte>, rest: seq<byte>)
    requires t != [] && var u := if t[0] == MINUS || t[0] == PLUS then t[1..] else t; u != [] && IsDigit(u[0])
    ensures t == sign + (digits + rest) && Numeral([], sign, digits).Valid() && (rest == [] || !Digit(rest[0]))
  {
    var signed := t[0] == MINUS || t[0] == PLUS;
    sign := if signed then [t[0]] else [];
    var u := if signed then t[1..] else t;
    digits := DigitsInFront(u);
    rest := u[|digits|..];
    assert u == digits + rest;
  }

  lemma SpelledIn(s: seq<byte>) returns (numeral: Numeral)
    requires Scan(s).Number?
    ensures Spells(s, numeral)
  {
    var blanks := BlanksInFront(s);
    var sign, digits, rest := SignedIn(SkipSpaces(s));
    numeral := Numeral(blanks, sign, digits);
    Assembled(s, blanks, sign, digits, rest);
    SpelledWith(s, numeral, rest);
  }

  lemma SpelledWith(s: seq<byte>, numeral: Numeral, rest: seq<byte>)
    requires numeral.Valid() && s == numeral.Text() + rest && (rest == [] || !Digit(rest[0]))
    ensures Spells(s, numeral)
  {
  }

  /**
   Reading, exactly: `std::stol` and `std::stoi` return a number if and only if the text begins
   with a numeral within their bounds, and then the number it stands for; a numeral outside is out
   of range, and any other text an invalid argument.
   */
  lemma {:induction false} ReadingExactly(s: seq<byte>)
    ensures (exists numeral :: Spells(s, numeral)) <==> Stol(s) != InvalidArgument
    ensures Stoi(s) == InvalidArgument <==> Stol(s) == InvalidArgument
    ensures forall numeral :: Spells(s, numeral) ==>
              && Stol(s) == (if -9223372036854775808 <= numeral.Value() <= 9223372036854775807
                             then Number(numeral.Value()) else RangeError)
              && Stoi(s) == (if -2147483648 <= numeral.Value() <= 2147483647
                             then Number(numeral.Value()) else RangeError)
  {
    forall numeral | Spells(s, numeral) ensures Scan(s) == Number(numeral.Value()) {
      ScanSpelled(s, numeral);
    }
    if Scan(s).Number? {
      var numeral := SpelledIn(s);
    }
  }

  // ---- Printing ----

  lemma {:induction false} DigitsMeaning(n: nat)
    ensures forall b :: b in Digits(n) ==> Digit(b)
    ensures Worth(Digits(n)) == n
    ensures Digits(n)[0] == '0' as int ==> n == 0 && |Digits(n)| == 1
  {
    if n >= 10 {
      DigitsMeaning(n / 10);
      var d: byte := ZERO + n % 10;
      assert Digits(n) == Digits(n / 10) + [d];
      assert Digits(n)[..|Digits(n)| - 1] == Digits(n / 10);
    }
  }

  predicate PrintsAs(n: int, numeral: Numeral) {
    && numeral.Valid() && numeral.blanks == [] && numeral.sign == (if n < 0 then ['-' as int] else [])
    && (numeral.digits[0] == '0' as int ==> n == 0 && |numeral.digits| == 1)
    && numeral.Value() == n && ToString(n) == numeral.Text()
  }

  lemma PrintedPlain(n: nat)
    ensures PrintsAs(n, Numeral([], [], Digits(n)))
  {
    DigitsMeaning(n);
    var digits, none: seq<byte> := Digits(n), [];
    assert none + (none + digits) == digits;
  }

  lemma PrintedNegative(n: int)
    requires n < 0
    ensures PrintsAs(n, Numeral([], ['-' as int], Digits(-n)))
  {
    DigitsMeaning(-n);
    var sign, digits, none: seq<byte> := ['-' as int], Digits(-n), [];
    assert none + (sign + digits) == sign + digits;
    assert ToString(n) == sign + digits;
  }

  /** Printing, exactly: a minus sign if need be, and the digits of the number without leading zeros. */
  lemma {:induction false} PrintingExactly(n: int)
    ensures exists numeral :: PrintsAs(n, numeral)
  {
    if n < 0 {
      PrintedNegative(n);
    } else {
      PrintedPlain(n);
    }
  }
}
