/** redis/value.cpp: `operator==` and `operator<` of values. */
module Comparison {
  import opened Bytes
  import opened Values

  // ---- operator== ----

  /**
   The outcome of a comparison. `ReadsBeyond` is the three-iterator `std::equal` on a right-hand
   side shorter than the left one: the language gives it no meaning.
   */
  datatype Verdict = Same | Different | ReadsBeyond

  function Whether(b: bool): Verdict { if b then Same else Different }

  /** What a C string keeps of a text: the bytes in front of the first NUL. */
  function CText(s: seq<byte>): seq<byte> {
    if s == [] || s[0] == 0 then [] else [s[0]] + CText(s[1..])
  }

  /** It is the longest part of the text from its start that holds no NUL: all of it, if none does. */
  lemma {:induction false} CTextMeaning(s: seq<byte>)
    ensures CText(s) <= s && 0 !in CText(s)
    ensures CText(s) != s ==> s[|CText(s)|] == 0
    ensures 0 !in s ==> CText(s) == s
  {
    if s != [] && s[0] != 0 {
      CTextMeaning(s[1..]);
      assert s == [s[0]] + s[1..];
      assert 0 !in s ==> 0 !in s[1..];
    }
  }

  /** The three-iterator `std::equal`: only the length of the left side is looked at. */
  function EqualBytes(a: seq<byte>, b: seq<byte>): Verdict {
    if |a| > |b| then ReadsBeyond else Whether(a == b[..|a|])
  }

  function Equal(a: Value, b: Value): Verdict
    decreases a, 1
  {
    match (a, b)
    case (Simple(x), Bulk(y)) => Whether(x == y)
    case (Bulk(x), Simple(y)) => Whether(y == x)
    case (Nil, Nil) => Same
    case (Simple(x), Simple(y)) => Whether(x == y)
    case (Error(x), Error(y)) => Whether(CText(x) == CText(y))
    case (Integer(x), Integer(y)) => Whether(x == y)
    case (Bulk(x), Bulk(y)) => EqualBytes(x, y)
    case (Array(x), Array(y)) => if |x| > |y| then ReadsBeyond else EqualItems(x, y)
    case _ => Different
  }

  function EqualItems(x: seq<Value>, y: seq<Value>): Verdict
    requires |x| <= |y|
    decreases x, 0
  {
    if x == [] then Same
    else if Equal(x[0], y[0]) != Same then Equal(x[0], y[0])
    else EqualItems(x[1..], y[1..])
  }

  /** The value equality is meant to compare: simple strings as bulk strings, errors as C strings. */
  function Canonical(v: Value): Value
    decreases v, 1
  {
    match v
    case Simple(text) => Bulk(text)
    case Error(what) => Error(CText(what))
    case Array(items) => Array(CanonicalAll(items))
    case _ => v
  }

  function CanonicalAll(items: seq<Value>): (r: seq<Value>)
    ensures |r| == |items|
    decreases items, 0
  {
    if items == [] then [] else [Canonical(items[0])] + CanonicalAll(items[1..])
  }

  /** Wherever two bulk strings or two arrays face each other, their lengths agree. */
  predicate SameShape(a: Value, b: Value)
    decreases a, 1
  {
    match (a, b)
    case (Bulk(x), Bulk(y)) => |x| == |y|
    case (Array(x), Array(y)) => |x| == |y| && SameShapes(x, y)
    case _ => true
  }

  predicate SameShapes(x: seq<Value>, y: seq<Value>)
    requires |x| == |y|
    decreases x, 0
  {
    x == [] || (SameShape(x[0], y[0]) && SameShapes(x[1..], y[1..]))
  }

  lemma CanonicalStep(x: seq<Value>, y: seq<Value>)
    requires |x| == |y| > 0
    ensures CanonicalAll(x) == CanonicalAll(y) <==>
            Canonical(x[0]) == Canonical(y[0]) && CanonicalAll(x[1..]) == CanonicalAll(y[1..])
  {
    var u, v := CanonicalAll(x), CanonicalAll(y);
    assert u[0] == Canonical(x[0]) && u[1..] == CanonicalAll(x[1..]);
    assert v[0] == Canonical(y[0]) && v[1..] == CanonicalAll(y[1..]);
    assert u == [u[0]] + u[1..] && v == [v[0]] + v[1..];
  }

  /** With lengths that agree, equality is exactly equality of the canonical values. */
  lemma {:induction false} EqualOnSameShape(a: Value, b: Value)
    requires SameShape(a, b)
    ensures Equal(a, b) == Whether(Canonical(a) == Canonical(b))
    decreases a, 1
  {
    match (a, b)
    case (Array(x), Array(y)) => EqualItemsOnSameShape(x, y);
    case _ =>
  }

  lemma {:induction false} EqualItemsOnSameShape(x: seq<Value>, y: seq<Value>)
    requires |x| == |y| && SameShapes(x, y)
    ensures EqualItems(x, y) == Whether(CanonicalAll(x) == CanonicalAll(y))
    decreases x, 0
  {
    if x != [] {
      EqualOnSameShape(x[0], y[0]);
      EqualItemsOnSameShape(x[1..], y[1..]);
      CanonicalStep(x, y);
    }
  }

  lemma {:induction false} CanonicalHasShape(a: Value, b: Value)
    requires Canonical(a) == Canonical(b)
    ensures SameShape(a, b)
    decreases a, 1
  {
    match (a, b)
    case (Array(x), Array(y)) => CanonicalAllHaveShapes(x, y);
    case _ =>
  }

  lemma {:induction false} CanonicalAllHaveShapes(x: seq<Value>, y: seq<Value>)
    requires CanonicalAll(x) == CanonicalAll(y)
    ensures |x| == |y| && SameShapes(x, y)
    decreases x, 0
  {
    assert |CanonicalAll(x)| == |CanonicalAll(y)|;
    if x != [] {
      CanonicalStep(x, y);
      CanonicalHasShape(x[0], y[0]);
      CanonicalAllHaveShapes(x[1..], y[1..]);
    }
  }

  /** `a` is `b`, except that bulk strings and arrays of `a` may be cut off where those of `b` go on. */
  predicate CutOf(a: Value, b: Value) {
    match (a, b)
    case (Bulk(x), Bulk(y)) => x <= y
    case (Array(x), Array(y)) => |x| <= |y| && forall i :: 0 <= i < |x| ==> CutOf(x[i], y[i])
    case _ => Canonical(a) == Canonical(b)
  }

  /**
   A bulk string or an array of `a` is longer than the one of `b` it faces, whatever they hold, and
   all elements in front of it, in the arrays around it, are cut of those they face.
   */
  predicate Overlong(a: Value, b: Value) {
    match (a, b)
    case (Bulk(x), Bulk(y)) => |x| > |y|
    case (Array(x), Array(y)) => |x| > |y| || OverlongSomewhere(x, y)
    case _ => false
  }

  predicate OverlongSomewhere(x: seq<Value>, y: seq<Value>)
    requires |x| <= |y|
  {
    exists k :: 0 <= k < |x| && OverlongAt(x, y, k)
  }

  predicate OverlongAt(x: seq<Value>, y: seq<Value>, k: nat)
    requires k < |x| <= |y|
  {
    Overlong(x[k], y[k]) && forall i :: 0 <= i < k ==> CutOf(x[i], y[i])
  }

  /** What the walk answers, said of the two values: where it says "same" and where it reads beyond. */
  lemma {:induction false} EqualMeaning(a: Value, b: Value)
    ensures Equal(a, b) == Same <==> CutOf(a, b)
    ensures Equal(a, b) == ReadsBeyond <==> Overlong(a, b)
    decreases a, 1
  {
    if a.Array? && b.Array? {
      var x, y := a.items, b.items;
      if |x| <= |y| {
        EqualItemsMeaning(x, y);
      }
    } else if !(a.Bulk? && b.Bulk?) {
      EqualLeafMeaning(a, b);
    }
  }

  lemma EqualLeafMeaning(a: Value, b: Value)
    requires !(a.Bulk? && b.Bulk?) && !(a.Array? && b.Array?)
    ensures Equal(a, b) == Whether(Canonical(a) == Canonical(b))
  {
    EqualOnSameShape(a, b);
  }

  lemma {:induction false} EqualItemsMeaning(x: seq<Value>, y: seq<Value>)
    requires |x| <= |y|
    ensures EqualItems(x, y) == Same <==> forall i :: 0 <= i < |x| ==> CutOf(x[i], y[i])
    ensures EqualItems(x, y) == ReadsBeyond <==> OverlongSomewhere(x, y)
    decreases x, 0
  {
    if x != [] {
      EqualMeaning(x[0], y[0]);
      if Equal(x[0], y[0]) == Same {
        EqualItemsMeaning(x[1..], y[1..]);
        CutOfShift(x, y);
        OverlongShift(x, y);
      } else {
        assert !CutOf(x[0], y[0]);
        assert forall k :: 0 < k < |x| ==> !OverlongAt(x, y, k);
        assert OverlongAt(x, y, 0) <==> Overlong(x[0], y[0]);
      }
    }
  }

  lemma CutOfShift(x: seq<Value>, y: seq<Value>)
    requires 0 < |x| <= |y| && CutOf(x[0], y[0])
    ensures (forall i :: 0 <= i < |x[1..]| ==> CutOf(x[1..][i], y[1..][i])) <==>
            forall i :: 0 <= i < |x| ==> CutOf(x[i], y[i])
  {
    forall i | 0 < i < |x| ensures x[i] == x[1..][i - 1] && y[i] == y[1..][i - 1] {
    }
  }

  lemma OverlongShift(x: seq<Value>, y: seq<Value>)
    requires 0 < |x| <= |y| && CutOf(x[0], y[0]) && !Overlong(x[0], y[0])
    ensures OverlongSomewhere(x[1..], y[1..]) <==> OverlongSomewhere(x, y)
  {
    forall k: nat | k < |x[1..]| ensures OverlongAt(x[1..], y[1..], k) <==> OverlongAt(x, y, k + 1) {
      OverlongShiftAt(x, y, k);
    }
    if k: nat :| k < |x| && OverlongAt(x, y, k) {
      assert OverlongAt(x[1..], y[1..], k - 1) <==> OverlongAt(x, y, k - 1 + 1);
    }
  }

  lemma OverlongShiftAt(x: seq<Value>, y: seq<Value>, k: nat)
    requires k + 1 < |x| <= |y| && CutOf(x[0], y[0])
    ensures OverlongAt(x[1..], y[1..], k) <==> OverlongAt(x, y, k + 1)
  {
    assert forall i :: 0 <= i <= k ==> x[1..][i] == x[i + 1] && y[1..][i] == y[i + 1];
    if OverlongAt(x[1..], y[1..], k) {
      forall i | 0 <= i < k + 1 ensures CutOf(x[i], y[i]) {
        if i > 0 {
          assert CutOf(x[1..][i - 1], y[1..][i - 1]);
        }
      }
    }
  }

  /** Canonically equal values are those that are cut of each other without anything cut off. */
  lemma CanonicalIsUncut(a: Value, b: Value)
    ensures Canonical(a) == Canonical(b) <==> CutOf(a, b) && SameShape(a, b)
  {
    EqualMeaning(a, b);
    if SameShape(a, b) {
      EqualOnSameShape(a, b);
    } else if Canonical(a) == Canonical(b) {
      CanonicalHasShape(a, b);
    }
  }

  /**
   Equality, exactly: the answer is the right one for the canonical values if and only if the left
   side is not overlong and, where it is cut of the right side, the lengths agree. It fails when
   the walk comes to a longer bulk string or array on the left, and when all it ever finds is that
   some on the left are shorter.
   */
  lemma {:induction false} EqualIsRightExactly(a: Value, b: Value)
    ensures Equal(a, b) == Whether(Canonical(a) == Canonical(b)) <==>
            !Overlong(a, b) && (CutOf(a, b) ==> SameShape(a, b))
  {
    EqualMeaning(a, b);
    CanonicalIsUncut(a, b);
  }

  /** A prefix is called equal to the longer string; the other way round reads beyond its end. */
  lemma PrefixComparesEqual()
    ensures Equal(Bulk([97]), Bulk([97, 98])) == Same && Equal(Bulk([97, 98]), Bulk([97])) == ReadsBeyond
    ensures Canonical(Bulk([97])) != Canonical(Bulk([97, 98]))
  {
    assert [97, 98][..1] == [97];
    assert |[97]| != |[97, 98]|;
  }

  lemma {:induction false} SameBothWaysHasShape(a: Value, b: Value)
    requires Equal(a, b) == Same && Equal(b, a) == Same
    ensures SameShape(a, b)
    decreases a, 1
  {
    match (a, b)
    case (Array(x), Array(y)) => SameItemsBothWaysHaveShapes(x, y);
    case _ =>
  }

  lemma {:induction false} SameItemsBothWaysHaveShapes(x: seq<Value>, y: seq<Value>)
    requires |x| == |y| && EqualItems(x, y) == Same && EqualItems(y, x) == Same
    ensures SameShapes(x, y)
    decreases x, 0
  {
    if x != [] {
      SameBothWaysHasShape(x[0], y[0]);
      SameItemsBothWaysHaveShapes(x[1..], y[1..]);
    }
  }

  lemma {:induction false} SameShapeSymmetric(a: Value, b: Value)
    requires SameShape(a, b)
    ensures SameShape(b, a)
    decreases a, 1
  {
    match (a, b)
    case (Array(x), Array(y)) => SameShapesSymmetric(x, y);
    case _ =>
  }

  lemma {:induction false} SameShapesSymmetric(x: seq<Value>, y: seq<Value>)
    requires |x| == |y| && SameShapes(x, y)
    ensures SameShapes(y, x)
    decreases x, 0
  {
    if x != [] {
      SameShapeSymmetric(x[0], y[0]);
      SameShapesSymmetric(x[1..], y[1..]);
    }
  }

  /** On all values: two values compare equal both ways round exactly when they are canonically equal. */
  lemma {:induction false} EqualBothWays(a: Value, b: Value)
    ensures Equal(a, b) == Same && Equal(b, a) == Same <==> Canonical(a) == Canonical(b)
  {
    if Canonical(a) == Canonical(b) {
      CanonicalHasShape(a, b);
      CanonicalHasShape(b, a);
      EqualOnSameShape(a, b);
      EqualOnSameShape(b, a);
    } else if Equal(a, b) == Same && Equal(b, a) == Same {
      SameBothWaysHasShape(a, b);
      EqualOnSameShape(a, b);
    }
  }

  /** On values whose lengths agree, equality is reflexive, symmetric and transitive. */
  lemma {:induction false} EqualIsEquivalence(a: Value, b: Value, c: Value)
    requires SameShape(a, b) && SameShape(b, c)
    ensures Equal(a, a) == Same
    ensures Equal(a, b) == Equal(b, a)
    ensures Equal(a, b) == Same && Equal(b, c) == Same ==> Equal(a, c) == Same
  {
    EqualBothWays(a, a);
    SameShapeSymmetric(a, b);
    EqualOnSameShape(a, b);
    EqualOnSameShape(b, a);
    EqualOnSameShape(b, c);
    EqualBothWays(a, c);
  }

  /** Two error texts with the same bytes in front of their first NUL, or in all. */
  ghost predicate SameCString(x: seq<byte>, y: seq<byte>) {
    exists text: seq<byte> :: IsCString(x, text) && IsCString(y, text)
  }

  predicate IsCString(s: seq<byte>, text: seq<byte>) {
    0 !in text && (s == text || text + [0] <= s)
  }

  lemma {:induction false} CStringIs(s: seq<byte>, text: seq<byte>)
    ensures IsCString(s, text) <==> text == CText(s)
  {
    if s == [] || s[0] == 0 {
      assert text == [] ==> text + [0] == [0];
    } else if text == [] {
      assert text + [0] == [0];
    } else {
      CStringIs(s[1..], text[1..]);
      assert s == [s[0]] + s[1..] && text == [text[0]] + text[1..];
      assert text + [0] == [text[0]] + (text[1..] + [0]);
    }
  }

  /**
   What `==` means on values other than arrays: the same number, the same bytes in a simple string
   and a string of either kind, the same C string in two errors, a bulk string that begins with
   the other one; values of other kinds never compare equal.
   */
  lemma {:induction false} EqualLeaves(a: Value, b: Value)
    requires !a.Array? || !b.Array?
    ensures Equal(a, b) == Same <==>
            || (a.Nil? && b.Nil?)
            || (a.Integer? && b.Integer? && a.n == b.n)
            || (a.Simple? && b.Simple? && a.text == b.text)
            || (a.Simple? && b.Bulk? && a.text == b.bytes)
            || (a.Bulk? && b.Simple? && a.bytes == b.text)
            || (a.Bulk? && b.Bulk? && a.bytes <= b.bytes)
            || (a.Error? && b.Error? && SameCString(a.what, b.what))
    ensures Equal(a, b) == ReadsBeyond <==> a.Bulk? && b.Bulk? && |a.bytes| > |b.bytes|
  {
    if a.Error? && b.Error? {
      CStringIs(a.what, CText(a.what));
      CStringIs(b.what, CText(a.what));
      if text: seq<byte> :| IsCString(a.what, text) && IsCString(b.what, text) {
        CStringIs(a.what, text);
        CStringIs(b.what, text);
      }
    }
  }

  // ---- operator< ----

  /** The underlying number of `redis_type`. */
  function Rank(v: Value): nat {
    match v
    case Nil => 0
    case Simple(_) => 1
    case Error(_) => 2
    case Integer(_) => 3
    case Bulk(_) => 4
    case Array(_) => 5
  }

  /** Errors are left out: the source orders them by the addresses of their texts. */
  predicate Less(a: Value, b: Value)
    requires ErrorFree(a) && ErrorFree(b)
    decreases Nodes(a) + Nodes(b), 0
  {
    if Rank(a) != Rank(b) then Rank(a) < Rank(b)
    else
      match a
      case Nil => false
      case Simple(text) => Before(text, b.text)
      case Integer(n) => n < b.n
      case Bulk(bytes) => Before(bytes, b.bytes)
      case Array(items) => LessItems(items, b.items)
  }

  predicate LessItems(x: seq<Value>, y: seq<Value>)
    requires AllErrorFree(x) && AllErrorFree(y)
    decreases NodesIn(x) + NodesIn(y), 1
  {
    if y == [] then false
    else if x == [] then true
    else if Less(x[0], y[0]) then true
    else if Less(y[0], x[0]) then false
    else LessItems(x[1..], y[1..])
  }

  /** Of two error-free trees exactly one is less, unless they are structurally the same. */
  lemma {:induction false} LessTotal(a: Value, b: Value)
    requires ErrorFree(a) && ErrorFree(b)
    ensures !(Less(a, b) && Less(b, a))
    ensures a == b <==> !Less(a, b) && !Less(b, a)
    decreases a, 1
  {
    match (a, b)
    case (Simple(x), Simple(y)) => BeforeTotal(x, y);
    case (Bulk(x), Bulk(y)) => BeforeTotal(x, y);
    case (Array(x), Array(y)) => LessItemsTotal(x, y);
    case _ =>
  }

  lemma {:induction false} LessItemsTotal(x: seq<Value>, y: seq<Value>)
    requires AllErrorFree(x) && AllErrorFree(y)
    ensures !(LessItems(x, y) && LessItems(y, x))
    ensures x == y <==> !LessItems(x, y) && !LessItems(y, x)
    decreases x, 0
  {
    if x != [] && y != [] {
      LessTotal(x[0], y[0]);
      LessItemsTotal(x[1..], y[1..]);
      assert x == [x[0]] + x[1..] && y == [y[0]] + y[1..];
    }
  }

  lemma {:induction false} LessTransitive(a: Value, b: Value, c: Value)
    requires ErrorFree(a) && ErrorFree(b) && ErrorFree(c)
    requires Less(a, b) && Less(b, c)
    ensures Less(a, c)
    decreases a, 1
  {
    match (a, b, c)
    case (Simple(x), Simple(y), Simple(z)) => BeforeTransitive(x, y, z);
    case (Bulk(x), Bulk(y), Bulk(z)) => BeforeTransitive(x, y, z);
    case (Array(x), Array(y), Array(z)) => LessItemsTransitive(x, y, z);
    case _ =>
  }

  lemma {:induction false} LessItemsTransitive(x: seq<Value>, y: seq<Value>, z: seq<Value>)
    requires AllErrorFree(x) && AllErrorFree(y) && AllErrorFree(z)
    requires LessItems(x, y) && LessItems(y, z)
    ensures LessItems(x, z)
    decreases x, 0
  {
    if x != [] {
      LessTotal(x[0], y[0]);
      LessTotal(y[0], z[0]);
      LessTotal(x[0], z[0]);
      if Less(x[0], y[0]) && Less(y[0], z[0]) {
        LessTransitive(x[0], y[0], z[0]);
      } else if x[0] == y[0] == z[0] {
        LessItemsTransitive(x[1..], y[1..], z[1..]);
      }
    }
  }

  /** The first place where two sequences differ or one of them ends. */
  ghost predicate DecidedAt(x: seq<Value>, y: seq<Value>, k: nat)
    requires AllErrorFree(x) && AllErrorFree(y)
  {
    k <= |x| && k < |y| && x[..k] == y[..k] &&
    (k < |x| ==> ErrorFree(x[k]) && ErrorFree(y[k]) && Less(x[k], y[k]))
  }

  lemma {:induction false} ItemsErrorFree(x: seq<Value>, k: nat)
    requires AllErrorFree(x) && k < |x|
    ensures ErrorFree(x[k])
  {
    if k > 0 {
      ItemsErrorFree(x[1..], k - 1);
    }
  }

  /** The order on arrays is lexicographic: decided by the first element that differs, or by length. */
  lemma {:induction false} LessItemsIsLexicographic(x: seq<Value>, y: seq<Value>)
    requires AllErrorFree(x) && AllErrorFree(y)
    ensures LessItems(x, y) <==> exists k: nat :: DecidedAt(x, y, k)
    decreases x
  {
    if x == [] || y == [] {
      if y != [] {
        assert DecidedAt(x, y, 0);
      }
    } else {
      LessTotal(x[0], y[0]);
      if Less(x[0], y[0]) {
        assert DecidedAt(x, y, 0);
      } else if x[0] == y[0] {
        LessItemsIsLexicographic(x[1..], y[1..]);
        if LessItems(x[1..], y[1..]) {
          var k: nat :| DecidedAt(x[1..], y[1..], k);
          if k + 1 < |x| {
            ItemsErrorFree(x, k + 1);
            ItemsErrorFree(y, k + 1);
          }
          assert x[..k + 1] == [x[0]] + x[1..][..k] && y[..k + 1] == [y[0]] + y[1..][..k];
          assert DecidedAt(x, y, k + 1);
        }
        forall k: nat | DecidedAt(x, y, k) ensures LessItems(x[1..], y[1..]) {
          assert k > 0;
          assert x[1..][..k - 1] == x[..k][1..] && y[1..][..k - 1] == y[..k][1..];
          assert DecidedAt(x[1..], y[1..], k - 1);
        }
      } else {
        forall k: nat ensures !DecidedAt(x, y, k) {
          if k > 0 && k <= |x| && k <= |y| {
            assert x[..k][0] == x[0] && y[..k][0] == y[0];
          }
        }
      }
    }
  }

  /** The kinds of value in ascending order. */
  predicate KindBefore(a: Value, b: Value) {
    || (a.Nil? && !b.Nil?)
    || (a.Simple? && (b.Integer? || b.Bulk? || b.Array?))
    || (a.Integer? && (b.Bulk? || b.Array?))
    || (a.Bulk? && b.Array?)
  }

  /** The order that is meant on error-free values. */
  ghost predicate MeantLess(a: Value, b: Value)
    decreases a
  {
    match (a, b)
    case (Simple(x), Simple(y)) => exists k :: SmallerAt(x, y, k)
    case (Integer(x), Integer(y)) => x < y
    case (Bulk(x), Bulk(y)) => exists k :: SmallerAt(x, y, k)
    case (Array(x), Array(y)) => MeantLessItems(x, y)
    case _ => KindBefore(a, b)
  }

  ghost predicate MeantLessItems(x: seq<Value>, y: seq<Value>)
    decreases x, 1
  {
    exists k: nat :: k <= |x| && k < |y| && MeantLessAt(x, y, k)
  }

  /** The arrays agree in front of position `k`; there the first one ends, or has the smaller element. */
  ghost predicate MeantLessAt(x: seq<Value>, y: seq<Value>, k: nat)
    requires k <= |x| && k < |y|
    decreases x, 0
  {
    x[..k] == y[..k] && (k == |x| || MeantLess(x[k], y[k]))
  }

  /**
   What `<` means, on all error-free values: nil, simple strings, integers, bulk strings and arrays
   come in this order; integers compare as numbers, strings by the first byte that differs or by
   ending earlier, and arrays in the same way by their elements.
   */
  lemma {:induction false} LessMeaning(a: Value, b: Value)
    requires ErrorFree(a) && ErrorFree(b)
    ensures Less(a, b) <==> MeantLess(a, b)
    decreases a, 1
  {
    match (a, b)
    case (Simple(x), Simple(y)) => BeforeMeaning(x, y);
    case (Bulk(x), Bulk(y)) => BeforeMeaning(x, y);
    case (Array(x), Array(y)) => LessItemsMeaning(x, y);
    case _ =>
  }

  lemma {:induction false} LessItemsMeaning(x: seq<Value>, y: seq<Value>)
    requires AllErrorFree(x) && AllErrorFree(y)
    ensures LessItems(x, y) <==> MeantLessItems(x, y)
    decreases x, 0
  {
    LessItemsIsLexicographic(x, y);
    forall k: nat | k <= |x| && k < |y| ensures DecidedAt(x, y, k) <==> MeantLessAt(x, y, k) {
      if k < |x| {
        ItemsErrorFree(x, k);
        ItemsErrorFree(y, k);
        LessMeaning(x[k], y[k]);
      }
    }
  }

  /**
   The two operators on error-free values, exactly: that they agree, equal being neither less nor
   greater, means that the left side is cut of the right one only where the two are the same.
   */
  lemma {:induction false} OperatorsAgreeExactly(a: Value, b: Value)
    requires ErrorFree(a) && ErrorFree(b)
    ensures (Equal(a, b) == Same <==> !Less(a, b) && !Less(b, a)) <==> (CutOf(a, b) ==> a == b)
  {
    EqualMeaning(a, b);
    LessTotal(a, b);
    EqualBothWays(a, a);
  }

  /** One family on which they disagree: a simple string equals the bulk string it is less than. */
  lemma EqualButLess(text: seq<byte>)
    ensures Equal(Simple(text), Bulk(text)) == Same && Less(Simple(text), Bulk(text))
  {
  }
}
