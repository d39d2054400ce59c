/** redis/value.hpp and redis/value.cpp: conversions of values to strings, numbers and hashes. */
module Conversions {
  import opened Sequences
  import opened Bytes
  import opened Decimal
  import opened Numerals
  import opened Values
  import opened Comparison

  // ---- Strings and numbers ----

  function AsString(v: Value): Option<seq<byte>> {
    match v
    case Simple(text) => Some(text)
    case Bulk(bytes) => Some(bytes)
    case Integer(n) => Some(ToString(n))
    case Error(what) => Some(CText(what))
    case _ => None
  }

  /** The text of every kind of value; only nil and arrays have none. */
  lemma TextOfEachKind(text: seq<byte>, n: int64, items: seq<Value>)
    ensures AsString(Simple(text)) == AsString(Bulk(text)) == Some(text)
    ensures 0 !in text ==> AsString(Error(text)) == Some(text)
    ensures AsString(Error(text)).Some? && IsCString(text, AsString(Error(text)).value)
    ensures AsString(Integer(n)).Some? && Stol(AsString(Integer(n)).value) == Number(n)
    ensures exists numeral :: PrintsAs(n, numeral) && AsString(Integer(n)) == Some(numeral.Text())
    ensures AsString(Nil) == AsString(Array(items)) == None
  {
    CTextMeaning(text);
    CStringIs(text, CText(text));
    ReadPrinted(n);
    PrintingExactly(n);
  }

  lemma HasText(v: Value)
    ensures AsString(v).Some? <==> !v.Nil? && !v.Array?
  {
  }

  function OfConversion(c: Conversion): Option<int> {
    if c.Number? then Some(c.n) else None
  }

  function AsInt64(v: Value): Option<int> {
    match v
    case Integer(n) => Some(n)
    case Bulk(bytes) => OfConversion(Stol(bytes))
    case _ => None
  }

  /** The cast of a 64-bit integer to a 32-bit one. */
  function Narrow(n: int): int {
    (n + INT32_LIMIT) % (2 * INT32_LIMIT) - INT32_LIMIT
  }

  function AsInt(v: Value): Option<int> {
    match v
    case Integer(n) => Some(Narrow(n))
    case Bulk(bytes) => OfConversion(Stoi(bytes))
    case _ => None
  }

  /**
   Only integers and bulk strings convert to numbers: an integer to itself, and a bulk string if and
   only if it begins with a numeral within the bounds of the type asked for.
   */
  lemma {:induction false} NumberOfEachKind(v: Value)
    ensures v.Integer? ==> AsInt64(v) == Some(v.n)
    ensures v.Bulk? ==> (AsInt64(v).Some? <==> exists numeral :: Spells(v.bytes, numeral) && FitsInt64(numeral.Value()))
    ensures v.Bulk? ==> (AsInt(v).Some? <==> exists numeral :: Spells(v.bytes, numeral) && FitsInt32(numeral.Value()))
    ensures v.Bulk? ==> forall numeral :: Spells(v.bytes, numeral) ==>
              (FitsInt64(numeral.Value()) ==> AsInt64(v) == Some(numeral.Value())) &&
              (FitsInt32(numeral.Value()) ==> AsInt(v) == Some(numeral.Value()))
    ensures !v.Integer? && !v.Bulk? ==> AsInt64(v) == None && AsInt(v) == None
  {
    if v.Bulk? {
      ReadingExactly(v.bytes);
      if numeral :| Spells(v.bytes, numeral) {
        assert AsInt64(v).Some? <==> FitsInt64(numeral.Value());
        assert AsInt(v).Some? <==> FitsInt32(numeral.Value());
      }
    }
  }

  /**
   Printed numbers of any size, read back from a bulk string: the number comes back exactly when
   it fits the type asked for, and nothing comes back otherwise.
   */
  lemma PrintedNumbers(n: int)
    ensures AsInt64(Bulk(ToString(n))) == if FitsInt64(n) then Some(n) else None
    ensures AsInt(Bulk(ToString(n))) == if FitsInt32(n) then Some(n) else None
  {
    ReadPrinted(n);
  }

  /** An integer value survives its conversion to text and the way back as a bulk string. */
  lemma IntegerThroughText(n: int64)
    ensures AsString(Integer(n)).Some? && AsInt64(Bulk(AsString(Integer(n)).value)) == Some(n)
  {
    ReadPrinted(n);
  }

  /**
   Unlike the printed number, an integer value never fails to convert to 32 bits: it is taken
   modulo 2^32, so it comes back as itself exactly when it fits.
   */
  lemma NarrowingIsModular(n: int64)
    ensures AsInt(Integer(n)).Some? && FitsInt32(AsInt(Integer(n)).value)
    ensures (AsInt(Integer(n)).value - n) % (2 * INT32_LIMIT) == 0
    ensures AsInt(Integer(n)) == Some(n) <==> FitsInt32(n)
  {
    var m := n + INT32_LIMIT;
    assert Narrow(n) - n == -(m / (2 * INT32_LIMIT)) * (2 * INT32_LIMIT);
  }

  // ---- Hashes ----

  /** `std::map<string, value>`: visited in ascending order of its keys. */
  type Hash = map<seq<byte>, Value>

  predicate IsLeast(k: seq<byte>, keys: set<seq<byte>>) {
    k in keys && forall other :: other in keys && other != k ==> Before(k, other)
  }

  lemma {:induction false} LeastExists(keys: set<seq<byte>>)
    requires keys != {}
    ensures exists k :: IsLeast(k, keys)
  {
    var x :| x in keys;
    var others := keys - {x};
    if others == {} {
      assert keys == {x};
      assert IsLeast(x, keys);
    } else {
      LeastExists(others);
      var y :| IsLeast(y, others);
      BeforeTotal(x, y);
      if Before(x, y) {
        forall z | z in others && z != y ensures Before(x, z) {
          BeforeTransitive(x, y, z);
        }
        assert IsLeast(x, keys);
      } else {
        assert IsLeast(y, keys);
      }
    }
  }

  lemma LeastIsUnique(k: seq<byte>, other: seq<byte>, keys: set<seq<byte>>)
    requires IsLeast(k, keys) && IsLeast(other, keys)
    ensures k == other
  {
    BeforeTotal(k, other);
  }

  ghost function Least(keys: set<seq<byte>>): (k: seq<byte>)
    requires keys != {}
    ensures IsLeast(k, keys)
  {
    LeastExists(keys);
    var k :| IsLeast(k, keys);
    k
  }

  /** The array of a hash: every key as a simple string followed by its value, keys ascending. */
  ghost function Flatten(h: Hash): seq<Value>
    decreases |h|
  {
    if h == map[] then []
    else
      var k := Least(h.Keys);
      [Simple(k), h[k]] + Flatten(h - {k})
  }

  lemma FlattenFrom(h: Hash, k: seq<byte>)
    requires IsLeast(k, h.Keys)
    ensures Flatten(h) == [Simple(k), h[k]] + Flatten(h - {k})
  {
    LeastIsUnique(k, Least(h.Keys), h.Keys);
  }

  lemma FlattenStep(before: seq<Value>, h: Hash, k: seq<byte>)
    requires IsLeast(k, h.Keys)
    ensures before + Flatten(h) == before + [Simple(k)] + [h[k]] + Flatten(h - {k})
  {
    FlattenFrom(h, k);
    AppendPair(before, Simple(k), h[k], Flatten(h - {k}));
  }

  /** The constructor from a hash. */
  method FromHash(h: Hash) returns (v: Value)
    ensures v == Array(Flatten(h))
  {
    var items: seq<Value> := [];
    var left := h;
    ghost var expected := Flatten(h);
    while left != map[]
      invariant expected == items + Flatten(left)
      decreases |left|
    {
      LeastExists(left.Keys);
      var k :| k in left.Keys && IsLeast(k, left.Keys);
      FlattenStep(items, left, k);
      items := items + [Simple(k)];
      items := items + [left[k]];
      left := left - {k};
    }
    v := Array(items);
  }

  /** Reads key and value in turn; an insertion of a key that is already there changes nothing. */
  function Rebuild(items: seq<Value>, h: Hash): Option<Hash>
    requires |items| % 2 == 0
  {
    if items == [] then Some(h)
    else
      match AsString(items[0])
      case None => None
      case Some(k) => Rebuild(items[2..], if k in h then h else h[k := items[1]])
  }

  function HashOf(v: Value): Option<Hash> {
    if v.Array? && |v.items| % 2 == 0 then Rebuild(v.items, map[]) else None
  }

  /** An array of even length with neither nil nor an array in the place of a key. */
  predicate PairsWithKeys(v: Value) {
    v.Array? && |v.items| % 2 == 0 &&
    forall i :: 0 <= i < |v.items| && i % 2 == 0 ==> !v.items[i].Nil? && !v.items[i].Array?
  }

  /** The conversion to a hash. */
  method AsHash(v: Value) returns (r: Option<Hash>)
    ensures r == HashOf(v)
    ensures r.Some? <==> PairsWithKeys(v)
  {
    HashKinds(v);
    if !v.Array? || |v.items| % 2 != 0 {
      return None;
    }
    var h: Hash := map[];
    var it := 0;
    assert v.items[0..] == v.items;
    while it != |v.items|
      invariant it <= |v.items| && it % 2 == 0
      invariant HashOf(v) == Rebuild(v.items[it..], h)
      decreases |v.items| - it
    {
      assert v.items[it..][2..] == v.items[it + 2..];
      var key := AsString(v.items[it]);
      if key.None? {
        return None;
      }
      if key.value !in h {
        h := h[key.value := v.items[it + 1]];
      }
      it := it + 2;
    }
    r := Some(h);
  }

  lemma RebuildStep(k: seq<byte>, v: Value, others: seq<Value>, before: Hash)
    requires k !in before && |others| % 2 == 0
    ensures Rebuild([Simple(k), v] + others, before) == Rebuild(others, before[k := v])
  {
    assert ([Simple(k), v] + others)[2..] == others;
  }

  lemma MoveEntry(before: Hash, h: Hash, k: seq<byte>)
    requires k in h
    ensures before[k := h[k]] + (h - {k}) == before + h
  {
  }

  /** Flattened pairs come in twos. */
  lemma {:induction false} FlattenIsEven(h: Hash)
    ensures |Flatten(h)| % 2 == 0
    decreases |h|
  {
    if h != map[] {
      FlattenIsEven(h - {Least(h.Keys)});
    }
  }

  lemma {:induction false} RebuildFlattened(h: Hash, before: Hash)
    requires h.Keys !! before.Keys
    ensures |Flatten(h)| % 2 == 0
    ensures Rebuild(Flatten(h), before) == Some(before + h)
    decreases |h|
  {
    FlattenIsEven(h);
    if h == map[] {
      assert before + h == before;
    } else {
      var k := Least(h.Keys);
      var left := h - {k};
      RebuildFlattened(left, before[k := h[k]]);
      RebuildStep(k, h[k], Flatten(left), before);
      MoveEntry(before, h, k);
    }
  }

  /** Every hash comes back from its array. */
  lemma {:induction false} HashRoundTrip(h: Hash)
    ensures HashOf(Array(Flatten(h))) == Some(h)
  {
    RebuildFlattened(h, map[]);
    assert map[] + h == h;
  }

  /** The key of pair `i`. */
  function KeyAt(items: seq<Value>, i: nat): Option<seq<byte>>
    requires 2 * i < |items|
  {
    AsString(items[2 * i])
  }

  /** Pair `i` is the first pair of `items` with key `k`. */
  ghost predicate FirstPair(items: seq<Value>, k: seq<byte>, i: nat) {
    2 * i < |items| && KeyAt(items, i) == Some(k) && forall j: nat :: j < i ==> KeyAt(items, j) != Some(k)
  }

  lemma ShiftKeys(items: seq<Value>)
    requires |items| >= 2
    ensures forall i: nat :: 2 * i < |items[2..]| ==> KeyAt(items[2..], i) == KeyAt(items, i + 1)
  {
  }

  lemma {:induction false} RebuildSucceeds(items: seq<Value>, h: Hash)
    requires |items| % 2 == 0
    ensures Rebuild(items, h).Some? <==> forall i: nat :: 2 * i < |items| ==> KeyAt(items, i).Some?
  {
    if items != [] {
      ShiftKeys(items);
      assert KeyAt(items, 0) == AsString(items[0]);
      if AsString(items[0]).Some? {
        var k := AsString(items[0]).value;
        RebuildSucceeds(items[2..], if k in h then h else h[k := items[1]]);
        if Rebuild(items, h).Some? {
          forall i: nat | 2 * i < |items| ensures KeyAt(items, i).Some? {
            if i > 0 {
              assert KeyAt(items[2..], i - 1) == KeyAt(items, i);
            }
          }
        }
      }
    }
  }

  /**
   A value converts to a hash exactly when it is an array of pairs whose keys convert to strings.
   */
  lemma {:induction false} HashSucceedsExactly(v: Value)
    ensures HashOf(v).Some? <==>
            v.Array? && |v.items| % 2 == 0 && forall i: nat :: 2 * i < |v.items| ==> KeyAt(v.items, i).Some?
  {
    if v.Array? && |v.items| % 2 == 0 {
      RebuildSucceeds(v.items, map[]);
    }
  }

  /** Said by the kinds of the values: no nil and no array in the place of a key. */
  lemma {:induction false} HashKinds(v: Value)
    ensures HashOf(v).Some? <==> PairsWithKeys(v)
  {
    HashSucceedsExactly(v);
    if v.Array? {
      forall i: nat | 2 * i < |v.items|
        ensures KeyAt(v.items, i).Some? <==> !v.items[2 * i].Nil? && !v.items[2 * i].Array?
      {
        HasText(v.items[2 * i]);
      }
      if HashOf(v).Some? {
        forall i | 0 <= i < |v.items| && i % 2 == 0 ensures !v.items[i].Nil? && !v.items[i].Array? {
          assert KeyAt(v.items, i / 2).Some?;
        }
      }
      if PairsWithKeys(v) {
        forall i: nat | 2 * i < |v.items| ensures KeyAt(v.items, i).Some? {
          assert (2 * i) % 2 == 0;
        }
      }
    }
  }

  lemma {:induction false} RebuildFirstWins(items: seq<Value>, h: Hash, k: seq<byte>)
    requires |items| % 2 == 0 && Rebuild(items, h).Some?
    ensures var r := Rebuild(items, h).value;
            if k in h then k in r && r[k] == h[k]
            else if k in r then exists i: nat :: FirstPair(items, k, i) && r[k] == items[2 * i + 1]
            else forall i: nat :: 2 * i < |items| ==> KeyAt(items, i) != Some(k)
  {
    if items != [] {
      ShiftKeys(items);
      assert KeyAt(items, 0) == AsString(items[0]);
      var first := AsString(items[0]).value;
      var next := if first in h then h else h[first := items[1]];
      RebuildFirstWins(items[2..], next, k);
      var r := Rebuild(items, h).value;
      if k !in h && k == first {
        assert FirstPair(items, k, 0);
      } else if k !in h && k in r {
        var i: nat :| FirstPair(items[2..], k, i) && r[k] == items[2..][2 * i + 1];
        forall j: nat | j < i + 1 ensures KeyAt(items, j) != Some(k) {
          if j > 0 {
            assert KeyAt(items[2..], j - 1) == KeyAt(items, j);
          }
        }
        assert FirstPair(items, k, i + 1);
        assert r[k] == items[2 * (i + 1) + 1];
      } else if k !in h {
        forall i: nat | 2 * i < |items| ensures KeyAt(items, i) != Some(k) {
          if i > 0 {
            assert KeyAt(items[2..], i - 1) == KeyAt(items, i);
          }
        }
      }
    }
  }

  /** In the hash, a key has the value of its first pair; keys of no pair are absent. */
  lemma {:induction false} FirstPairWins(v: Value, k: seq<byte>)
    requires HashOf(v).Some?
    ensures k in HashOf(v).value ==>
              exists i: nat :: FirstPair(v.items, k, i) && HashOf(v).value[k] == v.items[2 * i + 1]
    ensures k !in HashOf(v).value ==> forall i: nat :: 2 * i < |v.items| ==> KeyAt(v.items, i) != Some(k)
  {
    RebuildFirstWins(v.items, map[], k);
  }

  // ---- A server's list of keys and values ----

  /** A key, as a bulk or as a simple string, and its value. */
  datatype Pair = Pair(bulk: bool, key: seq<byte>, value: Value)

  function Listed(pairs: seq<Pair>): seq<Value> {
    if pairs == [] then []
    else
      var p := pairs[0];
      [if p.bulk then Bulk(p.key) else Simple(p.key), p.value] + Listed(pairs[1..])
  }

  lemma {:induction false} ListedAt(pairs: seq<Pair>, i: nat)
    ensures |Listed(pairs)| == 2 * |pairs|
    ensures i < |pairs| ==> KeyAt(Listed(pairs), i) == Some(pairs[i].key) && Listed(pairs)[2 * i + 1] == pairs[i].value
  {
    if pairs != [] {
      ListedAt(pairs[1..], if i > 0 then i - 1 else 0);
      assert Listed(pairs)[2..] == Listed(pairs[1..]);
      ShiftKeys(Listed(pairs));
      if 0 < i < |pairs| {
        assert Listed(pairs)[2..][2 * (i - 1) + 1] == Listed(pairs)[2 * i + 1];
      }
    }
  }

  /** Pair `i` is the first one with key `k`. */
  predicate FirstWithKey(pairs: seq<Pair>, k: seq<byte>, i: nat) {
    i < |pairs| && pairs[i].key == k && forall j :: 0 <= j < i ==> pairs[j].key != k
  }

  /**
   Any list of keys and values, the keys written as bulk or simple strings in any mixture, converts
   to the hash of just these keys, each with the value of its first pair.
   */
  lemma {:induction false} ListedPairsConvert(pairs: seq<Pair>)
    ensures var r := HashOf(Array(Listed(pairs)));
            && r.Some?
            && (forall i :: 0 <= i < |pairs| ==> pairs[i].key in r.value)
            && forall k :: k in r.value ==>
                 exists i: nat :: FirstWithKey(pairs, k, i) && r.value[k] == pairs[i].value
  {
    var items := Listed(pairs);
    var v := Array(items);
    ListedAt(pairs, 0);
    forall i: nat | i < |pairs| ensures KeyAt(items, i) == Some(pairs[i].key) && items[2 * i + 1] == pairs[i].value {
      ListedAt(pairs, i);
    }
    HashSucceedsExactly(v);
    var h := HashOf(v).value;
    forall i | 0 <= i < |pairs| ensures pairs[i].key in h {
      FirstPairWins(v, pairs[i].key);
    }
    forall k | k in h ensures exists i: nat :: FirstWithKey(pairs, k, i) && h[k] == pairs[i].value {
      FirstPairWins(v, k);
      var i: nat :| FirstPair(items, k, i) && h[k] == items[2 * i + 1];
      assert FirstWithKey(pairs, k, i);
    }
  }

  /** The arrays that hashes flatten to: simple-string keys, strictly ascending. */
  predicate Ascending(items: seq<Value>) {
    items == [] ||
    (|items| >= 2 && items[0].Simple? && Ascending(items[2..]) &&
     (|items| > 2 ==> Before(items[0].text, items[2].text)))
  }

  lemma {:induction false} FlattenAscends(h: Hash)
    ensures Ascending(Flatten(h))
    ensures h != map[] ==> |Flatten(h)| >= 2 && Flatten(h)[0].Simple? && Flatten(h)[0].text in h
    decreases |h|
  {
    if h != map[] {
      var k := Least(h.Keys);
      var left := h - {k};
      FlattenAscends(left);
      assert Flatten(h)[2..] == Flatten(left);
      if left != map[] {
        assert Flatten(h)[2] == Flatten(left)[0];
      }
    }
  }

  /** The hash an ascending array stands for, and its least key. */
  function HashOfAscending(items: seq<Value>): Hash
    requires Ascending(items)
  {
    if items == [] then map[] else HashOfAscending(items[2..])[items[0].text := items[1]]
  }

  lemma {:induction false} HeadIsLeast(items: seq<Value>)
    requires Ascending(items) && items != []
    ensures IsLeast(items[0].text, HashOfAscending(items).Keys)
    ensures items[0].text !in HashOfAscending(items[2..])
  {
    var k, rest := items[0].text, items[2..];
    BeforeTotal(k, k);
    if rest != [] {
      HeadIsLeast(rest);
      var k' := rest[0].text;
      forall other | other in HashOfAscending(rest) ensures Before(k, other) && other != k {
        if other != k' {
          BeforeTransitive(k, k', other);
        }
      }
    }
  }

  lemma {:induction false} FlattenAscending(items: seq<Value>)
    requires Ascending(items)
    ensures Flatten(HashOfAscending(items)) == items
  {
    if items != [] {
      var h, k := HashOfAscending(items), items[0].text;
      HeadIsLeast(items);
      FlattenFrom(h, k);
      assert h - {k} == HashOfAscending(items[2..]);
      FlattenAscending(items[2..]);
      assert items == [items[0], items[1]] + items[2..];
    }
  }

  /**
   An array that converts to a hash is the array of that hash exactly when its keys are simple
   strings in strictly ascending order; any other one is sorted, stripped of duplicates or has
   its keys rewritten by the way through the hash, and then stays as it is.
   */
  lemma {:induction false} RebuildThenFlatten(v: Value)
    requires HashOf(v).Some?
    ensures Flatten(HashOf(v).value) == v.items <==> Ascending(v.items)
    ensures HashOf(Array(Flatten(HashOf(v).value))) == HashOf(v)
  {
    FlattenAscends(HashOf(v).value);
    HashRoundTrip(HashOf(v).value);
    if Ascending(v.items) {
      var h := HashOfAscending(v.items);
      FlattenAscending(v.items);
      HashRoundTrip(h);
      assert v == Array(Flatten(h));
    }
  }
}
