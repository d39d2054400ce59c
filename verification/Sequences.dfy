/** Facts about concatenation and slicing, stated once so that other proofs need not find them. */
module Sequences {
  lemma Associate<T>(a: seq<T>, b: seq<T>, c: seq<T>)
    ensures a + b + c == a + (b + c)
  {
  }

  lemma AppendPair<T>(a: seq<T>, x: T, y: T, b: seq<T>)
    ensures a + ([x, y] + b) == a + [x] + [y] + b
  {
  }

  lemma TakeOne<T>(before: seq<T>, items: seq<T>)
    requires items != []
    ensures before + [items[0]] + items[1..] == before + items
  {
  }

  lemma DropConcat<T>(s: seq<T>, t: seq<T>, k: nat)
    requires k <= |s|
    ensures (s + t)[k..] == s[k..] + t
  {
  }

  lemma TakeOfDrop<T>(s: seq<T>, start: nat, end: nat)
    requires start <= end <= |s|
    ensures s[start..][..end - start] == s[start..end]
  {
  }

  lemma DropOfDrop<T>(s: seq<T>, start: nat, k: nat)
    requires start + k <= |s|
    ensures s[start..][k..] == s[start + k..]
  {
  }
}
