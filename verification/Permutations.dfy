/** Sequences that hold the same items in a different order. */
module Permutations {

  /** Any item of a sequence can be taken out of it. */
  lemma PickOut<T>(b: seq<T>, o: T) returns (front: seq<T>, rest: seq<T>)
    requires o in multiset(b)
    ensures b == front + [o] + rest && multiset(front + rest) == multiset(b) - multiset{o}
  {
    var j :| 0 <= j < |b| && b[j] == o;
    front, rest := b[..j], b[j + 1..];
    assert b == front + [o] + rest;
    assert multiset(b) == multiset(front) + multiset{o} + multiset(rest);
  }

  /** The first item of one is somewhere in the other, and what is left are permutations again. */
  lemma TakeFirst<T>(a: seq<T>, b: seq<T>) returns (front: seq<T>, rest: seq<T>)
    requires a != [] && multiset(a) == multiset(b)
    ensures b == front + [a[0]] + rest && multiset(a[1..]) == multiset(front + rest)
  {
    assert a == [a[0]] + a[1..];
    assert a[0] in multiset(b);
    front, rest := PickOut(b, a[0]);
  }

  lemma SameItems<T>(a: seq<T>, b: seq<T>, item: T)
    requires multiset(a) == multiset(b)
    ensures item in a <==> item in b
  {
    assert item in multiset(a) <==> item in multiset(b);
  }
}
