/** Putting one element into a sequence. */
module Insertion {
  /** t is s with x put in at position at. */
  predicate Inserted<T(==)>(t: seq<T>, s: seq<T>, at: nat, x: T) {
    && at <= |s| && |t| == |s| + 1 && t[at] == x
    && (forall i :: 0 <= i < at ==> t[i] == s[i])
    && (forall i :: at < i < |t| ==> t[i] == s[i - 1])
  }

  function PutIn<T>(s: seq<T>, at: nat, x: T): (t: seq<T>)
    requires at <= |s|
    ensures multiset(t) == multiset(s) + multiset{x}
  {
    assert s == s[..at] + s[at..];
    s[..at] + [x] + s[at..]
  }

  lemma PutInIs<T>(s: seq<T>, at: nat, x: T)
    requires at <= |s|
    ensures Inserted(PutIn(s, at, x), s, at, x)
  {
  }

  lemma InsertedHolds<T>(t: seq<T>, s: seq<T>, at: nat, x: T)
    requires Inserted(t, s, at, x)
    ensures at < |t| && t[at] == x
  {
  }

  /** Where each old element went. */
  lemma InsertedKeeps<T>(t: seq<T>, s: seq<T>, at: nat, x: T, i: nat)
    requires Inserted(t, s, at, x) && i < |s|
    ensures var j := if i < at then i else i + 1; j < |t| && t[j] == s[i]
  {
  }
}
