/** Sequence facts that several proofs take in one step. */
module Sequences {

  lemma Regroup<T>(a: seq<T>, b: seq<T>, c: seq<T>)
    ensures (a + b) + c == a + (b + c)
  {
  }

  /** The last element and what comes before it. */
  lemma SplitLast<T>(s: seq<T>) returns (front: seq<T>, last: T)
    requires s != []
    ensures s == front + [last] && |front| == |s| - 1 && front == s[..|s| - 1] && last == s[|s| - 1]
  {
    front, last := s[..|s| - 1], s[|s| - 1];
  }

  lemma TakePush<T>(s: seq<T>, n: nat)
    requires n < |s|
    ensures s[..n + 1] == s[..n] + [s[n]]
  {
  }

  lemma SetPush<T>(s: set<T>, x: T)
    requires x !in s
    ensures |s + {x}| == |s| + 1
  {
  }

  /** The first element and what comes after it. */
  lemma SplitFirst<T>(s: seq<T>) returns (first: T, rest: seq<T>)
    requires s != []
    ensures s == [first] + rest && |rest| == |s| - 1 && rest == s[1..] && first == s[0]
  {
    first, rest := s[0], s[1..];
  }

  lemma DropFirst<T>(s: seq<T>, i: nat)
    requires i < |s|
    ensures s[i..][0] == s[i] && s[i..][1..] == s[i + 1..] && s[i..] != []
  {
  }

  lemma SliceHead<T>(s: seq<T>, i: nat, j: nat)
    requires i < j <= |s|
    ensures s[i..j] == [s[i]] + s[i + 1..j]
  {
  }
}
