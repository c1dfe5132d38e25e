/** Regrouping of concatenations. */
module Seqs {

  lemma {:induction false} Assoc<T>(a: seq<T>, b: seq<T>, c: seq<T>)
    ensures (a + b) + c == a + (b + c)
  {}

  lemma {:induction false} HeadTail<T>(s: seq<T>, rest: seq<T>)
    requires s != []
    ensures s + rest == [s[0]] + (s[1..] + rest)
  {}

  lemma {:induction false} InTail<T>(s: seq<T>, x: T)
    requires s != [] && x in s && x != s[0]
    ensures x in s[1..]
  {}

  lemma {:induction false} NextPrefix<T>(s: seq<T>, n: nat)
    requires n < |s|
    ensures s[..n + 1] == s[..n] + [s[n]]
  {}

  lemma {:induction false} WholePrefix<T>(s: seq<T>)
    ensures s[..|s|] == s
  {}

  /** The indices below n that qualify. */
  function Qualifying(n: nat, p: int -> bool): set<int> {
    set i | 0 <= i < n && p(i)
  }

  lemma {:induction false} QualifyingNext(n: nat, p: int -> bool)
    ensures |Qualifying(n + 1, p)| == |Qualifying(n, p)| + if p(n) then 1 else 0
  {
    if p(n) {
      assert Qualifying(n + 1, p) == Qualifying(n, p) + {n};
    } else {
      assert Qualifying(n + 1, p) == Qualifying(n, p);
    }
  }
}
