/** ORDER BY: some ordering of the rows, with ties in any order. */
module Ordering {

  ghost predicate TotalPreorder<T(!new)>(leq: (T, T) -> bool) {
    && (forall a, b :: leq(a, b) || leq(b, a))
    && (forall a, b, c :: leq(a, b) && leq(b, c) ==> leq(a, c))
  }

  predicate Sorted<T>(s: seq<T>, leq: (T, T) -> bool) {
    forall i, j | 0 <= i < j < |s| :: leq(s[i], s[j])
  }

  /** out lists exactly the given rows, in order. */
  predicate IsOrdering<T(==)>(out: seq<T>, rows: seq<T>, leq: (T, T) -> bool) {
    multiset(out) == multiset(rows) && Sorted(out, leq)
  }

  lemma {:induction false} SameMembers<T>(out: seq<T>, rows: seq<T>, x: T)
    requires multiset(out) == multiset(rows)
    ensures x in out <==> x in rows
  {
    assert x in out <==> x in multiset(out);
    assert x in rows <==> x in multiset(rows);
  }

  predicate DistinctBy<T, K(==)>(s: seq<T>, key: T -> K) {
    forall i, j | 0 <= i < j < |s| :: key(s[i]) != key(s[j])
  }

  lemma {:induction false} OnceEach<T, K>(rows: seq<T>, key: T -> K, x: T)
    requires DistinctBy(rows, key)
    ensures multiset(rows)[x] <= 1
  {
    if rows != [] {
      var n := |rows| - 1;
      OnceEach(rows[..n], key, x);
      assert rows == rows[..n] + [rows[n]];
      if rows[n] == x { assert x !in rows[..n]; }
    }
  }

  lemma {:induction false} TwiceThere<T>(out: seq<T>, i: nat, j: nat)
    requires i < j < |out| && multiset(out)[out[i]] <= 1
    ensures out[i] != out[j]
  {
    var front, back := out[..j], out[j..];
    assert out == front + back;
    assert front[i] == out[i] && back[0] == out[j];
    assert out[i] in multiset(front) && out[j] in multiset(back);
  }

  /** Rows that are distinct by some key stay so in any order. */
  lemma {:induction false} OrderingDistinct<T, K>(out: seq<T>, rows: seq<T>, key: T -> K)
    requires multiset(out) == multiset(rows) && DistinctBy(rows, key)
    ensures DistinctBy(out, key)
  {
    forall i, j | 0 <= i < j < |out| ensures key(out[i]) != key(out[j]) {
      assert out[i] in out && out[j] in out;
      OnceEach(rows, key, out[i]);
      TwiceThere(out, i, j);
      SameMembers(out, rows, out[i]);
      SameMembers(out, rows, out[j]);
      var a :| 0 <= a < |rows| && rows[a] == out[i];
      var b :| 0 <= b < |rows| && rows[b] == out[j];
    }
  }

  /** The database's ORDER BY: repeatedly takes some least remaining row; which one among ties is open. */
  method OrderBy<T(!new, ==)>(rows: seq<T>, leq: (T, T) -> bool) returns (out: seq<T>)
    requires TotalPreorder(leq)
    ensures IsOrdering(out, rows, leq)
  {
    out := [];
    var rest := rows;
    while rest != []
      invariant multiset(out) + multiset(rest) == multiset(rows)
      invariant Sorted(out, leq)
      invariant forall i, j | 0 <= i < |out| && 0 <= j < |rest| :: leq(out[i], rest[j])
      decreases |rest|
    {
      var m := 0;
      for j := 1 to |rest|
        invariant 0 <= m < |rest|
        invariant forall k | 0 <= k < j :: leq(rest[m], rest[k])
      {
        if !leq(rest[m], rest[j]) {
          m := j;
        } else if leq(rest[j], rest[m]) {
          if * {
            m := j;
          }
        }
      }
      assert rest == rest[..m] + [rest[m]] + rest[m + 1..];
      out := out + [rest[m]];
      rest := rest[..m] + rest[m + 1..];
    }
  }

  function Insert<T>(s: seq<T>, x: T, leq: (T, T) -> bool): seq<T> {
    if s == [] || leq(s[|s| - 1], x) then s + [x] else Insert(s[..|s| - 1], x, leq) + [s[|s| - 1]]
  }

  function Sort<T>(s: seq<T>, leq: (T, T) -> bool): seq<T> {
    if s == [] then [] else Insert(Sort(s[..|s| - 1], leq), s[|s| - 1], leq)
  }

  lemma {:induction false} InsertMembers<T>(s: seq<T>, x: T, leq: (T, T) -> bool)
    ensures multiset(Insert(s, x, leq)) == multiset(s) + multiset{x}
  {
    if s != [] && !leq(s[|s| - 1], x) {
      InsertMembers(s[..|s| - 1], x, leq);
      assert s == s[..|s| - 1] + [s[|s| - 1]];
    }
  }

  lemma {:induction false} InsertSorted<T(!new)>(s: seq<T>, x: T, leq: (T, T) -> bool)
    requires TotalPreorder(leq) && Sorted(s, leq)
    ensures Sorted(Insert(s, x, leq), leq)
  {
    if s != [] && !leq(s[|s| - 1], x) {
      var front, last := s[..|s| - 1], s[|s| - 1];
      InsertSorted(front, x, leq);
      InsertMembers(front, x, leq);
      var placed := Insert(front, x, leq);
      forall i | 0 <= i < |placed| ensures leq(placed[i], last) {
        assert placed[i] in multiset(placed);
        if placed[i] != x { assert placed[i] in front; }
      }
    }
  }

  /** An ordering always exists. */
  lemma {:induction false} SortOrders<T(!new)>(s: seq<T>, leq: (T, T) -> bool)
    requires TotalPreorder(leq)
    ensures IsOrdering(Sort(s, leq), s, leq)
  {
    if s != [] {
      var front, last := s[..|s| - 1], s[|s| - 1];
      SortOrders(front, leq);
      InsertMembers(Sort(front, leq), last, leq);
      InsertSorted(Sort(front, leq), last, leq);
      assert s == front + [last];
    }
  }
}
