/** SQLite's LIKE operator, and what a `contains` filter selects. */
module Like {
  import opened Text

  /** The general matcher: % is any run of characters, _ any one, letters match in either ASCII case. */
  predicate Matches(pattern: string, s: string)
    decreases |pattern| + |s|
  {
    if pattern == "" then s == ""
    else if pattern[0] == '%' then Matches(pattern[1..], s) || (s != "" && Matches(pattern, s[1..]))
    else s != "" && (pattern[0] == '_' || Lower(pattern[0]) == Lower(s[0])) && Matches(pattern[1..], s[1..])
  }

  predicate ContainsFold(s: string, v: string) {
    Contains(Fold(s), Fold(v))
  }

  predicate NoWildcard(v: string) {
    forall i | 0 <= i < |v| :: v[i] != '%' && v[i] != '_'
  }

  /** The argument that QueryRecords binds for a contains filter. */
  function ContainsPattern(v: string): string {
    "%" + v + "%"
  }

  lemma {:induction false} PercentMatchesAll(s: string)
    ensures Matches("%", s)
  {
    if s != "" { PercentMatchesAll(s[1..]); }
  }

  /** A leading % lets the rest match at any suffix. */
  lemma {:induction false} PercentMatches(p: string, s: string)
    ensures Matches("%" + p, s) <==> exists i | 0 <= i <= |s| :: Matches(p, s[i..])
  {
    assert ("%" + p)[1..] == p;
    assert s[0..] == s;
    if s != "" {
      PercentMatches(p, s[1..]);
      forall i | 0 <= i < |s| ensures s[1..][i..] == s[i + 1..] {}
      if Matches("%" + p, s[1..]) {
        var i :| 0 <= i <= |s| - 1 && Matches(p, s[1..][i..]);
        assert Matches(p, s[i + 1..]);
      }
      if i :| 1 <= i <= |s| && Matches(p, s[i..]) {
        assert s[1..][i - 1..] == s[i..];
      }
    }
  }

  lemma {:induction false} FoldSlice(s: string, i: nat, n: nat)
    requires i + n <= |s|
    ensures Fold(s)[i..i + n] == Fold(s[i..i + n])
  {}

  /** Without wildcards, v% matches the texts that start with v. */
  lemma {:induction false} PlainPrefix(v: string, s: string)
    requires NoWildcard(v)
    ensures Matches(v + "%", s) <==> |v| <= |s| && Fold(s[..|v|]) == Fold(v)
  {
    if v == "" {
      assert v + "%" == "%";
      PercentMatchesAll(s);
    } else {
      assert (v + "%")[0] == v[0] && (v + "%")[1..] == v[1..] + "%";
      if s != "" {
        PlainPrefix(v[1..], s[1..]);
        if |v| <= |s| {
          assert s[..|v|] == [s[0]] + s[1..][..|v| - 1];
          assert Fold(s[..|v|]) == [Lower(s[0])] + Fold(s[1..][..|v| - 1]);
        }
      }
    }
  }

  /** A contains filter without wildcards selects exactly the texts with that substring, whatever the ASCII case. */
  lemma {:induction false} ContainsIsSubstring(v: string, s: string)
    requires NoWildcard(v)
    ensures Matches(ContainsPattern(v), s) <==> ContainsFold(s, v)
  {
    assert ContainsPattern(v) == "%" + (v + "%");
    PercentMatches(v + "%", s);
    forall i | 0 <= i <= |s| ensures Matches(v + "%", s[i..]) <==> At(Fold(s), Fold(v), i) {
      PlainPrefix(v, s[i..]);
      if i + |v| <= |s| {
        assert s[i..][..|v|] == s[i..i + |v|];
        FoldSlice(s, i, |v|);
      }
    }
  }

  /** v with every wildcard replaced by a letter. */
  function Instance(v: string): (r: string)
    ensures |r| == |v| && forall i | 0 <= i < |v| :: r[i] == if v[i] == '%' || v[i] == '_' then 'x' else v[i]
  {
    if v == "" then "" else [if v[0] == '%' || v[0] == '_' then 'x' else v[0]] + Instance(v[1..])
  }

  lemma {:induction false} InstanceMatches(v: string)
    ensures Matches(v + "%", Instance(v))
  {
    if v == "" {
      assert v + "%" == "%";
      PercentMatchesAll("");
    } else {
      assert (v + "%")[0] == v[0] && (v + "%")[1..] == v[1..] + "%";
      assert Instance(v)[1..] == Instance(v[1..]);
      InstanceMatches(v[1..]);
    }
  }

  lemma {:induction false} InstanceDiffers(v: string)
    requires !NoWildcard(v)
    ensures !ContainsFold(Instance(v), v)
  {}

  /** The filter means substring search on every text exactly when its value has no % and no _. */
  lemma {:induction false} ContainsExactly(v: string)
    ensures (forall s :: Matches(ContainsPattern(v), s) <==> ContainsFold(s, v)) <==> NoWildcard(v)
  {
    if NoWildcard(v) {
      forall s ensures Matches(ContainsPattern(v), s) <==> ContainsFold(s, v) {
        ContainsIsSubstring(v, s);
      }
    } else {
      var s := Instance(v);
      InstanceMatches(v);
      assert s[0..] == s && ContainsPattern(v) == "%" + (v + "%");
      PercentMatches(v + "%", s);
      InstanceDiffers(v);
    }
  }
}
