/** The parts of Go's strings package that the engines rely on. Case folding is ASCII only. */
module Text {

  /** unicode.IsSpace */
  predicate IsSpace(c: char) {
    var n := c as int;
    9 <= n <= 13 || n == 32 || n == 0x85 || n == 0xA0 || n == 0x1680 || 0x2000 <= n <= 0x200A
    || n == 0x2028 || n == 0x2029 || n == 0x202F || n == 0x205F || n == 0x3000
  }

  /** The code points that unicode.IsSpace accepts, one by one. */
  const SPACES := {
    0x09, 0x0A, 0x0B, 0x0C, 0x0D, 0x20, 0x85, 0xA0, 0x1680, 0x2000, 0x2001, 0x2002, 0x2003, 0x2004, 0x2005, 0x2006,
    0x2007, 0x2008, 0x2009, 0x200A, 0x2028, 0x2029, 0x202F, 0x205F, 0x3000}

  lemma {:induction false} SpacesListed(c: char)
    ensures IsSpace(c) <==> c as int in SPACES
  {}

  function TrimLeft(s: string): string {
    if s != "" && IsSpace(s[0]) then TrimLeft(s[1..]) else s
  }

  function TrimRight(s: string): string {
    if s != "" && IsSpace(s[|s| - 1]) then TrimRight(s[..|s| - 1]) else s
  }

  function TrimSpace(s: string): string {
    TrimRight(TrimLeft(s))
  }

  function Lower(c: char): char {
    if 'A' <= c <= 'Z' then c - 'A' + 'a' else c
  }

  function Fold(s: string): (r: string)
    ensures |r| == |s|
    ensures forall i | 0 <= i < |s| :: r[i] == Lower(s[i])
  {
    if s == "" then "" else [Lower(s[0])] + Fold(s[1..])
  }

  predicate EqualFold(a: string, b: string) {
    Fold(a) == Fold(b)
  }

  predicate At(s: string, sub: string, i: int) {
    0 <= i <= |s| - |sub| && s[i..i + |sub|] == sub
  }

  predicate Contains(s: string, sub: string) {
    exists i | 0 <= i <= |s| :: At(s, sub, i)
  }

  /** strings.Split for a one-character separator: always at least one part. */
  function Split(s: string, sep: char): (parts: seq<string>)
    ensures |parts| >= 1
  {
    if s == "" then [""]
    else
      var rest := Split(s[1..], sep);
      if s[0] == sep then [""] + rest else [[s[0]] + rest[0]] + rest[1..]
  }

  /** Code point order. */
  predicate Less(a: string, b: string) {
    if b == "" then false
    else if a == "" then true
    else a[0] < b[0] || (a[0] == b[0] && Less(a[1..], b[1..]))
  }

  /** Before in code point order: the texts agree up to i, and there a has ended or has the smaller character. */
  predicate BeforeAt(a: string, b: string, i: int) {
    0 <= i <= |a| && i < |b| && a[..i] == b[..i] && (i < |a| ==> a[i] < b[i])
  }

  lemma {:induction false} LessMeans(a: string, b: string)
    ensures Less(a, b) <==> exists i :: BeforeAt(a, b, i)
  {
    if a == "" || b == "" {
      if b != "" { assert BeforeAt(a, b, 0); }
    } else {
      LessMeans(a[1..], b[1..]);
      if a[0] < b[0] { assert BeforeAt(a, b, 0); }
      if i :| BeforeAt(a[1..], b[1..], i) {
        if a[0] == b[0] { LaterAt(a, b, i); }
      }
      if i :| BeforeAt(a, b, i) {
        EarlierAt(a, b, i);
      }
    }
  }

  lemma {:induction false} LaterAt(a: string, b: string, i: int)
    requires a != "" && b != "" && a[0] == b[0] && BeforeAt(a[1..], b[1..], i)
    ensures BeforeAt(a, b, i + 1)
  {
    assert a[..i + 1] == [a[0]] + a[1..][..i] && b[..i + 1] == [b[0]] + b[1..][..i];
  }

  lemma {:induction false} EarlierAt(a: string, b: string, i: int)
    requires a != "" && b != "" && BeforeAt(a, b, i)
    ensures i == 0 ==> a[0] < b[0]
    ensures i > 0 ==> a[0] == b[0] && BeforeAt(a[1..], b[1..], i - 1)
  {
    if i > 0 {
      assert a[..i][0] == b[..i][0];
      assert a[1..][..i - 1] == a[..i][1..] && b[1..][..i - 1] == b[..i][1..];
    }
  }

  lemma {:induction false} LessTrichotomy(a: string, b: string)
    ensures Less(a, b) || Less(b, a) || a == b
    ensures !(Less(a, b) && Less(b, a)) && !Less(a, a)
  {
    if a != "" {
      LessTrichotomy(a[1..], a[1..]);
      if b != "" {
        LessTrichotomy(a[1..], b[1..]);
        assert a == [a[0]] + a[1..] && b == [b[0]] + b[1..];
      }
    }
  }

  lemma {:induction false} LessTransitive(a: string, b: string, c: string)
    requires !Less(b, a) && !Less(c, b)
    ensures !Less(c, a)
  {
    if a != "" && b != "" && c != "" && a[0] == b[0] && b[0] == c[0] {
      LessTransitive(a[1..], b[1..], c[1..]);
    }
  }

  // ---- what the functions mean, position by position ----

  /** The same character, or the two cases of one ASCII letter. */
  predicate SameLetter(a: char, b: char) {
    a == b || ('a' <= a <= 'z' && a as int == b as int + 32) || ('a' <= b <= 'z' && b as int == a as int + 32)
  }

  predicate SameText(a: string, b: string) {
    |a| == |b| && forall i | 0 <= i < |a| :: SameLetter(a[i], b[i])
  }

  /** The middle of s that starts at i reads as sub. */
  predicate ReadsAt(s: string, sub: string, i: int) {
    0 <= i <= |s| - |sub| && SameText(s[i..i + |sub|], sub)
  }

  /** s[a..b] lies between two separators, or an end of s. */
  predicate Piece(s: string, sep: char, a: int, b: int) {
    0 <= a <= b <= |s| && sep !in s[a..b] && (a == 0 || s[a - 1] == sep) && (b == |s| || s[b] == sep)
  }

  /** s[a..b] is what is left when the white space at both ends of s goes. */
  predicate Stripped(s: string, a: int, b: int) {
    0 <= a <= b <= |s| && (forall i | 0 <= i < |s| && !(a <= i < b) :: IsSpace(s[i]))
    && (a < b ==> !IsSpace(s[a]) && !IsSpace(s[b - 1]))
  }

  lemma {:induction false} EqualFoldMeans(a: string, b: string)
    ensures EqualFold(a, b) <==> SameText(a, b)
  {
    forall x, y ensures Lower(x) == Lower(y) <==> SameLetter(x, y) {
      SameLower(x, y);
    }
    if SameText(a, b) {
      assert Fold(a) == Fold(b);
    } else if EqualFold(a, b) {
      forall i | 0 <= i < |a| ensures SameLetter(a[i], b[i]) {
        assert Fold(a)[i] == Fold(b)[i];
      }
    }
  }

  lemma {:induction false} SameLower(x: char, y: char)
    ensures Lower(x) == Lower(y) <==> SameLetter(x, y)
  {}

  lemma {:induction false} ContainsMeans(s: string, sub: string)
    ensures Contains(Fold(s), Fold(sub)) <==> exists i :: ReadsAt(s, sub, i)
  {
    forall i | 0 <= i <= |s| - |sub| ensures At(Fold(s), Fold(sub), i) <==> ReadsAt(s, sub, i) {
      EqualFoldMeans(s[i..i + |sub|], sub);
      assert Fold(s)[i..i + |sub|] == Fold(s[i..i + |sub|]);
    }
    if i :| ReadsAt(s, sub, i) {
      assert At(Fold(s), Fold(sub), i);
    }
  }

  lemma {:induction false} StrippedAt(s: string) returns (a: int, b: int)
    ensures Stripped(s, a, b)
  {
    if s == "" {
      a, b := 0, 0;
    } else if IsSpace(s[|s| - 1]) {
      a, b := StrippedAt(s[..|s| - 1]);
    } else if IsSpace(s[0]) {
      a, b := StrippedAt(s[1..]);
      a, b := a + 1, b + 1;
      assert forall i | 1 <= i < |s| :: s[i] == s[1..][i - 1];
    } else {
      a, b := 0, |s|;
    }
  }

  /** TrimSpace keeps exactly the text between the outer white space. */
  lemma {:induction false} TrimMeans(s: string, a: int, b: int)
    requires Stripped(s, a, b)
    ensures TrimSpace(s) == s[a..b]
  {
    TrimLeftMeans(s, if a < b then a else |s|);
    if a < b {
      TrimRightMeans(s[a..], b - a);
      assert s[a..][..b - a] == s[a..b];
    }
  }

  lemma {:induction false} TrimLeftMeans(s: string, a: int)
    requires 0 <= a <= |s| && (forall i | 0 <= i < a :: IsSpace(s[i])) && (a < |s| ==> !IsSpace(s[a]))
    ensures TrimLeft(s) == s[a..]
  {
    if a > 0 {
      TrimLeftMeans(s[1..], a - 1);
      assert s[1..][a - 1..] == s[a..];
    }
  }

  lemma {:induction false} TrimRightMeans(s: string, b: int)
    requires 0 <= b <= |s| && (forall i | b <= i < |s| :: IsSpace(s[i])) && (b > 0 ==> !IsSpace(s[b - 1]))
    ensures TrimRight(s) == s[..b]
  {
    if b < |s| {
      TrimRightMeans(s[..|s| - 1], b);
      assert s[..|s| - 1][..b] == s[..b];
    }
  }

  /** The parts that Split gives are exactly the pieces between separators. */
  lemma {:induction false} SplitMeans(s: string, sep: char, part: string)
    ensures part in Split(s, sep) <==> exists a, b :: Piece(s, sep, a, b) && s[a..b] == part
  {
    if part in Split(s, sep) {
      var k :| 0 <= k < |Split(s, sep)| && Split(s, sep)[k] == part;
      var a, b := PartIsPiece(s, sep, k);
    }
    if a, b :| Piece(s, sep, a, b) && s[a..b] == part {
      var k := PieceIsPart(s, sep, a, b);
    }
  }

  lemma {:induction false} PartIsPiece(s: string, sep: char, k: nat) returns (a: int, b: int)
    requires k < |Split(s, sep)|
    ensures Piece(s, sep, a, b) && s[a..b] == Split(s, sep)[k] && (k == 0 <==> a == 0)
  {
    if s == "" {
      a, b := 0, 0;
    } else if s[0] == sep {
      if k == 0 {
        a, b := 0, 0;
      } else {
        a, b := PartIsPiece(s[1..], sep, k - 1);
        PieceOfTail(s, sep, a, b);
        a, b := a + 1, b + 1;
      }
    } else {
      a, b := PartIsPiece(s[1..], sep, k);
      PieceOfTail(s, sep, a, b);
      a, b := if k == 0 then 0 else a + 1, b + 1;
      if k == 0 { assert s[0..b] == [s[0]] + s[1..][0..b - 1]; }
    }
  }

  lemma {:induction false} PieceOfTail(s: string, sep: char, a: int, b: int)
    requires s != "" && Piece(s[1..], sep, a, b)
    ensures s[1..][a..b] == s[a + 1..b + 1]
    ensures a > 0 || s[0] == sep ==> Piece(s, sep, a + 1, b + 1)
    ensures a == 0 && s[0] != sep ==> Piece(s, sep, 0, b + 1)
  {
    if a == 0 { assert s[0..b + 1] == [s[0]] + s[1..][0..b]; }
  }

  lemma {:induction false} PieceIsPart(s: string, sep: char, a: int, b: int) returns (k: nat)
    requires Piece(s, sep, a, b)
    ensures k < |Split(s, sep)| && Split(s, sep)[k] == s[a..b] && (k == 0 <==> a == 0)
  {
    if s == "" || (s[0] == sep && a == 0) {
      k := 0;
    } else if a == 0 {
      PieceInTail(s, sep, 0, b);
      k := PieceIsPart(s[1..], sep, 0, b - 1);
      assert s[0..b] == [s[0]] + s[1..][0..b - 1];
    } else {
      PieceInTail(s, sep, a, b);
      k := PieceIsPart(s[1..], sep, a - 1, b - 1);
      if s[0] == sep { k := k + 1; }
    }
  }

  lemma {:induction false} PieceInTail(s: string, sep: char, a: int, b: int)
    requires s != "" && Piece(s, sep, a, b) && (a == 0 ==> s[0] != sep)
    ensures var c := if a == 0 then 0 else a - 1;
            Piece(s[1..], sep, c, b - 1) && (a > 0 ==> s[1..][c..b - 1] == s[a..b])
  {
    if a == 0 {
      assert s[1..][0..b - 1] == s[0..b][1..];
    } else {
      assert s[1..][a - 1..b - 1] == s[a..b];
    }
  }
}
