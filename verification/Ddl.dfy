/**
 * The DDL text that the table engine sends to the database, and a lexer and parser for the
 * fragment of SQL it is written in. Parsing the text gives back the declared schema.
 */
module Ddl {
  import opened Wrappers
  import opened Seqs
  import Text

  /** A user-defined column, as declared by a caller and as stored in the registry. */
  datatype Column = Column(tableKey: string, name: string, colType: string, nullable: bool,
                           defaultText: Option<string>, position: int)

  // ---- validation ----

  predicate KeyChar(c: char) {
    'a' <= c <= 'z' || '0' <= c <= '9' || c == '_'
  }

  /** keyPattern: ^[a-z][a-z0-9_]{0,62}$ */
  predicate ValidKey(s: string) {
    1 <= |s| <= 63 && 'a' <= s[0] <= 'z' && forall i | 0 <= i < |s| :: KeyChar(s[i])
  }

  const LETTERS := "abcdefghijklmnopqrstuvwxyz"

  /** A key is a letter and then up to 62 letters, digits and underscores, lower case throughout. */
  lemma {:induction false} ValidKeyMeans(s: string)
    ensures ValidKey(s) <==>
            s != "" && |s[1..]| <= 62 && s[0] in LETTERS
            && forall i | 0 <= i < |s| :: s[i] in LETTERS || s[i] in "0123456789" || s[i] == '_'
  {
    forall c: char ensures (c in LETTERS <==> 'a' <= c <= 'z') && (c in "0123456789" <==> '0' <= c <= '9') {
      LetterIs(c);
      FigureIs(c);
    }
  }

  lemma {:induction false} LetterIs(c: char)
    ensures c in LETTERS <==> 'a' <= c <= 'z'
  {
    if 'a' <= c <= 'z' {
      LetterAt(c as int - 'a' as int);
    } else if c in LETTERS {
      var i :| 0 <= i < |LETTERS| && LETTERS[i] == c;
      LetterAt(i);
      assert false;
    }
  }

  lemma {:induction false} LetterAt(i: int)
    requires 0 <= i < 26
    ensures |LETTERS| == 26 && LETTERS[i] as int == 'a' as int + i
  {}

  lemma {:induction false} FigureIs(c: char)
    ensures c in "0123456789" <==> '0' <= c <= '9'
  {
    if '0' <= c <= '9' { assert "0123456789"[c as int - '0' as int] == c; }
  }

  const RESERVED := {"_id", "_created_at", "_updated_at", "_flag_ctx"}

  predicate ValidType(t: string) {
    t == "text" || t == "integer" || t == "real" || t == "boolean"
  }

  predicate ValidColumn(c: Column) {
    c.name !in RESERVED && ValidKey(c.name) && ValidType(c.colType)
  }

  predicate IsNumeric(colType: string) {
    colType == "integer" || colType == "real"
  }

  function SqlType(colType: string): string {
    if colType == "integer" || colType == "boolean" then "INTEGER"
    else if colType == "real" then "REAL"
    else "TEXT"
  }

  // ---- the physical schema that a DDL statement describes ----

  datatype Literal = Nothing | NullLit | NumLit(digits: string) | TextLit(text: string) | ClockLit

  datatype PhysCol = PhysCol(name: string, sqlType: string, primary: bool, notNull: bool, dflt: Literal)

  datatype PhysTable = PhysTable(name: string, cols: seq<PhysCol>)

  /** The four system columns that every physical table starts with. */
  function SystemCols(): seq<PhysCol> {
    [PhysCol("_id", "TEXT", true, false, Nothing),
     PhysCol("_created_at", "DATETIME", false, false, ClockLit),
     PhysCol("_updated_at", "DATETIME", false, false, ClockLit),
     PhysCol("_flag_ctx", "TEXT", false, false, Nothing)]
  }

  predicate NumericChar(c: char) {
    '0' <= c <= '9' || c == '.' || c == '-'
  }

  predicate NumericChars(s: string) {
    s != "" && forall i | 0 <= i < |s| :: NumericChar(s[i])
  }

  predicate Digits(s: string) {
    forall i | 0 <= i < |s| :: '0' <= s[i] <= '9'
  }

  function DotAt(s: string): (n: nat)
    ensures n <= |s|
  {
    if s == "" || s[0] == '.' then 0 else 1 + DotAt(s[1..])
  }

  predicate UnsignedNumeral(s: string) {
    var d := DotAt(s);
    Digits(s[..d]) && if d == |s| then d > 0 else Digits(s[d + 1..]) && |s| > 1
  }

  /** A signed decimal numeral such as 12, -3, 0.5 or .5. */
  predicate Numeral(s: string) {
    if s != "" && s[0] == '-' then UnsignedNumeral(s[1..]) else UnsignedNumeral(s)
  }

  /** The literal a caller means by the default text v of a column. */
  function Meant(colType: string, v: string): Literal {
    if colType == "boolean" then NumLit(if v == "true" || v == "1" then "1" else "0")
    else if IsNumeric(colType) then NumLit(Text.TrimSpace(v))
    else TextLit(v)
  }

  /** What reaches the database: a meant number with a non-numeric character becomes NULL. */
  function Sanitized(l: Literal): Literal {
    if l.NumLit? && !NumericChars(l.digits) then NullLit else l
  }

  function DeclaredLiteral(c: Column): Literal {
    if c.defaultText.None? then Nothing else Meant(c.colType, c.defaultText.value)
  }

  function WrittenLiteral(c: Column): Literal {
    Sanitized(DeclaredLiteral(c))
  }

  function Declared(c: Column): PhysCol {
    PhysCol(c.name, SqlType(c.colType), false, !c.nullable, DeclaredLiteral(c))
  }

  function Written(c: Column): PhysCol {
    PhysCol(c.name, SqlType(c.colType), false, !c.nullable, WrittenLiteral(c))
  }

  function DeclaredAll(cols: seq<Column>): (r: seq<PhysCol>)
    ensures |r| == |cols| && forall i | 0 <= i < |r| :: r[i] == Declared(cols[i])
  {
    if cols == [] then [] else DeclaredAll(cols[..|cols| - 1]) + [Declared(cols[|cols| - 1])]
  }

  function WrittenAll(cols: seq<Column>): (r: seq<PhysCol>)
    ensures |r| == |cols| && forall i | 0 <= i < |r| :: r[i] == Written(cols[i])
  {
    if cols == [] then [] else WrittenAll(cols[..|cols| - 1]) + [Written(cols[|cols| - 1])]
  }

  /** A default that is meant as a number is a numeral. */
  predicate WellFormedDefault(c: Column) {
    IsNumeric(c.colType) && c.defaultText.Some? ==> Numeral(Text.TrimSpace(c.defaultText.value))
  }

  /** The fragment is grammatical: a numeric literal that gets written is a numeral. */
  predicate Grammatical(p: PhysCol) {
    p.dflt.NumLit? ==> Numeral(p.dflt.digits)
  }

  function TableName(key: string): string {
    "tbl_" + key
  }

  // ---- tokens and their text ----

  datatype Token = Word(text: string) | Number(digits: string) | Quoted(value: string) | Comma | Open | Close | Bad

  predicate WordChar(c: char) {
    KeyChar(c) || 'A' <= c <= 'Z'
  }

  predicate WordStart(c: char) {
    'a' <= c <= 'z' || 'A' <= c <= 'Z' || c == '_'
  }

  predicate IsWord(s: string) {
    s != "" && WordStart(s[0]) && forall i | 0 <= i < |s| :: WordChar(s[i])
  }

  /** Every quote written twice: strings.ReplaceAll(v, "'", "''"). */
  function Doubled(v: string): string {
    if v == "" then "" else if v[0] == '\'' then "''" + Doubled(v[1..]) else [v[0]] + Doubled(v[1..])
  }

  predicate Plain(t: Token) {
    match t
    case Word(w) => IsWord(w)
    case Number(n) => NumericChars(n)
    case Quoted(_) => true
    case _ => false
  }

  function Render(t: Token): string
    requires Plain(t)
  {
    match t
    case Word(w) => w
    case Number(n) => n
    case Quoted(v) => "'" + Doubled(v) + "'"
  }

  predicate AllPlain(ts: seq<Token>) {
    forall i | 0 <= i < |ts| :: Plain(ts[i])
  }

  /** Tokens separated by single spaces. */
  function Spaced(ts: seq<Token>): string
    requires AllPlain(ts)
  {
    if ts == [] then ""
    else if |ts| == 1 then Render(ts[0])
    else Render(ts[0]) + " " + Spaced(ts[1..])
  }

  lemma {:induction false} Regrouped(a: string, b: string, c: string)
    ensures a + " " + (b + " " + c) == a + " " + b + " " + c
  {}

  lemma {:induction false} SpacedHead(ts: seq<Token>, us: seq<Token>)
    requires |ts| > 1 && AllPlain(ts) && AllPlain(us)
    ensures AllPlain(ts + us) && Spaced(ts + us) == Render(ts[0]) + " " + Spaced(ts[1..] + us)
  {
    assert (ts + us)[1..] == ts[1..] + us;
  }

  lemma {:induction false} SpacedAppend(ts: seq<Token>, us: seq<Token>)
    requires ts != [] && us != [] && AllPlain(ts) && AllPlain(us)
    ensures AllPlain(ts + us) && Spaced(ts + us) == Spaced(ts) + " " + Spaced(us)
  {
    if |ts| == 1 {
      assert (ts + us)[1..] == us;
    } else {
      SpacedAppend(ts[1..], us);
      SpacedHead(ts, us);
      Regrouped(Render(ts[0]), Spaced(ts[1..]), Spaced(us));
    }
  }

  // ---- the lexer ----

  function Span(s: string, p: char -> bool): (n: nat)
    ensures n <= |s| && forall i | 0 <= i < n :: p(s[i])
    ensures n < |s| ==> !p(s[n])
  {
    if s == "" || !p(s[0]) then 0 else 1 + Span(s[1..], p)
  }

  /** The body of a quoted string up to its closing quote, and what follows. */
  function StringBody(s: string): (r: Option<(string, string)>)
    ensures r.Some? ==> |r.value.1| < |s|
  {
    if s == "" then None
    else if s[0] != '\'' then
      match StringBody(s[1..])
      case None => None
      case Some((body, rest)) => Some(([s[0]] + body, rest))
    else if |s| >= 2 && s[1] == '\'' then
      match StringBody(s[2..])
      case None => None
      case Some((body, rest)) => Some((['\''] + body, rest))
    else Some(("", s[1..]))
  }

  function Lex(s: string): seq<Token>
    decreases |s|
  {
    if s == "" then []
    else if s[0] == ' ' then Lex(s[1..])
    else if s[0] == ',' then [Comma] + Lex(s[1..])
    else if s[0] == '(' then [Open] + Lex(s[1..])
    else if s[0] == ')' then [Close] + Lex(s[1..])
    else if s[0] == '\'' then
      match StringBody(s[1..])
      case None => [Bad]
      case Some((body, rest)) => [Quoted(body)] + Lex(rest)
    else if WordStart(s[0]) then
      var n := 1 + Span(s[1..], WordChar);
      [Word(s[..n])] + Lex(s[n..])
    else if NumericChar(s[0]) then
      var n := 1 + Span(s[1..], NumericChar);
      [Number(s[..n])] + Lex(s[n..])
    else [Bad]
  }

  /** What may follow a token in the text: nothing, or a separator. */
  predicate Delimited(rest: string) {
    rest == "" || rest[0] == ' ' || rest[0] == ',' || rest[0] == ')'
  }

  lemma {:induction false} SpanExact(w: string, rest: string, p: char -> bool)
    requires forall i | 0 <= i < |w| :: p(w[i])
    requires rest == "" || !p(rest[0])
    ensures Span(w + rest, p) == |w|
  {
    if w == "" {
      assert w + rest == rest;
    } else {
      assert (w + rest)[1..] == w[1..] + rest;
      SpanExact(w[1..], rest, p);
    }
  }

  lemma {:induction false} StringBodyOfDoubled(v: string, rest: string)
    requires rest == "" || rest[0] != '\''
    ensures StringBody(Doubled(v) + "'" + rest) == Some((v, rest))
  {
    var s := Doubled(v) + "'" + rest;
    if v == "" {
      assert s == ['\''] + rest;
      assert s[1..] == rest;
    } else {
      var t := Doubled(v[1..]) + "'" + rest;
      StringBodyOfDoubled(v[1..], rest);
      if v[0] == '\'' {
        assert s == "''" + t;
        assert s[2..] == t;
      } else {
        assert s == [v[0]] + t;
        assert s[1..] == t;
      }
      assert [v[0]] + v[1..] == v;
    }
  }

  lemma {:induction false} LexMark(c: char, rest: string)
    requires c == ' ' || c == ',' || c == '(' || c == ')'
    ensures Lex([c] + rest)
          == (if c == ' ' then [] else [if c == ',' then Comma else if c == '(' then Open else Close]) + Lex(rest)
  {}

  lemma {:induction false} LexWord(w: string, rest: string)
    requires IsWord(w) && Delimited(rest)
    ensures Lex(w + rest) == [Word(w)] + Lex(rest)
  {
    var s := w + rest;
    var n := 1 + Span(s[1..], WordChar);
    assert s[1..] == w[1..] + rest;
    SpanExact(w[1..], rest, WordChar);
    assert n == |w| && s[..n] == w && s[n..] == rest;
  }

  lemma {:induction false} LexNumber(w: string, rest: string)
    requires NumericChars(w) && Delimited(rest)
    ensures Lex(w + rest) == [Number(w)] + Lex(rest)
  {
    var s := w + rest;
    var n := 1 + Span(s[1..], NumericChar);
    assert s[1..] == w[1..] + rest && s[0] == w[0];
    SpanExact(w[1..], rest, NumericChar);
    assert n == |w| && s[..n] == w && s[n..] == rest;
  }

  lemma {:induction false} LexOpenQuote(s: string)
    requires StringBody(s).Some?
    ensures Lex("'" + s) == [Quoted(StringBody(s).value.0)] + Lex(StringBody(s).value.1)
  {}

  lemma {:induction false} LexQuoted(v: string, rest: string)
    requires Delimited(rest)
    ensures Lex("'" + Doubled(v) + "'" + rest) == [Quoted(v)] + Lex(rest)
  {
    var s := Doubled(v) + "'" + rest;
    StringBodyOfDoubled(v, rest);
    Assoc("'", Doubled(v) + "'", rest);
    Assoc("'", Doubled(v), "'");
    LexOpenQuote(s);
  }

  lemma {:induction false} LexToken(t: Token, rest: string)
    requires Plain(t) && Delimited(rest)
    ensures Lex(Render(t) + rest) == [t] + Lex(rest)
  {
    match t
    case Word(w) => LexWord(w, rest);
    case Number(n) => LexNumber(n, rest);
    case Quoted(v) => LexQuoted(v, rest);
  }

  lemma {:induction false} SpacedText(ts: seq<Token>, rest: string)
    requires AllPlain(ts) && |ts| > 1
    ensures Spaced(ts) + rest == Render(ts[0]) + ([' '] + (Spaced(ts[1..]) + rest))
  {}

  lemma {:induction false} LexSpacedStep(ts: seq<Token>, rest: string)
    requires AllPlain(ts) && |ts| > 1 && Delimited(rest)
    requires Lex(Spaced(ts[1..]) + rest) == ts[1..] + Lex(rest)
    ensures Lex(Spaced(ts) + rest) == ts + Lex(rest)
  {
    var more := Spaced(ts[1..]) + rest;
    SpacedText(ts, rest);
    LexToken(ts[0], [' '] + more);
    LexMark(' ', more);
    HeadTail(ts, Lex(rest));
  }

  lemma {:induction false} LexSpacedLast(t: Token, rest: string)
    requires Plain(t) && Delimited(rest)
    ensures Lex(Spaced([t]) + rest) == [t] + Lex(rest)
  {
    LexToken(t, rest);
  }

  lemma {:induction false} LexSpaced(ts: seq<Token>, rest: string)
    requires AllPlain(ts) && ts != [] && Delimited(rest)
    ensures Lex(Spaced(ts) + rest) == ts + Lex(rest)
  {
    if |ts| == 1 {
      assert ts == [ts[0]];
      LexSpacedLast(ts[0], rest);
    } else {
      LexSpaced(ts[1..], rest);
      LexSpacedStep(ts, rest);
    }
  }

  // ---- the parser ----

  datatype Parse<+T> = Parsed(value: T, rest: seq<Token>) | SyntaxError

  predicate SqlTypeName(s: string) {
    s == "TEXT" || s == "INTEGER" || s == "REAL" || s == "DATETIME"
  }

  function ParsePrimary(ts: seq<Token>): (bool, seq<Token>) {
    if |ts| >= 2 && ts[0] == Word("PRIMARY") && ts[1] == Word("KEY") then (true, ts[2..]) else (false, ts)
  }

  function ParseNotNull(ts: seq<Token>): (bool, seq<Token>) {
    if |ts| >= 2 && ts[0] == Word("NOT") && ts[1] == Word("NULL") then (true, ts[2..]) else (false, ts)
  }

  function ParseDefault(ts: seq<Token>): Parse<Literal> {
    if ts == [] || ts[0] != Word("DEFAULT") then Parsed(Nothing, ts)
    else if |ts| == 1 then SyntaxError
    else match ts[1]
      case Word(w) =>
        if w == "NULL" then Parsed(NullLit, ts[2..])
        else if w == "CURRENT_TIMESTAMP" then Parsed(ClockLit, ts[2..])
        else SyntaxError
      case Number(n) => if Numeral(n) then Parsed(NumLit(n), ts[2..]) else SyntaxError
      case Quoted(v) => Parsed(TextLit(v), ts[2..])
      case _ => SyntaxError
  }

  function ParseCol(ts: seq<Token>): (r: Parse<PhysCol>)
    ensures r.Parsed? ==> |r.rest| < |ts| && Grammatical(r.value)
  {
    if |ts| >= 2 && ts[0].Word? && ts[1].Word? && SqlTypeName(ts[1].text) then
      var (primary, t1) := ParsePrimary(ts[2..]);
      var (notNull, t2) := ParseNotNull(t1);
      match ParseDefault(t2)
      case Parsed(lit, rest) => Parsed(PhysCol(ts[0].text, ts[1].text, primary, notNull, lit), rest)
      case SyntaxError => SyntaxError
    else SyntaxError
  }

  /** A comma-separated column list and its closing parenthesis. */
  function ParseCols(ts: seq<Token>): (r: Parse<seq<PhysCol>>)
    ensures r.Parsed? ==> forall i | 0 <= i < |r.value| :: Grammatical(r.value[i])
    decreases |ts|
  {
    match ParseCol(ts)
    case SyntaxError => SyntaxError
    case Parsed(col, rest) =>
      if rest != [] && rest[0] == Close then Parsed([col], rest[1..])
      else if rest != [] && rest[0] == Comma then
        match ParseCols(rest[1..])
        case Parsed(cols, tail) => Parsed([col] + cols, tail)
        case SyntaxError => SyntaxError
      else SyntaxError
  }

  const CREATE := [Word("CREATE"), Word("TABLE"), Word("IF"), Word("NOT"), Word("EXISTS")]
  const ALTER := [Word("ALTER"), Word("TABLE")]
  const ADDING := [Word("ADD"), Word("COLUMN")]

  function ParseCreate(text: string): (r: Option<PhysTable>)
    ensures r.Some? ==> forall i | 0 <= i < |r.value.cols| :: Grammatical(r.value.cols[i])
  {
    var ts := Lex(text);
    if |ts| > 7 && ts[..5] == CREATE && ts[5].Word? && ts[6] == Open then
      match ParseCols(ts[7..])
      case Parsed(cols, rest) => if rest == [] then Some(PhysTable(ts[5].text, cols)) else None
      case SyntaxError => None
    else None
  }

  function ParseAlter(text: string): (r: Option<(string, PhysCol)>)
    ensures r.Some? ==> Grammatical(r.value.1)
  {
    var ts := Lex(text);
    if |ts| > 5 && ts[..2] == ALTER && ts[2].Word? && ts[3..5] == ADDING then
      match ParseCol(ts[5..])
      case Parsed(col, rest) => if rest == [] then Some((ts[2].text, col)) else None
      case SyntaxError => None
    else None
  }

  // ---- the tokens of a column and of a statement ----

  function LiteralTokens(l: Literal): seq<Token> {
    match l
    case Nothing => []
    case NullLit => [Word("DEFAULT"), Word("NULL")]
    case ClockLit => [Word("DEFAULT"), Word("CURRENT_TIMESTAMP")]
    case NumLit(n) => [Word("DEFAULT"), Number(n)]
    case TextLit(v) => [Word("DEFAULT"), Quoted(v)]
  }

  function PrimaryTokens(primary: bool): seq<Token> {
    if primary then [Word("PRIMARY"), Word("KEY")] else []
  }

  function NotNullTokens(notNull: bool): seq<Token> {
    if notNull then [Word("NOT"), Word("NULL")] else []
  }

  function ColTokens(p: PhysCol): seq<Token> {
    [Word(p.name), Word(p.sqlType)] + PrimaryTokens(p.primary) + NotNullTokens(p.notNull) + LiteralTokens(p.dflt)
  }

  predicate Printable(p: PhysCol) {
    IsWord(p.name) && SqlTypeName(p.sqlType) && (p.dflt.NumLit? ==> NumericChars(p.dflt.digits))
  }

  lemma {:induction false} KeywordsAreWords()
    ensures IsWord("TEXT") && IsWord("INTEGER") && IsWord("REAL") && IsWord("DATETIME")
    ensures IsWord("PRIMARY") && IsWord("KEY") && IsWord("NOT") && IsWord("NULL")
    ensures IsWord("DEFAULT") && IsWord("CURRENT_TIMESTAMP")
  {}

  lemma {:induction false} ColTokensPlain(p: PhysCol)
    requires Printable(p)
    ensures AllPlain(ColTokens(p)) && |ColTokens(p)| >= 2
  {
    KeywordsAreWords();
  }

  function ListTokens(cols: seq<PhysCol>): seq<Token>
    requires cols != []
  {
    ColTokens(cols[0]) + if |cols| == 1 then [Close] else [Comma] + ListTokens(cols[1..])
  }

  lemma {:induction false} KeywordsDiffer()
    ensures Word("NOT") != Word("DEFAULT") && Word("PRIMARY") != Word("DEFAULT") && Word("PRIMARY") != Word("NOT")
  {}

  predicate EndsColumn(rest: seq<Token>) {
    rest == [] || rest[0] == Comma || rest[0] == Close
  }

  lemma {:induction false} ParseLiteralTokens(l: Literal, rest: seq<Token>)
    requires EndsColumn(rest)
    ensures var ts := LiteralTokens(l) + rest;
            ParseDefault(ts) == (if l.NumLit? && !Numeral(l.digits) then SyntaxError else Parsed(l, rest))
            && (ts != [] ==> ts[0] == Word("DEFAULT") || ts[0] == Comma || ts[0] == Close)
  {}

  lemma {:induction false} ParseNotNullTokens(notNull: bool, ts: seq<Token>)
    requires ts != [] ==> ts[0] == Word("DEFAULT") || ts[0] == Comma || ts[0] == Close
    ensures var all := NotNullTokens(notNull) + ts;
            ParseNotNull(all) == (notNull, ts) && (all != [] ==> all[0] != Word("PRIMARY"))
  {
    KeywordsDiffer();
    var all := NotNullTokens(notNull) + ts;
    assert if notNull then all[2..] == ts else all == ts;
  }

  lemma {:induction false} ParsePrimaryTokens(primary: bool, ts: seq<Token>)
    requires ts != [] ==> ts[0] != Word("PRIMARY")
    ensures ParsePrimary(PrimaryTokens(primary) + ts) == (primary, ts)
  {
    var all := PrimaryTokens(primary) + ts;
    assert if primary then all[2..] == ts else all == ts;
  }

  lemma {:induction false} ColTokensSplit(p: PhysCol, rest: seq<Token>)
    ensures ColTokens(p) + rest ==
            [Word(p.name), Word(p.sqlType)]
            + (PrimaryTokens(p.primary)
            + (NotNullTokens(p.notNull)
            + (LiteralTokens(p.dflt) + rest)))
  {}

  lemma {:induction false} ParseColTokens(p: PhysCol, rest: seq<Token>)
    requires Printable(p) && EndsColumn(rest)
    ensures ParseCol(ColTokens(p) + rest) == if Grammatical(p) then Parsed(p, rest) else SyntaxError
  {
    var d := LiteralTokens(p.dflt) + rest;
    var n := NotNullTokens(p.notNull) + d;
    var k := PrimaryTokens(p.primary) + n;
    ColTokensSplit(p, rest);
    assert ([Word(p.name), Word(p.sqlType)] + k)[2..] == k;
    ParseLiteralTokens(p.dflt, rest);
    ParseNotNullTokens(p.notNull, d);
    ParsePrimaryTokens(p.primary, n);
  }

  lemma {:induction false} ParseLast(p: PhysCol)
    requires Printable(p)
    ensures ParseCols(ColTokens(p) + [Close]) == if Grammatical(p) then Parsed([p], []) else SyntaxError
  {
    ParseColTokens(p, [Close]);
    assert [Close][1..] == [];
  }

  lemma {:induction false} ParseMore(p: PhysCol, rest: seq<Token>)
    requires Printable(p)
    ensures ParseCols(ColTokens(p) + ([Comma] + rest)) ==
            if Grammatical(p) && ParseCols(rest).Parsed? then Parsed([p] + ParseCols(rest).value, ParseCols(rest).rest)
            else SyntaxError
  {
    ParseColTokens(p, [Comma] + rest);
    assert ([Comma] + rest)[1..] == rest;
  }

  lemma {:induction false} ParseListStep(p: PhysCol, rest: seq<PhysCol>)
    requires Printable(p) && rest != [] && forall j | 0 <= j < |rest| :: Printable(rest[j])
    ensures ParseCols(ListTokens([p] + rest)) ==
            if Grammatical(p) && ParseCols(ListTokens(rest)).Parsed?
            then Parsed([p] + ParseCols(ListTokens(rest)).value, ParseCols(ListTokens(rest)).rest) else SyntaxError
  {
    assert ([p] + rest)[1..] == rest;
    ParseMore(p, ListTokens(rest));
  }

  lemma {:induction false} ParseListFrom(cols: seq<PhysCol>, i: nat)
    requires i < |cols| && forall j | 0 <= j < |cols| :: Printable(cols[j])
    ensures ParseCols(ListTokens(cols[i..])) ==
            if forall j | i <= j < |cols| :: Grammatical(cols[j]) then Parsed(cols[i..], []) else SyntaxError
    decreases |cols| - i
  {
    if i + 1 == |cols| {
      assert cols[i..] == [cols[i]];
      ParseLast(cols[i]);
    } else {
      ParseListFrom(cols, i + 1);
      ParseListStep(cols[i], cols[i + 1..]);
      assert cols[i..] == [cols[i]] + cols[i + 1..];
    }
  }

  lemma {:induction false} ParseListTokens(cols: seq<PhysCol>)
    requires cols != [] && forall i | 0 <= i < |cols| :: Printable(cols[i])
    ensures ParseCols(ListTokens(cols)) ==
            if forall i | 0 <= i < |cols| :: Grammatical(cols[i]) then Parsed(cols, []) else SyntaxError
  {
    assert cols[0..] == cols;
    ParseListFrom(cols, 0);
  }

  // ---- the statement texts ----

  function ColText(p: PhysCol): string
    requires Printable(p)
  {
    ColTokensPlain(p);
    Spaced(ColTokens(p))
  }

  function ListText(cols: seq<PhysCol>): string
    requires forall i | 0 <= i < |cols| :: Printable(cols[i])
  {
    if cols == [] then ")" else ", " + ColText(cols[0]) + ListText(cols[1..])
  }

  function CreateText(t: PhysTable): string
    requires IsWord(t.name) && t.cols != [] && forall i | 0 <= i < |t.cols| :: Printable(t.cols[i])
  {
    "CREATE TABLE IF NOT EXISTS " + t.name + " (" + ColText(t.cols[0]) + ListText(t.cols[1..])
  }

  function AlterText(name: string, p: PhysCol): string
    requires IsWord(name) && Printable(p)
  {
    "ALTER TABLE " + name + " ADD COLUMN " + ColText(p)
  }

  lemma {:induction false} ListCons(cols: seq<PhysCol>)
    requires cols != [] && forall i | 0 <= i < |cols| :: Printable(cols[i])
    ensures ListText(cols) == [','] + ([' '] + (ColText(cols[0]) + ListText(cols[1..])))
  {}

  lemma {:induction false} LexList(cols: seq<PhysCol>)
    requires cols != [] && forall i | 0 <= i < |cols| :: Printable(cols[i])
    ensures Lex(ColText(cols[0]) + ListText(cols[1..])) == ListTokens(cols)
  {
    var rest := ListText(cols[1..]);
    ColTokensPlain(cols[0]);
    if |cols| == 1 {
      LexSpaced(ColTokens(cols[0]), rest);
      assert rest == [')'] + "";
      LexMark(')', "");
    } else {
      var more := ColText(cols[1]) + ListText(cols[1..][1..]);
      ListCons(cols[1..]);
      LexSpaced(ColTokens(cols[0]), rest);
      LexMark(',', [' '] + more);
      LexMark(' ', more);
      LexList(cols[1..]);
    }
  }

  lemma {:induction false} SpacedPair(a: Token, b: Token)
    requires Plain(a) && Plain(b)
    ensures AllPlain([a, b]) && Spaced([a, b]) == Render(a) + " " + Render(b)
  {}

  lemma {:induction false} HeaderText(name: string)
    ensures "CREATE" + " " + "TABLE" + " " + ("IF" + " " + "NOT") + " " + ("EXISTS" + " " + name)
          == "CREATE TABLE IF NOT EXISTS " + name
  {}

  lemma {:induction false} HeaderTokens(name: string)
    requires IsWord(name)
    ensures AllPlain(CREATE + [Word(name)])
    ensures Spaced(CREATE + [Word(name)]) == "CREATE TABLE IF NOT EXISTS " + name
  {
    assert IsWord("CREATE") && IsWord("TABLE") && IsWord("IF") && IsWord("NOT") && IsWord("EXISTS");
    SpacedPair(Word("CREATE"), Word("TABLE"));
    SpacedPair(Word("IF"), Word("NOT"));
    SpacedPair(Word("EXISTS"), Word(name));
    var a, b, c := [Word("CREATE"), Word("TABLE")], [Word("IF"), Word("NOT")], [Word("EXISTS"), Word(name)];
    SpacedAppend(a, b);
    SpacedAppend(a + b, c);
    assert CREATE + [Word(name)] == a + b + c;
    HeaderText(name);
  }

  lemma {:induction false} OpenText(head: string, c: string, r: string)
    ensures head + " (" + c + r == head + ([' '] + (['('] + (c + r)))
  {}

  lemma {:induction false} CreateTextForm(t: PhysTable)
    requires IsWord(t.name) && t.cols != [] && forall i | 0 <= i < |t.cols| :: Printable(t.cols[i])
    ensures AllPlain(CREATE + [Word(t.name)])
    ensures CreateText(t) == Spaced(CREATE + [Word(t.name)])
                             + ([' '] + (['('] + (ColText(t.cols[0]) + ListText(t.cols[1..]))))
  {
    HeaderTokens(t.name);
    OpenText("CREATE TABLE IF NOT EXISTS " + t.name, ColText(t.cols[0]), ListText(t.cols[1..]));
  }

  lemma {:induction false} LexCreate(t: PhysTable)
    requires IsWord(t.name) && t.cols != [] && forall i | 0 <= i < |t.cols| :: Printable(t.cols[i])
    ensures Lex(CreateText(t)) == CREATE + [Word(t.name)] + ([Open] + ListTokens(t.cols))
  {
    var cols := ColText(t.cols[0]) + ListText(t.cols[1..]);
    var head := CREATE + [Word(t.name)];
    CreateTextForm(t);
    LexSpaced(head, [' '] + (['('] + cols));
    LexMark(' ', ['('] + cols);
    LexMark('(', cols);
    LexList(t.cols);
  }

  lemma {:induction false} CreateParts(name: string, rest: seq<Token>)
    requires rest != []
    ensures var ts := CREATE + [Word(name)] + ([Open] + rest);
            |ts| > 7 && ts[..5] == CREATE && ts[5] == Word(name) && ts[6] == Open && ts[7..] == rest
  {}

  lemma {:induction false} ListNotEmpty(cols: seq<PhysCol>)
    requires cols != [] && Printable(cols[0])
    ensures ListTokens(cols) != []
  {
    ColTokensPlain(cols[0]);
  }

  /** Printing a physical schema and parsing it back is the identity, exactly on grammatical schemas. */
  lemma {:induction false} CreateRoundTrip(t: PhysTable)
    requires IsWord(t.name) && t.cols != [] && forall i | 0 <= i < |t.cols| :: Printable(t.cols[i])
    ensures ParseCreate(CreateText(t)) ==
            if forall i | 0 <= i < |t.cols| :: Grammatical(t.cols[i]) then Some(t) else None
  {
    LexCreate(t);
    ListNotEmpty(t.cols);
    CreateParts(t.name, ListTokens(t.cols));
    ParseListTokens(t.cols);
  }

  lemma {:induction false} AlterHeaderTokens(name: string)
    requires IsWord(name)
    ensures AllPlain(ALTER + [Word(name)] + ADDING)
    ensures Spaced(ALTER + [Word(name)] + ADDING) == "ALTER TABLE " + name + " ADD COLUMN"
  {
    assert IsWord("ALTER") && IsWord("TABLE") && IsWord("ADD") && IsWord("COLUMN");
    SpacedPair(Word("ALTER"), Word("TABLE"));
    SpacedPair(Word("ADD"), Word("COLUMN"));
    SpacedAppend(ALTER, [Word(name)]);
    SpacedAppend(ALTER + [Word(name)], ADDING);
    AlterHeaderText(name);
  }

  lemma {:induction false} AlterHeaderText(name: string)
    ensures "ALTER" + " " + "TABLE" + " " + name + " " + ("ADD" + " " + "COLUMN")
          == "ALTER TABLE " + name + " ADD COLUMN"
  {}

  lemma {:induction false} LexAlter(name: string, p: PhysCol)
    requires IsWord(name) && Printable(p)
    ensures Lex(AlterText(name, p)) == ALTER + [Word(name)] + ADDING + ColTokens(p)
  {
    var head, cols := ALTER + [Word(name)] + ADDING, ColTokens(p);
    AlterHeaderTokens(name);
    ColTokensPlain(p);
    SpacedAppend(head, cols);
    LexSpaced(head + cols, "");
    assert AlterText(name, p) == Spaced(head + cols) + "";
  }

  lemma {:induction false} AlterParts(name: string, cols: seq<Token>)
    requires cols != []
    ensures var ts := ALTER + [Word(name)] + ADDING + cols;
            |ts| > 5 && ts[..2] == ALTER && ts[2] == Word(name) && ts[3..5] == ADDING && ts[5..] == cols
  {}

  lemma {:induction false} AlterRoundTrip(name: string, p: PhysCol)
    requires IsWord(name) && Printable(p)
    ensures ParseAlter(AlterText(name, p)) == if Grammatical(p) then Some((name, p)) else None
  {
    LexAlter(name, p);
    AlterParts(name, ColTokens(p));
    ParseColTokens(p, []);
    assert ColTokens(p) + [] == ColTokens(p);
  }

  // ---- the builders ----

  lemma {:induction false} WrittenPrintable(c: Column)
    requires ValidColumn(c)
    ensures Printable(Written(c))
  {}

  lemma {:induction false} AllWrittenPrintable(cols: seq<Column>)
    requires forall i | 0 <= i < |cols| :: ValidColumn(cols[i])
    ensures forall i | 0 <= i < |cols| :: Printable(WrittenAll(cols)[i])
  {}

  function LiteralText(l: Literal): string {
    match l
    case Nothing => ""
    case NullLit => "NULL"
    case ClockLit => "CURRENT_TIMESTAMP"
    case NumLit(n) => n
    case TextLit(v) => "'" + Doubled(v) + "'"
  }

  /** sqlLiteral */
  method SqlLiteral(colType: string, v: string) returns (r: string)
    ensures r == LiteralText(Sanitized(Meant(colType, v)))
  {
    if colType == "boolean" {
      assert NumericChars("1") && NumericChars("0");
      if v == "true" || v == "1" {
        return "1";
      }
      return "0";
    } else if colType == "integer" || colType == "real" {
      var safe := Text.TrimSpace(v);
      var ok := |safe| > 0;
      var i := 0;
      while i < |safe|
        invariant 0 <= i <= |safe|
        invariant ok <==> |safe| > 0 && forall j | 0 <= j < i :: NumericChar(safe[j])
      {
        if !NumericChar(safe[i]) {
          ok := false;
          break;
        }
        i := i + 1;
      }
      return if ok then safe else "NULL";
    } else {
      return "'" + Doubled(v) + "'";
    }
  }

  function PrimaryText(primary: bool): string {
    if primary then "PRIMARY KEY" else ""
  }

  function NotNullText(notNull: bool): string {
    if notNull then "NOT NULL" else ""
  }

  function DefaultText(l: Literal): string {
    if l == Nothing then "" else "DEFAULT " + LiteralText(l)
  }

  function Preceded(s: string): string {
    if s == "" then "" else " " + s
  }

  lemma {:induction false} ColTextForm(p: PhysCol)
    requires Printable(p)
    ensures ColText(p) == p.name + " " + p.sqlType + Preceded(PrimaryText(p.primary))
                          + Preceded(NotNullText(p.notNull)) + Preceded(DefaultText(p.dflt))
  {
    KeywordsAreWords();
    var a := [Word(p.name), Word(p.sqlType)];
    var b, c, d := PrimaryTokens(p.primary), NotNullTokens(p.notNull), LiteralTokens(p.dflt);
    SpacedPair(Word(p.name), Word(p.sqlType));
    SpacedMarks(p.primary, p.notNull);
    PlainLiteral(p.dflt);
    SpacedLiteral(p.dflt);
    SpacedMore(a, b, PrimaryText(p.primary));
    SpacedMore(a + b, c, NotNullText(p.notNull));
    SpacedMore(a + b + c, d, DefaultText(p.dflt));
  }

  function PrintedDefault(colType: string, v: string): string {
    match colType
    case "boolean" => if v == "true" || v == "1" then "1" else "0"
    case "text" => "'" + Doubled(v) + "'"
    case _ =>
      var safe := Text.TrimSpace(v);
      if safe != "" && forall i | 0 <= i < |safe| :: safe[i] in "0123456789.-" then safe else "NULL"
  }

  function PrintedType(colType: string): string {
    match colType
    case "text" => "TEXT"
    case "real" => "REAL"
    case _ => "INTEGER"
  }

  /** How a column is printed, by its declared type, nullability and default. */
  lemma {:induction false} ColumnPrintedAs(c: Column)
    requires ValidColumn(c)
    ensures Printable(Written(c))
    ensures ColText(Written(c)) ==
            c.name + " " + PrintedType(c.colType) + (if c.nullable then "" else " NOT NULL")
            + if c.defaultText.None? then "" else " DEFAULT " + PrintedDefault(c.colType, c.defaultText.value)
  {
    var p := Written(c);
    WrittenPrintable(c);
    ColTextForm(p);
    assert p.sqlType == PrintedType(c.colType) && Preceded(PrimaryText(p.primary)) == "";
    MarkPrinted(p.notNull);
    DefaultPrinted(c);
    Joined(c.name + " " + p.sqlType, Preceded(NotNullText(p.notNull)), Preceded(DefaultText(p.dflt)));
  }

  lemma {:induction false} Joined(a: string, b: string, c: string)
    ensures a + "" + b + c == a + b + c
  {
    assert a + "" == a;
  }

  lemma {:induction false} MarkPrinted(notNull: bool)
    ensures Preceded(NotNullText(notNull)) == if notNull then " NOT NULL" else ""
  {
    assert " " + "NOT NULL" == " NOT NULL";
  }

  lemma {:induction false} DefaultPrinted(c: Column)
    requires ValidColumn(c)
    ensures Preceded(DefaultText(WrittenLiteral(c))) ==
            if c.defaultText.None? then "" else " DEFAULT " + PrintedDefault(c.colType, c.defaultText.value)
  {
    if c.defaultText.Some? {
      LiteralPrinted(c.colType, c.defaultText.value);
      assert " " + "DEFAULT " == " DEFAULT ";
      Assoc(" ", "DEFAULT ", PrintedDefault(c.colType, c.defaultText.value));
    }
  }

  lemma {:induction false} LiteralPrinted(colType: string, v: string)
    requires ValidType(colType)
    ensures LiteralText(Sanitized(Meant(colType, v))) == PrintedDefault(colType, v)
  {
    assert NumericChars("1") && NumericChars("0");
    forall c: char ensures NumericChar(c) <==> c in "0123456789.-" {
      NumericCharIs(c);
    }
  }

  lemma {:induction false} NumericCharIs(c: char)
    ensures NumericChar(c) <==> c in "0123456789.-"
  {
    var s := "0123456789.-";
    if '0' <= c <= '9' { assert s[c as int - '0' as int] == c; }
    assert s[10] == '.' && s[11] == '-';
  }

  lemma {:induction false} SpacedMarks(primary: bool, notNull: bool)
    ensures AllPlain(PrimaryTokens(primary)) && Spaced(PrimaryTokens(primary)) == PrimaryText(primary)
    ensures AllPlain(NotNullTokens(notNull)) && Spaced(NotNullTokens(notNull)) == NotNullText(notNull)
  {}

  lemma {:induction false} SpacedMore(ts: seq<Token>, us: seq<Token>, text: string)
    requires ts != [] && AllPlain(ts) && AllPlain(us) && Spaced(us) == text && (us == [] <==> text == "")
    ensures AllPlain(ts + us) && Spaced(ts + us) == Spaced(ts) + Preceded(text)
  {
    if us == [] {
      assert ts + us == ts;
    } else {
      SpacedAppend(ts, us);
    }
  }

  lemma {:induction false} PlainLiteral(l: Literal)
    requires l.NumLit? ==> NumericChars(l.digits)
    ensures AllPlain(LiteralTokens(l))
  {}

  lemma {:induction false} SpacedLiteral(l: Literal)
    requires l.NumLit? ==> NumericChars(l.digits)
    ensures Spaced(LiteralTokens(l)) == DefaultText(l)
  {}

  lemma {:induction false} Pieces(sb: string, lit: string)
    ensures sb + " NOT NULL" == sb + Preceded("NOT NULL")
    ensures sb + " DEFAULT " + lit == sb + Preceded("DEFAULT " + lit)
    ensures sb + Preceded("") == sb
  {
    assert " NOT NULL" == " " + "NOT NULL" && " DEFAULT " == " " + "DEFAULT ";
  }

  /** colFragment */
  method ColFragment(c: Column) returns (sb: string)
    requires ValidColumn(c)
    ensures Printable(Written(c)) && sb == ColText(Written(c))
  {
    WrittenPrintable(c);
    ColTextForm(Written(c));
    sb := c.name;
    sb := sb + " ";
    sb := sb + SqlType(c.colType);
    Pieces(sb, "");
    if !c.nullable {
      sb := sb + " NOT NULL";
    }
    if c.defaultText.Some? {
      var lit := SqlLiteral(c.colType, c.defaultText.value);
      Pieces(sb, lit);
      sb := sb + " DEFAULT " + lit;
    } else {
      Pieces(sb, "");
    }
  }

  lemma {:induction false} SystemPrintable()
    ensures forall i | 0 <= i < 4 :: Printable(SystemCols()[i])
  {}

  // the text of the system columns, word by word
  const ID_TEXT := "_id" + " " + "TEXT" + " " + "PRIMARY KEY"
  const CREATED_TEXT := "_created_at" + " " + "DATETIME" + " " + ("DEFAULT " + "CURRENT_TIMESTAMP")
  const UPDATED_TEXT := "_updated_at" + " " + "DATETIME" + " " + ("DEFAULT " + "CURRENT_TIMESTAMP")
  const FLAG_TEXT := "_flag_ctx" + " " + "TEXT"

  lemma {:induction false} MarkedText(a: string, b: string)
    ensures a + (" " + b) + "" + "" == a + " " + b && a + "" + "" + (" " + b) == a + " " + b && a + "" + "" + "" == a
  {}

  lemma {:induction false} IdColText()
    ensures Printable(SystemCols()[0]) && ColText(SystemCols()[0]) == ID_TEXT
  {
    SystemPrintable();
    ColTextForm(SystemCols()[0]);
    MarkedText("_id" + " " + "TEXT", "PRIMARY KEY");
  }

  lemma {:induction false} ClockColText(i: nat)
    requires i == 1 || i == 2
    ensures Printable(SystemCols()[i]) && ColText(SystemCols()[i]) == if i == 1 then CREATED_TEXT else UPDATED_TEXT
  {
    SystemPrintable();
    ColTextForm(SystemCols()[i]);
    MarkedText((if i == 1 then "_created_at" else "_updated_at") + " " + "DATETIME", "DEFAULT " + "CURRENT_TIMESTAMP");
  }

  lemma {:induction false} FlagColText()
    ensures Printable(SystemCols()[3]) && ColText(SystemCols()[3]) == FLAG_TEXT
  {
    SystemPrintable();
    ColTextForm(SystemCols()[3]);
    MarkedText("_flag_ctx" + " " + "TEXT", "");
  }

  lemma {:induction false} ListHead(c: PhysCol, rest: seq<PhysCol>)
    requires Printable(c) && forall i | 0 <= i < |rest| :: Printable(rest[i])
    ensures ListText([c] + rest) == ", " + ColText(c) + ListText(rest)
  {}

  lemma {:induction false} SystemText(user: seq<PhysCol>)
    requires forall i | 0 <= i < |user| :: Printable(user[i])
    ensures forall i | 0 <= i < |SystemCols() + user| :: Printable((SystemCols() + user)[i])
    ensures ListText((SystemCols() + user)[1..])
          == ", " + CREATED_TEXT + (", " + UPDATED_TEXT + (", " + FLAG_TEXT + ListText(user)))
  {
    var s := SystemCols();
    SystemPrintable();
    ClockColText(1);
    ClockColText(2);
    FlagColText();
    ListHead(s[3], user);
    ListHead(s[2], [s[3]] + user);
    ListHead(s[1], [s[2]] + ([s[3]] + user));
    assert (s + user)[1..] == [s[1]] + ([s[2]] + ([s[3]] + user));
  }

  function UserTable(key: string, cols: seq<Column>): PhysTable {
    PhysTable(TableName(key), SystemCols() + WrittenAll(cols))
  }

  predicate PrintableTable(t: PhysTable) {
    IsWord(t.name) && t.cols != [] && forall i | 0 <= i < |t.cols| :: Printable(t.cols[i])
  }

  lemma {:induction false} UserTablePrintable(key: string, cols: seq<Column>)
    requires ValidKey(key) && forall i | 0 <= i < |cols| :: ValidColumn(cols[i])
    ensures PrintableTable(UserTable(key, cols))
  {
    AllWrittenPrintable(cols);
    SystemPrintable();
    assert IsWord(TableName(key));
  }

  /** The text up to the last system column. */
  function Header(key: string): string {
    "CREATE TABLE IF NOT EXISTS " + TableName(key) + " (" + ID_TEXT
    + ", " + CREATED_TEXT + ", " + UPDATED_TEXT + ", " + FLAG_TEXT
  }

  lemma {:induction false} HeaderThenColumns(key: string, cols: seq<Column>)
    requires ValidKey(key) && forall i | 0 <= i < |cols| :: ValidColumn(cols[i])
    ensures PrintableTable(UserTable(key, cols)) && forall i | 0 <= i < |cols| :: Printable(WrittenAll(cols)[i])
    ensures Header(key) + ListText(WrittenAll(cols)) == CreateText(UserTable(key, cols))
  {
    var user := WrittenAll(cols);
    AllWrittenPrintable(cols);
    UserTablePrintable(key, cols);
    SystemText(user);
    IdColText();
    assert UserTable(key, cols).cols[0] == SystemCols()[0];
    Regroup("CREATE TABLE IF NOT EXISTS " + TableName(key) + " ("
          + ID_TEXT, CREATED_TEXT, UPDATED_TEXT, FLAG_TEXT, ListText(user));
  }

  lemma {:induction false} Regroup(a: string, b: string, c: string, d: string, rest: string)
    ensures a + ", " + b + ", " + c + ", " + d + rest == a + (", " + b + (", " + c + (", " + d + rest)))
  {}

  lemma {:induction false} AddFragment(before: string, cols: seq<PhysCol>, i: nat)
    requires i < |cols| && forall j | 0 <= j < |cols| :: Printable(cols[j])
    ensures before + ListText(cols[i..]) == before + ", " + ColText(cols[i]) + ListText(cols[i + 1..])
  {}

  /** buildCreateDDL */
  method BuildCreateDDL(key: string, cols: seq<Column>) returns (sb: string)
    requires ValidKey(key) && forall i | 0 <= i < |cols| :: ValidColumn(cols[i])
    ensures PrintableTable(UserTable(key, cols)) && sb == CreateText(UserTable(key, cols))
  {
    ghost var user := WrittenAll(cols);
    AllWrittenPrintable(cols);
    ghost var text := Header(key) + ListText(user);
    sb := "CREATE TABLE IF NOT EXISTS ";
    sb := sb + TableName(key);
    sb := sb + " (" + ID_TEXT + ", " + CREATED_TEXT + ", " + UPDATED_TEXT + ", " + FLAG_TEXT;
    assert user[0..] == user;
    for i := 0 to |cols|
      invariant sb + ListText(user[i..]) == text
    {
      var fragment := ColFragment(cols[i]);
      AddFragment(sb, user, i);
      sb := sb + ", ";
      sb := sb + fragment;
    }
    assert user[|cols|..] == [];
    sb := sb + ")";
    HeaderThenColumns(key, cols);
  }

  /** buildAlterDDL */
  method BuildAlterDDL(tableKey: string, c: Column) returns (text: string)
    requires ValidKey(tableKey) && ValidColumn(c)
    ensures IsWord(TableName(tableKey)) && Printable(Written(c)) && text == AlterText(TableName(tableKey), Written(c))
  {
    assert IsWord(TableName(tableKey));
    var fragment := ColFragment(c);
    text := "ALTER TABLE " + TableName(tableKey) + " ADD COLUMN " + fragment;
  }

  // ---- main results ----

  predicate AllGrammatical(cols: seq<Column>) {
    forall i | 0 <= i < |cols| :: Grammatical(Written(cols[i]))
  }

  /** What the database reads in the text of a CREATE statement, for every valid definition. */
  lemma {:induction false} CreateParsesTo(key: string, cols: seq<Column>)
    requires ValidKey(key) && forall i | 0 <= i < |cols| :: ValidColumn(cols[i])
    ensures PrintableTable(UserTable(key, cols))
    ensures ParseCreate(CreateText(UserTable(key, cols))) ==
            if AllGrammatical(cols) then Some(UserTable(key, cols)) else None
  {
    UserTablePrintable(key, cols);
    CreateRoundTrip(UserTable(key, cols));
    UserTableGrammatical(key, cols);
  }

  lemma {:induction false} SystemGrammatical()
    ensures forall i | 0 <= i < 4 :: Grammatical(SystemCols()[i])
  {}

  lemma {:induction false} UserTableGrammatical(key: string, cols: seq<Column>)
    ensures (forall i | 0 <= i < |UserTable(key, cols).cols| :: Grammatical(UserTable(key, cols).cols[i])) <==>
          AllGrammatical(cols)
  {
    var all := UserTable(key, cols).cols;
    SystemGrammatical();
    forall i | 0 <= i < |all| ensures all[i] == if i < 4 then SystemCols()[i] else Written(cols[i - 4]) {}
    if i :| 0 <= i < |cols| && !Grammatical(Written(cols[i])) {
      assert all[i + 4] == Written(cols[i]);
    }
  }

  /** A column reads back as declared exactly when its default is well formed. */
  lemma {:induction false} WrittenAsDeclared(c: Column)
    ensures WellFormedDefault(c) <==> Grammatical(Written(c)) && Written(c) == Declared(c)
  {
    assert Numeral("0") && Numeral("1") && NumericChars("0") && NumericChars("1");
    if WellFormedDefault(c) && IsNumeric(c.colType) && c.defaultText.Some? {
      NumeralChars(Text.TrimSpace(c.defaultText.value));
    }
  }

  lemma {:induction false} UnsignedChars(u: string)
    requires UnsignedNumeral(u)
    ensures NumericChars(u)
  {
    var d := DotAt(u);
    assert u == u[..d] + u[d..];
    DotIsDot(u);
    forall i | 0 <= i < |u| ensures NumericChar(u[i]) {
      if i < d { assert u[i] == u[..d][i]; }
      if i > d { assert u[i] == u[d + 1..][i - d - 1]; }
    }
  }

  lemma {:induction false} NumeralChars(s: string)
    requires Numeral(s)
    ensures NumericChars(s)
  {
    if s[0] == '-' {
      UnsignedChars(s[1..]);
      assert forall i | 1 <= i < |s| :: s[i] == s[1..][i - 1];
    } else {
      UnsignedChars(s);
    }
  }

  lemma {:induction false} DotIsDot(s: string)
    ensures DotAt(s) < |s| ==> s[DotAt(s)] == '.'
  {
    if s != "" && s[0] != '.' { DotIsDot(s[1..]); }
  }

  lemma {:induction false} SamePrefix<T>(a: seq<T>, b: seq<T>, c: seq<T>)
    requires |b| == |c|
    ensures a + b == a + c <==> forall i | 0 <= i < |b| :: b[i] == c[i]
  {
    if a + b == a + c {
      forall i | 0 <= i < |b| ensures b[i] == c[i] {
        assert b[i] == (a + b)[|a| + i] && c[i] == (a + c)[|a| + i];
      }
    }
  }

  /**
   * DDL round trip. The database reads back the table name and every column with its declared
   * type, NOT NULL mark and default exactly when each numeric default is a numeral. Text and
   * boolean defaults put no condition.
   */
  lemma {:induction false} DdlRoundTrip(key: string, cols: seq<Column>)
    requires ValidKey(key) && forall i | 0 <= i < |cols| :: ValidColumn(cols[i])
    ensures PrintableTable(UserTable(key, cols))
    ensures var declared := PhysTable(TableName(key), SystemCols() + DeclaredAll(cols));
            ParseCreate(CreateText(UserTable(key, cols))) == Some(declared)
            <==> forall i | 0 <= i < |cols| :: WellFormedDefault(cols[i])
  {
    CreateParsesTo(key, cols);
    forall i | 0 <= i < |cols|
      ensures WellFormedDefault(cols[i]) <==> Grammatical(Written(cols[i])) && Written(cols[i]) == Declared(cols[i])
    {
      WrittenAsDeclared(cols[i]);
    }
    SamePrefix(SystemCols(), WrittenAll(cols), DeclaredAll(cols));
  }

  /** The same for one added column. */
  lemma {:induction false} AlterRoundTripDeclared(key: string, c: Column)
    requires ValidKey(key) && ValidColumn(c)
    ensures IsWord(TableName(key)) && Printable(Written(c))
    ensures ParseAlter(AlterText(TableName(key), Written(c))) == Some((TableName(key), Declared(c))) <==>
          WellFormedDefault(c)
  {
    assert IsWord(TableName(key));
    WrittenPrintable(c);
    AlterRoundTrip(TableName(key), Written(c));
    WrittenAsDeclared(c);
  }

  /** A text default survives whatever quotes, commas or parentheses it holds. */
  lemma {:induction false} TextDefaultSurvives(key: string, cols: seq<Column>, i: nat)
    requires ValidKey(key) && forall j | 0 <= j < |cols| :: ValidColumn(cols[j])
    requires i < |cols| && cols[i].colType == "text" && cols[i].defaultText.Some?
    ensures PrintableTable(UserTable(key, cols))
    ensures var r := ParseCreate(CreateText(UserTable(key, cols)));
            r.Some? ==> |r.value.cols| == |cols| + 4 && r.value.cols[i + 4].dflt == TextLit(cols[i].defaultText.value)
  {
    CreateParsesTo(key, cols);
    assert (SystemCols() + WrittenAll(cols))[i + 4] == Written(cols[i]);
  }
}
