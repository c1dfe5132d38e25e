/**
 * Feature flags: the four relational tables, evaluation of a loaded flag, and a direct
 * definition of the answer over the tables.
 */
module FeatureModel {
  import opened Wrappers
  import opened Seqs
  import opened Text
  import opened Ordering

  const DRAFT := "draft"
  const TESTING := "testing"
  const GA := "ga"
  const DEPRECATED := "deprecated"

  datatype Rule = Rule(id: string, flagKey: string, attribute: string, operator: string, value: string,
                       variant: bool, variantKey: string, priority: int)

  datatype Variant = Variant(id: string, flagKey: string, key: string, weight: int)

  datatype Override = Override(id: string, flagKey: string, userId: string, variantKey: string, createdAt: int)

  datatype FlagRow = FlagRow(id: string, name: string, description: string, enabled: bool, defaultValue: bool,
          status: string)

  /** feature_flags by key, and the rows of flag_rules, flag_variants and flag_overrides. */
  datatype Db = Db(flags: map<string, FlagRow>, rules: seq<Rule>, variants: seq<Variant>, overrides: seq<Override>)

  /** A flag as loaded into the cache. */
  datatype FlagView = FlagView(row: FlagRow, rules: seq<Rule>, variants: seq<Variant>, overrides: seq<Override>)

  /** A context attribute: a string, or another value with its %v rendering. */
  datatype CtxValue = IsString(s: string) | Other(rendered: string)

  type Ctx = map<string, CtxValue>

  function Rendered(v: CtxValue): string {
    match v
    case IsString(s) => s
    case Other(r) => r
  }

  // ---- evaluation of one loaded flag ----

  function BoolKey(b: bool): string {
    if b then "true" else "false"
  }

  predicate KeyToBool(key: string) {
    key != "false" && key != ""
  }

  function Resolve(r: Rule): string {
    if r.variantKey != "" then r.variantKey else BoolKey(r.variant)
  }

  predicate MatchRule(r: Rule, val: string) {
    if r.operator == "equals" then EqualFold(val, r.value)
    else if r.operator == "not_equals" then !EqualFold(val, r.value)
    else if r.operator == "contains" then Contains(Fold(val), Fold(r.value))
    else if r.operator == "in" then
      exists i | 0 <= i < |Split(r.value, ',')| :: EqualFold(TrimSpace(Split(r.value, ',')[i]), val)
    else false
  }

  predicate Applies(r: Rule, ctx: Ctx) {
    r.attribute in ctx && MatchRule(r, Rendered(ctx[r.attribute]))
  }

  /** The user id that overrides are looked up for, if any. */
  function UserOf(ctx: Ctx): Option<string> {
    if "userId" in ctx && ctx["userId"].IsString? && ctx["userId"].s != "" && ctx["userId"].s != "anonymous"
    then Some(ctx["userId"].s) else None
  }

  function FirstOverride(overrides: seq<Override>, user: string): (r: Option<Override>)
    ensures r.Some? ==> r.value in overrides && r.value.userId == user
    ensures r.None? ==> forall i | 0 <= i < |overrides| :: overrides[i].userId != user
  {
    if overrides == [] then None
    else if overrides[0].userId == user then Some(overrides[0])
    else FirstOverride(overrides[1..], user)
  }

  function FirstMatch(rules: seq<Rule>, ctx: Ctx): (r: Option<Rule>)
    ensures r.Some? ==> r.value in rules && Applies(r.value, ctx)
    ensures r.None? ==> forall i | 0 <= i < |rules| :: !Applies(rules[i], ctx)
  {
    if rules == [] then None
    else if Applies(rules[0], ctx) then Some(rules[0])
    else FirstMatch(rules[1..], ctx)
  }

  /** EvaluateVariant on a loaded flag: disabled, deprecated, override, draft, rules, testing, default. */
  function Evaluate(f: FlagView, ctx: Ctx): string {
    if !f.row.enabled then "false"
    else if f.row.status == DEPRECATED then BoolKey(f.row.defaultValue)
    else if UserOf(ctx).Some? && FirstOverride(f.overrides, UserOf(ctx).value).Some? then
      FirstOverride(f.overrides, UserOf(ctx).value).value.variantKey
    else if f.row.status == DRAFT then "false"
    else if FirstMatch(f.rules, ctx).Some? then Resolve(FirstMatch(f.rules, ctx).value)
    else if f.row.status == TESTING then "false"
    else BoolKey(f.row.defaultValue)
  }

  function EvaluateCached(cache: map<string, FlagView>, key: string, ctx: Ctx): string {
    if key in cache then Evaluate(cache[key], ctx) else "false"
  }

  // ---- the tables and the queries of reload ----

  /** An empty status reads as ga. */
  function Normal(row: FlagRow): FlagRow {
    if row.status == "" then row.(status := GA) else row
  }

  function RulesOf(rules: seq<Rule>, key: string): (r: seq<Rule>)
    ensures forall x :: x in r <==> x in rules && x.flagKey == key
  {
    if rules == [] then []
    else
      var n := |rules| - 1;
      var front := RulesOf(rules[..n], key);
      assert rules == rules[..n] + [rules[n]];
      if rules[n].flagKey == key then front + [rules[n]] else front
  }

  function VariantsOf(variants: seq<Variant>, key: string): (r: seq<Variant>)
    ensures forall x :: x in r <==> x in variants && x.flagKey == key
  {
    if variants == [] then []
    else
      var n := |variants| - 1;
      var front := VariantsOf(variants[..n], key);
      assert variants == variants[..n] + [variants[n]];
      if variants[n].flagKey == key then front + [variants[n]] else front
  }

  function OverridesOf(overrides: seq<Override>, key: string): (r: seq<Override>)
    ensures forall x :: x in r <==> x in overrides && x.flagKey == key
  {
    if overrides == [] then []
    else
      var n := |overrides| - 1;
      var front := OverridesOf(overrides[..n], key);
      assert overrides == overrides[..n] + [overrides[n]];
      if overrides[n].flagKey == key then front + [overrides[n]] else front
  }

  predicate ByPriority(a: Rule, b: Rule) { a.priority <= b.priority }

  predicate ByKey(a: Variant, b: Variant) { !Less(b.key, a.key) }

  predicate ByAge(a: Override, b: Override) { a.createdAt <= b.createdAt }

  lemma {:induction false} OrdersTotal()
    ensures TotalPreorder(ByPriority) && TotalPreorder(ByKey) && TotalPreorder(ByAge)
  {
    forall a: Variant, b: Variant ensures ByKey(a, b) || ByKey(b, a) {
      LessTrichotomy(a.key, b.key);
    }
    forall a: Variant, b: Variant, c: Variant | ByKey(a, b) && ByKey(b, c) ensures ByKey(a, c) {
      LessTransitive(a.key, b.key, c.key);
    }
  }

  /** What loading one flag may yield: ties in priority come in any order. */
  predicate LoadedFrom(v: FlagView, db: Db, key: string) {
    key in db.flags && v.row == Normal(db.flags[key])
    && IsOrdering(v.rules, RulesOf(db.rules, key), ByPriority)
    && IsOrdering(v.variants, VariantsOf(db.variants, key), ByKey)
    && IsOrdering(v.overrides, OverridesOf(db.overrides, key), ByAge)
  }

  /** The cache agrees with the database. */
  predicate Agrees(cache: map<string, FlagView>, db: Db) {
    cache.Keys == db.flags.Keys && forall key | key in cache :: LoadedFrom(cache[key], db, key)
  }

  /** A loaded flag holds exactly its own rows: rules by priority, variants by key, overrides oldest first. */
  lemma {:induction false} LoadedHolds(v: FlagView, db: Db, key: string)
    requires LoadedFrom(v, db, key)
    ensures var row := db.flags[key];
            v.row == FlagRow(row.id, row.name, row.description, row.enabled, row.defaultValue,
                             if row.status == "" then "ga" else row.status)
    ensures forall x :: x in v.rules <==> x in db.rules && x.flagKey == key
    ensures forall x :: x in v.variants <==> x in db.variants && x.flagKey == key
    ensures forall x :: x in v.overrides <==> x in db.overrides && x.flagKey == key
    ensures forall i, j | 0 <= i < j < |v.rules| :: v.rules[i].priority <= v.rules[j].priority
    ensures forall i, j | 0 <= i < j < |v.variants| :: !Less(v.variants[j].key, v.variants[i].key)
    ensures forall i, j | 0 <= i < j < |v.overrides| :: v.overrides[i].createdAt <= v.overrides[j].createdAt
  {
    forall x: Rule ensures x in v.rules <==> x in db.rules && x.flagKey == key {
      SameMembers(v.rules, RulesOf(db.rules, key), x);
    }
    forall x: Variant ensures x in v.variants <==> x in db.variants && x.flagKey == key {
      SameMembers(v.variants, VariantsOf(db.variants, key), x);
    }
    forall x: Override ensures x in v.overrides <==> x in db.overrides && x.flagKey == key {
      SameMembers(v.overrides, OverridesOf(db.overrides, key), x);
    }
    OwnOrder(v, db, key);
  }

  lemma {:induction false} OwnOrder(v: FlagView, db: Db, key: string)
    requires LoadedFrom(v, db, key)
    ensures forall i, j | 0 <= i < j < |v.rules| :: v.rules[i].priority <= v.rules[j].priority
    ensures forall i, j | 0 <= i < j < |v.variants| :: !Less(v.variants[j].key, v.variants[i].key)
    ensures forall i, j | 0 <= i < j < |v.overrides| :: v.overrides[i].createdAt <= v.overrides[j].createdAt
  {
    assert forall i, j | 0 <= i < j < |v.rules| :: ByPriority(v.rules[i], v.rules[j]);
    assert forall i, j | 0 <= i < j < |v.variants| :: ByKey(v.variants[i], v.variants[j]);
    assert forall i, j | 0 <= i < j < |v.overrides| :: ByAge(v.overrides[i], v.overrides[j]);
  }

  /** The constraints the database keeps: foreign keys on flag_key, UNIQUE(flag_key, user_id), UNIQUE(flag_key, key). */
  predicate DbOk(db: Db) {
    && (forall i | 0 <= i < |db.rules| :: db.rules[i].flagKey in db.flags)
    && (forall i | 0 <= i < |db.variants| :: db.variants[i].flagKey in db.flags)
    && (forall i | 0 <= i < |db.overrides| :: db.overrides[i].flagKey in db.flags)
    && DistinctPins(db.overrides) && DistinctVariants(db.variants)
  }

  predicate SamePin(a: Override, b: Override) {
    a.flagKey == b.flagKey && a.userId == b.userId
  }

  predicate DistinctPins(overrides: seq<Override>) {
    forall i, j | 0 <= i < j < |overrides| :: !SamePin(overrides[i], overrides[j])
  }

  predicate SameVariant(a: Variant, b: Variant) {
    a.flagKey == b.flagKey && a.key == b.key
  }

  predicate DistinctVariants(variants: seq<Variant>) {
    forall i, j | 0 <= i < j < |variants| :: !SameVariant(variants[i], variants[j])
  }

  // ---- the direct definition of the answer ----

  predicate Pins(o: Override, key: string, user: string) {
    o.flagKey == key && o.userId == user
  }

  /** The context names this user, and not as anonymous. */
  predicate Named(ctx: Ctx, user: string) {
    "userId" in ctx && ctx["userId"] == IsString(user) && user != "" && user != "anonymous"
  }

  predicate PinsFor(o: Override, key: string, ctx: Ctx) {
    o.flagKey == key && Named(ctx, o.userId)
  }

  ghost predicate Pinned(db: Db, key: string, ctx: Ctx) {
    exists o | o in db.overrides :: PinsFor(o, key, ctx)
  }

  /** The value is one of the comma-separated parts, white space around it aside. */
  ghost predicate AmongParts(list: string, val: string) {
    exists a, b, c, d :: Piece(list, ',', a, b) && Stripped(list[a..b], c, d) && SameText(list[a..b][c..d], val)
  }

  /** What each operator asks of an attribute's text, letter case aside. */
  ghost predicate Asks(operator: string, wanted: string, val: string) {
    match operator
    case "equals" => SameText(val, wanted)
    case "not_equals" => !SameText(val, wanted)
    case "contains" => exists i :: ReadsAt(val, wanted, i)
    case "in" => AmongParts(wanted, val)
    case _ => false
  }

  ghost predicate Fires(r: Rule, key: string, ctx: Ctx) {
    r.flagKey == key && r.attribute in ctx
    && Asks(r.operator, r.value, if ctx[r.attribute].IsString? then ctx[r.attribute].s else ctx[r.attribute].rendered)
  }

  /** A rule answers with the variant it names, or else with its truth value. */
  predicate Gives(r: Rule, answer: string) {
    if r.variantKey != "" then answer == r.variantKey else answer == if r.variant then "true" else "false"
  }

  /** A rule that fires and has the least priority among all that do. */
  ghost predicate Wins(db: Db, r: Rule, key: string, ctx: Ctx) {
    r in db.rules && Fires(r, key, ctx) && forall x | x in db.rules && Fires(x, key, ctx) :: r.priority <= x.priority
  }

  /** The answers that the four tables allow for a flag and a context. More than one only if winning rules tie. */
  ghost predicate Allowed(db: Db, key: string, ctx: Ctx, answer: string) {
    if key !in db.flags || !db.flags[key].enabled then answer == "false"
    else
      var status, byDefault := db.flags[key].status, if db.flags[key].defaultValue then "true" else "false";
      if status == "deprecated" then answer == byDefault
      else if Pinned(db, key, ctx) then
        exists o | o in db.overrides :: PinsFor(o, key, ctx) && answer == o.variantKey
      else if status == "draft" then answer == "false"
      else if exists r | r in db.rules :: Fires(r, key, ctx) then
        exists r | r in db.rules :: Wins(db, r, key, ctx) && Gives(r, answer)
      else if status == "testing" then answer == "false"
      else answer == byDefault
  }

  ghost predicate SameGives(r: Rule, x: Rule) {
    forall answer :: Gives(r, answer) <==> Gives(x, answer)
  }

  /** Rules that tie for the win give the same answer. */
  ghost predicate Untied(db: Db, key: string, ctx: Ctx) {
    forall r, x | Wins(db, r, key, ctx) && Wins(db, x, key, ctx) :: SameGives(r, x)
  }

  // ---- the operators mean what they ask ----

  predicate SomePart(parts: seq<string>, val: string) {
    exists i | 0 <= i < |parts| :: EqualFold(TrimSpace(parts[i]), val)
  }

  lemma {:induction false} InMeans(list: string, val: string)
    ensures SomePart(Split(list, ','), val) <==> AmongParts(list, val)
  {
    var parts := Split(list, ',');
    if i :| 0 <= i < |parts| && EqualFold(TrimSpace(parts[i]), val) {
      SplitMeans(list, ',', parts[i]);
      var a, b :| Piece(list, ',', a, b) && list[a..b] == parts[i];
      var c, d := StrippedAt(list[a..b]);
      TrimMeans(list[a..b], c, d);
      EqualFoldMeans(list[a..b][c..d], val);
    }
    if a, b, c, d :|
      Piece(list, ',', a, b) && Stripped(list[a..b], c, d) && SameText(list[a..b][c..d], val)
    {
      SplitMeans(list, ',', list[a..b]);
      var i :| 0 <= i < |parts| && parts[i] == list[a..b];
      TrimMeans(list[a..b], c, d);
      EqualFoldMeans(list[a..b][c..d], val);
    }
  }

  /** A rule matches a value exactly when its operator asks for it. */
  lemma {:induction false} MatchRuleMeans(r: Rule, val: string)
    ensures MatchRule(r, val) <==> Asks(r.operator, r.value, val)
  {
    EqualFoldMeans(val, r.value);
    ContainsMeans(val, r.value);
    InMeans(r.value, val);
    assert SomePart(Split(r.value, ','), val) <==>
           exists i | 0 <= i < |Split(r.value, ',')| :: EqualFold(TrimSpace(Split(r.value, ',')[i]), val);
  }

  lemma {:induction false} FiresMeans(r: Rule, key: string, ctx: Ctx)
    ensures Fires(r, key, ctx) <==> Hits(r, key, ctx)
  {
    if r.attribute in ctx { MatchRuleMeans(r, Rendered(ctx[r.attribute])); }
  }

  lemma {:induction false} GivesResolved(r: Rule, answer: string)
    ensures Gives(r, answer) <==> answer == Resolve(r)
  {}

  lemma {:induction false} PinsForUser(o: Override, key: string, ctx: Ctx)
    ensures PinsFor(o, key, ctx) <==> UserOf(ctx).Some? && Pins(o, key, UserOf(ctx).value)
  {}

  // ---- the same answers in the terms that evaluation uses ----

  predicate Hits(r: Rule, key: string, ctx: Ctx) {
    r.flagKey == key && Applies(r, ctx)
  }

  predicate Leads(db: Db, r: Rule, key: string, ctx: Ctx) {
    r in db.rules && Hits(r, key, ctx) && forall x | x in db.rules && Hits(x, key, ctx) :: r.priority <= x.priority
  }

  predicate Held(db: Db, key: string, ctx: Ctx) {
    UserOf(ctx).Some? && exists o | o in db.overrides :: Pins(o, key, UserOf(ctx).value)
  }

  predicate Answerable(db: Db, key: string, ctx: Ctx, answer: string) {
    if key !in db.flags || !db.flags[key].enabled then answer == "false"
    else
      var row := Normal(db.flags[key]);
      if row.status == DEPRECATED then answer == BoolKey(row.defaultValue)
      else if Held(db, key, ctx) then
        exists o | o in db.overrides :: Pins(o, key, UserOf(ctx).value) && answer == o.variantKey
      else if row.status == DRAFT then answer == "false"
      else if exists r | r in db.rules :: Hits(r, key, ctx) then
        exists r | r in db.rules :: Leads(db, r, key, ctx) && answer == Resolve(r)
      else if row.status == TESTING then answer == "false"
      else answer == BoolKey(row.defaultValue)
  }

  lemma {:induction false} WinsMeans(db: Db, r: Rule, key: string, ctx: Ctx)
    ensures Wins(db, r, key, ctx) <==> Leads(db, r, key, ctx)
  {
    forall x: Rule ensures Fires(x, key, ctx) <==> Hits(x, key, ctx) {
      FiresMeans(x, key, ctx);
    }
  }

  lemma {:induction false} PinnedMeans(db: Db, key: string, ctx: Ctx, answer: string)
    ensures Pinned(db, key, ctx) <==> Held(db, key, ctx)
    ensures Held(db, key, ctx) ==>
              ((exists o | o in db.overrides :: PinsFor(o, key, ctx) && answer == o.variantKey) <==>
               (exists o | o in db.overrides :: Pins(o, key, UserOf(ctx).value) && answer == o.variantKey))
  {
    forall o: Override ensures PinsFor(o, key, ctx) <==> UserOf(ctx).Some? && Pins(o, key, UserOf(ctx).value) {
      PinsForUser(o, key, ctx);
    }
  }

  lemma {:induction false} WinningMeans(db: Db, key: string, ctx: Ctx, answer: string)
    ensures (exists r | r in db.rules :: Fires(r, key, ctx)) <==> (exists r | r in db.rules :: Hits(r, key, ctx))
    ensures (exists r | r in db.rules :: Wins(db, r, key, ctx) && Gives(r, answer)) <==>
            (exists r | r in db.rules :: Leads(db, r, key, ctx) && answer == Resolve(r))
  {
    forall r: Rule ensures Fires(r, key, ctx) <==> Hits(r, key, ctx) {
      FiresMeans(r, key, ctx);
    }
    forall r: Rule
      ensures Wins(db, r, key, ctx) && Gives(r, answer) <==> Leads(db, r, key, ctx) && answer == Resolve(r)
    {
      WinsMeans(db, r, key, ctx);
      GivesResolved(r, answer);
    }
  }

  /** The direct definition and evaluation's own terms allow the same answers. */
  lemma {:induction false} AllowedMeans(db: Db, key: string, ctx: Ctx, answer: string)
    ensures Allowed(db, key, ctx, answer) <==> Answerable(db, key, ctx, answer)
  {
    PinnedMeans(db, key, ctx, answer);
    WinningMeans(db, key, ctx, answer);
  }

  // ---- evaluation on an agreeing cache gives an allowed answer ----

  lemma {:induction false} FirstMatchIsLeast(rules: seq<Rule>, ctx: Ctx)
    requires Sorted(rules, ByPriority) && FirstMatch(rules, ctx).Some?
    ensures forall x | x in rules && Applies(x, ctx) :: FirstMatch(rules, ctx).value.priority <= x.priority
  {
    if Applies(rules[0], ctx) {
      forall x | x in rules && Applies(x, ctx) ensures rules[0].priority <= x.priority {
        var j :| 0 <= j < |rules| && rules[j] == x;
        if j > 0 { assert ByPriority(rules[0], rules[j]); }
      }
    } else {
      FirstMatchIsLeast(rules[1..], ctx);
      forall x | x in rules && Applies(x, ctx) ensures x in rules[1..] {
        InTail(rules, x);
      }
    }
  }

  lemma {:induction false} RulesTransfer(v: FlagView, db: Db, key: string, ctx: Ctx)
    requires LoadedFrom(v, db, key)
    ensures FirstMatch(v.rules, ctx).Some? <==> exists r | r in db.rules :: Hits(r, key, ctx)
    ensures FirstMatch(v.rules, ctx).Some? ==> Leads(db, FirstMatch(v.rules, ctx).value, key, ctx)
  {
    var mine := RulesOf(db.rules, key);
    forall r: Rule ensures r in v.rules <==> r in db.rules && r.flagKey == key {
      SameMembers(v.rules, mine, r);
    }
    if FirstMatch(v.rules, ctx).Some? {
      FirstMatchIsLeast(v.rules, ctx);
    }
  }

  lemma {:induction false} OverridesTransfer(v: FlagView, db: Db, key: string, user: string)
    requires LoadedFrom(v, db, key)
    ensures FirstOverride(v.overrides, user).Some? <==> exists o | o in db.overrides :: Pins(o, key, user)
    ensures FirstOverride(v.overrides, user).Some? ==>
              FirstOverride(v.overrides, user).value in db.overrides
                    && Pins(FirstOverride(v.overrides, user).value, key, user)
  {
    var mine := OverridesOf(db.overrides, key);
    forall o: Override ensures o in v.overrides <==> o in db.overrides && o.flagKey == key {
      SameMembers(v.overrides, mine, o);
    }
  }

  lemma {:induction false} CacheAnswers(cache: map<string, FlagView>, db: Db, key: string, ctx: Ctx)
    requires Agrees(cache, db)
    ensures Answerable(db, key, ctx, EvaluateCached(cache, key, ctx))
  {
    if key in cache {
      RulesTransfer(cache[key], db, key, ctx);
      if UserOf(ctx).Some? { OverridesTransfer(cache[key], db, key, UserOf(ctx).value); }
    }
  }

  /** Evaluating an agreeing cache gives an answer that the tables allow, for every flag and context. */
  lemma {:induction false} CacheAnswersAllowed(cache: map<string, FlagView>, db: Db, key: string, ctx: Ctx)
    requires Agrees(cache, db)
    ensures Allowed(db, key, ctx, EvaluateCached(cache, key, ctx))
  {
    CacheAnswers(cache, db, key, ctx);
    AllowedMeans(db, key, ctx, EvaluateCached(cache, key, ctx));
  }

  /** At most one override applies, and without ties there is exactly one allowed answer. */
  lemma {:induction false} AllowedUnique(db: Db, key: string, ctx: Ctx, a: string, b: string)
    requires DbOk(db) && Allowed(db, key, ctx, a) && Allowed(db, key, ctx, b)
    requires Untied(db, key, ctx)
    ensures a == b
  {
    AllowedMeans(db, key, ctx, a);
    AllowedMeans(db, key, ctx, b);
    forall r, x | Leads(db, r, key, ctx) && Leads(db, x, key, ctx) ensures Resolve(r) == Resolve(x) {
      UntiedPair(db, key, ctx, r, x);
    }
    AnswerableUnique(db, key, ctx, a, b);
  }

  lemma {:induction false} UntiedPair(db: Db, key: string, ctx: Ctx, r: Rule, x: Rule)
    requires Untied(db, key, ctx) && Leads(db, r, key, ctx) && Leads(db, x, key, ctx)
    ensures Resolve(r) == Resolve(x)
  {
    WinsMeans(db, r, key, ctx);
    WinsMeans(db, x, key, ctx);
    SameGivesResolve(r, x);
  }

  lemma {:induction false} SameGivesResolve(r: Rule, x: Rule)
    requires SameGives(r, x)
    ensures Resolve(r) == Resolve(x)
  {
    assert Gives(r, Resolve(r));
    assert Gives(x, Resolve(r));
  }

  lemma {:induction false} AnswerableUnique(db: Db, key: string, ctx: Ctx, a: string, b: string)
    requires DbOk(db) && Answerable(db, key, ctx, a) && Answerable(db, key, ctx, b)
    requires forall r, x | Leads(db, r, key, ctx) && Leads(db, x, key, ctx) :: Resolve(r) == Resolve(x)
    ensures a == b
  {}

  lemma {:induction false} OneOverride(db: Db, o: Override, p: Override)
    requires DbOk(db) && o in db.overrides && p in db.overrides && o.flagKey == p.flagKey && o.userId == p.userId
    ensures o == p
  {}

  // ---- every allowed answer is the answer of some load ----

  function Below(rules: seq<Rule>, p: int): (r: seq<Rule>)
    ensures forall x | x in r :: x in rules && x.priority < p
  {
    if rules == [] then []
    else
      var n := |rules| - 1;
      var front := Below(rules[..n], p);
      if rules[n].priority < p then front + [rules[n]] else front
  }

  function FromOn(rules: seq<Rule>, p: int): (r: seq<Rule>)
    ensures forall x | x in r :: x in rules && x.priority >= p
  {
    if rules == [] then []
    else
      var n := |rules| - 1;
      var front := FromOn(rules[..n], p);
      if rules[n].priority >= p then front + [rules[n]] else front
  }

  lemma {:induction false} BelowAndFromOn(rules: seq<Rule>, p: int)
    ensures multiset(Below(rules, p)) + multiset(FromOn(rules, p)) == multiset(rules)
  {
    if rules != [] {
      var n := |rules| - 1;
      BelowAndFromOn(rules[..n], p);
      assert rules == rules[..n] + [rules[n]];
    }
  }

  lemma {:induction false} FirstMatchSkips(a: seq<Rule>, b: seq<Rule>, ctx: Ctx)
    requires forall x | x in a :: !Applies(x, ctx)
    ensures FirstMatch(a + b, ctx) == FirstMatch(b, ctx)
  {
    if a == [] {
      assert a + b == b;
    } else {
      assert (a + b)[1..] == a[1..] + b;
      FirstMatchSkips(a[1..], b, ctx);
    }
  }

  lemma {:induction false} SortedThree(a: seq<Rule>, r: Rule, b: seq<Rule>)
    requires Sorted(a, ByPriority) && Sorted(b, ByPriority)
    requires (forall x | x in a :: x.priority < r.priority) && (forall x | x in b :: r.priority <= x.priority)
    ensures Sorted(a + [r] + b, ByPriority)
  {}

  lemma {:induction false} MembersOf(a: seq<Rule>, b: seq<Rule>)
    requires multiset(a) == multiset(b)
    ensures forall x :: x in a <==> x in b
  {
    forall x ensures x in a <==> x in b {
      SameMembers(a, b, x);
    }
  }

  lemma {:induction false} WithoutOne(rules: seq<Rule>, k: nat) returns (others: seq<Rule>)
    requires k < |rules|
    ensures multiset(rules) == multiset(others) + multiset{rules[k]} && forall x | x in others :: x in rules
  {
    others := rules[..k] + rules[k + 1..];
    assert rules == rules[..k] + [rules[k]] + rules[k + 1..];
  }

  /** The rules below a priority and those from it on, each in order. */
  lemma {:induction false} SortedHalves(rules: seq<Rule>, p: int) returns (low: seq<Rule>, high: seq<Rule>)
    ensures multiset(low) + multiset(high) == multiset(rules) && Sorted(low, ByPriority) && Sorted(high, ByPriority)
    ensures (forall x | x in low :: x in rules && x.priority < p) && (forall x | x in high :: x.priority >= p)
  {
    OrdersTotal();
    low, high := Sort(Below(rules, p), ByPriority), Sort(FromOn(rules, p), ByPriority);
    BelowAndFromOn(rules, p);
    SortOrders(Below(rules, p), ByPriority);
    SortOrders(FromOn(rules, p), ByPriority);
    MembersOf(low, Below(rules, p));
    MembersOf(high, FromOn(rules, p));
  }

  /** Some ordering of the rules puts a given winning rule before every other rule that applies. */
  lemma {:induction false} OrderFor(rules: seq<Rule>, r: Rule, ctx: Ctx) returns (out: seq<Rule>)
    requires r in rules && Applies(r, ctx) && forall x | x in rules && Applies(x, ctx) :: r.priority <= x.priority
    ensures IsOrdering(out, rules, ByPriority) && FirstMatch(out, ctx) == Some(r)
  {
    var k :| 0 <= k < |rules| && rules[k] == r;
    var others := WithoutOne(rules, k);
    var low, high := SortedHalves(others, r.priority);
    SortedThree(low, r, high);
    out := low + [r] + high;
    assert out == low + ([r] + high);
    FirstMatchSkips(low, [r] + high, ctx);
  }

  /** The tables allow no answer that evaluation could not give: for some order of tied rules it gives it. */
  lemma {:induction false} AllowedIsReachable(db: Db, key: string, ctx: Ctx, answer: string) returns (v: FlagView)
    requires DbOk(db) && key in db.flags && Allowed(db, key, ctx, answer)
    ensures LoadedFrom(v, db, key) && Evaluate(v, ctx) == answer
  {
    AllowedMeans(db, key, ctx, answer);
    v := AnswerableIsReachable(db, key, ctx, answer);
  }

  lemma {:induction false} AnswerableIsReachable(db: Db, key: string, ctx: Ctx, answer: string) returns (v: FlagView)
    requires DbOk(db) && key in db.flags && Answerable(db, key, ctx, answer)
    ensures LoadedFrom(v, db, key) && Evaluate(v, ctx) == answer
  {
    OrdersTotal();
    SortOrders(RulesOf(db.rules, key), ByPriority);
    SortOrders(VariantsOf(db.variants, key), ByKey);
    SortOrders(OverridesOf(db.overrides, key), ByAge);
    v := FlagView(Normal(db.flags[key]), Sort(RulesOf(db.rules, key), ByPriority),
                  Sort(VariantsOf(db.variants, key), ByKey), Sort(OverridesOf(db.overrides, key), ByAge));
    RulesTransfer(v, db, key, ctx);
    if UserOf(ctx).Some? { OverridesTransfer(v, db, key, UserOf(ctx).value); }
    if v.row.enabled && v.row.status != DEPRECATED {
      if Held(db, key, ctx) {
        var o :| o in db.overrides && Pins(o, key, UserOf(ctx).value) && answer == o.variantKey;
        OneOverride(db, o, FirstOverride(v.overrides, UserOf(ctx).value).value);
      } else if v.row.status != DRAFT && FirstMatch(v.rules, ctx).Some? {
        var r :| r in db.rules && Leads(db, r, key, ctx) && answer == Resolve(r);
        var rules := OrderFor(RulesOf(db.rules, key), r, ctx);
        v := v.(rules := rules);
      }
    }
  }

  // ---- replacing an `in` rule ----

  /** One equals rule for each trimmed part of an `in` rule's value. */
  function EqualsRules(r: Rule, parts: seq<string>): seq<Rule> {
    if parts == [] then []
    else [r.(operator := "equals", value := TrimSpace(parts[0]))] + EqualsRules(r, parts[1..])
  }

  lemma {:induction false} SomePartCons(parts: seq<string>, val: string)
    requires parts != []
    ensures SomePart(parts, val) <==> EqualFold(TrimSpace(parts[0]), val) || SomePart(parts[1..], val)
  {}

  lemma {:induction false} EqualsRulesMatch(r: Rule, parts: seq<string>, rest: seq<Rule>, ctx: Ctx)
    ensures var m := FirstMatch(EqualsRules(r, parts) + rest, ctx);
            if r.attribute in ctx && SomePart(parts, Rendered(ctx[r.attribute]))
            then m.Some? && Resolve(m.value) == Resolve(r) else m == FirstMatch(rest, ctx)
  {
    if parts == [] {
      assert EqualsRules(r, parts) + rest == rest;
    } else {
      var head := r.(operator := "equals", value := TrimSpace(parts[0]));
      var all := EqualsRules(r, parts) + rest;
      assert all[0] == head && all[1..] == EqualsRules(r, parts[1..]) + rest;
      EqualsRulesMatch(r, parts[1..], rest, ctx);
      if r.attribute in ctx { SomePartCons(parts, Rendered(ctx[r.attribute])); }
    }
  }

  /** What the first match resolves to, if any. */
  function Outcome(rules: seq<Rule>, ctx: Ctx): Option<string> {
    match FirstMatch(rules, ctx)
    case None => None
    case Some(r) => Some(Resolve(r))
  }

  lemma {:induction false} OutcomeCons(r: Rule, rest: seq<Rule>, ctx: Ctx)
    ensures Outcome([r] + rest, ctx) == if Applies(r, ctx) then Some(Resolve(r)) else Outcome(rest, ctx)
  {}

  lemma {:induction false} OutcomePrefix(a: seq<Rule>, b: seq<Rule>, c: seq<Rule>, ctx: Ctx)
    requires Outcome(b, ctx) == Outcome(c, ctx)
    ensures Outcome(a + b, ctx) == Outcome(a + c, ctx)
  {
    if a == [] {
      assert a + b == b && a + c == c;
    } else {
      OutcomePrefix(a[1..], b, c, ctx);
      OutcomeCons(a[0], a[1..] + b, ctx);
      OutcomeCons(a[0], a[1..] + c, ctx);
      HeadTail(a, b);
      HeadTail(a, c);
    }
  }

  lemma {:induction false} OutcomeInRule(r: Rule, rest: seq<Rule>, ctx: Ctx)
    requires r.operator == "in"
    ensures Outcome(EqualsRules(r, Split(r.value, ',')) + rest, ctx) == Outcome([r] + rest, ctx)
  {
    EqualsRulesMatch(r, Split(r.value, ','), rest, ctx);
    OutcomeCons(r, rest, ctx);
  }

  lemma {:induction false} SameOutcomeSameAnswer(f: FlagView, rules: seq<Rule>, ctx: Ctx)
    requires Outcome(rules, ctx) == Outcome(f.rules, ctx)
    ensures Evaluate(f.(rules := rules), ctx) == Evaluate(f, ctx)
  {}

  /**
   * Replacing an `in` rule by consecutive `equals` rules, one for each trimmed comma-separated part,
   * never changes what a flag evaluates to.
   */
  lemma {:induction false} InRuleAsEqualsRules(f: FlagView, i: nat, ctx: Ctx)
    requires i < |f.rules| && f.rules[i].operator == "in"
    ensures var instead := EqualsRules(f.rules[i], Split(f.rules[i].value, ','));
            Evaluate(f.(rules := f.rules[..i] + instead + f.rules[i + 1..]), ctx) == Evaluate(f, ctx)
  {
    var r, rest := f.rules[i], f.rules[i + 1..];
    var parts := EqualsRules(r, Split(r.value, ','));
    OutcomeInRule(r, rest, ctx);
    OutcomePrefix(f.rules[..i], parts + rest, [r] + rest, ctx);
    assert f.rules == f.rules[..i] + ([r] + rest);
    Assoc(f.rules[..i], parts, rest);
    SameOutcomeSameAnswer(f, f.rules[..i] + parts + rest, ctx);
  }
}
