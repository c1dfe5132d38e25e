/** The statements the feature engine sends, with the constraints the database enforces, and what they do to answers. */
module FeatureStore {
  import opened Wrappers
  import opened Seqs
  import opened FeatureModel

  // ---- flags and rules ----

  predicate IdTaken(flags: map<string, FlagRow>, id: string) {
    exists key | key in flags :: flags[key].id == id
  }

  /** INSERT INTO feature_flags: id and key are unique. */
  function InsertFlag(db: Db, key: string, row: FlagRow): Outcome<Db> {
    if key in db.flags || IdTaken(db.flags, row.id) then Failed else Done(db.(flags := db.flags[key := row]))
  }

  predicate RuleIdTaken(rules: seq<Rule>, id: string) {
    exists i | 0 <= i < |rules| :: rules[i].id == id
  }

  /** INSERT INTO flag_rules: the flag exists and the id is unique. */
  function InsertRule(db: Db, r: Rule): Outcome<Db> {
    if r.flagKey !in db.flags || RuleIdTaken(db.rules, r.id) then Failed
    else Done(db.(rules := db.rules + [r]))
  }

  /** Rules inserted one after another up to the first that fails: the database then, and whether all went in. */
  function InsertRules(db: Db, rules: seq<Rule>): (Db, bool) {
    if rules == [] then (db, true)
    else
      var (d, ok) := InsertRules(db, rules[..|rules| - 1]);
      if !ok then (d, false)
      else match InsertRule(d, rules[|rules| - 1])
        case Failed => (d, false)
        case Done(next) => (next, true)
  }

  function UpdateFlagRow(db: Db, key: string, name: string, description: string, enabled: bool, defaultValue: bool,
          status: string): Db {
    if key !in db.flags then db
    else db.(flags := db.flags[key := FlagRow(db.flags[key].id, name, description, enabled, defaultValue, status)])
  }

  function SetStatus(db: Db, key: string, status: string): Db {
    if key !in db.flags then db else db.(flags := db.flags[key := db.flags[key].(status := status)])
  }

  predicate KnownStatus(status: string) {
    status == DRAFT || status == TESTING || status == GA || status == DEPRECATED
  }

  function OtherRules(rules: seq<Rule>, key: string): (r: seq<Rule>)
    ensures forall x :: x in r <==> x in rules && x.flagKey != key
  {
    if rules == [] then []
    else
      var n := |rules| - 1;
      var front := OtherRules(rules[..n], key);
      assert rules == rules[..n] + [rules[n]];
      if rules[n].flagKey == key then front else front + [rules[n]]
  }

  /** The overrides left when those of a flag (or of one user of it) are deleted. */
  function OtherOverrides(overrides: seq<Override>, key: string, user: Option<string>): (r: seq<Override>)
    ensures forall x :: x in r <==> x in overrides && !(x.flagKey == key && (user == None || user == Some(x.userId)))
  {
    if overrides == [] then []
    else
      var n := |overrides| - 1;
      var front := OtherOverrides(overrides[..n], key, user);
      assert overrides == overrides[..n] + [overrides[n]];
      if overrides[n].flagKey == key && (user == None || user == Some(overrides[n].userId)) then front
            else front + [overrides[n]]
  }

  /** The variants left when those of a flag (or one of them) are deleted. */
  function OtherVariants(variants: seq<Variant>, key: string, variant: Option<string>): (r: seq<Variant>)
    ensures forall x :: x in r <==> x in variants && !(x.flagKey == key && (variant == None || variant == Some(x.key)))
  {
    if variants == [] then []
    else
      var n := |variants| - 1;
      var front := OtherVariants(variants[..n], key, variant);
      assert variants == variants[..n] + [variants[n]];
      if variants[n].flagKey == key && (variant == None || variant == Some(variants[n].key)) then front
            else front + [variants[n]]
  }

  /** DELETE FROM feature_flags, cascading to the other three tables. */
  function DeleteFlagRow(db: Db, key: string): Db {
    if key !in db.flags then db
    else Db(db.flags - {key}, OtherRules(db.rules, key), OtherVariants(db.variants, key, None),
          OtherOverrides(db.overrides, key, None))
  }

  // ---- variants and overrides ----

  function InsertVariant(db: Db, v: Variant): Outcome<Db> {
    if v.flagKey !in db.flags || exists i | 0 <= i < |db.variants| :: SameVariant(db.variants[i], v) then Failed
    else Done(db.(variants := db.variants + [v]))
  }

  function DeleteVariantRow(db: Db, flagKey: string, key: string): Db {
    db.(variants := OtherVariants(db.variants, flagKey, Some(key)))
  }

  predicate HasOverride(overrides: seq<Override>, key: string, user: string) {
    exists i | 0 <= i < |overrides| :: Pins(overrides[i], key, user)
  }

  /** ON CONFLICT(flag_key, user_id) DO UPDATE SET variant_key */
  function Repin(overrides: seq<Override>, key: string, user: string, variantKey: string): (r: seq<Override>)
    ensures |r| == |overrides|
    ensures forall i | 0 <= i < |r| ::
              r[i] == if Pins(overrides[i], key, user) then overrides[i].(variantKey := variantKey) else overrides[i]
  {
    seq(|overrides|, i requires 0 <= i < |overrides| =>
      if Pins(overrides[i], key, user) then overrides[i].(variantKey := variantKey) else overrides[i])
  }

  function UpsertOverride(db: Db, o: Override): Outcome<Db> {
    if o.flagKey !in db.flags then Failed
    else if HasOverride(db.overrides, o.flagKey, o.userId) then
      Done(db.(overrides := Repin(db.overrides, o.flagKey, o.userId, o.variantKey)))
    else Done(db.(overrides := db.overrides + [o]))
  }

  function DeleteOverrideRow(db: Db, key: string, user: string): Db {
    db.(overrides := OtherOverrides(db.overrides, key, Some(user)))
  }

  // ---- the calls of the engine ----

  datatype Call =
    | CallCreateFlag(key: string, row: FlagRow, rules: seq<Rule>)
    | CallUpdateFlag(key: string, name: string, description: string, enabled: bool, defaultValue: bool, status: string)
    | CallTransition(key: string, status: string)
    | CallDeleteFlag(key: string)
    | CallCreateVariant(v: Variant)
    | CallDeleteVariant(key: string, variantKey: string)
    | CallCreateOverride(o: Override)
    | CallDeleteOverride(key: string, userId: string)

  /** Rules bound to the flag they are created with. */
  function BoundTo(rules: seq<Rule>, key: string): (r: seq<Rule>)
    ensures |r| == |rules| && forall i | 0 <= i < |r| :: r[i] == rules[i].(flagKey := key)
  {
    seq(|rules|, i requires 0 <= i < |rules| => rules[i].(flagKey := key))
  }

  function FlagCreated(db: Db, key: string, row: FlagRow, rules: seq<Rule>): (Db, bool) {
    match InsertFlag(db, key, row)
    case Failed => (db, false)
    case Done(d) => InsertRules(d, rules)
  }

  /** What a statement that inserts or fails leaves, and whether its call returned nil. */
  function Inserting(db: Db, o: Outcome<Db>): (Db, bool) {
    if o.Done? then (o.value, true) else (db, false)
  }

  /** The database after a call, and whether the call returned nil. */
  function Effect(db: Db, call: Call): (Db, bool) {
    match call
    case CallCreateFlag(key, row, rules) => FlagCreated(db, key, row, BoundTo(rules, key))
    case CallUpdateFlag(key, name, description, enabled, defaultValue, status) =>
      (UpdateFlagRow(db, key, name, description, enabled, defaultValue, status), true)
    case CallTransition(key, status) => if KnownStatus(status) then (SetStatus(db, key, status), true) else (db, false)
    case CallDeleteFlag(key) => (DeleteFlagRow(db, key), true)
    case CallCreateVariant(v) => Inserting(db, InsertVariant(db, v))
    case CallDeleteVariant(key, variantKey) => (DeleteVariantRow(db, key, variantKey), true)
    case CallCreateOverride(o) => Inserting(db, UpsertOverride(db, o))
    case CallDeleteOverride(key, userId) => (DeleteOverrideRow(db, key, userId), true)
  }

  datatype State = State(db: Db, cache: map<string, FlagView>)

  /** One call: a nil return reloads, an error leaves the cache. */
  predicate Step(s: State, call: Call, t: State) {
    t.db == Effect(s.db, call).0 && if Effect(s.db, call).1 then Agrees(t.cache, t.db) else t.cache == s.cache
  }

  // ---- what a call leaves ----

  /** The flag a call is about. */
  function FlagOf(call: Call): string {
    match call
    case CallCreateVariant(v) => v.flagKey
    case CallCreateOverride(o) => o.flagKey
    case _ => call.key
  }

  /** Row, rules, variants and overrides of a flag are the same in two databases. */
  ghost predicate SameFlag(a: Db, b: Db, k: string) {
    && (k in a.flags <==> k in b.flags) && (k in a.flags && k in b.flags ==> a.flags[k] == b.flags[k])
    && (forall r: Rule | r.flagKey == k :: r in a.rules <==> r in b.rules)
    && (forall v: Variant | v.flagKey == k :: v in a.variants <==> v in b.variants)
    && (forall o: Override | o.flagKey == k :: o in a.overrides <==> o in b.overrides)
  }

  lemma {:induction false} InsertRulesElsewhere(db: Db, rules: seq<Rule>, k: string)
    requires forall i | 0 <= i < |rules| :: rules[i].flagKey != k
    ensures SameFlag(db, InsertRules(db, rules).0, k)
  {
    if rules != [] { InsertRulesElsewhere(db, rules[..|rules| - 1], k); }
  }

  lemma {:induction false} FlagCreatedElsewhere(db: Db, key: string, row: FlagRow, rules: seq<Rule>, k: string)
    requires k != key && forall i | 0 <= i < |rules| :: rules[i].flagKey == key
    ensures SameFlag(db, FlagCreated(db, key, row, rules).0, k)
  {
    match InsertFlag(db, key, row)
    case Failed =>
    case Done(d) => InsertRulesElsewhere(d, rules, k);
  }

  lemma {:induction false} UpsertElsewhere(db: Db, o: Override, k: string)
    requires k != o.flagKey && UpsertOverride(db, o).Done?
    ensures SameFlag(db, UpsertOverride(db, o).value, k)
  {
    if HasOverride(db.overrides, o.flagKey, o.userId) {
      forall p: Override | p.flagKey == k ensures p in UpsertOverride(db, o).value.overrides <==> p in db.overrides {
        RepinMembers(db.overrides, o.flagKey, o.userId, o.variantKey, p);
      }
    }
  }

  /** A call about one flag leaves every other flag as it was. */
  lemma {:induction false} CallMovesOneFlag(db: Db, call: Call, k: string)
    requires FlagOf(call) != k
    ensures SameFlag(db, Effect(db, call).0, k)
  {
    match call
    case CallCreateFlag(key, row, rules) => FlagCreatedElsewhere(db, key, row, BoundTo(rules, key), k);
    case CallCreateOverride(o) => if UpsertOverride(db, o).Done? { UpsertElsewhere(db, o, k); }
    case _ =>
  }

  /** The answers for a flag depend on that flag only. */
  lemma {:induction false} SameFlagSameAnswers(a: Db, b: Db, k: string, ctx: Ctx, answer: string)
    requires SameFlag(a, b, k)
    ensures Allowed(a, k, ctx, answer) <==> Allowed(b, k, ctx, answer)
  {
    AllowedMeans(a, k, ctx, answer);
    AllowedMeans(b, k, ctx, answer);
    SameFlagAnswerable(a, b, k, ctx, answer);
  }

  lemma {:induction false} SameFlagAnswerable(a: Db, b: Db, k: string, ctx: Ctx, answer: string)
    requires SameFlag(a, b, k)
    ensures Answerable(a, k, ctx, answer) <==> Answerable(b, k, ctx, answer)
  {}

  /** When the inserts are accepted: keys, ids and names are unique, and the flag exists. */
  lemma {:induction false} InsertsAccepted(db: Db, key: string, row: FlagRow, r: Rule, v: Variant, o: Override)
    ensures InsertFlag(db, key, row).Done? <==> key !in db.flags && forall k | k in db.flags :: db.flags[k].id != row.id
    ensures InsertRule(db, r).Done? <==> r.flagKey in db.flags && forall x | x in db.rules :: x.id != r.id
    ensures InsertVariant(db, v).Done? <==>
            v.flagKey in db.flags && forall x | x in db.variants :: x.flagKey != v.flagKey || x.key != v.key
    ensures UpsertOverride(db, o).Done? <==> o.flagKey in db.flags
  {
    if InsertRule(db, r).Done? {
      assert forall i | 0 <= i < |db.rules| :: db.rules[i].id != r.id;
    }
    if InsertVariant(db, v).Done? {
      assert forall i | 0 <= i < |db.variants| :: !SameVariant(db.variants[i], v);
    }
  }

  /** A created flag reads back as given, and every other flag as before. */
  lemma {:induction false} CreateReadsBack(db: Db, key: string, row: FlagRow)
    requires InsertFlag(db, key, row).Done?
    ensures var after := InsertFlag(db, key, row).value;
            && after == db.(flags := after.flags) && after.flags.Keys == db.flags.Keys + {key}
            && after.flags[key] == row && forall k | k in db.flags :: after.flags[k] == db.flags[k]
  {}

  /** UpdateFlag and TransitionStatus read back as given and touch nothing else. */
  lemma {:induction false} UpdateReadsBack(db: Db, key: string, name: string, description: string, enabled: bool,
                                           defaultValue: bool, status: string)
    requires key in db.flags
    ensures var after := UpdateFlagRow(db, key, name, description, enabled, defaultValue, status);
            && after == db.(flags := after.flags) && after.flags.Keys == db.flags.Keys
            && var row := after.flags[key];
               row.id == db.flags[key].id && row.name == name && row.description == description
               && row.enabled == enabled && row.defaultValue == defaultValue && row.status == status
  {}

  lemma {:induction false} StatusReadsBack(db: Db, key: string, status: string)
    requires key in db.flags && KnownStatus(status)
    ensures var (after, ok) := Effect(db, CallTransition(key, status));
            && ok && after == db.(flags := after.flags) && after.flags.Keys == db.flags.Keys
            && after.flags[key].status == status
            && after.flags[key] == db.flags[key].(status := after.flags[key].status)
  {}

  /** Deprecating a flag takes overrides and rules out of play; drafting it takes the rules out. */
  lemma {:induction false} TransitionDecides(db: Db, key: string, status: string, ctx: Ctx, answer: string)
    requires key in db.flags && db.flags[key].enabled
    ensures var after := Effect(db, CallTransition(key, status)).0;
            && (status == "deprecated" ==>
                  (Allowed(after, key, ctx, answer) <==>
                   answer == if db.flags[key].defaultValue then "true" else "false"))
            && (status == "draft" && !Pinned(db, key, ctx) ==>
                  (Allowed(after, key, ctx, answer) <==> answer == "false"))
            && (status !in {"draft", "testing", "ga", "deprecated"} ==> after == db)
  {}

  /** A deleted flag answers "false" to everyone. */
  lemma {:induction false} DeletedAnswers(db: Db, key: string, ctx: Ctx, answer: string)
    ensures Allowed(DeleteFlagRow(db, key), key, ctx, answer) <==> answer == "false"
  {}

  // ---- what one call undoes ----

  lemma {:induction false} RuleGoes(rules: seq<Rule>, r: Rule, key: string)
    requires r.flagKey == key
    ensures OtherRules(rules + [r], key) == OtherRules(rules, key)
  {
    assert (rules + [r])[..|rules|] == rules;
  }

  lemma {:induction false} AddedRulesGo(rules: seq<Rule>, added: seq<Rule>, key: string)
    requires forall i | 0 <= i < |added| :: added[i].flagKey == key
    ensures OtherRules(rules + added, key) == OtherRules(rules, key)
  {
    assert rules + added[..0] == rules;
    for n := 0 to |added|
      invariant OtherRules(rules + added[..n], key) == OtherRules(rules, key)
    {
      RuleGoes(rules + added[..n], added[n], key);
      NextPrefix(added, n);
      Assoc(rules, added[..n], [added[n]]);
    }
    WholePrefix(added);
  }

  lemma {:induction false} AllOtherRules(rules: seq<Rule>, key: string)
    requires forall i | 0 <= i < |rules| :: rules[i].flagKey != key
    ensures OtherRules(rules, key) == rules
  {
    for n := 0 to |rules|
      invariant OtherRules(rules[..n], key) == rules[..n]
    {
      RuleStays(rules[..n], rules[n], key);
      NextPrefix(rules, n);
    }
    WholePrefix(rules);
  }

  lemma {:induction false} RuleStays(rules: seq<Rule>, r: Rule, key: string)
    requires r.flagKey != key && OtherRules(rules, key) == rules
    ensures OtherRules(rules + [r], key) == rules + [r]
  {
    assert (rules + [r])[..|rules|] == rules;
  }

  lemma {:induction false} AllOtherVariants(variants: seq<Variant>, key: string, variant: Option<string>)
    requires forall i | 0 <= i < |variants| ::
               !(variants[i].flagKey == key && (variant == None || variant == Some(variants[i].key)))
    ensures OtherVariants(variants, key, variant) == variants
  {
    for n := 0 to |variants|
      invariant OtherVariants(variants[..n], key, variant) == variants[..n]
    {
      VariantStays(variants[..n], variants[n], key, variant);
      NextPrefix(variants, n);
    }
    WholePrefix(variants);
  }

  lemma {:induction false} VariantStays(variants: seq<Variant>, v: Variant, key: string, variant: Option<string>)
    requires !(v.flagKey == key && (variant == None || variant == Some(v.key)))
    requires OtherVariants(variants, key, variant) == variants
    ensures OtherVariants(variants + [v], key, variant) == variants + [v]
  {
    assert (variants + [v])[..|variants|] == variants;
  }

  lemma {:induction false} AllOtherOverrides(overrides: seq<Override>, key: string, user: Option<string>)
    requires forall i | 0 <= i < |overrides| ::
               !(overrides[i].flagKey == key && (user == None || user == Some(overrides[i].userId)))
    ensures OtherOverrides(overrides, key, user) == overrides
  {
    for n := 0 to |overrides|
      invariant OtherOverrides(overrides[..n], key, user) == overrides[..n]
    {
      OverrideStays(overrides[..n], overrides[n], key, user);
      NextPrefix(overrides, n);
    }
    WholePrefix(overrides);
  }

  lemma {:induction false} OverrideStays(overrides: seq<Override>, o: Override, key: string, user: Option<string>)
    requires !(o.flagKey == key && (user == None || user == Some(o.userId)))
    requires OtherOverrides(overrides, key, user) == overrides
    ensures OtherOverrides(overrides + [o], key, user) == overrides + [o]
  {
    assert (overrides + [o])[..|overrides|] == overrides;
  }

  lemma {:induction false} InsertRulesAppends(db: Db, rules: seq<Rule>) returns (n: nat)
    ensures n <= |rules| && InsertRules(db, rules).0 == db.(rules := db.rules + rules[..n])
    ensures InsertRules(db, rules).1 <==> n == |rules|
  {
    if rules == [] {
      n := 0;
      assert db.rules + rules[..0] == db.rules;
    } else {
      var front := rules[..|rules| - 1];
      n := InsertRulesAppends(db, front);
      assert front[..n] == rules[..n];
      if InsertRules(db, rules).1 {
        n := |rules|;
        assert db.rules + rules == db.rules + front + [rules[|rules| - 1]];
      }
    }
  }

  /** Deleting a flag right after creating it gives the earlier database back, however many of its rules went in. */
  lemma {:induction false} DeleteUndoesCreateFlag(db: Db, key: string, row: FlagRow, rules: seq<Rule>)
    requires DbOk(db) && InsertFlag(db, key, row).Done? && forall i | 0 <= i < |rules| :: rules[i].flagKey == key
    ensures DeleteFlagRow(FlagCreated(db, key, row, rules).0, key) == db
  {
    var n := InsertRulesAppends(db.(flags := db.flags[key := row]), rules);
    DeleteUndoesRows(db, key, row, rules[..n]);
  }

  lemma {:induction false} DeleteUndoesRows(db: Db, key: string, row: FlagRow, rules: seq<Rule>)
    requires DbOk(db) && key !in db.flags && forall i | 0 <= i < |rules| :: rules[i].flagKey == key
    ensures DeleteFlagRow(Db(db.flags[key := row], db.rules + rules, db.variants, db.overrides), key) == db
  {
    AddedRulesGo(db.rules, rules, key);
    NothingOfFlag(db, key);
    assert db.flags[key := row] - {key} == db.flags;
  }

  /** A flag that does not exist has no rows in the other tables. */
  lemma {:induction false} NothingOfFlag(db: Db, key: string)
    requires DbOk(db) && key !in db.flags
    ensures OtherRules(db.rules, key) == db.rules && OtherVariants(db.variants, key, None) == db.variants
    ensures OtherOverrides(db.overrides, key, None) == db.overrides
  {
    AllOtherRules(db.rules, key);
    AllOtherVariants(db.variants, key, None);
    AllOtherOverrides(db.overrides, key, None);
  }

  /** Deleting a variant right after creating it gives the earlier database back; every other variant stays. */
  lemma {:induction false} DeleteUndoesCreateVariant(db: Db, v: Variant)
    requires InsertVariant(db, v).Done?
    ensures DeleteVariantRow(InsertVariant(db, v).value, v.flagKey, v.key) == db
  {
    forall i | 0 <= i < |db.variants| ensures !(db.variants[i].flagKey == v.flagKey && db.variants[i].key == v.key) {
      assert !SameVariant(db.variants[i], v);
    }
    AllOtherVariants(db.variants, v.flagKey, Some(v.key));
    assert (db.variants + [v])[..|db.variants|] == db.variants;
  }

  /** A created variant is added to those there were. */
  lemma {:induction false} VariantAdded(db: Db, v: Variant, x: Variant)
    requires InsertVariant(db, v).Done?
    ensures var after := InsertVariant(db, v).value;
            after == db.(variants := after.variants) && (x in after.variants <==> x in db.variants || x == v)
  {}

  lemma {:induction false} VariantsLeft(db: Db, flagKey: string, key: string, v: Variant)
    ensures v in DeleteVariantRow(db, flagKey, key).variants <==>
            v in db.variants && !(v.flagKey == flagKey && v.key == key)
    ensures DeleteVariantRow(db, flagKey, key) == db.(variants := DeleteVariantRow(db, flagKey, key).variants)
  {}

  // ---- the constraints are kept ----

  lemma {:induction false} InsertRulesKeepsDbOk(db: Db, rules: seq<Rule>)
    requires DbOk(db)
    ensures DbOk(InsertRules(db, rules).0) && InsertRules(db, rules).0.flags == db.flags
    ensures InsertRules(db, rules).0.overrides == db.overrides && InsertRules(db, rules).0.variants == db.variants
  {
    if rules != [] { InsertRulesKeepsDbOk(db, rules[..|rules| - 1]); }
  }

  lemma {:induction false} OtherOverridesDistinct(overrides: seq<Override>, key: string, user: Option<string>)
    requires DistinctPins(overrides)
    ensures DistinctPins(OtherOverrides(overrides, key, user))
  {
    if overrides != [] {
      var n := |overrides| - 1;
      OtherOverridesDistinct(overrides[..n], key, user);
      var front := OtherOverrides(overrides[..n], key, user);
      forall i | 0 <= i < |front| ensures !SamePin(front[i], overrides[n]) {
        assert front[i] in overrides[..n];
      }
    }
  }

  lemma {:induction false} OtherVariantsDistinct(variants: seq<Variant>, key: string, variant: Option<string>)
    requires DistinctVariants(variants)
    ensures DistinctVariants(OtherVariants(variants, key, variant))
  {
    if variants != [] {
      var n := |variants| - 1;
      OtherVariantsDistinct(variants[..n], key, variant);
      var front := OtherVariants(variants[..n], key, variant);
      forall i | 0 <= i < |front| ensures !SameVariant(front[i], variants[n]) {
        assert front[i] in variants[..n];
      }
    }
  }

  lemma {:induction false} DeleteFlagKeepsDbOk(db: Db, key: string)
    requires DbOk(db)
    ensures DbOk(DeleteFlagRow(db, key))
  {
    OtherOverridesDistinct(db.overrides, key, None);
    OtherVariantsDistinct(db.variants, key, None);
    var after := DeleteFlagRow(db, key);
    forall i | 0 <= i < |after.rules| ensures after.rules[i].flagKey in after.flags {
      assert after.rules[i] in after.rules;
    }
    forall i | 0 <= i < |after.variants| ensures after.variants[i].flagKey in after.flags {
      assert after.variants[i] in after.variants;
    }
    forall i | 0 <= i < |after.overrides| ensures after.overrides[i].flagKey in after.flags {
      assert after.overrides[i] in after.overrides;
    }
  }

  lemma {:induction false} DeleteOverrideKeepsDbOk(db: Db, key: string, user: string)
    requires DbOk(db)
    ensures DbOk(DeleteOverrideRow(db, key, user))
  {
    OtherOverridesDistinct(db.overrides, key, Some(user));
    var r := OtherOverrides(db.overrides, key, Some(user));
    forall i | 0 <= i < |r| ensures r[i].flagKey in db.flags { assert r[i] in r; }
  }

  lemma {:induction false} DeleteVariantKeepsDbOk(db: Db, flagKey: string, key: string)
    requires DbOk(db)
    ensures DbOk(DeleteVariantRow(db, flagKey, key))
  {
    OtherVariantsDistinct(db.variants, flagKey, Some(key));
    var r := OtherVariants(db.variants, flagKey, Some(key));
    forall i | 0 <= i < |r| ensures r[i].flagKey in db.flags { assert r[i] in r; }
  }

  lemma {:induction false} UpsertKeepsDbOk(db: Db, o: Override)
    requires DbOk(db) && UpsertOverride(db, o).Done?
    ensures DbOk(UpsertOverride(db, o).value)
  {}

  // ---- override isolation ----

  /** Same tables but for the overrides of one user of one flag. */
  ghost predicate SameButPin(a: Db, b: Db, key: string, user: string) {
    a.flags == b.flags && a.rules == b.rules
    && forall o :: !Pins(o, key, user) ==> (o in a.overrides <==> o in b.overrides)
  }

  lemma {:induction false} RepinMembers(overrides: seq<Override>, key: string, user: string, variantKey: string,
          o: Override)
    requires !Pins(o, key, user)
    ensures o in Repin(overrides, key, user, variantKey) <==> o in overrides
  {}

  lemma {:induction false} UpsertSameButPin(db: Db, o: Override)
    requires UpsertOverride(db, o).Done?
    ensures SameButPin(db, UpsertOverride(db, o).value, o.flagKey, o.userId)
    ensures exists p | p in UpsertOverride(db, o).value.overrides :: Pins(p, o.flagKey, o.userId)
    ensures forall p | p in UpsertOverride(db, o).value.overrides && Pins(p, o.flagKey, o.userId) ::
          p.variantKey == o.variantKey
  {
    var after := UpsertOverride(db, o).value.overrides;
    if HasOverride(db.overrides, o.flagKey, o.userId) {
      forall p | !Pins(p, o.flagKey, o.userId) ensures p in db.overrides <==> p in after {
        RepinMembers(db.overrides, o.flagKey, o.userId, o.variantKey, p);
      }
      var i :| 0 <= i < |db.overrides| && Pins(db.overrides[i], o.flagKey, o.userId);
      assert after[i] in after && Pins(after[i], o.flagKey, o.userId);
      forall p | p in after && Pins(p, o.flagKey, o.userId) ensures p.variantKey == o.variantKey {
        var j :| 0 <= j < |after| && after[j] == p;
        assert Pins(db.overrides[j], o.flagKey, o.userId);
      }
    } else {
      assert after[|db.overrides|] == o;
      forall p | p in after && Pins(p, o.flagKey, o.userId) ensures p.variantKey == o.variantKey {
        var j :| 0 <= j < |after| && after[j] == p;
        assert j < |db.overrides| ==> after[j] == db.overrides[j];
      }
    }
  }

  /** A change to one user's pin on one flag is invisible to every other user and flag. */
  lemma {:induction false} OthersUnmoved(a: Db, b: Db, key: string, user: string, k: string, ctx: Ctx, answer: string)
    requires SameButPin(a, b, key, user) && (k != key || UserOf(ctx) != Some(user))
    ensures Allowed(a, k, ctx, answer) <==> Allowed(b, k, ctx, answer)
  {}

  /**
   * Override isolation. After a successful CreateOverride for a real user, an enabled flag that is not
   * deprecated answers that user with the pinned variant and nothing else, and no other user's or flag's
   * answers change.
   */
  lemma {:induction false} OverrideIsolation(db: Db, o: Override, k: string, ctx: Ctx, answer: string)
    requires UpsertOverride(db, o).Done? && o.userId != "" && o.userId != "anonymous"
    ensures k == o.flagKey && UserOf(ctx) == Some(o.userId)
            && db.flags[k].enabled && db.flags[k].status != DEPRECATED ==>
              (Allowed(UpsertOverride(db, o).value, k, ctx, answer) <==> answer == o.variantKey)
    ensures !(k == o.flagKey && UserOf(ctx) == Some(o.userId)) ==>
              (Allowed(UpsertOverride(db, o).value, k, ctx, answer) <==> Allowed(db, k, ctx, answer))
  {
    var after := UpsertOverride(db, o).value;
    UpsertSameButPin(db, o);
    if k == o.flagKey && UserOf(ctx) == Some(o.userId) {
      assert Pinned(after, k, ctx);
    } else {
      OthersUnmoved(db, after, o.flagKey, o.userId, k, ctx, answer);
    }
  }

  /** Deleting a new override gives back the database as it was, hence every earlier answer. */
  lemma {:induction false} DeleteUndoesCreate(db: Db, o: Override)
    requires UpsertOverride(db, o).Done? && !HasOverride(db.overrides, o.flagKey, o.userId)
    ensures DeleteOverrideRow(UpsertOverride(db, o).value, o.flagKey, o.userId) == db
  {
    forall i | 0 <= i < |db.overrides| ensures !Pins(db.overrides[i], o.flagKey, o.userId) {}
    AllOtherOverrides(db.overrides, o.flagKey, Some(o.userId));
    assert (db.overrides + [o])[..|db.overrides|] == db.overrides;
  }
}
