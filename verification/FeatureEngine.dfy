/** The feature engine: a cache of flag objects over the database, its mutators and its evaluation. */
module FeatureEngine {
  import opened Wrappers
  import opened Ordering
  import opened FeatureModel
  import opened FeatureStore

  class Flag {
    var id: string
    var key: string
    var name: string
    var description: string
    var status: string
    var enabled: bool
    var defaultValue: bool
    var rules: seq<Rule>
    var variants: seq<Variant>
    var overrides: seq<Override>

    constructor (key: string, row: FlagRow)
      ensures this.key == key && Row() == row && rules == [] && variants == [] && overrides == []
    {
      this.key := key;
      id, name, description := row.id, row.name, row.description;
      status, enabled, defaultValue := row.status, row.enabled, row.defaultValue;
      rules, variants, overrides := [], [], [];
    }

    function Row(): FlagRow
      reads this
    {
      FlagRow(id, name, description, enabled, defaultValue, status)
    }

    function View(): FlagView
      reads this
    {
      FlagView(Row(), rules, variants, overrides)
    }
  }

  /** The rules of a new flag as they are inserted: bound to the flag, with a generated id where none was given. */
  function Prepared(rules: seq<Rule>, key: string, ids: seq<string>): (r: seq<Rule>)
    requires |ids| == |rules|
    ensures |r| == |rules|
  {
    seq(|rules|, i requires 0 <= i < |rules| =>
      rules[i].(flagKey := key, id := if rules[i].id == "" then ids[i] else rules[i].id))
  }

  /** A rule goes in as given, but for its flag, and for its id when it has none. */
  lemma {:induction false} PreparedMeans(rules: seq<Rule>, key: string, ids: seq<string>, i: nat)
    requires |ids| == |rules| && i < |rules|
    ensures var given, r := rules[i], Prepared(rules, key, ids)[i];
            && r.flagKey == key && r.id == (if given.id != "" then given.id else ids[i])
            && r.attribute == given.attribute && r.operator == given.operator && r.value == given.value
            && r.variant == given.variant && r.variantKey == given.variantKey && r.priority == given.priority
  {}

  /** Prepared rules are bound to their flag already. */
  lemma {:induction false} PreparedIsBound(rules: seq<Rule>, key: string, ids: seq<string>)
    requires |ids| == |rules|
    ensures BoundTo(Prepared(rules, key, ids), key) == Prepared(rules, key, ids)
  {}

  /** The override loop of EvaluateVariant. */
  method LookupOverride(overrides: seq<Override>, userId: string) returns (r: Option<Override>)
    ensures r == FirstOverride(overrides, userId)
  {
    var i := 0;
    while i < |overrides|
      invariant 0 <= i <= |overrides|
      invariant FirstOverride(overrides[i..], userId) == FirstOverride(overrides, userId)
    {
      assert overrides[i..][1..] == overrides[i + 1..];
      if overrides[i].userId == userId {
        return Some(overrides[i]);
      }
      i := i + 1;
    }
    return None;
  }

  /** The rule loop of EvaluateVariant. */
  method LookupRule(rules: seq<Rule>, ctx: Ctx) returns (r: Option<Rule>)
    ensures r == FirstMatch(rules, ctx)
  {
    var i := 0;
    while i < |rules|
      invariant 0 <= i <= |rules|
      invariant FirstMatch(rules[i..], ctx) == FirstMatch(rules, ctx)
    {
      assert rules[i..][1..] == rules[i + 1..];
      if rules[i].attribute in ctx {
        if MatchRule(rules[i], Rendered(ctx[rules[i].attribute])) {
          return Some(rules[i]);
        }
      }
      i := i + 1;
    }
    return None;
  }

  class Engine {
    var db: Db
    var flags: map<string, Flag>

    /** What the cache holds, as values. */
    ghost function Cache(): map<string, FlagView>
      reads this, flags.Values
    {
      map key | key in flags :: flags[key].View()
    }

    /** Each cached object carries its own key, so no two keys share an object. */
    ghost predicate Valid()
      reads this, flags.Values
    {
      forall key | key in flags :: flags[key].key == key
    }

    /** Database and cache, as values. */
    ghost function View(): State
      reads this, flags.Values
    {
      State(db, Cache())
    }

    /** NewEngine */
    constructor (db: Db)
      ensures this.db == db && Valid() && Agrees(Cache(), db)
      ensures forall key | key in flags :: fresh(flags[key])
    {
      this.db := db;
      flags := map[];
      new;
      Reload();
    }

    method LoadRules(flagKey: string) returns (rules: seq<Rule>)
      ensures IsOrdering(rules, RulesOf(db.rules, flagKey), ByPriority)
    {
      OrdersTotal();
      rules := OrderBy(RulesOf(db.rules, flagKey), ByPriority);
    }

    method LoadVariants(flagKey: string) returns (variants: seq<Variant>)
      ensures IsOrdering(variants, VariantsOf(db.variants, flagKey), ByKey)
    {
      OrdersTotal();
      variants := OrderBy(VariantsOf(db.variants, flagKey), ByKey);
    }

    method LoadOverrides(flagKey: string) returns (overrides: seq<Override>)
      ensures IsOrdering(overrides, OverridesOf(db.overrides, flagKey), ByAge)
    {
      OrdersTotal();
      overrides := OrderBy(OverridesOf(db.overrides, flagKey), ByAge);
    }

    /** The flag rows, scanned into new objects. */
    method ScanFlags() returns (m: map<string, Flag>)
      ensures m.Keys == db.flags.Keys
      ensures forall key | key in m :: fresh(m[key]) && m[key].key == key && m[key].Row() == Normal(db.flags[key])
    {
      m := map[];
      var todo := db.flags.Keys;
      while todo != {}
        invariant todo <= db.flags.Keys && m.Keys == db.flags.Keys - todo
        invariant forall key | key in m :: fresh(m[key]) && m[key].key == key && m[key].Row() == Normal(db.flags[key])
        decreases todo
      {
        var key :| key in todo;
        var f := new Flag(key, db.flags[key]);
        if f.status == "" {
          f.status := GA;
        }
        m := m[key := f];
        todo := todo - {key};
      }
    }

    /** Loads the rules, variants and overrides of one scanned flag. */
    method Fill(f: Flag)
      requires f.key in db.flags && f.Row() == Normal(db.flags[f.key])
      modifies f`rules, f`variants, f`overrides
      ensures LoadedFrom(f.View(), db, f.key)
    {
      var rules := LoadRules(f.key);
      var variants := LoadVariants(f.key);
      var overrides := LoadOverrides(f.key);
      f.rules := rules;
      f.variants := variants;
      f.overrides := overrides;
    }

    /** The second loop of reload, over the scanned flags. */
    method FillAll(m: map<string, Flag>)
      requires m.Keys == db.flags.Keys
      requires forall key | key in m :: m[key].key == key && m[key].Row() == Normal(db.flags[key])
      modifies set key | key in m :: m[key]
      ensures forall key | key in m :: m[key].key == key && LoadedFrom(m[key].View(), db, key)
    {
      var todo := m.Keys;
      while todo != {}
        invariant todo <= m.Keys
        invariant forall key | key in m :: m[key].key == key && m[key].Row() == Normal(db.flags[key])
        invariant forall key | key in m && key !in todo :: LoadedFrom(m[key].View(), db, key)
        decreases todo
      {
        var key :| key in todo;
        Fill(m[key]);
        todo := todo - {key};
      }
    }

    method LoadAll() returns (m: map<string, Flag>)
      ensures forall key | key in m :: fresh(m[key]) && m[key].key == key
      ensures Agrees(map key | key in m :: m[key].View(), db)
    {
      m := ScanFlags();
      FillAll(m);
    }

    /** reload: builds a whole new set of flag objects, then swaps it in. */
    method Reload()
      modifies this`flags
      ensures Valid() && Agrees(Cache(), db) && forall key | key in flags :: fresh(flags[key])
    {
      var m := LoadAll();
      flags := m;
      assert Cache() == map key | key in m :: m[key].View();
    }

    /** EvaluateVariant */
    method EvaluateVariant(key: string, ctx: Ctx) returns (answer: string)
      ensures answer == EvaluateCached(Cache(), key, ctx)
    {
      if key !in flags || !flags[key].enabled {
        return "false";
      }
      var f := flags[key];
      if f.status == DEPRECATED {
        return BoolKey(f.defaultValue);
      }
      if "userId" in ctx && ctx["userId"].IsString? && ctx["userId"].s != "" && ctx["userId"].s != "anonymous" {
        var pinned := LookupOverride(f.overrides, ctx["userId"].s);
        if pinned.Some? {
          return pinned.value.variantKey;
        }
      }
      if f.status == DRAFT {
        return "false";
      }
      var rule := LookupRule(f.rules, ctx);
      if rule.Some? {
        return Resolve(rule.value);
      }
      if f.status == TESTING {
        return "false";
      }
      return BoolKey(f.defaultValue);
    }

    /** EvaluateBool */
    method EvaluateBool(key: string, ctx: Ctx) returns (answer: bool)
      ensures answer <==> EvaluateCached(Cache(), key, ctx) != "false" && EvaluateCached(Cache(), key, ctx) != ""
    {
      var variant := EvaluateVariant(key, ctx);
      return KeyToBool(variant);
    }

    /** The inserts of CreateFlag, one statement each. */
    method PersistFlag(f: Flag, genId: string, ruleIds: seq<string>) returns (ok: bool)
      requires |ruleIds| == |f.rules|
      modifies this`db, f`id, f`status, f`rules
      ensures (db, ok) == FlagCreated(old(db), f.key, f.Row(), Prepared(old(f.rules), f.key, ruleIds))
      ensures f.Row() == old(f.Row()).(id := if old(f.id) == "" then genId else old(f.id),
                                       status := if old(f.status) == "" then DRAFT else old(f.status))
    {
      if f.id == "" {
        f.id := genId;
      }
      if f.status == "" {
        f.status := DRAFT;
      }
      match InsertFlag(db, f.key, f.Row()) {
        case Failed => return false;
        case Done(d) => db := d;
      }
      ok := InsertAll(f, ruleIds);
    }

    /**
     * CreateFlag, not transactional: when a rule is rejected, the flag and the rules before it stay in
     * the database and the cache is not reloaded.
     */
    method CreateFlag(f: Flag, genId: string, ruleIds: seq<string>) returns (ok: bool)
      requires |ruleIds| == |f.rules| && f !in flags.Values && Valid()
      modifies this, f
      ensures Valid()
      ensures (db, ok) == FlagCreated(old(db), f.key, f.Row(), Prepared(old(f.rules), f.key, ruleIds))
      ensures f.Row() == old(f.Row()).(id := if old(f.id) == "" then genId else old(f.id),
                                       status := if old(f.status) == "" then DRAFT else old(f.status))
      ensures if ok then Agrees(Cache(), db) else flags == old(flags) && Cache() == old(Cache())
      ensures Step(old(View()), CallCreateFlag(f.key, f.Row(), Prepared(old(f.rules), f.key, ruleIds)), View())
    {
      ok := PersistFlag(f, genId, ruleIds);
      PreparedIsBound(old(f.rules), f.key, ruleIds);
      if ok {
        Reload();
      }
    }

    /** The rule loop of CreateFlag; stops at the first rule that the database rejects. */
    method InsertAll(f: Flag, ruleIds: seq<string>) returns (ok: bool)
      requires |ruleIds| == |f.rules|
      modifies this`db, f`rules
      ensures (db, ok) == InsertRules(old(db), Prepared(old(f.rules), f.key, ruleIds))
    {
      ghost var all := Prepared(f.rules, f.key, ruleIds);
      ghost var given := f.rules;
      for i := 0 to |f.rules|
        invariant |f.rules| == |given| && forall j | i <= j < |given| :: f.rules[j] == given[j]
        invariant InsertRules(old(db), all[..i]) == (db, true)
      {
        f.rules := f.rules[i := f.rules[i].(flagKey := f.key)];
        if f.rules[i].id == "" {
          f.rules := f.rules[i := f.rules[i].(id := ruleIds[i])];
        }
        assert all[..i + 1][..i] == all[..i];
        match InsertRule(db, f.rules[i]) {
          case Failed =>
            StuckAt(old(db), all, i + 1);
            return false;
          case Done(d) => db := d;
        }
      }
      assert all[..|all|] == all;
      return true;
    }

    /**
     * UpdateFlag. The object may be the cached one. When the database does not answer (up is false)
     * nothing is written and the cache keeps its objects.
     */
    method UpdateFlag(f: Flag, up: bool) returns (ok: bool)
      requires Valid()
      modifies this, f`status
      ensures Valid() && ok == up && f.status == if old(f.status) == "" then GA else old(f.status)
      ensures ok ==> db == UpdateFlagRow(old(db), f.key, f.name, f.description, f.enabled, f.defaultValue, f.status)
      ensures ok ==> Agrees(Cache(), db)
      ensures ok ==> forall key | key in flags :: fresh(flags[key])
      ensures !ok ==> db == old(db) && flags == old(flags)
      ensures !ok && old(f.status) != "" ==> Cache() == old(Cache())
      ensures ok ==> Step(old(View()),
            CallUpdateFlag(f.key, f.name, f.description, f.enabled, f.defaultValue, f.status), View())
    {
      if f.status == "" {
        f.status := GA;
      }
      if !up {
        return false;
      }
      db := UpdateFlagRow(db, f.key, f.name, f.description, f.enabled, f.defaultValue, f.status);
      Reload();
      return true;
    }

    /** TransitionStatus */
    method TransitionStatus(key: string, status: string) returns (ok: bool)
      requires Valid()
      modifies this
      ensures Valid() && (ok <==> KnownStatus(status))
      ensures db == if ok then SetStatus(old(db), key, status) else old(db)
      ensures ok ==> Agrees(Cache(), db)
      ensures Step(old(View()), CallTransition(key, status), View())
    {
      if !KnownStatus(status) {
        return false;
      }
      db := SetStatus(db, key, status);
      Reload();
      return true;
    }

    /** DeleteFlag */
    method DeleteFlag(key: string)
      requires Valid()
      modifies this
      ensures Valid() && db == DeleteFlagRow(old(db), key) && Agrees(Cache(), db)
      ensures Step(old(View()), CallDeleteFlag(key), View())
    {
      db := DeleteFlagRow(db, key);
      Reload();
    }

    /** CreateVariant */
    method CreateVariant(v: Variant) returns (ok: bool)
      requires Valid()
      modifies this
      ensures Valid() && (ok <==> InsertVariant(old(db), v).Done?)
      ensures db == if ok then InsertVariant(old(db), v).value else old(db)
      ensures ok ==> Agrees(Cache(), db)
      ensures Step(old(View()), CallCreateVariant(v), View())
    {
      match InsertVariant(db, v) {
        case Failed => return false;
        case Done(d) => db := d;
      }
      Reload();
      return true;
    }

    /** DeleteVariant */
    method DeleteVariant(flagKey: string, variantKey: string)
      requires Valid()
      modifies this
      ensures Valid() && db == DeleteVariantRow(old(db), flagKey, variantKey) && Agrees(Cache(), db)
      ensures Step(old(View()), CallDeleteVariant(flagKey, variantKey), View())
    {
      db := DeleteVariantRow(db, flagKey, variantKey);
      Reload();
    }

    /** CreateOverride */
    method CreateOverride(o: Override) returns (ok: bool)
      requires Valid()
      modifies this
      ensures Valid() && (ok <==> UpsertOverride(old(db), o).Done?)
      ensures db == if ok then UpsertOverride(old(db), o).value else old(db)
      ensures ok ==> Agrees(Cache(), db)
      ensures Step(old(View()), CallCreateOverride(o), View())
    {
      match UpsertOverride(db, o) {
        case Failed => return false;
        case Done(d) => db := d;
      }
      Reload();
      return true;
    }

    /** DeleteOverride */
    method DeleteOverride(flagKey: string, userId: string)
      requires Valid()
      modifies this
      ensures Valid() && db == DeleteOverrideRow(old(db), flagKey, userId) && Agrees(Cache(), db)
      ensures Step(old(View()), CallDeleteOverride(flagKey, userId), View())
    {
      db := DeleteOverrideRow(db, flagKey, userId);
      Reload();
    }
  }

  /** Once a rule is rejected, the rest are not tried. */
  lemma {:induction false} StuckAt(db: Db, rules: seq<Rule>, n: nat)
    requires n <= |rules| && !InsertRules(db, rules[..n]).1
    ensures InsertRules(db, rules) == InsertRules(db, rules[..n])
    decreases |rules|
  {
    if n < |rules| {
      assert rules[..|rules| - 1][..n] == rules[..n];
      StuckAt(db, rules[..|rules| - 1], n);
    } else {
      assert rules[..n] == rules;
    }
  }
}
