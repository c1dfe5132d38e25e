/**
 * The cache reload as separate queries, interleaved with other callers' writes and other reloads.
 * What is published may mix several moments of the reload, but nothing older and nothing invented; it
 * agrees with the database exactly when none of its parts has changed since its own query.
 */
module FeatureReload {
  import opened Wrappers
  import opened Ordering
  import opened FeatureModel

  /** What one query returned, and the moment of that query. */
  datatype Part<T> = Part(at: nat, rows: seq<T>)

  /** A reload in progress: the moment of its first query, the rows it scanned and what it has loaded since. */
  datatype Reload = Reload(begun: nat, rows: map<string, FlagRow>, rules: map<string, Part<Rule>>,
                           variants: map<string, Part<Variant>>, overrides: map<string, Part<Override>>)

  /** history lists every content the database has had; the last one is the current content. */
  datatype System = System(history: seq<Db>, cache: map<string, FlagView>, reloads: map<nat, Reload>)

  datatype Event =
    | Write(next: Db)
    | Begin(id: nat)
    | QueryRules(id: nat, key: string, rules: seq<Rule>)
    | QueryVariants(id: nat, key: string, variants: seq<Variant>)
    | QueryOverrides(id: nat, key: string, overrides: seq<Override>)
    | Publish(id: nat, flags: map<string, FlagView>)
    | GiveUp(id: nat)

  function Current(s: System): Db
    requires s.history != []
  {
    s.history[|s.history| - 1]
  }

  function ScannedRows(db: Db): map<string, FlagRow> {
    map key | key in db.flags :: Normal(db.flags[key])
  }

  predicate Complete(r: Reload) {
    r.rules.Keys == r.rows.Keys && r.variants.Keys == r.rows.Keys && r.overrides.Keys == r.rows.Keys
  }

  predicate AssembledAt(f: FlagView, r: Reload, key: string)
    requires Complete(r) && key in r.rows
  {
    f == FlagView(r.rows[key], r.rules[key].rows, r.variants[key].rows, r.overrides[key].rows)
  }

  /** The flags that a completed reload has put together. */
  predicate Assembled(flags: map<string, FlagView>, r: Reload) {
    Complete(r) && flags.Keys == r.rows.Keys && forall key | key in flags :: AssembledAt(flags[key], r, key)
  }

  predicate RulesAt(db: Db, key: string, rules: seq<Rule>) {
    IsOrdering(rules, RulesOf(db.rules, key), ByPriority)
  }

  predicate VariantsAt(db: Db, key: string, variants: seq<Variant>) {
    IsOrdering(variants, VariantsOf(db.variants, key), ByKey)
  }

  predicate OverridesAt(db: Db, key: string, overrides: seq<Override>) {
    IsOrdering(overrides, OverridesOf(db.overrides, key), ByAge)
  }

  /** An event that can happen now: each query sees the current database; publishing waits for the last query. */
  predicate Enabled(s: System, e: Event) {
    s.history != []
    && match e
       case Write(_) => true
       case Begin(id) => id !in s.reloads
       case QueryRules(id, key, out) =>
         id in s.reloads && key in s.reloads[id].rows && key !in s.reloads[id].rules && RulesAt(Current(s), key, out)
       case QueryVariants(id, key, out) =>
         id in s.reloads && key in s.reloads[id].rules && key !in s.reloads[id].variants
         && VariantsAt(Current(s), key, out)
       case QueryOverrides(id, key, out) =>
         id in s.reloads && key in s.reloads[id].variants && key !in s.reloads[id].overrides
         && OverridesAt(Current(s), key, out)
       case Publish(id, flags) => id in s.reloads && Assembled(flags, s.reloads[id])
       case GiveUp(id) => id in s.reloads
  }

  function SetReload(s: System, id: nat, r: Reload): System {
    s.(reloads := s.reloads[id := r])
  }

  function Next(s: System, e: Event): System
    requires Enabled(s, e)
  {
    var now := |s.history| - 1;
    match e
    case Write(next) => s.(history := s.history + [next])
    case Begin(id) => SetReload(s, id, Reload(now, ScannedRows(Current(s)), map[], map[], map[]))
    case QueryRules(id, key, out) =>
      SetReload(s, id, s.reloads[id].(rules := s.reloads[id].rules[key := Part(now, out)]))
    case QueryVariants(id, key, out) =>
      SetReload(s, id, s.reloads[id].(variants := s.reloads[id].variants[key := Part(now, out)]))
    case QueryOverrides(id, key, out) =>
      SetReload(s, id, s.reloads[id].(overrides := s.reloads[id].overrides[key := Part(now, out)]))
    case Publish(id, flags) => s.(cache := flags, reloads := s.reloads - {id})
    case GiveUp(id) => s.(reloads := s.reloads - {id})
  }

  /** A reload that gave up, or has published, does not publish, and giving up leaves the cache. */
  lemma {:induction false} EndedPublishesNothing(s: System, id: nat, published: map<string, FlagView>,
                                                 flags: map<string, FlagView>)
    ensures Enabled(s, GiveUp(id)) ==>
              Next(s, GiveUp(id)).cache == s.cache && !Enabled(Next(s, GiveUp(id)), Publish(id, flags))
    ensures Enabled(s, Publish(id, published)) ==>
              Next(s, Publish(id, published)).cache == published
              && !Enabled(Next(s, Publish(id, published)), Publish(id, flags))
  {}

  /** The system after a run, or None when some event of it could not happen. */
  function TryRun(s: System, events: seq<Event>): Option<System> {
    if events == [] then Some(s)
    else
      match TryRun(s, events[..|events| - 1])
      case None => None
      case Some(t) => if Enabled(t, events[|events| - 1]) then Some(Next(t, events[|events| - 1])) else None
  }

  /** A system with no reload in progress. */
  predicate Quiet(s: System) {
    s.history != [] && s.reloads == map[]
  }

  // ---- where loaded parts come from ----

  predicate RulesSourced(history: seq<Db>, r: Reload) {
    forall key | key in r.rules ::
      r.begun <= r.rules[key].at < |history| && RulesAt(history[r.rules[key].at], key, r.rules[key].rows)
  }

  predicate VariantsSourced(history: seq<Db>, r: Reload) {
    forall key | key in r.variants ::
      r.begun <= r.variants[key].at < |history| && VariantsAt(history[r.variants[key].at], key, r.variants[key].rows)
  }

  predicate OverridesSourced(history: seq<Db>, r: Reload) {
    forall key | key in r.overrides ::
      r.begun <= r.overrides[key].at < |history|
            && OverridesAt(history[r.overrides[key].at], key, r.overrides[key].rows)
  }

  /** The rows are those of the first query; each other part was the database's content at the moment of its query. */
  predicate Sourced(history: seq<Db>, r: Reload) {
    && r.begun < |history| && r.rows == ScannedRows(history[r.begun])
    && RulesSourced(history, r) && VariantsSourced(history, r) && OverridesSourced(history, r)
  }

  predicate Inv(s: System) {
    s.history != [] && forall id | id in s.reloads :: Sourced(s.history, s.reloads[id])
  }

  lemma {:induction false} SourcedLater(history: seq<Db>, next: Db, r: Reload)
    requires Sourced(history, r)
    ensures Sourced(history + [next], r)
  {}

  lemma {:induction false} BeginSourced(s: System)
    requires s.history != []
    ensures Sourced(s.history, Reload(|s.history| - 1, ScannedRows(Current(s)), map[], map[], map[]))
  {}

  lemma {:induction false} RulesQueried(history: seq<Db>, r: Reload, key: string, out: seq<Rule>)
    requires Sourced(history, r) && RulesAt(history[|history| - 1], key, out)
    ensures Sourced(history, r.(rules := r.rules[key := Part(|history| - 1, out)]))
  {}

  lemma {:induction false} VariantsQueried(history: seq<Db>, r: Reload, key: string, out: seq<Variant>)
    requires Sourced(history, r) && VariantsAt(history[|history| - 1], key, out)
    ensures Sourced(history, r.(variants := r.variants[key := Part(|history| - 1, out)]))
  {}

  lemma {:induction false} OverridesQueried(history: seq<Db>, r: Reload, key: string, out: seq<Override>)
    requires Sourced(history, r) && OverridesAt(history[|history| - 1], key, out)
    ensures Sourced(history, r.(overrides := r.overrides[key := Part(|history| - 1, out)]))
  {}

  lemma {:induction false} SetReloadKeepsInv(s: System, id: nat, r: Reload)
    requires Inv(s) && Sourced(s.history, r)
    ensures Inv(SetReload(s, id, r))
  {}

  lemma {:induction false} WriteKeepsInv(s: System, next: Db)
    requires Inv(s)
    ensures Inv(s.(history := s.history + [next]))
  {
    forall id | id in s.reloads ensures Sourced(s.history + [next], s.reloads[id]) {
      SourcedLater(s.history, next, s.reloads[id]);
    }
  }

  lemma {:induction false} QuerySourced(s: System, e: Event)
    requires Inv(s) && Enabled(s, e) && (e.QueryRules? || e.QueryVariants? || e.QueryOverrides?)
    ensures Sourced(s.history, Next(s, e).reloads[e.id])
  {
    var r := s.reloads[e.id];
    if e.QueryRules? {
      RulesQueried(s.history, r, e.key, e.rules);
    } else if e.QueryVariants? {
      VariantsQueried(s.history, r, e.key, e.variants);
    } else {
      OverridesQueried(s.history, r, e.key, e.overrides);
    }
  }

  lemma {:induction false} QueryKeepsInv(s: System, e: Event)
    requires Inv(s) && Enabled(s, e) && (e.QueryRules? || e.QueryVariants? || e.QueryOverrides?)
    ensures Inv(Next(s, e))
  {
    QuerySourced(s, e);
    SetReloadKeepsInv(s, e.id, Next(s, e).reloads[e.id]);
  }

  lemma {:induction false} NextKeepsInv(s: System, e: Event)
    requires Inv(s) && Enabled(s, e)
    ensures Inv(Next(s, e))
  {
    match e
    case Write(next) => WriteKeepsInv(s, next);
    case Begin(id) => BeginSourced(s);
    case Publish(_, _) =>
    case GiveUp(_) =>
    case _ => QueryKeepsInv(s, e);
  }

  lemma {:induction false} RunKeepsInv(s: System, events: seq<Event>, t: System)
    requires Inv(s) && TryRun(s, events) == Some(t)
    ensures Inv(t)
  {
    if events != [] {
      var before := TryRun(s, events[..|events| - 1]).value;
      RunKeepsInv(s, events[..|events| - 1], before);
      NextKeepsInv(before, events[|events| - 1]);
    }
  }

  lemma {:induction false} PartsWereTrue(history: seq<Db>, r: Reload, flags: map<string, FlagView>, key: string)
    requires Sourced(history, r) && Assembled(flags, r) && key in flags
    ensures key in history[r.begun].flags && flags[key].row == Normal(history[r.begun].flags[key])
    ensures exists i | r.begun <= i < |history| :: RulesAt(history[i], key, flags[key].rules)
    ensures exists i | r.begun <= i < |history| :: VariantsAt(history[i], key, flags[key].variants)
    ensures exists i | r.begun <= i < |history| :: OverridesAt(history[i], key, flags[key].overrides)
  {
    assert AssembledAt(flags[key], r, key);
    assert RulesAt(history[r.rules[key].at], key, flags[key].rules);
    assert VariantsAt(history[r.variants[key].at], key, flags[key].variants);
    assert OverridesAt(history[r.overrides[key].at], key, flags[key].overrides);
  }

  /**
   * In every interleaving, each flag that a reload publishes has the row of the moment of its first
   * query, and rules, variants and overrides that were each the database's content for that flag at
   * some moment between that query and the publish.
   */
  lemma {:induction false} PublishedWasTrue(s: System, events: seq<Event>, t: System, id: nat,
                                            flags: map<string, FlagView>, key: string)
    requires Quiet(s) && TryRun(s, events) == Some(t) && Enabled(t, Publish(id, flags)) && key in flags
    ensures var first := t.reloads[id].begun;
            && first < |t.history| && key in t.history[first].flags
            && flags[key].row == Normal(t.history[first].flags[key])
            && (exists i | first <= i < |t.history| :: RulesAt(t.history[i], key, flags[key].rules))
            && (exists i | first <= i < |t.history| :: VariantsAt(t.history[i], key, flags[key].variants))
            && (exists i | first <= i < |t.history| :: OverridesAt(t.history[i], key, flags[key].overrides))
  {
    RunKeepsInv(s, events, t);
    PartsWereTrue(t.history, t.reloads[id], flags, key);
  }

  // ---- exactly when a publish agrees ----

  predicate SameRules(a: Db, b: Db, key: string) {
    multiset(RulesOf(a.rules, key)) == multiset(RulesOf(b.rules, key))
  }

  predicate SameVariants(a: Db, b: Db, key: string) {
    multiset(VariantsOf(a.variants, key)) == multiset(VariantsOf(b.variants, key))
  }

  predicate SameOverrides(a: Db, b: Db, key: string) {
    multiset(OverridesOf(a.overrides, key)) == multiset(OverridesOf(b.overrides, key))
  }

  /** Each part has the same content now as at the moment of its own query. */
  predicate Unmoved(history: seq<Db>, r: Reload, now: Db)
    requires Sourced(history, r) && Complete(r)
  {
    && r.rows == ScannedRows(now)
    && forall key | key in r.rows ::
         && SameRules(history[r.rules[key].at], now, key)
         && SameVariants(history[r.variants[key].at], now, key)
         && SameOverrides(history[r.overrides[key].at], now, key)
  }

  lemma {:induction false} LoadedExactly(f: FlagView, was: Db, mid: Db, late: Db, now: Db, key: string)
    requires key in now.flags && f.row == Normal(now.flags[key])
    requires RulesAt(was, key, f.rules) && VariantsAt(mid, key, f.variants) && OverridesAt(late, key, f.overrides)
    ensures LoadedFrom(f, now, key) <==>
              SameRules(was, now, key) && SameVariants(mid, now, key) && SameOverrides(late, now, key)
  {}

  lemma {:induction false} KeyAgrees(history: seq<Db>, r: Reload, flags: map<string, FlagView>, now: Db, key: string)
    requires Sourced(history, r) && Assembled(flags, r) && r.rows == ScannedRows(now) && key in flags
    ensures LoadedFrom(flags[key], now, key) <==>
            && SameRules(history[r.rules[key].at], now, key)
            && SameVariants(history[r.variants[key].at], now, key)
            && SameOverrides(history[r.overrides[key].at], now, key)
  {
    assert AssembledAt(flags[key], r, key) && key in now.flags;
    LoadedExactly(flags[key], history[r.rules[key].at], history[r.variants[key].at], history[r.overrides[key].at],
          now, key);
  }

  lemma {:induction false} RowsAgree(r: Reload, flags: map<string, FlagView>, now: Db)
    requires Assembled(flags, r) && Agrees(flags, now)
    ensures r.rows == ScannedRows(now)
  {
    forall key | key in r.rows ensures key in now.flags && r.rows[key] == Normal(now.flags[key]) {
      assert AssembledAt(flags[key], r, key) && LoadedFrom(flags[key], now, key);
    }
  }

  lemma {:induction false} AgreesOnRows(history: seq<Db>, r: Reload, flags: map<string, FlagView>, now: Db)
    requires Sourced(history, r) && Assembled(flags, r) && r.rows == ScannedRows(now)
    ensures Agrees(flags, now) <==> Unmoved(history, r, now)
  {
    assert flags.Keys == now.flags.Keys;
    forall key | key in flags
      ensures LoadedFrom(flags[key], now, key) <==>
              SameRules(history[r.rules[key].at], now, key) && SameVariants(history[r.variants[key].at], now, key)
              && SameOverrides(history[r.overrides[key].at], now, key)
    {
      KeyAgrees(history, r, flags, now, key);
    }
  }

  /** What a reload has put together agrees with a database content if and only if no part has moved. */
  lemma {:induction false} AgreesIffUnmoved(history: seq<Db>, r: Reload, flags: map<string, FlagView>, now: Db)
    requires Sourced(history, r) && Assembled(flags, r)
    ensures Agrees(flags, now) <==> Unmoved(history, r, now)
  {
    if r.rows == ScannedRows(now) {
      AgreesOnRows(history, r, flags, now);
    } else if Agrees(flags, now) {
      RowsAgree(r, flags, now);
    }
  }

  /**
   * In every interleaving, the cache agrees with the database after a publish if and only if each part
   * of that reload has the content it had at the moment of its own query.
   */
  lemma {:induction false} PublishAgreesIffUnmoved(s: System, events: seq<Event>, t: System, id: nat,
                                                   flags: map<string, FlagView>)
    requires Quiet(s) && TryRun(s, events) == Some(t) && Enabled(t, Publish(id, flags))
    ensures Sourced(t.history, t.reloads[id]) && Complete(t.reloads[id])
    ensures Agrees(Next(t, Publish(id, flags)).cache, Current(t)) <==> Unmoved(t.history, t.reloads[id], Current(t))
  {
    RunKeepsInv(s, events, t);
    AgreesIffUnmoved(t.history, t.reloads[id], flags, Current(t));
  }

  lemma {:induction false} UndisturbedRules(history: seq<Db>, r: Reload, key: string)
    requires RulesSourced(history, r) && Complete(r) && r.begun == |history| - 1 && key in r.rows
    ensures r.rules[key].at == r.begun
  {}

  lemma {:induction false} UndisturbedVariants(history: seq<Db>, r: Reload, key: string)
    requires VariantsSourced(history, r) && Complete(r) && r.begun == |history| - 1 && key in r.rows
    ensures r.variants[key].at == r.begun
  {}

  lemma {:induction false} UndisturbedOverrides(history: seq<Db>, r: Reload, key: string)
    requires OverridesSourced(history, r) && Complete(r) && r.begun == |history| - 1 && key in r.rows
    ensures r.overrides[key].at == r.begun
  {}

  lemma {:induction false} UndisturbedIsUnmoved(history: seq<Db>, r: Reload)
    requires Sourced(history, r) && Complete(r) && r.begun == |history| - 1
    ensures Unmoved(history, r, history[r.begun])
  {
    forall key | key in r.rows
      ensures SameRules(history[r.rules[key].at], history[r.begun], key)
      ensures SameVariants(history[r.variants[key].at], history[r.begun], key)
      ensures SameOverrides(history[r.overrides[key].at], history[r.begun], key)
    {
      UndisturbedRules(history, r, key);
      UndisturbedVariants(history, r, key);
      UndisturbedOverrides(history, r, key);
    }
  }

  /** If no write falls between a reload's first query and its publish, the cache equals the database view. */
  lemma {:induction false} UndisturbedReloadAgrees(s: System, events: seq<Event>, t: System, id: nat,
                                                   flags: map<string, FlagView>)
    requires Quiet(s) && TryRun(s, events) == Some(t) && Enabled(t, Publish(id, flags))
    requires t.reloads[id].begun == |t.history| - 1
    ensures Agrees(Next(t, Publish(id, flags)).cache, Current(t))
  {
    PublishAgreesIffUnmoved(s, events, t, id, flags);
    UndisturbedIsUnmoved(t.history, t.reloads[id]);
  }

  lemma {:induction false} CacheKept(s: System, events: seq<Event>, t: System)
    requires TryRun(s, events) == Some(t) && forall i | 0 <= i < |events| :: !events[i].Publish?
    ensures t.cache == s.cache
  {
    if events != [] {
      CacheKept(s, events[..|events| - 1], TryRun(s, events[..|events| - 1]).value);
    }
  }

  /**
   * At the end of any run, the cache agrees with the database if and only if each part of the reload
   * that published last has the content it had at the moment of its own query.
   */
  lemma {:induction false} EndAgreesIffUnmoved(s: System, before: seq<Event>, t: System, id: nat,
                                               flags: map<string, FlagView>, after: seq<Event>, u: System)
    requires Quiet(s) && TryRun(s, before) == Some(t) && Enabled(t, Publish(id, flags))
    requires TryRun(Next(t, Publish(id, flags)), after) == Some(u) && u.history != []
    requires forall i | 0 <= i < |after| :: !after[i].Publish?
    ensures Sourced(t.history, t.reloads[id]) && Complete(t.reloads[id])
    ensures Agrees(u.cache, Current(u)) <==> Unmoved(t.history, t.reloads[id], Current(u))
  {
    RunKeepsInv(s, before, t);
    CacheKept(Next(t, Publish(id, flags)), after, u);
    AgreesIffUnmoved(t.history, t.reloads[id], flags, Current(u));
  }

  // ---- any change can be lost to a late publish ----

  lemma {:induction false} TryRunAppend(s: System, a: seq<Event>, t: System, b: seq<Event>)
    requires TryRun(s, a) == Some(t)
    ensures TryRun(s, a + b) == TryRun(t, b)
  {
    if b == [] {
      assert a + b == a;
    } else {
      TryRunAppend(s, a, t, b[..|b| - 1]);
      assert (a + b)[..|a + b| - 1] == a + b[..|b| - 1];
    }
  }

  lemma {:induction false} OneMore(s: System, done: seq<Event>, t: System, e: Event)
    requires TryRun(s, done) == Some(t) && Enabled(t, e)
    ensures TryRun(s, done + [e]) == Some(Next(t, e))
  {}

  /** A query always has a result. */
  lemma {:induction false} Queries(db: Db, key: string)
    returns (rules: seq<Rule>, variants: seq<Variant>, overrides: seq<Override>)
    ensures RulesAt(db, key, rules) && VariantsAt(db, key, variants) && OverridesAt(db, key, overrides)
  {
    OrdersTotal();
    rules := Sort(RulesOf(db.rules, key), ByPriority);
    SortOrders(RulesOf(db.rules, key), ByPriority);
    variants := Sort(VariantsOf(db.variants, key), ByKey);
    SortOrders(VariantsOf(db.variants, key), ByKey);
    overrides := Sort(OverridesOf(db.overrides, key), ByAge);
    SortOrders(OverridesOf(db.overrides, key), ByAge);
  }

  /** The reload has loaded exactly the flags outside todo. */
  predicate Loaded(r: Reload, todo: set<string>) {
    todo <= r.rows.Keys
    && r.rules.Keys == r.rows.Keys - todo && r.variants.Keys == r.rules.Keys && r.overrides.Keys == r.rules.Keys
  }

  lemma {:induction false} LoadKey(s: System, id: nat, todo: set<string>, key: string)
    returns (events: seq<Event>, t: System)
    requires s.history != [] && id in s.reloads && Loaded(s.reloads[id], todo) && key in todo
    ensures TryRun(s, events) == Some(t) && id in t.reloads && t == SetReload(s, id, t.reloads[id])
    ensures t.reloads[id].begun == s.reloads[id].begun && t.reloads[id].rows == s.reloads[id].rows
    ensures Loaded(t.reloads[id], todo - {key})
  {
    var rules, variants, overrides := Queries(Current(s), key);
    KeyLoaded(s, id, todo, key, rules, variants, overrides);
    var first, second, third := QueryRules(id, key, rules), QueryVariants(id, key, variants),
          QueryOverrides(id, key, overrides);
    t := Next(Next(Next(s, first), second), third);
    events := [] + [first] + [second] + [third];
    OneMore(s, [], s, first);
    OneMore(s, [] + [first], Next(s, first), second);
    OneMore(s, [] + [first] + [second], Next(Next(s, first), second), third);
  }

  lemma {:induction false} KeyLoaded(s: System, id: nat, todo: set<string>, key: string, rules: seq<Rule>,
                                     variants: seq<Variant>, overrides: seq<Override>)
    requires s.history != [] && id in s.reloads && Loaded(s.reloads[id], todo) && key in todo
    requires RulesAt(Current(s), key, rules) && VariantsAt(Current(s), key, variants)
          && OverridesAt(Current(s), key, overrides)
    ensures Enabled(s, QueryRules(id, key, rules))
    ensures Enabled(Next(s, QueryRules(id, key, rules)), QueryVariants(id, key, variants))
    ensures var b := Next(Next(s, QueryRules(id, key, rules)), QueryVariants(id, key, variants));
            && Enabled(b, QueryOverrides(id, key, overrides))
            && var t := Next(b, QueryOverrides(id, key, overrides));
               id in t.reloads && t == SetReload(s, id, t.reloads[id])
               && t.reloads[id].begun == s.reloads[id].begun && t.reloads[id].rows == s.reloads[id].rows
               && Loaded(t.reloads[id], todo - {key})
  {}

  /** A reload can be completed without a write in between. */
  lemma {:induction false} LoadRest(s: System, id: nat, todo: set<string>) returns (events: seq<Event>, t: System)
    requires s.history != [] && id in s.reloads && Loaded(s.reloads[id], todo)
    ensures TryRun(s, events) == Some(t) && id in t.reloads && t == SetReload(s, id, t.reloads[id])
    ensures t.reloads[id].begun == s.reloads[id].begun && Complete(t.reloads[id])
    decreases todo
  {
    if todo == {} {
      events, t := [], s;
    } else {
      var key :| key in todo;
      var first, mid := LoadKey(s, id, todo, key);
      var rest;
      rest, t := LoadRest(mid, id, todo - {key});
      TryRunAppend(s, first, mid, rest);
      events := first + rest;
    }
  }

  lemma {:induction false} Assemble(r: Reload, keys: set<string>) returns (flags: map<string, FlagView>)
    requires Complete(r) && keys <= r.rows.Keys
    ensures flags.Keys == keys && forall key | key in keys :: AssembledAt(flags[key], r, key)
    decreases keys
  {
    if keys == {} {
      flags := map[];
    } else {
      var key :| key in keys;
      flags := Assemble(r, keys - {key});
      flags := flags[key := FlagView(r.rows[key], r.rules[key].rows, r.variants[key].rows, r.overrides[key].rows)];
    }
  }

  lemma {:induction false} CanComplete(s: System, id: nat) returns (events: seq<Event>, t: System)
    requires s.history != [] && id !in s.reloads
    ensures TryRun(s, events) == Some(t) && id in t.reloads && t == SetReload(s, id, t.reloads[id])
    ensures t.reloads[id].begun == |s.history| - 1 && Complete(t.reloads[id])
  {
    var begun := Next(s, Begin(id));
    OneMore(s, [], s, Begin(id));
    var rest;
    rest, t := LoadRest(begun, id, begun.reloads[id].rows.Keys);
    TryRunAppend(s, [] + [Begin(id)], begun, rest);
    events := [] + [Begin(id)] + rest;
  }

  lemma {:induction false} CompletedAgrees(history: seq<Db>, r: Reload) returns (flags: map<string, FlagView>)
    requires Sourced(history, r) && Complete(r) && r.begun == |history| - 1
    ensures Assembled(flags, r) && Agrees(flags, history[r.begun])
  {
    flags := Assemble(r, r.rows.Keys);
    UndisturbedIsUnmoved(history, r);
    AgreesIffUnmoved(history, r, flags, history[r.begun]);
  }

  lemma {:induction false} CompletedReload(s: System, id: nat, t: System) returns (flags: map<string, FlagView>)
    requires s.history != [] && Inv(t) && id in t.reloads && t == SetReload(s, id, t.reloads[id])
    requires Complete(t.reloads[id]) && t.reloads[id].begun == |s.history| - 1
    ensures Assembled(flags, t.reloads[id]) && Agrees(flags, Current(s))
  {
    flags := CompletedAgrees(s.history, t.reloads[id]);
  }

  /** From any system, a reload can begin and load everything from the current content. */
  lemma {:induction false} CanLoad(s: System, id: nat)
    returns (events: seq<Event>, t: System, flags: map<string, FlagView>)
    requires Inv(s) && id !in s.reloads
    ensures TryRun(s, events) == Some(t) && Inv(t) && id in t.reloads && t == SetReload(s, id, t.reloads[id])
    ensures Assembled(flags, t.reloads[id]) && Agrees(flags, Current(s))
  {
    events, t := CanComplete(s, id);
    RunKeepsInv(s, events, t);
    flags := CompletedReload(s, id, t);
  }


  /** The cache that one content calls for does not agree with another one. */
  predicate Differ(a: Db, b: Db) {
    ScannedRows(a) != ScannedRows(b)
    || exists key | key in a.flags :: !SameRules(a, b, key) || !SameVariants(a, b, key) || !SameOverrides(a, b, key)
  }

  lemma {:induction false} AgreesWithBoth(flags: map<string, FlagView>, a: Db, b: Db)
    requires Agrees(flags, a) && Agrees(flags, b)
    ensures !Differ(a, b)
  {
    forall key | key in a.flags
      ensures Normal(a.flags[key]) == Normal(b.flags[key])
      ensures SameRules(a, b, key) && SameVariants(a, b, key) && SameOverrides(a, b, key)
    {
      assert LoadedFrom(flags[key], a, key) && LoadedFrom(flags[key], b, key);
    }
  }

  lemma {:induction false} ThenWrite(s: System, events: seq<Event>, t: System, next: Db)
    requires TryRun(s, events) == Some(t) && Inv(t)
    ensures TryRun(s, events + [Write(next)]) == Some(t.(history := t.history + [next]))
    ensures Inv(t.(history := t.history + [next]))
  {
    OneMore(s, events, t, Write(next));
    WriteKeepsInv(t, next);
  }

  lemma {:induction false} ThenPublish(s: System, events: seq<Event>, t: System, id: nat, flags: map<string, FlagView>)
    requires TryRun(s, events) == Some(t) && t.history != [] && id in t.reloads && Assembled(flags, t.reloads[id])
    ensures TryRun(s, events + [Publish(id, flags)]) == Some(t.(cache := flags, reloads := t.reloads - {id}))
  {
    OneMore(s, events, t, Publish(id, flags));
  }

  /** A reload reads everything, and then another caller writes. */
  lemma {:induction false} ReadThenWrite(s: System, next: Db, id: nat)
    returns (events: seq<Event>, t: System, flags: map<string, FlagView>)
    requires Quiet(s)
    ensures TryRun(s, events) == Some(t) && Inv(t) && id in t.reloads
    ensures t == System(s.history + [next], s.cache, map[id := t.reloads[id]])
    ensures Assembled(flags, t.reloads[id]) && Agrees(flags, Current(s))
  {
    events, t, flags := CanLoad(s, id);
    ThenWrite(s, events, t, next);
    events, t := events + [Write(next)], t.(history := t.history + [next]);
  }

  /** A whole reload, from its first query to its publish. */
  lemma {:induction false} ThenReload(s: System, events: seq<Event>, t: System, id: nat)
    returns (more: seq<Event>, flags: map<string, FlagView>)
    requires TryRun(s, events) == Some(t) && Inv(t) && id !in t.reloads
    ensures TryRun(s, more) == Some(t.(cache := flags))
  {
    var rest, u;
    rest, u, flags := CanLoad(t, id);
    TryRunAppend(s, events, t, rest);
    ThenPublish(s, events + rest, u, id, flags);
    more := events + rest + [Publish(id, flags)];
    assert u.reloads - {id} == t.reloads;
  }

  lemma {:induction false} LateReload(s: System, next: Db, first: nat, second: nat)
    returns (events: seq<Event>, flags: map<string, FlagView>)
    requires Quiet(s) && first != second
    ensures TryRun(s, events) == Some(System(s.history + [next], flags, map[])) && Agrees(flags, Current(s))
  {
    var t, newer;
    events, t, flags := ReadThenWrite(s, next, first);
    events, newer := ThenReload(s, events, t, second);
    ThenPublish(s, events, t.(cache := newer), first, flags);
    events := events + [Publish(first, flags)];
  }

  /**
   * Whatever the system and whatever the change: one reload reads before a write, the writer's own
   * reload reads after it and publishes, and then the first one publishes. Every call has returned nil
   * and no reload is left, and the cache shows the content before the write.
   */
  lemma {:induction false} AnyChangeCanBeLost(s: System, next: Db, first: nat, second: nat)
    returns (events: seq<Event>, t: System)
    requires Quiet(s) && Differ(Current(s), next) && first != second
    ensures TryRun(s, events) == Some(t) && t.reloads == map[] && t.history == s.history + [next]
    ensures Agrees(t.cache, Current(s)) && !Agrees(t.cache, next)
  {
    var flags;
    events, flags := LateReload(s, next, first, second);
    t := System(s.history + [next], flags, map[]);
    if Agrees(flags, next) {
      AgreesWithBoth(flags, Current(s), next);
      assert false;
    }
  }
}
