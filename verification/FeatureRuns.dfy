/** Runs of feature engine calls: exactly when the cache agrees with the database, and what it then answers. */
module FeatureRuns {
  import opened FeatureModel
  import opened FeatureStore

  predicate IsRun(states: seq<State>, calls: seq<Call>) {
    |states| == |calls| + 1 && forall i | 0 <= i < |calls| :: Step(states[i], calls[i], states[i + 1])
  }

  lemma {:induction false} EffectKeepsDbOk(db: Db, call: Call)
    requires DbOk(db)
    ensures DbOk(Effect(db, call).0)
  {
    match call
    case CallCreateFlag(key, row, rules) =>
      if InsertFlag(db, key, row).Done? { InsertRulesKeepsDbOk(InsertFlag(db, key, row).value, BoundTo(rules, key)); }
    case CallDeleteFlag(key) => DeleteFlagKeepsDbOk(db, key);
    case CallDeleteVariant(key, variantKey) => DeleteVariantKeepsDbOk(db, key, variantKey);
    case CallCreateOverride(o) => if UpsertOverride(db, o).Done? { UpsertKeepsDbOk(db, o); }
    case CallDeleteOverride(key, userId) => DeleteOverrideKeepsDbOk(db, key, userId);
    case _ =>
  }

  /** Some rule has the id of a stored rule or of an earlier one of the same request. */
  predicate ClashingIds(stored: seq<Rule>, rules: seq<Rule>) {
    exists i | 0 <= i < |rules| :: RuleIdTaken(stored, rules[i].id) || RuleIdTaken(rules[..i], rules[i].id)
  }

  /** A CreateFlag whose flag goes in and whose rules do not all follow. */
  predicate HalfWrites(db: Db, call: Call) {
    call.CallCreateFlag? && call.key !in db.flags && !IdTaken(db.flags, call.row.id)
          && ClashingIds(db.rules, call.rules)
  }

  lemma {:induction false} ClashingFront(stored: seq<Rule>, rules: seq<Rule>)
    requires rules != []
    ensures var n := |rules| - 1;
            ClashingIds(stored, rules) <==>
              ClashingIds(stored, rules[..n]) || RuleIdTaken(stored, rules[n].id)
                    || RuleIdTaken(rules[..n], rules[n].id)
  {
    var n := |rules| - 1;
    assert forall i | 0 <= i < n :: rules[..n][i] == rules[i] && rules[..n][..i] == rules[..i];
  }

  lemma {:induction false} TakenInBoth(a: seq<Rule>, b: seq<Rule>, id: string)
    ensures RuleIdTaken(a + b, id) <==> RuleIdTaken(a, id) || RuleIdTaken(b, id)
  {
    if RuleIdTaken(a, id) {
      var i :| 0 <= i < |a| && a[i].id == id;
      assert (a + b)[i].id == id;
    }
    if RuleIdTaken(b, id) {
      var i :| 0 <= i < |b| && b[i].id == id;
      assert (a + b)[|a| + i].id == id;
    }
  }

  /** Inserting the rules of an existing flag succeeds if and only if no id clashes; the flags stay in any case. */
  lemma {:induction false} RulesGoIn(db: Db, rules: seq<Rule>)
    requires forall i | 0 <= i < |rules| :: rules[i].flagKey in db.flags
    ensures InsertRules(db, rules).0.flags == db.flags
    ensures InsertRules(db, rules).1 <==> !ClashingIds(db.rules, rules)
    ensures InsertRules(db, rules).1 ==> InsertRules(db, rules).0.rules == db.rules + rules
  {
    if rules != [] {
      var n := |rules| - 1;
      RulesGoIn(db, rules[..n]);
      ClashingFront(db.rules, rules);
      TakenInBoth(db.rules, rules[..n], rules[n].id);
      assert db.rules + rules == db.rules + rules[..n] + [rules[n]];
    }
  }

  lemma {:induction false} BoundClash(stored: seq<Rule>, rules: seq<Rule>, key: string)
    ensures ClashingIds(stored, BoundTo(rules, key)) <==> ClashingIds(stored, rules)
  {
    var b := BoundTo(rules, key);
    forall i | 0 <= i < |rules| ensures RuleIdTaken(b[..i], b[i].id) <==> RuleIdTaken(rules[..i], rules[i].id) {
      assert forall j | 0 <= j < i :: b[..i][j].id == rules[..i][j].id;
    }
  }

  /** What a call that did not return nil did: nothing, or a half-write that put its flag in. */
  lemma {:induction false} FailedEffect(db: Db, call: Call)
    ensures HalfWrites(db, call) ==> !Effect(db, call).1 && Effect(db, call).0.flags.Keys == db.flags.Keys + {call.key}
    ensures !Effect(db, call).1 && !HalfWrites(db, call) ==> Effect(db, call).0 == db
  {
    if call.CallCreateFlag? && InsertFlag(db, call.key, call.row).Done? {
      var d := InsertFlag(db, call.key, call.row).value;
      RulesGoIn(d, BoundTo(call.rules, call.key));
      BoundClash(db.rules, call.rules, call.key);
    }
  }

  /**
   * A call that starts in agreement ends in agreement if and only if it does not write half: a CreateFlag
   * of a new key and id, one of whose rules has an id that is stored already or comes twice.
   */
  lemma {:induction false} AgreementAfterCall(s: State, call: Call, t: State)
    requires Agrees(s.cache, s.db) && Step(s, call, t)
    ensures Agrees(t.cache, t.db) <==> !HalfWrites(s.db, call)
  {
    FailedEffect(s.db, call);
    if HalfWrites(s.db, call) {
      assert call.key in t.db.flags && call.key !in t.cache;
    }
  }

  /** The failing case occurs: on an empty database, a new flag with two rules of one id. */
  lemma {:induction false} HalfWriteHappens(row: FlagRow, r: Rule)
    ensures var db, call := Db(map[], [], [], []), CallCreateFlag("f", row, [r, r]);
            HalfWrites(db, call) && Agrees(map[], db) && !Agrees(map[], Effect(db, call).0)
  {
    var db, call := Db(map[], [], [], []), CallCreateFlag("f", row, [r, r]);
    assert [r, r][..1][0] == r && RuleIdTaken([r, r][..1], [r, r][1].id);
    assert HalfWrites(db, call);
    FailedEffect(db, call);
    assert "f" in Effect(db, call).0.flags;
  }

  predicate HalfAt(states: seq<State>, calls: seq<Call>, i: int)
    requires 0 <= i < |calls| < |states|
  {
    HalfWrites(states[i].db, calls[i])
  }

  predicate NilAt(states: seq<State>, calls: seq<Call>, i: int)
    requires 0 <= i < |calls| < |states|
  {
    Effect(states[i].db, calls[i]).1
  }

  /** Call i wrote half and nothing up to call n returned nil since. */
  predicate StaleSince(states: seq<State>, calls: seq<Call>, i: int, n: int)
    requires 0 <= i < |calls| && n <= |calls| < |states|
  {
    HalfAt(states, calls, i) && forall j | i < j < n :: !NilAt(states, calls, j)
  }

  /** Some call of the run wrote half and no later call returned nil. */
  predicate LeftStale(states: seq<State>, calls: seq<Call>)
    requires IsRun(states, calls)
  {
    exists i | 0 <= i < |calls| :: StaleSince(states, calls, i, |calls|)
  }

  lemma {:induction false} FrontIsRun(states: seq<State>, calls: seq<Call>)
    requires IsRun(states, calls) && calls != []
    ensures var n := |calls| - 1;
            && IsRun(states[..n + 1], calls[..n])
            && (forall i | 0 <= i < n :: HalfAt(states[..n + 1], calls[..n], i) == HalfAt(states, calls, i))
            && (forall i | 0 <= i < n :: NilAt(states[..n + 1], calls[..n], i) == NilAt(states, calls, i))
  {
    var n := |calls| - 1;
    assert forall i | 0 <= i < n :: Step(states[..n + 1][i], calls[..n][i], states[..n + 1][i + 1]);
  }

  lemma {:induction false} StaleNow(states: seq<State>, calls: seq<Call>)
    requires IsRun(states, calls) && calls != [] && HalfAt(states, calls, |calls| - 1)
    ensures LeftStale(states, calls)
  {
    assert StaleSince(states, calls, |calls| - 1, |calls|);
  }

  lemma {:induction false} StaleStays(states: seq<State>, calls: seq<Call>)
    requires IsRun(states, calls) && calls != [] && !HalfAt(states, calls, |calls| - 1)
    ensures var n := |calls| - 1;
            && IsRun(states[..n + 1], calls[..n])
            && (LeftStale(states, calls) <==> !NilAt(states, calls, n) && LeftStale(states[..n + 1], calls[..n]))
  {
    var n := |calls| - 1;
    FrontIsRun(states, calls);
    var ss, cs := states[..n + 1], calls[..n];
    if i :| 0 <= i < |calls| && StaleSince(states, calls, i, |calls|) {
      assert !NilAt(states, calls, n);
      forall j | i < j < n ensures !NilAt(ss, cs, j) {
        assert !NilAt(states, calls, j);
      }
      assert StaleSince(ss, cs, i, n);
    }
    if i :| 0 <= i < n && !NilAt(states, calls, n) && StaleSince(ss, cs, i, n) {
      forall j | i < j < |calls| ensures !NilAt(states, calls, j) {
        if j < n { assert !NilAt(ss, cs, j); }
      }
      assert StaleSince(states, calls, i, |calls|);
    }
  }

  /** One more call: how agreement, and the flags that the cache misses, come about. */
  lemma {:induction false} AgreementNext(s: State, call: Call, t: State, stale: bool)
    requires Step(s, call, t) && s.cache.Keys <= s.db.flags.Keys
    requires if stale then s.cache.Keys != s.db.flags.Keys else Agrees(s.cache, s.db)
    ensures t.cache.Keys <= t.db.flags.Keys
    ensures if HalfWrites(s.db, call) || (!Effect(s.db, call).1 && stale) then t.cache.Keys != t.db.flags.Keys
          else Agrees(t.cache, t.db)
  {
    FailedEffect(s.db, call);
    if HalfWrites(s.db, call) {
      assert call.key in t.db.flags && call.key !in t.cache;
    }
  }

  lemma {:induction false} StaleMisses(states: seq<State>, calls: seq<Call>)
    requires IsRun(states, calls) && Agrees(states[0].cache, states[0].db)
    ensures var t := states[|calls|];
            && t.cache.Keys <= t.db.flags.Keys
            && if LeftStale(states, calls) then t.cache.Keys != t.db.flags.Keys else Agrees(t.cache, t.db)
    decreases |calls|
  {
    if calls != [] {
      var n := |calls| - 1;
      FrontIsRun(states, calls);
      if HalfAt(states, calls, n) { StaleNow(states, calls); } else { StaleStays(states, calls); }
      StaleMisses(states[..n + 1], calls[..n]);
      AgreementNext(states[n], calls[n], states[n + 1], LeftStale(states[..n + 1], calls[..n]));
    }
  }

  /**
   * A run of calls that starts in agreement ends in agreement if and only if no half-write follows its
   * last call that returned nil.
   */
  lemma {:induction false} RunAgrees(states: seq<State>, calls: seq<Call>)
    requires IsRun(states, calls) && Agrees(states[0].cache, states[0].db)
    ensures Agrees(states[|calls|].cache, states[|calls|].db) <==> !LeftStale(states, calls)
  {
    StaleMisses(states, calls);
  }

  /** The constraints of the four tables hold over every run. */
  lemma {:induction false} RunKeepsDbOk(states: seq<State>, calls: seq<Call>)
    requires IsRun(states, calls) && DbOk(states[0].db)
    ensures DbOk(states[|calls|].db)
    decreases |calls|
  {
    if calls != [] {
      var n := |calls| - 1;
      FrontIsRun(states, calls);
      RunKeepsDbOk(states[..n + 1], calls[..n]);
      EffectKeepsDbOk(states[n].db, calls[n]);
    }
  }

  /** After every run that is not left stale, each answer the cache gives is one that the four tables allow. */
  lemma {:induction false} RunAnswersAllowed(states: seq<State>, calls: seq<Call>, key: string, ctx: Ctx)
    requires IsRun(states, calls) && Agrees(states[0].cache, states[0].db) && !LeftStale(states, calls)
    ensures Allowed(states[|calls|].db, key, ctx, EvaluateCached(states[|calls|].cache, key, ctx))
  {
    RunAgrees(states, calls);
    CacheAnswersAllowed(states[|calls|].cache, states[|calls|].db, key, ctx);
  }
}
