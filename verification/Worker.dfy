/** The background worker: it watches metrics and invocations, records anomalies and switches failing flags off. */
module Worker {
  import opened Wrappers
  import opened FeatureModel
  import opened FeatureEngine
  import opened WorkerModel

  /** The rows of a query: the candidates that qualify, each once, in any order. */
  method Select(candidates: set<string>, qualifies: string -> bool) returns (rows: seq<string>)
    ensures forall k :: k in rows <==> k in candidates && qualifies(k)
    ensures NoRepeats(rows)
  {
    rows := [];
    var todo := candidates;
    while todo != {}
      invariant todo <= candidates
      invariant forall k :: k in rows <==> k in candidates && k !in todo && qualifies(k)
      invariant forall i, j | 0 <= i < j < |rows| :: rows[i] != rows[j]
      decreases todo
    {
      var k :| k in todo;
      todo := todo - {k};
      if qualifies(k) {
        rows := rows + [k];
      }
    }
  }

  /**
   * The auto-disable step for one flag; flipped are the flags that earlier failed writes left off in the
   * cache only.
   */
  method Disable(engine: Engine, key: string, up: bool, ghost intact: map<string, FlagView>, ghost flipped: set<string>)
    returns (disabled: bool, ghost base: map<string, FlagView>, ghost still: set<string>)
    requires engine.Valid() && SameBut(engine.Cache(), intact, flipped) && Agrees(intact, engine.db)
    modifies engine, engine.flags.Values
    ensures engine.Valid() && SameBut(engine.Cache(), base, still) && Agrees(base, engine.db)
    ensures disabled == (up && OnInCache(old(engine.db), flipped, key))
    ensures engine.db == if disabled then SetOff(old(engine.db), key) else old(engine.db)
    ensures still == if disabled then {} else if OnInCache(old(engine.db), flipped, key) then flipped + {key}
          else flipped
    ensures disabled ==> forall k | k in engine.flags :: fresh(engine.flags[k])
    ensures !disabled ==> engine.flags == old(engine.flags)
  {
    RowOf(engine, intact, flipped, key);
    if key !in engine.flags || !engine.flags[key].enabled {
      return false, intact, flipped;
    }
    var f := engine.flags[key];
    assert f.key == key && f.Row() == Normal(engine.db.flags[key]);
    disabled, base, still := FlipAndWrite(engine, f, key, up, intact, flipped);
  }

  /** The cached object is flipped before the database is written. */
  method FlipAndWrite(engine: Engine, f: Flag, key: string, up: bool, ghost intact: map<string, FlagView>,
          ghost flipped: set<string>)
    returns (done: bool, ghost base: map<string, FlagView>, ghost still: set<string>)
    requires f in engine.flags.Values && f.key == key && key in engine.db.flags && f.enabled
          && f.Row() == Normal(engine.db.flags[key])
    requires key !in flipped && engine.Valid() && SameBut(engine.Cache(), intact, flipped) && Agrees(intact, engine.db)
    modifies engine, f`enabled, f`status
    ensures engine.Valid() && SameBut(engine.Cache(), base, still) && Agrees(base, engine.db) && done == up
    ensures engine.db == if up then SetOff(old(engine.db), key) else old(engine.db)
    ensures still == if up then {} else flipped + {key}
    ensures if up then forall k | k in engine.flags :: fresh(engine.flags[k]) else engine.flags == old(engine.flags)
  {
    Flip(engine, f);
    FlipOne(old(engine.Cache()), intact, flipped, key);
    done := WriteOff(engine, f, up);
    base, still := if up then engine.Cache() else intact, if up then {} else flipped + {key};
  }

  /** The write of a flag that was just flipped, and the reload behind it. */
  method WriteOff(engine: Engine, f: Flag, up: bool) returns (done: bool)
    requires engine.Valid() && f in engine.flags.Values
    requires f.key in engine.db.flags && f.Row() == Off(engine.db.flags[f.key])
    modifies engine, f`status
    ensures engine.Valid() && done == up && f.key == old(f.key)
    ensures engine.db == if up then SetOff(old(engine.db), f.key) else old(engine.db)
    ensures if up then Agrees(engine.Cache(), engine.db) && forall k | k in engine.flags ::
          fresh(engine.flags[k]) else engine.flags == old(engine.flags) && engine.Cache() == old(engine.Cache())
  {
    done := engine.UpdateFlag(f, up);
  }

  /** f.Enabled = false on a cached flag. */
  method Flip(engine: Engine, f: Flag)
    requires engine.Valid() && f in engine.flags.Values
    modifies f`enabled
    ensures engine.Valid() && f.key in engine.flags && f.Row() == old(f.Row()).(enabled := false)
    ensures f.key in old(engine.Cache())
    ensures engine.Cache() == old(engine.Cache())[f.key := SwitchedOff(old(engine.Cache())[f.key])]
  {
    f.enabled := false;
  }

  lemma {:induction false} RowOf(engine: Engine, intact: map<string, FlagView>, flipped: set<string>, key: string)
    requires SameBut(engine.Cache(), intact, flipped) && Agrees(intact, engine.db)
    ensures key in engine.flags && engine.flags[key].enabled <==> OnInCache(engine.db, flipped, key)
    ensures key in engine.flags && key !in flipped ==>
              key in engine.db.flags && engine.flags[key].Row() == Normal(engine.db.flags[key])
  {
    var cache := engine.Cache();
    CachedRow(cache, intact, engine.db, flipped, key);
    assert cache.Keys == engine.flags.Keys;
    if key in cache { assert cache[key].row == engine.flags[key].Row(); }
  }

  lemma {:induction false} CachedRow(cache: map<string, FlagView>, intact: map<string, FlagView>, db: Db,
                                     flipped: set<string>, key: string)
    requires SameBut(cache, intact, flipped) && Agrees(intact, db)
    ensures key in cache && cache[key].row.enabled <==> OnInCache(db, flipped, key)
    ensures key in cache && key !in flipped ==> key in db.flags && cache[key].row == Normal(db.flags[key])
  {
    if key in cache { RowIs(intact, db, key); }
  }

  lemma {:induction false} RowIs(cache: map<string, FlagView>, db: Db, key: string)
    requires Agrees(cache, db) && key in cache
    ensures key in db.flags && cache[key].row == Normal(db.flags[key])
  {
    assert LoadedFrom(cache[key], db, key);
  }

  lemma {:induction false} FlipOne(before: map<string, FlagView>, intact: map<string, FlagView>, flipped: set<string>,
          key: string)
    requires SameBut(before, intact, flipped) && key in before && before[key].row.enabled && key !in flipped
    ensures SameBut(before[key := SwitchedOff(before[key])], intact, flipped + {key})
  {}

  /** The cache depends on the engine and its flags only. */
  twostate lemma CacheSame(engine: Engine)
    requires unchanged(engine) && forall k | k in old(engine.flags) :: unchanged(engine.flags[k])
    ensures engine.Cache() == old(engine.Cache()) && engine.Valid() == old(engine.Valid())
  {}

  predicate Unresolved(log: seq<Anomaly>, id: string) {
    exists i | 0 <= i < |log| :: log[i].id == id && log[i].resolvedAt.None?
  }

  /** The worker; fl is how the database rounds a quotient to a double. */
  class Worker {
    const engine: Engine
    const clock: nat -> int
    const newId: nat -> string
    const fl: real -> real
    var metrics: seq<Metric>
    var invocations: seq<Invocation>
    var functions: set<string>
    var anomalies: seq<Anomaly>
    var published: seq<string>
    var ticks: nat
    var ids: nat

    constructor (engine: Engine, clock: nat -> int, newId: nat -> string, fl: real -> real)
      ensures this.engine == engine && this.clock == clock && this.newId == newId && this.fl == fl
      ensures Noting() == Journal([], 0, 0)
    {
      this.engine, this.clock, this.newId, this.fl := engine, clock, newId, fl;
      metrics, invocations, functions, anomalies, published := [], [], {}, [], [];
      ticks, ids := 0, 0;
    }

    function Noting(): Journal
      reads this
    {
      Journal(anomalies, ticks, ids)
    }

    method Now() returns (t: int)
      modifies this`ticks
      ensures t == clock(old(ticks)) && ticks == old(ticks) + 1
    {
      t := clock(ticks);
      ticks := ticks + 1;
    }

    /** recordAnomaly */
    method RecordAnomaly(kind: string, refId: string, severity: string)
      modifies this`anomalies, this`ticks, this`ids
      ensures Noting() == Noted(clock, newId, old(Noting()), kind, refId, severity)
    {
      var asked := Now();
      if Active(anomalies, kind, refId, asked) {
        return;
      }
      var id := newId(ids);
      ids := ids + 1;
      var now := Now();
      if exists i | 0 <= i < |anomalies| :: anomalies[i].id == id {
        return;
      }
      anomalies := anomalies + [Anomaly(id, kind, refId, severity, now, None)];
    }

    method RecordAll(kind: string, refs: seq<string>, severity: string)
      modifies this`anomalies, this`ticks, this`ids
      ensures Noting() == NotedAll(clock, newId, old(Noting()), kind, refs, severity)
    {
      for i := 0 to |refs|
        invariant Noting() == NotedAll(clock, newId, old(Noting()), kind, refs[..i], severity)
      {
        assert refs[..i + 1][..i] == refs[..i];
        RecordAnomaly(kind, refs[i], severity);
      }
      assert refs[..|refs|] == refs;
    }

    /** The loop body of checkFlagAnomalies. */
    method HandleOffender(key: string, up: bool, ghost intact: map<string, FlagView>, ghost flipped: set<string>)
      returns (ghost base: map<string, FlagView>, ghost still: set<string>, ghost disabled: bool)
      requires engine.Valid() && SameBut(engine.Cache(), intact, flipped) && Agrees(intact, engine.db)
      modifies this`anomalies, this`ticks, this`ids, this`published, engine, engine.flags.Values
      ensures engine.Valid() && SameBut(engine.Cache(), base, still) && Agrees(base, engine.db)
      ensures Guard(engine.db, still, published) == Guarded(Guard(old(engine.db), flipped, old(published)), key, up)
      ensures disabled ==> forall k | k in engine.flags :: fresh(engine.flags[k])
      ensures !disabled ==> engine.flags == old(engine.flags)
      ensures Noting() == Noted(clock, newId, old(Noting()), "flag_error_rate", key, "critical")
    {
      RecordOffender(key);
      var done;
      done, base, still := SwitchOff(key, up, intact, flipped);
      disabled := done;
      if done {
        Publish(key);
      }
    }

    method RecordOffender(key: string)
      modifies this`anomalies, this`ticks, this`ids
      ensures Noting() == Noted(clock, newId, old(Noting()), "flag_error_rate", key, "critical")
      ensures engine.Cache() == old(engine.Cache()) && engine.Valid() == old(engine.Valid())
    {
      RecordAnomaly("flag_error_rate", key, "critical");
      CacheSame(engine);
    }

    method Publish(key: string)
      modifies this`published
      ensures published == old(published) + [key]
      ensures engine.Cache() == old(engine.Cache()) && engine.Valid() == old(engine.Valid())
    {
      published := published + [key];
      CacheSame(engine);
    }

    method SwitchOff(key: string, up: bool, ghost intact: map<string, FlagView>, ghost flipped: set<string>)
      returns (disabled: bool, ghost base: map<string, FlagView>, ghost still: set<string>)
      requires engine.Valid() && SameBut(engine.Cache(), intact, flipped) && Agrees(intact, engine.db)
      modifies engine, engine.flags.Values
      ensures engine.Valid() && SameBut(engine.Cache(), base, still) && Agrees(base, engine.db)
      ensures disabled == (up && OnInCache(old(engine.db), flipped, key))
      ensures engine.db == if disabled then SetOff(old(engine.db), key) else old(engine.db)
      ensures still == if disabled then {} else if OnInCache(old(engine.db), flipped, key) then flipped + {key}
            else flipped
      ensures disabled ==> forall k | k in engine.flags :: fresh(engine.flags[k])
      ensures !disabled ==> engine.flags == old(engine.flags)
      ensures Noting() == old(Noting()) && published == old(published)
    {
      disabled, base, still := Disable(engine, key, up, intact, flipped);
    }

    /**
     * checkFlagAnomalies; up tells for which flags the database write succeeds. Exactly the flags with
     * more than 10 errors in the window are recorded, and each in turn goes through the auto-disable step.
     */
    method CheckFlagAnomalies(up: string -> bool, ghost intact: map<string, FlagView>, ghost flipped: set<string>)
      returns (ghost rows: seq<string>, ghost base: map<string, FlagView>, ghost still: set<string>)
      requires engine.Valid() && SameBut(engine.Cache(), intact, flipped) && Agrees(intact, engine.db)
      modifies this`anomalies, this`ticks, this`ids, this`published, engine, engine.flags.Values
      ensures engine.Valid() && SameBut(engine.Cache(), base, still) && Agrees(base, engine.db)
      ensures NoRepeats(rows) && forall k :: k in rows <==> Offends(metrics, k, clock(old(ticks)))
      ensures Guard(engine.db, still, published) == GuardedAll(Guard(old(engine.db), flipped, old(published)), rows, up)
      ensures Noting() == NotedAll(clock, newId, Ticked(old(Noting())), "flag_error_rate", rows, "critical")
    {
      var keys := OffendingFlags();
      rows := keys;
      base, still := HandleAll(keys, up, intact, flipped);
    }

    /** The loop of checkFlagAnomalies over the rows of its query. */
    method HandleAll(keys: seq<string>, up: string -> bool, ghost intact: map<string, FlagView>,
            ghost flipped: set<string>)
      returns (ghost base: map<string, FlagView>, ghost still: set<string>)
      requires engine.Valid() && SameBut(engine.Cache(), intact, flipped) && Agrees(intact, engine.db)
      modifies this`anomalies, this`ticks, this`ids, this`published, engine, engine.flags.Values
      ensures engine.Valid() && SameBut(engine.Cache(), base, still) && Agrees(base, engine.db)
      ensures Guard(engine.db, still, published) == GuardedAll(Guard(old(engine.db), flipped, old(published)), keys, up)
      ensures Noting() == NotedAll(clock, newId, old(Noting()), "flag_error_rate", keys, "critical")
    {
      base, still := intact, flipped;
      ghost var reloaded := false;
      for i := 0 to |keys|
        invariant engine.Valid() && SameBut(engine.Cache(), base, still) && Agrees(base, engine.db)
        invariant reloaded ==> forall k | k in engine.flags :: fresh(engine.flags[k])
        invariant !reloaded ==> engine.flags == old(engine.flags)
        invariant Guard(engine.db, still, published)
                  == GuardedAll(Guard(old(engine.db), flipped, old(published)), keys[..i], up)
        invariant Noting() == NotedAll(clock, newId, old(Noting()), "flag_error_rate", keys[..i], "critical")
      {
        assert keys[..i + 1][..i] == keys[..i];
        ghost var disabled := false;
        base, still, disabled := HandleOffender(keys[i], up(keys[i]), base, still);
        reloaded := reloaded || disabled;
      }
      assert keys[..|keys|] == keys;
    }

    /** The query of checkFlagAnomalies. */
    method OffendingFlags() returns (rows: seq<string>)
      modifies this`ticks
      ensures ticks == old(ticks) + 1
      ensures NoRepeats(rows) && forall k :: k in rows <==> Offends(metrics, k, clock(old(ticks)))
      ensures engine.Cache() == old(engine.Cache()) && engine.Valid() == old(engine.Valid())
    {
      var ms := metrics;
      var now := Now();
      CacheSame(engine);
      var candidates := set i | 0 <= i < |ms| :: ms[i].flagKey;
      rows := Select(candidates, k => Offends(ms, k, now));
      forall k | Offends(ms, k, now) ensures k in candidates {
        OffendersHaveMetrics(ms, k, now);
      }
    }

    /** The error-rate half of checkFunctionAnomalies. */
    method CheckErrorRates() returns (ghost prone: seq<string>)
      modifies this`anomalies, this`ticks, this`ids
      ensures forall id :: id in prone <==> id in functions && ErrorProne(fl, invocations, id, clock(old(ticks)))
      ensures Noting() == NotedAll(clock, newId, Ticked(old(Noting())), "function_error_rate", prone, "warning")
    {
      var vs := invocations;
      var now := Now();
      var rows := Select(functions, id => ErrorProne(fl, vs, id, now));
      RecordAll("function_error_rate", rows, "warning");
      prone := rows;
    }

    /** The latency half of checkFunctionAnomalies. */
    method CheckLatency() returns (ghost spiking: seq<string>)
      modifies this`anomalies, this`ticks, this`ids
      ensures forall id :: id in spiking <==> id in functions && Spikes(fl, invocations, id, clock(old(ticks)))
      ensures Noting() == NotedAll(clock, newId, Ticked(old(Noting())), "function_latency_spike", spiking, "warning")
    {
      var vs := invocations;
      var now := Now();
      var rows := Select(functions, id => Spikes(fl, vs, id, now));
      RecordAll("function_latency_spike", rows, "warning");
      spiking := rows;
    }

    /** checkFunctionAnomalies: two queries over the functions that exist, each with its own reading of the clock. */
    method CheckFunctionAnomalies() returns (ghost prone: seq<string>, ghost spiking: seq<string>)
      modifies this`anomalies, this`ticks, this`ids
      ensures forall id :: id in prone <==> id in functions && ErrorProne(fl, invocations, id, clock(old(ticks)))
      ensures var first := NotedAll(clock, newId, Ticked(old(Noting())), "function_error_rate", prone, "warning");
              && Noting() == NotedAll(clock, newId, Ticked(first), "function_latency_spike", spiking, "warning")
              && forall id :: id in spiking <==> id in functions && Spikes(fl, invocations, id, clock(first.ticks))
    {
      prone := CheckErrorRates();
      spiking := CheckLatency();
    }

    /** RecordMetric */
    method RecordMetric(flagKey: string, variant: string, eventType: string, value: real)
      modifies this`metrics, this`ticks
      ensures metrics == old(metrics) + [Metric(flagKey, variant, eventType, value, clock(old(ticks)))]
            && ticks == old(ticks) + 1
    {
      var now := Now();
      metrics := metrics + [Metric(flagKey, variant, eventType, value, now)];
    }

    /** ResolveAnomaly: false when there is no unresolved anomaly with this id. */
    method ResolveAnomaly(id: string) returns (found: bool)
      modifies this`anomalies, this`ticks
      ensures anomalies == Resolved(old(anomalies), id, clock(old(ticks))) && ticks == old(ticks) + 1
      ensures found <==> exists i | 0 <= i < |old(anomalies)| ::
                old(anomalies)[i].id == id && old(anomalies)[i].resolvedAt == None
    {
      var now := Now();
      found := Unresolved(anomalies, id);
      anomalies := Resolved(anomalies, id, now);
    }
  }

  /**
   * If the cache agreed with the database and every write succeeds, then after checkFlagAnomalies each
   * flag with more than 10 errors in the window evaluates to "false" for every context, what any other
   * flag evaluates to is what the tables allowed before, and no rule, override, variant, default or
   * status has changed.
   */
  lemma {:induction false} AutoDisable(before: Db, db: Db, cache: map<string, FlagView>, base: map<string, FlagView>,
                                       metrics: seq<Metric>, now: int, rows: seq<string>, still: set<string>,
                                       already: seq<string>, published: seq<string>, up: string -> bool,
                                       k: string, ctx: Ctx)
    requires NoRepeats(rows) && (forall key :: key in rows <==> Offends(metrics, key, now))
          && forall key | key in rows :: up(key)
    requires Guard(db, still, published) == GuardedAll(Guard(before, {}, already), rows, up)
    requires SameBut(cache, base, still) && Agrees(base, db)
    ensures Agrees(cache, db)
    ensures if Offends(metrics, k, now) then EvaluateCached(cache, k, ctx) == "false"
          else Allowed(before, k, ctx, EvaluateCached(cache, k, ctx))
    ensures db.rules == before.rules && db.variants == before.variants && db.overrides == before.overrides
    ensures k in before.flags ==> k in db.flags && db.flags[k].defaultValue == before.flags[k].defaultValue
                                  && Normal(db.flags[k]).status == Normal(before.flags[k]).status
  {
    LoopTurnsOff(before, already, rows, up);
    assert still == {} && cache == base;
    CacheAnswersAllowed(cache, db, k, ctx);
    TurnedOffAnswers(before, db, rows, up, k, ctx, EvaluateCached(cache, k, ctx));
  }
}
