/** The table engine's events and the trigger engine's subscriptions meet on the bus. */
module Wiring {
  import opened Wrappers
  import TableEngine
  import TableSpec
  import opened TriggerModel

  lemma {:induction false} HeardBy(env: Env, rows: map<string, Trigger>, order: seq<Trigger>, up: string -> bool,
                                   calls: seq<Call>, key: string, h: nat)
    requires KeyedById(rows) && Lists(order, rows) && key != ""
    requires h in Run(env, Started(env, Unstarted(rows), order, up), calls).subs.live
    ensures var s := Run(env, Started(env, Unstarted(rows), order, up), calls);
            && s.subs.live[h].triggerId in s.rows
            && var t := s.rows[s.subs.live[h].triggerId];
               s.subs.live[h].on == "flagbase.table." + key + ".created" <==>
                 t.eventType == "table_create" && Names(t.config, "table_key", key)
  {
    var s := Run(env, Started(env, Unstarted(rows), order, up), calls);
    var e := s.subs.live[h];
    assert DeskOf(s, OnBus).live[h] == e;
    LiveIff(env, rows, order, up, calls, OnBus, e);
    TableSubject(s.rows[e.triggerId], e.on, key);
  }

  lemma {:induction false} TableSubject(t: Trigger, subject: string, key: string)
    requires ListensOn(t, subject) && key != ""
    ensures subject == "flagbase.table." + key + ".created" <==>
            t.eventType == "table_create" && Names(t.config, "table_key", key)
  {
    if t.eventType == "bucket_create" {
      var b :| Names(t.config, "bucket", b) && subject == "flagbase.bucket." + b + ".created";
      assert ("flagbase.bucket." + b + ".created")[9] == 'b' && ("flagbase.table." + key + ".created")[9] == 't';
    } else {
      var k :| Names(t.config, "table_key", k) && subject == "flagbase.table." + k + ".created";
      MiddleDecides("flagbase.table.", k, key, ".created");
    }
  }

  /**
   * An insert into a table reaches exactly the triggers on that table: after Start and any run of calls, the
   * message that InsertRecord publishes goes to the live subscriptions whose rows are table_create triggers on
   * the table, and every enabled one that the bus did not refuse has one.
   */
  method InsertFires(tables: TableEngine.Engine, key: string, data: map<string, TableSpec.GoValue>, id: string,
                     now: int, ghost env: Env, ghost rows: map<string, Trigger>, ghost order: seq<Trigger>,
                     ghost up: string -> bool, ghost calls: seq<Call>)
    returns (r: Outcome<Option<TableSpec.Record>>)
    requires tables.Valid() && tables.hasBus && env.wired && KeyedById(rows) && Lists(order, rows)
    modifies tables
    ensures r.Done? ==> |tables.published| == |old(tables.published)| + 1
    ensures var s := Run(env, Started(env, Unstarted(rows), order, up), calls);
            r.Done? ==>
              var subject := tables.published[|old(tables.published)|].0;
              && (forall h | h in s.subs.live ::
                    s.subs.live[h].triggerId in s.rows
                    && var t := s.rows[s.subs.live[h].triggerId];
                       s.subs.live[h].on == subject <==>
                         t.eventType == "table_create" && Names(t.config, "table_key", key))
              && (forall k | k in s.rows && s.rows[k].enabled && s.rows[k].eventType == "table_create"
                             && Names(s.rows[k].config, "table_key", key) && k !in s.refused ::
                    exists h | h in s.subs.live :: s.subs.live[h].triggerId == k && s.subs.live[h].on == subject)
  {
    r := tables.InsertRecord(key, data, id, now);
    if r.Done? {
      Reached(env, rows, order, up, calls, key);
    }
  }

  lemma {:induction false} Reached(env: Env, rows: map<string, Trigger>, order: seq<Trigger>, up: string -> bool,
                                   calls: seq<Call>, key: string)
    requires env.wired && KeyedById(rows) && Lists(order, rows) && key != ""
    ensures var s := Run(env, Started(env, Unstarted(rows), order, up), calls);
            var subject := "flagbase.table." + key + ".created";
            && (forall h | h in s.subs.live ::
                  s.subs.live[h].triggerId in s.rows
                  && var t := s.rows[s.subs.live[h].triggerId];
                     s.subs.live[h].on == subject <==>
                       t.eventType == "table_create" && Names(t.config, "table_key", key))
            && (forall k | k in s.rows && s.rows[k].enabled && s.rows[k].eventType == "table_create"
                           && Names(s.rows[k].config, "table_key", key) && k !in s.refused ::
                  exists h | h in s.subs.live :: s.subs.live[h].triggerId == k && s.subs.live[h].on == subject)
  {
    var s := Run(env, Started(env, Unstarted(rows), order, up), calls);
    var subject := "flagbase.table." + key + ".created";
    forall h | h in s.subs.live
      ensures s.subs.live[h].triggerId in s.rows
              && var t := s.rows[s.subs.live[h].triggerId];
                 s.subs.live[h].on == subject <==> t.eventType == "table_create" && Names(t.config, "table_key", key)
    {
      HeardBy(env, rows, order, up, calls, key, h);
    }
    KeysStay(env, rows, order, up, calls);
    forall k | k in s.rows && s.rows[k].enabled && s.rows[k].eventType == "table_create"
               && Names(s.rows[k].config, "table_key", key) && k !in s.refused
      ensures exists h | h in s.subs.live :: s.subs.live[h].triggerId == k && s.subs.live[h].on == subject
    {
      var e := Entry(subject, k, s.rows[k].functionId, "table_create");
      LiveIff(env, rows, order, up, calls, OnBus, e);
      var h :| h in DeskOf(s, OnBus).live && DeskOf(s, OnBus).live[h] == e;
      assert h in s.subs.live;
    }
  }
}
