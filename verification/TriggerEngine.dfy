/** The trigger engine: rows in the database, subscriptions on the event bus and entries in the cron scheduler. */
module TriggerEngine {
  import opened Wrappers
  import opened Ordering
  import opened TriggerModel

  /** The event bus as the engine sees it: live subscriptions by handle. */
  class Bus {
    var live: map<nat, Entry>
    var next: nat

    constructor ()
      ensures live == map[] && next == 0
    {
      live, next := map[], 0;
    }

    /** up is the bus's answer to this call. */
    method Subscribe(e: Entry, up: bool) returns (sub: Option<nat>)
      modifies this
      ensures if up then sub == Some(old(next)) && live == old(live)[old(next) := e] && next == old(next) + 1
            else sub == None && live == old(live) && next == old(next)
    {
      if !up {
        return None;
      }
      sub := Some(next);
      live := live[next := e];
      next := next + 1;
    }

    method Unsubscribe(sub: nat)
      modifies this
      ensures live == old(live) - {sub} && next == old(next)
    {
      live := live - {sub};
    }
  }

  /** The cron scheduler: entries by id, fired only while running. */
  class Scheduler {
    const parses: string -> bool
    var entries: map<nat, Entry>
    var next: nat
    var running: bool

    constructor (parses: string -> bool)
      ensures this.parses == parses && entries == map[] && next == 0 && !running
    {
      this.parses := parses;
      entries, next, running := map[], 0, false;
    }

    method AddFunc(schedule: string, e: Entry) returns (id: Option<nat>)
      modifies this
      ensures running == old(running)
      ensures if parses(schedule) then id == Some(old(next)) && entries == old(entries)[old(next) := e]
            && next == old(next) + 1
              else id == None && entries == old(entries) && next == old(next)
    {
      if !parses(schedule) {
        return None;
      }
      id := Some(next);
      entries := entries[next := e];
      next := next + 1;
    }

    method Remove(id: nat)
      modifies this
      ensures entries == old(entries) - {id} && next == old(next) && running == old(running)
    {
      entries := entries - {id};
    }

    method Start()
      modifies this`running
      ensures running
    {
      running := true;
    }

    method Stop()
      modifies this`running
      ensures !running
    {
      running := false;
    }
  }

  class Engine {
    const bus: Bus?
    const scheduler: Scheduler
    var db: map<string, Trigger>
    var subs: map<string, nat>
    var cronEnts: map<string, nat>

    /** The triggers whose last activation the bus refused. */
    ghost var refused: set<string>

    function Env(): Env
    {
      TriggerModel.Env.Env(bus != null, scheduler.parses)
    }

    function SubsDesk(): Desk
      reads this, bus
    {
      if bus == null then Desk(subs, map[], 0) else Desk(subs, bus.live, bus.next)
    }

    function CronDesk(): Desk
      reads this, scheduler
    {
      Desk(cronEnts, scheduler.entries, scheduler.next)
    }

    ghost function View(): State
      reads this, bus, scheduler
    {
      State(db, SubsDesk(), CronDesk(), scheduler.running, refused)
    }

    /** Without a bus there is nothing to hold. */
    predicate Valid()
      reads this
    {
      bus == null ==> subs == map[]
    }

    /** NewEngine, on a bus and a scheduler that are its own. */
    constructor (db: map<string, Trigger>, bus: Bus?, parses: string -> bool)
      requires bus != null ==> bus.live == map[] && bus.next == 0
      ensures Valid() && View() == Unstarted(db) && this.bus == bus && fresh(scheduler) && scheduler.parses == parses
    {
      this.db := db;
      this.bus := bus;
      subs, cronEnts := map[], map[];
      refused := {};
      scheduler := new Scheduler(parses);
    }

    /** Fails when the subject cannot be derived or the bus refuses; without a bus it succeeds and does nothing. */
    method Subscribe(t: Trigger, up: bool) returns (ok: bool)
      requires Valid() && (t.eventType == BUCKET_CREATE || t.eventType == TABLE_CREATE)
      modifies this`subs, this`refused, bus
      ensures Valid() && ok == (bus == null || (Offered(Env(), OnBus, t).Some? && up))
      ensures SubsDesk() == Offer(old(SubsDesk()), t.id, if up then Offered(Env(), OnBus, t) else None)
      ensures refused == if Offered(Env(), OnBus, t).Some? && !up then old(refused) + {t.id} else old(refused) - {t.id}
    {
      if bus == null {
        refused := refused - {t.id};
        return true;
      }
      var subject := Subject(t);
      if subject == "" {
        refused := refused - {t.id};
        return false;
      }
      var sub := bus.Subscribe(Entry(subject, t.id, t.functionId, t.eventType), up);
      if sub.None? {
        refused := refused + {t.id};
        return false;
      }
      refused := refused - {t.id};
      subs := subs[t.id := sub.value];
      return true;
    }

    method ScheduleCron(t: Trigger) returns (ok: bool)
      requires t.eventType == CRON
      modifies this`cronEnts, scheduler
      ensures ok == Offered(Env(), OnClock, t).Some? && scheduler.running == old(scheduler.running)
      ensures CronDesk() == Offer(old(CronDesk()), t.id, Offered(Env(), OnClock, t))
    {
      var schedule := Setting(t.config, "schedule");
      if schedule == "" {
        return false;
      }
      var ent := scheduler.AddFunc(schedule, Entry(schedule, t.id, t.functionId, CRON));
      if ent.None? {
        return false;
      }
      cronEnts := cronEnts[t.id := ent.value];
      return true;
    }

    /** activate */
    method Activate(t: Trigger, up: bool) returns (ok: bool)
      requires Valid()
      modifies this`subs, this`refused, this`cronEnts, bus, scheduler
      ensures Valid() && View() == Activated(Env(), old(View()), t, up)
    {
      if t.eventType == BUCKET_CREATE || t.eventType == TABLE_CREATE {
        ok := Subscribe(t, up);
      } else if t.eventType == CRON {
        ok := ScheduleCron(t);
        refused := refused - {t.id};
      } else {
        ok := t.eventType == HTTP;
        refused := refused - {t.id};
      }
    }

    /** deactivate */
    method Deactivate(id: string)
      requires Valid()
      modifies this`subs, this`cronEnts, bus, scheduler
      ensures Valid() && View() == Deactivated(old(View()), id)
    {
      if id in subs {
        bus.Unsubscribe(subs[id]);
        subs := subs - {id};
      }
      if id in cronEnts {
        scheduler.Remove(cronEnts[id]);
        cronEnts := cronEnts - {id};
      }
    }

    /** The rows, in storage order. */
    method Rows() returns (rows: seq<Trigger>)
      requires KeyedById(db)
      ensures Lists(rows, db)
    {
      rows := [];
      var todo := db.Keys;
      while todo != {}
        invariant todo <= db.Keys
        invariant forall i | 0 <= i < |rows| :: rows[i].id in db.Keys - todo && db[rows[i].id] == rows[i]
        invariant forall i, j | 0 <= i < j < |rows| :: rows[i].id != rows[j].id
        invariant forall id | id in db.Keys && id !in todo :: Listed(rows, id)
        decreases todo
      {
        var id :| id in todo;
        ghost var before := rows;
        rows := rows + [db[id]];
        todo := todo - {id};
        assert rows[|before|].id == id;
        forall k | Listed(before, k) ensures Listed(rows, k) {
          var i :| 0 <= i < |before| && before[i].id == k;
          assert rows[i].id == k;
        }
      }
    }

    /** List: the rows, newest first. */
    method List() returns (order: seq<Trigger>)
      requires KeyedById(db)
      ensures Lists(order, db) && forall i, j | 0 <= i < j < |order| :: order[i].createdAt >= order[j].createdAt
    {
      var rows := Rows();
      order := OrderBy(rows, NewestFirst);
      assert forall i, j | 0 <= i < j < |order| :: NewestFirst(order[i], order[j]);
      StillLists(order, rows, db);
    }

    /** Start; up tells for which triggers the bus accepts the subscription. */
    method Start(up: string -> bool) returns (ghost order: seq<Trigger>)
      requires Valid() && KeyedById(db)
      modifies this`subs, this`refused, this`cronEnts, bus, scheduler
      ensures Valid() && Lists(order, db)
      ensures forall i, j | 0 <= i < j < |order| :: order[i].createdAt >= order[j].createdAt
      ensures View() == Started(Env(), old(View()), order, up)
    {
      var triggers := List();
      for i := 0 to |triggers|
        invariant Valid() && View() == StartedOn(Env(), old(View()), triggers[..i], up)
      {
        assert triggers[..i + 1][..i] == triggers[..i];
        if triggers[i].enabled {
          var _ := Activate(triggers[i], up(triggers[i].id));
        }
      }
      assert triggers[..|triggers|] == triggers;
      scheduler.Start();
      order := triggers;
    }

    /** Stop */
    method Stop()
      requires Valid()
      modifies this`subs, this`cronEnts, bus, scheduler
      ensures Valid() && View() == Stopped(old(View()))
    {
      var todo := subs.Keys;
      while todo != {}
        invariant todo <= subs.Keys && subs == old(subs) && cronEnts == old(cronEnts)
        invariant bus != null ==> bus.next == old(bus.next)
        invariant bus != null ==> bus.live == old(bus.live) - (set id | id in subs.Keys - todo :: subs[id])
        invariant CronDesk() == old(CronDesk())
        decreases todo
      {
        var id :| id in todo;
        bus.Unsubscribe(subs[id]);
        todo := todo - {id};
      }
      assert (set id | id in subs.Keys :: subs[id]) == subs.Values;
      subs := map[];
      cronEnts := map[];
      scheduler.Stop();
    }

    /**
     * Create; genId is the generated id, functionExists the foreign key on function_id, and up the bus's
     * answer in case it is asked.
     */
    method Create(genId: string, functionId: string, eventType: string, config: Config, enabled: bool, now: int,
                  functionExists: bool, up: bool)
      returns (t: Option<Trigger>)
      requires Valid()
      modifies this, bus, scheduler
      ensures Valid()
      ensures var made := Trigger(genId, functionId, eventType, config, enabled, now);
              && (View(), t.Some?) == Created(Env(), old(View()), made, functionExists, up)
              && (t.Some? ==> t.value == made)
    {
      if !KnownEventType(eventType) {
        return None;
      }
      if genId in db || !functionExists {
        return None;
      }
      t := Some(Trigger(genId, functionId, eventType, config, enabled, now));
      db := db[genId := t.value];
      if enabled {
        var _ := Activate(t.value, up);
      }
    }

    /** Get */
    method Get(id: string) returns (t: Option<Trigger>)
      ensures t == if id in db then Some(db[id]) else None
    {
      if id !in db {
        return None;
      }
      return Some(db[id]);
    }

    /** Update */
    method Update(id: string, enabled: bool, config: Config, up: bool) returns (t: Option<Trigger>)
      requires Valid() && KeyedById(db)
      modifies this, bus, scheduler
      ensures Valid() && View() == Updated(Env(), old(View()), id, enabled, config, up)
      ensures t == if id in db then Some(db[id]) else None
    {
      if id in db {
        db := db[id := db[id].(enabled := enabled, config := config)];
      }
      t := Get(id);
      if t.None? {
        return;
      }
      Deactivate(id);
      if enabled {
        var _ := Activate(t.value, up);
      }
    }

    /** Delete */
    method Delete(id: string)
      requires Valid()
      modifies this, bus, scheduler
      ensures Valid() && View() == Deleted(old(View()), id)
    {
      Deactivate(id);
      db := db - {id};
    }
  }

  lemma {:induction false} StillLists(order: seq<Trigger>, rows: seq<Trigger>, db: map<string, Trigger>)
    requires multiset(order) == multiset(rows) && Lists(rows, db)
    ensures Lists(order, db)
  {
    OrderingDistinct(order, rows, (t: Trigger) => t.id);
    forall i | 0 <= i < |order| ensures order[i].id in db && db[order[i].id] == order[i] {
      assert order[i] in order;
      SameMembers(order, rows, order[i]);
    }
    forall id | id in db ensures Listed(order, id) {
      var i :| 0 <= i < |rows| && rows[i].id == id;
      SameMembers(order, rows, rows[i]);
      var k :| 0 <= k < |order| && order[k] == rows[i];
    }
  }
}
