/**
 * Function triggers: the rows, the handles the engine keeps, and what is live behind those handles on the
 * event bus and in the cron scheduler. Both sides keep their books the same way, so they share a Desk.
 */
module TriggerModel {
  import opened Wrappers

  const HTTP := "http"
  const BUCKET_CREATE := "bucket_create"
  const TABLE_CREATE := "table_create"
  const CRON := "cron"

  /** A config value: a string, or something a type assertion to string rejects. */
  datatype ConfigValue = IsString(s: string) | Other

  type Config = map<string, ConfigValue>

  datatype Trigger = Trigger(id: string, functionId: string, eventType: string, config: Config, enabled: bool,
                             createdAt: int)

  /** What a handler was created with: the trigger and function it fires, on a subject or a schedule. */
  datatype Entry = Entry(on: string, triggerId: string, functionId: string, eventType: string)

  /** Handles held by trigger id, and what is live by handle. */
  datatype Desk = Desk(held: map<string, nat>, live: map<nat, Entry>, next: nat)

  /** refused holds the triggers whose last activation the bus refused. */
  datatype State = State(rows: map<string, Trigger>, subs: Desk, cron: Desk, running: bool, refused: set<string>)

  /** Whether a bus is wired, and the schedules that parse. */
  datatype Env = Env(wired: bool, parses: string -> bool)

  datatype Side = OnBus | OnClock

  predicate KnownEventType(et: string) {
    et == HTTP || et == BUCKET_CREATE || et == TABLE_CREATE || et == CRON
  }

  function Setting(config: Config, name: string): string {
    if name in config && config[name].IsString? then config[name].s else ""
  }

  /** natsSubject */
  function Subject(t: Trigger): string {
    if t.eventType == BUCKET_CREATE && Setting(t.config, "bucket") != "" then
      "flagbase.bucket." + Setting(t.config, "bucket") + ".created"
    else if t.eventType == TABLE_CREATE && Setting(t.config, "table_key") != "" then
      "flagbase.table." + Setting(t.config, "table_key") + ".created"
    else ""
  }

  /** What activating a trigger asks of one side, if anything. */
  function Offered(env: Env, side: Side, t: Trigger): Option<Entry> {
    match side
    case OnBus =>
      if env.wired && Subject(t) != ""
      then Some(Entry(Subject(t), t.id, t.functionId, t.eventType)) else None
    case OnClock =>
      var schedule := Setting(t.config, "schedule");
      if t.eventType == CRON && schedule != "" && env.parses(schedule)
      then Some(Entry(schedule, t.id, t.functionId, t.eventType)) else None
  }

  /** What a row calls for on one side; what the bus refused last time is not there. */
  function Wanted(env: Env, side: Side, t: Trigger, refused: set<string>): Option<Entry> {
    if t.enabled && !(side == OnBus && t.id in refused) then Offered(env, side, t) else None
  }

  // ---- one desk ----

  function Add(d: Desk, id: string, e: Entry): Desk {
    Desk(d.held[id := d.next], d.live[d.next := e], d.next + 1)
  }

  function Drop(d: Desk, id: string): Desk {
    if id in d.held then Desk(d.held - {id}, d.live - {d.held[id]}, d.next) else d
  }

  function Offer(d: Desk, id: string, e: Option<Entry>): Desk {
    if e.Some? then Add(d, id, e.value) else d
  }

  /** What is live is exactly what is held, one handle for each trigger: nothing leaks. */
  ghost predicate Owned(d: Desk) {
    && (forall id | id in d.held :: d.held[id] in d.live)
    && (forall h | h in d.live :: exists id | id in d.held :: d.held[id] == h)
    && (forall i, j | i in d.held && j in d.held && i != j :: d.held[i] != d.held[j])
    && (forall h | h in d.live :: h < d.next)
  }

  /** The desk is owned and holds what the rows call for, with their current settings, and no more. */
  ghost predicate Tracks(env: Env, side: Side, d: Desk, rows: map<string, Trigger>, refused: set<string>) {
    Owned(d) && Follows(env, side, d, rows, refused)
  }

  ghost predicate Follows(env: Env, side: Side, d: Desk, rows: map<string, Trigger>, refused: set<string>) {
    && (forall id :: id in d.held <==> id in rows && Wanted(env, side, rows[id], refused).Some?)
    && (forall id | id in d.held ::
          d.held[id] in d.live && d.live[d.held[id]] == Wanted(env, side, rows[id], refused).value)
  }

  lemma {:induction false} AddOwned(d: Desk, id: string, e: Entry)
    requires Owned(d) && id !in d.held
    ensures Owned(Add(d, id, e))
  {
    var a := Add(d, id, e);
    forall h | h in a.live ensures exists k | k in a.held :: a.held[k] == h {
      if h == d.next {
        assert a.held[id] == h;
      } else {
        var k :| k in d.held && d.held[k] == h;
        assert a.held[k] == h;
      }
    }
  }

  lemma {:induction false} DropOwned(d: Desk, id: string)
    requires Owned(d)
    ensures Owned(Drop(d, id))
  {
    var a := Drop(d, id);
    forall h | h in a.live ensures exists k | k in a.held :: a.held[k] == h {
      var k :| k in d.held && d.held[k] == h;
      assert a.held[k] == h;
    }
  }

  predicate SameBut(a: set<string>, b: set<string>, id: string) {
    a - {id} == b - {id}
  }

  lemma {:induction false} RefusalElsewhere(env: Env, side: Side, t: Trigger, a: set<string>, b: set<string>,
          id: string)
    requires SameBut(a, b, id) && t.id != id
    ensures Wanted(env, side, t, a) == Wanted(env, side, t, b)
  {
    assert t.id in a <==> t.id in a - {id};
    assert t.id in b <==> t.id in b - {id};
  }

  /** A row that is not tracked yet may get its entry, under the bus's new answer for it. */
  lemma {:induction false} OfferFollows(env: Env, side: Side, d: Desk, rows: map<string, Trigger>, refused: set<string>,
                                        t: Trigger, after: set<string>)
    requires Follows(env, side, d, rows, refused) && KeyedById(rows) && t.id !in rows && SameBut(refused, after, t.id)
    requires forall h | h in d.live :: h < d.next
    ensures Follows(env, side, Offer(d, t.id, Wanted(env, side, t, after)), rows[t.id := t], after)
  {
    forall id | id in rows ensures Wanted(env, side, rows[id], refused) == Wanted(env, side, rows[id], after) {
      RefusalElsewhere(env, side, rows[id], refused, after, t.id);
    }
  }

  lemma {:induction false} OfferTracks(env: Env, side: Side, d: Desk, rows: map<string, Trigger>, refused: set<string>,
                                       t: Trigger, after: set<string>)
    requires Tracks(env, side, d, rows, refused) && KeyedById(rows) && t.id !in rows && SameBut(refused, after, t.id)
    ensures Tracks(env, side, Offer(d, t.id, Wanted(env, side, t, after)), rows[t.id := t], after)
  {
    var e := Wanted(env, side, t, after);
    OfferFollows(env, side, d, rows, refused, t, after);
    if e.Some? { AddOwned(d, t.id, e.value); }
  }

  lemma {:induction false} DropTracks(env: Env, side: Side, d: Desk, rows: map<string, Trigger>,
          refused: set<string>, id: string)
    requires Tracks(env, side, d, rows, refused)
    ensures Tracks(env, side, Drop(d, id), rows - {id}, refused)
  {
    DropOwned(d, id);
  }

  // ---- the engine's calls ----

  /** Activation, with the bus's answer in case it is asked. */
  function Activated(env: Env, s: State, t: Trigger, up: bool): State {
    var asked := Offered(env, OnBus, t);
    s.(subs := Offer(s.subs, t.id, if up then asked else None),
       cron := Offer(s.cron, t.id, Offered(env, OnClock, t)),
       refused := if asked.Some? && !up then s.refused + {t.id} else s.refused - {t.id})
  }

  function Deactivated(s: State, id: string): State {
    s.(subs := Drop(s.subs, id), cron := Drop(s.cron, id))
  }

  function ActivatedIfEnabled(env: Env, s: State, t: Trigger, up: bool): State {
    if t.enabled then Activated(env, s, t, up) else s
  }

  /** Create, for a fresh id: the event type is known and the function exists, or nothing happens. */
  function Created(env: Env, s: State, t: Trigger, functionExists: bool, up: bool): (State, bool) {
    if !KnownEventType(t.eventType) || t.id in s.rows || !functionExists then (s, false)
    else (ActivatedIfEnabled(env, s.(rows := s.rows[t.id := t]), t, up), true)
  }

  /** Update: a missing row is left missing and nothing is deactivated. */
  function Updated(env: Env, s: State, id: string, enabled: bool, config: Config, up: bool): State {
    if id !in s.rows then s
    else
      var t := s.rows[id].(enabled := enabled, config := config);
      ActivatedIfEnabled(env, Deactivated(s.(rows := s.rows[id := t]), id), t, up)
  }

  function Deleted(s: State, id: string): State {
    var d := Deactivated(s, id);
    d.(rows := d.rows - {id})
  }

  /** Start over the rows in the order they are listed, with the bus's answer for each. */
  function StartedOn(env: Env, s: State, order: seq<Trigger>, up: string -> bool): State {
    if order == [] then s
    else
      var t := order[|order| - 1];
      ActivatedIfEnabled(env, StartedOn(env, s, order[..|order| - 1], up), t, up(t.id))
  }

  function Started(env: Env, s: State, order: seq<Trigger>, up: string -> bool): State {
    StartedOn(env, s, order, up).(running := true)
  }

  /** Stop: every held subscription ends, both books are emptied, and the scheduler keeps its entries but stops. */
  function Stopped(s: State): State {
    s.(subs := Desk(map[], s.subs.live - s.subs.held.Values, s.subs.next),
       cron := s.cron.(held := map[]),
       running := false)
  }

  predicate KeyedById(rows: map<string, Trigger>) {
    forall id | id in rows :: rows[id].id == id
  }

  /** Bus and scheduler hold exactly what the rows call for, given the bus's last answers. */
  ghost predicate Matched(env: Env, s: State) {
    KeyedById(s.rows) && Tracks(env, OnBus, s.subs, s.rows, s.refused)
          && Tracks(env, OnClock, s.cron, s.rows, s.refused)
  }

  /** Activating a row that nothing is held for keeps both sides in step. */
  lemma {:induction false} ActivateMatches(env: Env, s: State, rows: map<string, Trigger>, t: Trigger, up: bool)
    requires KeyedById(rows) && t.id !in rows
    requires Tracks(env, OnBus, s.subs, rows, s.refused) && Tracks(env, OnClock, s.cron, rows, s.refused)
    ensures var after := ActivatedIfEnabled(env, s, t, up);
            && Tracks(env, OnBus, after.subs, rows[t.id := t], after.refused)
            && Tracks(env, OnClock, after.cron, rows[t.id := t], after.refused)
  {
    var after := ActivatedIfEnabled(env, s, t, up).refused;
    OfferTracks(env, OnBus, s.subs, rows, s.refused, t, after);
    OfferTracks(env, OnClock, s.cron, rows, s.refused, t, after);
  }

  lemma {:induction false} CreateKeepsMatch(env: Env, s: State, t: Trigger, functionExists: bool, up: bool)
    requires Matched(env, s)
    ensures Matched(env, Created(env, s, t, functionExists, up).0)
  {
    if t.id !in s.rows {
      ActivateMatches(env, s.(rows := s.rows[t.id := t]), s.rows, t, up);
    }
  }

  lemma {:induction false} DeleteKeepsMatch(env: Env, s: State, id: string)
    requires Matched(env, s)
    ensures Matched(env, Deleted(s, id))
  {
    DropTracks(env, OnBus, s.subs, s.rows, s.refused, id);
    DropTracks(env, OnClock, s.cron, s.rows, s.refused, id);
  }

  lemma {:induction false} UpdateKeepsMatch(env: Env, s: State, id: string, enabled: bool, config: Config, up: bool)
    requires Matched(env, s)
    ensures Matched(env, Updated(env, s, id, enabled, config, up))
  {
    if id in s.rows {
      var t := s.rows[id].(enabled := enabled, config := config);
      var gone := s.rows - {id};
      DropTracks(env, OnBus, s.subs, s.rows, s.refused, id);
      DropTracks(env, OnClock, s.cron, s.rows, s.refused, id);
      ActivateMatches(env, Deactivated(s.(rows := s.rows[id := t]), id), gone, t, up);
      assert gone[id := t] == s.rows[id := t];
    }
  }

  // ---- start ----

  /** The rows, each listed once. */
  ghost predicate Lists(order: seq<Trigger>, rows: map<string, Trigger>) {
    && (forall i | 0 <= i < |order| :: order[i].id in rows && rows[order[i].id] == order[i])
    && (forall i, j | 0 <= i < j < |order| :: order[i].id != order[j].id)
    && (forall id | id in rows :: Listed(order, id))
  }

  /** ORDER BY created_at DESC */
  predicate NewestFirst(a: Trigger, b: Trigger) { a.createdAt >= b.createdAt }

  predicate Listed(order: seq<Trigger>, id: string) {
    exists i | 0 <= i < |order| :: order[i].id == id
  }

  function Table(order: seq<Trigger>): map<string, Trigger> {
    if order == [] then map[]
    else Table(order[..|order| - 1])[order[|order| - 1].id := order[|order| - 1]]
  }

  lemma {:induction false} TableHas(order: seq<Trigger>)
    requires forall i, j | 0 <= i < j < |order| :: order[i].id != order[j].id
    ensures forall i | 0 <= i < |order| :: order[i].id in Table(order) && Table(order)[order[i].id] == order[i]
  {
    if order != [] {
      var n := |order| - 1;
      TableHas(order[..n]);
      assert forall i | 0 <= i < n :: order[..n][i] == order[i];
    }
  }

  lemma {:induction false} TableHasOnly(order: seq<Trigger>, id: string)
    requires id in Table(order)
    ensures exists i | 0 <= i < |order| :: order[i].id == id
  {
    var n := |order| - 1;
    if id != order[n].id {
      TableHasOnly(order[..n], id);
      var i :| 0 <= i < n && order[..n][i].id == id;
      assert order[i].id == id;
    }
  }

  lemma {:induction false} NotListedBefore(order: seq<Trigger>)
    requires order != [] && forall i, j | 0 <= i < j < |order| :: order[i].id != order[j].id
    ensures order[|order| - 1].id !in Table(order[..|order| - 1])
  {
    var n := |order| - 1;
    if order[n].id in Table(order[..n]) {
      TableHasOnly(order[..n], order[n].id);
      assert false;
    }
  }

  lemma {:induction false} TableKeyed(order: seq<Trigger>)
    ensures KeyedById(Table(order))
  {
    if order != [] { TableKeyed(order[..|order| - 1]); }
  }

  lemma {:induction false} StartTracks(env: Env, s: State, order: seq<Trigger>, up: string -> bool)
    requires forall i, j | 0 <= i < j < |order| :: order[i].id != order[j].id
    requires s.subs.held == map[] && s.subs.live == map[] && s.cron.held == map[] && s.cron.live == map[]
    ensures var t := StartedOn(env, s, order, up);
            t.rows == s.rows && Tracks(env, OnBus, t.subs, Table(order), t.refused)
            && Tracks(env, OnClock, t.cron, Table(order), t.refused)
  {
    if order != [] {
      var n := |order| - 1;
      StartTracks(env, s, order[..n], up);
      NotListedBefore(order);
      TableKeyed(order[..n]);
      ActivateMatches(env, StartedOn(env, s, order[..n], up), Table(order[..n]), order[n], up(order[n].id));
    }
  }

  /** A new engine over given rows. */
  function Unstarted(rows: map<string, Trigger>): State {
    State(rows, Desk(map[], map[], 0), Desk(map[], map[], 0), false, {})
  }

  /** Start on a new engine brings bus and scheduler into step with the rows, whatever the listing order. */
  lemma {:induction false} StartMatches(env: Env, rows: map<string, Trigger>, order: seq<Trigger>, up: string -> bool)
    requires KeyedById(rows) && Lists(order, rows)
    ensures Matched(env, Started(env, Unstarted(rows), order, up))
          && Started(env, Unstarted(rows), order, up).rows == rows && Started(env, Unstarted(rows), order, up).running
  {
    StartTracks(env, Unstarted(rows), order, up);
    TableHas(order);
    forall id | id in Table(order) ensures id in rows {
      TableHasOnly(order, id);
    }
    assert Table(order) == rows;
  }

  // ---- whole runs ----

  datatype Call =
    | CallCreate(t: Trigger, functionExists: bool, up: bool)
    | CallUpdate(id: string, enabled: bool, config: Config, up: bool)
    | CallDelete(id: string)

  function Next(env: Env, s: State, c: Call): State {
    match c
    case CallCreate(t, functionExists, up) => Created(env, s, t, functionExists, up).0
    case CallUpdate(id, enabled, config, up) => Updated(env, s, id, enabled, config, up)
    case CallDelete(id) => Deleted(s, id)
  }

  function Run(env: Env, s: State, calls: seq<Call>): State {
    if calls == [] then s else Next(env, Run(env, s, calls[..|calls| - 1]), calls[|calls| - 1])
  }

  lemma {:induction false} RunKeepsMatch(env: Env, s: State, calls: seq<Call>)
    requires Matched(env, s)
    ensures Matched(env, Run(env, s, calls))
  {
    if calls != [] {
      var n := |calls| - 1;
      RunKeepsMatch(env, s, calls[..n]);
      var before := Run(env, s, calls[..n]);
      match calls[n]
      case CallCreate(t, functionExists, up) => CreateKeepsMatch(env, before, t, functionExists, up);
      case CallUpdate(id, enabled, config, up) => UpdateKeepsMatch(env, before, id, enabled, config, up);
      case CallDelete(id) => DeleteKeepsMatch(env, before, id);
    }
  }

  function DeskOf(s: State, side: Side): Desk {
    if side == OnBus then s.subs else s.cron
  }

  /**
   * After Start and any run of calls, what is live on each side is exactly what the rows then call for:
   * every live entry is some row's, with its current settings, and every row that calls for an entry,
   * and whose last activation the bus did not refuse, has exactly one.
   */
  lemma {:induction false} LiveIsWhatRowsWant(env: Env, rows: map<string, Trigger>, order: seq<Trigger>,
                                              up: string -> bool, calls: seq<Call>, side: Side)
    requires KeyedById(rows) && Lists(order, rows)
    ensures var s := Run(env, Started(env, Unstarted(rows), order, up), calls);
            LiveExactly(env, side, DeskOf(s, side).live, s.rows, s.refused)
  {
    StartMatches(env, rows, order, up);
    RunKeepsMatch(env, Started(env, Unstarted(rows), order, up), calls);
    var s := Run(env, Started(env, Unstarted(rows), order, up), calls);
    TracksExactly(env, side, DeskOf(s, side), s.rows, s.refused);
  }

  /** Live entries and the rows that call for one correspond one to one. */
  ghost predicate LiveExactly(env: Env, side: Side, live: map<nat, Entry>, rows: map<string, Trigger>,
          refused: set<string>) {
    && (forall h | h in live ::
          live[h].triggerId in rows && Wanted(env, side, rows[live[h].triggerId], refused) == Some(live[h]))
    && (forall id | id in rows && Wanted(env, side, rows[id], refused).Some? ::
          exists h | h in live :: live[h] == Wanted(env, side, rows[id], refused).value)
    && (forall h, k | h in live && k in live && h != k :: live[h].triggerId != live[k].triggerId)
  }

  lemma {:induction false} TracksExactly(env: Env, side: Side, d: Desk, rows: map<string, Trigger>,
          refused: set<string>)
    requires KeyedById(rows) && Tracks(env, side, d, rows, refused)
    ensures LiveExactly(env, side, d.live, rows, refused)
  {
    forall h | h in d.live
      ensures d.live[h].triggerId in d.held && d.held[d.live[h].triggerId] == h
    {
      var id :| id in d.held && d.held[id] == h;
      assert Wanted(env, side, rows[id], refused).value.triggerId == id;
    }
    forall id | id in rows && Wanted(env, side, rows[id], refused).Some?
      ensures exists h | h in d.live :: d.live[h] == Wanted(env, side, rows[id], refused).value
    {
      assert d.held[id] in d.live;
    }
  }

  // ---- what is live, in plain terms ----

  /** The config has a non-empty text under that name. */
  predicate Names(config: Config, setting: string, value: string) {
    setting in config && config[setting] == IsString(value) && value != ""
  }

  /** The trigger listens on the subject of its bucket or of its table. */
  ghost predicate ListensOn(t: Trigger, subject: string) {
    (t.eventType == "bucket_create"
     && exists b :: Names(t.config, "bucket", b) && subject == "flagbase.bucket." + b + ".created")
    || (t.eventType == "table_create"
        && exists k :: Names(t.config, "table_key", k) && subject == "flagbase.table." + k + ".created")
  }

  /** What activating the trigger puts on that side. */
  ghost predicate Asked(env: Env, side: Side, t: Trigger, e: Entry) {
    e.triggerId == t.id && e.functionId == t.functionId && e.eventType == t.eventType
    && match side
       case OnBus => env.wired && ListensOn(t, e.on)
       case OnClock => t.eventType == "cron" && Names(t.config, "schedule", e.on) && env.parses(e.on)
  }

  lemma {:induction false} SubjectMeans(t: Trigger, subject: string)
    requires subject != ""
    ensures Subject(t) == subject <==> ListensOn(t, subject)
  {
    if t.eventType == "bucket_create" && Setting(t.config, "bucket") != "" {
      assert Names(t.config, "bucket", Setting(t.config, "bucket"));
    }
    if t.eventType == "table_create" && Setting(t.config, "table_key") != "" {
      assert Names(t.config, "table_key", Setting(t.config, "table_key"));
    }
  }

  lemma {:induction false} ListeningIsNamed(t: Trigger)
    ensures !ListensOn(t, "")
  {
    forall b: string ensures "flagbase.bucket." + b + ".created" != "" && "flagbase.table." + b + ".created" != "" {
      assert |"flagbase.bucket." + b + ".created"| > 0 && |"flagbase.table." + b + ".created"| > 0;
    }
  }

  lemma {:induction false} OfferedMeans(env: Env, side: Side, t: Trigger, e: Entry)
    ensures Offered(env, side, t) == Some(e) <==> Asked(env, side, t, e)
  {
    if side == OnBus {
      if e.on == "" { ListeningIsNamed(t); } else { SubjectMeans(t, e.on); }
    }
  }

  /**
   * After Start and any run of calls, an entry is live on a side if and only if it is what some enabled row asks
   * for with its current settings, and the bus did not refuse that row at its last activation.
   */
  lemma {:induction false} LiveIff(env: Env, rows: map<string, Trigger>, order: seq<Trigger>, up: string -> bool,
                                   calls: seq<Call>, side: Side, e: Entry)
    requires KeyedById(rows) && Lists(order, rows)
    ensures var s := Run(env, Started(env, Unstarted(rows), order, up), calls);
            (exists h | h in DeskOf(s, side).live :: DeskOf(s, side).live[h] == e) <==>
              e.triggerId in s.rows && s.rows[e.triggerId].enabled && Asked(env, side, s.rows[e.triggerId], e)
              && !(side == OnBus && e.triggerId in s.refused)
  {
    var s := Run(env, Started(env, Unstarted(rows), order, up), calls);
    LiveIsWhatRowsWant(env, rows, order, up, calls, side);
    KeysStay(env, rows, order, up, calls);
    if e.triggerId in s.rows {
      OfferedMeans(env, side, s.rows[e.triggerId], e);
      LiveIfWanted(env, side, DeskOf(s, side).live, s.rows, s.refused, e);
    }
  }

  lemma {:induction false} LiveIfWanted(env: Env, side: Side, live: map<nat, Entry>, rows: map<string, Trigger>,
                                        refused: set<string>, e: Entry)
    requires LiveExactly(env, side, live, rows, refused) && KeyedById(rows) && e.triggerId in rows
    ensures (exists h | h in live :: live[h] == e) <==> Wanted(env, side, rows[e.triggerId], refused) == Some(e)
  {}

  lemma {:induction false} KeysStay(env: Env, rows: map<string, Trigger>, order: seq<Trigger>, up: string -> bool,
                                    calls: seq<Call>)
    requires KeyedById(rows) && Lists(order, rows)
    ensures KeyedById(Run(env, Started(env, Unstarted(rows), order, up), calls).rows)
  {
    StartMatches(env, rows, order, up);
    RunKeepsMatch(env, Started(env, Unstarted(rows), order, up), calls);
  }

  /** What each call does to the rows. */
  lemma {:induction false} RowsAfter(env: Env, s: State, c: Call)
    ensures match c
            case CallCreate(t, functionExists, _) =>
              Next(env, s, c).rows ==
                if t.eventType in {"http", "bucket_create", "table_create", "cron"} && t.id !in s.rows && functionExists
                then s.rows[t.id := t] else s.rows
            case CallUpdate(id, enabled, config, _) =>
              && Next(env, s, c).rows.Keys == s.rows.Keys
              && (forall k | k in s.rows && k != id :: Next(env, s, c).rows[k] == s.rows[k])
              && (id in s.rows ==>
                    var was, t := s.rows[id], Next(env, s, c).rows[id];
                    t.enabled == enabled && t.config == config && t.id == was.id && t.functionId == was.functionId
                    && t.eventType == was.eventType && t.createdAt == was.createdAt)
            case CallDelete(id) => Next(env, s, c).rows == s.rows - {id}
  {}

  /** After an update that enables it, a trigger counts as refused exactly when the bus was asked and said no. */
  lemma {:induction false} RefusedAfter(env: Env, s: State, id: string, config: Config, up: bool)
    requires KeyedById(s.rows) && id in s.rows
    ensures var after := Next(env, s, CallUpdate(id, true, config, up));
            && (id in after.refused <==> !up && env.wired && exists subject :: ListensOn(after.rows[id], subject))
            && (forall k | k != id :: k in after.refused <==> k in s.refused)
  {
    var t := Next(env, s, CallUpdate(id, true, config, up)).rows[id];
    if Subject(t) != "" { SubjectMeans(t, Subject(t)); }
    if subject :| ListensOn(t, subject) {
      if subject == "" { ListeningIsNamed(t); } else { SubjectMeans(t, subject); }
    }
  }

  /** Two triggers listen on one subject if and only if they are of one type and name the same bucket or table. */
  lemma {:induction false} SharedSubject(t: Trigger, u: Trigger)
    requires Subject(t) != "" && Subject(u) != ""
    ensures Subject(t) == Subject(u) <==>
            t.eventType == u.eventType
            && (t.eventType == "bucket_create" ==> Setting(t.config, "bucket") == Setting(u.config, "bucket"))
            && (t.eventType == "table_create" ==> Setting(t.config, "table_key") == Setting(u.config, "table_key"))
  {
    if t.eventType != u.eventType {
      assert Subject(t)[9] != Subject(u)[9];
    } else if t.eventType == "bucket_create" {
      MiddleDecides("flagbase.bucket.", Setting(t.config, "bucket"), Setting(u.config, "bucket"), ".created");
    } else {
      MiddleDecides("flagbase.table.", Setting(t.config, "table_key"), Setting(u.config, "table_key"), ".created");
    }
  }

  lemma {:induction false} MiddleDecides(before: string, a: string, b: string, after: string)
    ensures before + a + after == before + b + after <==> a == b
  {
    if before + a + after == before + b + after {
      assert a == (before + a + after)[|before|..|before| + |a|];
      assert b == (before + b + after)[|before|..|before| + |b|];
    }
  }

  /** After Stop nothing is subscribed and nothing is scheduled to fire, and the rows are as they were. */
  lemma {:induction false} StopSilences(env: Env, s: State)
    requires Matched(env, s)
    ensures Stopped(s).subs.live == map[] && Stopped(s).subs.held == map[] && !Stopped(s).running
          && Stopped(s).rows == s.rows
  {}

  // ---- a second start ----

  /** b grew out of a: nothing went dead, and each handle is a's or a new one. */
  ghost predicate Grew(a: Desk, b: Desk) {
    && a.next <= b.next
    && (forall h | h in a.live :: h in b.live)
    && (forall id | id in b.held :: b.held[id] >= a.next || (id in a.held && b.held[id] == a.held[id]))
  }

  lemma {:induction false} OfferGrows(a: Desk, b: Desk, id: string, e: Option<Entry>)
    requires Grew(a, b)
    ensures Grew(a, Offer(b, id, e))
  {}

  /** Activating the trigger again gets it an entry on that side. */
  predicate Renews(env: Env, side: Side, t: Trigger, up: string -> bool) {
    t.enabled && Offered(env, side, t).Some? && (side == OnClock || up(t.id))
  }

  lemma {:induction false} StartTurn(env: Env, s: State, order: seq<Trigger>, up: string -> bool, side: Side)
    requires order != []
    ensures var t := order[|order| - 1];
            DeskOf(StartedOn(env, s, order, up), side) ==
              Offer(DeskOf(StartedOn(env, s, order[..|order| - 1], up), side), t.id,
                    if Renews(env, side, t, up) then Offered(env, side, t) else None)
  {}

  lemma {:induction false} StartGrows(env: Env, s: State, order: seq<Trigger>, up: string -> bool, side: Side)
    ensures Grew(DeskOf(s, side), DeskOf(StartedOn(env, s, order, up), side))
  {
    if order != [] {
      var n := |order| - 1;
      StartGrows(env, s, order[..n], up, side);
      StartTurn(env, s, order, up, side);
      OfferGrows(DeskOf(s, side), DeskOf(StartedOn(env, s, order[..n], up), side), order[n].id,
                 if Renews(env, side, order[n], up) then Offered(env, side, order[n]) else None);
    }
  }

  lemma {:induction false} StartRenews(env: Env, s: State, order: seq<Trigger>, up: string -> bool, side: Side, i: nat)
    requires i < |order| && Renews(env, side, order[i], up)
    ensures var d := DeskOf(StartedOn(env, s, order, up), side);
            order[i].id in d.held && d.held[order[i].id] >= DeskOf(s, side).next
  {
    var n := |order| - 1;
    StartGrows(env, s, order[..n], up, side);
    StartTurn(env, s, order, up, side);
    if i < n {
      assert order[..n][i] == order[i];
      StartRenews(env, s, order[..n], up, side, i);
    }
  }

  lemma {:induction false} Unheld(a: Desk, b: Desk, id: string)
    requires Owned(a) && Grew(a, b) && id in a.held && id in b.held && b.held[id] >= a.next
    ensures !Owned(b)
  {}

  /** Without a renewal of a held trigger, starting again adds entries under new ids only. */
  lemma {:induction false} StartAddsOnly(env: Env, s: State, order: seq<Trigger>, up: string -> bool, side: Side)
    requires Owned(DeskOf(s, side)) && forall i, j | 0 <= i < j < |order| :: order[i].id != order[j].id
    requires forall i | 0 <= i < |order| && order[i].id in DeskOf(s, side).held :: !Renews(env, side, order[i], up)
    ensures var d := DeskOf(StartedOn(env, s, order, up), side);
            Owned(d) && forall id | id in d.held :: id in DeskOf(s, side).held || Listed(order, id)
  {
    if order != [] {
      var n := |order| - 1;
      assert forall i | 0 <= i < n :: order[..n][i] == order[i];
      StartAddsOnly(env, s, order[..n], up, side);
      StartTurn(env, s, order, up, side);
      var d := DeskOf(StartedOn(env, s, order[..n], up), side);
      ListedFront(order);
      if Renews(env, side, order[n], up) { AddOwned(d, order[n].id, Offered(env, side, order[n]).value); }
    }
  }

  lemma {:induction false} ListedFront(order: seq<Trigger>)
    requires order != [] && forall i, j | 0 <= i < j < |order| :: order[i].id != order[j].id
    ensures !Listed(order[..|order| - 1], order[|order| - 1].id) && Listed(order, order[|order| - 1].id)
    ensures forall id | Listed(order[..|order| - 1], id) :: Listed(order, id)
  {
    var n := |order| - 1;
    assert order[n].id == order[n].id;
    forall id | Listed(order[..n], id) ensures Listed(order, id) && id != order[n].id {
      var i :| 0 <= i < n && order[..n][i].id == id;
      assert order[i].id == id;
    }
  }

  /**
   * Run again on a matched engine, Start leaks an entry on a side if and only if it renews a trigger that
   * holds one there: on the bus, one whose subscription is not refused this time; on the clock, any.
   */
  lemma {:induction false} StartAgainLeaks(env: Env, s: State, order: seq<Trigger>, up: string -> bool, side: Side)
    requires Matched(env, s) && Lists(order, s.rows)
    ensures Owned(DeskOf(Started(env, s, order, up), side)) <==>
            forall id | id in DeskOf(s, side).held :: side == OnBus && !up(id)
  {
    var d := DeskOf(s, side);
    HeldRenews(env, s, order, up, side);
    if id :| id in d.held && !(side == OnBus && !up(id)) {
      var i :| 0 <= i < |order| && order[i].id == id;
      StartRenews(env, s, order, up, side, i);
      StartGrows(env, s, order, up, side);
      Unheld(d, DeskOf(StartedOn(env, s, order, up), side), id);
    } else {
      StartAddsOnly(env, s, order, up, side);
    }
  }

  /** An entry that nothing held when the growing began is held by nobody after it. */
  lemma {:induction false} Orphaned(a: Desk, b: Desk, h: nat)
    requires Grew(a, b) && a.held == map[] && h in a.live && h < a.next
    ensures !Owned(b)
  {}

  /**
   * Stop forgets the cron handles and leaves the entries with the scheduler, so Stop and then Start leak on
   * the clock if and only if something was held there. The bus side is clean every time.
   */
  lemma {:induction false} StopStartLeaks(env: Env, s: State, order: seq<Trigger>, up: string -> bool)
    requires Matched(env, s) && Lists(order, s.rows)
    ensures Owned(Started(env, Stopped(s), order, up).subs)
    ensures Owned(Started(env, Stopped(s), order, up).cron) <==> s.cron.held == map[]
  {
    StartAddsOnly(env, Stopped(s), order, up, OnBus);
    if id :| id in s.cron.held {
      StartGrows(env, Stopped(s), order, up, OnClock);
      Orphaned(Stopped(s).cron, DeskOf(StartedOn(env, Stopped(s), order, up), OnClock), s.cron.held[id]);
    } else {
      StartAddsOnly(env, Stopped(s), order, up, OnClock);
    }
  }

  lemma {:induction false} HeldRenews(env: Env, s: State, order: seq<Trigger>, up: string -> bool, side: Side)
    requires Matched(env, s) && Lists(order, s.rows)
    ensures Owned(DeskOf(s, side)) && forall id | id in DeskOf(s, side).held :: Listed(order, id)
    ensures forall i | 0 <= i < |order| && order[i].id in DeskOf(s, side).held ::
              Renews(env, side, order[i], up) <==> side == OnClock || up(order[i].id)
  {
    var d := DeskOf(s, side);
    assert Tracks(env, side, d, s.rows, s.refused);
    forall i | 0 <= i < |order| && order[i].id in d.held
      ensures order[i].enabled && Offered(env, side, order[i]).Some?
    {
      assert Wanted(env, side, s.rows[order[i].id], s.refused).Some?;
    }
  }
}
