/**
 * The package registry: requests, approvals with their background jobs, and deletes, as interleaved steps
 * over one table and one object store.
 */
module Packages {
  import opened Wrappers

  const PENDING := "pending"
  const BUNDLING := "bundling"
  const AVAILABLE := "available"
  const ERROR := "error"

  datatype Package = Package(name: string, version: string, status: string, error: string, bundleSize: nat,
                             requestedBy: string, approvedBy: Option<string>)

  /** The packages table by id, and the objects of the packages bucket by key. */
  datatype Store = Store(rows: map<string, Package>, objects: map<string, string>)

  function Js(id: string): string { id + ".js" }

  function Dts(id: string): string { id + ".d.ts" }

  lemma {:induction false} NamesApart(a: string, b: string)
    ensures Js(a) != Dts(b) && (Js(a) == Js(b) ==> a == b) && (Dts(a) == Dts(b) ==> a == b)
  {
    assert Js(a)[|Js(a)| - 2] == 'j' && Dts(b)[|Dts(b)| - 2] == 't';
    if Js(a) == Js(b) {
      assert a == Js(a)[..|Js(a)| - 3] && b == Js(b)[..|Js(b)| - 3];
    }
    if Dts(a) == Dts(b) {
      assert a == Dts(a)[..|Dts(a)| - 5] && b == Dts(b)[..|Dts(b)| - 5];
    }
  }

  // ---- statements ----

  predicate Registered(rows: map<string, Package>, name: string, version: string) {
    exists id | id in rows :: rows[id].name == name && rows[id].version == version
  }

  /** INSERT INTO packages: (name, version) is unique. */
  function Insert(s: Store, id: string, name: string, version: string, who: string): Outcome<Store> {
    if name == "" || version == "" || id in s.rows || Registered(s.rows, name, version) then Failed
    else Done(s.(rows := s.rows[id := Package(name, version, PENDING, "", 0, who, None)]))
  }

  function SetBundling(s: Store, id: string, who: string): Store {
    if id in s.rows then s.(rows := s.rows[id := s.rows[id].(status := BUNDLING, approvedBy := Some(who))]) else s
  }

  function SetError(s: Store, id: string, text: string): Store {
    if id in s.rows then s.(rows := s.rows[id := s.rows[id].(status := ERROR, error := text)]) else s
  }

  function SetAvailable(s: Store, id: string, size: nat): Store {
    if id in s.rows then s.(rows := s.rows[id := s.rows[id].(status := AVAILABLE, bundleSize := size)]) else s
  }

  function DeleteRow(s: Store, id: string): Store {
    s.(rows := s.rows - {id})
  }

  function Put(s: Store, key: string, text: string): Store {
    s.(objects := s.objects[key := text])
  }

  function Remove(s: Store, key: string): Store {
    s.(objects := s.objects - {key})
  }

  /** A request goes in as pending exactly when it has a name and a version that no row has together. */
  lemma {:induction false} RequestMeans(s: Store, id: string, name: string, version: string, who: string)
    requires id !in s.rows
    ensures var o := Insert(s, id, name, version, who);
            && (o.Done? <==>
                  name != "" && version != ""
                  && forall p | p in s.rows.Values :: p.name != name || p.version != version)
            && (o.Done? ==>
                  o.value.objects == s.objects && o.value.rows.Keys == s.rows.Keys + {id}
                  && (forall i | i in s.rows :: o.value.rows[i] == s.rows[i])
                  && var p := o.value.rows[id];
                     p.name == name && p.version == version && p.status == "pending" && p.requestedBy == who
                     && p.error == "" && p.bundleSize == 0 && p.approvedBy == None)
  {
    if i :| i in s.rows && s.rows[i].name == name && s.rows[i].version == version {
      assert s.rows[i] in s.rows.Values;
    }
  }

  /** An approval marks its own row as bundling under the approver's name. */
  lemma {:induction false} ApproveMeans(s: Store, id: string, who: string)
    ensures var t := SetBundling(s, id, who);
            && t.objects == s.objects && t.rows.Keys == s.rows.Keys
            && (forall i | i in s.rows && i != id :: t.rows[i] == s.rows[i])
            && (id in s.rows ==>
                  var before, after := s.rows[id], t.rows[id];
                  && after.status == "bundling" && after.approvedBy == Some(who)
                  && after.name == before.name && after.version == before.version && after.error == before.error
                  && after.bundleSize == before.bundleSize && after.requestedBy == before.requestedBy)
  {}

  // ---- processes ----

  /** A process in flight, named by what it does next. */
  datatype Proc =
    | Approving(id: string, name: string, version: string, who: string)
    | Spawning(id: string, name: string, version: string)
    | Fetching(id: string, name: string, version: string)
    | Storing(id: string, name: string, version: string, bundle: string)
    | Marking(id: string, name: string, version: string, bundle: string)
    | Failing(id: string, text: string)
    | FetchingTypes(id: string, name: string, version: string)
    | StoringTypes(id: string, types: string)
    | DeletingTypes(id: string)
    | DeletingRow(id: string)

  /** What the network or the object store answers to a step. */
  datatype Answer = Fine | Body(text: string) | Refused(text: string)

  function FetchOutcome(id: string, name: string, version: string, a: Answer): Proc {
    match a
    case Body(text) =>
      if text == "" then Failing(id, "empty bundle for " + name + "@" + version) else Storing(id, name, version, text)
    case Refused(text) => Failing(id, "fetching " + name + "@" + version + ": " + text)
    case Fine => Failing(id, "empty bundle for " + name + "@" + version)
  }

  /** One step of a process: the store after it, and what the process does next, if anything. */
  function Step(s: Store, p: Proc, a: Answer): (Store, Option<Proc>) {
    match p
    case Approving(id, name, version, who) => (SetBundling(s, id, who), Some(Spawning(id, name, version)))
    case Spawning(id, name, version) => (s, Some(Fetching(id, name, version)))
    case Fetching(id, name, version) => (s, Some(FetchOutcome(id, name, version, a)))
    case Storing(id, name, version, bundle) =>
      if a.Refused? then (s, Some(Failing(id, "storing bundle: " + a.text)))
      else (Put(s, Js(id), bundle), Some(Marking(id, name, version, bundle)))
    case Marking(id, name, version, bundle) => (SetAvailable(s, id, |bundle|), Some(FetchingTypes(id, name, version)))
    case Failing(id, text) => (SetError(s, id, text), None)
    case FetchingTypes(id, name, version) => (s, if a.Body? then Some(StoringTypes(id, a.text)) else None)
    case StoringTypes(id, types) => (if a.Refused? then s else Put(s, Dts(id), types), None)
    case DeletingTypes(id) => (if a.Refused? then s else Remove(s, Dts(id)), Some(DeletingRow(id)))
    case DeletingRow(id) => (DeleteRow(s, id), None)
  }

  /** used holds every id ever handed out: newID does not repeat itself. */
  datatype System = System(store: Store, used: set<string>, procs: map<nat, Proc>)

  datatype Event =
    | Request(id: string, name: string, version: string, who: string)
    | Approve(p: nat, id: string, who: string)
    | Delete(p: nat, id: string, a: Answer)
    | Advance(p: nat, a: Answer)

  /** The bodies the network may serve for a package. */
  type Cdn = (string, string, string) -> bool

  predicate Enabled(cdn: Cdn, s: System, e: Event) {
    match e
    case Request(id, _, _, _) => id !in s.used
    case Approve(p, id, _) => p !in s.procs && id in s.store.rows
    case Delete(p, id, _) => p !in s.procs && id in s.used
    case Advance(p, a) =>
      p in s.procs && (s.procs[p].Fetching? && a.Body? ==> cdn(s.procs[p].name, s.procs[p].version, a.text))
  }

  function Next(s: System, e: Event): System
    requires e.Approve? ==> e.id in s.store.rows
    requires e.Advance? ==> e.p in s.procs
  {
    match e
    case Request(id, name, version, who) =>
      var o := Insert(s.store, id, name, version, who);
      System(if o.Done? then o.value else s.store, s.used + {id}, s.procs)
    case Approve(p, id, who) =>
      s.(procs := s.procs[p := Approving(id, s.store.rows[id].name, s.store.rows[id].version, who)])
    case Delete(p, id, a) =>
      System(if a.Refused? then s.store else Remove(s.store, Js(id)), s.used, s.procs[p := DeletingTypes(id)])
    case Advance(p, a) =>
      var (store, next) := Step(s.store, s.procs[p], a);
      System(store, s.used, if next.Some? then s.procs[p := next.value] else s.procs - {p})
  }

  function TryRun(cdn: Cdn, s: System, events: seq<Event>): Option<System> {
    if events == [] then Some(s)
    else
      match TryRun(cdn, s, events[..|events| - 1])
      case None => None
      case Some(t) => if Enabled(cdn, t, events[|events| - 1]) then Some(Next(t, events[|events| - 1])) else None
  }

  const EMPTY := System(Store(map[], map[]), {}, map[])

  /** Every state that some interleaving reaches from an empty registry. */
  predicate Reaches(cdn: Cdn, events: seq<Event>, s: System) {
    TryRun(cdn, EMPTY, events) == Some(s)
  }

  // ---- the invariant ----

  /** A Delete of id is past its .js step. */
  predicate DeleteInFlight(procs: map<nat, Proc>, id: string) {
    exists p | p in procs :: (procs[p].DeletingTypes? || procs[p].DeletingRow?) && procs[p].id == id
  }

  predicate Working(p: Proc) {
    p.Spawning? || p.Fetching? || p.Storing? || p.Marking? || p.Failing?
  }

  /** An approval or its job is between marking id as bundling and giving it a final status. */
  predicate JobInFlight(procs: map<nat, Proc>, id: string) {
    exists p | p in procs :: Working(procs[p]) && procs[p].id == id
  }

  predicate StoredOrGoing(s: System, id: string) {
    Js(id) in s.store.objects || DeleteInFlight(s.procs, id)
  }

  /** Available rows, and rows about to be marked so, have a bundle stored, or are being deleted. */
  predicate Backed(s: System) {
    && (forall id | id in s.store.rows && s.store.rows[id].status == AVAILABLE :: StoredOrGoing(s, id))
    && (forall p | p in s.procs && s.procs[p].Marking? && s.procs[p].id in s.store.rows ::
          StoredOrGoing(s, s.procs[p].id))
  }

  predicate Attended(s: System) {
    forall id | id in s.store.rows && s.store.rows[id].status == BUNDLING :: JobInFlight(s.procs, id)
  }

  predicate KnownIds(s: System) {
    && s.store.rows.Keys <= s.used
    && (forall p | p in s.procs :: s.procs[p].id in s.used)
  }

  /** Only ids that were handed out have bundles. */
  ghost predicate KnownObjects(s: System) {
    forall id :: Js(id) in s.store.objects ==> id in s.used
  }

  predicate Carries(p: Proc) {
    p.Approving? || p.Spawning? || p.Fetching? || p.Storing? || p.Marking?
  }

  /** A process works on the name and version of its own row. */
  predicate OwnName(rows: map<string, Package>, p: Proc) {
    Carries(p) && p.id in rows ==> p.name == rows[p.id].name && p.version == rows[p.id].version
  }

  predicate OwnBody(cdn: Cdn, p: Proc) {
    p.Storing? || p.Marking? ==> p.bundle != "" && cdn(p.name, p.version, p.bundle)
  }

  predicate Named(cdn: Cdn, s: System) {
    forall p | p in s.procs :: OwnName(s.store.rows, s.procs[p]) && OwnBody(cdn, s.procs[p])
  }

  /** A stored bundle is not empty and was served for its row's own name and version. */
  predicate Genuine(cdn: Cdn, store: Store, id: string)
    requires id in store.rows
  {
    Js(id) in store.objects ==>
      store.objects[Js(id)] != "" && cdn(store.rows[id].name, store.rows[id].version, store.objects[Js(id)])
  }

  predicate AllGenuine(cdn: Cdn, s: System) {
    forall id | id in s.store.rows :: Genuine(cdn, s.store, id)
  }

  predicate DistinctNames(rows: map<string, Package>) {
    forall i, j | i in rows && j in rows && i != j :: rows[i].name != rows[j].name || rows[i].version != rows[j].version
  }

  ghost predicate Inv(cdn: Cdn, s: System) {
    KnownIds(s) && KnownObjects(s) && Backed(s) && Attended(s) && Named(cdn, s) && AllGenuine(cdn, s)
          && DistinctNames(s.store.rows)
  }

  // ---- what one step leaves alone ----

  lemma {:induction false} StepRows(s: Store, p: Proc, a: Answer)
    ensures var t := Step(s, p, a).0;
            && t.rows.Keys <= s.rows.Keys
            && (forall id | id in t.rows ::
                  t.rows[id].name == s.rows[id].name && t.rows[id].version == s.rows[id].version)
            && (forall id | id in t.rows && id != p.id :: t.rows[id] == s.rows[id])
    ensures Step(s, p, a).1.Some? ==> Step(s, p, a).1.value.id == p.id
  {}

  lemma {:induction false} StepObjects(s: Store, p: Proc, a: Answer, id: string)
    ensures Js(id) in s.objects ==> Js(id) in Step(s, p, a).0.objects
    ensures !(p.Storing? && p.id == id) ==>
              (Js(id) in Step(s, p, a).0.objects <==> Js(id) in s.objects)
              && (Js(id) in s.objects ==> Step(s, p, a).0.objects[Js(id)] == s.objects[Js(id)])
    ensures p.Storing? && p.id == id && !a.Refused? ==>
              Js(id) in Step(s, p, a).0.objects && Step(s, p, a).0.objects[Js(id)] == p.bundle
    ensures p.Storing? && a.Refused? ==> Step(s, p, a).0 == s
  {
    NamesApart(id, p.id);
  }

  // ---- each part of the invariant is kept ----

  lemma {:induction false} KnownIdsKept(cdn: Cdn, s: System, e: Event)
    requires KnownIds(s) && Enabled(cdn, s, e)
    ensures KnownIds(Next(s, e))
  {}

  lemma {:induction false} KnownObjectsKept(cdn: Cdn, s: System, e: Event)
    requires KnownIds(s) && KnownObjects(s) && Enabled(cdn, s, e)
    ensures KnownObjects(Next(s, e))
  {
    if e.Advance? {
      forall id | Js(id) in Next(s, e).store.objects ensures id in s.used {
        StepObjects(s.store, s.procs[e.p], e.a, id);
      }
    }
  }

  lemma {:induction false} DistinctNamesKept(cdn: Cdn, s: System, e: Event)
    requires DistinctNames(s.store.rows) && Enabled(cdn, s, e)
    ensures DistinctNames(Next(s, e).store.rows)
  {}

  lemma {:induction false} NamedKept(cdn: Cdn, s: System, e: Event)
    requires KnownIds(s) && Named(cdn, s) && Enabled(cdn, s, e)
    ensures Named(cdn, Next(s, e))
  {
    if e.Advance? { StepRows(s.store, s.procs[e.p], e.a); }
  }

  lemma {:induction false} AllGenuineKept(cdn: Cdn, s: System, e: Event)
    requires KnownIds(s) && KnownObjects(s) && Named(cdn, s) && AllGenuine(cdn, s) && Enabled(cdn, s, e)
    ensures AllGenuine(cdn, Next(s, e))
  {
    if e.Advance? {
      var p := s.procs[e.p];
      StepRows(s.store, p, e.a);
      forall id | id in Next(s, e).store.rows ensures Genuine(cdn, Next(s, e).store, id) {
        assert Genuine(cdn, s.store, id);
        StepObjects(s.store, p, e.a, id);
      }
    } else if e.Delete? {
      forall id | id in s.store.rows ensures Genuine(cdn, Next(s, e).store, id) {
        assert Genuine(cdn, s.store, id);
      }
    }
  }

  lemma {:induction false} DeleteStays(procs: map<nat, Proc>, id: string, p: nat, next: Option<Proc>)
    requires DeleteInFlight(procs, id)
    requires p in procs && procs[p].id == id && procs[p].DeletingTypes? ==> next == Some(DeletingRow(id))
    requires p in procs && procs[p].id == id ==> !procs[p].DeletingRow?
    requires p !in procs ==> next.Some?
    ensures DeleteInFlight(if next.Some? then procs[p := next.value] else procs - {p}, id)
  {
    var after := if next.Some? then procs[p := next.value] else procs - {p};
    var q :| q in procs && (procs[q].DeletingTypes? || procs[q].DeletingRow?) && procs[q].id == id;
    assert q in after;
  }

  /** What is stored or going stays so while its row stays. */
  lemma {:induction false} StoredOrGoingStays(cdn: Cdn, s: System, e: Event, id: string)
    requires Enabled(cdn, s, e) && StoredOrGoing(s, id) && id in Next(s, e).store.rows
    ensures StoredOrGoing(Next(s, e), id)
  {
    match e
    case Request(_, _, _, _) =>
    case Approve(p, i, who) =>
      if DeleteInFlight(s.procs, id) {
        DeleteStays(s.procs, id, p, Some(Approving(i, s.store.rows[i].name, s.store.rows[i].version, who)));
      }
    case Delete(p, i, a) =>
      NamesApart(i, id);
      if DeleteInFlight(s.procs, id) { DeleteStays(s.procs, id, p, Some(DeletingTypes(i))); }
      if i == id { assert Next(s, e).procs[p] == DeletingTypes(id); }
    case Advance(p, a) =>
      StepObjects(s.store, s.procs[p], a, id);
      if Js(id) !in s.store.objects {
        DeleteStays(s.procs, id, p, Step(s.store, s.procs[p], a).1);
      }
  }

  lemma {:induction false} BackedByAdvance(cdn: Cdn, s: System, p: nat, a: Answer)
    requires Backed(s) && Enabled(cdn, s, Advance(p, a))
    ensures Backed(Next(s, Advance(p, a)))
  {
    var e, t, proc := Advance(p, a), Next(s, Advance(p, a)), s.procs[p];
    StepRows(s.store, proc, a);
    StepObjects(s.store, proc, a, proc.id);
    forall id | id in t.store.rows && t.store.rows[id].status == AVAILABLE ensures StoredOrGoing(t, id) {
      StoredOrGoingStays(cdn, s, e, id);
    }
    forall q | q in t.procs && t.procs[q].Marking? && t.procs[q].id in t.store.rows
      ensures StoredOrGoing(t, t.procs[q].id)
    {
      if q == p {
        assert proc.Storing?;
      } else {
        StoredOrGoingStays(cdn, s, e, t.procs[q].id);
      }
    }
  }

  lemma {:induction false} BackedKept(cdn: Cdn, s: System, e: Event)
    requires KnownIds(s) && Backed(s) && Enabled(cdn, s, e)
    ensures Backed(Next(s, e))
  {
    if e.Advance? {
      BackedByAdvance(cdn, s, e.p, e.a);
    } else {
      var t := Next(s, e);
      forall id | id in t.store.rows && t.store.rows[id].status == AVAILABLE ensures StoredOrGoing(t, id) {
        StoredOrGoingStays(cdn, s, e, id);
      }
      forall q | q in t.procs && t.procs[q].Marking? && t.procs[q].id in t.store.rows
        ensures StoredOrGoing(t, t.procs[q].id)
      {
        StoredOrGoingStays(cdn, s, e, t.procs[q].id);
      }
    }
  }

  /** A working process either goes on working or leaves its row with a final status. */
  lemma {:induction false} WorkGoesOn(s: Store, p: Proc, a: Answer)
    requires Working(p)
    ensures var (t, next) := Step(s, p, a);
            (next.Some? && Working(next.value))
                  || (p.id in t.rows ==> t.rows[p.id].status == AVAILABLE || t.rows[p.id].status == ERROR)
  {}

  lemma {:induction false} JobStays(procs: map<nat, Proc>, id: string, p: nat, next: Option<Proc>)
    requires JobInFlight(procs, id)
    requires p in procs && procs[p].id == id && Working(procs[p]) ==>
               next.Some? && Working(next.value) && next.value.id == id
    requires p !in procs ==> next.Some?
    ensures JobInFlight(if next.Some? then procs[p := next.value] else procs - {p}, id)
  {
    var after := if next.Some? then procs[p := next.value] else procs - {p};
    var q :| q in procs && Working(procs[q]) && procs[q].id == id;
    assert q in after;
  }

  lemma {:induction false} AttendedByAdvance(s: System, p: nat, a: Answer, id: string)
    requires Attended(s) && p in s.procs && id in Next(s, Advance(p, a)).store.rows
    requires Next(s, Advance(p, a)).store.rows[id].status == BUNDLING
    ensures JobInFlight(Next(s, Advance(p, a)).procs, id)
  {
    var proc, t := s.procs[p], Next(s, Advance(p, a));
    StepRows(s.store, proc, a);
    if proc.Approving? && proc.id == id {
      assert t.procs[p].Spawning?;
    } else {
      if Working(proc) { WorkGoesOn(s.store, proc, a); }
      JobStays(s.procs, id, p, Step(s.store, proc, a).1);
    }
  }

  lemma {:induction false} AttendedKept(cdn: Cdn, s: System, e: Event)
    requires Attended(s) && Enabled(cdn, s, e)
    ensures Attended(Next(s, e))
  {
    var t := Next(s, e);
    forall id | id in t.store.rows && t.store.rows[id].status == BUNDLING ensures JobInFlight(t.procs, id) {
      match e
      case Request(_, _, _, _) =>
      case Approve(p, _, _) => JobStays(s.procs, id, p, Some(t.procs[p]));
      case Delete(p, _, _) => JobStays(s.procs, id, p, Some(t.procs[p]));
      case Advance(p, a) => AttendedByAdvance(s, p, a, id);
    }
  }

  lemma {:induction false} InvKept(cdn: Cdn, s: System, e: Event)
    requires Inv(cdn, s) && Enabled(cdn, s, e)
    ensures Inv(cdn, Next(s, e))
  {
    KnownIdsKept(cdn, s, e);
    KnownObjectsKept(cdn, s, e);
    BackedKept(cdn, s, e);
    AttendedKept(cdn, s, e);
    NamedKept(cdn, s, e);
    AllGenuineKept(cdn, s, e);
    DistinctNamesKept(cdn, s, e);
  }

  lemma {:induction false} ReachedInv(cdn: Cdn, events: seq<Event>, s: System)
    requires Reaches(cdn, events, s)
    ensures Inv(cdn, s)
  {
    if events != [] {
      var before := TryRun(cdn, EMPTY, events[..|events| - 1]).value;
      ReachedInv(cdn, events[..|events| - 1], before);
      InvKept(cdn, before, events[|events| - 1]);
    }
  }

  /**
   * In every interleaving of requests, approvals, job steps and deletes: an available package has its
   * bundle stored, not empty and fetched for its own name and version, unless a Delete of it is in flight;
   * and a package shown as bundling has an approval or job working on it.
   */
  lemma {:induction false} AvailableIsStored(cdn: Cdn, events: seq<Event>, s: System, id: string)
    requires Reaches(cdn, events, s) && id in s.store.rows
    ensures s.store.rows[id].status == AVAILABLE ==> Js(id) in s.store.objects || DeleteInFlight(s.procs, id)
    ensures Js(id) in s.store.objects ==>
              s.store.objects[Js(id)] != ""
                    && cdn(s.store.rows[id].name, s.store.rows[id].version, s.store.objects[Js(id)])
    ensures s.store.rows[id].status == BUNDLING ==> JobInFlight(s.procs, id)
  {
    ReachedInv(cdn, events, s);
    assert Genuine(cdn, s.store, id);
    if s.store.rows[id].status == AVAILABLE { assert StoredOrGoing(s, id); }
  }

  /** Once every process has ended, nothing is left bundling and whatever is available has its bundle. */
  lemma {:induction false} NothingLeftBundling(cdn: Cdn, events: seq<Event>, s: System)
    requires Reaches(cdn, events, s) && s.procs == map[]
    ensures forall id | id in s.store.rows :: s.store.rows[id].status != BUNDLING
    ensures forall id | id in s.store.rows && s.store.rows[id].status == AVAILABLE :: Js(id) in s.store.objects
  {
    forall id | id in s.store.rows
      ensures s.store.rows[id].status != BUNDLING
            && (s.store.rows[id].status == AVAILABLE ==> Js(id) in s.store.objects)
    {
      AvailableIsStored(cdn, events, s, id);
    }
  }

  /** Steps that a process has left at most: every one of them ends. */
  function Rank(p: Proc): nat {
    match p
    case Approving(_, _, _, _) => 7
    case Spawning(_, _, _) => 6
    case Fetching(_, _, _) => 5
    case Storing(_, _, _, _) => 4
    case Marking(_, _, _, _) => 3
    case FetchingTypes(_, _, _) => 2
    case Failing(_, _) => 1
    case StoringTypes(_, _) => 1
    case DeletingTypes(_) => 2
    case DeletingRow(_) => 1
  }

  /** Running one process alone from where it stands. */
  function Finish(s: Store, p: Proc, answers: nat -> Answer): (t: Store)
    decreases Rank(p)
  {
    var (next, q) := Step(s, p, answers(Rank(p)));
    if q.Some? then Finish(next, q.value, answers) else next
  }

  /** What one job run to its end without interruption does: the row is available with this very bundle, or in error. */
  lemma {:induction false} JobOutcome(s: Store, id: string, name: string, version: string, answers: nat -> Answer)
    requires id in s.rows
    ensures var t, fetched := Finish(s, Fetching(id, name, version), answers), answers(5);
            && t.rows.Keys == s.rows.Keys && (forall i | i in s.rows && i != id :: t.rows[i] == s.rows[i])
            && if fetched.Body? && fetched.text != "" && !answers(4).Refused? then
                 t.rows[id] == s.rows[id].(status := "available", bundleSize := |fetched.text|)
                 && Js(id) in t.objects && t.objects[Js(id)] == fetched.text
               else t.rows[id].status == "error" && t.rows[id].error != "" && t.objects == s.objects
  {
    var fetched := answers(5);
    var p := FetchOutcome(id, name, version, fetched);
    if p.Storing? {
      if answers(4).Refused? {
        var q := Failing(id, "storing bundle: " + answers(4).text);
        assert Finish(s, p, answers) == Finish(s, q, answers);
      } else {
        StoredOutcome(Put(s, Js(id), p.bundle), id, name, version, p.bundle, answers);
      }
    }
  }

  lemma {:induction false} StoredOutcome(s: Store, id: string, name: string, version: string, bundle: string,
          answers: nat -> Answer)
    requires id in s.rows && Js(id) in s.objects
    ensures var t := Finish(s, Marking(id, name, version, bundle), answers);
            t.rows == SetAvailable(s, id, |bundle|).rows && Js(id) in t.objects
                  && t.objects[Js(id)] == s.objects[Js(id)]
  {
    NamesApart(id, id);
    var a := SetAvailable(s, id, |bundle|);
    if answers(2).Body? {
      assert Finish(a, StoringTypes(id, answers(2).text), answers)
            == Step(a, StoringTypes(id, answers(2).text), answers(1)).0;
    }
  }

  // ---- what is left of a deleted package ----

  /** The event stores the bundle of id. */
  predicate StoresJs(s: System, e: Event, id: string) {
    e.Advance? && e.p in s.procs && s.procs[e.p].Storing? && s.procs[e.p].id == id && !e.a.Refused?
  }

  /** The event is a Delete of id whose first deletion is not refused. */
  predicate DropsJs(e: Event, id: string) {
    e.Delete? && e.id == id && !e.a.Refused?
  }

  predicate StoresDts(s: System, e: Event, id: string) {
    e.Advance? && e.p in s.procs && s.procs[e.p].StoringTypes? && s.procs[e.p].id == id && !e.a.Refused?
  }

  /** The event is the second deletion of a Delete of id, and is not refused. */
  predicate DropsDts(s: System, e: Event, id: string) {
    e.Advance? && e.p in s.procs && s.procs[e.p] == DeletingTypes(id) && !e.a.Refused?
  }

  lemma {:induction false} JsAfter(cdn: Cdn, s: System, e: Event, id: string)
    requires Enabled(cdn, s, e)
    ensures id + ".js" in Next(s, e).store.objects <==>
            StoresJs(s, e, id) || (id + ".js" in s.store.objects && !DropsJs(e, id))
  {
    if e.Advance? {
      var p := s.procs[e.p];
      NamesApart(id, p.id);
    } else if e.Delete? {
      NamesApart(id, e.id);
    }
  }

  lemma {:induction false} DtsAfter(cdn: Cdn, s: System, e: Event, id: string)
    requires Enabled(cdn, s, e)
    ensures id + ".d.ts" in Next(s, e).store.objects <==>
            StoresDts(s, e, id) || (id + ".d.ts" in s.store.objects && !DropsDts(s, e, id))
  {
    if e.Advance? {
      NamesApart(id, s.procs[e.p].id);
      NamesApart(s.procs[e.p].id, id);
    } else if e.Delete? {
      NamesApart(e.id, id);
    }
  }

  /** The states of a run from an empty registry, before each event and after the last. */
  predicate Passes(cdn: Cdn, ss: seq<System>, events: seq<Event>) {
    |ss| == |events| + 1 && ss[0] == EMPTY
    && forall i | 0 <= i < |events| :: Enabled(cdn, ss[i], events[i]) && ss[i + 1] == Next(ss[i], events[i])
  }

  /** Event i stores the bundle of id, and no Delete after it takes it away. */
  predicate JsStaysFrom(ss: seq<System>, events: seq<Event>, i: int, id: string)
    requires |ss| > |events|
  {
    0 <= i < |events| && StoresJs(ss[i], events[i], id) && forall j | i < j < |events| :: !DropsJs(events[j], id)
  }

  predicate DtsStaysFrom(ss: seq<System>, events: seq<Event>, i: int, id: string)
    requires |ss| > |events|
  {
    0 <= i < |events| && StoresDts(ss[i], events[i], id)
    && forall j | i < j < |events| :: !DropsDts(ss[j], events[j], id)
  }

  predicate JsStays(ss: seq<System>, events: seq<Event>, id: string)
    requires |ss| > |events|
  {
    exists i | 0 <= i < |events| :: JsStaysFrom(ss, events, i, id)
  }

  predicate DtsStays(ss: seq<System>, events: seq<Event>, id: string)
    requires |ss| > |events|
  {
    exists i | 0 <= i < |events| :: DtsStaysFrom(ss, events, i, id)
  }

  lemma {:induction false} PassesBefore(cdn: Cdn, ss: seq<System>, events: seq<Event>)
    requires Passes(cdn, ss, events) && events != []
    ensures Passes(cdn, ss[..|events|], events[..|events| - 1])
  {}

  lemma {:induction false} JsStaysOn(ss: seq<System>, events: seq<Event>, id: string)
    requires |ss| == |events| + 1 && events != []
    ensures JsStays(ss, events, id) <==>
            StoresJs(ss[|events| - 1], events[|events| - 1], id)
            || (!DropsJs(events[|events| - 1], id) && JsStays(ss[..|events|], events[..|events| - 1], id))
  {
    var n := |events| - 1;
    if StoresJs(ss[n], events[n], id) {
      assert JsStaysFrom(ss, events, n, id);
    } else if !DropsJs(events[n], id) {
      if i :| 0 <= i < |events| && JsStaysFrom(ss, events, i, id) {
        JsStaysOneMore(ss, events, i, id);
      }
      var front, past := events[..n], ss[..n + 1];
      if i :| 0 <= i < |front| && JsStaysFrom(past, front, i, id) {
        JsStaysOneMore(ss, events, i, id);
      }
    } else {
      forall i | 0 <= i < |events| ensures !JsStaysFrom(ss, events, i, id) {}
    }
  }

  lemma {:induction false} JsStaysOneMore(ss: seq<System>, events: seq<Event>, i: int, id: string)
    requires |ss| == |events| + 1 && events != []
    requires !StoresJs(ss[|events| - 1], events[|events| - 1], id) && !DropsJs(events[|events| - 1], id)
    ensures JsStaysFrom(ss, events, i, id) <==> JsStaysFrom(ss[..|events|], events[..|events| - 1], i, id)
  {
    var n := |events| - 1;
    assert forall j | 0 <= j < n :: events[..n][j] == events[j] && ss[..n + 1][j] == ss[j];
  }

  lemma {:induction false} DtsStaysOn(ss: seq<System>, events: seq<Event>, id: string)
    requires |ss| == |events| + 1 && events != []
    ensures DtsStays(ss, events, id) <==>
            StoresDts(ss[|events| - 1], events[|events| - 1], id)
            || (!DropsDts(ss[|events| - 1], events[|events| - 1], id)
                && DtsStays(ss[..|events|], events[..|events| - 1], id))
  {
    var n := |events| - 1;
    if StoresDts(ss[n], events[n], id) {
      assert DtsStaysFrom(ss, events, n, id);
    } else if !DropsDts(ss[n], events[n], id) {
      if i :| 0 <= i < |events| && DtsStaysFrom(ss, events, i, id) {
        DtsStaysOneMore(ss, events, i, id);
      }
      var front, past := events[..n], ss[..n + 1];
      if i :| 0 <= i < |front| && DtsStaysFrom(past, front, i, id) {
        DtsStaysOneMore(ss, events, i, id);
      }
    } else {
      forall i | 0 <= i < |events| ensures !DtsStaysFrom(ss, events, i, id) {}
    }
  }

  lemma {:induction false} DtsStaysOneMore(ss: seq<System>, events: seq<Event>, i: int, id: string)
    requires |ss| == |events| + 1 && events != []
    requires !StoresDts(ss[|events| - 1], events[|events| - 1], id)
    requires !DropsDts(ss[|events| - 1], events[|events| - 1], id)
    ensures DtsStaysFrom(ss, events, i, id) <==> DtsStaysFrom(ss[..|events|], events[..|events| - 1], i, id)
  {
    var n := |events| - 1;
    assert forall j | 0 <= j < n :: events[..n][j] == events[j] && ss[..n + 1][j] == ss[j];
  }

  /**
   * After any run, the bundle of an id is in the object store if and only if some job stored it and no Delete
   * whose first deletion was not refused came after.
   */
  lemma {:induction false} BundleThereIff(cdn: Cdn, ss: seq<System>, events: seq<Event>, id: string)
    requires Passes(cdn, ss, events)
    ensures id + ".js" in ss[|events|].store.objects <==> JsStays(ss, events, id)
    decreases |events|
  {
    if events != [] {
      var n := |events| - 1;
      PassesBefore(cdn, ss, events);
      BundleThereIff(cdn, ss[..n + 1], events[..n], id);
      JsAfter(cdn, ss[n], events[n], id);
      JsStaysOn(ss, events, id);
    }
  }

  /** The same for the type definitions and the second deletion. */
  lemma {:induction false} TypesThereIff(cdn: Cdn, ss: seq<System>, events: seq<Event>, id: string)
    requires Passes(cdn, ss, events)
    ensures id + ".d.ts" in ss[|events|].store.objects <==> DtsStays(ss, events, id)
    decreases |events|
  {
    if events != [] {
      var n := |events| - 1;
      PassesBefore(cdn, ss, events);
      TypesThereIff(cdn, ss[..n + 1], events[..n], id);
      DtsAfter(cdn, ss[n], events[n], id);
      DtsStaysOn(ss, events, id);
    }
  }

  /** The row is gone, or a Delete is about to take it. */
  predicate GoneOrGoing(s: System, id: string) {
    id in s.used && (id !in s.store.rows || DeleteInFlight(s.procs, id))
  }

  lemma {:induction false} GoneOrGoingStays(cdn: Cdn, s: System, e: Event, id: string)
    requires Enabled(cdn, s, e) && GoneOrGoing(s, id)
    ensures GoneOrGoing(Next(s, e), id)
  {
    if id in s.store.rows {
      match e
      case Request(_, _, _, _) =>
      case Approve(p, i, who) =>
        DeleteStays(s.procs, id, p, Some(Approving(i, s.store.rows[i].name, s.store.rows[i].version, who)));
      case Delete(p, i, a) => DeleteStays(s.procs, id, p, Some(DeletingTypes(i)));
      case Advance(p, a) =>
        if s.procs[p] != DeletingRow(id) { DeleteStays(s.procs, id, p, Step(s.store, s.procs[p], a).1); }
    } else if e.Advance? {
      StepRows(s.store, s.procs[e.p], e.a);
    }
  }

  lemma {:induction false} DeletedGoes(cdn: Cdn, ss: seq<System>, events: seq<Event>, d: nat, id: string, n: nat)
    requires Passes(cdn, ss, events) && d < n <= |events| && events[d].Delete? && events[d].id == id
    ensures GoneOrGoing(ss[n], id)
    decreases n
  {
    if n == d + 1 {
      assert ss[n] == Next(ss[d], events[d]);
      assert ss[n].procs[events[d].p] == DeletingTypes(id);
    } else {
      DeletedGoes(cdn, ss, events, d, id, n - 1);
      GoneOrGoingStays(cdn, ss[n - 1], events[n - 1], id);
    }
  }

  /**
   * When a package has been deleted and every process has ended, its row is gone for good. Its bundle is left
   * if and only if a job stored it after the last Delete that took it away, and so are its types: an object
   * survives a Delete only because its deletion was refused or because a job stored it afterwards.
   */
  lemma {:induction false} LeftAfterDelete(cdn: Cdn, ss: seq<System>, events: seq<Event>, d: nat, id: string)
    requires Passes(cdn, ss, events) && d < |events| && events[d].Delete? && events[d].id == id
    requires ss[|events|].procs == map[]
    ensures id !in ss[|events|].store.rows
    ensures id + ".js" in ss[|events|].store.objects <==> JsStays(ss, events, id)
    ensures id + ".d.ts" in ss[|events|].store.objects <==> DtsStays(ss, events, id)
    ensures !events[d].a.Refused? && id + ".js" in ss[|events|].store.objects ==>
              exists i | d < i < |events| :: StoresJs(ss[i], events[i], id)
  {
    DeletedGoes(cdn, ss, events, d, id, |events|);
    BundleThereIff(cdn, ss, events, id);
    TypesThereIff(cdn, ss, events, id);
    if i :| JsStaysFrom(ss, events, i, id) {
      if !events[d].a.Refused? {
        assert DropsJs(events[d], id);
        assert i != d;
      }
    }
  }

  // ---- the recorded size ----

  /** An approval of the package begins only while none that may still store a bundle is unfinished. */
  predicate OneAtATime(s: System, e: Event) {
    e.Approve? ==> forall p | p in s.procs && s.procs[p].id == e.id :: !Carries(s.procs[p])
  }

  predicate NoOverlap(cdn: Cdn, events: seq<Event>) {
    events == []
    || (NoOverlap(cdn, events[..|events| - 1])
        && (TryRun(cdn, EMPTY, events[..|events| - 1]).Some? ==>
              OneAtATime(TryRun(cdn, EMPTY, events[..|events| - 1]).value, events[|events| - 1])))
  }

  predicate Alone(procs: map<nat, Proc>) {
    forall p, q | p in procs && q in procs && p != q && Carries(procs[p]) && Carries(procs[q]) ::
          procs[p].id != procs[q].id
  }

  /** While a job may still store its bundle, its row is not available. */
  predicate Unmarked(s: System) {
    forall p | p in s.procs && Carries(s.procs[p]) && !s.procs[p].Approving? && s.procs[p].id in s.store.rows ::
      s.store.rows[s.procs[p].id].status != AVAILABLE
  }

  predicate SizeRight(store: Store, id: string)
    requires id in store.rows
  {
    store.rows[id].status == AVAILABLE && Js(id) in store.objects ==>
      store.rows[id].bundleSize == |store.objects[Js(id)]|
  }

  predicate OwnBundleStored(store: Store, p: Proc) {
    p.Marking? && Js(p.id) in store.objects ==> store.objects[Js(p.id)] == p.bundle
  }

  predicate Sized(s: System) {
    && Alone(s.procs) && Unmarked(s)
    && (forall id | id in s.store.rows :: SizeRight(s.store, id))
    && (forall p | p in s.procs :: OwnBundleStored(s.store, s.procs[p]))
  }

  lemma {:induction false} AloneKept(cdn: Cdn, s: System, e: Event)
    requires Alone(s.procs) && OneAtATime(s, e) && Enabled(cdn, s, e)
    ensures Alone(Next(s, e).procs)
  {
    if e.Advance? { StepRows(s.store, s.procs[e.p], e.a); }
  }

  lemma {:induction false} UnmarkedByAdvance(s: System, p: nat, a: Answer)
    requires Alone(s.procs) && Unmarked(s) && p in s.procs
    ensures Unmarked(Next(s, Advance(p, a)))
  {
    var t, proc := Next(s, Advance(p, a)), s.procs[p];
    StepRows(s.store, proc, a);
    forall q | q in t.procs && Carries(t.procs[q]) && !t.procs[q].Approving? && t.procs[q].id in t.store.rows
      ensures t.store.rows[t.procs[q].id].status != AVAILABLE
    {
      if q != p && t.procs[q].id == proc.id { assert !Carries(proc); }
    }
  }

  lemma {:induction false} UnmarkedKept(cdn: Cdn, s: System, e: Event)
    requires KnownIds(s) && Alone(s.procs) && Unmarked(s) && Enabled(cdn, s, e)
    ensures Unmarked(Next(s, e))
  {
    if e.Advance? { UnmarkedByAdvance(s, e.p, e.a); }
  }

  lemma {:induction false} SizeRightKept(cdn: Cdn, s: System, e: Event, id: string)
    requires KnownIds(s) && Sized(s) && Enabled(cdn, s, e) && id in Next(s, e).store.rows
    ensures SizeRight(Next(s, e).store, id)
  {
    if e.Advance? {
      StepRows(s.store, s.procs[e.p], e.a);
      StepObjects(s.store, s.procs[e.p], e.a, id);
      assert SizeRight(s.store, id) && OwnBundleStored(s.store, s.procs[e.p]);
    } else if id in s.store.rows {
      assert SizeRight(s.store, id);
    }
  }

  lemma {:induction false} OwnBundleKept(cdn: Cdn, s: System, e: Event, q: nat)
    requires Sized(s) && Enabled(cdn, s, e) && q in Next(s, e).procs
    ensures OwnBundleStored(Next(s, e).store, Next(s, e).procs[q])
  {
    if q in s.procs { assert OwnBundleStored(s.store, s.procs[q]); }
    if e.Advance? {
      StepObjects(s.store, s.procs[e.p], e.a, Next(s, e).procs[q].id);
    }
  }

  lemma {:induction false} SizedKept(cdn: Cdn, s: System, e: Event)
    requires KnownIds(s) && Sized(s) && OneAtATime(s, e) && Enabled(cdn, s, e)
    ensures Sized(Next(s, e))
  {
    AloneKept(cdn, s, e);
    UnmarkedKept(cdn, s, e);
    var t := Next(s, e);
    forall id | id in t.store.rows ensures SizeRight(t.store, id) {
      SizeRightKept(cdn, s, e, id);
    }
    forall q | q in t.procs ensures OwnBundleStored(t.store, t.procs[q]) {
      OwnBundleKept(cdn, s, e, q);
    }
  }

  lemma {:induction false} ReachedSized(cdn: Cdn, events: seq<Event>, s: System)
    requires Reaches(cdn, events, s) && NoOverlap(cdn, events)
    ensures Sized(s)
  {
    if events != [] {
      var before := TryRun(cdn, EMPTY, events[..|events| - 1]).value;
      ReachedSized(cdn, events[..|events| - 1], before);
      ReachedInv(cdn, events[..|events| - 1], before);
      SizedKept(cdn, before, events[|events| - 1]);
    }
  }

  /** While no two approvals of one package overlap, the recorded size is that of the stored bundle. */
  lemma {:induction false} SizeIsStoredSize(cdn: Cdn, events: seq<Event>, s: System, id: string)
    requires Reaches(cdn, events, s) && NoOverlap(cdn, events)
    requires id in s.store.rows && s.store.rows[id].status == AVAILABLE && Js(id) in s.store.objects
    ensures s.store.rows[id].bundleSize == |s.store.objects[Js(id)]|
  {
    ReachedSized(cdn, events, s);
    assert SizeRight(s.store, id);
  }

  // ---- overlapping approvals ----

  predicate OnlyAdvances(events: seq<Event>) {
    forall i | 0 <= i < |events| :: events[i].Advance?
  }

  lemma {:induction false} TryRunAppend(cdn: Cdn, s: System, a: seq<Event>, t: System, b: seq<Event>)
    requires TryRun(cdn, s, a) == Some(t)
    ensures TryRun(cdn, s, a + b) == TryRun(cdn, t, b)
  {
    if b == [] {
      assert a + b == a;
    } else {
      TryRunAppend(cdn, s, a, t, b[..|b| - 1]);
      assert (a + b)[..|a + b| - 1] == a + b[..|b| - 1];
    }
  }

  lemma {:induction false} OneStep(cdn: Cdn, s: System, e: Event)
    requires Enabled(cdn, s, e)
    ensures TryRun(cdn, s, [e]) == Some(Next(s, e))
  {
    assert [e][..0] == [] && TryRun(cdn, s, []) == Some(s);
  }

  /** A bundle that the process may come to mark: its own once fetched, before that any the network serves. */
  predicate Possible(cdn: Cdn, p: Proc, bundle: string) {
    Carries(p)
    && if p.Storing? || p.Marking? then bundle == p.bundle else bundle != "" && cdn(p.name, p.version, bundle)
  }

  /** The answer that takes a process one step towards marking the bundle. */
  function Towards(p: Proc, bundle: string): Answer {
    if p.Fetching? then Body(bundle) else Fine
  }

  lemma {:induction false} StepTowards(cdn: Cdn, s: System, p: nat, bundle: string)
    requires p in s.procs && Possible(cdn, s.procs[p], bundle) && !s.procs[p].Marking?
    ensures Enabled(cdn, s, Advance(p, Towards(s.procs[p], bundle)))
    ensures var t, proc := Next(s, Advance(p, Towards(s.procs[p], bundle))), s.procs[p];
            && p in t.procs && t.procs == s.procs[p := t.procs[p]] && t.used == s.used
            && t.procs[p].id == proc.id && Possible(cdn, t.procs[p], bundle) && Rank(t.procs[p]) < Rank(proc)
            && t.store.rows.Keys == s.store.rows.Keys
            && (t.procs[p].Marking? ==> Js(proc.id) in t.store.objects && t.store.objects[Js(proc.id)] == bundle)
  {}

  /** An approval or its job can run, alone, up to the moment before it marks the bundle as available. */
  lemma {:induction false} RunsToMarking(cdn: Cdn, s: System, p: nat, bundle: string) returns (more: seq<Event>,
          t: System)
    requires p in s.procs && Possible(cdn, s.procs[p], bundle)
    ensures TryRun(cdn, s, more) == Some(t) && OnlyAdvances(more)
    ensures p in t.procs && t.procs == s.procs[p := t.procs[p]] && t.store.rows.Keys == s.store.rows.Keys
    ensures t.procs[p].Marking? && t.procs[p].id == s.procs[p].id && t.procs[p].bundle == bundle
    ensures s.procs[p].Marking? ==> t == s
    ensures !s.procs[p].Marking? ==>
              Js(s.procs[p].id) in t.store.objects && t.store.objects[Js(s.procs[p].id)] == bundle
    decreases Rank(s.procs[p])
  {
    if s.procs[p].Marking? {
      more, t := [], s;
    } else {
      var e := Advance(p, Towards(s.procs[p], bundle));
      StepTowards(cdn, s, p, bundle);
      OneStep(cdn, s, e);
      var rest;
      rest, t := RunsToMarking(cdn, Next(s, e), p, bundle);
      TryRunAppend(cdn, s, [e], Next(s, e), rest);
      more := [e] + rest;
    }
  }

  /** Marking, with no type definitions found. */
  lemma {:induction false} MarksAndEnds(cdn: Cdn, s: System, p: nat) returns (more: seq<Event>)
    requires p in s.procs && s.procs[p].Marking?
    ensures OnlyAdvances(more)
    ensures TryRun(cdn, s, more)
          == Some(System(SetAvailable(s.store, s.procs[p].id, |s.procs[p].bundle|), s.used, s.procs - {p}))
  {
    var mid := Next(s, Advance(p, Fine));
    OneStep(cdn, s, Advance(p, Fine));
    OneStep(cdn, mid, Advance(p, Refused("")));
    TryRunAppend(cdn, s, [Advance(p, Fine)], mid, [Advance(p, Refused(""))]);
    more := [Advance(p, Fine)] + [Advance(p, Refused(""))];
    assert Next(mid, Advance(p, Refused(""))).procs == s.procs - {p};
  }

  /**
   * The failing case, from any state in which a job is about to store a bundle: a Delete that nothing refuses
   * runs to its end, the job stores and ends, and the bundle is left without a row.
   */
  lemma {:induction false} DeleteUnderJob(cdn: Cdn, s: System, p: nat, q: nat) returns (events: seq<Event>, t: System)
    requires p in s.procs && s.procs[p].Storing? && s.procs[p].id in s.used && q !in s.procs
    ensures TryRun(cdn, s, [Delete(q, s.procs[p].id, Fine), Advance(q, Fine), Advance(q, Fine)] + events) == Some(t)
    ensures t.procs == s.procs - {p} && s.procs[p].id !in t.store.rows
    ensures s.procs[p].id + ".js" in t.store.objects && t.store.objects[s.procs[p].id + ".js"] == s.procs[p].bundle
  {
    var id, bundle := s.procs[p].id, s.procs[p].bundle;
    var one := Next(s, Delete(q, id, Fine));
    var two := Next(one, Advance(q, Fine));
    var three := Next(two, Advance(q, Fine));
    var four := Next(three, Advance(p, Fine));
    DeleteRuns(cdn, s, q, id);
    assert three.procs == s.procs && id !in three.store.rows;
    OneStep(cdn, three, Advance(p, Fine));
    var ending := MarksAndEnds(cdn, four, p);
    t := TryRun(cdn, four, ending).value;
    TryRunAppend(cdn, three, [Advance(p, Fine)], four, ending);
    events := [Advance(p, Fine)] + ending;
    TryRunAppend(cdn, s, [Delete(q, id, Fine), Advance(q, Fine), Advance(q, Fine)], three, events);
    assert four.procs - {p} == s.procs - {p};
  }

  lemma {:induction false} DeleteRuns(cdn: Cdn, s: System, q: nat, id: string)
    requires q !in s.procs && id in s.used
    ensures var three := Next(Next(Next(s, Delete(q, id, Fine)), Advance(q, Fine)), Advance(q, Fine));
            && TryRun(cdn, s, [Delete(q, id, Fine), Advance(q, Fine), Advance(q, Fine)]) == Some(three)
            && three.procs == s.procs && three.used == s.used && three.store.rows == s.store.rows - {id}
  {
    var one := Next(s, Delete(q, id, Fine));
    var two := Next(one, Advance(q, Fine));
    OneStep(cdn, s, Delete(q, id, Fine));
    OneStep(cdn, one, Advance(q, Fine));
    OneStep(cdn, two, Advance(q, Fine));
    TryRunAppend(cdn, s, [Delete(q, id, Fine)], one, [Advance(q, Fine)]);
    TryRunAppend(cdn, s, [Delete(q, id, Fine)] + [Advance(q, Fine)], two, [Advance(q, Fine)]);
    assert [Delete(q, id, Fine)] + [Advance(q, Fine)] + [Advance(q, Fine)]
        == [Delete(q, id, Fine), Advance(q, Fine), Advance(q, Fine)];
  }

  /** Both are about to mark: q marks first, then p. */
  lemma {:induction false} BothMark(cdn: Cdn, s: System, p: nat, q: nat) returns (more: seq<Event>, t: System)
    requires p in s.procs && q in s.procs && p != q && s.procs[p].Marking? && s.procs[q].Marking?
    requires s.procs[p].id == s.procs[q].id && s.procs[p].id in s.store.rows
    ensures TryRun(cdn, s, more) == Some(t) && OnlyAdvances(more) && t.procs == s.procs - {p, q}
    ensures t.store.objects == s.store.objects && s.procs[p].id in t.store.rows
    ensures t.store.rows[s.procs[p].id].status == AVAILABLE
          && t.store.rows[s.procs[p].id].bundleSize == |s.procs[p].bundle|
  {
    var first := MarksAndEnds(cdn, s, q);
    var mid := TryRun(cdn, s, first).value;
    var rest := MarksAndEnds(cdn, mid, p);
    TryRunAppend(cdn, s, first, mid, rest);
    more, t := first + rest, TryRun(cdn, mid, rest).value;
    assert s.procs - {q} - {p} == s.procs - {p, q};
  }

  /**
   * From any state in which two approvals of one package are unfinished, one of them has yet to store its
   * bundle, and the two may come to mark bundles of different lengths, both can run to their end and leave
   * the package available with the wrong size.
   */
  lemma {:induction false} OverlapMisrecordsSize(cdn: Cdn, s: System, p: nat, q: nat, b: string, c: string)
    returns (more: seq<Event>, t: System)
    requires p in s.procs && q in s.procs && p != q && s.procs[p].id == s.procs[q].id && s.procs[p].id in s.store.rows
    requires Possible(cdn, s.procs[p], b) && Possible(cdn, s.procs[q], c) && !s.procs[q].Marking? && |b| != |c|
    ensures TryRun(cdn, s, more) == Some(t) && OnlyAdvances(more) && t.procs == s.procs - {p, q}
    ensures s.procs[p].id in t.store.rows && !SizeRight(t.store, s.procs[p].id)
  {
    var first, one := RunsToMarking(cdn, s, p, b);
    var second, two := RunsToMarking(cdn, one, q, c);
    TryRunAppend(cdn, s, first, one, second);
    var third;
    third, t := BothMark(cdn, two, p, q);
    TryRunAppend(cdn, s, first + second, two, third);
    more := first + second + third;
    assert two.procs - {p, q} == s.procs - {p, q};
  }

  /** In any state, approving a package twice at once can leave it so. */
  lemma {:induction false} ApprovedTwice(cdn: Cdn, s: System, p: nat, q: nat, id: string, who: string, b: string,
          c: string)
    returns (more: seq<Event>, t: System)
    requires id in s.store.rows && p !in s.procs && q !in s.procs && p != q && b != "" && c != "" && |b| != |c|
    requires cdn(s.store.rows[id].name, s.store.rows[id].version, b)
          && cdn(s.store.rows[id].name, s.store.rows[id].version, c)
    ensures TryRun(cdn, s, [Approve(p, id, who), Approve(q, id, who)] + more) == Some(t) && OnlyAdvances(more)
    ensures t.procs == s.procs && id in t.store.rows && !SizeRight(t.store, id)
  {
    var e, f := Approve(p, id, who), Approve(q, id, who);
    var one := Next(s, e);
    var two := Next(one, f);
    OneStep(cdn, s, e);
    OneStep(cdn, one, f);
    TryRunAppend(cdn, s, [e], one, [f]);
    assert [e] + [f] == [e, f];
    more, t := OverlapMisrecordsSize(cdn, two, p, q, b, c);
    TryRunAppend(cdn, s, [e, f], two, more);
    assert two.procs - {p, q} == s.procs;
  }

  lemma {:induction false} AdvancesKeepSized(cdn: Cdn, s: System, more: seq<Event>, t: System)
    requires KnownIds(s) && Sized(s) && TryRun(cdn, s, more) == Some(t) && OnlyAdvances(more)
    ensures KnownIds(t) && Sized(t)
  {
    if more != [] {
      var front := more[..|more| - 1];
      var before := TryRun(cdn, s, front).value;
      AdvancesKeepSized(cdn, s, front, before);
      KnownIdsKept(cdn, before, more[|more| - 1]);
      SizedKept(cdn, before, more[|more| - 1]);
    }
  }

  /** Whatever the processes in flight still do, whenever the package is available its recorded size is right. */
  ghost predicate SizeStaysRight(cdn: Cdn, s: System, id: string) {
    forall more, t ::
          TryRun(cdn, s, more) == Some(t) && OnlyAdvances(more) && id in t.store.rows ==> SizeRight(t.store, id)
  }

  lemma {:induction false} AloneStaysRight(cdn: Cdn, s: System, id: string)
    requires KnownIds(s) && Sized(s)
    ensures SizeStaysRight(cdn, s, id)
  {
    forall more, t | TryRun(cdn, s, more) == Some(t) && OnlyAdvances(more) && id in t.store.rows
      ensures SizeRight(t.store, id)
    {
      AdvancesKeepSized(cdn, s, more, t);
    }
  }

  lemma {:induction false} OverlapGoesWrong(cdn: Cdn, s: System, p: nat, q: nat, x: string, y: string)
    requires p in s.procs && q in s.procs && p != q && s.procs[p].id == s.procs[q].id && s.procs[p].id in s.store.rows
    requires Named(cdn, s) && Carries(s.procs[p]) && s.procs[q].Approving? && x != "" && y != "" && |x| != |y|
    requires var r := s.store.rows[s.procs[p].id]; cdn(r.name, r.version, x) && cdn(r.name, r.version, y)
    ensures !SizeStaysRight(cdn, s, s.procs[p].id)
  {
    assert OwnName(s.store.rows, s.procs[p]) && OwnName(s.store.rows, s.procs[q]);
    var b := if s.procs[p].Storing? || s.procs[p].Marking? then s.procs[p].bundle else x;
    var more, t := OverlapMisrecordsSize(cdn, s, p, q, b, if |b| == |x| then y else x);
  }

  /**
   * An approval keeps the recorded size right, whatever follows, if and only if no other approval that may
   * still store a bundle of the package is unfinished; the network serves bundles of two lengths for it.
   */
  lemma {:induction false} ApprovalSafeIffAlone(cdn: Cdn, events: seq<Event>, s: System, p: nat, id: string,
          who: string,
                                                x: string, y: string)
    requires Reaches(cdn, events, s) && NoOverlap(cdn, events) && Enabled(cdn, s, Approve(p, id, who))
    requires x != "" && y != "" && |x| != |y|
    requires cdn(s.store.rows[id].name, s.store.rows[id].version, x)
          && cdn(s.store.rows[id].name, s.store.rows[id].version, y)
    ensures OneAtATime(s, Approve(p, id, who)) <==> SizeStaysRight(cdn, Next(s, Approve(p, id, who)), id)
  {
    var e, t := Approve(p, id, who), Next(s, Approve(p, id, who));
    ReachedInv(cdn, events, s);
    KnownIdsKept(cdn, s, e);
    if OneAtATime(s, e) {
      ReachedSized(cdn, events, s);
      SizedKept(cdn, s, e);
      AloneStaysRight(cdn, t, id);
    } else {
      NamedKept(cdn, s, e);
      var q :| q in s.procs && s.procs[q].id == id && Carries(s.procs[q]);
      OverlapGoesWrong(cdn, t, q, p, x, y);
    }
  }
}
