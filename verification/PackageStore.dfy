/** The package store as the object its callers use; each method runs here without interruption. */
module PackageStore {
  import opened Wrappers
  import opened Ordering
  import opened Packages
  import Text

  datatype Listed = Listed(id: string, package: Package)

  predicate ByName(a: Listed, b: Listed) { !Text.Less(b.package.name, a.package.name) }

  lemma {:induction false} ByNameTotal()
    ensures TotalPreorder(ByName)
  {
    forall a: Listed, b: Listed ensures ByName(a, b) || ByName(b, a) {
      Text.LessTrichotomy(a.package.name, b.package.name);
    }
    forall a: Listed, b: Listed, c: Listed | ByName(a, b) && ByName(b, c) ensures ByName(a, c) {
      Text.LessTransitive(a.package.name, b.package.name, c.package.name);
    }
  }

  /** The answers a job gets, by the step they answer. */
  function Answers(fetch: Answer, put: Answer, types: Answer, putTypes: Answer): nat -> Answer {
    rank => if rank == 5 then fetch else if rank == 4 then put else if rank == 2 then types else putTypes
  }

  class Registry {
    var packages: map<string, Package>
    var objects: map<string, string>

    constructor ()
      ensures View() == EMPTY.store
    {
      packages, objects := map[], map[];
    }

    function View(): Store
      reads this
    {
      Store(packages, objects)
    }

    /** Request, with a generated id. */
    method Request(genId: string, name: string, version: string, requestedBy: string) returns (pkg: Option<Package>)
      modifies this`packages
      ensures match Packages.Insert(old(View()), genId, name, version, requestedBy)
              case Done(s) => View() == s && pkg == Some(packages[genId])
              case Failed => View() == old(View()) && pkg == None
    {
      if name == "" || version == "" {
        return None;
      }
      if genId in packages || Registered(packages, name, version) {
        return None;
      }
      packages := packages[genId := Package(name, version, PENDING, "", 0, requestedBy, None)];
      pkg := Get(genId);
    }

    /** Get */
    method Get(id: string) returns (pkg: Option<Package>)
      ensures pkg == if id in packages then Some(packages[id]) else None
    {
      if id !in packages {
        return None;
      }
      return Some(packages[id]);
    }

    /** Approve, up to the start of its job, which is handed back. */
    method Approve(id: string, approvedBy: string) returns (job: Option<Proc>)
      modifies this`packages
      ensures View() == SetBundling(old(View()), id, approvedBy)
      ensures job == if id in packages then Some(Fetching(id, packages[id].name, packages[id].version)) else None
    {
      var pkg := Get(id);
      if pkg.None? {
        return None;
      }
      packages := packages[id := packages[id].(status := BUNDLING, approvedBy := Some(approvedBy))];
      return Some(Fetching(id, pkg.value.name, pkg.value.version));
    }

    method PutObject(key: string, text: string, a: Answer) returns (error: Option<string>)
      modifies this`objects
      ensures View() == if a.Refused? then old(View()) else Put(old(View()), key, text)
      ensures error == if a.Refused? then Some(a.text) else None
    {
      if a.Refused? {
        return Some(a.text);
      }
      objects := objects[key := text];
      return None;
    }

    method MarkError(id: string, text: string)
      modifies this`packages
      ensures View() == SetError(old(View()), id, text)
    {
      if id in packages {
        packages := packages[id := packages[id].(status := ERROR, error := text)];
      }
    }

    /** The types, stored on a best-effort basis. */
    method BundleTypes(id: string, name: string, version: string, types: Answer, putTypes: Answer)
      modifies this`objects
      ensures View() == Finish(old(View()), FetchingTypes(id, name, version), Answers(Fine, Fine, types, putTypes))
    {
      if types.Body? {
        var _ := PutObject(Dts(id), types.text, putTypes);
      }
    }

    /** The background job of Approve. */
    method Bundle(id: string, name: string, version: string, fetch: Answer, put: Answer, types: Answer,
            putTypes: Answer)
      modifies this
      ensures View() == Finish(old(View()), Fetching(id, name, version), Answers(fetch, put, types, putTypes))
    {
      ghost var answers, before := Answers(fetch, put, types, putTypes), View();
      var p := FetchOutcome(id, name, version, fetch);
      if p.Failing? {
        MarkError(id, p.text);
        assert Finish(before, p, answers) == SetError(before, id, p.text);
        return;
      }
      var error := PutObject(Js(id), p.bundle, put);
      if error.Some? {
        MarkError(id, "storing bundle: " + error.value);
        assert Finish(before, p, answers) == Finish(before, Failing(id, "storing bundle: " + error.value), answers);
        return;
      }
      if id in packages {
        packages := packages[id := packages[id].(status := AVAILABLE, bundleSize := |p.bundle|)];
      }
      ghost var marked := View();
      assert Finish(before, p, answers)
            == Finish(Put(before, Js(id), p.bundle), Marking(id, name, version, p.bundle), answers);
      BundleTypes(id, name, version, types, putTypes);
      SameTypes(marked, id, name, version, types, putTypes, answers);
    }

    /** Delete; failures to delete the objects are ignored. */
    method Delete(id: string, js: Answer, dts: Answer)
      modifies this
      ensures packages == old(packages) - {id}
      ensures objects == old(objects) - (if js.Refused? then {} else {id + ".js"})
                         - (if dts.Refused? then {} else {id + ".d.ts"})
      ensures View() == Finish(DeletedJs(old(View()), id, js), DeletingTypes(id), Answers(Fine, Fine, dts, Fine))
    {
      if !js.Refused? {
        objects := objects - {Js(id)};
      }
      if !dts.Refused? {
        objects := objects - {Dts(id)};
      }
      packages := packages - {id};
    }

    /** LoadBundle */
    method LoadBundle(id: string) returns (text: Option<string>)
      ensures text == if id + ".js" in objects then Some(objects[id + ".js"]) else None
    {
      if Js(id) !in objects {
        return None;
      }
      return Some(objects[Js(id)]);
    }

    /** ListAvailable: the available packages, each once, by name. */
    method ListAvailable() returns (out: seq<Listed>)
      ensures forall id, p :: Listed(id, p) in out <==> id in packages && packages[id] == p && p.status == AVAILABLE
      ensures forall i, j | 0 <= i < j < |out| :: out[i].id != out[j].id
      ensures forall i, j | 0 <= i < j < |out| :: !Text.Less(out[j].package.name, out[i].package.name)
    {
      var rows := [];
      var todo := packages.Keys;
      while todo != {}
        invariant todo <= packages.Keys
        invariant forall id, p :: Listed(id, p) in rows <==>
                    id in packages && id !in todo && packages[id] == p && p.status == AVAILABLE
        invariant forall i, j | 0 <= i < j < |rows| :: rows[i].id != rows[j].id
        decreases todo
      {
        var id :| id in todo;
        todo := todo - {id};
        if packages[id].status == AVAILABLE {
          NotYet(rows, id);
          rows := rows + [Listed(id, packages[id])];
        }
      }
      ByNameTotal();
      out := OrderBy(rows, ByName);
      assert forall i, j | 0 <= i < j < |out| :: ByName(out[i], out[j]);
      Reordered(out, rows);
    }
  }

  function DeletedJs(s: Store, id: string, a: Answer): Store {
    if a.Refused? then s else Remove(s, Js(id))
  }

  lemma {:induction false} SameTypes(s: Store, id: string, name: string, version: string, types: Answer,
          putTypes: Answer, answers: nat -> Answer)
    requires answers(2) == types && answers(1) == putTypes
    ensures Finish(s, FetchingTypes(id, name, version), answers)
          == Finish(s, FetchingTypes(id, name, version), Answers(Fine, Fine, types, putTypes))
  {}

  lemma {:induction false} NotYet(rows: seq<Listed>, id: string)
    requires forall p :: Listed(id, p) !in rows
    ensures forall i | 0 <= i < |rows| :: rows[i].id != id
  {}

  lemma {:induction false} Reordered(out: seq<Listed>, rows: seq<Listed>)
    requires multiset(out) == multiset(rows) && forall i, j | 0 <= i < j < |rows| :: rows[i].id != rows[j].id
    ensures forall x :: x in out <==> x in rows
    ensures forall i, j | 0 <= i < j < |out| :: out[i].id != out[j].id
  {
    forall x ensures x in out <==> x in rows {
      SameMembers(out, rows, x);
    }
    OrderingDistinct(out, rows, (x: Listed) => x.id);
  }
}
