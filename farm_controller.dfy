/** The handlers of src/controllers/farmController.ts. Every handler acts for
    the authenticated caller, whose id the route's token check supplies. */
module FarmController {
  import opened Values
  import opened Relational
  import opened Schema

  /** The ownership lookup `SELECT … FROM farms WHERE id = k AND user_id = caller LIMIT 1`. */
  function FindOwnedFarm(farms: seq<Farm>, k: int, caller: int): (r: Option<Farm>)
    ensures r.Some? ==> r.value in farms && r.value.id == k && r.value.userId == caller
    ensures r.None? <==> forall f :: f in farms ==> f.id != k || f.userId != caller
  {
    First(Where(farms, FarmKey, k), FarmOwner, caller)
  }

  /** The row updateFarm writes: each of name, location, address and type
      keeps its stored value unless the body gives a truthy one. */
  function MergeFarm(f: Farm, name: JsVal, location: JsVal, address: JsVal, kind: JsVal): (r: Farm)
    ensures r.id == f.id && r.userId == f.userId && r.createdAt == f.createdAt
    ensures Truthy(name) ==> r.name == name
    ensures Truthy(location) ==> r.location == location
    ensures Truthy(address) ==> r.address == address
    ensures Truthy(kind) ==> r.kind == kind
    ensures !Truthy(name) ==> r.name == f.name
    ensures !Truthy(location) ==> r.location == f.location
    ensures !Truthy(address) ==> r.address == f.address
    ensures !Truthy(kind) ==> r.kind == f.kind
    // an update can never clear a field that holds a truthy value
    ensures Truthy(f.name) ==> Truthy(r.name)
    ensures Truthy(f.location) ==> Truthy(r.location)
    ensures Truthy(f.address) ==> Truthy(r.address)
    ensures Truthy(f.kind) ==> Truthy(r.kind)
    // a body with no truthy field leaves the row as it was
    ensures !Truthy(name) && !Truthy(location) && !Truthy(address) && !Truthy(kind) ==> r == f
  {
    f.(name := Or(name, f.name), location := Or(location, f.location),
       address := Or(address, f.address), kind := Or(kind, f.kind))
  }

  /** Sending the same update twice has the effect of sending it once. */
  lemma MergeFarmIdempotent(f: Farm, name: JsVal, location: JsVal, address: JsVal, kind: JsVal)
    ensures var once := MergeFarm(f, name, location, address, kind);
      MergeFarm(once, name, location, address, kind) == once
  {
  }

  /** POST /farms. */
  method CreateFarm(db: Db, caller: int, name: JsVal, location: JsVal, address: JsVal, kind: JsVal, now: Instant)
    returns (reply: Reply<Farm>)
    requires db.Valid()
    modifies db
    ensures db.Valid()
    ensures !Truthy(name) ==> reply == Fail(BAD_REQUEST) && db.tables == old(db.tables)
    ensures Truthy(name) ==>
      var t := old(db.tables);
      var f := Farm(t.nextFarmId, caller, name, Stored(location), Stored(address), Stored(kind), now);
      && reply == Reply(CREATED, Some(f))
      && db.tables == t.(farms := t.farms + [f], nextFarmId := t.nextFarmId + 1)
  {
    if !Truthy(name) {
      return Fail(BAD_REQUEST);
    }
    var t := db.tables;
    var f := Farm(t.nextFarmId, caller, name, Stored(location), Stored(address), Stored(kind), now);
    AppendFresh(t.farms, FarmKey, t.nextFarmId, f);
    db.tables := t.(farms := t.farms + [f], nextFarmId := t.nextFarmId + 1);
    reply := Reply(CREATED, Some(f));
  }

  /** GET /farms: exactly the caller's farms, each once. */
  method GetAllFarms(db: Db, caller: int) returns (reply: Reply<seq<Farm>>)
    requires db.Valid()
    ensures reply.status == OK && reply.data.Some?
    ensures forall f :: f in reply.data.value <==> f in db.tables.farms && f.userId == caller
    ensures Distinct(reply.data.value)
  {
    UniqueDistinct(db.tables.farms, FarmKey);
    WhereDistinct(db.tables.farms, FarmOwner, caller);
    reply := Reply(OK, Some(Where(db.tables.farms, FarmOwner, caller)));
  }

  /** GET /farms/:id. `id` is `parseInt` of the path segment, `None` for NaN. */
  method GetFarmById(db: Db, caller: int, id: Option<int>) returns (reply: Reply<Farm>)
    ensures id.None? ==> reply == Fail(BAD_REQUEST)
    ensures id.Some? && (forall f :: f in db.tables.farms ==> f.id != id.value || f.userId != caller) ==>
      reply == Fail(NOT_FOUND)
    ensures id.Some? && FindOwnedFarm(db.tables.farms, id.value, caller).Some? ==>
      reply == Reply(OK, FindOwnedFarm(db.tables.farms, id.value, caller))
    ensures reply.status == OK <==> reply.data.Some?
    ensures reply.data.Some? ==>
      && id.Some?
      && reply.data.value in db.tables.farms && reply.data.value.id == id.value && reply.data.value.userId == caller
  {
    if id.None? {
      return Fail(BAD_REQUEST);
    }
    var farm := FindOwnedFarm(db.tables.farms, id.value, caller);
    if farm.None? {
      return Fail(NOT_FOUND);
    }
    reply := Reply(OK, farm);
  }

  /** PUT /farms/:id. */
  method UpdateFarm(db: Db, caller: int, id: Option<int>, name: JsVal, location: JsVal, address: JsVal, kind: JsVal)
    returns (reply: Reply<Farm>)
    requires db.Valid()
    modifies db
    ensures db.Valid()
    ensures id.None? ==> reply == Fail(BAD_REQUEST) && db.tables == old(db.tables)
    ensures id.Some? && FindOwnedFarm(old(db.tables.farms), id.value, caller).None? ==>
      reply == Fail(NOT_FOUND) && db.tables == old(db.tables)
    ensures id.Some? && FindOwnedFarm(old(db.tables.farms), id.value, caller).Some? ==>
      var t := old(db.tables);
      var m := MergeFarm(FindOwnedFarm(t.farms, id.value, caller).value, name, location, address, kind);
      && reply == Reply(OK, Some(m))
      && db.tables == t.(farms := Update(t.farms, FarmKey, id.value, m))
  {
    var t := db.tables;
    var existing := if id.Some? then FindOwnedFarm(t.farms, id.value, caller) else None;
    if id.None? {
      reply := Fail(BAD_REQUEST);
    } else if existing.None? {
      reply := Fail(NOT_FOUND);
    } else {
      var m := MergeFarm(existing.value, name, location, address, kind);
      UpdateFarmConsistent(t, existing.value, m);
      db.tables := t.(farms := Update(t.farms, FarmKey, id.value, m));
      reply := Reply(OK, Some(m));
    }
  }

  /** DELETE /farms/:id. */
  method DeleteFarm(db: Db, caller: int, id: Option<int>) returns (reply: Reply<()>)
    requires db.Valid()
    modifies db
    ensures db.Valid()
    ensures id.None? ==> reply == Fail(BAD_REQUEST) && db.tables == old(db.tables)
    ensures id.Some? && FindOwnedFarm(old(db.tables.farms), id.value, caller).None? ==>
      reply == Fail(NOT_FOUND) && db.tables == old(db.tables)
    ensures id.Some? && FindOwnedFarm(old(db.tables.farms), id.value, caller).Some? ==>
      var t := old(db.tables);
      && reply == Reply(OK, Some(()))
      && db.tables == t.(farms := Without(t.farms, FarmKey, id.value))
      && |db.tables.farms| == |t.farms| - 1
  {
    if id.None? {
      return Fail(BAD_REQUEST);
    }
    var t := db.tables;
    var existing := FindOwnedFarm(t.farms, id.value, caller);
    if existing.None? {
      return Fail(NOT_FOUND);
    }
    assert id.value in Column(t.farms, FarmKey);
    DeleteUniqueRemovesOne(t.farms, FarmKey, id.value);
    WithoutKeepsUnique(t.farms, FarmKey, id.value, FarmKey);
    db.tables := t.(farms := Without(t.farms, FarmKey, id.value));
    reply := Reply(OK, Some(()));
  }
}
