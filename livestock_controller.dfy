/** The handlers of src/controllers/livestockController.ts: ownership-scoped
    CRUD on `livestock`, the creation of a livestock's placeholder sensor and
    anomaly rows, and the read-only status, species and join reports. */
module LivestockController {
  import opened Values
  import opened Relational
  import opened Schema
  import FarmController

  /** The fields of a create or update request body. */
  datatype LivestockBody = LivestockBody(
    farmId: JsVal, name: JsVal, species: JsVal, breed: JsVal, gender: JsVal,
    birthDate: JsVal, photoUrl: JsVal, status: JsVal, height: JsVal,
    weight: JsVal, bodyConditionScore: JsVal, notes: JsVal, recordedAt: JsVal)

  /** The body createLivestock demands: a farm id, a name and a species, all truthy. */
  predicate HasRequiredFields(body: LivestockBody)
  {
    Truthy(body.farmId) && Truthy(body.name) && Truthy(body.species)
  }

  /** `recordedAt ? new Date(recordedAt) : null`. */
  function RecordedAt(v: JsVal, toDate: JsVal -> Instant): (r: Option<Instant>)
    ensures r.Some? <==> Truthy(v)
    ensures r.Some? ==> r.value == toDate(v)
  {
    if Truthy(v) then Some(toDate(v)) else None
  }

  /** The row createLivestock inserts: owned by the caller, in farm `farm`,
      every absent field NULL, created and updated `now`. */
  function NewLivestock(id: int, farm: int, caller: int, body: LivestockBody, now: Instant, toDate: JsVal -> Instant): (r: Livestock)
    ensures r.id == id && r.farmId == farm && r.userId == caller
    ensures r.createdAt == now && r.updatedAt == now
    ensures r.recordedAt == RecordedAt(body.recordedAt, toDate)
    ensures r.name == Stored(body.name) && r.species == Stored(body.species) && r.status == Stored(body.status)
    ensures r.breed == Stored(body.breed) && r.gender == Stored(body.gender)
    ensures r.birthDate == Stored(body.birthDate) && r.photoUrl == Stored(body.photoUrl)
    ensures r.height == Stored(body.height) && r.weight == Stored(body.weight)
    ensures r.bodyConditionScore == Stored(body.bodyConditionScore) && r.notes == Stored(body.notes)
  {
    Livestock(id, farm, caller, Stored(body.name), Stored(body.species), Stored(body.breed),
      Stored(body.gender), Stored(body.birthDate), Stored(body.photoUrl), Stored(body.status),
      Stored(body.height), Stored(body.weight), Stored(body.bodyConditionScore), Stored(body.notes),
      RecordedAt(body.recordedAt, toDate), now, now)
  }

  /** The empty `sensor_data` row created with a livestock: every reading NULL. */
  function PlaceholderReading(id: int, livestockId: int): SensorRow
  {
    SensorRow(id, livestockId, Null, Null, Null, Null, None)
  }

  /** The empty `anomalies` row created with a livestock: every field NULL. */
  function PlaceholderAnomaly(livestockId: int): Anomaly
  {
    Anomaly(livestockId, Null, Null, Null, None, Null)
  }

  /** The row updateLivestock writes. Text-like fields and the farm use `||`
      (a falsy value keeps the stored one); height, weight, body condition
      score and notes use `!== undefined` (so null and 0 overwrite);
      recordedAt is kept when undefined, cleared when falsy and parsed
      otherwise. `farm` is the integer a truthy farmId denotes. */
  function MergeLivestock(l: Livestock, body: LivestockBody, farm: int, now: Instant, toDate: JsVal -> Instant): (r: Livestock)
    ensures r.id == l.id && r.userId == l.userId && r.createdAt == l.createdAt && r.updatedAt == now
    ensures r.farmId == if Truthy(body.farmId) then farm else l.farmId
    // `||` fields: a truthy value is taken, and a truthy stored value is never cleared
    ensures Truthy(body.name) ==> r.name == body.name
    ensures !Truthy(body.name) ==> r.name == l.name
    ensures Truthy(body.species) ==> r.species == body.species
    ensures !Truthy(body.species) ==> r.species == l.species
    ensures Truthy(body.breed) ==> r.breed == body.breed
    ensures !Truthy(body.breed) ==> r.breed == l.breed
    ensures Truthy(body.gender) ==> r.gender == body.gender
    ensures !Truthy(body.gender) ==> r.gender == l.gender
    ensures Truthy(body.birthDate) ==> r.birthDate == body.birthDate
    ensures !Truthy(body.birthDate) ==> r.birthDate == l.birthDate
    ensures Truthy(body.photoUrl) ==> r.photoUrl == body.photoUrl
    ensures !Truthy(body.photoUrl) ==> r.photoUrl == l.photoUrl
    ensures Truthy(body.status) ==> r.status == body.status
    ensures !Truthy(body.status) ==> r.status == l.status
    ensures Truthy(l.name) ==> Truthy(r.name)
    ensures Truthy(l.species) ==> Truthy(r.species)
    ensures Truthy(l.breed) ==> Truthy(r.breed)
    ensures Truthy(l.gender) ==> Truthy(r.gender)
    ensures Truthy(l.birthDate) ==> Truthy(r.birthDate)
    ensures Truthy(l.photoUrl) ==> Truthy(r.photoUrl)
    ensures Truthy(l.status) ==> Truthy(r.status)
    // `!== undefined` fields: any given value, null and 0 included, is taken
    ensures body.height != Undefined ==> r.height == body.height
    ensures body.weight != Undefined ==> r.weight == body.weight
    ensures body.bodyConditionScore != Undefined ==> r.bodyConditionScore == body.bodyConditionScore
    ensures body.notes != Undefined ==> r.notes == body.notes
    ensures body.height == Undefined ==> r.height == l.height
    ensures body.weight == Undefined ==> r.weight == l.weight
    ensures body.bodyConditionScore == Undefined ==> r.bodyConditionScore == l.bodyConditionScore
    ensures body.notes == Undefined ==> r.notes == l.notes
    // recordedAt: three-way
    ensures body.recordedAt == Undefined ==> r.recordedAt == l.recordedAt
    ensures body.recordedAt != Undefined ==> r.recordedAt == RecordedAt(body.recordedAt, toDate)
  {
    l.(farmId := if Truthy(body.farmId) then farm else l.farmId,
       name := Or(body.name, l.name),
       species := Or(body.species, l.species),
       breed := Or(body.breed, l.breed),
       gender := Or(body.gender, l.gender),
       birthDate := Or(body.birthDate, l.birthDate),
       photoUrl := Or(body.photoUrl, l.photoUrl),
       status := Or(body.status, l.status),
       height := IfDefined(body.height, l.height),
       weight := IfDefined(body.weight, l.weight),
       bodyConditionScore := IfDefined(body.bodyConditionScore, l.bodyConditionScore),
       notes := IfDefined(body.notes, l.notes),
       recordedAt := if body.recordedAt != Undefined then RecordedAt(body.recordedAt, toDate) else l.recordedAt,
       updatedAt := now)
  }

  /** The two merge rules disagree on null: a body of nulls clears the
      measurements, the notes and recordedAt, and keeps everything else. */
  lemma NullBodyClearsOnlyMeasurements(l: Livestock, farm: int, now: Instant, toDate: JsVal -> Instant)
    ensures var nulls := LivestockBody(Null, Null, Null, Null, Null, Null, Null, Null, Null, Null, Null, Null, Null);
      MergeLivestock(l, nulls, farm, now, toDate)
        == l.(height := Null, weight := Null, bodyConditionScore := Null, notes := Null,
              recordedAt := None, updatedAt := now)
  {
  }

  /** An empty body only refreshes updatedAt. */
  lemma EmptyBodyOnlyTouches(l: Livestock, farm: int, now: Instant, toDate: JsVal -> Instant)
    ensures var empty := LivestockBody(Undefined, Undefined, Undefined, Undefined, Undefined, Undefined,
        Undefined, Undefined, Undefined, Undefined, Undefined, Undefined, Undefined);
      MergeLivestock(l, empty, farm, now, toDate) == l.(updatedAt := now)
  {
  }

  /** Sending the same update twice (at the same instant) has the effect of sending it once. */
  lemma MergeLivestockIdempotent(l: Livestock, body: LivestockBody, farm: int, now: Instant, toDate: JsVal -> Instant)
    ensures var once := MergeLivestock(l, body, farm, now, toDate);
      MergeLivestock(once, body, farm, now, toDate) == once
  {
  }

  /** POST /livestock. Validation, then the farm's ownership, then one
      transaction that inserts the livestock and its two placeholder rows; a
      caller that is not a user breaks the `user_id` foreign key, and the
      transaction rolls back. */
  method CreateLivestock(db: Db, caller: int, body: LivestockBody, now: Instant, toDate: JsVal -> Instant)
    returns (reply: Reply<Livestock>)
    requires db.Valid()
    modifies db
    ensures db.Valid()
    ensures reply.status != CREATED ==> db.tables == old(db.tables)
    ensures !HasRequiredFields(body) ==> reply == Fail(BAD_REQUEST)
    ensures HasRequiredFields(body) && SqlInt(body.farmId).None? ==> reply == Fail(SERVER_ERROR)
    ensures HasRequiredFields(body) && SqlInt(body.farmId).Some? ==>
      var t := old(db.tables);
      var farm := SqlInt(body.farmId).value;
      && (FarmController.FindOwnedFarm(t.farms, farm, caller).None? ==> reply == Fail(FORBIDDEN))
      && (FarmController.FindOwnedFarm(t.farms, farm, caller).Some? && caller !in Column(t.users, UserKey) ==>
            reply == Fail(SERVER_ERROR))
      && (FarmController.FindOwnedFarm(t.farms, farm, caller).Some? && caller in Column(t.users, UserKey) ==>
            var l := NewLivestock(t.nextLivestockId, farm, caller, body, now, toDate);
            && reply == Reply(CREATED, Some(l))
            && db.tables == AddLivestock(t, l, PlaceholderReading(t.nextSensorId, l.id), PlaceholderAnomaly(l.id)))
  {
    var t := db.tables;
    var farm := SqlInt(body.farmId);
    if !HasRequiredFields(body) {
      reply := Fail(BAD_REQUEST);
    } else if farm.None? {
      reply := Fail(SERVER_ERROR);
    } else if FarmController.FindOwnedFarm(t.farms, farm.value, caller).None? {
      reply := Fail(FORBIDDEN);
    } else if Where(t.users, UserKey, caller) == [] {
      reply := Fail(SERVER_ERROR);
    } else {
      assert caller in Column(t.users, UserKey) by {
        assert Where(t.users, UserKey, caller)[0] in Where(t.users, UserKey, caller);
      }
      var l := NewLivestock(t.nextLivestockId, farm.value, caller, body, now, toDate);
      var reading := PlaceholderReading(t.nextSensorId, l.id);
      InsertLivestockConsistent(t, l, reading, PlaceholderAnomaly(l.id));
      db.tables := AddLivestock(t, l, reading, PlaceholderAnomaly(l.id));
      reply := Reply(CREATED, Some(l));
    }
  }

  /** GET /livestock: exactly the caller's livestock, each once. */
  method GetAllLivestock(db: Db, caller: int) returns (reply: Reply<seq<Livestock>>)
    requires db.Valid()
    ensures reply.status == OK && reply.data.Some?
    ensures forall l :: l in reply.data.value <==> l in db.tables.livestock && l.userId == caller
    ensures Distinct(reply.data.value)
  {
    UniqueDistinct(db.tables.livestock, LivestockKey);
    WhereDistinct(db.tables.livestock, LivestockOwner, caller);
    reply := Reply(OK, Some(Where(db.tables.livestock, LivestockOwner, caller)));
  }

  /** GET /livestock/:id. `id` is `parseInt` of the path segment; NaN is not
      checked, and Postgres rejects it as an integer, so it ends in 500. */
  method GetLivestockById(db: Db, caller: int, id: Option<int>) returns (reply: Reply<Livestock>)
    ensures id.None? ==> reply == Fail(SERVER_ERROR)
    ensures id.Some? && (forall l :: l in db.tables.livestock ==> l.id != id.value || l.userId != caller) ==>
      reply == Fail(NOT_FOUND)
    ensures id.Some? && FindOwnedLivestock(db.tables.livestock, id.value, caller).Some? ==>
      reply == Reply(OK, FindOwnedLivestock(db.tables.livestock, id.value, caller))
    ensures reply.status == OK <==> reply.data.Some?
    ensures reply.data.Some? ==>
      && id.Some?
      && reply.data.value in db.tables.livestock && reply.data.value.id == id.value && reply.data.value.userId == caller
  {
    if id.None? {
      return Fail(SERVER_ERROR);
    }
    var found := FindOwnedLivestock(db.tables.livestock, id.value, caller);
    if found.None? {
      return Fail(NOT_FOUND);
    }
    reply := Reply(OK, found);
  }

  /** Whether updateLivestock's farm check passes: no truthy farmId, or one
      naming a farm the caller owns. */
  predicate FarmAllowed(farms: seq<Farm>, farmId: JsVal, caller: int)
  {
    !Truthy(farmId) || (SqlInt(farmId).Some? && FarmController.FindOwnedFarm(farms, SqlInt(farmId).value, caller).Some?)
  }

  /** PUT /livestock/:id: ownership, then (for a truthy farmId) the farm's
      ownership, then the merge into the one row with that id. */
  method UpdateLivestock(db: Db, caller: int, id: Option<int>, body: LivestockBody, now: Instant, toDate: JsVal -> Instant)
    returns (reply: Reply<Livestock>)
    requires db.Valid()
    modifies db
    ensures db.Valid()
    ensures reply.status != OK ==> db.tables == old(db.tables)
    ensures id.None? ==> reply == Fail(SERVER_ERROR)
    ensures id.Some? && FindOwnedLivestock(old(db.tables.livestock), id.value, caller).None? ==> reply == Fail(NOT_FOUND)
    ensures id.Some? && FindOwnedLivestock(old(db.tables.livestock), id.value, caller).Some? && Truthy(body.farmId) ==>
      && (SqlInt(body.farmId).None? ==> reply == Fail(SERVER_ERROR))
      && (SqlInt(body.farmId).Some? && FarmController.FindOwnedFarm(old(db.tables.farms), SqlInt(body.farmId).value, caller).None? ==>
            reply == Fail(FORBIDDEN))
    ensures (id.Some? && FindOwnedLivestock(old(db.tables.livestock), id.value, caller).Some? &&
             FarmAllowed(old(db.tables.farms), body.farmId, caller)) ==>
      var t := old(db.tables);
      var existing := FindOwnedLivestock(t.livestock, id.value, caller).value;
      var farm := if Truthy(body.farmId) then SqlInt(body.farmId).value else existing.farmId;
      var m := MergeLivestock(existing, body, farm, now, toDate);
      && reply == Reply(OK, Some(m))
      && db.tables == t.(livestock := Update(t.livestock, LivestockKey, id.value, m))
  {
    var t := db.tables;
    var existing := if id.Some? then FindOwnedLivestock(t.livestock, id.value, caller) else None;
    var given := SqlInt(body.farmId);
    if id.None? {
      reply := Fail(SERVER_ERROR);
    } else if existing.None? {
      reply := Fail(NOT_FOUND);
    } else if Truthy(body.farmId) && given.None? {
      reply := Fail(SERVER_ERROR);
    } else if Truthy(body.farmId) && FarmController.FindOwnedFarm(t.farms, given.value, caller).None? {
      reply := Fail(FORBIDDEN);
    } else {
      var farm := if Truthy(body.farmId) then given.value else existing.value.farmId;
      var m := MergeLivestock(existing.value, body, farm, now, toDate);
      UpdateLivestockConsistent(t, existing.value, m);
      db.tables := t.(livestock := Update(t.livestock, LivestockKey, id.value, m));
      reply := Reply(OK, Some(m));
    }
  }

  /** DELETE /livestock/:id. The row goes, and with it, through the
      schema's ON DELETE CASCADE, its sensor_data, devices and notifications
      rows. The anomalies table declares no such key, so its rows stay. */
  method DeleteLivestock(db: Db, caller: int, id: Option<int>) returns (reply: Reply<()>)
    requires db.Valid()
    modifies db
    ensures db.Valid()
    ensures reply.status != OK ==> db.tables == old(db.tables)
    ensures id.None? ==> reply == Fail(SERVER_ERROR)
    ensures id.Some? && FindOwnedLivestock(old(db.tables.livestock), id.value, caller).None? ==> reply == Fail(NOT_FOUND)
    ensures id.Some? && FindOwnedLivestock(old(db.tables.livestock), id.value, caller).Some? ==>
      var t := old(db.tables);
      var k := id.value;
      && reply == Reply(OK, Some(()))
      && db.tables == t.(livestock := Without(t.livestock, LivestockKey, k),
           sensorData := Without(t.sensorData, SensorLivestock, k),
           devices := Without(t.devices, DeviceLivestock, k),
           notifications := Without(t.notifications, NotificationLivestock, k))
      && |db.tables.livestock| == |t.livestock| - 1
  {
    if id.None? {
      return Fail(SERVER_ERROR);
    }
    var k := id.value;
    var t := db.tables;
    var existing := FindOwnedLivestock(t.livestock, k, caller);
    if existing.None? {
      return Fail(NOT_FOUND);
    }
    assert k in Column(t.livestock, LivestockKey);
    DeleteUniqueRemovesOne(t.livestock, LivestockKey, k);
    DeleteLivestockConsistent(t, k);
    db.tables := t.(livestock := Without(t.livestock, LivestockKey, k),
      sensorData := Without(t.sensorData, SensorLivestock, k),
      devices := Without(t.devices, DeviceLivestock, k),
      notifications := Without(t.notifications, NotificationLivestock, k));
    reply := Reply(OK, Some(()));
  }

  // ---------------------------------------------------------------------
  // Read-only reports, scoped by the `userId` (or `livestockId`) path
  // parameter given as `Number(...)`: `None` when it is not an integer,
  // which Postgres rejects, so those requests end in 500.

  /** The one row of getLivestockStatusCounts' aggregate. The SUMs are SQL
      NULL (`None`) over zero rows; COUNT(*) is 0 there. */
  datatype StatusCounts = StatusCounts(total: nat, healthy: Option<nat>, needsAttention: Option<nat>, critical: Option<nat>)

  const HEALTHY: JsVal := Str("Healthy")
  const NEEDS_ATTENTION: JsVal := Str("Needs Attention")
  const CRITICAL: JsVal := Str("Critical")

  /** `SUM(CASE WHEN status = v THEN 1 ELSE 0 END)`: NULL over no rows. */
  function SumMatches(rows: seq<Livestock>, v: JsVal): (r: Option<nat>)
    ensures r.None? <==> rows == []
    ensures r.Some? ==> r.value <= |rows|
    ensures r.Some? ==> (r.value > 0 <==> exists l :: l in rows && l.status == v)
    ensures r.Some? ==> r.value == |set i | 0 <= i < |rows| && rows[i].status == v|
  {
    if rows == [] then None
    else
      var matching := Where(rows, LivestockStatus, v);
      assert matching != [] ==> matching[0] in matching;
      WhereCount(rows, LivestockStatus, v);
      ghost var holding := set i | 0 <= i < |rows| && rows[i].status == v;
      assert Positions(rows, LivestockStatus, v) == holding;
      assert |matching| == |holding|;
      Some(|matching|)
  }

  /** The aggregate over the given rows (no GROUP BY: always exactly one row). */
  function StatusCountsOf(rows: seq<Livestock>): (r: StatusCounts)
    ensures r.total == |rows|
    ensures r.healthy.Some? ==> (r.healthy.value > 0 <==> exists l :: l in rows && l.status == HEALTHY)
    ensures r.needsAttention.Some? ==> (r.needsAttention.value > 0 <==> exists l :: l in rows && l.status == NEEDS_ATTENTION)
    ensures r.critical.Some? ==> (r.critical.value > 0 <==> exists l :: l in rows && l.status == CRITICAL)
    ensures r.healthy.None? <==> rows == []
    // each SUM counts exactly the rows holding its status
    ensures r.healthy.Some? ==> r.healthy.value == |set i | 0 <= i < |rows| && rows[i].status == HEALTHY|
    ensures r.needsAttention.Some? ==> r.needsAttention.value == |set i | 0 <= i < |rows| && rows[i].status == NEEDS_ATTENTION|
    ensures r.critical.Some? ==> r.critical.value == |set i | 0 <= i < |rows| && rows[i].status == CRITICAL|
  {
    StatusCounts(|rows|, SumMatches(rows, HEALTHY), SumMatches(rows, NEEDS_ATTENTION), SumMatches(rows, CRITICAL))
  }

  /** The three counts are NULL together, and otherwise add up to at most
      the total: a row has one status, and any other status is in none. */
  lemma StatusCountsBounded(rows: seq<Livestock>)
    ensures var r := StatusCountsOf(rows);
      && (r.healthy.None? <==> r.needsAttention.None?) && (r.needsAttention.None? <==> r.critical.None?)
      && (r.healthy.Some? ==> r.healthy.value + r.needsAttention.value + r.critical.value <= r.total)
  {
    WhereThreeDisjoint(rows, LivestockStatus, HEALTHY, NEEDS_ATTENTION, CRITICAL);
  }

  /** GET status counts for the path user. The aggregate always yields a
      row, so the handler's 404 branch is never taken. */
  method GetLivestockStatusCounts(db: Db, userId: Option<int>) returns (reply: Reply<StatusCounts>)
    ensures userId.None? ==> reply == Fail(SERVER_ERROR)
    ensures userId.Some? ==>
      reply == Reply(OK, Some(StatusCountsOf(Where(db.tables.livestock, LivestockOwner, userId.value))))
    ensures reply.status != NOT_FOUND
  {
    if userId.None? {
      return Fail(SERVER_ERROR);
    }
    var rows := [StatusCountsOf(Where(db.tables.livestock, LivestockOwner, userId.value))];
    if |rows| == 0 {
      return Fail(NOT_FOUND);
    }
    reply := Reply(OK, Some(rows[0]));
  }

  /** One group of getLivestockSpeciesCounts. */
  datatype SpeciesCount = SpeciesCount(species: JsVal, total: nat)

  function CountSpecies(e: SpeciesCount): JsVal { e.species }
  function CountKey(e: SpeciesCount): Key { IntKey(e.total) }

  /** The sum of the groups' totals. */
  function Total(groups: seq<SpeciesCount>): nat
  {
    if groups == [] then 0 else groups[0].total + Total(groups[1..])
  }

  /** Counting one more row of species `sp` into the groups. */
  function Bump(groups: seq<SpeciesCount>, sp: JsVal): seq<SpeciesCount>
  {
    if groups == [] then [SpeciesCount(sp, 1)]
    else if groups[0].species == sp then [groups[0].(total := groups[0].total + 1)] + groups[1..]
    else [groups[0]] + Bump(groups[1..], sp)
  }

  /** `SELECT species, COUNT(*) … GROUP BY species`, in an order SQL leaves open. */
  function Tally(rows: seq<Livestock>): seq<SpeciesCount>
  {
    if rows == [] then [] else Bump(Tally(rows[1..]), rows[0].species)
  }

  /** `… ORDER BY COUNT(*) DESC`. */
  function SpeciesCountsOf(rows: seq<Livestock>): seq<SpeciesCount>
  {
    SortDesc(Tally(rows), CountKey)
  }

  /** The number of rows of species `sp`. */
  function CountOf(rows: seq<Livestock>, sp: JsVal): nat
  {
    |Where(rows, LivestockSpecies, sp)|
  }

  /** The total of the first group of species `sp`, 0 if there is none. */
  function TotalFor(groups: seq<SpeciesCount>, sp: JsVal): nat
  {
    if groups == [] then 0 else if groups[0].species == sp then groups[0].total else TotalFor(groups[1..], sp)
  }

  /** One more row of species `sp` adds one to that species' group and to no other. */
  lemma {:induction false} BumpCounts(groups: seq<SpeciesCount>, sp: JsVal, other: JsVal)
    ensures TotalFor(Bump(groups, sp), other) == TotalFor(groups, other) + (if other == sp then 1 else 0)
  {
    if groups != [] && groups[0].species != sp {
      BumpCounts(groups[1..], sp, other);
    }
  }

  /** After one more row of species `sp`, the groups' species are the old ones and `sp`. */
  lemma {:induction false} BumpSpecies(groups: seq<SpeciesCount>, sp: JsVal)
    ensures Column(Bump(groups, sp), CountSpecies) == Column(groups, CountSpecies) + {sp}
  {
    if groups == [] {
      assert Bump(groups, sp) == [SpeciesCount(sp, 1)] + groups;
      ColumnCons(SpeciesCount(sp, 1), groups, CountSpecies);
    } else {
      var g, rest := groups[0], groups[1..];
      assert groups == [g] + rest;
      ColumnCons(g, rest, CountSpecies);
      if g.species == sp {
        assert Bump(groups, sp) == [g.(total := g.total + 1)] + rest;
        ColumnCons(g.(total := g.total + 1), rest, CountSpecies);
      } else {
        BumpSpecies(rest, sp);
        assert Bump(groups, sp) == [g] + Bump(rest, sp);
        ColumnCons(g, Bump(rest, sp), CountSpecies);
      }
    }
  }

  /** One more row keeps one group per species. */
  lemma {:induction false} BumpUnique(groups: seq<SpeciesCount>, sp: JsVal)
    requires UniqueBy(groups, CountSpecies)
    ensures UniqueBy(Bump(groups, sp), CountSpecies)
  {
    if groups != [] {
      var g, rest := groups[0], groups[1..];
      assert groups == [g] + rest;
      UniqueCons(g, rest, CountSpecies);
      if g.species == sp {
        UniqueCons(g.(total := g.total + 1), rest, CountSpecies);
      } else {
        BumpUnique(rest, sp);
        BumpSpecies(rest, sp);
        UniqueCons(g, Bump(rest, sp), CountSpecies);
      }
    }
  }

  /** One more row keeps every group's total positive and adds one to the sum. */
  lemma {:induction false} BumpTotal(groups: seq<SpeciesCount>, sp: JsVal)
    requires forall e :: e in groups ==> e.total > 0
    ensures forall e :: e in Bump(groups, sp) ==> e.total > 0
    ensures Total(Bump(groups, sp)) == Total(groups) + 1
  {
    if groups != [] {
      var g, rest := groups[0], groups[1..];
      if g.species == sp {
        assert Bump(groups, sp) == [g.(total := g.total + 1)] + rest;
        assert g in groups;
        forall e | e in rest ensures e.total > 0 { assert e in groups; }
      } else {
        forall e | e in rest ensures e.total > 0 { assert e in groups; }
        BumpTotal(rest, sp);
        assert g in groups;
        assert Bump(groups, sp) == [g] + Bump(rest, sp);
      }
    }
  }

  /** With one group per species, a group's total is its species' TotalFor. */
  lemma {:induction false} UniqueTotalFor(groups: seq<SpeciesCount>)
    requires UniqueBy(groups, CountSpecies)
    ensures forall e :: e in groups ==> e.total == TotalFor(groups, e.species)
  {
    if groups != [] {
      var g, rest := groups[0], groups[1..];
      assert UniqueBy(rest, CountSpecies) by {
        forall i, j | 0 <= i < j < |rest| ensures rest[i].species != rest[j].species {
          assert rest[i] == groups[i + 1] && rest[j] == groups[j + 1];
        }
      }
      UniqueTotalFor(rest);
      forall e | e in groups ensures e.total == TotalFor(groups, e.species) {
        if e != g {
          var k :| 0 <= k < |rest| && rest[k] == e;
          assert groups[k + 1] == e;
        }
      }
    }
  }

  /** GROUP BY species: one group per distinct species, each with the number
      of rows of that species, and the totals add up to the number of rows. */
  lemma {:induction false} TallySpec(rows: seq<Livestock>)
    ensures UniqueBy(Tally(rows), CountSpecies)
    ensures Column(Tally(rows), CountSpecies) == Column(rows, LivestockSpecies)
    ensures forall sp :: TotalFor(Tally(rows), sp) == CountOf(rows, sp)
    ensures forall e :: e in Tally(rows) ==> e.total > 0
    ensures Total(Tally(rows)) == |rows|
  {
    if rows != [] {
      var x, rest := rows[0], rows[1..];
      TallySpec(rest);
      var g := Tally(rest);
      BumpUnique(g, x.species);
      BumpSpecies(g, x.species);
      BumpTotal(g, x.species);
      forall sp ensures TotalFor(Tally(rows), sp) == CountOf(rows, sp) {
        BumpCounts(g, x.species, sp);
      }
      assert rows == [x] + rest;
      ColumnCons(x, rest, LivestockSpecies);
    }
  }

  /** Inserting a group into an ordered list adds its total. */
  lemma {:induction false} InsertTotal(x: SpeciesCount, s: seq<SpeciesCount>)
    ensures Total(Insert(x, s, CountKey)) == x.total + Total(s)
  {
    if s != [] && !NoLater(CountKey(x), CountKey(s[0])) {
      InsertTotal(x, s[1..]);
    }
  }

  /** Ordering the groups keeps their totals' sum. */
  lemma {:induction false} SortTotal(s: seq<SpeciesCount>)
    ensures Total(SortDesc(s, CountKey)) == Total(s)
  {
    if s != [] {
      SortTotal(s[1..]);
      InsertTotal(s[0], SortDesc(s[1..], CountKey));
    }
  }

  /** The species report keeps one entry per species. */
  lemma SpeciesCountsUnique(rows: seq<Livestock>)
    ensures UniqueBy(SpeciesCountsOf(rows), CountSpecies)
  {
    TallySpec(rows);
    SortDescKeepsUnique(Tally(rows), CountKey, CountSpecies);
  }

  /** Every entry of the species report counts exactly its species' rows. */
  lemma SpeciesCountsExact(rows: seq<Livestock>)
    ensures forall e :: e in SpeciesCountsOf(rows) ==> e.total == CountOf(rows, e.species) && e.total > 0
  {
    var g := Tally(rows);
    TallySpec(rows);
    UniqueTotalFor(g);
    SortDescCorrect(g, CountKey);
    SubMultisetMembers(SpeciesCountsOf(rows), g);
  }

  /** Every species of the rows has an entry in the species report. */
  lemma SpeciesCountsCover(rows: seq<Livestock>)
    ensures forall l :: l in rows ==> exists e :: e in SpeciesCountsOf(rows) && e.species == l.species
  {
    var g := Tally(rows);
    var r := SpeciesCountsOf(rows);
    TallySpec(rows);
    SortDescCorrect(g, CountKey);
    SubMultisetMembers(g, r);
    forall l | l in rows ensures exists e :: e in r && e.species == l.species {
      assert l.species in Column(rows, LivestockSpecies);
      var e :| e in g && e.species == l.species;
      assert e in r;
    }
  }

  /** The species report's totals add up to the number of rows, in descending order. */
  lemma SpeciesCountsOrdered(rows: seq<Livestock>)
    ensures Total(SpeciesCountsOf(rows)) == |rows|
    ensures var r := SpeciesCountsOf(rows); forall i, j :: 0 <= i < j < |r| ==> r[i].total >= r[j].total
  {
    var g := Tally(rows);
    var r := SpeciesCountsOf(rows);
    TallySpec(rows);
    SortTotal(g);
    SortDescCorrect(g, CountKey);
    forall i, j | 0 <= i < j < |r| ensures r[i].total >= r[j].total {
      assert NoLater(CountKey(r[i]), CountKey(r[j]));
    }
  }

  /** getLivestockSpeciesCounts' result: one entry per distinct species of
      the rows, with that species' row count, totals summing to the number
      of rows, ordered by total (largest first), and empty exactly when there
      are no rows. */
  lemma SpeciesCountsCorrect(rows: seq<Livestock>)
    ensures var r := SpeciesCountsOf(rows);
      && UniqueBy(r, CountSpecies)
      && (forall l :: l in rows ==> exists e :: e in r && e.species == l.species)
      && (forall e :: e in r ==> e.total == CountOf(rows, e.species) && e.total > 0)
      && Total(r) == |rows|
      && (forall i, j :: 0 <= i < j < |r| ==> r[i].total >= r[j].total)
      && (r == [] <==> rows == [])
  {
    SpeciesCountsUnique(rows);
    SpeciesCountsCover(rows);
    SpeciesCountsExact(rows);
    SpeciesCountsOrdered(rows);
    if rows != [] {
      assert rows[0] in rows;
    }
  }

  /** GET species counts for the path user: 404 exactly when the user has no livestock. */
  method GetLivestockSpeciesCounts(db: Db, userId: Option<int>) returns (reply: Reply<seq<SpeciesCount>>)
    ensures userId.None? ==> reply == Fail(SERVER_ERROR)
    ensures userId.Some? ==>
      var rows := Where(db.tables.livestock, LivestockOwner, userId.value);
      && (rows == [] ==> reply == Fail(NOT_FOUND))
      && (rows != [] ==> reply == Reply(OK, Some(SpeciesCountsOf(rows))))
  {
    if userId.None? {
      return Fail(SERVER_ERROR);
    }
    var rows := Where(db.tables.livestock, LivestockOwner, userId.value);
    var result := SpeciesCountsOf(rows);
    SpeciesCountsCorrect(rows);
    if result == [] {
      return Fail(NOT_FOUND);
    }
    reply := Reply(OK, Some(result));
  }

  /** A row of the sensor/anomaly report: ((reading, livestock), anomaly). */
  type SensorAnomaly = Pair<Pair<SensorRow, Livestock>, Anomaly>

  function ReadingOf(s: SensorRow, l: Livestock): bool { s.livestockId == l.id }
  function AnomalyOf(p: Pair<SensorRow, Livestock>, a: Anomaly): bool { a.livestockId == p.right.id }
  function ReportOwner(p: SensorAnomaly): int { p.left.right.userId }
  function ReportLivestock(p: SensorAnomaly): int { p.left.right.id }

  /** `sensor_data INNER JOIN livestock ON … INNER JOIN anomalies ON …`. */
  function SensorAnomalies(t: Tables): seq<SensorAnomaly>
  {
    Join(Join(t.sensorData, t.livestock, ReadingOf), t.anomalies, AnomalyOf)
  }

  /** The combinations the report is made of: a reading, the livestock it
      belongs to, and an anomaly row of the same livestock. */
  ghost predicate Matched(t: Tables, p: SensorAnomaly)
  {
    && p.left.left in t.sensorData && p.left.right in t.livestock && p.right in t.anomalies
    && p.left.left.livestockId == p.left.right.id && p.right.livestockId == p.left.right.id
  }

  /** GET the report for the path user: every combination whose livestock
      the user owns; 404 when there is none. */
  method GetLivestockSensorAnomalies(db: Db, userId: Option<int>) returns (reply: Reply<seq<SensorAnomaly>>)
    ensures userId.None? ==> reply == Fail(SERVER_ERROR)
    ensures reply.status == OK <==> reply.data.Some?
    ensures reply.data.Some? ==>
      && userId.Some? && reply.data.value != []
      && forall p :: p in reply.data.value <==> Matched(db.tables, p) && p.left.right.userId == userId.value
    ensures userId.Some? && reply.data.None? ==>
      reply == Fail(NOT_FOUND) && forall p :: Matched(db.tables, p) ==> p.left.right.userId != userId.value
  {
    if userId.None? {
      return Fail(SERVER_ERROR);
    }
    var result := Where(SensorAnomalies(db.tables), ReportOwner, userId.value);
    if result == [] {
      return Fail(NOT_FOUND);
    }
    reply := Reply(OK, Some(result));
  }

  /** GET the report for the path livestock. The query filters by livestock
      id only; the caller's ownership is not consulted. */
  method GetLivestockSensorAnomaliesById(db: Db, livestockId: Option<int>) returns (reply: Reply<seq<SensorAnomaly>>)
    ensures livestockId.None? ==> reply == Fail(SERVER_ERROR)
    ensures reply.status == OK <==> reply.data.Some?
    ensures reply.data.Some? ==>
      && livestockId.Some? && reply.data.value != []
      && forall p :: p in reply.data.value <==> Matched(db.tables, p) && p.left.right.id == livestockId.value
    ensures livestockId.Some? && reply.data.None? ==>
      reply == Fail(NOT_FOUND) && forall p :: Matched(db.tables, p) ==> p.left.right.id != livestockId.value
  {
    if livestockId.None? {
      return Fail(SERVER_ERROR);
    }
    var result := Where(SensorAnomalies(db.tables), ReportLivestock, livestockId.value);
    if result == [] {
      return Fail(NOT_FOUND);
    }
    reply := Reply(OK, Some(result));
  }

  /** A database with users 1 and 2 in which only user 1 owns livestock:
      livestock 1, with one sensor reading and one anomaly row. */
  function LeakTables(): Tables
  {
    var l := Livestock(1, 1, 1, Null, Null, Null, Null, Null, Null, Null, Null, Null, Null, Null, None, Instant(0), Instant(0));
    Tables([User(1, Null, Str("a"), "", Str("farmer"), Instant(0)), User(2, Null, Str("b"), "", Str("farmer"), Instant(0))],
           [], [l], [SensorRow(1, 1, Null, Null, Null, Null, None)], [Anomaly(1, Null, Null, Null, None, Null)], [], [], 3, 1, 2, 2, 1)
  }

  /** The by-id report gives another user's livestock to any caller: in
      LeakTables user 2 owns no livestock, yet the report for livestock 1
      (owned by user 1) has a row. */
  lemma ReportByIdIgnoresOwner()
    ensures var t := LeakTables();
      var row := Pair(Pair(t.sensorData[0], t.livestock[0]), t.anomalies[0]);
      && Consistent(t)
      && FindOwnedLivestock(t.livestock, 1, 2).None?
      && Matched(t, row) && ReportLivestock(row) == 1
      && ReportOwner(row) != 2
  {
    var t := LeakTables();
    assert t.users[0] in t.users;
    assert t.livestock[0] in t.livestock;
  }

  /** The handler run on LeakTables: whoever asks (the handler never reads
      the caller), the report of user 1's livestock comes back with 200, so
      user 2, who owns nothing, receives it. */
  method NonOwnerGetsReport() returns (db: Db, reply: Reply<seq<SensorAnomaly>>)
    ensures db.Valid() && FindOwnedLivestock(db.tables.livestock, 1, 2).None?
    ensures reply.status == OK && reply.data.Some?
    ensures exists p :: p in reply.data.value && ReportOwner(p) == 1
  {
    db := new Db();
    db.tables := LeakTables();
    ReportByIdIgnoresOwner();
    reply := GetLivestockSensorAnomaliesById(db, Some(1));
    var t := db.tables;
    var row := Pair(Pair(t.sensorData[0], t.livestock[0]), t.anomalies[0]);
    assert row in reply.data.value;
  }

  /** The by-id report restricted to the caller's own livestock, as the
      handler's not-found message ("… or you do not have access") and its
      one-armed `and(…)` show was meant. */
  method GetOwnedLivestockSensorAnomaliesById(db: Db, caller: int, livestockId: Option<int>)
    returns (reply: Reply<seq<SensorAnomaly>>)
    ensures livestockId.None? ==> reply == Fail(SERVER_ERROR)
    ensures reply.status == OK <==> reply.data.Some?
    ensures reply.data.Some? ==>
      && livestockId.Some? && reply.data.value != []
      && forall p :: p in reply.data.value <==>
           Matched(db.tables, p) && p.left.right.id == livestockId.value && p.left.right.userId == caller
    ensures livestockId.Some? && FindOwnedLivestock(db.tables.livestock, livestockId.value, caller).None? ==>
      reply == Fail(NOT_FOUND)
    ensures livestockId.Some? && reply.data.None? ==>
      && reply == Fail(NOT_FOUND)
      && forall p :: Matched(db.tables, p) && p.left.right.id == livestockId.value ==> p.left.right.userId != caller
  {
    if livestockId.None? {
      return Fail(SERVER_ERROR);
    }
    var result := Where(Where(SensorAnomalies(db.tables), ReportLivestock, livestockId.value), ReportOwner, caller);
    if result == [] {
      return Fail(NOT_FOUND);
    }
    assert result[0] in result;
    reply := Reply(OK, Some(result));
  }
}
