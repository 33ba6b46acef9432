/** The handlers of src/controllers/sensorDataController.ts: the readings of
    one livestock, read and written through its owner. */
module SensorDataController {
  import opened Values
  import opened Relational
  import opened Schema

  /** The SET list of updateSensorData: the three readings and the
      timestamp; the row's id, livestock and sp02 stay. */
  function SetReading(s: SensorRow, temperature: JsVal, heartRate: JsVal, motionLevel: JsVal, at: Instant): (r: SensorRow)
    ensures r.id == s.id && r.livestockId == s.livestockId && r.sp02 == s.sp02
    ensures r.temperature == temperature && r.heartRate == heartRate && r.motionLevel == motionLevel
    ensures r.timestamp == Some(at)
  {
    s.(temperature := temperature, heartRate := heartRate, motionLevel := motionLevel, timestamp := Some(at))
  }

  /** The sensor_data table after updateSensorData's get-or-create for
      livestock `k`: when `k` has rows, every one of them takes the new
      readings and nothing is added; otherwise one row is inserted with
      serial id `next` (sp02 NULL). Either way the other livestock's rows
      stay as they were and `k` has a row holding the new readings. */
  function UpsertReadings(rows: seq<SensorRow>, next: int, k: int, temperature: JsVal, heartRate: JsVal, motionLevel: JsVal, at: Instant)
    : (r: seq<SensorRow>)
    ensures First(rows, SensorLivestock, k).Some? ==>
      && |r| == |rows|
      && forall i :: 0 <= i < |rows| ==>
           r[i] == if rows[i].livestockId == k then SetReading(rows[i], temperature, heartRate, motionLevel, at) else rows[i]
    ensures First(rows, SensorLivestock, k).None? ==>
      r == rows + [SensorRow(next, k, temperature, heartRate, motionLevel, Null, Some(at))]
    ensures exists s :: s in r && s == SetReading(s, temperature, heartRate, motionLevel, at) && s.livestockId == k
    ensures forall s :: s in rows && s.livestockId != k ==> s in r
    ensures forall s :: s in r && s.livestockId != k ==> s in rows
  {
    if First(rows, SensorLivestock, k).Some? then
      var r := Modify(rows, SensorLivestock, k, s => SetReading(s, temperature, heartRate, motionLevel, at));
      assert forall s :: s in r ==> exists i :: 0 <= i < |rows| && r[i] == s;
      var i :| 0 <= i < |rows| && rows[i] == First(rows, SensorLivestock, k).value;
      assert r[i] in r;
      assert forall s :: s in rows ==> exists i :: 0 <= i < |rows| && rows[i] == s && r[i] in r;
      r
    else
      var r := rows + [SensorRow(next, k, temperature, heartRate, motionLevel, Null, Some(at))];
      assert r[|rows|] in r;
      r
  }

  /** Repeating the same PUT (at the same instant) changes nothing more: the
      first one leaves `k` with rows, so the second only rewrites them with
      the readings they already hold. */
  lemma {:induction false} UpsertReadingsIdempotent(rows: seq<SensorRow>, next: int, next': int, k: int,
                                                    temperature: JsVal, heartRate: JsVal, motionLevel: JsVal, at: Instant)
    ensures var once := UpsertReadings(rows, next, k, temperature, heartRate, motionLevel, at);
      UpsertReadings(once, next', k, temperature, heartRate, motionLevel, at) == once
  {
    var once := UpsertReadings(rows, next, k, temperature, heartRate, motionLevel, at);
    var found := First(rows, SensorLivestock, k);
    // every row of `k` in `once` already holds the new readings
    if found.Some? {
      forall i | 0 <= i < |once| && once[i].livestockId == k
        ensures SetReading(once[i], temperature, heartRate, motionLevel, at) == once[i]
      {
        assert rows[i].livestockId == k;
      }
    } else {
      assert once == rows + [SensorRow(next, k, temperature, heartRate, motionLevel, Null, Some(at))];
      assert forall i :: 0 <= i < |rows| ==> rows[i] in rows;
      forall i | 0 <= i < |once| && once[i].livestockId == k
        ensures SetReading(once[i], temperature, heartRate, motionLevel, at) == once[i]
      {
      }
    }
    // and `k` has a row in `once`, so the second PUT rewrites rather than inserts
    if found.Some? {
      var i :| 0 <= i < |rows| && rows[i] == found.value;
      assert once[i] in once && once[i].livestockId == k;
    } else {
      assert once[|rows|] in once;
    }
  }

  /** The tables after the get-or-create for livestock `k`. */
  function Upserted(t: Tables, k: int, temperature: JsVal, heartRate: JsVal, motionLevel: JsVal, at: Instant): Tables
  {
    t.(sensorData := UpsertReadings(t.sensorData, t.nextSensorId, k, temperature, heartRate, motionLevel, at),
       nextSensorId := if First(t.sensorData, SensorLivestock, k).Some? then t.nextSensorId else t.nextSensorId + 1)
  }

  /** The get-or-create for an existing livestock keeps every constraint. */
  lemma UpsertReadingsConsistent(t: Tables, k: int, temperature: JsVal, heartRate: JsVal, motionLevel: JsVal, at: Instant)
    requires Consistent(t) && k in Column(t.livestock, LivestockKey)
    ensures Consistent(Upserted(t, k, temperature, heartRate, motionLevel, at))
  {
    var rows := UpsertReadings(t.sensorData, t.nextSensorId, k, temperature, heartRate, motionLevel, at);
    if First(t.sensorData, SensorLivestock, k).Some? {
      RewriteReadingsConsistent(t, rows);
    } else {
      InsertReadingConsistent(t, SensorRow(t.nextSensorId, k, temperature, heartRate, motionLevel, Null, Some(at)));
    }
  }

  /** GET sensor data of livestock `id`: 400 on a non-integer id, 404 unless
      the caller owns that livestock, otherwise the first row or null. */
  method GetSensorData(db: Db, caller: int, id: Option<int>) returns (reply: Reply<Option<SensorRow>>)
    ensures id.None? ==> reply == Fail(BAD_REQUEST)
    ensures id.Some? && FindOwnedLivestock(db.tables.livestock, id.value, caller).None? ==> reply == Fail(NOT_FOUND)
    ensures id.Some? && FindOwnedLivestock(db.tables.livestock, id.value, caller).Some? ==>
      reply == Reply(OK, Some(First(db.tables.sensorData, SensorLivestock, id.value)))
  {
    if id.None? {
      return Fail(BAD_REQUEST);
    }
    var owned := FindOwnedLivestock(db.tables.livestock, id.value, caller);
    if owned.None? {
      return Fail(NOT_FOUND);
    }
    reply := Reply(OK, Some(First(db.tables.sensorData, SensorLivestock, id.value)));
  }

  /** updateSensorData's field check: each reading must be present; null is accepted. */
  predicate ReadingsGiven(temperature: JsVal, heartRate: JsVal, motionLevel: JsVal)
  {
    temperature != Undefined && heartRate != Undefined && motionLevel != Undefined
  }

  /** PUT sensor data of livestock `id`: 400 on a non-integer id, then 400
      when a reading is absent, then 404 unless the caller owns the
      livestock, then the get-or-create. The reply carries the first row
      written. */
  method UpdateSensorData(db: Db, caller: int, id: Option<int>, temperature: JsVal, heartRate: JsVal,
                          motionLevel: JsVal, timestamp: JsVal, now: Instant, toDate: JsVal -> Instant)
    returns (reply: Reply<SensorRow>)
    requires db.Valid()
    modifies db
    ensures db.Valid()
    ensures reply.status != OK ==> db.tables == old(db.tables)
    ensures id.None? ==> reply == Fail(BAD_REQUEST)
    ensures id.Some? && !ReadingsGiven(temperature, heartRate, motionLevel) ==> reply == Fail(BAD_REQUEST)
    ensures (id.Some? && ReadingsGiven(temperature, heartRate, motionLevel) &&
             FindOwnedLivestock(old(db.tables.livestock), id.value, caller).None?) ==> reply == Fail(NOT_FOUND)
    ensures (id.Some? && ReadingsGiven(temperature, heartRate, motionLevel) &&
             FindOwnedLivestock(old(db.tables.livestock), id.value, caller).Some?) ==>
      var t := old(db.tables);
      var k := id.value;
      var at := DateOr(timestamp, now, toDate);
      var existing := First(t.sensorData, SensorLivestock, k);
      && db.tables == Upserted(t, k, temperature, heartRate, motionLevel, at)
      && reply.status == OK && reply.data.Some?
      && reply.data.value == if existing.Some? then SetReading(existing.value, temperature, heartRate, motionLevel, at)
                             else SensorRow(t.nextSensorId, k, temperature, heartRate, motionLevel, Null, Some(at))
  {
    var t := db.tables;
    var owner := if id.Some? then FindOwnedLivestock(t.livestock, id.value, caller) else None;
    if id.None? || !ReadingsGiven(temperature, heartRate, motionLevel) {
      reply := Fail(BAD_REQUEST);
    } else if owner.None? {
      reply := Fail(NOT_FOUND);
    } else {
      var k := id.value;
      var at := DateOr(timestamp, now, toDate);
      var existing := First(t.sensorData, SensorLivestock, k);
      var row := if existing.Some? then SetReading(existing.value, temperature, heartRate, motionLevel, at)
                 else SensorRow(t.nextSensorId, k, temperature, heartRate, motionLevel, Null, Some(at));
      assert owner.value in t.livestock;
      UpsertReadingsConsistent(t, k, temperature, heartRate, motionLevel, at);
      db.tables := Upserted(t, k, temperature, heartRate, motionLevel, at);
      reply := Reply(OK, Some(row));
    }
  }
}
