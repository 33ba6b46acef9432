/** The handlers of src/controllers/anomaliesController.ts: the anomaly
    record of one livestock, read and written through its owner. */
module AnomaliesController {
  import opened Values
  import opened Relational
  import opened Schema

  /** The SET list of updateAnomaliesData. An absent `notes` is dropped from
      the SET list, so the stored notes stay; a null one clears them. */
  function SetAnomaly(a: Anomaly, kind: JsVal, severity: JsVal, notes: JsVal, at: Instant, resolved: JsVal): (r: Anomaly)
    ensures r.livestockId == a.livestockId
    ensures r.kind == kind && r.severity == severity && r.resolved == resolved && r.detectedAt == Some(at)
    ensures notes == Undefined ==> r.notes == a.notes
    ensures notes != Undefined ==> r.notes == notes
  {
    a.(kind := kind, severity := severity, notes := IfDefined(notes, a.notes), detectedAt := Some(at), resolved := resolved)
  }

  /** The row inserted when livestock `k` has no anomalies row; an absent
      `notes` is stored as NULL. */
  function NewAnomaly(k: int, kind: JsVal, severity: JsVal, notes: JsVal, at: Instant, resolved: JsVal): (r: Anomaly)
    ensures r.livestockId == k && r.kind == kind && r.severity == severity && r.resolved == resolved
    ensures r.detectedAt == Some(at) && r.notes == Stored(notes)
  {
    Anomaly(k, kind, severity, Stored(notes), Some(at), resolved)
  }

  /** The anomalies table after updateAnomaliesData's get-or-create for
      livestock `k`: when `k` has rows, each is rewritten in place and
      nothing is added; otherwise exactly one row is appended. Rows of other
      livestock stay as they were, and `k` ends with a row holding the new
      type, severity, resolved flag and detection time. */
  function UpsertAnomalies(rows: seq<Anomaly>, k: int, kind: JsVal, severity: JsVal, notes: JsVal, at: Instant, resolved: JsVal)
    : (r: seq<Anomaly>)
    ensures First(rows, AnomalyLivestock, k).Some? ==>
      && |r| == |rows|
      && forall i :: 0 <= i < |rows| ==>
           r[i] == if rows[i].livestockId == k then SetAnomaly(rows[i], kind, severity, notes, at, resolved) else rows[i]
    ensures First(rows, AnomalyLivestock, k).None? ==> r == rows + [NewAnomaly(k, kind, severity, notes, at, resolved)]
    ensures exists a :: a in r && a.livestockId == k && a == a.(kind := kind, severity := severity, detectedAt := Some(at), resolved := resolved)
    ensures forall a :: a in rows && a.livestockId != k ==> a in r
    ensures forall a :: a in r && a.livestockId != k ==> a in rows
  {
    if First(rows, AnomalyLivestock, k).Some? then
      var r := Modify(rows, AnomalyLivestock, k, a => SetAnomaly(a, kind, severity, notes, at, resolved));
      assert forall a :: a in r ==> exists i :: 0 <= i < |rows| && r[i] == a;
      var i :| 0 <= i < |rows| && rows[i] == First(rows, AnomalyLivestock, k).value;
      assert r[i] in r;
      assert forall a :: a in rows ==> exists i :: 0 <= i < |rows| && rows[i] == a && r[i] in r;
      r
    else
      var r := rows + [NewAnomaly(k, kind, severity, notes, at, resolved)];
      assert r[|rows|] in r;
      r
  }

  /** Repeating the same PUT (at the same instant) changes nothing more. */
  lemma {:induction false} UpsertAnomaliesIdempotent(rows: seq<Anomaly>, k: int, kind: JsVal, severity: JsVal,
                                                     notes: JsVal, at: Instant, resolved: JsVal)
    ensures var once := UpsertAnomalies(rows, k, kind, severity, notes, at, resolved);
      UpsertAnomalies(once, k, kind, severity, notes, at, resolved) == once
  {
    var once := UpsertAnomalies(rows, k, kind, severity, notes, at, resolved);
    var found := First(rows, AnomalyLivestock, k);
    // every row of `k` in `once` already holds the new fields
    if found.Some? {
      forall i | 0 <= i < |once| && once[i].livestockId == k
        ensures SetAnomaly(once[i], kind, severity, notes, at, resolved) == once[i]
      {
        assert rows[i].livestockId == k;
      }
    } else {
      assert once == rows + [NewAnomaly(k, kind, severity, notes, at, resolved)];
      assert forall i :: 0 <= i < |rows| ==> rows[i] in rows;
      forall i | 0 <= i < |once| && once[i].livestockId == k
        ensures SetAnomaly(once[i], kind, severity, notes, at, resolved) == once[i]
      {
      }
    }
    // and `k` has a row in `once`, so the second PUT rewrites rather than inserts
    if found.Some? {
      var i :| 0 <= i < |rows| && rows[i] == found.value;
      assert once[i] in once && once[i].livestockId == k;
    } else {
      assert once[|rows|] in once;
    }
  }

  /** GET the anomaly record of livestock `id`: 400 on a non-integer id, 404
      unless the caller owns that livestock, otherwise the first row or null. */
  method GetAnomaliesData(db: Db, caller: int, id: Option<int>) returns (reply: Reply<Option<Anomaly>>)
    ensures id.None? ==> reply == Fail(BAD_REQUEST)
    ensures id.Some? && FindOwnedLivestock(db.tables.livestock, id.value, caller).None? ==> reply == Fail(NOT_FOUND)
    ensures id.Some? && FindOwnedLivestock(db.tables.livestock, id.value, caller).Some? ==>
      reply == Reply(OK, Some(First(db.tables.anomalies, AnomalyLivestock, id.value)))
  {
    if id.None? {
      return Fail(BAD_REQUEST);
    }
    var owned := FindOwnedLivestock(db.tables.livestock, id.value, caller);
    if owned.None? {
      return Fail(NOT_FOUND);
    }
    reply := Reply(OK, Some(First(db.tables.anomalies, AnomalyLivestock, id.value)));
  }

  /** updateAnomaliesData's field check: type, severity and resolved must be
      present (null is accepted); notes may be absent. */
  predicate AnomalyGiven(kind: JsVal, severity: JsVal, resolved: JsVal)
  {
    kind != Undefined && severity != Undefined && resolved != Undefined
  }

  /** PUT the anomaly record of livestock `id`: 400 on a non-integer id, then
      400 when a required field is absent, then 404 unless the caller owns
      the livestock, then the get-or-create. */
  method UpdateAnomaliesData(db: Db, caller: int, id: Option<int>, kind: JsVal, severity: JsVal, notes: JsVal,
                             detectedAt: JsVal, resolved: JsVal, now: Instant, toDate: JsVal -> Instant)
    returns (reply: Reply<Anomaly>)
    requires db.Valid()
    modifies db
    ensures db.Valid()
    ensures reply.status != OK ==> db.tables == old(db.tables)
    ensures id.None? ==> reply == Fail(BAD_REQUEST)
    ensures id.Some? && !AnomalyGiven(kind, severity, resolved) ==> reply == Fail(BAD_REQUEST)
    ensures (id.Some? && AnomalyGiven(kind, severity, resolved) &&
             FindOwnedLivestock(old(db.tables.livestock), id.value, caller).None?) ==> reply == Fail(NOT_FOUND)
    ensures (id.Some? && AnomalyGiven(kind, severity, resolved) &&
             FindOwnedLivestock(old(db.tables.livestock), id.value, caller).Some?) ==>
      var t := old(db.tables);
      var k := id.value;
      var at := DateOr(detectedAt, now, toDate);
      var existing := First(t.anomalies, AnomalyLivestock, k);
      && db.tables == t.(anomalies := UpsertAnomalies(t.anomalies, k, kind, severity, notes, at, resolved))
      && reply.status == OK && reply.data.Some?
      && reply.data.value == if existing.Some? then SetAnomaly(existing.value, kind, severity, notes, at, resolved)
                             else NewAnomaly(k, kind, severity, notes, at, resolved)
  {
    var t := db.tables;
    if id.None? {
      reply := Fail(BAD_REQUEST);
    } else if !AnomalyGiven(kind, severity, resolved) {
      reply := Fail(BAD_REQUEST);
    } else if FindOwnedLivestock(t.livestock, id.value, caller).None? {
      reply := Fail(NOT_FOUND);
    } else {
      var k := id.value;
      var at := DateOr(detectedAt, now, toDate);
      var existing := First(t.anomalies, AnomalyLivestock, k);
      db.tables := t.(anomalies := UpsertAnomalies(t.anomalies, k, kind, severity, notes, at, resolved));
      if existing.Some? {
        reply := Reply(OK, Some(SetAnomaly(existing.value, kind, severity, notes, at, resolved)));
      } else {
        reply := Reply(OK, Some(NewAnomaly(k, kind, severity, notes, at, resolved)));
      }
    }
  }
}
