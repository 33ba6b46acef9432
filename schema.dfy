/** The tables of src/db/schema.ts, as the controllers use them, and the
    constraints the schema declares, as an invariant of the store. */
module Schema {
  import opened Values
  import opened Relational

  /** A row of `users`. `password` holds the bcrypt hash, never the plaintext. */
  datatype User = User(id: int, name: JsVal, email: JsVal, password: string, role: JsVal, createdAt: Instant)

  /** A row of `farms` (a table the controllers use; its columns are the ones they read and write). */
  datatype Farm = Farm(id: int, userId: int, name: JsVal, location: JsVal, address: JsVal, kind: JsVal, createdAt: Instant)

  /** A row of `livestock`, including the `farm_id` column the controllers write. */
  datatype Livestock = Livestock(
    id: int, farmId: int, userId: int,
    name: JsVal, species: JsVal, breed: JsVal, gender: JsVal, birthDate: JsVal,
    photoUrl: JsVal, status: JsVal, height: JsVal, weight: JsVal,
    bodyConditionScore: JsVal, notes: JsVal, recordedAt: Option<Instant>,
    createdAt: Instant, updatedAt: Instant)

  /** A row of `sensor_data`: its own serial id, so a livestock may have several. */
  datatype SensorRow = SensorRow(
    id: int, livestockId: int, temperature: JsVal, heartRate: JsVal,
    motionLevel: JsVal, sp02: JsVal, timestamp: Option<Instant>)

  /** A row of `anomalies` (no key column is ever read or written). */
  datatype Anomaly = Anomaly(
    livestockId: int, kind: JsVal, severity: JsVal, notes: JsVal,
    detectedAt: Option<Instant>, resolved: JsVal)

  /** A row of `devices`, keyed by the pair (livestock, device). */
  datatype Device = Device(livestockId: int, deviceId: int, lastUpdate: Option<Instant>)

  /** A row of `notifications`. */
  datatype Notification = Notification(
    id: int, userId: int, livestockId: int, message: JsVal, kind: JsVal,
    read: JsVal, sentAt: Option<Instant>)

  // Column selectors, passed to the operations of Relational.
  function UserKey(u: User): int { u.id }
  function UserEmail(u: User): JsVal { u.email }
  function FarmKey(f: Farm): int { f.id }
  function FarmOwner(f: Farm): int { f.userId }
  function LivestockKey(l: Livestock): int { l.id }
  function LivestockOwner(l: Livestock): int { l.userId }
  function LivestockSpecies(l: Livestock): JsVal { l.species }
  function LivestockStatus(l: Livestock): JsVal { l.status }
  function SensorKey(s: SensorRow): int { s.id }
  function SensorLivestock(s: SensorRow): int { s.livestockId }
  function AnomalyLivestock(a: Anomaly): int { a.livestockId }
  function DeviceLivestock(d: Device): int { d.livestockId }
  function DevicePair(d: Device): (int, int) { (d.livestockId, d.deviceId) }
  function NotificationKey(n: Notification): int { n.id }
  function NotificationOwner(n: Notification): int { n.userId }
  function NotificationLivestock(n: Notification): int { n.livestockId }

  /** Every value of a serial column lies below the sequence's next value. */
  ghost predicate SerialBelow<T(!new)>(s: seq<T>, key: T -> int, next: int)
  {
    forall x :: x in s ==> key(x) < next
  }

  /** The contents of the database: one sequence of rows per table, and the
      next value of each serial sequence behind an `id` column. */
  datatype Tables = Tables(
    users: seq<User>, farms: seq<Farm>, livestock: seq<Livestock>, sensorData: seq<SensorRow>,
    anomalies: seq<Anomaly>, devices: seq<Device>, notifications: seq<Notification>,
    nextUserId: int, nextFarmId: int, nextLivestockId: int, nextSensorId: int, nextNotificationId: int)

  /** A NOT NULL column of a row: it holds a value. */
  predicate NotNull(v: JsVal)
  {
    v != Null && v != Undefined
  }

  /** `users.email` and `users.role` are NOT NULL (`password` is a string). */
  ghost predicate UsersFilled(users: seq<User>)
  {
    forall u :: u in users ==> NotNull(u.email) && NotNull(u.role)
  }

  /** The constraints src/db/schema.ts declares: primary keys below their
      serial sequences, the non-null unique email and the non-null role, the
      (livestock, device) key and the foreign keys. (`anomalies` declares
      none.) */
  ghost predicate Consistent(t: Tables)
  {
    && UniqueBy(t.users, UserKey) && SerialBelow(t.users, UserKey, t.nextUserId)
    && UniqueBy(t.users, UserEmail) && UsersFilled(t.users)
    && UniqueBy(t.farms, FarmKey) && SerialBelow(t.farms, FarmKey, t.nextFarmId)
    && UniqueBy(t.livestock, LivestockKey) && SerialBelow(t.livestock, LivestockKey, t.nextLivestockId)
    && RefersTo(t.livestock, LivestockOwner, t.users, UserKey)
    && UniqueBy(t.sensorData, SensorKey) && SerialBelow(t.sensorData, SensorKey, t.nextSensorId)
    && RefersTo(t.sensorData, SensorLivestock, t.livestock, LivestockKey)
    && UniqueBy(t.devices, DevicePair)
    && RefersTo(t.devices, DeviceLivestock, t.livestock, LivestockKey)
    && UniqueBy(t.notifications, NotificationKey) && SerialBelow(t.notifications, NotificationKey, t.nextNotificationId)
    && RefersTo(t.notifications, NotificationOwner, t.users, UserKey)
    && RefersTo(t.notifications, NotificationLivestock, t.livestock, LivestockKey)
  }

  /** The database the handlers share. */
  class Db {
    var tables: Tables

    ghost predicate Valid()
      reads this
    {
      Consistent(tables)
    }

    /** An empty database; serial sequences start at 1. */
    constructor ()
      ensures Valid()
      ensures tables == Tables([], [], [], [], [], [], [], 1, 1, 1, 1, 1)
    {
      tables := Tables([], [], [], [], [], [], [], 1, 1, 1, 1, 1);
    }
  }

  /** The ownership lookup every livestock handler runs first:
      `SELECT … FROM livestock WHERE id = k AND user_id = caller LIMIT 1`. */
  function FindOwnedLivestock(rows: seq<Livestock>, k: int, caller: int): (r: Option<Livestock>)
    ensures r.Some? ==> r.value in rows && r.value.id == k && r.value.userId == caller
    ensures r.None? <==> forall l :: l in rows ==> l.id != k || l.userId != caller
  {
    First(Where(rows, LivestockKey, k), LivestockOwner, caller)
  }

  /** Appending a row whose key is at or above the serial bound keeps the key unique. */
  lemma AppendFresh<T(!new)>(s: seq<T>, key: T -> int, next: int, x: T)
    requires UniqueBy(s, key) && SerialBelow(s, key, next)
    requires key(x) == next
    ensures UniqueBy(s + [x], key) && SerialBelow(s + [x], key, next + 1)
  {
    var t := s + [x];
    forall i, j | 0 <= i < j < |t| ensures key(t[i]) != key(t[j]) {
      if j == |s| {
        assert t[i] in s;
      }
    }
  }

  /** The values of a column after an INSERT. */
  lemma AppendColumn<T(!new), K>(s: seq<T>, col: T -> K, x: T)
    ensures Column(s + [x], col) == Column(s, col) + {col(x)}
  {
    assert x in s + [x];
    forall y | y in s ensures y in s + [x] { }
  }

  /** Rewriting a farm row in place, keeping its id, keeps every constraint. */
  lemma UpdateFarmConsistent(t: Tables, prior: Farm, m: Farm)
    requires Consistent(t)
    requires prior in t.farms && m.id == prior.id
    ensures Consistent(t.(farms := Update(t.farms, FarmKey, prior.id, m)))
  {
    UpdateKeepsUnique(t.farms, FarmKey, prior.id, m, FarmKey);
  }

  /** Inserting a user with the next serial id and an email no user has yet
      keeps every constraint. */
  lemma InsertUserConsistent(t: Tables, u: User)
    requires Consistent(t)
    requires u.id == t.nextUserId && u.email !in Column(t.users, UserEmail)
    requires NotNull(u.email) && NotNull(u.role)
    ensures Consistent(t.(users := t.users + [u], nextUserId := t.nextUserId + 1))
  {
    AppendFresh(t.users, UserKey, t.nextUserId, u);
    AppendUnique(t.users, UserEmail, u);
    AppendColumn(t.users, UserKey, u);
    RefersToWider(t.livestock, LivestockOwner, t.users, t.users + [u], UserKey);
    RefersToWider(t.notifications, NotificationOwner, t.users, t.users + [u], UserKey);
  }

  /** Deleting a livestock, with the ON DELETE CASCADE of its sensor_data,
      devices and notifications rows, keeps every constraint. */
  lemma DeleteLivestockConsistent(t: Tables, k: int)
    requires Consistent(t)
    ensures Consistent(t.(livestock := Without(t.livestock, LivestockKey, k),
      sensorData := Without(t.sensorData, SensorLivestock, k),
      devices := Without(t.devices, DeviceLivestock, k),
      notifications := Without(t.notifications, NotificationLivestock, k)))
  {
    WithoutKeepsUnique(t.livestock, LivestockKey, k, LivestockKey);
    WithoutKeepsUnique(t.sensorData, SensorLivestock, k, SensorKey);
    WithoutKeepsUnique(t.devices, DeviceLivestock, k, DevicePair);
    WithoutKeepsUnique(t.notifications, NotificationLivestock, k, NotificationKey);
    RefersToWithout(t.livestock, LivestockKey, k, LivestockOwner, t.users, UserKey);
    RefersToCascade(t.sensorData, SensorLivestock, t.livestock, LivestockKey, k);
    RefersToCascade(t.devices, DeviceLivestock, t.livestock, LivestockKey, k);
    RefersToCascade(t.notifications, NotificationLivestock, t.livestock, LivestockKey, k);
    RefersToWithout(t.notifications, NotificationLivestock, k, NotificationOwner, t.users, UserKey);
  }

  /** The tables after inserting livestock `l` together with its first
      sensor reading and anomaly row; both serials advance. */
  function AddLivestock(t: Tables, l: Livestock, reading: SensorRow, a: Anomaly): Tables
  {
    t.(livestock := t.livestock + [l], sensorData := t.sensorData + [reading],
       anomalies := t.anomalies + [a], nextLivestockId := t.nextLivestockId + 1, nextSensorId := t.nextSensorId + 1)
  }

  /** Inserting a livestock owned by an existing user, with the next serial
      id, together with its placeholder sensor_data row (the next sensor id)
      and its anomaly row, keeps every constraint. */
  lemma InsertLivestockConsistent(t: Tables, l: Livestock, reading: SensorRow, a: Anomaly)
    requires Consistent(t)
    requires l.id == t.nextLivestockId && l.userId in Column(t.users, UserKey)
    requires reading.id == t.nextSensorId && reading.livestockId == l.id
    ensures Consistent(AddLivestock(t, l, reading, a))
  {
    var livestock' := t.livestock + [l];
    AppendFresh(t.livestock, LivestockKey, t.nextLivestockId, l);
    AppendColumn(t.livestock, LivestockKey, l);
    RefersToAppend(t.livestock, l, LivestockOwner, t.users, UserKey);
    RefersToWider(t.sensorData, SensorLivestock, t.livestock, livestock', LivestockKey);
    RefersToAppend(t.sensorData, reading, SensorLivestock, livestock', LivestockKey);
    RefersToWider(t.devices, DeviceLivestock, t.livestock, livestock', LivestockKey);
    RefersToWider(t.notifications, NotificationLivestock, t.livestock, livestock', LivestockKey);
    AppendFresh(t.sensorData, SensorKey, t.nextSensorId, reading);
  }

  /** Replacing the row with key `k` by a row with the same key and owner
      keeps every constraint. */
  lemma UpdateLivestockConsistent(t: Tables, prior: Livestock, m: Livestock)
    requires Consistent(t)
    requires prior in t.livestock && m.id == prior.id && m.userId == prior.userId
    ensures Consistent(t.(livestock := Update(t.livestock, LivestockKey, prior.id, m)))
  {
    forall l | l in t.livestock && l.id == prior.id ensures l.userId == m.userId {
      SameKeySameRow(t.livestock, LivestockKey, l, prior);
    }
    UpdateKeepsUnique(t.livestock, LivestockKey, prior.id, m, LivestockKey);
    UpdateKeepsColumn(t.livestock, LivestockKey, prior.id, m);
    assert m.userId in Column(t.users, UserKey);
  }

  /** Rewriting sensor_data rows in place, keeping each row's id and
      livestock, keeps every constraint. */
  lemma RewriteReadingsConsistent(t: Tables, rows: seq<SensorRow>)
    requires Consistent(t)
    requires |rows| == |t.sensorData|
    requires forall i :: 0 <= i < |rows| ==> rows[i].id == t.sensorData[i].id && rows[i].livestockId == t.sensorData[i].livestockId
    ensures Consistent(t.(sensorData := rows))
  {
    forall x | x in rows ensures x.id < t.nextSensorId && x.livestockId in Column(t.livestock, LivestockKey) {
      var i :| 0 <= i < |rows| && rows[i] == x;
      assert t.sensorData[i] in t.sensorData;
    }
  }

  /** Inserting a sensor_data row with the next serial id, for an existing
      livestock, keeps every constraint. */
  lemma InsertReadingConsistent(t: Tables, reading: SensorRow)
    requires Consistent(t)
    requires reading.id == t.nextSensorId && reading.livestockId in Column(t.livestock, LivestockKey)
    ensures Consistent(t.(sensorData := t.sensorData + [reading], nextSensorId := t.nextSensorId + 1))
  {
    AppendFresh(t.sensorData, SensorKey, t.nextSensorId, reading);
    RefersToAppend(t.sensorData, reading, SensorLivestock, t.livestock, LivestockKey);
  }
}
