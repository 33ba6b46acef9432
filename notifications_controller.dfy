/** src/controllers/notificationsController.ts: two read-only reports over
    notifications, joined with the livestock they concern and, for the
    detailed one, with that livestock's sensor readings. */
module NotificationsController {
  import opened Values
  import opened Relational
  import opened Schema

  /** A notification and the livestock it concerns. */
  type NotificationRow = Pair<Notification, Livestock>

  /** A notification, its livestock and one of that livestock's readings. */
  type NotificationDetail = Pair<NotificationRow, SensorRow>

  function Concerns(n: Notification, l: Livestock): bool { n.livestockId == l.id }
  function ReadingFor(p: NotificationRow, s: SensorRow): bool { s.livestockId == p.right.id }
  function RowOwner(p: NotificationRow): int { p.left.userId }
  function DetailOwner(d: NotificationDetail): int { d.left.left.userId }

  /** `sent_at`, as `ORDER BY sent_at DESC` compares it. */
  function SentKey(p: NotificationRow): Key
  {
    if p.left.sentAt.None? then NullKey else IntKey(p.left.sentAt.value.ms)
  }

  /** A row of `notifications INNER JOIN livestock ON livestock_id = livestock.id
      WHERE notifications.user_id = u`. */
  ghost predicate Notified(t: Tables, u: int, p: NotificationRow)
  {
    p.left in t.notifications && p.right in t.livestock && p.left.livestockId == p.right.id && p.left.userId == u
  }

  /** The rows of that query, before ordering. */
  function UserNotifications(t: Tables, u: int): (r: seq<NotificationRow>)
    ensures forall p :: p in r <==> Notified(t, u, p)
  {
    Where(Join(t.notifications, t.livestock, Concerns), RowOwner, u)
  }

  /** `… ORDER BY sent_at DESC LIMIT 4` over the user's rows: as many of them
      as the limit allows, newest first (NULL first), and none older than a
      row left out. */
  function LatestNotifications(t: Tables, u: int): (rows: seq<NotificationRow>)
    ensures var all := UserNotifications(t, u);
      && |rows| == (if |all| <= 4 then |all| else 4)
      && multiset(rows) <= multiset(all)
      && SortedDesc(rows, SentKey)
      && (rows != [] ==> forall p :: p in multiset(all) - multiset(rows) ==> NoLater(SentKey(rows[|rows| - 1]), SentKey(p)))
    ensures forall p :: p in rows ==> Notified(t, u, p)
  {
    var all := UserNotifications(t, u);
    var rows := Limit(SortDesc(all, SentKey), 4);
    TopRows(all, SentKey, 4);
    SubMultisetMembers(rows, all);
    rows
  }

  /** Over a consistent database each of the user's notifications appears
      once in the joined rows (its livestock is unique), and so at most once
      among the latest four. */
  lemma NotificationsDistinct(t: Tables, u: int)
    requires Consistent(t)
    ensures Distinct(UserNotifications(t, u))
    ensures Distinct(LatestNotifications(t, u))
  {
    UniqueDistinct(t.notifications, NotificationKey);
    UniqueDistinct(t.livestock, LivestockKey);
    JoinDistinct(t.notifications, t.livestock, Concerns);
    WhereDistinct(Join(t.notifications, t.livestock, Concerns), RowOwner, u);
    SubMultisetDistinct(LatestNotifications(t, u), UserNotifications(t, u));
  }

  /** GET /notifications/recent/:userId. `userId` is `Number` of the path
      segment; NaN reaches Postgres as an integer and fails there. */
  function GetRecentNotifications(t: Tables, userId: Option<int>): (r: Reply<seq<NotificationRow>>)
    ensures userId.None? ==> r == Fail(SERVER_ERROR)
    ensures r.status == OK <==> r.data.Some?
    ensures r.data.Some? ==>
      userId.Some? && r.data.value != [] && r.data.value == LatestNotifications(t, userId.value)
    ensures userId.Some? && r.data.None? ==>
      r == Fail(NOT_FOUND) && forall p :: !Notified(t, userId.value, p)
  {
    if userId.None? then Fail(SERVER_ERROR)
    else
      var rows := LatestNotifications(t, userId.value);
      if rows == [] then
        assert UserNotifications(t, userId.value) == [];
        Fail(NOT_FOUND)
      else Reply(OK, Some(rows))
  }

  /** A row of the detailed report for user `u`: a notification of `u`, its
      livestock, and a reading of that livestock. */
  ghost predicate Detailed(t: Tables, u: int, d: NotificationDetail)
  {
    && Notified(t, u, d.left)
    && d.right in t.sensorData && d.right.livestockId == d.left.right.id
  }

  /** GET /notifications/details/:userId: every notification of the user with
      its livestock and each of that livestock's readings. */
  function GetNotificationsWithLivestockAndSensorData(t: Tables, userId: Option<int>): (r: Reply<seq<NotificationDetail>>)
    ensures userId.None? ==> r == Fail(SERVER_ERROR)
    ensures r.status == OK <==> r.data.Some?
    ensures r.data.Some? ==>
      && userId.Some? && r.data.value != []
      && forall d :: d in r.data.value <==> Detailed(t, userId.value, d)
    ensures userId.Some? && r.data.None? ==>
      r == Fail(NOT_FOUND) && forall d :: !Detailed(t, userId.value, d)
  {
    if userId.None? then Fail(SERVER_ERROR)
    else
      var rows := Where(Join(Join(t.notifications, t.livestock, Concerns), t.sensorData, ReadingFor), DetailOwner, userId.value);
      if rows == [] then Fail(NOT_FOUND) else Reply(OK, Some(rows))
  }

  /** Over a consistent database, the detailed report has exactly one row per
      pair of a notification of the user and a reading of the livestock it
      concerns. */
  lemma OneDetailPerPair(t: Tables, u: int, n: Notification, s: SensorRow)
    requires Consistent(t)
    requires n in t.notifications && n.userId == u && s in t.sensorData && s.livestockId == n.livestockId
    ensures exists l :: Detailed(t, u, Pair(Pair(n, l), s))
    ensures forall d :: Detailed(t, u, d) && d.left.left == n && d.right == s ==> d.left.right.id == n.livestockId
    ensures forall d, e :: Detailed(t, u, d) && Detailed(t, u, e) && d.left.left == e.left.left && d.right == e.right ==> d == e
    ensures var r := GetNotificationsWithLivestockAndSensorData(t, Some(u));
      r.data.Some? && Distinct(r.data.value)
  {
    var l :| l in t.livestock && l.id == n.livestockId;
    assert Detailed(t, u, Pair(Pair(n, l), s));
    forall d, e | Detailed(t, u, d) && Detailed(t, u, e) && d.left.left == e.left.left && d.right == e.right
      ensures d == e
    {
      SameKeySameRow(t.livestock, LivestockKey, d.left.right, e.left.right);
    }
    UniqueDistinct(t.notifications, NotificationKey);
    UniqueDistinct(t.livestock, LivestockKey);
    UniqueDistinct(t.sensorData, SensorKey);
    var joined := Join(t.notifications, t.livestock, Concerns);
    JoinDistinct(t.notifications, t.livestock, Concerns);
    JoinDistinct(joined, t.sensorData, ReadingFor);
    WhereDistinct(Join(joined, t.sensorData, ReadingFor), DetailOwner, u);
  }
}
