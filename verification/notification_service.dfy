/** In-app notifications: creation, read state, deletion and the reminder
    bookkeeping the daily sweep relies on.  Message bodies are not modelled;
    a notification is its recipient, title, type and related appointment. */
module NotificationService {
  import opened Wrappers
  import opened Calendar
  import opened Entities
  import opened Errors
  import opened Store
  import Seqs
  import UserRepository

  const MillisPerHour: int := 3600000

  /** Milliseconds from midnight to 23:59:59, the last instant the
      "created today" test accepts. */
  const EndOfDayOffset: int := 86399000

  const TitleConfirmedClient := "Cita confirmada"
  const TitleConfirmedStylist := "Nueva cita asignada"
  const TitleCancelled := "Cita cancelada"
  const TitleReminder := "Recordatorio de cita"

  predicate UserExists(db: Db, id: UserId) {
    UserRepository.FindById(db.users, id).Some?
  }

  /** `createNotification`: stores an unread notification for an existing
      user, stamped with the current instant. */
  function CreateNotification(
    db: Db, user: UserId, title: string, kind: NotificationType, related: Option<AppointmentId>, now: int)
    : (r: Result<(Db, Notification), Error>)
    ensures r.Err? <==> !UserExists(db, user)
    ensures r.Err? ==> r.error == NotFound("User")
    ensures r.Ok? ==>
      var (db', n) := r.value;
      && db'.notifications == db.notifications + [n]
      && db' == db.(notifications := db'.notifications, nextNotificationId := db.nextNotificationId + 1)
      && n.id == db.nextNotificationId && n.user == user && n.title == title && n.kind == kind
      && !n.read && n.relatedAppointment == related && n.created == Some(now)
    ensures r.Ok? && db.Valid() ==> r.value.0.Valid()
  {
    if !UserExists(db, user) then Err(NotFound("User"))
    else
      var n := Notification(db.nextNotificationId, user, title, kind, false, related, Some(now));
      Ok((db.(notifications := db.notifications + [n], nextNotificationId := db.nextNotificationId + 1), n))
  }

  predicate IsUnreadOf(n: Notification, user: UserId) {
    n.user == user && !n.read
  }

  /** `countByUserAndReadFalse`. */
  function CountUnread(ns: seq<Notification>, user: UserId): nat {
    Seqs.Count(ns, (n: Notification) => IsUnreadOf(n, user))
  }

  /** `getUnreadCount`: the user's unread notifications, or 0 when the user
      is unknown (the error is swallowed). */
  function GetUnreadCount(db: Db, user: UserId): (r: nat)
    ensures !UserExists(db, user) ==> r == 0
    ensures r <= |db.notifications|
    ensures r == |Seqs.Filter(db.notifications, (n: Notification) => IsUnreadOf(n, user))| || !UserExists(db, user)
  {
    Seqs.CountIsFilterLength(db.notifications, (n: Notification) => IsUnreadOf(n, user));
    if UserExists(db, user) then CountUnread(db.notifications, user) else 0
  }

  /** A newly created notification adds one to its recipient's unread count. */
  lemma CreateNotificationCountsAsUnread(
    db: Db, user: UserId, title: string, kind: NotificationType, related: Option<AppointmentId>, now: int)
    requires UserExists(db, user)
    ensures var r := CreateNotification(db, user, title, kind, related, now);
      r.Ok? && GetUnreadCount(r.value.0, user) == GetUnreadCount(db, user) + 1
  {
    var r := CreateNotification(db, user, title, kind, related, now);
    var p := (n: Notification) => IsUnreadOf(n, user);
    CountAppend(db.notifications, [r.value.1], p);
    assert UserExists(r.value.0, user);
  }

  lemma {:induction false} CountAppend(a: seq<Notification>, b: seq<Notification>, p: Notification -> bool)
    ensures Seqs.Count(a + b, p) == Seqs.Count(a, p) + Seqs.Count(b, p)
    decreases |a|
  {
    if |a| == 0 {
      assert a + b == b;
    } else {
      assert (a + b)[1..] == a[1..] + b;
      CountAppend(a[1..], b, p);
    }
  }

  /** Index of the notification with key `id`. */
  function IndexOf(ns: seq<Notification>, id: NotificationId): (r: Option<nat>)
    ensures r.Some? ==> r.value < |ns| && ns[r.value].id == id
    ensures r.None? <==> forall i :: 0 <= i < |ns| ==> ns[i].id != id
  {
    Seqs.IndexWhere(ns, (n: Notification) => n.id == id)
  }

  /** The notification exists and belongs to `user`; anything else is
      reported as "not found" so that other users' notifications stay hidden. */
  predicate OwnedBy(db: Db, id: NotificationId, user: UserId) {
    var i := IndexOf(db.notifications, id);
    i.Some? && db.notifications[i.value].user == user
  }

  /** `markAsRead`. */
  function MarkAsRead(db: Db, id: NotificationId, user: UserId): (r: Result<(Db, Notification), Error>)
    ensures r.Err? <==> !OwnedBy(db, id, user)
    ensures r.Err? ==> r.error == NotFound("Notification")
    ensures r.Ok? ==>
      var (db', n) := r.value;
      && n.id == id && n.user == user && n.read
      && db' == db.(notifications := db'.notifications)
      && |db'.notifications| == |db.notifications|
      && (forall k :: 0 <= k < |db.notifications| ==>
            db'.notifications[k] == db.notifications[k] || (db.notifications[k].id == id && db'.notifications[k] == n))
      && n in db'.notifications
    ensures r.Ok? ==>
      var i := IndexOf(db.notifications, id).value;
      && r.value.1 == db.notifications[i].(read := true)
      && r.value.0 == db.(notifications := db.notifications[i := r.value.1])
  {
    if !OwnedBy(db, id, user) then Err(NotFound("Notification"))
    else
      var i := IndexOf(db.notifications, id).value;
      var n := db.notifications[i].(read := true);
      Ok((db.(notifications := db.notifications[i := n]), n))
  }

  /** Marking as read a second time changes nothing more. */
  lemma MarkAsReadIdempotent(db: Db, id: NotificationId, user: UserId)
    requires db.Valid()
    requires MarkAsRead(db, id, user).Ok?
    ensures var db1 := MarkAsRead(db, id, user).value.0;
      MarkAsRead(db1, id, user) == Ok((db1, MarkAsRead(db, id, user).value.1))
  {
    var i := IndexOf(db.notifications, id).value;
    var db1 := MarkAsRead(db, id, user).value.0;
    var j := IndexOf(db1.notifications, id).value;
    assert db1.notifications[i].id == id;
    assert db1.notifications[j := db1.notifications[j].(read := true)] == db1.notifications;
  }

  /** A row after `markAllAsRead` for `user`: the user's rows are read,
      everything else about every row is kept. */
  function ReadIfOwned(n: Notification, user: UserId): (m: Notification)
    ensures m == n.(read := m.read)
    ensures m.read <==> n.read || n.user == user
  {
    if n.user == user then n.(read := true) else n
  }

  /** `markAllAsRead`: every notification of an existing user becomes read;
      other users' notifications are untouched. */
  function MarkAllAsRead(db: Db, user: UserId): (r: Result<Db, Error>)
    ensures r.Err? <==> !UserExists(db, user)
    ensures r.Err? ==> r.error == NotFound("User")
    ensures r.Ok? ==>
      && r.value == db.(notifications := r.value.notifications)
      && |r.value.notifications| == |db.notifications|
      && (forall k :: 0 <= k < |db.notifications| ==>
            var before, after := db.notifications[k], r.value.notifications[k];
            after == before.(read := before.read || before.user == user))
  {
    if !UserExists(db, user) then Err(NotFound("User"))
    else Ok(db.(notifications := Seqs.Map(db.notifications, (n: Notification) => ReadIfOwned(n, user))))
  }

  lemma {:induction false} NoUnreadLeft(ns: seq<Notification>, user: UserId)
    requires forall k :: 0 <= k < |ns| ==> ns[k].user == user ==> ns[k].read
    ensures CountUnread(ns, user) == 0
    decreases |ns|
  {
    if |ns| > 0 {
      NoUnreadLeft(ns[1..], user);
    }
  }

  /** After marking everything read the user has no unread notification. */
  lemma MarkAllAsReadLeavesNoneUnread(db: Db, user: UserId)
    requires UserExists(db, user)
    ensures GetUnreadCount(MarkAllAsRead(db, user).value, user) == 0
  {
    var db' := MarkAllAsRead(db, user).value;
    NoUnreadLeft(db'.notifications, user);
    assert UserExists(db', user);
  }

  /** `deleteNotification`: only the owner can delete; the row is removed. */
  function DeleteNotification(db: Db, id: NotificationId, user: UserId): (r: Result<Db, Error>)
    ensures r.Err? <==> !OwnedBy(db, id, user)
    ensures r.Err? ==> r.error == NotFound("Notification")
    ensures r.Ok? ==>
      && r.value == db.(notifications := r.value.notifications)
      && |r.value.notifications| == |db.notifications| - 1
      && (forall n :: n in r.value.notifications ==> n in db.notifications)
  {
    if !OwnedBy(db, id, user) then Err(NotFound("Notification"))
    else
      var i := IndexOf(db.notifications, id).value;
      Ok(db.(notifications := db.notifications[..i] + db.notifications[i + 1..]))
  }

  /** Deleting removes exactly the notification with that key. */
  lemma DeleteNotificationRemovesIt(db: Db, id: NotificationId, user: UserId)
    requires db.Valid() && OwnedBy(db, id, user)
    ensures forall n :: n in DeleteNotification(db, id, user).value.notifications <==>
      n in db.notifications && n.id != id
  {
    var i := IndexOf(db.notifications, id).value;
    RemoveAtRemovesKey(db.notifications, i, id);
  }

  /** Cutting the one row with a key out of a table with unique keys leaves
      exactly the rows with other keys. */
  lemma RemoveAtRemovesKey(ns: seq<Notification>, i: nat, id: NotificationId)
    requires i < |ns| && ns[i].id == id
    requires forall a, b :: 0 <= a < b < |ns| ==> ns[a].id != ns[b].id
    ensures forall n :: n in ns[..i] + ns[i + 1..] <==> n in ns && n.id != id
  {
    var rest := ns[..i] + ns[i + 1..];
    forall n | n in ns && n.id != id ensures n in rest {
      var k :| 0 <= k < |ns| && ns[k] == n;
      if k < i { assert rest[k] == n; } else { assert rest[k - 1] == n; }
    }
    forall n | n in rest ensures n in ns && n.id != id {
      var k :| 0 <= k < |rest| && rest[k] == n;
      if k < i { assert ns[k] == n; } else { assert ns[k + 1] == n; }
    }
  }

  predicate IsReminderFor(n: Notification, appointment: AppointmentId) {
    n.relatedAppointment == Some(appointment) && n.kind == AppointmentReminder
  }

  /** `hasReminderForAppointment`. */
  function HasReminderForAppointment(db: Db, appointment: AppointmentId): (r: bool)
    ensures r <==> exists n :: n in db.notifications && IsReminderFor(n, appointment)
  {
    var found := Seqs.Filter(db.notifications, (n: Notification) => IsReminderFor(n, appointment));
    assert found != [] ==> found[0] in found;
    found != []
  }

  /** Created between today's midnight and 23:59:59 inclusive. */
  predicate CreatedOn(n: Notification, today: Day) {
    n.created.Some? && today * MillisPerDay <= n.created.value <= today * MillisPerDay + EndOfDayOffset
  }

  /** `hasReminderForAppointmentToday`: some reminder for the appointment was
      created today, no later than 23:59:59. */
  function HasReminderForAppointmentToday(db: Db, appointment: AppointmentId, today: Day): (r: bool)
    ensures r <==> exists n :: n in db.notifications && IsReminderFor(n, appointment) && CreatedOn(n, today)
    ensures r ==> HasReminderForAppointment(db, appointment)
  {
    var found := Seqs.Filter(db.notifications, (n: Notification) => IsReminderFor(n, appointment) && CreatedOn(n, today));
    assert found != [] ==> found[0] in found;
    found != []
  }

  /** A reminder created in the last second of the day is not seen as sent
      that day. */
  lemma LastSecondReminderNotSeen(db: Db, appointment: AppointmentId, today: Day, n: Notification)
    requires db.notifications == [n] && IsReminderFor(n, appointment)
    requires n.created == Some(today * MillisPerDay + EndOfDayOffset + 500)
    ensures HasReminderForAppointment(db, appointment)
    ensures !HasReminderForAppointmentToday(db, appointment, today)
  {
  }

  /** A notification one of `NotifyPair`'s two calls creates for `a`. */
  predicate IsPairNotice(
    n: Notification, a: Appointment, kind: NotificationType, clientTitle: string, stylistTitle: string, now: int)
  {
    && n.kind == kind && n.relatedAppointment == Some(a.id) && n.created == Some(now) && !n.read
    && ((n.user == a.client && n.title == clientTitle) || (n.user == a.stylist && n.title == stylistTitle))
  }

  /** The two notices of an appointment event when both users exist: an
      unread one for the client and then one for the stylist, under the next
      two notification keys. */
  function PairNotices(
    db: Db, a: Appointment, kind: NotificationType, clientTitle: string, stylistTitle: string, now: int)
    : seq<Notification>
  {
    [Notification(db.nextNotificationId, a.client, clientTitle, kind, false, Some(a.id), Some(now)),
     Notification(db.nextNotificationId + 1, a.stylist, stylistTitle, kind, false, Some(a.id), Some(now))]
  }

  /** The client notification, then the stylist's, inside one `try` block: a
      failure on the first skips the second, a failure is never reported. */
  function NotifyPair(
    db: Db, a: Appointment, kind: NotificationType, clientTitle: string, stylistTitle: string, now: int)
    : (db': Db)
    ensures |db.notifications| <= |db'.notifications| <= |db.notifications| + 2
    ensures db'.notifications[..|db.notifications|] == db.notifications
    ensures forall j :: |db.notifications| <= j < |db'.notifications| ==>
      IsPairNotice(db'.notifications[j], a, kind, clientTitle, stylistTitle, now)
    ensures UserExists(db, a.client) ==>
      |db'.notifications| > |db.notifications|
      && db'.notifications[|db.notifications|].user == a.client
      && db'.notifications[|db.notifications|].title == clientTitle
    ensures UserExists(db, a.client) && UserExists(db, a.stylist) ==>
      |db'.notifications| == |db.notifications| + 2
      && db'.notifications[|db.notifications| + 1].user == a.stylist
      && db'.notifications[|db.notifications| + 1].title == stylistTitle
    ensures !UserExists(db, a.client) ==> db' == db
    ensures UserExists(db, a.client) && UserExists(db, a.stylist) ==>
      && db'.notifications == db.notifications + PairNotices(db, a, kind, clientTitle, stylistTitle, now)
      && db'.nextNotificationId == db.nextNotificationId + 2
    ensures db' == db.(notifications := db'.notifications, nextNotificationId := db'.nextNotificationId)
    ensures db.Valid() ==> db'.Valid()
  {
    match CreateNotification(db, a.client, clientTitle, kind, Some(a.id), now)
    case Err(_) => db
    case Ok((db1, _)) =>
      assert UserExists(db1, a.stylist) == UserExists(db, a.stylist);
      match CreateNotification(db1, a.stylist, stylistTitle, kind, Some(a.id), now)
      case Err(_) => db1
      case Ok((db2, _)) => db2
  }

  /** `sendAppointmentReminder`: when the appointment is more than 24 hours
      away, a reminder to the client and then one to the stylist; each is
      saved on its own, and errors are swallowed. */
  function SendAppointmentReminder(db: Db, a: Appointment, now: int): (db': Db)
    ensures InstantOf(a.date, a.startTime) - 24 * MillisPerHour <= now ==> db' == db
    ensures InstantOf(a.date, a.startTime) - 24 * MillisPerHour > now && UserExists(db, a.client)
      ==> HasReminderForAppointment(db', a.id)
    ensures InstantOf(a.date, a.startTime) - 24 * MillisPerHour > now ==>
      db' == NotifyPair(db, a, AppointmentReminder, TitleReminder, TitleReminder, now)
    ensures (InstantOf(a.date, a.startTime) - 24 * MillisPerHour > now
             && UserExists(db, a.client) && UserExists(db, a.stylist)) ==>
      db'.notifications == db.notifications + PairNotices(db, a, AppointmentReminder, TitleReminder, TitleReminder, now)
    ensures forall n :: n in db.notifications ==> n in db'.notifications
  {
    if InstantOf(a.date, a.startTime) - 24 * MillisPerHour > now then
      var db2 := NotifyPair(db, a, AppointmentReminder, TitleReminder, TitleReminder, now);
      assert UserExists(db, a.client) ==> db2.notifications[|db.notifications|] in db2.notifications;
      db2
    else db
  }

  /** A reminder sent more than a day ahead reaches both parties: each of
      client and stylist has one more unread notification. */
  lemma ReminderReachesBoth(db: Db, a: Appointment, now: int)
    requires InstantOf(a.date, a.startTime) - 24 * MillisPerHour > now
    requires UserExists(db, a.client) && UserExists(db, a.stylist) && a.client != a.stylist
    ensures var db' := SendAppointmentReminder(db, a, now);
      && GetUnreadCount(db', a.client) == GetUnreadCount(db, a.client) + 1
      && GetUnreadCount(db', a.stylist) == GetUnreadCount(db, a.stylist) + 1
  {
    var db' := SendAppointmentReminder(db, a, now);
    var pair := PairNotices(db, a, AppointmentReminder, TitleReminder, TitleReminder, now);
    assert db'.users == db.users;
    CountAppend(db.notifications, pair, (n: Notification) => IsUnreadOf(n, a.client));
    CountAppend(db.notifications, pair, (n: Notification) => IsUnreadOf(n, a.stylist));
    CountPair(pair, a.client);
    CountPair(pair, a.stylist);
  }

  /** The unread count of a two-row sequence. */
  lemma CountPair(pair: seq<Notification>, user: UserId)
    requires |pair| == 2
    ensures CountUnread(pair, user) ==
      (if IsUnreadOf(pair[0], user) then 1 else 0) + (if IsUnreadOf(pair[1], user) then 1 else 0)
  {
    var p := (n: Notification) => IsUnreadOf(n, user);
    assert pair[1..][1..] == [];
    assert Seqs.Count(pair[1..], p) == (if p(pair[1]) then 1 else 0) + Seqs.Count(pair[1..][1..], p);
  }
}
