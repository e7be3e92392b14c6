/** The daily reminder sweep: every confirmed appointment of tomorrow that
    has not had a reminder today gets one for its client and its stylist. */
module ReminderScheduler {
  import opened Wrappers
  import opened Calendar
  import opened Entities
  import opened Store
  import Seqs
  import AppointmentRepository
  import NotificationService

  const TitleReminderTomorrow := "Recordatorio de cita mañana"

  /** The appointments a sweep on `today` visits, earliest first. */
  function Due(db: Db, today: Day): (r: seq<Appointment>)
    ensures forall a :: a in r <==> a in db.appointments && a.date == today + 1 && a.status == Confirmada
    ensures AppointmentRepository.SortedByStart(r)
    ensures multiset(r) <= multiset(db.appointments)
  {
    AppointmentRepository.FindByDateAndStatusOrderByStartTime(db.appointments, today + 1, Confirmada)
  }

  /** A notification the sweep creates for appointment `a`. */
  predicate IsSweepReminder(n: Notification, a: Appointment, now: int) {
    NotificationService.IsPairNotice(n, a, AppointmentReminder, TitleReminderTomorrow, TitleReminderTomorrow, now)
  }

  /** One step of the sweep: reminders for `a` unless one was created today. */
  function Visit(cur: Db, a: Appointment, clock: Clock): (next: Db)
    ensures next == cur.(notifications := next.notifications, nextNotificationId := next.nextNotificationId)
    ensures |next.notifications| >= |cur.notifications|
    ensures next.notifications[..|cur.notifications|] == cur.notifications
    ensures cur.Valid() ==> next.Valid()
    ensures forall j :: |cur.notifications| <= j < |next.notifications| ==>
      IsSweepReminder(next.notifications[j], a, clock.Now())
    ensures NotificationService.HasReminderForAppointmentToday(cur, a.id, clock.today) ==> next == cur
    ensures !NotificationService.HasReminderForAppointmentToday(cur, a.id, clock.today) ==>
      next == NotificationService.NotifyPair(
        cur, a, AppointmentReminder, TitleReminderTomorrow, TitleReminderTomorrow, clock.Now())
    ensures clock.Valid() && clock.millisOfDay <= NotificationService.EndOfDayOffset
      && NotificationService.UserExists(cur, a.client)
      ==> NotificationService.HasReminderForAppointmentToday(next, a.id, clock.today)
  {
    if NotificationService.HasReminderForAppointmentToday(cur, a.id, clock.today) then cur
    else
      var next := NotificationService.NotifyPair(
        cur, a, AppointmentReminder, TitleReminderTomorrow, TitleReminderTomorrow, clock.Now());
      if NotificationService.UserExists(cur, a.client) then
        var c := next.notifications[|cur.notifications|];
        assert c in next.notifications && NotificationService.IsReminderFor(c, a.id);
        next
      else next
  }

  /** The visits of `due` in order, as a fold: the sweep's reference. */
  function Sweep(db: Db, due: seq<Appointment>, clock: Clock): (r: Db)
    ensures r == db.(notifications := r.notifications, nextNotificationId := r.nextNotificationId)
    decreases |due|
  {
    if |due| == 0 then db
    else Visit(Sweep(db, due[..|due| - 1], clock), due[|due| - 1], clock)
  }

  /** No two appointments in `due` share a key. */
  predicate KeysDistinct(due: seq<Appointment>) {
    forall i, j :: 0 <= i < j < |due| ==> due[i].id != due[j].id
  }

  /** `a` had no reminder created today and both its users are stored. */
  predicate Fresh(db: Db, a: Appointment, today: Day) {
    && !NotificationService.HasReminderForAppointmentToday(db, a.id, today)
    && NotificationService.UserExists(db, a.client)
    && NotificationService.UserExists(db, a.stylist)
  }

  /** Among the rows appended to `db`, a reminder of `a` for its client is
      immediately followed by one for its stylist. */
  ghost predicate RemindedPair(db: Db, cur: Db, a: Appointment, now: int) {
    exists j :: |db.notifications| <= j && j + 1 < |cur.notifications|
      && cur.notifications[j].user == a.client && IsSweepReminder(cur.notifications[j], a, now)
      && cur.notifications[j + 1].user == a.stylist && IsSweepReminder(cur.notifications[j + 1], a, now)
  }

  /** `sendAppointmentReminders`: visits the due appointments in order and
      skips those that already have a reminder created today; a failure on
      one appointment is swallowed and the sweep goes on. */
  method SendAppointmentReminders(db: Db, clock: Clock) returns (db': Db)
    ensures db' == db.(notifications := db'.notifications, nextNotificationId := db'.nextNotificationId)
    ensures |db'.notifications| >= |db.notifications|
    ensures db'.notifications[..|db.notifications|] == db.notifications
    ensures db.Valid() ==> db'.Valid()
    ensures forall j :: |db.notifications| <= j < |db'.notifications| ==>
      exists a :: a in Due(db, clock.today) && IsSweepReminder(db'.notifications[j], a, clock.Now())
    ensures clock.Valid() && clock.millisOfDay <= NotificationService.EndOfDayOffset ==>
      forall a :: a in Due(db, clock.today) && NotificationService.UserExists(db, a.client) ==>
        NotificationService.HasReminderForAppointmentToday(db', a.id, clock.today)
    ensures (forall a :: a in Due(db, clock.today) ==>
              NotificationService.HasReminderForAppointmentToday(db, a.id, clock.today))
      ==> db' == db
    ensures db.Valid() ==>
      forall a :: a in Due(db, clock.today) && Fresh(db, a, clock.today) ==> RemindedPair(db, db', a, clock.Now())
    ensures db' == Sweep(db, Due(db, clock.today), clock)
  {
    var due := Due(db, clock.today);
    db' := db;
    var i := 0;
    while i < |due|
      invariant 0 <= i <= |due|
      invariant db' == Sweep(db, due[..i], clock)
    {
      SweepStep(db, due, i, clock);
      db' := Visit(db', due[i], clock);
      i := i + 1;
    }
    assert due[..|due|] == due;
    SweepFacts(db, db', clock);
  }

  /** What the fold over the due appointments amounts to. */
  lemma SweepFacts(db: Db, cur: Db, clock: Clock)
    requires cur == Sweep(db, Due(db, clock.today), clock)
    ensures cur == db.(notifications := cur.notifications, nextNotificationId := cur.nextNotificationId)
    ensures |cur.notifications| >= |db.notifications|
    ensures cur.notifications[..|db.notifications|] == db.notifications
    ensures db.Valid() ==> cur.Valid()
    ensures forall j :: |db.notifications| <= j < |cur.notifications| ==>
      exists a :: a in Due(db, clock.today) && IsSweepReminder(cur.notifications[j], a, clock.Now())
    ensures clock.Valid() && clock.millisOfDay <= NotificationService.EndOfDayOffset ==>
      forall a :: a in Due(db, clock.today) && NotificationService.UserExists(db, a.client) ==>
        NotificationService.HasReminderForAppointmentToday(cur, a.id, clock.today)
    ensures (forall a :: a in Due(db, clock.today) ==>
              NotificationService.HasReminderForAppointmentToday(db, a.id, clock.today))
      ==> cur == db
    ensures db.Valid() ==>
      forall a :: a in Due(db, clock.today) && Fresh(db, a, clock.today) ==> RemindedPair(db, cur, a, clock.Now())
  {
    var due := Due(db, clock.today);
    SweepInvAt(db, due, |due|, clock);
    assert due[..|due|] == due;
    if db.Valid() {
      DueKeysDistinct(db, clock.today);
    }
    SweepDone(db, cur, due, clock);
    SweepPairsDone(db, cur, due, clock);
  }

  /** The fold over `due[..i]` satisfies the sweep's invariant. */
  lemma {:induction false} SweepInvAt(db: Db, due: seq<Appointment>, i: nat, clock: Clock)
    requires i <= |due|
    ensures SweepInv(db, Sweep(db, due[..i], clock), due, i, clock)
  {
    if i == 0 {
      assert due[..0] == [];
      SweepStart(db, due, clock);
    } else {
      SweepInvAt(db, due, i - 1, clock);
      SweepStep(db, due, i - 1, clock);
      Step(db, Sweep(db, due[..i - 1], clock), Sweep(db, due[..i], clock), due, i - 1, clock);
    }
  }

  /** One more visit extends the fold by one step. */
  lemma SweepStep(db: Db, due: seq<Appointment>, i: nat, clock: Clock)
    requires i < |due|
    ensures Sweep(db, due[..i + 1], clock) == Visit(Sweep(db, due[..i], clock), due[i], clock)
  {
    assert due[..i + 1][..i] == due[..i];
  }

  /** The store's unique appointment keys stay unique among the due ones. */
  lemma DueKeysDistinct(db: Db, today: Day)
    requires db.Valid()
    ensures KeysDistinct(Due(db, today))
  {
    var due := Due(db, today);
    UniqueKeysNoRepeats(db.appointments);
    Seqs.DistinctSubMultiset(due, db.appointments);
    DistinctRowsDistinctKeys(due, db.appointments);
  }

  predicate UniqueKeys(appts: seq<Appointment>) {
    forall i, j :: 0 <= i < j < |appts| ==> appts[i].id != appts[j].id
  }

  /** Rows with unique keys are pairwise different. */
  lemma UniqueKeysNoRepeats(appts: seq<Appointment>)
    requires UniqueKeys(appts)
    ensures Seqs.Distinct(appts)
  {
    forall i, j | 0 <= i < j < |appts| ensures appts[i] != appts[j] {
      assert appts[i].id != appts[j].id;
    }
  }

  /** Different rows taken from a table with unique keys have different
      keys. */
  lemma DistinctRowsDistinctKeys(due: seq<Appointment>, appts: seq<Appointment>)
    requires Seqs.Distinct(due) && UniqueKeys(appts)
    requires forall a :: a in due ==> a in appts
    ensures KeysDistinct(due)
  {
    forall i, j | 0 <= i < j < |due| ensures due[i].id != due[j].id {
      assert due[i] in due && due[j] in due;
      var p :| 0 <= p < |appts| && appts[p] == due[i];
      var q :| 0 <= q < |appts| && appts[q] == due[j];
      assert p != q;
    }
  }

  /** Every due appointment already has a reminder created today. */
  ghost predicate AllSent(db: Db, due: seq<Appointment>, today: Day) {
    forall a :: a in due ==> NotificationService.HasReminderForAppointmentToday(db, a.id, today)
  }

  /** `cur` differs from `db` only by notifications appended at the end. */
  ghost predicate Extends(db: Db, cur: Db) {
    && cur == db.(notifications := cur.notifications, nextNotificationId := cur.nextNotificationId)
    && |cur.notifications| >= |db.notifications|
    && cur.notifications[..|db.notifications|] == db.notifications
  }

  /** Every notification past `start` is a reminder for one of `due[..i]`. */
  ghost predicate AppendedReminders(start: nat, cur: Db, due: seq<Appointment>, i: nat, clock: Clock) {
    forall j :: start <= j < |cur.notifications| ==>
      exists k :: 0 <= k < i && k < |due| && IsSweepReminder(cur.notifications[j], due[k], clock.Now())
  }

  /** Every appointment of `due[..i]` with a known client is reminded today. */
  ghost predicate VisitedReminded(db: Db, cur: Db, due: seq<Appointment>, i: nat, clock: Clock) {
    clock.Valid() && clock.millisOfDay <= NotificationService.EndOfDayOffset ==>
      forall k :: 0 <= k < i && k < |due| && NotificationService.UserExists(db, due[k].client) ==>
        NotificationService.HasReminderForAppointmentToday(cur, due[k].id, clock.today)
  }

  /** The state of the sweep after visiting `due[..i]`: only notifications
      were appended, each a reminder for a visited appointment; every
      visited appointment with a known client is reminded today; and when
      everything was already sent, nothing changed. */
  ghost predicate SweepInv(db: Db, cur: Db, due: seq<Appointment>, i: nat, clock: Clock) {
    && i <= |due|
    && Extends(db, cur)
    && (db.Valid() ==> cur.Valid())
    && AppendedReminders(|db.notifications|, cur, due, i, clock)
    && VisitedReminded(db, cur, due, i, clock)
    && (AllSent(db, due, clock.today) ==> cur == db)
    && (KeysDistinct(due) ==> PairsSent(db, cur, due, i, clock))
  }

  /** Every fresh appointment of `due[..i]` got its pair of reminders. */
  ghost predicate PairsSent(db: Db, cur: Db, due: seq<Appointment>, i: nat, clock: Clock) {
    forall k :: 0 <= k < i && k < |due| && Fresh(db, due[k], clock.today) ==>
      RemindedPair(db, cur, due[k], clock.Now())
  }

  lemma SweepStart(db: Db, due: seq<Appointment>, clock: Clock)
    ensures SweepInv(db, db, due, 0, clock)
  {
    assert db.notifications[..|db.notifications|] == db.notifications;
  }

  /** The invariant after the last visit gives the sweep's contract. */
  lemma SweepDone(db: Db, cur: Db, due: seq<Appointment>, clock: Clock)
    requires due == Due(db, clock.today) && SweepInv(db, cur, due, |due|, clock)
    ensures forall j :: |db.notifications| <= j < |cur.notifications| ==>
      exists a :: a in Due(db, clock.today) && IsSweepReminder(cur.notifications[j], a, clock.Now())
    ensures clock.Valid() && clock.millisOfDay <= NotificationService.EndOfDayOffset ==>
      forall a :: a in Due(db, clock.today) && NotificationService.UserExists(db, a.client) ==>
        NotificationService.HasReminderForAppointmentToday(cur, a.id, clock.today)
  {
    forall j | |db.notifications| <= j < |cur.notifications|
      ensures exists a :: a in due && IsSweepReminder(cur.notifications[j], a, clock.Now())
    {
      var k :| 0 <= k < |due| && IsSweepReminder(cur.notifications[j], due[k], clock.Now());
      assert due[k] in due;
    }
    if clock.Valid() && clock.millisOfDay <= NotificationService.EndOfDayOffset {
      forall a | a in due && NotificationService.UserExists(db, a.client)
        ensures NotificationService.HasReminderForAppointmentToday(cur, a.id, clock.today)
      {
        var k :| 0 <= k < |due| && due[k] == a;
      }
    }
  }

  /** The loop invariant of the sweep survives one visit. */
  lemma Step(db: Db, cur: Db, next: Db, due: seq<Appointment>, i: nat, clock: Clock)
    requires i < |due| && next == Visit(cur, due[i], clock)
    requires SweepInv(db, cur, due, i, clock)
    ensures SweepInv(db, next, due, i + 1, clock)
  {
    StepExtends(db, cur, next, due[i], clock);
    StepAppended(|db.notifications|, cur, next, due, i, clock);
    StepReminded(db, cur, next, due, i, clock);
    StepPairs(db, cur, next, due, i, clock);
    if AllSent(db, due, clock.today) {
      assert due[i] in due;
    }
  }

  /** The pair clause at the end of the sweep. */
  lemma SweepPairsDone(db: Db, cur: Db, due: seq<Appointment>, clock: Clock)
    requires KeysDistinct(due) ==> PairsSent(db, cur, due, |due|, clock)
    ensures KeysDistinct(due) ==>
      forall a :: a in due && Fresh(db, a, clock.today) ==> RemindedPair(db, cur, a, clock.Now())
  {
    if KeysDistinct(due) {
      forall a | a in due && Fresh(db, a, clock.today) ensures RemindedPair(db, cur, a, clock.Now()) {
        var k :| 0 <= k < |due| && due[k] == a;
      }
    }
  }

  /** Pairs already sent stay in place, and a fresh visited appointment
      gets its pair. */
  lemma StepPairs(db: Db, cur: Db, next: Db, due: seq<Appointment>, i: nat, clock: Clock)
    requires i < |due| && next == Visit(cur, due[i], clock)
    requires Extends(db, cur) && AppendedReminders(|db.notifications|, cur, due, i, clock)
    requires KeysDistinct(due) ==> PairsSent(db, cur, due, i, clock)
    ensures KeysDistinct(due) ==> PairsSent(db, next, due, i + 1, clock)
  {
    if KeysDistinct(due) {
      PairsPersist(db, cur, next, due, i, clock);
      if Fresh(db, due[i], clock.today) {
        FreshVisitSendsPair(db, cur, next, due, i, clock);
      }
      PairsExtend(db, next, due, i, clock);
    }
  }

  /** Appending rows keeps every pair already sent. */
  lemma PairsPersist(db: Db, cur: Db, next: Db, due: seq<Appointment>, i: nat, clock: Clock)
    requires |next.notifications| >= |cur.notifications|
    requires next.notifications[..|cur.notifications|] == cur.notifications
    requires PairsSent(db, cur, due, i, clock)
    ensures PairsSent(db, next, due, i, clock)
  {
    var now := clock.Now();
    forall k | 0 <= k < i && k < |due| && Fresh(db, due[k], clock.today)
      ensures RemindedPair(db, next, due[k], now)
    {
      var j :| |db.notifications| <= j && j + 1 < |cur.notifications|
        && cur.notifications[j].user == due[k].client && IsSweepReminder(cur.notifications[j], due[k], now)
        && cur.notifications[j + 1].user == due[k].stylist && IsSweepReminder(cur.notifications[j + 1], due[k], now);
      assert next.notifications[j] == next.notifications[..|cur.notifications|][j];
      assert next.notifications[j + 1] == next.notifications[..|cur.notifications|][j + 1];
    }
  }

  /** The pairs of `due[..i]` and that of `due[i]` make the pairs of
      `due[..i + 1]`. */
  lemma PairsExtend(db: Db, cur: Db, due: seq<Appointment>, i: nat, clock: Clock)
    requires i < |due| && PairsSent(db, cur, due, i, clock)
    requires Fresh(db, due[i], clock.today) ==> RemindedPair(db, cur, due[i], clock.Now())
    ensures PairsSent(db, cur, due, i + 1, clock)
  {
  }

  /** Visiting a fresh appointment appends its client's reminder and then
      its stylist's. */
  lemma FreshVisitSendsPair(db: Db, cur: Db, next: Db, due: seq<Appointment>, i: nat, clock: Clock)
    requires i < |due| && next == Visit(cur, due[i], clock)
    requires Extends(db, cur) && AppendedReminders(|db.notifications|, cur, due, i, clock)
    requires KeysDistinct(due) && Fresh(db, due[i], clock.today)
    ensures RemindedPair(db, next, due[i], clock.Now())
  {
    var a := due[i];
    NotRemindedYet(db, cur, due, i, clock);
    assert cur.users == db.users;
    var pair := NotificationService.PairNotices(
      cur, a, AppointmentReminder, TitleReminderTomorrow, TitleReminderTomorrow, clock.Now());
    assert next.notifications == cur.notifications + pair;
    var j := |cur.notifications|;
    assert next.notifications[j] == pair[0] && next.notifications[j + 1] == pair[1];
  }

  /** With distinct keys, what the sweep appended before visiting `due[i]`
      is no reminder of it, so it is still unreminded today. */
  lemma NotRemindedYet(db: Db, cur: Db, due: seq<Appointment>, i: nat, clock: Clock)
    requires i < |due| && Extends(db, cur) && AppendedReminders(|db.notifications|, cur, due, i, clock)
    requires KeysDistinct(due)
    requires !NotificationService.HasReminderForAppointmentToday(db, due[i].id, clock.today)
    ensures !NotificationService.HasReminderForAppointmentToday(cur, due[i].id, clock.today)
  {
    var id := due[i].id;
    forall j | |db.notifications| <= j < |cur.notifications|
      ensures cur.notifications[j].relatedAppointment != Some(id)
    {
      var k := AppendedFor(|db.notifications|, cur, due, i, clock, j);
      assert due[k].id != id;
    }
    forall n | n in cur.notifications && NotificationService.IsReminderFor(n, id)
      ensures n in db.notifications
    {
      var j :| 0 <= j < |cur.notifications| && cur.notifications[j] == n;
      assert j < |db.notifications| ==> n == cur.notifications[..|db.notifications|][j];
    }
  }

  /** The visited appointment an appended reminder belongs to. */
  lemma AppendedFor(start: nat, cur: Db, due: seq<Appointment>, i: nat, clock: Clock, j: nat) returns (k: nat)
    requires AppendedReminders(start, cur, due, i, clock) && start <= j < |cur.notifications|
    ensures k < i && k < |due| && IsSweepReminder(cur.notifications[j], due[k], clock.Now())
  {
    var n := cur.notifications[j];
    assert exists k' :: 0 <= k' < i && k' < |due| && IsSweepReminder(n, due[k'], clock.Now());
    k :| 0 <= k < i && k < |due| && IsSweepReminder(n, due[k], clock.Now());
  }

  /** A visit only appends notifications. */
  lemma StepExtends(db: Db, cur: Db, next: Db, a: Appointment, clock: Clock)
    requires next == Visit(cur, a, clock) && Extends(db, cur)
    ensures Extends(db, next)
  {
    assert next.notifications[..|db.notifications|] == cur.notifications[..|db.notifications|];
  }

  /** What a visit appends is a reminder for the visited appointment. */
  lemma StepAppended(start: nat, cur: Db, next: Db, due: seq<Appointment>, i: nat, clock: Clock)
    requires i < |due| && next == Visit(cur, due[i], clock)
    requires start <= |cur.notifications| && AppendedReminders(start, cur, due, i, clock)
    ensures AppendedReminders(start, next, due, i + 1, clock)
  {
    forall j | start <= j < |next.notifications|
      ensures exists k :: 0 <= k < i + 1 && k < |due| && IsSweepReminder(next.notifications[j], due[k], clock.Now())
    {
      if j < |cur.notifications| {
        assert next.notifications[j] == cur.notifications[j];
      } else {
        assert IsSweepReminder(next.notifications[j], due[i], clock.Now());
      }
    }
  }

  /** After a visit the visited appointment is reminded today, and earlier
      ones stay reminded. */
  lemma StepReminded(db: Db, cur: Db, next: Db, due: seq<Appointment>, i: nat, clock: Clock)
    requires i < |due| && next == Visit(cur, due[i], clock)
    requires cur.users == db.users && VisitedReminded(db, cur, due, i, clock)
    ensures VisitedReminded(db, next, due, i + 1, clock)
  {
    ReminderStaysVisible(cur, next, clock.today);
  }

  /** A reminder seen today stays seen once notifications are appended. */
  lemma ReminderStaysVisible(before: Db, after: Db, today: Day)
    requires |after.notifications| >= |before.notifications|
    requires after.notifications[..|before.notifications|] == before.notifications
    ensures forall id :: NotificationService.HasReminderForAppointmentToday(before, id, today) ==>
      NotificationService.HasReminderForAppointmentToday(after, id, today)
  {
    forall id | NotificationService.HasReminderForAppointmentToday(before, id, today)
      ensures NotificationService.HasReminderForAppointmentToday(after, id, today)
    {
      var n :| n in before.notifications && NotificationService.IsReminderFor(n, id)
        && NotificationService.CreatedOn(n, today);
      assert n in after.notifications[..|before.notifications|];
    }
  }
}
