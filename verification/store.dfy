/** The database: one table per entity and, per table, the next key the
    identity column hands out. */
module Store {
  import opened Entities

  datatype Db = Db(
    users: seq<User>,
    services: seq<ServiceOffer>,
    appointments: seq<Appointment>,
    availabilities: seq<Availability>,
    exceptions: seq<ScheduleException>,
    notifications: seq<Notification>,
    nextUserId: nat,
    nextAppointmentId: nat,
    nextAvailabilityId: nat,
    nextExceptionId: nat,
    nextNotificationId: nat)
  {
    /** Primary keys are unique and below the table's next key. */
    ghost predicate Valid() {
      && (forall i, j :: 0 <= i < j < |users| ==> users[i].id != users[j].id)
      && (forall i :: 0 <= i < |users| ==> users[i].id < nextUserId)
      && (forall i, j :: 0 <= i < j < |services| ==> services[i].id != services[j].id)
      && (forall i, j :: 0 <= i < j < |appointments| ==> appointments[i].id != appointments[j].id)
      && (forall i :: 0 <= i < |appointments| ==> appointments[i].id < nextAppointmentId)
      && (forall i, j :: 0 <= i < j < |availabilities| ==> availabilities[i].id != availabilities[j].id)
      && (forall i :: 0 <= i < |availabilities| ==> availabilities[i].id < nextAvailabilityId)
      && (forall i, j :: 0 <= i < j < |exceptions| ==> exceptions[i].id != exceptions[j].id)
      && (forall i :: 0 <= i < |exceptions| ==> exceptions[i].id < nextExceptionId)
      && (forall i, j :: 0 <= i < j < |notifications| ==> notifications[i].id != notifications[j].id)
      && (forall i :: 0 <= i < |notifications| ==> notifications[i].id < nextNotificationId)
    }
  }

  /** Rewriting a weekly-hours row in place under its own key keeps the
      keys valid. */
  lemma RewriteAvailabilityKeepsValid(db: Db, i: nat, v: Availability)
    requires db.Valid() && i < |db.availabilities| && v.id == db.availabilities[i].id
    ensures db.(availabilities := db.availabilities[i := v]).Valid()
  {
    var s := db.availabilities[i := v];
    assert forall k :: 0 <= k < |s| ==> s[k].id == db.availabilities[k].id;
  }

  /** Rewriting a schedule exception in place under its own key keeps the
      keys valid. */
  lemma RewriteExceptionKeepsValid(db: Db, i: nat, e: ScheduleException)
    requires db.Valid() && i < |db.exceptions| && e.id == db.exceptions[i].id
    ensures db.(exceptions := db.exceptions[i := e]).Valid()
  {
    var s := db.exceptions[i := e];
    assert forall k :: 0 <= k < |s| ==> s[k].id == db.exceptions[k].id;
  }
}
