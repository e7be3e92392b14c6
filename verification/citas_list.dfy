/** The appointment list page: which action buttons a row shows, and the
    window of page numbers under the table. */
module CitasList {
  import opened Wrappers
  import opened Entities
  import opened Store
  import AppointmentController

  /** `canEdit`: the role of the signed-in user (`None` when nobody is
      signed in) and the row's status as the server spells it. */
  predicate CanEdit(currentRole: Option<string>, status: string) {
    currentRole.Some?
    && (currentRole.value == "ADMINISTRADOR" || (currentRole.value == "CLIENTE" && status == "CONFIRMADA"))
  }

  /** `canCancel` applies exactly the rule of `canEdit`. */
  predicate CanCancel(currentRole: Option<string>, status: string) {
    CanEdit(currentRole, status)
  }

  /** The buttons for an appointment as the server describes the user and
      the appointment. */
  predicate OffersActions(u: User, a: Appointment) {
    CanEdit(Some(RoleName(u.role)), StatusName(a.status))
  }

  /** A button the page shows on a row of the caller's own list leads to a
      request the server accepts: administrators may change anything, and
      a client's list holds only that client's appointments.  A stylist is
      offered nothing. */
  lemma OfferedActionsPermitted(db: Db, principal: string, q: AppointmentController.ListQuery, u: User, a: Appointment)
    requires AppointmentController.Caller(db, Some(principal)) == Ok(Some(u))
    requires AppointmentController.ListAppointments(db, Some(principal), q).Ok?
    requires a in AppointmentController.ListAppointments(db, Some(principal), q).value
    ensures OffersActions(u, a) ==> AppointmentController.MayModify(u, a)
    ensures u.role == Estilista ==> !OffersActions(u, a)
    ensures u.role == Cliente ==> (OffersActions(u, a) <==> a.status == Confirmada)
  {
  }

  /** The page hides the buttons on a client's own cancelled or finished
      appointment although the server would accept the change. */
  lemma ServerAllowsWhatPageHides(u: User, a: Appointment)
    requires u.role == Cliente && a.client == u.id && a.status != Confirmada
    ensures AppointmentController.MayModify(u, a)
    ensures !CanEdit(Some(RoleName(u.role)), StatusName(a.status))
    ensures !CanCancel(Some(RoleName(u.role)), StatusName(a.status))
  {
  }

  /** The number of page links shown at most. */
  const MaxPages := 5

  /** `getPageNumbers`: up to five consecutive page indices around the
      current page, shifted left when the window hits the last page. */
  method PageNumbers(currentPage: int, totalPages: int) returns (pages: seq<int>)
    ensures forall k :: 0 <= k < |pages| ==> 0 <= pages[k] < totalPages
    ensures forall k :: 0 < k < |pages| ==> pages[k] == pages[k - 1] + 1
    ensures |pages| <= MaxPages
    ensures 0 <= currentPage < totalPages ==>
      |pages| == (if totalPages < MaxPages then totalPages else MaxPages) && currentPage in pages
  {
    var start := if currentPage - MaxPages / 2 > 0 then currentPage - MaxPages / 2 else 0;
    var end := if totalPages < start + MaxPages then totalPages else start + MaxPages;
    if end - start < MaxPages {
      start := if end - MaxPages > 0 then end - MaxPages else 0;
    }
    pages := [];
    var i := start;
    while i < end
      invariant start <= i <= (if start <= end then end else start)
      invariant |pages| == i - start
      invariant forall k :: 0 <= k < |pages| ==> pages[k] == start + k
    {
      pages := pages + [i];
      i := i + 1;
    }
    assert |pages| == (if start <= end then end - start else 0);
    if 0 <= currentPage < totalPages {
      assert start <= currentPage < end;
      assert pages[currentPage - start] == currentPage;
    }
  }
}
