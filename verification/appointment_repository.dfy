/** Queries on the `citas` table. */
module AppointmentRepository {
  import opened Wrappers
  import opened Calendar
  import opened Entities
  import opened Text
  import Seqs
  import UserRepository

  /** Two time windows overlap when each starts before the other ends. */
  predicate Overlaps(aStart: int, aEnd: int, start: int, end: int) {
    aStart < end && aEnd > start
  }

  /** Overlap does not depend on which window is the stored one. */
  lemma OverlapsSymmetric(s1: int, e1: int, s2: int, e2: int)
    ensures Overlaps(s1, e1, s2, e2) <==> Overlaps(s2, e2, s1, e1)
  {
  }

  /** Back-to-back windows never overlap: 10:00-11:00 and 11:00-12:00 coexist. */
  lemma TouchingWindowsDoNotOverlap(s1: int, boundary: int, e2: int)
    ensures !Overlaps(s1, boundary, boundary, e2)
    ensures !Overlaps(boundary, e2, s1, boundary)
  {
  }

  /** For non-empty windows the overlap test says exactly that the half-open
      windows `[s1, e1)` and `[s2, e2)` share a minute. */
  lemma OverlapsIffSharedMinute(s1: int, e1: int, s2: int, e2: int)
    requires s1 < e1 && s2 < e2
    ensures Overlaps(s1, e1, s2, e2) <==> exists m :: InWindow(m, s1, e1) && InWindow(m, s2, e2)
  {
    if Overlaps(s1, e1, s2, e2) {
      var m := if s1 < s2 then s2 else s1;
      assert InWindow(m, s1, e1) && InWindow(m, s2, e2);
    }
  }

  /** Minute `m` lies in the half-open window `[s, e)`. */
  predicate InWindow(m: int, s: int, e: int) {
    s <= m < e
  }

  /** The row condition of `findOverlappingAppointments`. */
  predicate Clashes(a: Appointment, stylist: UserId, date: Day, start: TimeOfDay, end: TimeOfDay) {
    && a.stylist == stylist
    && a.date == date
    && Blocks(a.status)
    && Overlaps(a.startTime, a.endTime, start, end)
  }

  /** `findOverlappingAppointments`: the non-cancelled appointments of the
      stylist on that date whose window overlaps `[start, end)`. */
  function FindOverlapping(appts: seq<Appointment>, stylist: UserId, date: Day, start: TimeOfDay, end: TimeOfDay)
    : (r: seq<Appointment>)
    ensures forall a :: a in r <==>
      a in appts && a.stylist == stylist && a.date == date && a.status != Cancelada
      && a.startTime < end && a.endTime > start
  {
    Seqs.Filter(appts, a => Clashes(a, stylist, date, start, end))
  }

  /** `findOverlappingAppointmentsExcluding`: the same query without the
      appointment being edited. */
  function FindOverlappingExcluding(
    appts: seq<Appointment>, stylist: UserId, date: Day, start: TimeOfDay, end: TimeOfDay, excluded: AppointmentId)
    : (r: seq<Appointment>)
    ensures forall a :: a in r <==> a in FindOverlapping(appts, stylist, date, start, end) && a.id != excluded
  {
    Seqs.Filter(appts, a => Clashes(a, stylist, date, start, end) && a.id != excluded)
  }

  /** `findByStylistAndDate`. */
  function FindByStylistAndDate(appts: seq<Appointment>, stylist: UserId, date: Day): (r: seq<Appointment>)
    ensures forall a :: a in r <==> a in appts && a.stylist == stylist && a.date == date
  {
    Seqs.Filter(appts, (a: Appointment) => a.stylist == stylist && a.date == date)
  }

  predicate SortedByStart(s: seq<Appointment>) {
    forall i, j :: 0 <= i < j < |s| ==> s[i].startTime <= s[j].startTime
  }

  function InsertByStart(a: Appointment, s: seq<Appointment>): (r: seq<Appointment>)
    requires SortedByStart(s)
    ensures SortedByStart(r)
    ensures multiset(r) == multiset(s) + multiset{a}
    ensures forall x | x in r :: x == a || x in s
    decreases |s|
  {
    if |s| == 0 then [a]
    else if a.startTime <= s[0].startTime then
      SortedCons(a, s);
      [a] + s
    else
      var rest := InsertByStart(a, s[1..]);
      InsertStep(a, s, rest);
      [s[0]] + rest
  }

  /** The recursive case of `InsertByStart`: the head of `s` goes in front
      of the insertion into the tail. */
  lemma InsertStep(a: Appointment, s: seq<Appointment>, rest: seq<Appointment>)
    requires SortedByStart(s) && |s| > 0 && s[0].startTime < a.startTime
    requires SortedByStart(rest)
    requires multiset(rest) == multiset(s[1..]) + multiset{a}
    requires forall x | x in rest :: x == a || x in s[1..]
    ensures SortedByStart([s[0]] + rest)
    ensures multiset([s[0]] + rest) == multiset(s) + multiset{a}
    ensures forall x | x in [s[0]] + rest :: x == a || x in s
  {
    assert s == [s[0]] + s[1..];
    forall x | x in rest
      ensures s[0].startTime <= x.startTime
    {
      if x != a {
        var k :| 1 <= k < |s| && s[k] == x by {
          assert x in s[1..];
          var j :| 0 <= j < |s[1..]| && s[1..][j] == x;
          assert s[j + 1] == x;
        }
      }
    }
    SortedCons(s[0], rest);
  }

  /** An element no later than every element of a sorted list can go in
      front of it. */
  lemma SortedCons(x: Appointment, s: seq<Appointment>)
    requires SortedByStart(s)
    requires forall y | y in s :: x.startTime <= y.startTime
    ensures SortedByStart([x] + s)
  {
    var r := [x] + s;
    forall i, j | 0 <= i < j < |r|
      ensures r[i].startTime <= r[j].startTime
    {
      assert r[j] == s[j - 1];
      if i > 0 {
        assert r[i] == s[i - 1];
      }
    }
  }

  /** `ORDER BY startTime`. */
  function SortByStart(s: seq<Appointment>): (r: seq<Appointment>)
    ensures SortedByStart(r)
    ensures multiset(r) == multiset(s)
    decreases |s|
  {
    if |s| == 0 then []
    else
      assert s == [s[0]] + s[1..];
      InsertByStart(s[0], SortByStart(s[1..]))
  }

  /** `findByDateAndStatusOrderByStartTime`: the appointments of that date in
      that status, earliest first. */
  function FindByDateAndStatusOrderByStartTime(appts: seq<Appointment>, date: Day, status: AppointmentStatus)
    : (r: seq<Appointment>)
    ensures SortedByStart(r)
    ensures forall a :: a in r <==> a in appts && a.date == date && a.status == status
    ensures multiset(r) <= multiset(appts)
  {
    var p := (a: Appointment) => a.date == date && a.status == status;
    var found := Seqs.Filter(appts, p);
    Seqs.FilterSubMultiset(appts, p);
    var r := SortByStart(found);
    assert forall a :: a in r <==> a in multiset(r);
    r
  }

  /** The optional criteria of `findWithAdvancedFilters`; `None` is a null
      parameter and imposes nothing. */
  datatype SearchCriteria = SearchCriteria(
    clientName: Option<string>,
    stylistName: Option<string>,
    serviceName: Option<string>,
    date: Option<Day>,
    status: Option<AppointmentStatus>)

  predicate NameMatches(users: seq<User>, id: UserId, needle: Option<string>) {
    needle.None? ||
    (var u := UserRepository.FindById(users, id); u.Some? && ContainsIgnoreCase(u.value.name, needle.value))
  }

  /** The `WHERE` clause of `findWithAdvancedFilters`.  The services are
      left-joined, so a service-name criterion needs one matching service and
      an appointment without services never satisfies it. */
  predicate MatchesCriteria(users: seq<User>, a: Appointment, c: SearchCriteria) {
    && NameMatches(users, a.client, c.clientName)
    && NameMatches(users, a.stylist, c.stylistName)
    && (c.serviceName.None? || exists s :: s in a.services && ContainsIgnoreCase(s.name, c.serviceName.value))
    && (c.date.None? || a.date == c.date.value)
    && (c.status.None? || a.status == c.status.value)
  }

  /** `findWithAdvancedFilters` (unpaged); `DISTINCT` lists each appointment once. */
  function FindWithAdvancedFilters(appts: seq<Appointment>, users: seq<User>, c: SearchCriteria): (r: seq<Appointment>)
    ensures forall a :: a in r <==> a in appts && MatchesCriteria(users, a, c)
  {
    Seqs.Filter(appts, a => MatchesCriteria(users, a, c))
  }

  /** With no criterion at all the search returns every appointment. */
  lemma NoCriteriaMatchesAll(appts: seq<Appointment>, users: seq<User>)
    ensures FindWithAdvancedFilters(appts, users, SearchCriteria(None, None, None, None, None)) == appts
  {
    Seqs.FilterAll(appts, a => MatchesCriteria(users, a, SearchCriteria(None, None, None, None, None)));
  }

  /** A service-name criterion, even the empty one, excludes every
      appointment booked without services. */
  lemma ServiceNameExcludesServiceless(appts: seq<Appointment>, users: seq<User>, c: SearchCriteria, a: Appointment)
    requires c.serviceName.Some? && a.services == []
    ensures a !in FindWithAdvancedFilters(appts, users, c)
  {
  }
}
