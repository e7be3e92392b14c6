/** Queries on the schedule-exception table. */
module ScheduleExceptionRepository {
  import opened Wrappers
  import opened Calendar
  import opened Entities
  import Seqs

  /** `findByDateAndStylistOrNull`: the exceptions of that date that name the
      stylist or name no stylist at all. */
  function FindByDateAndStylistOrNull(excs: seq<ScheduleException>, date: Day, stylist: UserId)
    : (r: seq<ScheduleException>)
    ensures forall e :: e in r <==> e in excs && e.date == date && (e.stylist == Some(stylist) || e.stylist.None?)
  {
    Seqs.Filter(excs, (e: ScheduleException) => e.date == date && (e.stylist == Some(stylist) || e.AppliesToAll()))
  }

  /** `findByStylistAndDate`: only the exceptions naming that stylist. */
  function FindByStylistAndDate(excs: seq<ScheduleException>, stylist: UserId, date: Day): (r: seq<ScheduleException>)
    ensures forall e :: e in r <==> e in excs && e.stylist == Some(stylist) && e.date == date
  {
    Seqs.Filter(excs, (e: ScheduleException) => e.stylist == Some(stylist) && e.date == date)
  }

  /** `findByStylist`. */
  function FindByStylist(excs: seq<ScheduleException>, stylist: UserId): (r: seq<ScheduleException>)
    ensures forall e :: e in r <==> e in excs && e.stylist == Some(stylist)
  {
    Seqs.Filter(excs, (e: ScheduleException) => e.stylist == Some(stylist))
  }

  /** `findByDate`: every exception of that date, global or not. */
  function FindByDate(excs: seq<ScheduleException>, date: Day): (r: seq<ScheduleException>)
    ensures forall e :: e in r <==> e in excs && e.date == date
  {
    Seqs.Filter(excs, (e: ScheduleException) => e.date == date)
  }

  /** A global exception is seen by every stylist, a stylist's own exception
      by that stylist only, and the per-stylist query never returns a global
      one. */
  lemma ScopeOfExceptions(excs: seq<ScheduleException>, e: ScheduleException, stylist: UserId, other: UserId)
    requires e in excs && other != stylist
    ensures e.stylist.None? ==> e in FindByDateAndStylistOrNull(excs, e.date, stylist)
    ensures e.stylist.None? ==> e !in FindByStylistAndDate(excs, stylist, e.date)
    ensures e.stylist == Some(stylist) ==> e !in FindByDateAndStylistOrNull(excs, e.date, other)
    ensures forall d :: d != e.date ==> e !in FindByDateAndStylistOrNull(excs, d, stylist)
  {
  }
}
