/** Queries on the weekly-availability table. */
module AvailabilityRepository {
  import opened Calendar
  import opened Entities
  import Seqs

  /** `findByStylist`. */
  function FindByStylist(avs: seq<Availability>, stylist: UserId): (r: seq<Availability>)
    ensures forall v :: v in r <==> v in avs && v.stylist == stylist
  {
    Seqs.Filter(avs, (v: Availability) => v.stylist == stylist)
  }

  /** `findByStylistAndDayOfWeek`. */
  function FindByStylistAndDayOfWeek(avs: seq<Availability>, stylist: UserId, day: DayOfWeek): (r: seq<Availability>)
    ensures forall v :: v in r <==> v in avs && v.stylist == stylist && v.dayOfWeek == day
  {
    Seqs.Filter(avs, (v: Availability) => v.stylist == stylist && v.dayOfWeek == day)
  }
}
