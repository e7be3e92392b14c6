/** The booking form of the web client: the phone check it repeats from the
    server, reading and writing `HH:mm` times, the 30-minute slots it offers
    for a day, the end time it proposes, the days it greys out and the month
    grid of its calendar. */
module CitaForm {
  import opened Wrappers
  import opened Calendar
  import opened Entities
  import Seqs
  import Text
  import PhoneValidator
  import AppointmentRepository
  import AppointmentService
  import Store

  // ---------------------------------------------------------------------
  // Phone numbers
  // ---------------------------------------------------------------------

  /** JavaScript's `\s` and the characters `String.prototype.trim` removes:
      Java's six plus the Unicode spaces and line separators. */
  predicate IsJsSpace(c: char) {
    || PhoneValidator.IsRegexSpace(c)
    || c == 0xA0 as char || c == 0x1680 as char
    || (0x2000 as char <= c <= 0x200A as char)
    || c == 0x2028 as char || c == 0x2029 as char || c == 0x202F as char
    || c == 0x205F as char || c == 0x3000 as char || c == 0xFEFF as char
  }

  predicate AllJsSpaces(s: string) {
    forall i :: 0 <= i < |s| ==> IsJsSpace(s[i])
  }

  function JsTrimStart(s: string): (r: string)
    ensures |r| <= |s| && r == s[|s| - |r|..]
    ensures forall i :: 0 <= i < |s| - |r| ==> IsJsSpace(s[i])
    decreases |s|
  {
    if |s| > 0 && IsJsSpace(s[0]) then JsTrimStart(s[1..]) else s
  }

  function JsTrimEnd(s: string): (r: string)
    ensures |r| <= |s| && r == s[..|r|]
    ensures forall i :: |r| <= i < |s| ==> IsJsSpace(s[i])
    decreases |s|
  {
    if |s| > 0 && IsJsSpace(s[|s| - 1]) then JsTrimEnd(s[..|s| - 1]) else s
  }

  /** `String.prototype.trim`. */
  function JsTrim(s: string): string {
    JsTrimEnd(JsTrimStart(s))
  }

  /** `replace(/\s/g, '')`. */
  function StripJsSpaces(s: string): (r: string)
    ensures forall c :: c in r <==> c in s && !IsJsSpace(c)
  {
    Seqs.Filter(s, (c: char) => !IsJsSpace(c))
  }

  /** Trimming before removing every space changes nothing. */
  lemma TrimThenStrip(s: string)
    ensures StripJsSpaces(JsTrim(s)) == StripJsSpaces(s)
  {
    var t := JsTrimStart(s);
    TrimStartSplits(s);
    StripSpacePrefix(s[..|s| - |t|], t);
    TrimEndSplits(t);
    StripSpaceSuffix(JsTrimEnd(t), t[|JsTrimEnd(t)|..]);
  }

  /** The text `trimStart` drops is a prefix of white space. */
  lemma TrimStartSplits(s: string)
    ensures s == s[..|s| - |JsTrimStart(s)|] + JsTrimStart(s)
    ensures AllJsSpaces(s[..|s| - |JsTrimStart(s)|])
  {
  }

  /** The text `trimEnd` drops is a suffix of white space. */
  lemma TrimEndSplits(t: string)
    ensures t == JsTrimEnd(t) + t[|JsTrimEnd(t)|..]
    ensures AllJsSpaces(t[|JsTrimEnd(t)|..])
  {
  }

  lemma StripSpacePrefix(spaces: string, rest: string)
    requires forall i :: 0 <= i < |spaces| ==> IsJsSpace(spaces[i])
    ensures StripJsSpaces(spaces + rest) == StripJsSpaces(rest)
  {
    var p := (c: char) => !IsJsSpace(c);
    Seqs.FilterAppend(spaces, rest, p);
    Seqs.FilterNone(spaces, p);
  }

  lemma StripSpaceSuffix(rest: string, spaces: string)
    requires forall i :: 0 <= i < |spaces| ==> IsJsSpace(spaces[i])
    ensures StripJsSpaces(rest + spaces) == StripJsSpaces(rest)
  {
    var p := (c: char) => !IsJsSpace(c);
    Seqs.FilterAppend(rest, spaces, p);
    Seqs.FilterNone(spaces, p);
    assert rest + [] == rest;
  }

  /** `/^(\+34|0034)?[6-9][0-9]{8}$/`: the server's pattern without its
      optional space. */
  predicate ClientPattern(s: string) {
    || PhoneValidator.IsSubscriberNumber(s)
    || (|s| >= 3 && s[..3] == "+34" && PhoneValidator.IsSubscriberNumber(s[3..]))
    || (|s| >= 4 && s[..4] == "0034" && PhoneValidator.IsSubscriberNumber(s[4..]))
  }

  lemma ClientPatternIsWellFormed(s: string)
    ensures ClientPattern(s) <==> PhoneValidator.WellFormed(s)
  {
    if ClientPattern(s) {
      if PhoneValidator.IsSubscriberNumber(s) {
        assert PhoneValidator.IsSplitAt(s, "");
      } else if |s| >= 3 && s[..3] == "+34" && PhoneValidator.IsSubscriberNumber(s[3..]) {
        assert PhoneValidator.IsSplitAt(s, "+34");
      } else {
        assert PhoneValidator.IsSplitAt(s, "0034");
      }
    }
    if PhoneValidator.WellFormed(s) {
      var prefix :| PhoneValidator.IsCountryPrefix(prefix) && PhoneValidator.IsSplitAt(s, prefix);
      if prefix == "" {
        assert s[0..] == s;
      }
    }
  }

  /** `phoneValidator`: an empty or missing value is left to `required`;
      anything else is trimmed, stripped of spaces and matched. */
  function PhoneValid(value: Option<string>): (r: bool)
    ensures value.None? || value == Some("") ==> r
    ensures value.Some? && value.value != "" ==> (r <==> PhoneValidator.WellFormed(StripJsSpaces(value.value)))
  {
    if value.None? || value.value == "" then true
    else
      TrimThenStrip(value.value);
      ClientPatternIsWellFormed(StripJsSpaces(value.value));
      ClientPattern(StripJsSpaces(JsTrim(value.value)))
  }

  /** On a number that is not blank and holds no space Java and JavaScript
      classify differently, the form and the server give the same verdict. */
  lemma PhoneValidatorsAgree(p: string)
    requires !Text.IsBlank(p)
    requires forall i :: 0 <= i < |p| ==> (IsJsSpace(p[i]) <==> PhoneValidator.IsRegexSpace(p[i]))
    ensures PhoneValid(Some(p)) == PhoneValidator.IsValid(Some(p))
  {
    assert p != "";
    forall c | c in p ensures (!IsJsSpace(c)) == (!PhoneValidator.IsRegexSpace(c)) {
      var i :| 0 <= i < |p| && p[i] == c;
    }
    Seqs.FilterCongruent(p, (c: char) => !IsJsSpace(c), (c: char) => !PhoneValidator.IsRegexSpace(c));
  }

  /** A phone of spaces only: the server accepts it as blank, the form
      rejects it. */
  lemma SpacesOnlyPhoneDisagrees()
    ensures PhoneValidator.IsValid(Some(" "))
    ensures !PhoneValid(Some(" "))
  {
    assert Text.IsBlank(" ");
    assert StripJsSpaces(" ") == [];
  }

  /** A no-break space before the number: the form removes it, the server
      keeps it and rejects the number. */
  lemma NoBreakSpaceDisagrees()
    ensures !PhoneValidator.IsValid(Some([0xA0 as char] + "612345678"))
    ensures PhoneValid(Some([0xA0 as char] + "612345678"))
  {
    ServerRejectsNoBreakSpace([0xA0 as char] + "612345678");
    ClientStripsNoBreakSpace("612345678");
  }

  lemma ServerRejectsNoBreakSpace(s: string)
    requires |s| == 10 && s[0] == 0xA0 as char
    requires forall i :: 1 <= i < 10 ==> PhoneValidator.IsDigit(s[i])
    ensures !PhoneValidator.IsValid(Some(s))
  {
    assert !Text.IsTrimmable(s[0]);
    PhoneValidator.StripNoSpaces(s);
    forall prefix | PhoneValidator.IsCountryPrefix(prefix) ensures !PhoneValidator.IsSplitAt(s, prefix) {
      if prefix != "" {
        assert s[0] != prefix[0];
      }
    }
  }

  lemma ClientStripsNoBreakSpace(n: string)
    requires PhoneValidator.IsSubscriberNumber(n)
    ensures PhoneValid(Some([0xA0 as char] + n))
  {
    StripSpacePrefix([0xA0 as char], n);
    forall i | 0 <= i < |n| ensures !IsJsSpace(n[i]) {
      assert i == 0 || PhoneValidator.IsDigit(n[i]);
    }
    Seqs.FilterAll(n, (c: char) => !IsJsSpace(c));
    assert PhoneValidator.IsSplitAt(n, "");
  }

  // ---------------------------------------------------------------------
  // Times of day as text
  // ---------------------------------------------------------------------

  /** `str.split(sep)`: the pieces between separators, always at least one. */
  function Split(s: string, sep: char): (r: seq<string>)
    ensures |r| >= 1
    ensures (forall i :: 0 <= i < |s| ==> s[i] != sep) ==> r == [s]
    decreases |s|
  {
    match Seqs.IndexWhere(s, (c: char) => c == sep)
    case None => [s]
    case Some(i) => [s[..i]] + Split(s[i + 1..], sep)
  }

  /** A first piece free of the separator is split off. */
  lemma SplitFirst(a: string, rest: string, sep: char)
    requires forall i :: 0 <= i < |a| ==> a[i] != sep
    ensures Split(a + [sep] + rest, sep) == [a] + Split(rest, sep)
  {
    var s := a + [sep] + rest;
    assert s[|a|] == sep;
    var i := Seqs.IndexWhere(s, (c: char) => c == sep).value;
    assert i == |a|;
    assert s[..i] == a && s[i + 1..] == rest;
  }

  /** Two pieces free of the separator are split back apart. */
  lemma SplitJoin(a: string, b: string, sep: char)
    requires forall i :: 0 <= i < |a| ==> a[i] != sep
    requires forall i :: 0 <= i < |b| ==> b[i] != sep
    ensures Split(a + [sep] + b, sep) == [a, b]
  {
    SplitFirst(a, b, sep);
  }

  lemma SplitJoin3(a: string, b: string, c: string, sep: char)
    requires forall i :: 0 <= i < |a| ==> a[i] != sep
    requires forall i :: 0 <= i < |b| ==> b[i] != sep
    requires forall i :: 0 <= i < |c| ==> c[i] != sep
    ensures Split(a + [sep] + b + [sep] + c, sep) == [a, b, c]
  {
    var tail := b + [sep] + c;
    assert a + [sep] + b + [sep] + c == a + [sep] + tail;
    SplitFirst(a, tail, sep);
    SplitJoin(b, c, sep);
  }

  predicate IsDigits(s: string) {
    forall i :: 0 <= i < |s| ==> PhoneValidator.IsDigit(s[i])
  }

  /** The value of a string of decimal digits. */
  function DigitsValue(s: string): (n: nat)
    requires IsDigits(s)
    decreases |s|
  {
    if |s| == 0 then 0 else DigitsValue(s[..|s| - 1]) * 10 + (s[|s| - 1] as int - '0' as int)
  }

  /** The longest prefix of decimal digits. */
  function LeadingDigits(s: string): (r: string)
    ensures |r| <= |s| && r == s[..|r|] && IsDigits(r)
    ensures |r| < |s| ==> !PhoneValidator.IsDigit(s[|r|])
    decreases |s|
  {
    if |s| > 0 && PhoneValidator.IsDigit(s[0]) then [s[0]] + LeadingDigits(s[1..]) else []
  }

  /** `parseInt(s, 10)`: leading white space, an optional sign, then as
      many digits as there are; `None` is `NaN`, when no digit follows. */
  function ParseInt(s: string): (r: Option<int>)
    ensures r.None? <==> LeadingDigits(UnsignedPart(JsTrimStart(s))) == []
  {
    var t := JsTrimStart(s);
    var digits := LeadingDigits(UnsignedPart(t));
    if digits == [] then None
    else
      var v: int := DigitsValue(digits);
      if |t| > 0 && t[0] == '-' then Some(-v) else Some(v)
  }

  function UnsignedPart(t: string): string {
    if |t| > 0 && (t[0] == '-' || t[0] == '+') then t[1..] else t
  }

  /** `parseInt(s, 10) || 0`: `NaN` (and zero) become zero. */
  function ParseIntOrZero(s: string): int {
    match ParseInt(s)
    case None => 0
    case Some(v) => v
  }

  /** `parseTime` on a string: empty gives 0, fewer than two `:`-pieces give
      0, otherwise hours times 60 plus minutes from the first two pieces. */
  function ParseTime(s: string): int {
    if s == "" then 0
    else
      var parts := Split(s, ':');
      if |parts| < 2 then 0 else ParseIntOrZero(parts[0]) * 60 + ParseIntOrZero(parts[1])
  }

  function DigitChar(d: nat): (c: char)
    requires d < 10
    ensures PhoneValidator.IsDigit(c) && c as int - '0' as int == d
  {
    ('0' as int + d) as char
  }

  /** `String(n)` for a natural number. */
  function Decimal(n: nat): (r: string)
    ensures |r| >= 1 && IsDigits(r)
    ensures n < 10 ==> |r| == 1
    ensures n >= 10 ==> |r| >= 2
  {
    if n < 10 then [DigitChar(n)] else Decimal(n / 10) + [DigitChar(n % 10)]
  }

  /** `String(n).padStart(2, '0')`. */
  function Pad2(n: nat): (r: string)
    ensures |r| >= 2 && IsDigits(r)
  {
    if |Decimal(n)| < 2 then "0" + Decimal(n) else Decimal(n)
  }

  /** `formatTime(minutes)` for a non-negative number of minutes. */
  function FormatTime(minutes: nat): (r: string)
    ensures |r| >= 5 && r[|r| - 3] == ':'
  {
    Pad2(minutes / 60) + ":" + Pad2(minutes % 60)
  }

  lemma {:induction false} DecimalValue(n: nat)
    ensures DigitsValue(Decimal(n)) == n
  {
    if n >= 10 {
      var d := Decimal(n);
      assert d[..|d| - 1] == Decimal(n / 10);
      DecimalValue(n / 10);
    }
  }

  /** A leading zero does not change a value. */
  lemma {:induction false} LeadingZeroValue(s: string)
    requires IsDigits(s)
    ensures IsDigits("0" + s) && DigitsValue("0" + s) == DigitsValue(s)
    decreases |s|
  {
    var z := "0" + s;
    assert forall i :: 0 < i < |z| ==> z[i] == s[i - 1];
    if |s| > 0 {
      assert z[..|z| - 1] == "0" + s[..|s| - 1];
      LeadingZeroValue(s[..|s| - 1]);
    }
  }

  lemma {:induction false} LeadingDigitsOfDigits(s: string)
    requires IsDigits(s)
    ensures LeadingDigits(s) == s
    decreases |s|
  {
    if |s| > 0 {
      LeadingDigitsOfDigits(s[1..]);
      assert s == [s[0]] + s[1..];
    }
  }

  /** `parseInt` of a plain digit string is its value. */
  lemma ParseDigits(s: string)
    requires |s| > 0 && IsDigits(s)
    ensures ParseInt(s) == Some(DigitsValue(s))
  {
    assert !IsJsSpace(s[0]);
    assert JsTrimStart(s) == s;
    assert UnsignedPart(s) == s;
    LeadingDigitsOfDigits(s);
  }

  /** `parseInt` reads back a padded number. */
  lemma ParsePad2(n: nat)
    ensures ParseIntOrZero(Pad2(n)) == n
  {
    ParseDigits(Pad2(n));
    DecimalValue(n);
    if |Decimal(n)| < 2 {
      LeadingZeroValue(Decimal(n));
    }
  }

  lemma NoColon(s: string)
    requires IsDigits(s)
    ensures forall i :: 0 <= i < |s| ==> s[i] != ':'
  {
  }

  /** `parseTime(formatTime(m)) == m`. */
  lemma ParseFormatRoundTrip(m: nat)
    ensures ParseTime(FormatTime(m)) == m
  {
    var h, mm := Pad2(m / 60), Pad2(m % 60);
    NoColon(h);
    NoColon(mm);
    SplitJoin(h, mm, ':');
    ParsePad2(m / 60);
    ParsePad2(m % 60);
  }

  /** The seconds of the server's `HH:mm:ss` are ignored. */
  lemma ParseIgnoresSeconds(m: nat)
    ensures ParseTime(FormatTime(m) + ":00") == m
  {
    var h, mm := Pad2(m / 60), Pad2(m % 60);
    assert FormatTime(m) == h + ":" + mm;
    ReadWithSeconds(h, mm);
    ParsePad2(m / 60);
    ParsePad2(m % 60);
  }

  /** `HH:mm:ss` splits into hours, minutes and seconds, and only the first
      two are read. */
  lemma ReadWithSeconds(h: string, mm: string)
    requires IsDigits(h) && IsDigits(mm)
    ensures ParseTime(h + ":" + mm + ":00") == ParseIntOrZero(h) * 60 + ParseIntOrZero(mm)
  {
    var tail := mm + [':'] + "00";
    WithSeconds(h, mm);
    NoColon(h);
    NoColon(mm);
    SplitFirst(h, tail, ':');
    SplitFirst(mm, "00", ':');
    ReadTwoPieces(h + ":" + mm + ":00", h, mm, ["00"]);
  }

  lemma WithSeconds(h: string, mm: string)
    ensures h + ":" + mm + ":00" == h + [':'] + (mm + [':'] + "00")
  {
  }

  /** `parseTime` reads only the first two pieces. */
  lemma ReadTwoPieces(s: string, h: string, mm: string, rest: seq<string>)
    requires s != "" && Split(s, ':') == [h, mm] + rest
    ensures ParseTime(s) == ParseIntOrZero(h) * 60 + ParseIntOrZero(mm)
  {
  }

  /** Distinct minute counts get distinct labels. */
  lemma FormatTimeInjective(a: nat, b: nat)
    ensures FormatTime(a) == FormatTime(b) ==> a == b
  {
    ParseFormatRoundTrip(a);
    ParseFormatRoundTrip(b);
  }

  // ---------------------------------------------------------------------
  // Offered slots, the chosen hour and its end time
  // ---------------------------------------------------------------------

  /** The length of an offered slot in minutes. */
  const SlotMinutes := 30

  /** The end time proposed when no service is selected. */
  const DefaultDuration := 60

  /** The form's three-case test that `[s, e)` meets an appointment running
      from `ci` to `cf`: it starts inside, ends inside or wraps it. */
  predicate ThreeCaseConflict(s: int, e: int, ci: int, cf: int) {
    || (s >= ci && s < cf)
    || (e > ci && e <= cf)
    || (s < ci && e > cf)
  }

  /** For an ordered slot and an ordered appointment the three cases say
      exactly what the server's overlap test says. */
  lemma ThreeCaseIsOverlap(s: int, e: int, ci: int, cf: int)
    requires s < e && ci <= cf
    ensures ThreeCaseConflict(s, e, ci, cf) <==> AppointmentRepository.Overlaps(ci, cf, s, e)
  {
  }

  /** A slot starting at `t` is taken by a non-cancelled appointment. */
  predicate SlotTaken(t: int, a: Appointment) {
    a.status != Cancelada && ThreeCaseConflict(t, t + SlotMinutes, a.startTime, a.endTime)
  }

  predicate SlotFree(t: int, dayAppts: seq<Appointment>) {
    forall a :: a in dayAppts ==> !SlotTaken(t, a)
  }

  /** `t` is a slot the form offers for a window `[start, end)`: on the
      30-minute grid from the window's start, inside it, and free. */
  predicate Offered(start: int, end: int, dayAppts: seq<Appointment>, t: int) {
    start <= t < end && OnGrid(t, start) && SlotFree(t, dayAppts)
  }

  /** `t` is a whole number of steps from `start`. */
  predicate OnGrid(t: int, start: int) {
    (t - start) % SlotMinutes == 0
  }

  /** `generarHorasDisponibles`: walks the window in 30-minute steps and
      keeps the free starts, in increasing order. */
  method GenerateSlots(start: int, end: int, dayAppts: seq<Appointment>) returns (slots: seq<int>)
    ensures forall t :: t in slots <==> Offered(start, end, dayAppts, t)
    ensures forall i, j :: 0 <= i < j < |slots| ==> slots[i] < slots[j]
  {
    slots := [];
    var t := start;
    while t < end
      invariant start <= t && OnGrid(t, start)
      invariant forall u :: u in slots <==> Offered(start, end, dayAppts, u) && u < t
      invariant forall i, j :: 0 <= i < j < |slots| ==> slots[i] < slots[j]
      invariant forall i :: 0 <= i < |slots| ==> slots[i] < t
      decreases end - t
    {
      var taken := exists a :: a in dayAppts && SlotTaken(t, a);
      if !taken {
        slots := slots + [t];
      }
      GridGap(t, start);
      t := t + SlotMinutes;
    }
  }

  /** The grid point after `t` is a whole step further. */
  lemma GridGap(t: int, start: int)
    requires OnGrid(t, start)
    ensures OnGrid(t + SlotMinutes, start)
    ensures forall u :: OnGrid(u, start) && t < u ==> t + SlotMinutes <= u
  {
    forall u | OnGrid(u, start) && t < u ensures t + SlotMinutes <= u {
      var qu, qt := (u - start) / SlotMinutes, (t - start) / SlotMinutes;
      assert u - start == qu * SlotMinutes;
      assert t - start == qt * SlotMinutes;
      assert (qu - qt) * SlotMinutes == u - t;
    }
  }

  /** A minute falls inside a non-cancelled appointment. */
  predicate InstantTaken(m: int, a: Appointment) {
    a.status != Cancelada && a.startTime <= m < a.endTime
  }

  /** The sum of the durations of the selected services, or 60 minutes when
      that sum is zero. */
  function Duration(services: seq<ServiceOffer>): (d: nat)
    ensures d > 0
    ensures Seqs.SumOf(services, (s: ServiceOffer) => s.duration) > 0 ==>
      d == Seqs.SumOf(services, (s: ServiceOffer) => s.duration)
  {
    var total := Seqs.SumOf(services, (s: ServiceOffer) => s.duration);
    if total > 0 then total else DefaultDuration
  }

  const MsgHourTaken := "Esta hora ya está ocupada. Por favor, selecciona otra hora."

  /** `seleccionarHora`: the hour must still be offered and must not fall
      inside a booked appointment; the end is the start plus the selected
      services' duration, 60 minutes without any. */
  function SelectHour(hour: int, slots: seq<int>, dayAppts: seq<Appointment>, services: seq<ServiceOffer>)
    : (r: Result<(int, int), string>)
    ensures r.Ok? <==> hour in slots && forall a :: a in dayAppts ==> !InstantTaken(hour, a)
    ensures r.Err? ==> r.error == MsgHourTaken
    ensures r.Ok? ==> r.value.0 == hour && r.value.1 > hour
    ensures r.Ok? ==> r.value.1 - hour == Duration(services)
  {
    if hour !in slots then Err(MsgHourTaken)
    else if exists a :: a in dayAppts && InstantTaken(hour, a) then Err(MsgHourTaken)
    else Ok((hour, hour + Duration(services)))
  }

  /** The second check of `seleccionarHora` never fires for an offered
      slot: every offered hour can be selected. */
  lemma OfferedSlotSelectable(start: int, end: int, dayAppts: seq<Appointment>, slots: seq<int>,
                              hour: int, services: seq<ServiceOffer>)
    requires forall t :: t in slots <==> Offered(start, end, dayAppts, t)
    requires hour in slots
    ensures SelectHour(hour, slots, dayAppts, services).Ok?
  {
    forall a | a in dayAppts ensures !InstantTaken(hour, a) {
      assert !SlotTaken(hour, a);
    }
  }

  /** A window of 09:00-10:00 with no bookings: 09:30 is offered, yet the
      default one-hour end 10:30 lies past the window, so the server's
      availability check refuses the booking. */
  lemma LastSlotOverruns(v: Availability)
    requires v.startTime == 540 && v.endTime == 600
    ensures Offered(v.startTime, v.endTime, [], 570)
    ensures SelectHour(570, [540, 570], [], []).Ok?
    ensures SelectHour(570, [540, 570], [], []).value.1 == 630
    ensures !AppointmentService.Covers(v, 570, 630)
  {
    assert Seqs.SumOf([], (s: ServiceOffer) => s.duration) == 0;
  }

  /** Only the first 30 minutes are checked: with a booking at 10:00-11:00,
      09:30 is offered in a 09:00-12:00 window, but a one-hour service from
      09:30 overlaps the booking and the server refuses it. */
  lemma OfferedSlotCanStillClash(booked: Appointment)
    requires booked.status == Confirmada && booked.startTime == 600 && booked.endTime == 660
    ensures Offered(540, 720, [booked], 570)
    ensures AppointmentRepository.Overlaps(booked.startTime, booked.endTime, 570, 570 + DefaultDuration)
  {
  }

  // ---------------------------------------------------------------------
  // Days greyed out by an exception
  // ---------------------------------------------------------------------

  /** The exception makes the form grey out `day` for the stylist: an
      unavailable exception of that date that names no stylist (or id 0)
      or names this one.  Its hours are not looked at. */
  predicate GreysOut(e: ScheduleException, day: Day, stylist: UserId) {
    && e.date == day
    && e.kind == NoDisponible
    && (e.stylist.None? || e.stylist.value == 0 || e.stylist.value == stylist)
  }

  /** `tieneExcepcionNoDisponible`: false while no stylist is chosen (a
      missing or zero id). */
  function HasUnavailableException(day: Day, stylistId: Option<UserId>, excs: seq<ScheduleException>): (r: bool)
    ensures stylistId.None? || stylistId == Some(0) ==> !r
    ensures stylistId.Some? && stylistId.value != 0 ==>
      (r <==> exists e :: e in excs && GreysOut(e, day, stylistId.value))
  {
    if stylistId.None? || stylistId.value == 0 then false
    else exists e :: e in excs && GreysOut(e, day, stylistId.value)
  }

  /** A day the form leaves selectable has no exception the server's
      exception check could refuse a booking for. */
  lemma NotGreyedPassesExceptionCheck(excs: seq<ScheduleException>, stylist: UserId, day: Day,
                                      start: TimeOfDay, end: TimeOfDay)
    requires stylist != 0 && !HasUnavailableException(day, Some(stylist), excs)
    ensures forall e :: e in excs && AppointmentService.ExceptionApplies(e, stylist, day) ==>
      !AppointmentService.ExceptionBlocks(e, start, end)
  {
    forall e | e in excs && AppointmentService.ExceptionApplies(e, stylist, day)
      ensures !AppointmentService.ExceptionBlocks(e, start, end)
    {
      assert !GreysOut(e, day, stylist);
    }
  }

  /** A whole-day unavailable exception is greyed out, and the server
      refuses every booking of that day. */
  lemma FullDayExceptionAgrees(db: Store.Db, e: ScheduleException, stylist: UserId, day: Day,
                               start: TimeOfDay, end: TimeOfDay)
    requires stylist != 0 && e in db.exceptions
    requires e.kind == NoDisponible && e.IsFullDay() && AppointmentService.ExceptionApplies(e, stylist, day)
    ensures HasUnavailableException(day, Some(stylist), db.exceptions)
    ensures AppointmentService.ValidateStylistAvailability(db, stylist, day, start, end).Fail?
  {
    assert GreysOut(e, day, stylist);
    assert AppointmentService.ExceptionBlocks(e, start, end);
  }

  /** An unavailable hour at 12:00-13:00 greys out the whole day, though
      the server's exception check accepts 09:00-10:00 on it. */
  lemma PartialExceptionGreysWholeDay(e: ScheduleException, stylist: UserId)
    requires stylist != 0 && e.stylist == Some(stylist) && e.kind == NoDisponible
    requires e.startTime == Some(720) && e.endTime == Some(780)
    ensures HasUnavailableException(e.date, Some(stylist), [e])
    ensures !AppointmentService.ExceptionBlocks(e, 540, 600)
  {
    assert GreysOut(e, e.date, stylist);
  }

  // ---------------------------------------------------------------------
  // Weekdays, months and the month grid
  // ---------------------------------------------------------------------

  /** `getDayOfWeek`: Monday 0 ... Sunday 6 from JavaScript's Sunday-first
      numbering. */
  function MondayIndex(jsDay: int): (r: int)
    requires 0 <= jsDay < 7
    ensures 0 <= r < 7
  {
    if jsDay == 0 then 6 else jsDay - 1
  }

  /** `getDayOfWeek` and the grid's `(getDay() + 6) % 7` agree, and both
      count from the server's Monday. */
  lemma MondayIndexAgrees(d: Day)
    ensures MondayIndex(JsDay(d)) == (JsDay(d) + 6) % 7
    ensures MondayIndex(JsDay(d)) == DayOfWeekValue(WeekdayOf(d)) - 1
  {
    JsDayAgreesWithWeekday(d);
  }

  /** `mesSiguiente` on a year and a zero-based month. */
  function NextMonth(year: int, month: int): (r: (int, int))
    requires 0 <= month <= 11
    ensures 0 <= r.1 <= 11
    ensures r.0 * 12 + r.1 == year * 12 + month + 1
  {
    if month + 1 > 11 then (year + 1, 0) else (year, month + 1)
  }

  /** `mesAnterior`. */
  function PrevMonth(year: int, month: int): (r: (int, int))
    requires 0 <= month <= 11
    ensures 0 <= r.1 <= 11
    ensures r.0 * 12 + r.1 == year * 12 + month - 1
  {
    if month - 1 < 0 then (year - 1, 11) else (year, month - 1)
  }

  /** Going forward then back, or back then forward, returns to the month. */
  lemma MonthNavigationInverse(year: int, month: int)
    requires 0 <= month <= 11
    ensures PrevMonth(NextMonth(year, month).0, NextMonth(year, month).1) == (year, month)
    ensures NextMonth(PrevMonth(year, month).0, PrevMonth(year, month).1) == (year, month)
  {
  }

  /** The blank cells before the 1st: the weekday of the 1st, Monday first. */
  function Lead(year: int, month: int): (r: nat)
    requires 1 <= month <= 12
    ensures r < 7
  {
    (JsDay(DaysFromCivil(year, month, 1)) + 6) % 7
  }

  /** Cell `k` of the grid, counting row by row: blank, or a day of the month. */
  function Cell(lead: nat, days: nat, k: int): Option<nat> {
    if lead <= k < lead + days then Some(k - lead + 1) else None
  }

  /** Every row of `weeks` has seven cells, and they are the cells `Cell`
      gives for those positions. */
  ghost predicate RowsFit(weeks: seq<seq<Option<nat>>>, lead: nat, n: nat) {
    && (forall w :: 0 <= w < |weeks| ==> |weeks[w]| == 7)
    && (forall w, d :: 0 <= w < |weeks| && 0 <= d < 7 ==> weeks[w][d] == Cell(lead, n, 7 * w + d))
  }

  /** The row being filled holds the cells that follow the complete rows. */
  ghost predicate RowFits(week: seq<Option<nat>>, row: nat, lead: nat, n: nat) {
    forall d :: 0 <= d < |week| ==> week[d] == Cell(lead, n, 7 * row + d)
  }

  lemma AppendRow(weeks: seq<seq<Option<nat>>>, week: seq<Option<nat>>, lead: nat, n: nat)
    requires RowsFit(weeks, lead, n) && |week| == 7 && RowFits(week, |weeks|, lead, n)
    ensures RowsFit(weeks + [week], lead, n)
  {
    var ws := weeks + [week];
    forall w, d | 0 <= w < |ws| && 0 <= d < 7
      ensures ws[w][d] == Cell(lead, n, 7 * w + d)
    {
      if w < |weeks| {
        assert ws[w] == weeks[w];
      }
    }
  }

  /** `generarCalendario` for a month numbered 1 to 12: rows of seven cells,
      blanks before the 1st, the days in order, blanks after the last, and
      no all-blank row. */
  method BuildMonth(year: int, month: int) returns (weeks: seq<seq<Option<nat>>>)
    requires 1 <= month <= 12
    ensures |weeks| == (Lead(year, month) + DaysInMonth(year, month) + 6) / 7
    ensures forall w :: 0 <= w < |weeks| ==> |weeks[w]| == 7
    ensures forall w, d :: 0 <= w < |weeks| && 0 <= d < 7 ==>
      weeks[w][d] == Cell(Lead(year, month), DaysInMonth(year, month), 7 * w + d)
  {
    var lead := Lead(year, month);
    var n := DaysInMonth(year, month);
    var week: seq<Option<nat>> := [];
    var i := 0;
    while i < lead
      invariant 0 <= i <= lead && |week| == i
      invariant RowFits(week, 0, lead, n)
    {
      week := week + [None];
      i := i + 1;
    }
    weeks, week := PlaceDays(lead, n, week);
    ghost var filled := |week|;
    while |week| < 7
      invariant 7 * |weeks| + filled == lead + n && filled <= |week| <= 7
      invariant RowFits(week, |weeks|, lead, n)
      decreases 7 - |week|
    {
      week := week + [None];
    }
    RowCount(|weeks|, filled);
    if exists d :: 0 <= d < 7 && week[d].Some? {
      AppendRow(weeks, week, lead, n);
      weeks := weeks + [week];
    } else {
      assert filled > 0 ==> week[filled - 1] == Cell(lead, n, lead + n - 1);
    }
  }

  /** The loop over the days of the month: each day goes into the current
      row, and a full row is pushed. */
  method PlaceDays(lead: nat, n: nat, start: seq<Option<nat>>) returns (weeks: seq<seq<Option<nat>>>, week: seq<Option<nat>>)
    requires lead < 7 && |start| == lead && RowFits(start, 0, lead, n)
    ensures 7 * |weeks| + |week| == lead + n && |week| < 7
    ensures RowsFit(weeks, lead, n) && RowFits(week, |weeks|, lead, n)
  {
    weeks, week := [], start;
    var day := 1;
    while day <= n
      invariant 1 <= day <= n + 1
      invariant 7 * |weeks| + |week| == lead + day - 1 && |week| < 7
      invariant RowsFit(weeks, lead, n) && RowFits(week, |weeks|, lead, n)
    {
      week := week + [Some(day)];
      if |week| == 7 {
        AppendRow(weeks, week, lead, n);
        weeks := weeks + [week];
        week := [];
      }
      day := day + 1;
    }
  }

  /** The rows needed for `7 * q + r` cells. */
  lemma RowCount(q: nat, r: nat)
    requires r < 7
    ensures (7 * q + r + 6) / 7 == if r == 0 then q else q + 1
  {
  }
}
