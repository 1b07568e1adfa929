/** Weekly opening hours (packages/shared/src/restaurant-hours.ts), minute by minute. */
module RestaurantHours {
  import opened Options

  const DAY_MINUTES := 1440

  /** A same-day window in minutes of the day; the closing minute is not in it. */
  datatype Window = Window(open: nat, close: nat)

  /** Weekday 0 is Sunday; a closed day is absent. */
  type Week = map<nat, Window>

  /** A wall-clock minute: days counted from a Sunday, and the minute of the day. */
  datatype Time = Time(day: nat, minute: nat)

  datatype Opening = Opening(time: nat, dayOffset: nat, weekday: nat)

  ghost predicate ValidWeek(w: Week) {
    forall d :: d in w ==> d < 7 && w[d].open < w[d].close <= DAY_MINUTES
  }

  predicate ValidTime(t: Time) {
    t.minute < DAY_MINUTES
  }

  function Weekday(day: nat): nat {
    day % 7
  }

  predicate Earlier(s: Time, t: Time) {
    s.day < t.day || (s.day == t.day && s.minute < t.minute)
  }

  /** No hours at all read as open; a configured week without today as closed today. */
  predicate IsMerchantOpenNow(hours: Option<Week>, now: Time) {
    hours.None? ||
    (Weekday(now.day) in hours.value &&
     var w := hours.value[Weekday(now.day)]; w.open <= now.minute < w.close)
  }

  // ---------------------------------------------------------------- the next opening

  predicate HasWindow(w: Week, day: nat, step: nat) {
    Weekday(day + step) in w
  }

  /** The first of the days `step` to 7 from now that has a window. */
  function FirstDay(w: Week, day: nat, step: nat): Option<nat>
    decreases 8 - step
  {
    if step > 7 then None
    else if HasWindow(w, day, step) then Some(step)
    else FirstDay(w, day, step + 1)
  }

  function NextOpen(hours: Option<Week>, now: Time): Option<Opening> {
    if hours.None? || IsMerchantOpenNow(hours, now) then None
    else
      var w := hours.value;
      var today := Weekday(now.day);
      if today in w && now.minute < w[today].open then Some(Opening(w[today].open, 0, today))
      else
        var step := FirstDay(w, now.day, 1);
        if step.None? then None
        else Some(Opening(NthWindow(w, now.day, step.value).open, step.value, Weekday(now.day + step.value)))
  }

  function NthWindow(w: Week, day: nat, step: nat): Window {
    if HasWindow(w, day, step) then w[Weekday(day + step)] else Window(0, 0)
  }

  method NextOpening(hours: Option<Week>, now: Time) returns (opening: Option<Opening>)
    ensures opening == NextOpen(hours, now)
  {
    if hours.None? || IsMerchantOpenNow(hours, now) { return None; }
    var today := Weekday(now.day);
    if today in hours.value && now.minute < hours.value[today].open {
      return Some(Opening(hours.value[today].open, 0, today));
    }
    for step := 1 to 8
      invariant FirstDay(hours.value, now.day, 1) == FirstDay(hours.value, now.day, step)
    {
      var key := Weekday(now.day + step);
      if key in hours.value {
        return Some(Opening(hours.value[key].open, step, key));
      }
    }
    opening := None;
  }

  /** The minute an opening names. */
  function When(now: Time, o: Opening): Time {
    Time(now.day + o.dayOffset, o.time)
  }

  /** A minute of the coming week. */
  predicate InWeek(now: Time, m: Time) {
    ValidTime(m) && !Earlier(m, now) && Earlier(m, Time(now.day + 7, now.minute))
  }

  /** What a minute-by-minute search from `now` would answer. */
  ghost predicate IsFirstOpen(open: Time -> bool, now: Time, m: Time) {
    InWeek(now, m) && open(m) && forall k :: InWeek(now, k) && Earlier(k, m) ==> !open(k)
  }

  ghost predicate SearchAgrees(open: Time -> bool, now: Time, answer: Option<Opening>) {
    if answer.Some? then IsFirstOpen(open, now, When(now, answer.value))
    else forall k :: InWeek(now, k) ==> !open(k)
  }

  lemma {:induction false} FirstDayIsFirst(w: Week, day: nat, step: nat)
    requires step <= 8
    ensures var s := FirstDay(w, day, step);
            && (s.Some? ==> step <= s.value <= 7 && HasWindow(w, day, s.value))
            && forall k: nat :: step <= k <= 7 && (s.Some? ==> k < s.value) ==> !HasWindow(w, day, k)
    decreases 8 - step
  {
    if step <= 7 && !HasWindow(w, day, step) { FirstDayIsFirst(w, day, step + 1); }
  }

  /** Open at a minute of a later day means a window that day. */
  lemma OpenNeedsWindow(w: Week, m: Time)
    requires IsMerchantOpenNow(Some(w), m)
    ensures Weekday(m.day) in w && w[Weekday(m.day)].open <= m.minute
  {}

  lemma WeekdayRepeats(day: nat)
    ensures Weekday(day + 7) == Weekday(day)
  {}

  /** For a closed venue the search by days is a search by minutes: it answers the first open minute of the coming
      week, and nothing exactly when no minute of it is open. */
  lemma NextOpeningIsTheFirst(w: Week, now: Time)
    requires ValidWeek(w) && ValidTime(now) && !IsMerchantOpenNow(Some(w), now)
    ensures SearchAgrees(m => IsMerchantOpenNow(Some(w), m), now, NextOpen(Some(w), now))
  {
    var today := Weekday(now.day);
    FirstDayIsFirst(w, now.day, 1);
    WeekdayRepeats(now.day);
    var o := NextOpen(Some(w), now);
    forall k | InWeek(now, k) && (o.Some? ==> Earlier(k, When(now, o.value))) ensures !IsMerchantOpenNow(Some(w), k) {
      ClosedBefore(w, now, k);
    }
    if o.Some? { OpensThen(w, now); }
  }

  lemma OpensThen(w: Week, now: Time)
    requires ValidWeek(w) && ValidTime(now) && !IsMerchantOpenNow(Some(w), now) && NextOpen(Some(w), now).Some?
    ensures var m := When(now, NextOpen(Some(w), now).value); InWeek(now, m) && IsMerchantOpenNow(Some(w), m)
  {
    FirstDayIsFirst(w, now.day, 1);
    WeekdayRepeats(now.day);
  }

  lemma ClosedBefore(w: Week, now: Time, k: Time)
    requires ValidWeek(w) && ValidTime(now) && !IsMerchantOpenNow(Some(w), now) && InWeek(now, k)
    requires var o := NextOpen(Some(w), now); o.Some? ==> Earlier(k, When(now, o.value))
    ensures !IsMerchantOpenNow(Some(w), k)
  {
    FirstDayIsFirst(w, now.day, 1);
    WeekdayRepeats(now.day);
    var step: nat := k.day - now.day;
    assert HasWindow(w, now.day, step) <==> Weekday(k.day) in w;
    if IsMerchantOpenNow(Some(w), k) { OpenNeedsWindow(w, k); }
  }

  /** A venue that is open, as one without hours always is, has no next opening. */
  lemma NoOpeningWhileOpen(hours: Option<Week>, now: Time)
    requires hours.None? || IsMerchantOpenNow(hours, now)
    ensures NextOpen(hours, now) == None
  {}

  /** The day named is the day of the opening, at most a week ahead, and it opens then. */
  lemma OpeningNamesItsDay(w: Week, now: Time)
    requires NextOpen(Some(w), now).Some?
    ensures var o := NextOpen(Some(w), now).value;
            && o.dayOffset <= 7 && o.weekday == (now.day + o.dayOffset) % 7
            && o.weekday in w && o.time == w[o.weekday].open
  {
    FirstDayIsFirst(w, now.day, 1);
  }

  /** How many of the first `n` minutes of a day the venue is open. */
  function OpenMinutes(hours: Option<Week>, day: nat, n: nat): nat {
    if n == 0 then 0 else OpenMinutes(hours, day, n - 1) + if IsMerchantOpenNow(hours, Time(day, n - 1)) then 1 else 0
  }

  lemma {:induction false} OpenMinutesOf(w: Week, day: nat, n: nat)
    requires Weekday(day) in w && w[Weekday(day)].open < w[Weekday(day)].close
    ensures var v := w[Weekday(day)];
            OpenMinutes(Some(w), day, n) == if n <= v.open then 0 else if n <= v.close then n - v.open else v.close - v.open
  {
    if n > 0 { OpenMinutesOf(w, day, n - 1); }
  }

  lemma {:induction false} AllOrNoMinutes(hours: Option<Week>, day: nat, n: nat)
    requires hours.Some? ==> Weekday(day) !in hours.value
    ensures OpenMinutes(hours, day, n) == if hours.None? then n else 0
  {
    if n > 0 { AllOrNoMinutes(hours, day, n - 1); }
  }

  /** A venue is open for exactly the minutes between its times, counted over the day, and none of them is before the
      first: all day without any hours, and not at all on a day left out of them. */
  lemma OpenAsLongAsItsWindow(hours: Option<Week>, day: nat)
    requires hours.Some? ==> ValidWeek(hours.value)
    ensures var d := day % 7;
            if hours.None? then OpenMinutes(hours, day, 1440) == 1440
            else if d !in hours.value then OpenMinutes(hours, day, 1440) == 0
            else
              var v := hours.value[d];
              && OpenMinutes(hours, day, v.open) == 0
              && OpenMinutes(hours, day, v.close) == OpenMinutes(hours, day, 1440) == v.close - v.open
  {
    if hours.None? || Weekday(day) !in hours.value {
      AllOrNoMinutes(hours, day, 1440);
    } else {
      var v := hours.value[Weekday(day)];
      OpenMinutesOf(hours.value, day, v.open);
      OpenMinutesOf(hours.value, day, v.close);
      OpenMinutesOf(hours.value, day, 1440);
    }
  }

  // ---------------------------------------------------------------- closed by hand

  /** While closed by hand, today is dropped; no hours at all become an empty week. */
  function EffectiveMerchantHours(hours: Option<Week>, closedUntil: Option<Time>, now: Time): Option<Week> {
    if closedUntil.None? || !Earlier(now, closedUntil.value) then hours
    else Some(hours.GetOr(map[]) - {Weekday(now.day)})
  }

  function StartOfNextDay(now: Time): Time {
    Time(now.day + 1, 0)
  }

  /** What a client shows at minute `m`. */
  predicate Reads(hours: Option<Week>, closedUntil: Option<Time>, m: Time) {
    IsMerchantOpenNow(EffectiveMerchantHours(hours, closedUntil, m), m)
  }

  /** A hand-close until the next day reads closed until then, and as the stored week after. */
  lemma HandCloseReads(hours: Option<Week>, closed: Time, m: Time)
    requires ValidTime(closed) && ValidTime(m) && !Earlier(m, closed)
    ensures Reads(hours, Some(StartOfNextDay(closed)), m) <==>
            !Earlier(m, StartOfNextDay(closed)) && IsMerchantOpenNow(hours, m)
  {}

  /** Some other weekday has a window, or today's has not begun: then the dropped day is not missed. */
  predicate AnotherDay(w: Week, now: Time) {
    || (exists d :: d in w && d != Weekday(now.day))
    || Weekday(now.day) !in w
    || now.minute <= w[Weekday(now.day)].open
  }

  lemma DropToday(w: Week, now: Time, k: Time)
    requires ValidTime(now) && InWeek(now, k)
    ensures k.day <= now.day + 6 ==>
              (Reads(Some(w), Some(StartOfNextDay(now)), k) <==> IsMerchantOpenNow(Some(w - {Weekday(now.day)}), k))
    ensures k.day == now.day + 7 ==>
              Reads(Some(w), Some(StartOfNextDay(now)), k) == IsMerchantOpenNow(Some(w), k)
              && !IsMerchantOpenNow(Some(w - {Weekday(now.day)}), k)
  {
    HandCloseReads(Some(w), now, k);
    WeekdayRepeats(now.day);
    if now.day < k.day <= now.day + 6 { WeekdaysDiffer(now.day, k.day - now.day); }
  }

  lemma WeekdaysDiffer(day: nat, step: nat)
    requires 1 <= step <= 6
    ensures Weekday(day + step) != Weekday(day)
  {}

  lemma SomeWindowWithin(w: Week, d: nat, day: nat) returns (step: nat)
    requires d in w && d < 7 && d != Weekday(day)
    ensures 1 <= step <= 6 && HasWindow(w, day, step)
  {
    step := (d + 7 - Weekday(day)) % 7;
  }

  /** While closed by hand the next opening is what a minute-by-minute search of what clients will show finds,
      exactly when the venue has hours and the dropped weekday is not the only one with a window (or its window has
      not begun, so that it lies a whole week ahead). */
  lemma HandCloseNextOpeningIff(hours: Option<Week>, now: Time)
    requires (hours.Some? ==> ValidWeek(hours.value)) && ValidTime(now)
    ensures var cu := Some(StartOfNextDay(now));
            SearchAgrees(m => Reads(hours, cu, m), now, NextOpen(EffectiveMerchantHours(hours, cu, now), now))
            <==> hours.Some? && AnotherDay(hours.value, now)
  {
    if hours.Some? { HandCloseOfWeek(hours.value, now); } else { HandCloseOfNoHours(now); }
  }

  /** A venue with no hours is open again at midnight, and no next opening is named. */
  lemma HandCloseOfNoHours(now: Time)
    requires ValidTime(now)
    ensures var cu := Some(StartOfNextDay(now));
            !SearchAgrees(m => Reads(None, cu, m), now, NextOpen(EffectiveMerchantHours(None, cu, now), now))
  {
    var cu := Some(StartOfNextDay(now));
    FirstDayIsFirst(map[], now.day, 1);
    assert EffectiveMerchantHours(None, cu, now) == Some(map[]);
    assert NextOpen(Some(map[]), now) == None;
    assert InWeek(now, StartOfNextDay(now)) && Reads(None, cu, StartOfNextDay(now));
  }

  lemma HandCloseOfWeek(w: Week, now: Time)
    requires ValidWeek(w) && ValidTime(now)
    ensures var cu := Some(StartOfNextDay(now));
            SearchAgrees(m => Reads(Some(w), cu, m), now, NextOpen(EffectiveMerchantHours(Some(w), cu, now), now))
            <==> AnotherDay(w, now)
  {
    var cu := Some(StartOfNextDay(now));
    var v := w - {Weekday(now.day)};
    assert EffectiveMerchantHours(Some(w), cu, now) == Some(v);
    NextOpeningIsTheFirst(v, now);
    if AnotherDay(w, now) { HandCloseRight(w, now); } else { HandCloseWrong(w, now); }
  }

  lemma HandCloseWrong(w: Week, now: Time)
    requires ValidWeek(w) && ValidTime(now) && !AnotherDay(w, now)
    ensures var cu := Some(StartOfNextDay(now));
            !SearchAgrees(m => Reads(Some(w), cu, m), now, NextOpen(Some(w - {Weekday(now.day)}), now))
  {
    var today := Weekday(now.day);
    var v := w - {today};
    var m := Time(now.day + 7, w[today].open);
    WeekdayRepeats(now.day);
    DropToday(w, now, m);
    FirstDayIsFirst(v, now.day, 1);
    assert NextOpen(Some(v), now).None?;
    assert Reads(Some(w), Some(StartOfNextDay(now)), m) && InWeek(now, m);
  }

  lemma HandCloseRight(w: Week, now: Time)
    requires ValidWeek(w) && ValidTime(now) && AnotherDay(w, now)
    requires var v := w - {Weekday(now.day)}; SearchAgrees(m => IsMerchantOpenNow(Some(v), m), now, NextOpen(Some(v), now))
    ensures var cu := Some(StartOfNextDay(now));
            SearchAgrees(m => Reads(Some(w), cu, m), now, NextOpen(Some(w - {Weekday(now.day)}), now))
  {
    var v := w - {Weekday(now.day)};
    var cu := Some(StartOfNextDay(now));
    var o := NextOpen(Some(v), now);
    FirstDayIsFirst(v, now.day, 1);
    forall k | InWeek(now, k) && (o.Some? ==> Earlier(k, When(now, o.value))) ensures !Reads(Some(w), cu, k) {
      DropToday(w, now, k);
      if k.day == now.day + 7 { LastDay(w, now, k); }
    }
    if o.Some? {
      var m := When(now, o.value);
      DropToday(w, now, m);
    }
  }

  /** The same weekday a week on, before the minute of now: reached by the search only if nothing else is open. */
  lemma LastDay(w: Week, now: Time, k: Time)
    requires ValidWeek(w) && ValidTime(now) && AnotherDay(w, now) && InWeek(now, k) && k.day == now.day + 7
    requires var o := NextOpen(Some(w - {Weekday(now.day)}), now); o.Some? ==> Earlier(k, When(now, o.value))
    ensures !Reads(Some(w), Some(StartOfNextDay(now)), k)
  {
    var today := Weekday(now.day);
    var v := w - {today};
    WeekdayRepeats(now.day);
    HandCloseReads(Some(w), now, k);
    FirstDayIsFirst(v, now.day, 1);
    if d :| d in w && d != today {
      var step := SomeWindowWithin(v, d, now.day);
    }
  }
}
