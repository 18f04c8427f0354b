/**
 * The month generator as a function of the store: which rows one call to the
 * generator inserts, when it refuses, and what it does to the monthly plans.
 * The imperative loop that performs it is `Store.Store.GenerateMonthSessions`.
 */
module Logic {
  import opened Wrappers
  import opened Calendar
  import opened Schedule
  import opened Navigation
  import opened Tables

  /** The row `create_session` inserts: given date, times and topic, the default venue, schema defaults for the rest. */
  function NewSession(id: nat, date: Date, def: SessionDef): Session
  {
    Session(id, date, def.start, Some(def.end), DefaultLocation, def.topic, None, false)
  }

  /**
   * The template slots of every day of the month, day 1 first: what the loop
   * resolves from each day's weekday and the month's season.
   */
  function MonthPlan(y: nat, m: nat): seq<seq<SessionDef>>
    requires 1 <= m <= 12
  {
    seq(DaysInMonth(y, m), i requires 0 <= i => Resolve(Weekday(Date(y, m, i + 1)), IsSummer(m)))
  }

  /** The rows created on day d of the month from its slots, numbered from `firstId`. */
  function DayRows(y: nat, m: nat, d: nat, defs: seq<SessionDef>, firstId: nat): seq<Session>
  {
    seq(|defs|, i requires 0 <= i < |defs| => NewSession(firstId + i, Date(y, m, d), defs[i]))
  }

  /** The rows created for days 1..last, in the order the loop creates them. */
  function RowsThrough(y: nat, m: nat, plan: seq<seq<SessionDef>>, last: nat, firstId: nat): seq<Session>
    requires last <= |plan|
    decreases last
  {
    if last == 0 then []
    else
      var before := RowsThrough(y, m, plan, last - 1, firstId);
      before + DayRows(y, m, last, plan[last - 1], firstId + |before|)
  }

  /** Everything one successful generation inserts into the sessions table. */
  function MonthSessions(y: nat, m: nat, firstId: nat): seq<Session>
    requires 1 <= m <= 12
  {
    RowsThrough(y, m, MonthPlan(y, m), DaysInMonth(y, m), firstId)
  }

  /** A plan row for the month is inserted, unpublished, only if none exists. */
  function EnsurePlan(plans: map<YearMonth, bool>, ym: YearMonth): (r: map<YearMonth, bool>)
    ensures ym in r && r.Keys == plans.Keys + {ym}
    ensures forall k :: k in plans ==> r[k] == plans[k]
    ensures ym !in plans ==> !r[ym]
  {
    if ym in plans then plans else plans[ym := false]
  }

  datatype Generation = Generation(ok: bool, db: Db)

  /**
   * `generate_month_sessions(year, month)`: refuses (false, nothing written) for
   * a month outside 1..12 or a month that already has sessions; otherwise
   * appends the month's sessions and makes sure a plan row exists.
   */
  function Generate(db: Db, year: nat, month: nat): (g: Generation)
    ensures g.ok <==> 1 <= month <= 12 && !HasSessionIn(db.sessions, YearMonth(year, month))
    ensures !g.ok ==> g.db == db
    ensures g.ok ==> db.sessions <= g.db.sessions && g.db.availability == db.availability
    ensures g.ok ==> YearMonth(year, month) in g.db.plans
    ensures g.db.plans.Keys <= db.plans.Keys + {YearMonth(year, month)}
    ensures forall k :: k in db.plans ==> k in g.db.plans && g.db.plans[k] == db.plans[k]
    ensures g.ok && YearMonth(year, month) !in db.plans ==> !g.db.plans[YearMonth(year, month)]
  {
    var ym := YearMonth(year, month);
    if month < 1 || month > 12 then Generation(false, db)
    else if HasSessionIn(db.sessions, ym) then Generation(false, db)
    else
      var rows := MonthSessions(year, month, db.nextId);
      Generation(true, Db(db.sessions + rows, EnsurePlan(db.plans, ym), db.availability, db.nextId + |rows|))
  }

  // ---------------------------------------------------------------------------
  // Shape of the generated rows, first for any plan whose days have ordered,
  // non-empty slots, then for the month's own plan.

  /** Slots of one day start before they end and are listed by increasing start time. */
  predicate DefsOrdered(defs: seq<SessionDef>)
  {
    && (forall i :: 0 <= i < |defs| ==> defs[i].start < defs[i].end)
    && (forall i, j :: 0 <= i < j < |defs| ==> defs[i].start < defs[j].start)
  }

  predicate PlanOrdered(plan: seq<seq<SessionDef>>)
  {
    forall d :: 0 <= d < |plan| ==> DefsOrdered(plan[d])
  }

  /** Consecutive ids from `firstId`, in table order. */
  predicate IdsFrom(rows: seq<Session>, firstId: nat)
  {
    forall i :: 0 <= i < |rows| ==> rows[i].id == firstId + i
  }

  /** The values `create_session` leaves to the defaults: venue, no trainer, unconfirmed; and an end after the start. */
  predicate Defaults(s: Session)
  {
    s.endTime.Some? && s.time < s.endTime.value && s.location == DefaultLocation && s.trainer.None? && !s.confirmed
  }

  /** A row of month (y, m) dated on a day in 1..last that has slots in the plan. */
  predicate FromPlan(s: Session, y: nat, m: nat, plan: seq<seq<SessionDef>>, last: nat)
  {
    && s.date.year == y && s.date.month == m
    && 1 <= s.date.day <= last && s.date.day <= |plan| && plan[s.date.day - 1] != []
    && Defaults(s)
  }

  predicate AllFromPlan(rows: seq<Session>, y: nat, m: nat, plan: seq<seq<SessionDef>>, last: nat)
  {
    forall i :: 0 <= i < |rows| ==> FromPlan(rows[i], y, m, plan, last)
  }

  /** (day, start time) strictly increases from a to b. */
  predicate Earlier(a: Session, b: Session)
  {
    a.date.day < b.date.day || (a.date.day == b.date.day && a.time < b.time)
  }

  predicate Ascending(rows: seq<Session>)
  {
    forall i, j :: 0 <= i < j < |rows| ==> Earlier(rows[i], rows[j])
  }

  predicate DaysAtMost(rows: seq<Session>, d: nat)
  {
    forall i :: 0 <= i < |rows| ==> rows[i].date.day <= d
  }

  predicate AllOnDay(rows: seq<Session>, y: nat, m: nat, d: nat)
  {
    forall i :: 0 <= i < |rows| ==> rows[i].date == Date(y, m, d)
  }

  lemma IdsFromAppend(a: seq<Session>, b: seq<Session>, firstId: nat)
    requires IdsFrom(a, firstId) && IdsFrom(b, firstId + |a|)
    ensures IdsFrom(a + b, firstId)
  {
  }

  lemma AllFromPlanAppend(a: seq<Session>, b: seq<Session>, y: nat, m: nat, plan: seq<seq<SessionDef>>, last: nat)
    requires last >= 1
    requires AllFromPlan(a, y, m, plan, last - 1) && AllFromPlan(b, y, m, plan, last)
    ensures AllFromPlan(a + b, y, m, plan, last)
  {
  }

  lemma AscendingAppend(a: seq<Session>, b: seq<Session>, y: nat, m: nat, last: nat)
    requires last >= 1
    requires Ascending(a) && DaysAtMost(a, last - 1)
    requires Ascending(b) && AllOnDay(b, y, m, last)
    ensures Ascending(a + b) && DaysAtMost(a + b, last)
  {
  }

  /** The rows of one day: that date, consecutive ids, the defaults, increasing start times. */
  lemma DayShape(y: nat, m: nat, d: nat, defs: seq<SessionDef>, firstId: nat)
    requires DefsOrdered(defs)
    ensures var r := DayRows(y, m, d, defs, firstId);
      && |r| == |defs|
      && AllOnDay(r, y, m, d) && IdsFrom(r, firstId) && Ascending(r)
      && (forall i :: 0 <= i < |r| ==> Defaults(r[i]))
  {
    var r := DayRows(y, m, d, defs, firstId);
    assert forall i :: 0 <= i < |r| ==> r[i] == NewSession(firstId + i, Date(y, m, d), defs[i]);
  }

  /** The rows of day d with slots are rows from the plan dated on day d. */
  lemma DayFromPlan(y: nat, m: nat, plan: seq<seq<SessionDef>>, d: nat, firstId: nat)
    requires 1 <= d <= |plan| && DefsOrdered(plan[d - 1])
    ensures AllFromPlan(DayRows(y, m, d, plan[d - 1], firstId), y, m, plan, d)
  {
    DayShape(y, m, d, plan[d - 1], firstId);
    var r := DayRows(y, m, d, plan[d - 1], firstId);
    forall i | 0 <= i < |r| ensures FromPlan(r[i], y, m, plan, d) {
      assert r[i].date == Date(y, m, d);
    }
  }

  /**
   * Every row created for days 1..last lies in the month on a day in 1..last
   * whose slots are not empty, carries the defaults, and the ids are
   * consecutive from `firstId`.
   */
  lemma {:induction false} ThroughShape(y: nat, m: nat, plan: seq<seq<SessionDef>>, last: nat, firstId: nat)
    requires last <= |plan| && PlanOrdered(plan)
    ensures var r := RowsThrough(y, m, plan, last, firstId);
      IdsFrom(r, firstId) && AllFromPlan(r, y, m, plan, last)
    decreases last
  {
    if last > 0 {
      var before := RowsThrough(y, m, plan, last - 1, firstId);
      var day := DayRows(y, m, last, plan[last - 1], firstId + |before|);
      ThroughShape(y, m, plan, last - 1, firstId);
      DayShape(y, m, last, plan[last - 1], firstId + |before|);
      DayFromPlan(y, m, plan, last, firstId + |before|);
      IdsFromAppend(before, day, firstId);
      AllFromPlanAppend(before, day, y, m, plan, last);
    }
  }

  /** Rows are created in increasing (day, start time) order: days ascending, slots of a day by start time. */
  lemma {:induction false} ThroughOrdered(y: nat, m: nat, plan: seq<seq<SessionDef>>, last: nat, firstId: nat)
    requires last <= |plan| && PlanOrdered(plan)
    ensures var r := RowsThrough(y, m, plan, last, firstId);
      Ascending(r) && DaysAtMost(r, last)
    decreases last
  {
    if last > 0 {
      var before := RowsThrough(y, m, plan, last - 1, firstId);
      var day := DayRows(y, m, last, plan[last - 1], firstId + |before|);
      ThroughOrdered(y, m, plan, last - 1, firstId);
      DayShape(y, m, last, plan[last - 1], firstId + |before|);
      AscendingAppend(before, day, y, m, last);
    }
  }

  /** The (start, end, topic) a row carries, and the one a template slot asks for. */
  function Slot(s: Session): (TimeOfDay, Option<TimeOfDay>, string) { (s.time, s.endTime, s.topic) }

  function DefSlots(defs: seq<SessionDef>): seq<(TimeOfDay, Option<TimeOfDay>, string)>
  {
    seq(|defs|, i requires 0 <= i < |defs| => (defs[i].start, Some(defs[i].end), defs[i].topic))
  }

  /** The slots of the rows dated on day d, in table order. */
  function SlotsOn(rows: seq<Session>, d: nat): seq<(TimeOfDay, Option<TimeOfDay>, string)>
  {
    if rows == [] then []
    else (if rows[0].date.day == d then [Slot(rows[0])] else []) + SlotsOn(rows[1..], d)
  }

  lemma {:induction false} SlotsOnAppend(a: seq<Session>, b: seq<Session>, d: nat)
    ensures SlotsOn(a + b, d) == SlotsOn(a, d) + SlotsOn(b, d)
    decreases |a|
  {
    if a == [] {
      assert a + b == b;
    } else {
      assert (a + b)[1..] == a[1..] + b;
      SlotsOnAppend(a[1..], b, d);
    }
  }

  lemma {:induction false} SlotsOnOneDay(rows: seq<Session>, d0: nat, d: nat)
    requires forall i :: 0 <= i < |rows| ==> rows[i].date.day == d0
    ensures SlotsOn(rows, d) == if d == d0 then seq(|rows|, i requires 0 <= i < |rows| => Slot(rows[i])) else []
    decreases |rows|
  {
    if rows != [] {
      SlotsOnOneDay(rows[1..], d0, d);
    }
  }

  lemma DaySlots(y: nat, m: nat, day: nat, defs: seq<SessionDef>, firstId: nat, d: nat)
    ensures SlotsOn(DayRows(y, m, day, defs, firstId), d) == if d == day then DefSlots(defs) else []
  {
    var rows := DayRows(y, m, day, defs, firstId);
    forall i | 0 <= i < |rows|
      ensures rows[i].date.day == day && Slot(rows[i]) == DefSlots(defs)[i]
    {
      assert rows[i] == NewSession(firstId + i, Date(y, m, day), defs[i]);
    }
    SlotsOnOneDay(rows, day, d);
    if d == day {
      assert seq(|rows|, i requires 0 <= i < |rows| => Slot(rows[i])) == DefSlots(defs);
    }
  }

  /**
   * The rows created for day d (1 <= d <= last) carry exactly the plan's
   * slots for that day, in plan order; no row is created for any other day.
   */
  lemma {:induction false} ThroughMatchesPlan(y: nat, m: nat, plan: seq<seq<SessionDef>>, last: nat, firstId: nat, d: nat)
    requires last <= |plan|
    ensures SlotsOn(RowsThrough(y, m, plan, last, firstId), d)
      == if 1 <= d <= last then DefSlots(plan[d - 1]) else []
    decreases last
  {
    if last > 0 {
      var before := RowsThrough(y, m, plan, last - 1, firstId);
      var day := DayRows(y, m, last, plan[last - 1], firstId + |before|);
      assert RowsThrough(y, m, plan, last, firstId) == before + day;
      ThroughMatchesPlan(y, m, plan, last - 1, firstId, d);
      SlotsOnAppend(before, day, d);
      DaySlots(y, m, last, plan[last - 1], firstId + |before|, d);
      if d == last {
        assert SlotsOn(before, d) == [];
      } else {
        assert SlotsOn(day, d) == [];
      }
    }
  }

  /** The template's slots never overlap, so every day's slots are ordered. */
  lemma MonthPlanOrdered(y: nat, m: nat)
    requires 1 <= m <= 12
    ensures PlanOrdered(MonthPlan(y, m))
  {
    var plan := MonthPlan(y, m);
    forall d | 0 <= d < |plan| ensures DefsOrdered(plan[d]) {
      var defs := Resolve(Weekday(Date(y, m, d + 1)), IsSummer(m));
      assert plan[d] == defs;
    }
  }

  /** What every generated row looks like. */
  predicate GeneratedRow(s: Session, y: nat, m: nat)
    requires 1 <= m <= 12
  {
    && s.date.year == y && s.date.month == m
    && 1 <= s.date.day <= DaysInMonth(y, m)
    && IsTrainingDay(Weekday(s.date))
    && Defaults(s)
  }

  /** A row taken from a day of the month's plan that has slots is a generated row. */
  lemma FromMonthPlan(s: Session, y: nat, m: nat)
    requires 1 <= m <= 12 && FromPlan(s, y, m, MonthPlan(y, m), DaysInMonth(y, m))
    ensures GeneratedRow(s, y, m)
  {
    var d := s.date.day;
    assert MonthPlan(y, m)[d - 1] == Resolve(Weekday(Date(y, m, d)), IsSummer(m));
    assert s.date == Date(y, m, d);
  }

  /**
   * Every generated row lies in the month on a Wednesday, Friday or Saturday,
   * starts before it ends, has the default venue, no trainer and is not
   * confirmed; ids are consecutive from the next auto-increment id.
   */
  lemma MonthShape(y: nat, m: nat, firstId: nat)
    requires 1 <= m <= 12
    ensures var r := MonthSessions(y, m, firstId);
      IdsFrom(r, firstId) && forall i :: 0 <= i < |r| ==> GeneratedRow(r[i], y, m)
  {
    var r := MonthSessions(y, m, firstId);
    MonthPlanOrdered(y, m);
    ThroughShape(y, m, MonthPlan(y, m), DaysInMonth(y, m), firstId);
    forall i | 0 <= i < |r| ensures GeneratedRow(r[i], y, m) {
      FromMonthPlan(r[i], y, m);
    }
  }

  /** The month's rows come in increasing (day, start time) order. */
  lemma MonthOrdered(y: nat, m: nat, firstId: nat)
    requires 1 <= m <= 12
    ensures Ascending(MonthSessions(y, m, firstId))
  {
    MonthPlanOrdered(y, m);
    ThroughOrdered(y, m, MonthPlan(y, m), DaysInMonth(y, m), firstId);
  }

  /**
   * Day d of the month gets exactly the template's slots for its weekday and
   * the month's season, in template order; days outside the month get none.
   */
  lemma MonthMatchesTemplate(y: nat, m: nat, firstId: nat, d: nat)
    requires 1 <= m <= 12
    ensures SlotsOn(MonthSessions(y, m, firstId), d)
      == if 1 <= d <= DaysInMonth(y, m) then DefSlots(Resolve(Weekday(Date(y, m, d)), IsSummer(m))) else []
  {
    ThroughMatchesPlan(y, m, MonthPlan(y, m), DaysInMonth(y, m), firstId, d);
  }

  /** A month always yields at least one session: its first week has a Saturday. */
  lemma MonthSessionsNonEmpty(y: nat, m: nat, firstId: nat)
    requires 1 <= m <= 12
    ensures |MonthSessions(y, m, firstId)| > 0
    ensures InMonth(MonthSessions(y, m, firstId)[0], YearMonth(y, m))
  {
    SaturdayInFirstWeek(y, m);
    var d :| 1 <= d <= 7 && Weekday(Date(y, m, d)) == 6;
    MonthMatchesTemplate(y, m, firstId, d);
    var r := MonthSessions(y, m, firstId);
    assert |DefSlots(Resolve(6, IsSummer(m)))| == 1;
    assert r != [];
    MonthShape(y, m, firstId);
    assert GeneratedRow(r[0], y, m);
  }

  /**
   * Generating a month a second time right after a successful generation is
   * refused and leaves the store as the first call left it.
   */
  lemma GenerateTwice(db: Db, y: nat, m: nat)
    requires Generate(db, y, m).ok
    ensures !Generate(Generate(db, y, m).db, y, m).ok
    ensures Generate(Generate(db, y, m).db, y, m).db == Generate(db, y, m).db
  {
    var sessions := Generate(db, y, m).db.sessions;
    var rows := MonthSessions(y, m, db.nextId);
    MonthSessionsNonEmpty(y, m, db.nextId);
    assert sessions == db.sessions + rows;
    assert sessions[|db.sessions|] == rows[0];
    assert HasSessionIn(sessions, YearMonth(y, m));
  }

  /** Rows that all lie in month ym are their own month filter. */
  lemma {:induction false} AllInMonth(rows: seq<Session>, ym: YearMonth)
    requires forall i :: 0 <= i < |rows| ==> InMonth(rows[i], ym)
    ensures SessionsIn(rows, ym) == rows
    decreases |rows|
  {
    if rows != [] {
      AllInMonth(rows[1..], ym);
    }
  }

  /** A successful generation adds rows only to its own month; the rows of every other month are as before. */
  lemma GenerateKeepsOtherMonths(db: Db, y: nat, m: nat, other: YearMonth)
    requires other != YearMonth(y, m)
    ensures SessionsIn(Generate(db, y, m).db.sessions, other) == SessionsIn(db.sessions, other)
  {
    var g := Generate(db, y, m);
    if g.ok {
      var rows := MonthSessions(y, m, db.nextId);
      MonthShape(y, m, db.nextId);
      SessionsInAppend(db.sessions, rows, other);
      SessionsInMembers(rows, other);
      assert !HasSessionIn(rows, other);
      assert db.sessions + [] == db.sessions;
    }
  }

  /** On success, the month's rows are exactly the generated ones. */
  lemma GenerateFillsMonth(db: Db, y: nat, m: nat)
    requires Generate(db, y, m).ok
    ensures SessionsIn(Generate(db, y, m).db.sessions, YearMonth(y, m)) == MonthSessions(y, m, db.nextId)
  {
    var rows := MonthSessions(y, m, db.nextId);
    var ym := YearMonth(y, m);
    SessionsInAppend(db.sessions, rows, ym);
    SessionsInMembers(db.sessions, ym);
    MonthShape(y, m, db.nextId);
    AllInMonth(rows, ym);
  }

  /** Appending rows numbered from the next id keeps ids unique and below the advanced next id. */
  lemma AppendFreshIds(rows: seq<Session>, added: seq<Session>, next: nat)
    requires next >= 1 && UniqueIds(rows) && IdsBelow(rows, next) && IdsFrom(added, next)
    ensures UniqueIds(rows + added) && IdsBelow(rows + added, next + |added|)
  {
    var s := rows + added;
    forall i, j | 0 <= i < j < |s| ensures s[i].id != s[j].id {
      if j >= |rows| {
        assert s[j] == added[j - |rows|];
        if i >= |rows| { assert s[i] == added[i - |rows|]; }
      }
    }
  }

  /** Generation keeps ids unique and below the next id, and availability untouched. */
  lemma GeneratePreservesValid(db: Db, y: nat, m: nat)
    requires Valid(db)
    ensures Valid(Generate(db, y, m).db)
  {
    if Generate(db, y, m).ok {
      MonthShape(y, m, db.nextId);
      AppendFreshIds(db.sessions, MonthSessions(y, m, db.nextId), db.nextId);
    }
  }

  /**
   * A Wednesday of a summer month gets youth training 17:30-19:30 and then
   * free play 19:30-22:00 (3 April 2024 is such a day).
   */
  lemma SummerWednesday(y: nat, m: nat, d: nat, firstId: nat)
    requires 4 <= m <= 9 && 1 <= d <= DaysInMonth(y, m) && Weekday(Date(y, m, d)) == 3
    ensures SlotsOn(MonthSessions(y, m, firstId), d)
      == [(Hms(17, 30, 0), Some(Hms(19, 30, 0)), YouthTraining), (Hms(19, 30, 0), Some(Hms(22, 0, 0)), FreePlay)]
  {
    MonthMatchesTemplate(y, m, firstId, d);
  }
}
