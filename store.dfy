/**
 * The database as the plugin's handlers change it: one object holding the three
 * tables and the next auto-increment id, and the handlers as methods that run
 * their loops statement by statement. Each method is proved to leave exactly
 * the state the corresponding function of `Logic`, `Admin` or `Frontend`
 * describes, so every property proved about those functions holds of the
 * handlers too.
 */
module Store {
  import opened Wrappers
  import opened Calendar
  import opened Schedule
  import opened Navigation
  import opened Tables
  import opened Logic
  import opened Admin
  import opened Frontend
  import opened Text

  class Store {
    var sessions: seq<Session>
    var plans: map<YearMonth, bool>
    var availability: seq<Availability>
    var nextId: nat

    /** The tables as a value. */
    function State(): Db
      reads this
    {
      Db(sessions, plans, availability, nextId)
    }

    /** A fresh installation: empty tables, auto-increment at 1. */
    constructor ()
      ensures State() == Db([], map[], [], 1)
      ensures Valid(State())
    {
      sessions := [];
      plans := map[];
      availability := [];
      nextId := 1;
    }

    /** `create_session`: one insert, which takes the next auto-increment id. */
    method CreateSession(date: Date, def: SessionDef)
      modifies this
      ensures sessions == old(sessions) + [NewSession(old(nextId), date, def)]
      ensures nextId == old(nextId) + 1
      ensures plans == old(plans) && availability == old(availability)
    {
      sessions := sessions + [NewSession(nextId, date, def)];
      nextId := nextId + 1;
    }

    /**
     * `generate_month_sessions`: the day loop with its per-weekday inserts and
     * the plan row. It leaves exactly the store `Generate` describes.
     */
    method GenerateMonthSessions(year: nat, month: nat) returns (ok: bool)
      modifies this
      ensures Generation(ok, State()) == Generate(old(State()), year, month)
      ensures Valid(old(State())) ==> Valid(State())
    {
      if Valid(State()) {
        GeneratePreservesValid(State(), year, month);
      }
      if month < 1 || month > 12 {
        return false;
      }
      var ym := YearMonth(year, month);
      if HasSessionIn(sessions, ym) {
        return false;
      }
      CreateMonth(year, month);
      if ym !in plans {
        plans := plans[ym := false];
      }
      GenerateSucceeds(old(State()), year, month);
      return true;
    }

    /** The month's inserts: the day loop over the month's template, from its first day to its last. */
    method CreateMonth(year: nat, month: nat)
      requires 1 <= month <= 12
      modifies this
      ensures sessions == old(sessions) + MonthSessions(year, month, old(nextId))
      ensures nextId == old(nextId) + |MonthSessions(year, month, old(nextId))|
      ensures plans == old(plans) && availability == old(availability)
    {
      var numDays := DaysInMonth(year, month);
      MonthPlanDays(year, month);
      CreateDays(year, month, numDays, MonthPlan(year, month));
    }

    /**
     * The day loop: for each day 1..numDays, the slots its weekday and the
     * season call for, then one insert per slot; `plan` lists those slots.
     */
    method CreateDays(year: nat, month: nat, numDays: nat, ghost plan: seq<seq<SessionDef>>)
      requires 1 <= month <= 12 && |plan| == numDays
      requires forall d {:trigger Weekday(Date(year, month, d))} :: 1 <= d <= numDays ==>
        plan[d - 1] == Resolve(Weekday(Date(year, month, d)), 4 <= month <= 9)
      modifies this
      ensures sessions == old(sessions) + RowsThrough(year, month, plan, numDays, old(nextId))
      ensures nextId == old(nextId) + |RowsThrough(year, month, plan, numDays, old(nextId))|
      ensures plans == old(plans) && availability == old(availability)
    {
      var isSummer := 4 <= month <= 9;
      ghost var firstId := old(nextId);
      assert old(sessions) + [] == old(sessions);
      var day := 1;
      while day <= numDays
        invariant 1 <= day <= numDays + 1
        invariant sessions == old(sessions) + RowsThrough(year, month, plan, day - 1, firstId)
        invariant nextId == firstId + |RowsThrough(year, month, plan, day - 1, firstId)|
        invariant plans == old(plans) && availability == old(availability)
      {
        var weekday := Weekday(Date(year, month, day));
        var defs := Resolve(weekday, isSummer);
        ghost var pre, preId := sessions, nextId;
        CreateDay(year, month, day, defs);
        DayAdded(year, month, plan, day, defs, firstId, old(sessions), pre, preId, sessions, nextId);
        day := day + 1;
      }
    }

    /** The inserts of one day of the loop, one per slot of the day's template, in template order. */
    method CreateDay(year: nat, month: nat, day: nat, defs: seq<SessionDef>)
      modifies this
      ensures sessions == old(sessions) + DayRows(year, month, day, defs, old(nextId))
      ensures nextId == old(nextId) + |defs|
      ensures plans == old(plans) && availability == old(availability)
    {
      var k := 0;
      while k < |defs|
        invariant 0 <= k <= |defs|
        invariant sessions == old(sessions) + DayRows(year, month, day, defs[..k], old(nextId))
        invariant nextId == old(nextId) + k
        invariant plans == old(plans) && availability == old(availability)
      {
        DayRowsStep(year, month, day, defs, k, old(nextId));
        CreateSession(Date(year, month, day), defs[k]);
        k := k + 1;
      }
      assert defs[..k] == defs;
    }

    /** The delete action: `absint`/`intval` of the posted id, the `id > 0` guard where the copy has it, one DELETE. */
    method DeleteSession(copy: Copy, raw: string)
      modifies this
      ensures State() == Admin.DeleteSession(copy, old(State()), raw)
      ensures Valid(old(State())) ==> Valid(State())
    {
      if Valid(State()) {
        DeletePreservesValid(copy, State(), raw);
      }
      var id := PostedId(copy, raw);
      if copy != Import && id <= 0 {
        return;
      }
      sessions := Without(sessions, id);
    }

    /** The save action: one UPDATE per posted pair in order, then the publish UPDATE when its checkbox was posted. */
    method SaveAssignments(copy: Copy, ym: YearMonth, pairs: seq<(string, string)>, publish: bool)
      modifies this
      ensures State() == Admin.SaveAssignments(copy, old(State()), ym, pairs, publish)
      ensures Valid(old(State())) ==> Valid(State())
    {
      if Valid(State()) {
        SaveAssignmentsPreservesValid(copy, State(), ym, pairs, publish);
      }
      AssignTrainers(copy, pairs);
      if publish {
        plans := Publish(plans, ym);
      }
    }

    /** The loop over the posted `trainer[session] => user` pairs: one UPDATE per pair, in order. */
    method AssignTrainers(copy: Copy, pairs: seq<(string, string)>)
      modifies this
      ensures sessions == ApplyAssignments(copy, old(sessions), pairs)
      ensures plans == old(plans) && availability == old(availability) && nextId == old(nextId)
    {
      var i := 0;
      while i < |pairs|
        invariant 0 <= i <= |pairs|
        invariant ApplyAssignments(copy, sessions, pairs[i..]) == ApplyAssignments(copy, old(sessions), pairs)
        invariant plans == old(plans) && availability == old(availability) && nextId == old(nextId)
      {
        assert pairs[i..][1..] == pairs[i + 1..];
        var id := PostedId(copy, pairs[i].0);
        var trainer := PostedTrainer(copy, pairs[i].1);
        sessions := Assign(sessions, id, trainer);
        i := i + 1;
      }
      assert pairs[i..] == [];
    }

    /**
     * `handle_availability_submission`: the status loop, then the loop over the
     * posted keys that confirms the sessions assigned to the trainer.
     */
    method HandleAvailabilitySubmission(user: nat, pairs: seq<(string, string)>, keys: seq<string>)
      modifies this
      ensures availability == SubmitStatuses(old(availability), user, pairs)
      ensures sessions == ConfirmAll(old(sessions), keys, user)
      ensures plans == old(plans) && nextId == old(nextId)
      ensures Valid(old(State())) ==> Valid(State())
    {
      if Valid(State()) {
        SubmissionPreservesValid(State(), user, pairs, keys);
      }
      SaveStatuses(user, pairs);
      ConfirmSessions(user, keys);
    }

    /** The status loop: skip an invalid answer, otherwise update the trainer's row for the session or insert one. */
    method SaveStatuses(user: nat, pairs: seq<(string, string)>)
      modifies this
      ensures availability == SubmitStatuses(old(availability), user, pairs)
      ensures sessions == old(sessions) && plans == old(plans) && nextId == old(nextId)
    {
      var i := 0;
      while i < |pairs|
        invariant 0 <= i <= |pairs|
        invariant SubmitStatuses(availability, user, pairs[i..]) == SubmitStatuses(old(availability), user, pairs)
        invariant sessions == old(sessions) && plans == old(plans) && nextId == old(nextId)
      {
        SubmitStep(availability, user, pairs, i);
        var session := AbsInt(pairs[i].0);
        var status := ParseStatus(pairs[i].1);
        if status.Some? {
          var found := FindEntry(availability, user, session);
          if found.Some? {
            availability := availability[found.value := availability[found.value].(status := status.value)];
          } else {
            availability := availability + [Availability(user, session, status.value, "")];
          }
        }
        i := i + 1;
      }
      assert pairs[i..] == [];
    }

    /** The confirmation loop: for each confirm key, read the stored trainer and confirm when it loosely equals the user. */
    method ConfirmSessions(user: nat, keys: seq<string>)
      modifies this
      ensures sessions == ConfirmAll(old(sessions), keys, user)
      ensures availability == old(availability) && plans == old(plans) && nextId == old(nextId)
    {
      var j := 0;
      while j < |keys|
        invariant 0 <= j <= |keys|
        invariant ConfirmAll(sessions, keys[j..], user) == ConfirmAll(old(sessions), keys, user)
        invariant availability == old(availability) && plans == old(plans) && nextId == old(nextId)
      {
        ConfirmStep(sessions, keys, j, user);
        var key := keys[j];
        if IsConfirmKey(key) {
          var id := KeySessionId(key);
          var stored := AssignedOf(sessions, id);
          if LooseEquals(stored, user) {
            sessions := MarkConfirmed(sessions, id, user);
          }
        }
        j := j + 1;
      }
      assert keys[j..] == [];
    }
  }

  /** One round of the day loop: the rows through the previous day, then the day's rows, are the rows through the day. */
  lemma DayAdded(y: nat, m: nat, plan: seq<seq<SessionDef>>, d: nat, defs: seq<SessionDef>, firstId: nat,
                 before: seq<Session>, pre: seq<Session>, preId: nat, post: seq<Session>, postId: nat)
    requires 1 <= d <= |plan| && plan[d - 1] == defs
    requires pre == before + RowsThrough(y, m, plan, d - 1, firstId)
    requires preId == firstId + |RowsThrough(y, m, plan, d - 1, firstId)|
    requires post == pre + DayRows(y, m, d, defs, preId) && postId == preId + |defs|
    ensures post == before + RowsThrough(y, m, plan, d, firstId)
    ensures postId == firstId + |RowsThrough(y, m, plan, d, firstId)|
  {
    var done := RowsThrough(y, m, plan, d - 1, firstId);
    var added := DayRows(y, m, d, defs, preId);
    ThroughStep(y, m, plan, d, defs, firstId);
    Associative(before, done, added);
  }

  /** The month's plan lists, for each day, the slots of its weekday and season. */
  lemma MonthPlanDays(y: nat, m: nat)
    requires 1 <= m <= 12
    ensures |MonthPlan(y, m)| == DaysInMonth(y, m)
    ensures forall d {:trigger Weekday(Date(y, m, d))} :: 1 <= d <= DaysInMonth(y, m) ==>
      MonthPlan(y, m)[d - 1] == Resolve(Weekday(Date(y, m, d)), 4 <= m <= 9)
  {
    forall d | 1 <= d <= DaysInMonth(y, m)
      ensures MonthPlan(y, m)[d - 1] == Resolve(Weekday(Date(y, m, d)), 4 <= m <= 9)
    {
    }
  }

  /** The rows through day d are those through the day before, then day d's. */
  lemma ThroughStep(y: nat, m: nat, plan: seq<seq<SessionDef>>, d: nat, defs: seq<SessionDef>, firstId: nat)
    requires 1 <= d <= |plan| && plan[d - 1] == defs
    ensures RowsThrough(y, m, plan, d, firstId)
      == RowsThrough(y, m, plan, d - 1, firstId)
         + DayRows(y, m, d, defs, firstId + |RowsThrough(y, m, plan, d - 1, firstId)|)
  {
  }

  /** A generation that is not refused appends the month's rows and ensures the plan row. */
  lemma GenerateSucceeds(db: Db, y: nat, m: nat)
    requires 1 <= m <= 12 && !HasSessionIn(db.sessions, YearMonth(y, m))
    ensures Generate(db, y, m) == Generation(true, Db(
      db.sessions + MonthSessions(y, m, db.nextId),
      EnsurePlan(db.plans, YearMonth(y, m)),
      db.availability,
      db.nextId + |MonthSessions(y, m, db.nextId)|))
  {
  }

  /** One step of the confirmation loop: the remaining keys after key j. */
  lemma ConfirmStep(sessions: seq<Session>, keys: seq<string>, j: nat, user: nat)
    requires j < |keys|
    ensures ConfirmAll(sessions, keys[j..], user) == ConfirmAll(ConfirmKey(sessions, keys[j], user), keys[j + 1..], user)
  {
    assert keys[j..][1..] == keys[j + 1..];
  }

  /** One step of the status loop: the remaining pairs after answering pair i. */
  lemma SubmitStep(av: seq<Availability>, user: nat, pairs: seq<(string, string)>, i: nat)
    requires i < |pairs|
    ensures SubmitStatuses(av, user, pairs[i..]) ==
      SubmitStatuses(match ParseStatus(pairs[i].1)
                     case None => av
                     case Some(st) => Upsert(av, user, AbsInt(pairs[i].0), st), user, pairs[i + 1..])
  {
    assert pairs[i..][1..] == pairs[i + 1..];
  }

  /** The rows of a day grow by one row per slot, numbered on from the day's first id. */
  lemma DayRowsStep(y: nat, m: nat, d: nat, defs: seq<SessionDef>, k: nat, firstId: nat)
    requires k < |defs|
    ensures DayRows(y, m, d, defs[..k + 1], firstId)
      == DayRows(y, m, d, defs[..k], firstId) + [NewSession(firstId + k, Date(y, m, d), defs[k])]
  {
  }

  /**
   * A submission keeps the tables' invariants: one availability row per trainer
   * and session, and session ids unchanged, so still unique and below the next id.
   */
  lemma SubmissionPreservesValid(db: Db, user: nat, pairs: seq<(string, string)>, keys: seq<string>)
    requires Valid(db)
    ensures Valid(db.(availability := SubmitStatuses(db.availability, user, pairs),
                      sessions := ConfirmAll(db.sessions, keys, user)))
  {
    SubmitEffect(db.availability, user, pairs);
    ConfirmAllEffect(db.sessions, keys, user);
    var r := ConfirmAll(db.sessions, keys, user);
    assert forall i :: 0 <= i < |r| ==> r[i].id == db.sessions[i].id;
  }
}
