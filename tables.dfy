/**
 * The plugin's tables as values: training sessions, monthly plans and
 * availability entries, with the uniqueness the schema declares (primary key on
 * session id, unique (user, session) for availability, unique (year, month)
 * for plans, which a map expresses by construction).
 */
module Tables {
  import opened Wrappers
  import opened Calendar
  import opened Schedule
  import opened Navigation

  /**
   * The three copies of the plugin whose handlers differ: the current one, the
   * development snapshot, and the older imported one.
   */
  datatype Copy = Target | Source | Import

  /** The three answers a trainer can give for a session. */
  datatype Status = Yes | Maybe | No

  /** A row of the sessions table; `trainer` is the nullable `assigned_trainer_id`. */
  datatype Session = Session(
    id: nat,
    date: Date,
    time: TimeOfDay,
    endTime: Option<TimeOfDay>,
    location: string,
    topic: string,
    trainer: Option<nat>,
    confirmed: bool)

  /** A row of the availability table. */
  datatype Availability = Availability(user: nat, session: nat, status: Status, comment: string)

  /** The whole store: sessions in insertion order, plans by (year, month), availability rows, next auto-increment id. */
  datatype Db = Db(
    sessions: seq<Session>,
    plans: map<YearMonth, bool>,
    availability: seq<Availability>,
    nextId: nat)

  predicate UniqueIds(sessions: seq<Session>)
  {
    forall i, j :: 0 <= i < j < |sessions| ==> sessions[i].id != sessions[j].id
  }

  /** Auto-increment ids start at 1 and stay below the next id to hand out. */
  predicate IdsBelow(sessions: seq<Session>, next: nat)
  {
    forall i :: 0 <= i < |sessions| ==> 1 <= sessions[i].id < next
  }

  predicate UniqueKeys(av: seq<Availability>)
  {
    forall i, j :: 0 <= i < j < |av| ==> av[i].user != av[j].user || av[i].session != av[j].session
  }

  predicate Valid(db: Db)
  {
    db.nextId >= 1 && UniqueIds(db.sessions) && IdsBelow(db.sessions, db.nextId) && UniqueKeys(db.availability)
  }

  /** The `YEAR(date) = %d AND MONTH(date) = %d` filter. */
  predicate InMonth(s: Session, ym: YearMonth)
  {
    s.date.year == ym.year && s.date.month == ym.month
  }

  predicate HasSessionIn(sessions: seq<Session>, ym: YearMonth)
  {
    exists i :: 0 <= i < |sessions| && InMonth(sessions[i], ym)
  }

  /** The sessions of one month, in table order. */
  function SessionsIn(sessions: seq<Session>, ym: YearMonth): seq<Session>
  {
    if sessions == [] then []
    else (if InMonth(sessions[0], ym) then [sessions[0]] else []) + SessionsIn(sessions[1..], ym)
  }

  lemma {:induction false} SessionsInAppend(a: seq<Session>, b: seq<Session>, ym: YearMonth)
    ensures SessionsIn(a + b, ym) == SessionsIn(a, ym) + SessionsIn(b, ym)
    decreases |a|
  {
    if a == [] {
      assert a + b == b;
    } else {
      assert (a + b)[1..] == a[1..] + b;
      SessionsInAppend(a[1..], b, ym);
    }
  }

  /** The month filter keeps exactly the rows of that month, and nothing is in it when no row is. */
  lemma {:induction false} SessionsInMembers(sessions: seq<Session>, ym: YearMonth)
    ensures forall s :: s in SessionsIn(sessions, ym) <==> s in sessions && InMonth(s, ym)
    ensures SessionsIn(sessions, ym) == [] <==> !HasSessionIn(sessions, ym)
    decreases |sessions|
  {
    if sessions != [] {
      SessionsInMembers(sessions[1..], ym);
      assert forall s :: s in sessions <==> s == sessions[0] || s in sessions[1..];
      if HasSessionIn(sessions[1..], ym) {
        var i :| 0 <= i < |sessions[1..]| && InMonth(sessions[1..][i], ym);
        assert InMonth(sessions[i + 1], ym);
      }
      if HasSessionIn(sessions, ym) && !InMonth(sessions[0], ym) {
        var i :| 0 <= i < |sessions| && InMonth(sessions[i], ym);
        assert i > 0 && InMonth(sessions[1..][i - 1], ym);
      }
    }
  }

  /** The row with the given id, if the table has one (the first, as a point lookup returns it). */
  function FindSession(sessions: seq<Session>, id: nat): (r: Option<nat>)
    ensures r.Some? ==> r.value < |sessions| && sessions[r.value].id == id
    ensures r.Some? ==> forall k :: 0 <= k < r.value ==> sessions[k].id != id
    ensures r.None? ==> forall k :: 0 <= k < |sessions| ==> sessions[k].id != id
  {
    if sessions == [] then None
    else if sessions[0].id == id then Some(0)
    else match FindSession(sessions[1..], id)
      case None => None
      case Some(k) => Some(k + 1)
  }
}
