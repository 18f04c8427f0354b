/**
 * The administrator's form actions on the planning page: saving the trainer
 * assignments of a month (optionally publishing its plan) and deleting a
 * session. The current copies read posted numbers with `absint` and guard the
 * delete with `id > 0`; the imported copy reads them with `intval` and deletes
 * unguarded. Values are the tables before and after one request.
 */
module Admin {
  import opened Wrappers
  import opened Text
  import opened Navigation
  import opened Tables

  /** PHP's truthiness of a posted string: only "" and "0" are false. */
  predicate Truthy(raw: string)
  {
    raw != "" && raw != "0"
  }

  /** The session id read from a posted key: `absint` in the current copies, `intval` in the imported one. */
  function PostedId(copy: Copy, raw: string): int
  {
    if copy == Import then IntVal(raw) else AbsInt(raw)
  }

  /**
   * The trainer written for one posted select: NULL for a falsy value, otherwise
   * `absint` of it, or in the imported copy `intval` of it, which the unsigned
   * column stores as 0 when it is negative (MySQL as WordPress runs it, non-strict).
   */
  function PostedTrainer(copy: Copy, raw: string): Option<nat>
  {
    if !Truthy(raw) then None
    else if copy == Import then Some(if IntVal(raw) < 0 then 0 else IntVal(raw))
    else Some(AbsInt(raw))
  }

  /**
   * The form renders the empty choice as "" and every user by the decimal id, so
   * posting a choice back yields that user, or NULL for the empty choice, in every copy.
   */
  lemma PostedChoice(copy: Copy, user: nat)
    ensures PostedTrainer(copy, "") == None
    ensures PostedTrainer(copy, Decimal(user)) == if user == 0 then None else Some(user)
    ensures PostedId(copy, Decimal(user)) == user
  {
    IntValDecimal(user);
    if user == 0 {
      assert Decimal(0) == "0";
    } else {
      assert Decimal(user)[0] != '0';
    }
  }

  /** The copies read a posted number alike unless it is negative. */
  lemma PostedCopiesAgree(raw: string)
    requires IntVal(raw) >= 0
    ensures PostedId(Import, raw) == PostedId(Target, raw) == PostedId(Source, raw)
    ensures PostedTrainer(Import, raw) == PostedTrainer(Target, raw) == PostedTrainer(Source, raw)
  {
  }

  /** A negative posted trainer is stored as trainer 0 by the imported copy and as its absolute value by the others. */
  lemma PostedNegativeTrainer(raw: string)
    requires Truthy(raw) && IntVal(raw) < 0
    ensures PostedTrainer(Import, raw) == Some(0)
    ensures PostedTrainer(Target, raw) == Some(-IntVal(raw))
  {
  }

  /** `UPDATE sessions SET assigned_trainer_id = trainer WHERE id = id`, row by row. */
  function Assign(sessions: seq<Session>, id: int, trainer: Option<nat>): (r: seq<Session>)
    ensures |r| == |sessions|
    ensures forall i :: 0 <= i < |r| ==>
      r[i] == if sessions[i].id == id then sessions[i].(trainer := trainer) else sessions[i]
    decreases |sessions|
  {
    if sessions == [] then []
    else
      var head := if sessions[0].id == id then sessions[0].(trainer := trainer) else sessions[0];
      [head] + Assign(sessions[1..], id, trainer)
  }

  /** The posted `trainer[session] => user` pairs applied in the order PHP iterates them. */
  function ApplyAssignments(copy: Copy, sessions: seq<Session>, pairs: seq<(string, string)>): seq<Session>
    decreases |pairs|
  {
    if pairs == [] then sessions
    else ApplyAssignments(copy, Assign(sessions, PostedId(copy, pairs[0].0), PostedTrainer(copy, pairs[0].1)), pairs[1..])
  }

  /** The trainer set by the last pair whose key names the id, if any pair names it. */
  function LastAssigned(copy: Copy, pairs: seq<(string, string)>, id: int): Option<Option<nat>>
    decreases |pairs|
  {
    if pairs == [] then None
    else match LastAssigned(copy, pairs[1..], id)
      case Some(t) => Some(t)
      case None => if PostedId(copy, pairs[0].0) == id then Some(PostedTrainer(copy, pairs[0].1)) else None
  }

  /** A row after the assignments: the last trainer posted for its id, if any. */
  function Reassigned(s: Session, last: Option<Option<nat>>): Session
  {
    match last
    case None => s
    case Some(t) => s.(trainer := t)
  }

  /**
   * Saving assignments changes nothing but the trainer column, and each row ends
   * with the trainer of the last pair naming its id; rows no pair names keep theirs.
   */
  lemma {:induction false} AssignmentsEffect(copy: Copy, sessions: seq<Session>, pairs: seq<(string, string)>)
    ensures var r := ApplyAssignments(copy, sessions, pairs);
      |r| == |sessions| &&
      forall i :: 0 <= i < |r| ==> r[i] == Reassigned(sessions[i], LastAssigned(copy, pairs, sessions[i].id))
    decreases |pairs|
  {
    if pairs != [] {
      var first := Assign(sessions, PostedId(copy, pairs[0].0), PostedTrainer(copy, pairs[0].1));
      AssignmentsEffect(copy, first, pairs[1..]);
      var r := ApplyAssignments(copy, sessions, pairs);
      assert r == ApplyAssignments(copy, first, pairs[1..]);
      forall i | 0 <= i < |r| ensures r[i] == Reassigned(sessions[i], LastAssigned(copy, pairs, sessions[i].id)) {
        assert first[i].id == sessions[i].id;
      }
    }
  }

  /** Reassigning a session keeps its confirmation flag and every other column. */
  lemma AssignmentsKeepConfirmation(copy: Copy, sessions: seq<Session>, pairs: seq<(string, string)>)
    ensures var r := ApplyAssignments(copy, sessions, pairs);
      |r| == |sessions| &&
      forall i :: 0 <= i < |r| ==> r[i].(trainer := sessions[i].trainer) == sessions[i]
  {
    AssignmentsEffect(copy, sessions, pairs);
  }

  /** `UPDATE plans SET is_published = 1 WHERE year = y AND month = m`: publishes an existing plan, creates none. */
  function Publish(plans: map<YearMonth, bool>, ym: YearMonth): (r: map<YearMonth, bool>)
    ensures r.Keys == plans.Keys
    ensures ym in plans ==> r[ym]
    ensures forall k :: k in plans && k != ym ==> r[k] == plans[k]
  {
    if ym in plans then plans[ym := true] else plans
  }

  /** Publishing twice is publishing once, and no plan is ever unpublished. */
  lemma PublishIdempotent(plans: map<YearMonth, bool>, ym: YearMonth)
    ensures Publish(Publish(plans, ym), ym) == Publish(plans, ym)
    ensures forall k :: k in plans && plans[k] ==> Publish(plans, ym)[k]
  {
  }

  /** The save action: the assignments, then the publish when its checkbox was posted. */
  function SaveAssignments(copy: Copy, db: Db, ym: YearMonth, pairs: seq<(string, string)>, publish: bool): Db
  {
    Db(ApplyAssignments(copy, db.sessions, pairs),
       if publish then Publish(db.plans, ym) else db.plans,
       db.availability,
       db.nextId)
  }

  /** Saving assignments keeps the ids, so the table invariants survive it. */
  lemma SaveAssignmentsPreservesValid(copy: Copy, db: Db, ym: YearMonth, pairs: seq<(string, string)>, publish: bool)
    requires Valid(db)
    ensures Valid(SaveAssignments(copy, db, ym, pairs, publish))
  {
    AssignmentsEffect(copy, db.sessions, pairs);
  }

  /** `DELETE FROM sessions WHERE id = id`: every row with that id goes, the others keep their order. */
  function Without(sessions: seq<Session>, id: int): seq<Session>
    decreases |sessions|
  {
    if sessions == [] then []
    else (if sessions[0].id == id then [] else [sessions[0]]) + Without(sessions[1..], id)
  }

  lemma {:induction false} WithoutMembers(sessions: seq<Session>, id: int)
    ensures forall s :: s in Without(sessions, id) <==> s in sessions && s.id != id
    ensures (forall i :: 0 <= i < |sessions| ==> sessions[i].id != id) ==> Without(sessions, id) == sessions
    decreases |sessions|
  {
    if sessions != [] {
      WithoutMembers(sessions[1..], id);
      assert forall s :: s in sessions <==> s == sessions[0] || s in sessions[1..];
      assert sessions == [sessions[0]] + sessions[1..];
    }
  }

  /** The delete action: guarded by `id > 0` in the current copies, unguarded in the imported one. */
  function DeleteSession(copy: Copy, db: Db, raw: string): Db
  {
    var id := PostedId(copy, raw);
    if copy != Import && id <= 0 then db
    else db.(sessions := Without(db.sessions, id))
  }

  /**
   * Deleting removes exactly the row with the posted id and nothing else: the
   * plans and the availability rows stay, including those naming the deleted session.
   */
  lemma DeleteRemovesExactly(copy: Copy, db: Db, raw: string)
    requires Valid(db)
    ensures var r := DeleteSession(copy, db, raw);
      r.plans == db.plans && r.availability == db.availability && r.nextId == db.nextId &&
      forall s :: s in r.sessions <==> s in db.sessions && s.id != PostedId(copy, raw)
  {
    WithoutMembers(db.sessions, PostedId(copy, raw));
  }

  /** The unguarded delete of the imported copy agrees with the guarded one for every non-negative posted id. */
  lemma DeleteCopiesAgree(db: Db, raw: string)
    requires Valid(db) && IntVal(raw) >= 0
    ensures DeleteSession(Import, db, raw) == DeleteSession(Target, db, raw)
  {
    if IntVal(raw) == 0 {
      WithoutMembers(db.sessions, 0);
    }
  }

  /** A negative posted id deletes nothing in the imported copy and the row with its absolute value in the others. */
  lemma DeleteNegative(db: Db, raw: string)
    requires Valid(db) && IntVal(raw) < 0
    ensures DeleteSession(Import, db, raw) == db
    ensures DeleteSession(Target, db, raw).sessions == Without(db.sessions, -IntVal(raw))
  {
    assert forall i :: 0 <= i < |db.sessions| ==> db.sessions[i].id != IntVal(raw);
    WithoutMembers(db.sessions, IntVal(raw));
  }

  /** A row whose id no later row has can be put in front of rows with unique ids. */
  lemma ConsUnique(x: Session, rest: seq<Session>, next: nat)
    requires UniqueIds(rest) && IdsBelow(rest, next) && 1 <= x.id < next
    requires forall j :: 0 <= j < |rest| ==> rest[j].id != x.id
    ensures UniqueIds([x] + rest) && IdsBelow([x] + rest, next)
  {
    var s := [x] + rest;
    forall i, j | 0 <= i < j < |s| ensures s[i].id != s[j].id {
      assert s[j] == rest[j - 1];
      if i > 0 { assert s[i] == rest[i - 1]; }
    }
  }

  /** The rows after the first keep unique ids below the bound. */
  lemma TailKeepsIds(sessions: seq<Session>, next: nat)
    requires sessions != [] && UniqueIds(sessions) && IdsBelow(sessions, next)
    ensures UniqueIds(sessions[1..]) && IdsBelow(sessions[1..], next)
    ensures forall j :: 0 <= j < |sessions[1..]| ==> sessions[1..][j].id != sessions[0].id
  {
    var tail := sessions[1..];
    forall i, j | 0 <= i < j < |tail| ensures tail[i].id != tail[j].id {
      assert tail[i] == sessions[i + 1] && tail[j] == sessions[j + 1];
    }
    forall j | 0 <= j < |tail| ensures tail[j].id != sessions[0].id {
      assert tail[j] == sessions[j + 1];
    }
  }

  /** Rows drawn from a table none of whose rows has a given id do not have it either. */
  lemma SubsetAvoids(rest: seq<Session>, tail: seq<Session>, id: nat)
    requires forall s :: s in rest ==> s in tail
    requires forall j :: 0 <= j < |tail| ==> tail[j].id != id
    ensures forall j :: 0 <= j < |rest| ==> rest[j].id != id
  {
    forall j | 0 <= j < |rest| ensures rest[j].id != id {
      assert rest[j] in tail;
    }
  }

  lemma {:induction false} WithoutKeepsIds(sessions: seq<Session>, id: int, next: nat)
    requires UniqueIds(sessions) && IdsBelow(sessions, next)
    ensures UniqueIds(Without(sessions, id)) && IdsBelow(Without(sessions, id), next)
    decreases |sessions|
  {
    if sessions != [] {
      var tail := sessions[1..];
      TailKeepsIds(sessions, next);
      WithoutKeepsIds(tail, id, next);
      WithoutMembers(tail, id);
      var rest := Without(tail, id);
      if sessions[0].id != id {
        SubsetAvoids(rest, tail, sessions[0].id);
        ConsUnique(sessions[0], rest, next);
      } else {
        assert Without(sessions, id) == rest;
      }
    }
  }

  lemma DeletePreservesValid(copy: Copy, db: Db, raw: string)
    requires Valid(db)
    ensures Valid(DeleteSession(copy, db, raw))
  {
    WithoutKeepsIds(db.sessions, PostedId(copy, raw), db.nextId);
  }
}
