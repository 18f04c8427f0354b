/**
 * The trainer dashboard's submission handler: the availability radio buttons
 * (one answer per session, stored in the availability table with at most one
 * row per trainer and session) and the confirm buttons a trainer presses for
 * sessions assigned to them. Values are the tables before and after one request.
 */
module Frontend {
  import opened Wrappers
  import opened Text
  import opened Tables

  function StatusText(s: Status): string
  {
    match s
    case Yes => "Yes"
    case Maybe => "Maybe"
    case No => "No"
  }

  /** The strict `in_array` check: only the three exact spellings are answers. */
  function ParseStatus(raw: string): (r: Option<Status>)
    ensures r.Some? ==> StatusText(r.value) == raw
    ensures r.None? ==> raw != "Yes" && raw != "Maybe" && raw != "No"
  {
    if raw == "Yes" then Some(Yes)
    else if raw == "Maybe" then Some(Maybe)
    else if raw == "No" then Some(No)
    else None
  }

  /** Every answer the radio buttons post is read back as itself. */
  lemma StatusRoundTrip(s: Status)
    ensures ParseStatus(StatusText(s)) == Some(s)
  {
  }

  /** `SELECT id FROM availability WHERE user_id = u AND session_id = s`: the position of the row, if there is one. */
  function FindEntry(av: seq<Availability>, user: nat, session: nat): (r: Option<nat>)
    ensures r.Some? ==> r.value < |av| && av[r.value].user == user && av[r.value].session == session
    ensures r.None? ==> forall k :: 0 <= k < |av| ==> av[k].user != user || av[k].session != session
    decreases |av|
  {
    if av == [] then None
    else if av[0].user == user && av[0].session == session then Some(0)
    else match FindEntry(av[1..], user, session)
      case None => None
      case Some(k) => Some(k + 1)
  }

  /** Under the unique (user, session) key the row found is the only one with that key. */
  lemma FindEntryUnique(av: seq<Availability>, user: nat, session: nat, k: nat)
    requires UniqueKeys(av) && k < |av| && av[k].user == user && av[k].session == session
    ensures FindEntry(av, user, session) == Some(k)
  {
    var r := FindEntry(av, user, session);
    assert r.Some?;
    assert av[r.value].user == av[k].user && av[r.value].session == av[k].session;
  }

  /** Two tables with the same keys, the second extended by rows of other keys, find the same row. */
  lemma {:induction false} FindEntrySameKeys(a: seq<Availability>, b: seq<Availability>, user: nat, session: nat)
    requires |a| <= |b|
    requires forall i :: 0 <= i < |a| ==> a[i].user == b[i].user && a[i].session == b[i].session
    requires forall i :: |a| <= i < |b| ==> b[i].user != user || b[i].session != session
    ensures FindEntry(b, user, session) == FindEntry(a, user, session)
    decreases |a|
  {
    if a != [] {
      FindEntrySameKeys(a[1..], b[1..], user, session);
    }
  }

  /** One valid answer: update the status of the existing row, or insert a row with an empty comment. */
  function Upsert(av: seq<Availability>, user: nat, session: nat, status: Status): seq<Availability>
  {
    match FindEntry(av, user, session)
    case Some(k) => av[k := av[k].(status := status)]
    case None => av + [Availability(user, session, status, "")]
  }

  /**
   * After one answer the trainer has exactly one row for the session, holding
   * that answer; every other row stays where it was, and a new row is only ever
   * the trainer's own, appended at the end.
   */
  lemma UpsertEffect(av: seq<Availability>, user: nat, session: nat, status: Status)
    requires UniqueKeys(av)
    ensures var r := Upsert(av, user, session, status);
      UniqueKeys(r) && |av| <= |r| <= |av| + 1 &&
      (exists k :: FindEntry(r, user, session) == Some(k) && r[k].status == status) &&
      (forall i :: 0 <= i < |av| ==> r[i].user == av[i].user && r[i].session == av[i].session && r[i].comment == av[i].comment) &&
      (forall i :: 0 <= i < |av| && (av[i].user != user || av[i].session != session) ==> r[i] == av[i]) &&
      (forall i :: |av| <= i < |r| ==> r[i] == Availability(user, session, status, ""))
  {
    var r := Upsert(av, user, session, status);
    match FindEntry(av, user, session)
    case Some(k) =>
      assert r == av[k := av[k].(status := status)];
      FindEntryUnique(r, user, session, k);
    case None =>
      assert r == av + [Availability(user, session, status, "")];
      FindEntryUnique(r, user, session, |av|);
  }

  /** The posted `status[session] => answer` pairs in the order PHP iterates them; invalid answers are skipped. */
  function SubmitStatuses(av: seq<Availability>, user: nat, pairs: seq<(string, string)>): seq<Availability>
    decreases |pairs|
  {
    if pairs == [] then av
    else
      var next := match ParseStatus(pairs[0].1)
        case None => av
        case Some(st) => Upsert(av, user, AbsInt(pairs[0].0), st);
      SubmitStatuses(next, user, pairs[1..])
  }

  /** The last valid answer posted for a session, if any. */
  function LastStatus(pairs: seq<(string, string)>, session: nat): Option<Status>
    decreases |pairs|
  {
    if pairs == [] then None
    else match LastStatus(pairs[1..], session)
      case Some(st) => Some(st)
      case None => if AbsInt(pairs[0].0) == session then ParseStatus(pairs[0].1) else None
  }

  /** What a submission guarantees for every session and every other row. */
  ghost predicate SubmitOutcome(av: seq<Availability>, r: seq<Availability>, user: nat, pairs: seq<(string, string)>)
  {
    UniqueKeys(r) && |av| <= |r| &&
    (forall session: nat :: LastStatus(pairs, session).Some? ==>
       exists k :: FindEntry(r, user, session) == Some(k) && Some(r[k].status) == LastStatus(pairs, session)) &&
    (forall session: nat :: LastStatus(pairs, session).None? ==> FindEntry(r, user, session) == FindEntry(av, user, session)) &&
    (forall i :: 0 <= i < |av| ==> r[i].user == av[i].user && r[i].session == av[i].session && r[i].comment == av[i].comment) &&
    (forall i :: 0 <= i < |av| && (av[i].user != user || LastStatus(pairs, av[i].session).None?) ==> r[i] == av[i]) &&
    (forall i :: |av| <= i < |r| ==> r[i].user == user && r[i].comment == "")
  }

  /** Two outcomes compose: the second submission's guarantees win where it posts an answer. */
  lemma OutcomeCompose(av: seq<Availability>, mid: seq<Availability>, r: seq<Availability>,
                       user: nat, first: (string, string), rest: seq<(string, string)>)
    requires UniqueKeys(av)
    requires SubmitOutcome(av, mid, user, [first])
    requires SubmitOutcome(mid, r, user, rest)
    ensures SubmitOutcome(av, r, user, [first] + rest)
  {
    var pairs := [first] + rest;
    assert pairs[1..] == rest;
    forall session: nat | LastStatus(pairs, session).Some?
      ensures exists k :: FindEntry(r, user, session) == Some(k) && Some(r[k].status) == LastStatus(pairs, session)
    {
      if LastStatus(rest, session).None? {
        assert LastStatus(pairs, session) == LastStatus([first], session);
        var k :| FindEntry(mid, user, session) == Some(k) && Some(mid[k].status) == LastStatus([first], session);
        assert mid[k].user == user && mid[k].session == session;
        assert r[k] == mid[k];
        assert FindEntry(r, user, session) == Some(k);
      } else {
        assert LastStatus(pairs, session) == LastStatus(rest, session);
      }
    }
    forall i | 0 <= i < |av| && (av[i].user != user || LastStatus(pairs, av[i].session).None?)
      ensures r[i] == av[i]
    {
      assert LastStatus(pairs, av[i].session).None? ==>
        LastStatus(rest, av[i].session).None? && LastStatus([first], av[i].session).None?;
      assert mid[i] == av[i];
    }
    forall session: nat | LastStatus(pairs, session).None?
      ensures FindEntry(r, user, session) == FindEntry(av, user, session)
    {
      assert LastStatus(rest, session).None?;
      assert LastStatus([first], session).None?;
    }
  }

  /**
   * Submitting answers keeps (user, session) unique, leaves the trainer with one
   * row holding the last valid answer for each session they answered, leaves
   * the sessions they did not answer as they were, and never touches another
   * trainer's rows or any comment.
   */
  lemma {:induction false} SubmitEffect(av: seq<Availability>, user: nat, pairs: seq<(string, string)>)
    requires UniqueKeys(av)
    ensures SubmitOutcome(av, SubmitStatuses(av, user, pairs), user, pairs)
    decreases |pairs|
  {
    if pairs == [] {
      assert forall session: nat :: LastStatus(pairs, session).None?;
    } else {
      var st := ParseStatus(pairs[0].1);
      var next := if st.None? then av else Upsert(av, user, AbsInt(pairs[0].0), st.value);
      var first := [pairs[0]];
      assert first[1..] == [];
      if st.Some? {
        UpsertEffect(av, user, AbsInt(pairs[0].0), st.value);
        forall session: nat | LastStatus(first, session).None?
          ensures FindEntry(next, user, session) == FindEntry(av, user, session)
        {
          FindEntrySameKeys(av, next, user, session);
        }
      } else {
        assert forall session: nat :: LastStatus(first, session).None?;
      }
      assert SubmitOutcome(av, next, user, first);
      SubmitEffect(next, user, pairs[1..]);
      OutcomeCompose(av, next, SubmitStatuses(av, user, pairs), user, pairs[0], pairs[1..]);
      assert first + pairs[1..] == pairs;
    }
  }

  /** The name prefix of the confirm buttons. */
  const ConfirmPrefix: string := "confirm_session_"

  /** `strpos($key, 'confirm_session_') === 0`. */
  predicate IsConfirmKey(key: string)
  {
    ConfirmPrefix <= key
  }

  /** `absint(str_replace('confirm_session_', '', $key))`: every occurrence of the prefix is removed, not just the leading one. */
  function KeySessionId(key: string): nat
  {
    AbsInt(ReplaceAll(key, ConfirmPrefix, ""))
  }

  /** The button rendered for session id is recognised and read back as that id. */
  lemma ConfirmKeyRoundTrip(id: nat)
    ensures IsConfirmKey(ConfirmPrefix + Decimal(id))
    ensures KeySessionId(ConfirmPrefix + Decimal(id)) == id
  {
    var d := Decimal(id);
    assert ConfirmPrefix[0] == 'c';
    assert 'c' !in d by {
      forall i | 0 <= i < |d| ensures d[i] != 'c' { assert IsDigit(d[i]); }
    }
    ReplacePrefix(ConfirmPrefix, d);
    IntValDecimal(id);
  }

  /** `SELECT assigned_trainer_id FROM sessions WHERE id = s`: NULL for a missing row or a NULL column. */
  function AssignedOf(sessions: seq<Session>, id: nat): Option<nat>
  {
    match FindSession(sessions, id)
    case None => None
    case Some(k) => sessions[k].trainer
  }

  /** PHP's loose `$assigned == $user_id`, where NULL equals 0. */
  predicate LooseEquals(stored: Option<nat>, user: nat)
  {
    match stored
    case None => user == 0
    case Some(t) => t == user
  }

  /** `UPDATE sessions SET assignment_confirmed = 1 WHERE id = s AND assigned_trainer_id = u`. */
  function MarkConfirmed(sessions: seq<Session>, id: nat, user: nat): (r: seq<Session>)
    ensures |r| == |sessions|
    ensures forall i :: 0 <= i < |r| ==>
      r[i] == if sessions[i].id == id && sessions[i].trainer == Some(user) then sessions[i].(confirmed := true) else sessions[i]
    decreases |sessions|
  {
    if sessions == [] then []
    else
      var head := if sessions[0].id == id && sessions[0].trainer == Some(user) then sessions[0].(confirmed := true) else sessions[0];
      [head] + MarkConfirmed(sessions[1..], id, user)
  }

  /** One posted key of the confirmation loop. */
  function ConfirmKey(sessions: seq<Session>, key: string, user: nat): (r: seq<Session>)
    ensures |r| == |sessions|
  {
    if !IsConfirmKey(key) then sessions
    else
      var id := KeySessionId(key);
      if LooseEquals(AssignedOf(sessions, id), user) then MarkConfirmed(sessions, id, user) else sessions
  }

  /**
   * With unique session ids the PHP guard decides nothing the UPDATE's own WHERE
   * clause does not: the key confirms the session exactly when it is assigned to the user.
   */
  lemma GuardRedundant(sessions: seq<Session>, key: string, user: nat)
    requires UniqueIds(sessions) && IsConfirmKey(key)
    ensures ConfirmKey(sessions, key, user) == MarkConfirmed(sessions, KeySessionId(key), user)
  {
    StoredGuardRedundant(sessions, KeySessionId(key), user);
  }

  /** The guard on the stored trainer, for any session id. */
  lemma StoredGuardRedundant(sessions: seq<Session>, id: nat, user: nat)
    requires UniqueIds(sessions)
    ensures (if LooseEquals(AssignedOf(sessions, id), user) then MarkConfirmed(sessions, id, user) else sessions)
      == MarkConfirmed(sessions, id, user)
  {
    if exists i :: 0 <= i < |sessions| && sessions[i].id == id && sessions[i].trainer == Some(user) {
      var i :| 0 <= i < |sessions| && sessions[i].id == id && sessions[i].trainer == Some(user);
      var k := FindSession(sessions, id).value;
      assert sessions[k].id == sessions[i].id;
      assert LooseEquals(AssignedOf(sessions, id), user);
    } else {
      assert MarkConfirmed(sessions, id, user) == sessions;
    }
  }

  /** All posted keys in order. */
  function ConfirmAll(sessions: seq<Session>, keys: seq<string>, user: nat): (r: seq<Session>)
    ensures |r| == |sessions|
    decreases |keys|
  {
    if keys == [] then sessions else ConfirmAll(ConfirmKey(sessions, keys[0], user), keys[1..], user)
  }

  /** A key names the session id when it is a confirm button for it. */
  predicate Names(key: string, id: nat)
  {
    IsConfirmKey(key) && KeySessionId(key) == id
  }

  /** Some posted key is a confirm button for this session id. */
  ghost predicate Pressed(keys: seq<string>, id: nat)
  {
    exists j :: 0 <= j < |keys| && Names(keys[j], id)
  }

  lemma PressedCons(keys: seq<string>, id: nat)
    requires keys != []
    ensures Pressed(keys, id) <==> Names(keys[0], id) || Pressed(keys[1..], id)
  {
    if Pressed(keys[1..], id) {
      var j :| 0 <= j < |keys[1..]| && Names(keys[1..][j], id);
      assert keys[j + 1] == keys[1..][j];
    }
    if Pressed(keys, id) {
      var j :| 0 <= j < |keys| && Names(keys[j], id);
      if j > 0 { assert keys[1..][j - 1] == keys[j]; }
    }
  }

  /** One key confirms exactly the user's own session it names; only the flag changes. */
  lemma ConfirmKeyEffect(sessions: seq<Session>, key: string, user: nat)
    requires UniqueIds(sessions)
    ensures var r := ConfirmKey(sessions, key, user);
      UniqueIds(r) &&
      forall i :: 0 <= i < |r| ==>
        r[i] == sessions[i].(confirmed := sessions[i].confirmed || (sessions[i].trainer == Some(user) && Names(key, sessions[i].id)))
  {
    var r := ConfirmKey(sessions, key, user);
    if IsConfirmKey(key) {
      GuardRedundant(sessions, key, user);
    }
    assert forall i :: 0 <= i < |r| ==> r[i].id == sessions[i].id;
    assert UniqueIds(r) by {
      forall i, j | 0 <= i < j < |r| ensures r[i].id != r[j].id {
        assert sessions[i].id != sessions[j].id;
      }
    }
  }

  /**
   * The confirmation loop changes nothing but the confirmed flag, and a session
   * ends confirmed exactly when it was, or it is assigned to the user and one of
   * the posted keys names it. Nobody can confirm a session for someone else.
   */
  lemma {:induction false} ConfirmAllEffect(sessions: seq<Session>, keys: seq<string>, user: nat)
    requires UniqueIds(sessions)
    ensures var r := ConfirmAll(sessions, keys, user);
      |r| == |sessions| &&
      (forall i :: 0 <= i < |r| ==> r[i].(confirmed := sessions[i].confirmed) == sessions[i]) &&
      (forall i :: 0 <= i < |r| ==>
         (r[i].confirmed <==> sessions[i].confirmed || (sessions[i].trainer == Some(user) && Pressed(keys, sessions[i].id))))
    decreases |keys|
  {
    if keys != [] {
      var next := ConfirmKey(sessions, keys[0], user);
      ConfirmKeyEffect(sessions, keys[0], user);
      ConfirmAllEffect(next, keys[1..], user);
      forall id: nat ensures Pressed(keys, id) <==> Names(keys[0], id) || Pressed(keys[1..], id) {
        PressedCons(keys, id);
      }
    }
  }

  /** Submitting the same keys again changes nothing more. */
  lemma ConfirmAllIdempotent(sessions: seq<Session>, keys: seq<string>, user: nat)
    requires UniqueIds(sessions)
    ensures ConfirmAll(ConfirmAll(sessions, keys, user), keys, user) == ConfirmAll(sessions, keys, user)
  {
    var r := ConfirmAll(sessions, keys, user);
    ConfirmAllEffect(sessions, keys, user);
    assert UniqueIds(r) by {
      forall i, j | 0 <= i < j < |r| ensures r[i].id != r[j].id {
        assert r[i].id == sessions[i].id && r[j].id == sessions[j].id;
      }
    }
    ConfirmAllEffect(r, keys, user);
    var rr := ConfirmAll(r, keys, user);
    forall i | 0 <= i < |rr| ensures rr[i] == r[i] {
      assert r[i].id == sessions[i].id && r[i].trainer == sessions[i].trainer;
    }
  }

  /** The dashboard card shows the confirm button: loosely assigned to the user and not yet confirmed. */
  predicate OffersConfirm(s: Session, user: nat)
  {
    LooseEquals(s.trainer, user) && !s.confirmed
  }

  /** Pressing the button a logged-in trainer is offered confirms that session, and only sessions assigned to them. */
  lemma ConfirmButtonWorks(sessions: seq<Session>, i: nat, user: nat)
    requires UniqueIds(sessions) && i < |sessions| && user > 0 && OffersConfirm(sessions[i], user)
    ensures var r := ConfirmAll(sessions, [ConfirmPrefix + Decimal(sessions[i].id)], user);
      r[i].confirmed && forall j :: 0 <= j < |r| && r[j].confirmed != sessions[j].confirmed ==> j == i
  {
    var key := ConfirmPrefix + Decimal(sessions[i].id);
    ConfirmKeyRoundTrip(sessions[i].id);
    GuardRedundant(sessions, key, user);
    var r := ConfirmAll(sessions, [key], user);
    assert [key][0] == key && [key][1..] == [];
    assert r == ConfirmAll(ConfirmKey(sessions, key, user), [], user);
    forall j | 0 <= j < |r| && r[j].confirmed != sessions[j].confirmed ensures j == i {
      assert sessions[j].id == sessions[i].id;
    }
  }

  /**
   * The answers map the dashboard builds from the user's rows: keyed by session,
   * a later row overwriting an earlier one as `$map[$row->session_id] = $row` does.
   */
  function AnswerMap(rows: seq<Availability>): map<nat, Availability>
    decreases |rows|
  {
    if rows == [] then map[]
    else AnswerMap(rows[..|rows| - 1])[rows[|rows| - 1].session := rows[|rows| - 1]]
  }

  /** `SELECT ... FROM availability WHERE user_id = u`, in table order. */
  function RowsOf(av: seq<Availability>, user: nat): (r: seq<Availability>)
    ensures forall i :: 0 <= i < |r| ==> r[i].user == user && r[i] in av
    ensures forall a :: a in av && a.user == user ==> a in r
    decreases |av|
  {
    if av == [] then []
    else (if av[0].user == user then [av[0]] else []) + RowsOf(av[1..], user)
  }

  /** The dashboard's loop over the user's rows. */
  method UserAnswers(av: seq<Availability>, user: nat) returns (m: map<nat, Availability>)
    ensures m == AnswerMap(RowsOf(av, user))
  {
    var rows := RowsOf(av, user);
    m := map[];
    var i := 0;
    while i < |rows|
      invariant 0 <= i <= |rows|
      invariant m == AnswerMap(rows[..i])
    {
      assert rows[..i + 1][..i] == rows[..i];
      m := m[rows[i].session := rows[i]];
      i := i + 1;
    }
    assert rows[..|rows|] == rows;
  }

  /** The map holds exactly the sessions of the rows, each with a row for that session. */
  lemma {:induction false} AnswerMapKeys(rows: seq<Availability>)
    ensures forall s :: s in AnswerMap(rows) <==> exists i :: 0 <= i < |rows| && rows[i].session == s
    ensures forall s :: s in AnswerMap(rows) ==> AnswerMap(rows)[s] in rows && AnswerMap(rows)[s].session == s
    decreases |rows|
  {
    if rows != [] {
      var init := rows[..|rows| - 1];
      AnswerMapKeys(init);
      forall s | s in AnswerMap(rows) ensures AnswerMap(rows)[s] in rows {
        if s != rows[|rows| - 1].session { assert AnswerMap(init)[s] in init; }
      }
      forall s | (exists i :: 0 <= i < |rows| && rows[i].session == s) ensures s in AnswerMap(rows) {
        var i :| 0 <= i < |rows| && rows[i].session == s;
        if i < |rows| - 1 { assert init[i] == rows[i]; }
      }
      forall s | s in AnswerMap(rows) && s != rows[|rows| - 1].session
        ensures exists i :: 0 <= i < |rows| && rows[i].session == s
      {
        assert s in AnswerMap(init);
        var i :| 0 <= i < |init| && init[i].session == s;
        assert rows[i] == init[i];
      }
    }
  }

  /**
   * With the unique (user, session) key, the answer the dashboard pre-selects for
   * a session is the status of the user's one row for it.
   */
  lemma AnswerShown(av: seq<Availability>, user: nat, session: nat)
    requires UniqueKeys(av)
    ensures var m := AnswerMap(RowsOf(av, user));
      (session in m <==> FindEntry(av, user, session).Some?) &&
      (session in m ==> m[session] == av[FindEntry(av, user, session).value])
  {
    var rows := RowsOf(av, user);
    var m := AnswerMap(rows);
    AnswerMapKeys(rows);
    if session in m {
      var a := m[session];
      assert a in av;
      var k :| 0 <= k < |av| && av[k] == a;
      FindEntryUnique(av, user, session, k);
    }
    var f := FindEntry(av, user, session);
    if f.Some? {
      assert av[f.value] in rows;
      var i :| 0 <= i < |rows| && rows[i] == av[f.value];
    }
  }
}
