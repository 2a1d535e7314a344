/**
 The cards that a gateway keeps, and how it applies the events of a pull. The database session does not flush
 before a query, so a row that a batch adds is not found by the later events of the batch.
 */
module GatewayCards {
  import opened Options
  import opened Cards

  /** A row of local_nfc_credentials, without its value. */
  datatype LocalCard = LocalCard(kind: Kind, userId: int, stationId: int, status: Status, reason: Option<string>)

  type Rows = map<string, LocalCard>

  function Or<T>(o: Option<T>, otherwise: T): T {
    match o case Some(v) => v case None => otherwise
  }

  // ---- One event, when every row is found

  function NewRow(e: SyncEvent, stationId: int): LocalCard
    requires e.Upsert?
  {
    LocalCard(Or(e.kind, CardUid), e.userId, Or(e.stationId, stationId), Or(e.status, Active), None)
  }

  /** An UPSERT on a row: a terminal state is never left for ACTIVE. */
  function Updated(row: LocalCard, e: SyncEvent, stationId: int): LocalCard
    requires e.Upsert?
  {
    var status := Or(e.status, Active);
    if IsTerminal(row.status) && status == Active then row
    else row.(userId := e.userId, stationId := Or(e.stationId, stationId), status := status)
  }

  function Switched(row: LocalCard, e: SyncEvent): LocalCard
    requires e.Disable?
  {
    row.(status := Or(e.status, Disabled), reason := e.reason)
  }

  /** A replacement disables the old card and issues the new one. */
  function Parts(e: SyncEvent): (Option<SyncEvent>, Option<SyncEvent>)
    requires e.Replace?
  {
    (if e.oldValue != "" then Some(Disable(e.oldValue, Some(Replaced), e.reason)) else None,
     if e.newValue != "" then Some(Upsert(e.newValue, e.userId, e.stationId, e.kind, Some(Active))) else None)
  }

  function Applied(rows: Rows, e: SyncEvent, stationId: int): Rows
    decreases if e.Replace? then 1 else 0
  {
    match e
    case Upsert(v, _, _, _, _) =>
      rows[v := if v in rows then Updated(rows[v], e, stationId) else NewRow(e, stationId)]
    case Disable(v, _, _) => if v in rows then rows[v := Switched(rows[v], e)] else rows
    case Replace(_, _, _, _, _, _) =>
      var (d, u) := Parts(e);
      var disabled := if d.Some? then Applied(rows, d.value, stationId) else rows;
      if u.Some? then Applied(disabled, u.value, stationId) else disabled
    case AccessRequested(_) => rows
    case PickupConfirmed(_) => rows
  }

  function ApplyAll(rows: Rows, events: seq<SyncEvent>, stationId: int): Rows {
    if events == [] then rows
    else Applied(ApplyAll(rows, events[..|events| - 1], stationId), events[|events| - 1], stationId)
  }

  // ---- What the events say, apart from how they are applied

  /** The status that is meant when none is given. */
  function Meant(status: Option<Status>, otherwise: Status): Status {
    if status.Some? then status.value else otherwise
  }

  /** UPSERT adds an unknown card as given; without a kind it is a card number, without a station of this gateway's, and
      without a status ACTIVE. A known card keeps its kind and reason and takes user, station and status, unless it is
      LOST, REPLACED or DISABLED and the status is ACTIVE. */
  lemma UpsertExactly(rows: Rows, v: string, userId: int, station: Option<int>, kind: Option<Kind>,
                      status: Option<Status>, stationId: int)
    ensures var after := Applied(rows, Upsert(v, userId, station, kind, status), stationId);
            var home := if station.Some? then station.value else stationId;
            after == rows[v := if v !in rows then
                                 LocalCard(if kind.Some? then kind.value
                                           else CardUid, userId, home, Meant(status, Active), None)
                               else if rows[v].status in {Lost, Replaced, Disabled} && Meant(status, Active) == Active
                               then rows[v]
                               else LocalCard(rows[v].kind, userId, home, Meant(status, Active), rows[v].reason)]
  {
  }

  /** DISABLED gives a known card the status, DISABLED when none is given, and the reason, and ignores an unknown
      one. */
  lemma DisableExactly(rows: Rows, v: string, status: Option<Status>, reason: Option<string>, stationId: int)
    ensures Applied(rows, Disable(v, status, reason), stationId) ==
            if v !in rows then rows
            else rows[v := LocalCard(rows[v].kind, rows[v].userId, rows[v].stationId, Meant(status, Disabled), reason)]
  {
  }

  /** REPLACED is a DISABLED with status REPLACED for the old value, and then an UPSERT with status ACTIVE for the new
      one, each only if its value is given. */
  lemma ReplaceExactly(rows: Rows, before: string, next: string, userId: int, station: Option<int>, kind: Option<Kind>,
                       reason: Option<string>, stationId: int)
    ensures var disabled := if |before| == 0 then rows
                            else Applied(rows, Disable(before, Some(Replaced), reason), stationId);
            Applied(rows, Replace(before, next, userId, station, kind, reason), stationId) ==
            if |next| == 0 then disabled
            else Applied(disabled, Upsert(next, userId, station, kind, Some(Active)), stationId)
  {
  }

  // ---- No resurrection

  ghost predicate IsOff(rows: Rows, v: string) {
    v in rows && (rows[v].status == Lost || rows[v].status == Replaced || rows[v].status == Disabled)
  }

  /** What one event of the first two kinds does to a card that is off: exactly these turn it on again. */
  lemma OffExactly(rows: Rows, e: SyncEvent, stationId: int, v: string)
    requires IsOff(rows, v) && !e.Replace?
    ensures !IsOff(Applied(rows, e, stationId), v) <==>
              IsAbout(e, v) && ((e.Upsert? && e.status == Some(Expired))
                                || (e.Disable? && e.status in {Some(Active), Some(Expired)}))
  {
  }

  lemma StaysOff(rows: Rows, e: SyncEvent, stationId: int, v: string)
    requires IsOff(rows, v) && IsLifecycle(e)
    ensures IsOff(Applied(rows, e, stationId), v)
    decreases if e.Replace? then 1 else 0
  {
    if e.Replace? {
      var (d, u) := Parts(e);
      var disabled := if d.Some? then Applied(rows, d.value, stationId) else rows;
      if d.Some? {
        StaysOff(rows, d.value, stationId, v);
      }
      if u.Some? {
        StaysOff(disabled, u.value, stationId, v);
      }
    } else {
      OffExactly(rows, e, stationId, v);
    }
  }

  /** A card once lost, replaced or disabled never becomes active again, whatever lifecycle events follow,
      in any order and any number of times. */
  lemma {:induction false} NoResurrection(rows: Rows, events: seq<SyncEvent>, stationId: int, v: string)
    requires IsOff(rows, v) && forall k | 0 <= k < |events| :: IsLifecycle(events[k])
    ensures IsOff(ApplyAll(rows, events, stationId), v)
  {
    if events != [] {
      var n := |events| - 1;
      NoResurrection(rows, events[..n], stationId, v);
      StaysOff(ApplyAll(rows, events[..n], stationId), events[n], stationId, v);
    }
  }

  /** Outside the lifecycle it can: by way of EXPIRED. */
  lemma ExpiredResurrects()
    ensures var row := LocalCard(CardUid, 1, 1, Lost, None);
            var events := [Upsert("04AB", 1, Some(1), None, Some(Expired)),
                           Upsert("04AB", 1, Some(1), None, Some(Active))];
            var after := ApplyAll(map["04AB" := row], events, 1);
            "04AB" in after && after["04AB"].status == Active
  {
    var row := LocalCard(CardUid, 1, 1, Lost, None);
    var a, b := Upsert("04AB", 1, Some(1), None, Some(Expired)), Upsert("04AB", 1, Some(1), None, Some(Active));
    assert [a, b][..1] == [a] && [a][..0] == [];
    assert ApplyAll(map["04AB" := row], [a], 1) == map["04AB" := row.(status := Expired)];
  }

  /** Order matters: a card that is disabled before the gateway knows it ends up active. */
  lemma DisabledTooEarly(rows: Rows, stationId: int, off: SyncEvent, on: SyncEvent)
    requires off.Disable? && on.Upsert? && off.value == on.value && on.value !in rows
    requires IsLifecycle(off) && IsLifecycle(on)
    ensures var after := Applied(Applied(rows, on, stationId), off, stationId);
            on.value in after && after[on.value].status != Active
    ensures var after := Applied(Applied(rows, off, stationId), on, stationId);
            on.value in after && after[on.value].status == Active
  {
  }

  // ---- The session

  /** What a pull works on: the rows of the database as committed, the same with the changes of this batch, and
      the rows added by this batch, which queries do not see. */
  datatype Session = Session(committed: Rows, rows: Rows, added: seq<(string, LocalCard)>)

  function Opened(rows: Rows): Session {
    Session(rows, rows, [])
  }

  predicate CanInsert(rows: Rows, added: seq<(string, LocalCard)>) {
    && (forall k | 0 <= k < |added| :: added[k].0 !in rows)
    && (forall j, k | 0 <= j < k < |added| :: added[j].0 != added[k].0)
  }

  function Merged(rows: Rows, added: seq<(string, LocalCard)>): Rows {
    if added == [] then rows
    else Merged(rows, added[..|added| - 1])[added[|added| - 1].0 := added[|added| - 1].1]
  }

  /** A commit writes the added rows, or fails because a value would not be unique and undoes the batch. */
  function Committed(s: Session): (Session, bool) {
    if CanInsert(s.rows, s.added) then (Opened(Merged(s.rows, s.added)), true) else (Opened(s.committed), false)
  }

  /** What an event does to the session, and whether its commit, if it makes one, succeeds. A replacement commits when
      it queues its upload, an access request when it records its outcome. */
  function SessionApplied(s: Session, e: SyncEvent, stationId: int): (Session, bool)
    decreases if e.Replace? then 1 else 0
  {
    match e
    case Upsert(v, _, _, _, _) =>
      (if v in s.rows then s.(rows := s.rows[v := Updated(s.rows[v], e, stationId)])
       else s.(added := s.added + [(v, NewRow(e, stationId))]), true)
    case Disable(v, _, _) => (if v in s.rows then s.(rows := s.rows[v := Switched(s.rows[v], e)]) else s, true)
    case Replace(_, _, _, _, _, _) =>
      var (d, u) := Parts(e);
      var disabled := if d.Some? then SessionApplied(s, d.value, stationId).0 else s;
      Committed(if u.Some? then SessionApplied(disabled, u.value, stationId).0 else disabled)
    case AccessRequested(_) => Committed(s)
    case PickupConfirmed(_) => (s, true)
  }

  /** The session after the events of a batch, up to the first that fails. */
  function BatchApplied(s: Session, events: seq<SyncEvent>, stationId: int): (Session, bool) {
    if events == [] then (s, true)
    else
      var (before, ok) := BatchApplied(s, events[..|events| - 1], stationId);
      if ok then SessionApplied(before, events[|events| - 1], stationId) else (before, false)
  }

  /** The rows after a pull, and whether it was committed. */
  function PullOutcome(rows: Rows, events: seq<SyncEvent>, stationId: int): (Rows, bool) {
    var (s, ok) := BatchApplied(Opened(rows), events, stationId);
    if ok then (Committed(s).0.committed, Committed(s).1) else (s.committed, false)
  }

  // ---- The rows that a commit writes

  ghost function AddedKeys(added: seq<(string, LocalCard)>): set<string> {
    set k | 0 <= k < |added| :: added[k].0
  }

  lemma {:induction false} MergedLookup(rows: Rows, added: seq<(string, LocalCard)>)
    requires CanInsert(rows, added)
    ensures Merged(rows, added).Keys == rows.Keys + AddedKeys(added)
    ensures forall v | v in rows :: Merged(rows, added)[v] == rows[v]
    ensures forall k | 0 <= k < |added| ::
              added[k].0 in Merged(rows, added) && Merged(rows, added)[added[k].0] == added[k].1
  {
    if added != [] {
      var n := |added| - 1;
      MergedLookup(rows, added[..n]);
      assert added == added[..n] + [added[n]];
      AddedKeysSnoc(added[..n], added[n]);
      forall k | 0 <= k < n
        ensures added[k].0 in Merged(rows, added) && Merged(rows, added)[added[k].0] == added[k].1
      {
        assert added[..n][k] == added[k];
      }
    }
  }

  lemma AddedKeysSnoc(added: seq<(string, LocalCard)>, a: (string, LocalCard))
    ensures AddedKeys(added + [a]) == AddedKeys(added) + {a.0}
  {
    forall v | v in AddedKeys(added)
      ensures v in AddedKeys(added + [a])
    {
      var k :| 0 <= k < |added| && added[k].0 == v;
      assert (added + [a])[k].0 == v;
    }
    assert (added + [a])[|added|].0 == a.0;
  }

  lemma MergedUpdate(rows: Rows, added: seq<(string, LocalCard)>, v: string, row: LocalCard)
    requires CanInsert(rows, added) && v in rows && v !in AddedKeys(added)
    ensures CanInsert(rows[v := row], added) && Merged(rows[v := row], added) == Merged(rows, added)[v := row]
  {
    hide Merged;
    forall k | 0 <= k < |added|
      ensures added[k].0 != v
    {
    }
    MergedLookup(rows, added);
    MergedLookup(rows[v := row], added);
    var a, b := Merged(rows[v := row], added), Merged(rows, added)[v := row];
    forall u | u in a
      ensures a[u] == b[u]
    {
      if u !in rows {
        var k :| 0 <= k < |added| && added[k].0 == u;
        assert a[added[k].0] == added[k].1 == b[added[k].0];
      }
    }
  }

  lemma MergedSnoc(rows: Rows, added: seq<(string, LocalCard)>, v: string, row: LocalCard)
    requires CanInsert(rows, added) && v !in rows && v !in AddedKeys(added)
    ensures CanInsert(rows, added + [(v, row)]) && Merged(rows, added + [(v, row)]) == Merged(rows, added)[v := row]
  {
    assert (added + [(v, row)])[..|added|] == added;
    forall k | 0 <= k < |added|
      ensures added[k].0 != v
    {
    }
  }

  lemma {:induction false} ApplyAllConcat(rows: Rows, a: seq<SyncEvent>, b: seq<SyncEvent>, stationId: int)
    ensures ApplyAll(rows, a + b, stationId) == ApplyAll(ApplyAll(rows, a, stationId), b, stationId)
  {
    if b == [] {
      assert a + b == a;
    } else {
      var n := |b| - 1;
      ApplyAllConcat(rows, a, b[..n], stationId);
      assert (a + b)[..|a| + n] == a + b[..n];
    }
  }

  // ---- No resurrection across pulls

  ghost predicate OffInSession(s: Session, v: string) {
    IsOff(s.rows, v) && IsOff(s.committed, v)
  }

  lemma CommitKeepsOff(s: Session, v: string)
    requires OffInSession(s, v)
    ensures OffInSession(Committed(s).0, v)
  {
    if CanInsert(s.rows, s.added) {
      MergedLookup(s.rows, s.added);
    }
  }

  lemma EventKeepsOff(s: Session, e: SyncEvent, stationId: int, v: string)
    requires OffInSession(s, v) && IsLifecycle(e)
    ensures OffInSession(SessionApplied(s, e, stationId).0, v)
    decreases if e.Replace? then 1 else 0
  {
    if e.Replace? {
      var (d, u) := Parts(e);
      var disabled := if d.Some? then SessionApplied(s, d.value, stationId).0 else s;
      if d.Some? {
        EventKeepsOff(s, d.value, stationId, v);
      }
      if u.Some? {
        EventKeepsOff(disabled, u.value, stationId, v);
      }
      CommitKeepsOff(if u.Some? then SessionApplied(disabled, u.value, stationId).0 else disabled, v);
    } else if e.AccessRequested? {
      CommitKeepsOff(s, v);
    }
  }

  lemma {:induction false} BatchKeepsOff(s: Session, events: seq<SyncEvent>, stationId: int, v: string)
    requires OffInSession(s, v) && forall k | 0 <= k < |events| :: IsLifecycle(events[k])
    ensures OffInSession(BatchApplied(s, events, stationId).0, v)
  {
    if events != [] {
      var n := |events| - 1;
      BatchKeepsOff(s, events[..n], stationId, v);
      EventKeepsOff(BatchApplied(s, events[..n], stationId).0, events[n], stationId, v);
    }
  }

  /** The rows after a number of pulls. */
  function AfterPulls(rows: Rows, batches: seq<seq<SyncEvent>>, stationId: int): Rows {
    if batches == [] then rows
    else PullOutcome(AfterPulls(rows, batches[..|batches| - 1], stationId), batches[|batches| - 1], stationId).0
  }

  /** The same over any pulls, with rows that queries do not see and batches that fail. */
  lemma {:induction false} NoResurrectionAcrossPulls(rows: Rows, batches: seq<seq<SyncEvent>>, stationId: int,
                                                     v: string)
    requires IsOff(rows, v)
    requires forall b | b in batches :: forall k | 0 <= k < |b| :: IsLifecycle(b[k])
    ensures IsOff(AfterPulls(rows, batches, stationId), v)
  {
    hide IsOff, BatchApplied, Committed;
    if batches != [] {
      var n := |batches| - 1;
      NoResurrectionAcrossPulls(rows, batches[..n], stationId, v);
      var before := AfterPulls(rows, batches[..n], stationId);
      BatchKeepsOff(Opened(before), batches[n], stationId, v);
      CommitKeepsOff(BatchApplied(Opened(before), batches[n], stationId).0, v);
    }
  }

  // ---- The service

  /** What a batch queues for upload: one confirmation for each replacement that has been applied. */
  function Confirmations(s: Session, events: seq<SyncEvent>, stationId: int): seq<string> {
    if events == [] then []
    else
      var n := |events| - 1;
      Confirmations(s, events[..n], stationId)
      + (if events[n].Replace? && BatchApplied(s, events, stationId).1 then ["GATE_CARD_REPLACED_APPLIED"] else [])
  }

  /** The card table of the gateway behind its session, and the events it has queued for upload. */
  class Gateway {
    const stationId: int
    var session: Session
    var uploads: seq<string>

    constructor (stationId: int)
      ensures this.stationId == stationId && session == Opened(map[]) && uploads == []
    {
      this.stationId, session, uploads := stationId, Opened(map[]), [];
    }

    method Commit() returns (ok: bool)
      modifies `session
      ensures (session, ok) == Committed(old(session))
    {
      if CanInsert(session.rows, session.added) {
        var rows := session.rows;
        for k := 0 to |session.added|
          invariant rows == Merged(session.rows, session.added[..k])
        {
          assert session.added[..k + 1][..k] == session.added[..k];
          rows := rows[session.added[k].0 := session.added[k].1];
        }
        assert session.added[..|session.added|] == session.added;
        session := Opened(rows);
        return true;
      }
      session := Opened(session.committed);
      return false;
    }

    /** apply_sync_event, as far as cards and commits go. */
    method ApplySyncEvent(e: SyncEvent) returns (ok: bool)
      modifies this
      ensures (session, ok) == SessionApplied(old(session), e, stationId)
      ensures uploads == old(uploads) + (if e.Replace? && ok then ["GATE_CARD_REPLACED_APPLIED"] else [])
      decreases if e.Replace? then 1 else 0
    {
      match e {
        case Upsert(value, userId, station, kind, status) =>
          var wanted := Or(status, Active);
          if value !in session.rows {
            var row := LocalCard(Or(kind, CardUid), userId, Or(station, stationId), wanted, None);
            session := session.(added := session.added + [(value, row)]);
          } else {
            var row := session.rows[value];
            if row.status in {Lost, Replaced, Disabled} && wanted == Active {
              assert session.rows[value := row] == session.rows;
              return true;
            }
            row := row.(userId := userId);
            row := row.(stationId := Or(station, stationId));
            row := row.(status := wanted);
            session := session.(rows := session.rows[value := row]);
          }
          return true;
        case Disable(value, status, reason) =>
          if value in session.rows {
            var row := session.rows[value];
            row := row.(status := Or(status, Disabled));
            row := row.(reason := reason);
            session := session.(rows := session.rows[value := row]);
          }
          return true;
        case Replace(oldValue, newValue, userId, station, kind, reason) =>
          if oldValue != "" {
            var _ := ApplySyncEvent(Disable(oldValue, Some(Replaced), reason));
          }
          if newValue != "" {
            var _ := ApplySyncEvent(Upsert(newValue, userId, station, kind, Some(Active)));
          }
          ok := Commit();
          if ok {
            uploads := uploads + ["GATE_CARD_REPLACED_APPLIED"];
          }
        case AccessRequested(userId) =>
          ok := Commit();
        case PickupConfirmed(parcelId) =>
          return true;
      }
    }

    /** sync_pull_once on the events of one answer: they are applied in order up to the first that fails, and what
        no event has committed is committed at the end or undone. */
    method SyncPullOnce(events: seq<SyncEvent>) returns (ok: bool)
      requires session == Opened(session.committed)
      modifies this
      ensures session == Opened(session.committed)
      ensures (session.committed, ok) == PullOutcome(old(session.committed), events, stationId)
      ensures uploads == old(uploads) + Confirmations(Opened(old(session.committed)), events, stationId)
    {
      hide SessionApplied, BatchApplied, Confirmations, Merged;
      ghost var before := session.committed;
      NoEvents(Opened(before), stationId);
      for i := 0 to |events|
        invariant (session, true) == BatchApplied(Opened(before), events[..i], stationId)
        invariant uploads == old(uploads) + Confirmations(Opened(before), events[..i], stationId)
      {
        NextEvent(Opened(before), events, i, stationId);
        FailureEndsSession(session, events[i], stationId);
        var applied := ApplySyncEvent(events[i]);
        if !applied {
          BatchFails(Opened(before), events, i + 1, stationId);
          return false;
        }
      }
      assert events[..|events|] == events;
      ok := Commit();
    }
  }

  lemma NoEvents(s: Session, stationId: int)
    ensures BatchApplied(s, [], stationId) == (s, true) && Confirmations(s, [], stationId) == []
  {
  }

  lemma FailureEndsSession(s: Session, e: SyncEvent, stationId: int)
    ensures var (t, ok) := SessionApplied(s, e, stationId); !ok ==> t == Opened(t.committed)
  {
  }

  lemma NextEvent(s: Session, events: seq<SyncEvent>, i: nat, stationId: int)
    requires i < |events| && BatchApplied(s, events[..i], stationId).1
    ensures var (t, ok) := SessionApplied(BatchApplied(s, events[..i], stationId).0, events[i], stationId);
            && BatchApplied(s, events[..i + 1], stationId) == (t, ok)
            && Confirmations(s, events[..i + 1], stationId) ==
               Confirmations(s, events[..i], stationId)
               + (if events[i].Replace? && ok then ["GATE_CARD_REPLACED_APPLIED"] else [])
  {
    hide SessionApplied;
    assert events[..i + 1][..i] == events[..i];
  }

  /** A batch that has failed stays as it is. */
  lemma {:induction false} BatchFails(s: Session, events: seq<SyncEvent>, n: nat, stationId: int)
    requires n <= |events| && !BatchApplied(s, events[..n], stationId).1
    ensures BatchApplied(s, events, stationId) == BatchApplied(s, events[..n], stationId)
    ensures Confirmations(s, events, stationId) == Confirmations(s, events[..n], stationId)
    decreases |events|
  {
    if n == |events| {
      assert events[..n] == events;
    } else {
      var m := |events| - 1;
      assert events[..m][..n] == events[..n];
      BatchFails(s, events[..m], n, stationId);
    }
  }
}
