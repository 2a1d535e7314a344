/**
 What a pull does with a whole batch of events. A card that an event adds is not found before the next commit, so that
 a batch can do less than its events say, or fail.
 */
module PullBatches {
  import opened Options
  import opened Cards
  import opened GatewayCards

  // ---- What a batch adds

  predicate Commits(e: SyncEvent) {
    e.Replace? || e.AccessRequested?
  }

  /** The card that the event adds when the table does not have it. */
  function Introduced(e: SyncEvent): Option<string> {
    match e
    case Upsert(v, _, _, _, _) => Some(v)
    case Disable(_, _, _) => None
    case Replace(_, n, _, _, _, _) => if n != "" then Some(n) else None
    case AccessRequested(_) => None
    case PickupConfirmed(_) => None
  }

  ghost function Values(events: seq<SyncEvent>): set<string> {
    set e | e in events && Introduced(e).Some? :: Introduced(e).value
  }

  /** The cards that the events have added since the last commit. */
  ghost function Uncommitted(rows: Rows, events: seq<SyncEvent>): set<string> {
    if events == [] then {}
    else
      var n := |events| - 1;
      var before, e := events[..n], events[n];
      if Commits(e) then {}
      else if e.Upsert? && e.value !in rows && e.value !in Values(before) then Uncommitted(rows, before) + {e.value}
      else Uncommitted(rows, before)
  }

  /** Event i is the first to bring the card in, and nothing is committed from it on. */
  ghost predicate AddedAt(events: seq<SyncEvent>, i: nat, v: string) {
    && i < |events| && events[i].Upsert? && events[i].value == v && v !in Values(events[..i])
    && forall k | i < k < |events| :: !Commits(events[k])
  }

  /** The same said of single events. */
  lemma {:induction false} UncommittedExactly(rows: Rows, events: seq<SyncEvent>, v: string)
    ensures v in Uncommitted(rows, events) <==> v !in rows && exists i: nat :: AddedAt(events, i, v)
  {
    hide Values, Commits;
    if events != [] {
      var n := |events| - 1;
      UncommittedExactly(rows, events[..n], v);
      var e := events[n];
      assert e.Upsert? && e.value == v && v !in Values(events[..n]) ==> AddedAt(events, n, v);
      forall i: nat | i < n
        ensures AddedAt(events, i, v) <==> AddedAt(events[..n], i, v) && !Commits(e)
      {
        assert events[..n][..i] == events[..i];
      }
      UpsertDoesNotCommit(e);
    }
  }

  lemma UpsertDoesNotCommit(e: SyncEvent)
    ensures e.Upsert? ==> !Commits(e)
  {
  }

  /** The number of events up to the last commit. */
  function LastCommit(events: seq<SyncEvent>): (n: nat)
    ensures n <= |events|
  {
    if events == [] then 0
    else if Commits(events[|events| - 1]) then |events|
    else LastCommit(events[..|events| - 1])
  }

  // ---- What has an effect

  /** What an event still does when the given cards are not found: it turns none of them off. */
  function Visible(hidden: set<string>, e: SyncEvent): seq<SyncEvent> {
    if e.Disable? && e.value in hidden then []
    else if e.Replace? && e.oldValue in hidden then [e.(oldValue := "")]
    else [e]
  }

  /** The events of a batch without what they do not find. */
  ghost function Effective(rows: Rows, events: seq<SyncEvent>): seq<SyncEvent> {
    if events == [] then []
    else
      var n := |events| - 1;
      Effective(rows, events[..n]) + Visible(Uncommitted(rows, events[..n]), events[n])
  }

  /** The rows as of the last commit. */
  ghost function Stored(rows: Rows, events: seq<SyncEvent>, stationId: int): Rows {
    ApplyAll(rows, Effective(rows, events[..LastCommit(events)]), stationId)
  }

  /** The event adds a card that is added already but not yet found. */
  predicate AddsAgain(hidden: set<string>, e: SyncEvent) {
    Introduced(e).Some? && Introduced(e).value in hidden
  }

  ghost predicate NothingAddedTwice(rows: Rows, events: seq<SyncEvent>) {
    forall n | 0 <= n < |events| :: !AddsAgain(Uncommitted(rows, events[..n]), events[n])
  }

  lemma {:induction false} KeysAfter(rows: Rows, events: seq<SyncEvent>, stationId: int)
    ensures ApplyAll(rows, events, stationId).Keys == rows.Keys + Values(events)
  {
    hide Applied;
    if events != [] {
      var n := |events| - 1;
      KeysAfter(rows, events[..n], stationId);
      AppliedKeys(ApplyAll(rows, events[..n], stationId), events[n], stationId);
      assert events == events[..n] + [events[n]];
      ValuesConcat(events[..n], [events[n]]);
    }
  }

  lemma AppliedKeys(rows: Rows, e: SyncEvent, stationId: int)
    ensures Applied(rows, e, stationId).Keys == rows.Keys + Values([e])
  {
    hide Updated, Switched, NewRow;
    ValuesOfOne(e);
  }

  lemma ValuesOfOne(e: SyncEvent)
    ensures Values([e]) == if Introduced(e).Some? then {Introduced(e).value} else {}
  {
    assert e in [e];
  }

  lemma ValuesConcat(a: seq<SyncEvent>, b: seq<SyncEvent>)
    ensures Values(a + b) == Values(a) + Values(b)
  {
    hide Introduced;
  }

  lemma {:induction false} ValuesOfEffective(rows: Rows, events: seq<SyncEvent>)
    ensures Values(Effective(rows, events)) == Values(events)
  {
    hide Values, Uncommitted, Visible;
    if events != [] {
      var n := |events| - 1;
      ValuesOfEffective(rows, events[..n]);
      ValuesOfVisible(Uncommitted(rows, events[..n]), events[n]);
      ValuesConcat(Effective(rows, events[..n]), Visible(Uncommitted(rows, events[..n]), events[n]));
      ValuesConcat(events[..n], [events[n]]);
      assert events == events[..n] + [events[n]];
    }
  }

  lemma ValuesOfVisible(hidden: set<string>, e: SyncEvent)
    ensures Values(Visible(hidden, e)) == Values([e])
  {
    hide Values;
    ValuesOfOne(e);
    if e.Replace? {
      ValuesOfOne(e.(oldValue := ""));
    } else if e.Disable? {
      NoValues();
    }
  }

  lemma NoValues()
    ensures Values([]) == {}
  {
  }

  // ---- The session, event by event

  /** One event that does not commit. */
  lemma OneEvent(s: Session, e: SyncEvent, stationId: int)
    requires CanInsert(s.rows, s.added) && !Commits(e) && !AddsAgain(AddedKeys(s.added), e)
    ensures var (t, ok) := SessionApplied(s, e, stationId);
            && ok && CanInsert(t.rows, t.added) && t.committed == s.committed && t.rows.Keys == s.rows.Keys
            && AddedKeys(t.added) == AddedKeys(s.added) + (if e.Upsert? && e.value !in s.rows then {e.value} else {})
            && Merged(t.rows, t.added) == ApplyAll(Merged(s.rows, s.added), Visible(AddedKeys(s.added), e), stationId)
  {
    hide Merged, CanInsert, AddedKeys, Updated, Switched, NewRow, ApplyAll, Applied;
    MergedLookup(s.rows, s.added);
    if e.Upsert? || e.Disable? {
      OneCard(s, e, stationId);
    } else {
      ApplyOne(Merged(s.rows, s.added), e, stationId);
      NoCard(Merged(s.rows, s.added), e, stationId);
    }
  }

  lemma NoCard(rows: Rows, e: SyncEvent, stationId: int)
    requires e.AccessRequested? || e.PickupConfirmed?
    ensures Applied(rows, e, stationId) == rows
  {
  }

  lemma OneCard(s: Session, e: SyncEvent, stationId: int)
    requires CanInsert(s.rows, s.added) && (e.Upsert? || e.Disable?) && !AddsAgain(AddedKeys(s.added), e)
    ensures var (t, ok) := SessionApplied(s, e, stationId);
            && ok && CanInsert(t.rows, t.added) && t.committed == s.committed && t.rows.Keys == s.rows.Keys
            && AddedKeys(t.added) == AddedKeys(s.added) + (if e.Upsert? && e.value !in s.rows then {e.value} else {})
            && Merged(t.rows, t.added) == ApplyAll(Merged(s.rows, s.added), Visible(AddedKeys(s.added), e), stationId)
  {
    hide Merged, CanInsert, AddedKeys, Updated, Switched, NewRow, ApplyAll;
    MergedLookup(s.rows, s.added);
    ApplyOne(Merged(s.rows, s.added), e, stationId);
    if e.value in s.rows {
      NotAdded(s.rows, s.added, e.value);
      var row := if e.Upsert? then Updated(s.rows[e.value], e, stationId) else Switched(s.rows[e.value], e);
      MergedUpdate(s.rows, s.added, e.value, row);
    } else if e.Upsert? {
      MergedSnoc(s.rows, s.added, e.value, NewRow(e, stationId));
      AddedKeysSnoc(s.added, (e.value, NewRow(e, stationId)));
    }
  }

  lemma NotAdded(rows: Rows, added: seq<(string, LocalCard)>, v: string)
    requires CanInsert(rows, added) && v in rows
    ensures v !in AddedKeys(added)
  {
  }

  lemma ApplyOne(rows: Rows, e: SyncEvent, stationId: int)
    ensures ApplyAll(rows, [e], stationId) == Applied(rows, e, stationId) && ApplyAll(rows, [], stationId) == rows
  {
    hide Applied;
    assert [e][..0] == [];
  }

  lemma ApplyAllSnoc(rows: Rows, events: seq<SyncEvent>, e: SyncEvent, stationId: int)
    ensures ApplyAll(rows, events + [e], stationId) == Applied(ApplyAll(rows, events, stationId), e, stationId)
  {
    hide Applied;
    assert (events + [e])[..|events|] == events;
  }

  /** The session after a batch: what is added is what the batch has added since its last commit, the rows with it are
      those of the effective events, and what is stored is the state of the last commit. */
  ghost predicate InStep(s: Session, rows: Rows, events: seq<SyncEvent>, stationId: int) {
    && CanInsert(s.rows, s.added) && s.rows.Keys == s.committed.Keys && AddedKeys(s.added) == Uncommitted(rows, events)
    && Merged(s.rows, s.added) == ApplyAll(rows, Effective(rows, events), stationId)
    && s.committed == Stored(rows, events, stationId)
  }

  lemma SnocEvents(rows: Rows, events: seq<SyncEvent>, e: SyncEvent, stationId: int)
    ensures Effective(rows, events + [e]) == Effective(rows, events) + Visible(Uncommitted(rows, events), e)
    ensures LastCommit(events + [e]) == if Commits(e) then |events| + 1 else LastCommit(events)
    ensures Stored(rows, events + [e], stationId) ==
            if Commits(e) then ApplyAll(rows, Effective(rows, events + [e]), stationId)
            else Stored(rows, events, stationId)
    ensures Uncommitted(rows, events + [e]) ==
            if Commits(e) then {}
            else if e.Upsert? && e.value !in rows && e.value !in Values(events)
            then Uncommitted(rows, events) + {e.value}
            else Uncommitted(rows, events)
  {
    hide Commits, Values, Visible, ApplyAll;
    var all := events + [e];
    assert all[..|events|] == events && all[..|all|] == all && all[|events|] == e;
    var n := LastCommit(events);
    assert all[..n] == events[..n];
  }

  /** The effect of an event that does not commit on a session in step. */
  lemma NextInStep(s: Session, rows: Rows, events: seq<SyncEvent>, e: SyncEvent, stationId: int)
    requires InStep(s, rows, events, stationId) && !AddsAgain(Uncommitted(rows, events), e) && !Commits(e)
    ensures SessionApplied(s, e, stationId).1
            && InStep(SessionApplied(s, e, stationId).0, rows, events + [e], stationId)
  {
    hide Merged, CanInsert, AddedKeys, Effective, Uncommitted, Stored, ApplyAll, Visible, Values, SessionApplied;
    OneEvent(s, e, stationId);
    SnocEvents(rows, events, e, stationId);
    ApplyAllConcat(rows, Effective(rows, events), Visible(Uncommitted(rows, events), e), stationId);
    KnownCards(s, rows, events, stationId);
  }

  lemma KnownCards(s: Session, rows: Rows, events: seq<SyncEvent>, stationId: int)
    requires InStep(s, rows, events, stationId)
    ensures s.rows.Keys + Uncommitted(rows, events) == rows.Keys + Values(events)
    ensures s.rows.Keys !! Uncommitted(rows, events)
  {
    hide Merged, Effective, Uncommitted, Stored, ApplyAll, Values;
    MergedLookup(s.rows, s.added);
    KeysAfter(rows, Effective(rows, events), stationId);
    ValuesOfEffective(rows, events);
  }

  /** A commit of a session whose rows with the added ones are those of the effective events. */
  lemma CommitInStep(t: Session, rows: Rows, events: seq<SyncEvent>, e: SyncEvent, stationId: int)
    requires Commits(e) && CanInsert(t.rows, t.added)
    requires Merged(t.rows, t.added) == ApplyAll(rows, Effective(rows, events + [e]), stationId)
    ensures Committed(t).1 && InStep(Committed(t).0, rows, events + [e], stationId)
  {
    hide Effective, Uncommitted, Stored, ApplyAll;
    SnocEvents(rows, events, e, stationId);
  }

  lemma AccessInStep(s: Session, rows: Rows, events: seq<SyncEvent>, e: SyncEvent, stationId: int)
    requires InStep(s, rows, events, stationId) && e.AccessRequested?
    ensures SessionApplied(s, e, stationId).1
            && InStep(SessionApplied(s, e, stationId).0, rows, events + [e], stationId)
  {
    hide Merged, CanInsert, AddedKeys, Effective, Uncommitted, Stored, ApplyAll, Values, Applied;
    SnocEvents(rows, events, e, stationId);
    ApplyAllConcat(rows, Effective(rows, events), [e], stationId);
    ApplyOne(Merged(s.rows, s.added), e, stationId);
    NoCard(Merged(s.rows, s.added), e, stationId);
    CommitInStep(s, rows, events, e, stationId);
  }

  /** A replacement is its two parts and a commit. */
  lemma ReplaceInStep(s: Session, rows: Rows, events: seq<SyncEvent>, e: SyncEvent, stationId: int)
    requires InStep(s, rows, events, stationId) && !AddsAgain(Uncommitted(rows, events), e) && e.Replace?
    ensures SessionApplied(s, e, stationId).1
            && InStep(SessionApplied(s, e, stationId).0, rows, events + [e], stationId)
  {
    hide Merged, CanInsert, AddedKeys, Effective, Uncommitted, Stored, ApplyAll, Values, Applied;
    var hidden, all := Uncommitted(rows, events), Merged(s.rows, s.added);
    SnocEvents(rows, events, e, stationId);
    ApplyAllConcat(rows, Effective(rows, events), Visible(hidden, e), stationId);
    ReplacedInParts(all, hidden, e, stationId);
    var (d, u) := Parts(e);
    var disabled := if d.Some? then SessionApplied(s, d.value, stationId).0 else s;
    if d.Some? {
      OneEvent(s, d.value, stationId);
    }
    if u.Some? {
      OneEvent(disabled, u.value, stationId);
    }
    var both := if u.Some? then SessionApplied(disabled, u.value, stationId).0 else disabled;
    CommitInStep(both, rows, events, e, stationId);
  }

  lemma ReplacedInParts(rows: Rows, hidden: set<string>, e: SyncEvent, stationId: int)
    requires e.Replace?
    ensures var (d, u) := Parts(e);
            var disabled := if d.Some? then ApplyAll(rows, Visible(hidden, d.value), stationId) else rows;
            ApplyAll(rows, Visible(hidden, e), stationId) ==
            if u.Some? then ApplyAll(disabled, Visible(hidden, u.value), stationId) else disabled
  {
    hide ApplyAll;
    var (d, u) := Parts(e);
    var disabled := if d.Some? then ApplyAll(rows, Visible(hidden, d.value), stationId) else rows;
    ApplyOne(rows, Visible(hidden, e)[0], stationId);
    if d.Some? {
      ApplyOne(rows, d.value, stationId);
    }
    if u.Some? {
      ApplyOne(disabled, u.value, stationId);
    }
  }

  lemma {:induction false} StaysInStep(rows: Rows, events: seq<SyncEvent>, stationId: int)
    requires NothingAddedTwice(rows, events)
    ensures BatchApplied(Opened(rows), events, stationId).1
    ensures InStep(BatchApplied(Opened(rows), events, stationId).0, rows, events, stationId)
  {
    hide InStep, SessionApplied, AddsAgain;
    if events == [] {
      StartsInStep(rows, stationId);
    } else {
      var n := |events| - 1;
      PrefixAddsOnce(rows, events, n);
      StaysInStep(rows, events[..n], stationId);
      var s, e := BatchApplied(Opened(rows), events[..n], stationId).0, events[n];
      assert events == events[..n] + [e];
      if e.Replace? {
        ReplaceInStep(s, rows, events[..n], e, stationId);
      } else if e.AccessRequested? {
        AccessInStep(s, rows, events[..n], e, stationId);
      } else {
        NextInStep(s, rows, events[..n], e, stationId);
      }
    }
  }

  lemma StartsInStep(rows: Rows, stationId: int)
    ensures InStep(Opened(rows), rows, [], stationId)
  {
  }

  lemma PrefixAddsOnce(rows: Rows, events: seq<SyncEvent>, n: nat)
    requires n <= |events| && NothingAddedTwice(rows, events)
    ensures NothingAddedTwice(rows, events[..n])
  {
    hide AddsAgain, Uncommitted;
    forall k | 0 <= k < n
      ensures !AddsAgain(Uncommitted(rows, events[..n][..k]), events[..n][k])
    {
      assert events[..n][..k] == events[..k];
    }
  }

  // ---- A batch that adds a card twice

  lemma AddsOnceMore(rows: Rows, events: seq<SyncEvent>)
    requires events != [] && NothingAddedTwice(rows, events[..|events| - 1])
    requires !AddsAgain(Uncommitted(rows, events[..|events| - 1]), events[|events| - 1])
    ensures NothingAddedTwice(rows, events)
  {
    hide AddsAgain, Uncommitted;
    var n := |events| - 1;
    forall k | 0 <= k <= n
      ensures !AddsAgain(Uncommitted(rows, events[..k]), events[k])
    {
      assert k < n ==> events[..n][..k] == events[..k] && events[..n][k] == events[k];
    }
  }

  /** The first event that adds a card again. */
  ghost function FirstAgain(rows: Rows, events: seq<SyncEvent>): (n: nat)
    requires !NothingAddedTwice(rows, events)
    ensures n < |events|
  {
    NothingYet(rows, events);
    var before := events[..|events| - 1];
    if NothingAddedTwice(rows, before) then |before| else FirstAgain(rows, before)
  }

  lemma {:induction false} FirstAgainIs(rows: Rows, events: seq<SyncEvent>)
    requires !NothingAddedTwice(rows, events)
    ensures var n := FirstAgain(rows, events);
            NothingAddedTwice(rows, events[..n]) && AddsAgain(Uncommitted(rows, events[..n]), events[n])
  {
    hide NothingAddedTwice, AddsAgain, Uncommitted;
    NothingYet(rows, events);
    var n := |events| - 1;
    if !NothingAddedTwice(rows, events[..n]) {
      FirstAgainIs(rows, events[..n]);
      var k := FirstAgain(rows, events[..n]);
      assert events[..n][..k] == events[..k];
    } else if !AddsAgain(Uncommitted(rows, events[..n]), events[n]) {
      AddsOnceMore(rows, events);
      assert false;
    }
  }

  lemma NothingYet(rows: Rows, events: seq<SyncEvent>)
    requires !NothingAddedTwice(rows, events)
    ensures events != []
  {
  }

  /** The next commit fails and leaves the stored rows. */
  ghost predicate Doomed(s: Session, stored: Rows) {
    s.committed == stored && !CanInsert(s.rows, s.added)
  }

  lemma AgainIsDoomed(s: Session, e: SyncEvent, stationId: int)
    requires !e.Replace? && AddsAgain(AddedKeys(s.added), e) && CanInsert(s.rows, s.added)
    ensures SessionApplied(s, e, stationId).1 && Doomed(SessionApplied(s, e, stationId).0, s.committed)
  {
    var t := SessionApplied(s, e, stationId).0;
    var k :| 0 <= k < |s.added| && s.added[k].0 == e.value;
    assert t.added[k].0 == t.added[|s.added|].0;
  }

  lemma DoomedStays(s: Session, e: SyncEvent, stationId: int)
    requires Doomed(s, s.committed) && !Commits(e)
    ensures SessionApplied(s, e, stationId).1 && Doomed(SessionApplied(s, e, stationId).0, s.committed)
  {
    hide Updated, Switched, NewRow;
    var t := SessionApplied(s, e, stationId).0;
    if k :| 0 <= k < |s.added| && s.added[k].0 in s.rows {
      assert t.added[k].0 in t.rows;
    } else {
      var j, k :| 0 <= j < k < |s.added| && s.added[j].0 == s.added[k].0;
      assert t.added[j].0 == t.added[k].0;
    }
  }

  lemma DoomedFails(s: Session, e: SyncEvent, stationId: int)
    requires Doomed(s, s.committed) && Commits(e)
    ensures SessionApplied(s, e, stationId) == (Opened(s.committed), false)
  {
    hide CanInsert;
    if e.Replace? {
      var (d, u) := Parts(e);
      var disabled := if d.Some? then SessionApplied(s, d.value, stationId).0 else s;
      if d.Some? {
        DoomedStays(s, d.value, stationId);
      }
      if u.Some? {
        DoomedStays(disabled, u.value, stationId);
      }
    }
  }

  lemma ReplaceAgainFails(s: Session, e: SyncEvent, stationId: int)
    requires e.Replace? && AddsAgain(AddedKeys(s.added), e) && CanInsert(s.rows, s.added)
    ensures SessionApplied(s, e, stationId) == (Opened(s.committed), false)
  {
    hide CanInsert, AddedKeys;
    var (d, u) := Parts(e);
    var disabled := if d.Some? then SessionApplied(s, d.value, stationId).0 else s;
    if d.Some? {
      OneEvent(s, d.value, stationId);
    }
    AgainIsDoomed(disabled, u.value, stationId);
  }

  lemma {:induction false} BatchIsDoomed(rows: Rows, events: seq<SyncEvent>, stationId: int)
    requires !NothingAddedTwice(rows, events)
    ensures var (s, ok) := BatchApplied(Opened(rows), events, stationId);
            var stored := Stored(rows, events[..FirstAgain(rows, events)], stationId);
            s.committed == stored && (ok ==> Doomed(s, stored))
  {
    hide NothingAddedTwice, Stored, Doomed, SessionApplied, Commits;
    var n := |events| - 1;
    var k := FirstAgain(rows, events);
    FirstAgainIs(rows, events);
    var (s, ok) := BatchApplied(Opened(rows), events[..n], stationId);
    if NothingAddedTwice(rows, events[..n]) {
      StaysInStep(rows, events[..n], stationId);
      InStepAgain(s, rows, events[..n], events[n], stationId);
    } else {
      BatchIsDoomed(rows, events[..n], stationId);
      assert events[..n][..k] == events[..k];
      if ok {
        DoomedNext(s, events[n], stationId);
      }
    }
  }

  lemma InStepAgain(s: Session, rows: Rows, events: seq<SyncEvent>, e: SyncEvent, stationId: int)
    requires InStep(s, rows, events, stationId) && AddsAgain(Uncommitted(rows, events), e)
    ensures var (t, ok) := SessionApplied(s, e, stationId);
            var stored := Stored(rows, events, stationId);
            t.committed == stored && (ok ==> Doomed(t, stored))
  {
    hide AddedKeys, CanInsert, Merged, Stored, SessionApplied, Uncommitted, Effective, ApplyAll, AddsAgain;
    if e.Replace? {
      ReplaceAgainFails(s, e, stationId);
    } else {
      AgainIsDoomed(s, e, stationId);
    }
  }

  lemma DoomedNext(s: Session, e: SyncEvent, stationId: int)
    requires Doomed(s, s.committed)
    ensures var (t, ok) := SessionApplied(s, e, stationId);
            t.committed == s.committed && (ok ==> Doomed(t, s.committed))
  {
    hide CanInsert, SessionApplied, Commits;
    if Commits(e) {
      DoomedFails(s, e, stationId);
    } else {
      DoomedStays(s, e, stationId);
    }
  }

  /** What any pull does. It succeeds exactly when no event adds a card that the batch has added since its last commit,
      and then it does what the events say without those that turn off a card not yet found. Otherwise the rows are
      left as of the last commit before the first such event. */
  lemma PullExactly(rows: Rows, events: seq<SyncEvent>, stationId: int)
    ensures NothingAddedTwice(rows, events) ==>
              PullOutcome(rows, events, stationId) == (ApplyAll(rows, Effective(rows, events), stationId), true)
    ensures !NothingAddedTwice(rows, events) ==>
              PullOutcome(rows, events, stationId) ==
                  (Stored(rows, events[..FirstAgain(rows, events)], stationId), false)
  {
    hide NothingAddedTwice, Stored, BatchApplied, Effective, ApplyAll, Merged, CanInsert, Uncommitted, AddedKeys;
    if NothingAddedTwice(rows, events) {
      StaysInStep(rows, events, stationId);
    } else {
      BatchIsDoomed(rows, events, stationId);
    }
  }

  // ---- When a batch does what its events say

  /** Event n is about a card that the events before it have added since the last commit. */
  ghost predicate IsHidden(rows: Rows, events: seq<SyncEvent>, n: nat)
    requires n < |events|
  {
    exists v :: v in Uncommitted(rows, events[..n]) && IsAbout(events[n], v)
  }

  /** No event is about a card that an earlier event adds with no commit in between. */
  ghost predicate Separable(rows: Rows, events: seq<SyncEvent>) {
    forall n | 0 <= n < |events| :: !IsHidden(rows, events, n)
  }

  ghost predicate AreLifecycle(events: seq<SyncEvent>) {
    forall e | e in events :: IsLifecycle(e)
  }

  /** The event turns the card off when it finds it. */
  predicate TurnsOff(e: SyncEvent, v: string) {
    (e.Disable? && e.value == v) || (e.Replace? && e.oldValue != "" && e.oldValue == v)
  }

  /** No card is turned off by two events. */
  ghost predicate TurnsOffOnce(events: seq<SyncEvent>) {
    forall i, j, v | 0 <= i < j < |events| && TurnsOff(events[i], v) :: !TurnsOff(events[j], v)
  }

  lemma SeparablePrefix(rows: Rows, events: seq<SyncEvent>, n: nat)
    requires n <= |events| && Separable(rows, events)
    ensures Separable(rows, events[..n])
  {
    hide Uncommitted, IsAbout;
    forall k | 0 <= k < n
      ensures !IsHidden(rows, events[..n], k)
    {
      assert events[..n][..k] == events[..k];
      assert !IsHidden(rows, events, k);
    }
  }

  /** When nothing is hidden, every event has its effect. */
  lemma {:induction false} SeparableIsEffective(rows: Rows, events: seq<SyncEvent>)
    requires Separable(rows, events)
    ensures NothingAddedTwice(rows, events) && Effective(rows, events) == events
  {
    hide Uncommitted, Separable, NothingAddedTwice, AddsAgain, Visible, IsHidden;
    if events == [] {
      NothingInNothing(rows);
    } else {
      var n := |events| - 1;
      SeparablePrefix(rows, events, n);
      SeparableIsEffective(rows, events[..n]);
      NotHidden(rows, events, n);
      AddsOnceMore(rows, events);
      assert events == events[..n] + [events[n]];
    }
  }

  lemma NothingInNothing(rows: Rows)
    ensures NothingAddedTwice(rows, [])
  {
  }

  lemma NotHidden(rows: Rows, events: seq<SyncEvent>, n: nat)
    requires n < |events| && Separable(rows, events)
    ensures Visible(Uncommitted(rows, events[..n]), events[n]) == [events[n]]
    ensures !AddsAgain(Uncommitted(rows, events[..n]), events[n])
  {
    hide Uncommitted;
    var hidden, e := Uncommitted(rows, events[..n]), events[n];
    assert !IsHidden(rows, events, n);
    assert e.Disable? ==> IsAbout(e, e.value);
    assert Introduced(e).Some? ==> IsAbout(e, Introduced(e).value);
    if e.Replace? && e.oldValue == "" {
      assert e.(oldValue := "") == e;
    }
  }

  /** A hidden event adds its card again, or turns off a card that it does not find. */
  lemma HiddenEvent(rows: Rows, events: seq<SyncEvent>, n: nat) returns (v: string)
    requires n < |events| && IsHidden(rows, events, n) && !AddsAgain(Uncommitted(rows, events[..n]), events[n])
    ensures v in Uncommitted(rows, events[..n]) && TurnsOff(events[n], v)
  {
    hide Uncommitted;
    v :| v in Uncommitted(rows, events[..n]) && IsAbout(events[n], v);
  }

  lemma {:induction false} UncommittedIsNew(rows: Rows, events: seq<SyncEvent>)
    ensures Uncommitted(rows, events) <= Values(events) && Uncommitted(rows, events) !! rows.Keys
  {
    hide Values, Introduced, Commits;
    if events != [] {
      var n := |events| - 1;
      UncommittedIsNew(rows, events[..n]);
      assert events == events[..n] + [events[n]];
      ValuesConcat(events[..n], [events[n]]);
      UpsertIntroduces(events[n]);
    }
  }

  lemma UpsertIntroduces(e: SyncEvent)
    ensures e.Upsert? ==> e.value in Values([e])
  {
    ValuesOfOne(e);
  }

  lemma EffectiveIsLifecycle(rows: Rows, events: seq<SyncEvent>)
    requires AreLifecycle(events)
    ensures AreLifecycle(Effective(rows, events))
  {
    hide Uncommitted;
    if events != [] {
      var n := |events| - 1;
      assert AreLifecycle(events[..n]);
      EffectiveIsLifecycle(rows, events[..n]);
      assert IsLifecycle(events[n]);
    }
  }

  ghost predicate IsOn(rows: Rows, v: string) {
    v in rows && rows[v].status == Active
  }

  /** One lifecycle event leaves a card on unless it turns it off, and adds cards that are on. */
  lemma OnAfter(rows: Rows, e: SyncEvent, stationId: int, v: string)
    requires IsLifecycle(e) && !TurnsOff(e, v) && (v in rows ==> IsOn(rows, v))
    ensures v in Applied(rows, e, stationId) ==> IsOn(Applied(rows, e, stationId), v)
  {
  }

  /** A card that the gateway did not know is on when no event turns it off. */
  lemma {:induction false} StaysOn(rows: Rows, events: seq<SyncEvent>, stationId: int, v: string)
    requires AreLifecycle(events) && v !in rows && forall e | e in events :: !TurnsOff(e, v)
    ensures v in ApplyAll(rows, events, stationId) ==> IsOn(ApplyAll(rows, events, stationId), v)
  {
    hide Applied, IsOn, TurnsOff, IsLifecycle;
    if events != [] {
      var n := |events| - 1;
      assert events == events[..n] + [events[n]];
      StaysOn(rows, events[..n], stationId, v);
      OnAfter(ApplyAll(rows, events[..n], stationId), events[n], stationId, v);
    }
  }

  /** A card that the batch has added since its last commit is on, whatever the events say. */
  lemma {:induction false} UncommittedIsOn(rows: Rows, events: seq<SyncEvent>, stationId: int, v: string)
    requires AreLifecycle(events) && v in Uncommitted(rows, events)
    ensures IsOn(ApplyAll(rows, Effective(rows, events), stationId), v)
  {
    hide Values, Applied, Visible, IsOn;
    var n := |events| - 1;
    var hidden, e := Uncommitted(rows, events[..n]), events[n];
    var before := ApplyAll(rows, Effective(rows, events[..n]), stationId);
    assert events == events[..n] + [e];
    ApplyAllConcat(rows, Effective(rows, events[..n]), Visible(hidden, e), stationId);
    if v in hidden {
      UncommittedIsOn(rows, events[..n], stationId, v);
      VisibleKeepsOn(before, hidden, e, stationId, v);
    } else {
      KeysAfter(rows, Effective(rows, events[..n]), stationId);
      ValuesOfEffective(rows, events[..n]);
      NewIsOn(before, e, stationId);
      ApplyOne(before, e, stationId);
      VisibleUpsert(hidden, e);
    }
  }

  lemma VisibleUpsert(hidden: set<string>, e: SyncEvent)
    requires e.Upsert?
    ensures Visible(hidden, e) == [e]
  {
  }

  lemma NewIsOn(rows: Rows, e: SyncEvent, stationId: int)
    requires e.Upsert? && IsLifecycle(e) && e.value !in rows
    ensures IsOn(Applied(rows, e, stationId), e.value)
  {
  }

  lemma VisibleKeepsOn(rows: Rows, hidden: set<string>, e: SyncEvent, stationId: int, v: string)
    requires IsLifecycle(e) && v in hidden && IsOn(rows, v)
    ensures IsOn(ApplyAll(rows, Visible(hidden, e), stationId), v)
  {
    hide Applied, ApplyAll;
    var visible := Visible(hidden, e);
    ApplyOne(rows, e, stationId);
    if visible != [] {
      ApplyOne(rows, visible[0], stationId);
      OnAfter(rows, visible[0], stationId, v);
      AppliedKeys(rows, visible[0], stationId);
    }
  }

  /** What the events say of a card that one of them turns off when it is known. */
  lemma SaidOff(rows: Rows, events: seq<SyncEvent>, n: nat, stationId: int, v: string)
    requires n < |events| && AreLifecycle(events) && TurnsOff(events[n], v) && v in Values(events[..n])
    ensures IsOff(ApplyAll(rows, events, stationId), v)
  {
    hide ApplyAll, Applied, TurnsOff, IsLifecycle, IsOff, Values;
    KeysAfter(rows, events[..n], stationId);
    OffNow(ApplyAll(rows, events[..n], stationId), events[n], stationId, v);
    ApplyOne(ApplyAll(rows, events[..n], stationId), events[n], stationId);
    ApplyAllConcat(rows, events[..n], [events[n]], stationId);
    ApplyAllConcat(rows, events[..n] + [events[n]], events[n + 1..], stationId);
    assert events[..n] + [events[n]] + events[n + 1..] == events;
    NoResurrection(ApplyAll(rows, events[..n] + [events[n]], stationId), events[n + 1..], stationId, v);
  }

  lemma OffNow(rows: Rows, e: SyncEvent, stationId: int, v: string)
    requires v in rows && IsLifecycle(e) && TurnsOff(e, v)
    ensures IsOff(Applied(rows, e, stationId), v)
  {
    if e.Replace? {
      var (d, u) := Parts(e);
      var disabled := Applied(rows, d.value, stationId);
      if u.Some? {
        StaysOff(disabled, u.value, stationId, v);
      }
    }
  }

  /** A batch that adds a card twice leaves it out. */
  lemma AgainIsLeftOut(rows: Rows, events: seq<SyncEvent>, stationId: int)
    requires !NothingAddedTwice(rows, events)
    ensures PullOutcome(rows, events, stationId).0 != ApplyAll(rows, events, stationId)
  {
    hide NothingAddedTwice, Uncommitted, PullOutcome, ApplyAll, Values, Stored, Introduced, BatchApplied, Effective;
    var n := FirstAgain(rows, events);
    FirstAgainIs(rows, events);
    PullExactly(rows, events, stationId);
    StaysInStep(rows, events[..n], stationId);
    var s := BatchApplied(Opened(rows), events[..n], stationId).0;
    var v := Introduced(events[n]).value;
    KnownCards(s, rows, events[..n], stationId);
    assert v !in s.committed;
    UncommittedIsNew(rows, events[..n]);
    assert events == events[..n] + events[n..];
    ValuesConcat(events[..n], events[n..]);
    KeysAfter(rows, events, stationId);
  }

  /** Every prefix of a batch of lifecycle events does exactly what its events say if, and only if, no event is about a
      card that an earlier event adds with no commit in between. */
  lemma BatchExactly(rows: Rows, events: seq<SyncEvent>, stationId: int)
    requires AreLifecycle(events)
    ensures Separable(rows, events) <==>
              forall n | 0 <= n <= |events| ::
                PullOutcome(rows, events[..n], stationId) == (ApplyAll(rows, events[..n], stationId), true)
  {
    hide Separable, PullOutcome, ApplyAll, IsHidden, IsLifecycle;
    if Separable(rows, events) {
      forall n | 0 <= n <= |events|
        ensures PullOutcome(rows, events[..n], stationId) == (ApplyAll(rows, events[..n], stationId), true)
      {
        SeparablePrefix(rows, events, n);
        SeparableIsRight(rows, events[..n], stationId);
      }
    } else {
      var n := SomeHidden(rows, events);
      HiddenIsWrong(rows, events, n, stationId);
    }
  }

  lemma SeparableIsRight(rows: Rows, events: seq<SyncEvent>, stationId: int)
    requires Separable(rows, events)
    ensures PullOutcome(rows, events, stationId) == (ApplyAll(rows, events, stationId), true)
  {
    hide Separable, PullOutcome, ApplyAll, NothingAddedTwice, Stored;
    SeparableIsEffective(rows, events);
    PullExactly(rows, events, stationId);
  }

  lemma SomeHidden(rows: Rows, events: seq<SyncEvent>) returns (n: nat)
    requires !Separable(rows, events)
    ensures n < |events| && IsHidden(rows, events, n)
  {
    n :| 0 <= n < |events| && IsHidden(rows, events, n);
  }

  /** The batch up to a hidden event goes wrong. */
  lemma HiddenIsWrong(rows: Rows, events: seq<SyncEvent>, n: nat, stationId: int)
    requires AreLifecycle(events) && n < |events| && IsHidden(rows, events, n)
    ensures PullOutcome(rows, events[..n + 1], stationId).0 != ApplyAll(rows, events[..n + 1], stationId)
  {
    hide IsHidden, Uncommitted, PullOutcome, ApplyAll, NothingAddedTwice, Stored, IsLifecycle, Values, TurnsOff,
      AddsAgain;
    var prefix := events[..n + 1];
    assert prefix[..n] == events[..n];
    if !NothingAddedTwice(rows, prefix) {
      AgainIsLeftOut(rows, prefix, stationId);
    } else {
      NotAgainAt(rows, prefix, n);
      var v := HiddenEvent(rows, events, n);
      UncommittedIsNew(rows, events[..n]);
      SaidOff(rows, prefix, n, stationId, v);
      UncommittedIsOn(rows, events[..n], stationId, v);
      PullExactly(rows, prefix, stationId);
      ApplyAllConcat(rows, Effective(rows, events[..n]), Visible(Uncommitted(rows, events[..n]), events[n]), stationId);
      VisibleKeepsOn(ApplyAll(rows, Effective(rows, events[..n]), stationId), Uncommitted(rows, events[..n]),
                     events[n], stationId, v);
      OnIsNotOff(ApplyAll(rows, Effective(rows, prefix), stationId), v);
    }
  }

  lemma NotAgainAt(rows: Rows, events: seq<SyncEvent>, n: nat)
    requires n < |events| && NothingAddedTwice(rows, events)
    ensures !AddsAgain(Uncommitted(rows, events[..n]), events[n])
  {
  }

  lemma OnIsNotOff(rows: Rows, v: string)
    ensures IsOn(rows, v) ==> !IsOff(rows, v)
  {
  }

  lemma {:induction false} EffectiveTurnsOff(rows: Rows, events: seq<SyncEvent>, v: string)
    requires forall n | 0 <= n < |events| && TurnsOff(events[n], v) :: v in Uncommitted(rows, events[..n])
    ensures forall e | e in Effective(rows, events) :: !TurnsOff(e, v)
  {
    hide Uncommitted;
    if events != [] {
      var n := |events| - 1;
      forall k | 0 <= k < n && TurnsOff(events[..n][k], v)
        ensures v in Uncommitted(rows, events[..n][..k])
      {
        assert events[..n][..k] == events[..k];
      }
      EffectiveTurnsOff(rows, events[..n], v);
    }
  }

  /** A whole batch that turns no card off twice does exactly what its events say if, and only if, no event is about a
      card that an earlier event adds with no commit in between. */
  lemma BatchOnceExactly(rows: Rows, events: seq<SyncEvent>, stationId: int)
    requires AreLifecycle(events) && TurnsOffOnce(events)
    ensures Separable(rows, events) <==> PullOutcome(rows, events, stationId).0 == ApplyAll(rows, events, stationId)
    ensures Separable(rows, events) ==> PullOutcome(rows, events, stationId).1
  {
    hide Separable, PullOutcome, ApplyAll, NothingAddedTwice, Stored, IsHidden, Uncommitted, IsLifecycle, TurnsOff,
      AddsAgain, Values, TurnsOffOnce;
    if Separable(rows, events) {
      SeparableIsRight(rows, events, stationId);
    } else if !NothingAddedTwice(rows, events) {
      AgainIsLeftOut(rows, events, stationId);
    } else {
      var n := SomeHidden(rows, events);
      NotAgainAt(rows, events, n);
      var v := HiddenEvent(rows, events, n);
      UncommittedIsNew(rows, events[..n]);
      SaidOff(rows, events, n, stationId, v);
      LeftOn(rows, events, n, stationId, v);
      PullExactly(rows, events, stationId);
      OnIsNotOff(ApplyAll(rows, Effective(rows, events), stationId), v);
    }
  }

  lemma LeftOn(rows: Rows, events: seq<SyncEvent>, n: nat, stationId: int, v: string)
    requires AreLifecycle(events) && TurnsOffOnce(events) && n < |events|
    requires TurnsOff(events[n], v) && v in Uncommitted(rows, events[..n])
    ensures IsOn(ApplyAll(rows, Effective(rows, events), stationId), v)
  {
    hide ApplyAll, Uncommitted, IsLifecycle, TurnsOff, Values, Effective, IsOn;
    UncommittedIsNew(rows, events[..n]);
    EffectiveTurnsOff(rows, events, v);
    EffectiveIsLifecycle(rows, events);
    StaysOn(rows, Effective(rows, events), stationId, v);
    assert events == events[..n] + events[n..];
    ValuesConcat(events[..n], events[n..]);
    ValuesOfEffective(rows, events);
    KeysAfter(rows, Effective(rows, events), stationId);
  }

  // ---- What a pull leaves as it is

  lemma {:induction false} OthersUntouched(rows: Rows, events: seq<SyncEvent>, stationId: int, v: string)
    requires forall e | e in events :: !IsAbout(e, v)
    ensures v in ApplyAll(rows, events, stationId) <==> v in rows
    ensures v in rows ==> ApplyAll(rows, events, stationId)[v] == rows[v]
  {
    hide Applied, IsAbout;
    if events != [] {
      var n := |events| - 1;
      OthersUntouched(rows, events[..n], stationId, v);
      OtherUntouched(ApplyAll(rows, events[..n], stationId), events[n], stationId, v);
    }
  }

  lemma OtherUntouched(rows: Rows, e: SyncEvent, stationId: int, v: string)
    requires !IsAbout(e, v)
    ensures var after := Applied(rows, e, stationId);
            (v in after <==> v in rows) && (v in rows ==> after[v] == rows[v])
  {
  }

  lemma {:induction false} EffectiveIsAbout(rows: Rows, events: seq<SyncEvent>, v: string)
    requires forall e | e in events :: !IsAbout(e, v)
    ensures forall e | e in Effective(rows, events) :: !IsAbout(e, v)
  {
    hide Uncommitted;
    if events != [] {
      var n := |events| - 1;
      EffectiveIsAbout(rows, events[..n], v);
      assert !IsAbout(events[n], v);
    }
  }

  /** Whatever becomes of a pull, a card that none of its events is about stays as it is. */
  lemma PullLeavesOthers(rows: Rows, events: seq<SyncEvent>, stationId: int, v: string)
    requires forall e | e in events :: !IsAbout(e, v)
    ensures var after := PullOutcome(rows, events, stationId).0;
            (v in after <==> v in rows) && (v in rows ==> after[v] == rows[v])
  {
    hide IsAbout, NothingAddedTwice, PullOutcome, ApplyAll, Effective, LastCommit;
    PullExactly(rows, events, stationId);
    var n := if NothingAddedTwice(rows, events) then |events| else LastCommit(events[..FirstAgain(rows, events)]);
    var done := if n == |events| then events else events[..FirstAgain(rows, events)][..n];
    assert forall e | e in done :: e in events;
    EffectiveIsAbout(rows, done, v);
    OthersUntouched(rows, Effective(rows, done), stationId, v);
  }

  /** No card is brought in by two events. */
  ghost predicate IntroducesOnce(events: seq<SyncEvent>) {
    forall i, j | 0 <= i < j < |events| && Introduced(events[i]).Some? :: Introduced(events[i]) != Introduced(events[j])
  }

  lemma IntroducedOnceIsAddedOnce(rows: Rows, events: seq<SyncEvent>)
    requires IntroducesOnce(events)
    ensures NothingAddedTwice(rows, events)
  {
    hide Introduced, Uncommitted;
    forall n | 0 <= n < |events|
      ensures !AddsAgain(Uncommitted(rows, events[..n]), events[n])
    {
      UncommittedIsNew(rows, events[..n]);
    }
  }

  /** A batch that is not separable, brings in no card twice and turns none off twice leaves a card on that it turns
      off. */
  lemma LeftOnByPull(rows: Rows, events: seq<SyncEvent>, stationId: int) returns (n: nat, v: string)
    requires AreLifecycle(events) && TurnsOffOnce(events) && IntroducesOnce(events) && !Separable(rows, events)
    ensures n < |events| && TurnsOff(events[n], v) && IsOn(PullOutcome(rows, events, stationId).0, v)
  {
    hide AreLifecycle, TurnsOffOnce, IntroducesOnce, Separable, NothingAddedTwice, IsHidden, Uncommitted, TurnsOff,
      AddsAgain, IsOn, PullOutcome, ApplyAll;
    IntroducedOnceIsAddedOnce(rows, events);
    PullExactly(rows, events, stationId);
    n := SomeHidden(rows, events);
    NotAgainAt(rows, events, n);
    v := HiddenEvent(rows, events, n);
    LeftOn(rows, events, n, stationId, v);
  }

  // ---- A batch that is repaired

  const ISSUED := Upsert("04AB", 1, Some(1), None, Some(Active))
  const REPORTED := Disable("04AB", Some(Lost), None)

  lemma IssuedAndReported()
    ensures var row := LocalCard(CardUid, 1, 1, Active, None);
            && ApplyAll(map[], [ISSUED], 1) == map["04AB" := row]
            && ApplyAll(map[], [ISSUED, REPORTED], 1) == map["04AB" := row.(status := Lost)]
            && ApplyAll(map[], [ISSUED, AccessRequested(2), REPORTED], 1) == map["04AB" := row.(status := Lost)]
            && ApplyAll(map[], [ISSUED, REPORTED, AccessRequested(2), REPORTED], 1) ==
                 map["04AB" := row.(status := Lost)]
  {
    hide ApplyAll;
    ApplyOne(map[], ISSUED, 1);
    ApplyAllSnoc(map[], [ISSUED], REPORTED, 1);
    ApplyAllSnoc(map[], [ISSUED], AccessRequested(2), 1);
    ApplyAllSnoc(map[], [ISSUED, AccessRequested(2)], REPORTED, 1);
    ApplyAllSnoc(map[], [ISSUED, REPORTED], AccessRequested(2), 1);
    ApplyAllSnoc(map[], [ISSUED, REPORTED, AccessRequested(2)], REPORTED, 1);
    assert [ISSUED] + [REPORTED] == [ISSUED, REPORTED];
    assert [ISSUED] + [AccessRequested(2)] == [ISSUED, AccessRequested(2)];
    assert [ISSUED, AccessRequested(2)] + [REPORTED] == [ISSUED, AccessRequested(2), REPORTED];
    assert [ISSUED, REPORTED] + [AccessRequested(2)] == [ISSUED, REPORTED, AccessRequested(2)];
    assert [ISSUED, REPORTED, AccessRequested(2)] + [REPORTED] == [ISSUED, REPORTED, AccessRequested(2), REPORTED];
  }

  lemma ReportedUnseen()
    ensures var events := [ISSUED, REPORTED, AccessRequested(2), REPORTED];
            && Uncommitted(map[], []) == {} && Uncommitted(map[], events[..1]) == {"04AB"}
            && Effective(map[], events) == [ISSUED, AccessRequested(2), REPORTED]
  {
    hide Stored, Values, Effective, Uncommitted;
    var rows: Rows := map[];
    var events := [ISSUED, REPORTED, AccessRequested(2), REPORTED];
    NoValues();
    NothingBefore(rows);
    var e1, e2, e3 := [ISSUED], [ISSUED, REPORTED], [ISSUED, REPORTED, AccessRequested(2)];
    assert e1 == [] + [ISSUED] && e2 == e1 + [REPORTED] && e3 == e2 + [AccessRequested(2)] && events == e3 + [REPORTED];
    SnocEvents(rows, [], ISSUED, 1);
    SnocEvents(rows, e1, REPORTED, 1);
    SnocEvents(rows, e2, AccessRequested(2), 1);
    SnocEvents(rows, e3, REPORTED, 1);
    assert events[..1] == e1;
    assert Effective(rows, e1) == [ISSUED] && Effective(rows, e2) == [ISSUED] + [];
    assert Effective(rows, e3) == [ISSUED, AccessRequested(2)];
  }

  lemma NothingBefore(rows: Rows)
    ensures Effective(rows, []) == [] && Uncommitted(rows, []) == {}
  {
  }

  /** A batch that turns a card off twice can come out right all the same: what the first event does not find, the last
      one does. */
  lemma RepairedLater()
    ensures var events := [ISSUED, REPORTED, AccessRequested(2), REPORTED];
            !Separable(map[], events) && PullOutcome(map[], events, 1) == (ApplyAll(map[], events, 1), true)
  {
    hide Stored, PullOutcome, ApplyAll, Effective, Uncommitted;
    var rows: Rows := map[];
    var events := [ISSUED, REPORTED, AccessRequested(2), REPORTED];
    ReportedUnseen();
    IssuedAndReported();
    assert events[..0] == [];
    assert IsAbout(events[1], "04AB");
    assert IsHidden(rows, events, 1);
    PullExactly(rows, events, 1);
  }
}
