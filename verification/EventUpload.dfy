/**
 Uploading gateway events to the server: rows are retried until they are acknowledged, and the server skips the
 event ids it knows. Requests and answers may be lost, and a request may arrive again later.
 */
module EventUpload {
  import opened Options

  /** An uploaded item; not every queued payload carries an event id of its own. */
  datatype Payload = Payload(eventId: Option<string>, eventType: string, body: string)

  // ---- The server

  /** The event ids on record, and the events whose business effect has been applied, oldest first. */
  datatype ServerState = ServerState(recorded: set<string>, effects: seq<Payload>)

  /** One item; applying it may fail for business reasons, and it must carry an event id. */
  function PushItem(s: ServerState, p: Payload, accepts: bool): (ServerState, bool) {
    if p.eventId == None then (s, false)
    else if p.eventId.value in s.recorded then (s, true)
    else if accepts then (ServerState(s.recorded + {p.eventId.value}, s.effects + [p]), true)
    else (s, false)
  }

  /** The items of one request, up to the first that fails. */
  function PushPrefix(s: ServerState, items: seq<Payload>, accepts: seq<bool>): (ServerState, bool)
    requires |accepts| == |items|
  {
    if items == [] then (s, true)
    else
      var n := |items| - 1;
      var (before, ok) := PushPrefix(s, items[..n], accepts[..n]);
      if ok then PushItem(before, items[n], accepts[n]) else (before, false)
  }

  /** One request is one transaction. */
  function PushRequest(s: ServerState, items: seq<Payload>, accepts: seq<bool>): (ServerState, bool)
    requires |accepts| == |items|
  {
    var (after, ok) := PushPrefix(s, items, accepts);
    (if ok then after else s, ok)
  }

  /** An item without an id is refused, a known one is skipped, and a new one is recorded and applied if the business
      handler takes it. */
  lemma PushItemExactly(s: ServerState, p: Payload, accepts: bool)
    ensures var (after, ok) := PushItem(s, p, accepts);
            && ok == (p.eventId.Some? && (p.eventId.value in s.recorded || accepts))
            && after == if ok && p.eventId.value !in s.recorded
                        then ServerState(s.recorded + {p.eventId.value}, s.effects + [p]) else s
  {
  }

  /** An earlier item of the request has the same id. */
  ghost predicate HasTwin(items: seq<Payload>, k: nat)
    requires k < |items|
  {
    exists j :: 0 <= j < k && items[j].eventId == items[k].eventId
  }

  /** Item k can be taken: it has an id, and is known, taken by the handler, or a repetition within the request. */
  ghost predicate CanTake(s: ServerState, items: seq<Payload>, accepts: seq<bool>, k: nat)
    requires k < |items| == |accepts|
  {
    items[k].eventId.Some? && (items[k].eventId.value in s.recorded || accepts[k] || HasTwin(items, k))
  }

  ghost function Ids(items: seq<Payload>): set<string> {
    set p | p in items && p.eventId.Some? :: p.eventId.value
  }

  lemma {:induction false} PrefixExactly(s: ServerState, items: seq<Payload>, accepts: seq<bool>)
    requires |accepts| == |items|
    ensures PushPrefix(s, items, accepts).1 <==> forall k | 0 <= k < |items| :: CanTake(s, items, accepts, k)
    ensures PushPrefix(s, items, accepts).1 ==> PushPrefix(s, items, accepts).0.recorded == s.recorded + Ids(items)
  {
    hide PushItem, CanTake, Ids;
    if items == [] {
      NoIds();
    } else {
      var n := |items| - 1;
      PrefixExactly(s, items[..n], accepts[..n]);
      var before := PushPrefix(s, items[..n], accepts[..n]).0;
      PushItemExactly(before, items[n], accepts[n]);
      IdsSnoc(items[..n], items[n]);
      assert items == items[..n] + [items[n]];
      forall k | 0 <= k < n
        ensures CanTake(s, items, accepts, k) <==> CanTake(s, items[..n], accepts[..n], k)
      {
        CanTakePrefix(s, items, accepts, n, k);
      }
      if before.recorded == s.recorded + Ids(items[..n]) {
        CanTakeLast(s, items, accepts);
      }
    }
  }

  lemma NoIds()
    ensures Ids([]) == {}
  {
  }

  lemma CanTakePrefix(s: ServerState, items: seq<Payload>, accepts: seq<bool>, n: nat, k: nat)
    requires |accepts| == |items| && k < n <= |items|
    ensures CanTake(s, items, accepts, k) <==> CanTake(s, items[..n], accepts[..n], k)
  {
    assert HasTwin(items, k) <==> HasTwin(items[..n], k) by {
      assert forall j | 0 <= j < n :: items[..n][j] == items[j];
    }
  }

  lemma CanTakeLast(s: ServerState, items: seq<Payload>, accepts: seq<bool>)
    requires |accepts| == |items| > 0
    ensures var n := |items| - 1;
            var p := items[n];
            CanTake(s, items, accepts, n) <==>
              p.eventId.Some? && (p.eventId.value in s.recorded + Ids(items[..n]) || accepts[n])
  {
    hide Ids;
    var n := |items| - 1;
    if items[n].eventId.Some? {
      IdOfSome(items[..n], items[n]);
      assert forall j | 0 <= j < n :: items[..n][j] == items[j];
    }
  }

  lemma IdsSnoc(items: seq<Payload>, p: Payload)
    ensures Ids(items + [p]) == Ids(items) + (if p.eventId.Some? then {p.eventId.value} else {})
  {
    assert p in items + [p];
  }

  lemma IdOfSome(items: seq<Payload>, p: Payload)
    requires p.eventId.Some?
    ensures p.eventId.value in Ids(items) <==> exists j :: 0 <= j < |items| && items[j].eventId == p.eventId
  {
    if p.eventId.value in Ids(items) {
      var q :| q in items && q.eventId.Some? && q.eventId.value == p.eventId.value;
      var j :| 0 <= j < |items| && items[j] == q;
      assert items[j].eventId == p.eventId;
    }
    if j :| 0 <= j < |items| && items[j].eventId == p.eventId {
      assert items[j] in items;
    }
  }

  /** A request is taken exactly when each of its items can be, and then all their ids are on record; otherwise nothing
      changes. */
  lemma RequestExactly(s: ServerState, items: seq<Payload>, accepts: seq<bool>)
    requires |accepts| == |items|
    ensures var (after, ok) := PushRequest(s, items, accepts);
            && (ok <==> forall k | 0 <= k < |items| :: CanTake(s, items, accepts, k))
            && (if ok then after.recorded == s.recorded + Ids(items) else after == s)
  {
    PrefixExactly(s, items, accepts);
  }

  ghost predicate AppliedOnce(s: ServerState, id: string) {
    exists k :: 0 <= k < |s.effects| && s.effects[k].eventId == Some(id)
  }

  /** No event has taken effect twice, and what has taken effect is on record. */
  ghost predicate AtMostOnce(s: ServerState) {
    && (forall j, k | 0 <= j < k < |s.effects| :: s.effects[j].eventId != s.effects[k].eventId)
    && (forall k | 0 <= k < |s.effects| :: s.effects[k].eventId.Some? && s.effects[k].eventId.value in s.recorded)
  }

  /** Records and effects are never taken back, and a new record is a new effect. */
  ghost predicate Extends(a: ServerState, b: ServerState) {
    && a.recorded <= b.recorded && a.effects <= b.effects
    && forall id | id in b.recorded && id !in a.recorded :: AppliedOnce(b, id)
  }

  lemma PushItemKeeps(s: ServerState, p: Payload, accepts: bool)
    requires AtMostOnce(s)
    ensures var (after, ok) := PushItem(s, p, accepts);
            && AtMostOnce(after) && Extends(s, after)
            && (ok ==> p.eventId.Some? && p.eventId.value in after.recorded)
            && (forall id | id in after.recorded && id !in s.recorded :: p.eventId == Some(id))
  {
    var (after, ok) := PushItem(s, p, accepts);
    if after != s {
      assert after.effects[|s.effects|].eventId == p.eventId;
    }
  }

  lemma ExtendsTransitive(a: ServerState, b: ServerState, c: ServerState)
    requires Extends(a, b) && Extends(b, c)
    ensures Extends(a, c)
  {
    forall id | id in c.recorded && id !in a.recorded
      ensures AppliedOnce(c, id)
    {
      if id in b.recorded {
        var k :| 0 <= k < |b.effects| && b.effects[k].eventId == Some(id);
        assert c.effects[k] == b.effects[k];
      }
    }
  }

  /** Whatever one request holds, the server keeps every effect at most once. */
  lemma {:induction false} RequestKeeps(s: ServerState, items: seq<Payload>, accepts: seq<bool>)
    requires |accepts| == |items| && AtMostOnce(s)
    ensures AtMostOnce(PushPrefix(s, items, accepts).0) && Extends(s, PushPrefix(s, items, accepts).0)
    ensures AtMostOnce(PushRequest(s, items, accepts).0) && Extends(s, PushRequest(s, items, accepts).0)
  {
    hide AtMostOnce, PushItem, Extends;
    ExtendsReflexive(s);
    if items != [] {
      var n := |items| - 1;
      RequestKeeps(s, items[..n], accepts[..n]);
      var before := PushPrefix(s, items[..n], accepts[..n]).0;
      PushItemKeeps(before, items[n], accepts[n]);
      ExtendsTransitive(s, before, PushItem(before, items[n], accepts[n]).0);
    }
  }

  lemma ExtendsReflexive(s: ServerState)
    ensures Extends(s, s)
  {
  }

  class Server {
    var recorded: set<string>
    var effects: seq<Payload>

    ghost function State(): ServerState
      reads this
    {
      ServerState(recorded, effects)
    }

    /** gateway_push_sync; accepts tells for which items the business handler succeeds. */
    method GatewayPushSync(items: seq<Payload>, accepts: seq<bool>) returns (ok: bool, accepted: nat, duplicate: nat)
      requires |accepts| == |items|
      modifies this
      ensures (State(), ok) == PushRequest(old(State()), items, accepts)
      ensures ok ==> accepted + duplicate == |items| && |effects| == |old(effects)| + accepted
    {
      accepted, duplicate := 0, 0;
      var begin := (recorded, effects);
      for i := 0 to |items|
        invariant (State(), true) == PushPrefix(old(State()), items[..i], accepts[..i])
        invariant accepted + duplicate == i && |effects| == |old(effects)| + accepted
      {
        assert items[..i + 1][..i] == items[..i] && accepts[..i + 1][..i] == accepts[..i];
        var p := items[i];
        var failed := p.eventId == None;
        if !failed && p.eventId.value in recorded {
          duplicate := duplicate + 1;
          continue;
        }
        if failed || !accepts[i] {
          RequestFails(old(State()), items, accepts, i + 1);
          recorded, effects := begin.0, begin.1;
          return false, accepted, duplicate;
        }
        recorded := recorded + {p.eventId.value};
        effects := effects + [p];
        accepted := accepted + 1;
      }
      assert items[..|items|] == items && accepts[..|items|] == accepts;
      ok := true;
    }
  }

  /** A request that has failed has failed. */
  lemma {:induction false} RequestFails(s: ServerState, items: seq<Payload>, accepts: seq<bool>, n: nat)
    requires |accepts| == |items| && n <= |items| && !PushPrefix(s, items[..n], accepts[..n]).1
    ensures !PushPrefix(s, items, accepts).1
    decreases |items|
  {
    if n == |items| {
      assert items[..n] == items && accepts[..n] == accepts;
    } else {
      var m := |items| - 1;
      assert items[..m][..n] == items[..n] && accepts[..m][..n] == accepts[..n];
      RequestFails(s, items[..m], accepts[..m], n);
    }
  }

  // ---- The gateway

  datatype RowStatus = Pending | Sent | Acked | Failed

  /** A row of sync_queue with direction UPLOAD. */
  datatype Row = Row(eventId: string, payload: Payload, status: RowStatus, retryCount: nat)

  /** What the network and the business handler do to one upload. */
  datatype Fate = RequestLost | ResponseLost(accepts: bool) | Delivered(accepts: bool)

  predicate IsSelected(r: Row) {
    r.status == Pending || r.status == Failed
  }

  /** One call of the client: the server's state, and whether the client sees success. */
  function Send(s: ServerState, p: Payload, fate: Fate): (ServerState, bool) {
    match fate
    case RequestLost => (s, false)
    case ResponseLost(accepts) => (PushRequest(s, [p], [accepts]).0, false)
    case Delivered(accepts) => PushRequest(s, [p], [accepts])
  }

  function Tried(r: Row, ok: bool): Row {
    if ok then r.(status := Acked) else r.(status := Failed, retryCount := r.retryCount + 1)
  }

  /** The uploads of the first n rows; rows that are not selected are not sent. */
  function Uploaded(s: ServerState, rows: seq<Row>, fates: seq<Fate>, n: nat): (ServerState, seq<Row>)
    requires |fates| == |rows| && n <= |rows|
  {
    if n == 0 then (s, [])
    else
      var (before, done) := Uploaded(s, rows, fates, n - 1);
      var r := rows[n - 1];
      if IsSelected(r) then
        var (after, ok) := Send(before, r.payload, fates[n - 1]);
        (after, done + [Tried(r, ok)])
      else (before, done + [r])
  }

  /** uuid.uuid4().hex when the payload has no id of its own. */
  function RowFor(p: Payload, freshId: string): Row {
    Row(match p.eventId case Some(id) => id case None => freshId, p, Pending, 0)
  }

  /** Whether the gateway sees that the server has taken the upload of row i. */
  ghost predicate IsAnswered(s: ServerState, rows: seq<Row>, fates: seq<Fate>, i: nat)
    requires |fates| == |rows| && i < |rows|
  {
    var id, before := rows[i].payload.eventId, Uploaded(s, rows, fates, i).0;
    fates[i].Delivered? && id.Some? && (id.value in before.recorded || fates[i].accepts)
  }

  /** A push sends the rows that are PENDING or FAILED. One whose upload is answered becomes ACKED; any other becomes
      FAILED and has one more retry. All other rows stay as they are. */
  lemma {:induction false} PushExactly(s: ServerState, rows: seq<Row>, fates: seq<Fate>, n: nat, i: nat)
    requires |fates| == |rows| && i < n <= |rows|
    ensures |Uploaded(s, rows, fates, n).1| == n
    ensures Uploaded(s, rows, fates, n).1[i] ==
            if rows[i].status != Pending && rows[i].status != Failed then rows[i]
            else if IsAnswered(s, rows, fates, i) then rows[i].(status := Acked)
            else rows[i].(status := Failed, retryCount := rows[i].retryCount + 1)
    decreases n
  {
    hide Send;
    UploadedLength(s, rows, fates, n - 1);
    if i < n - 1 {
      PushExactly(s, rows, fates, n - 1, i);
    } else {
      SendExactly(Uploaded(s, rows, fates, i).0, rows[i].payload, fates[i]);
    }
  }

  lemma {:induction false} UploadedLength(s: ServerState, rows: seq<Row>, fates: seq<Fate>, n: nat)
    requires |fates| == |rows| && n <= |rows|
    ensures |Uploaded(s, rows, fates, n).1| == n
  {
    hide Send, Tried;
    if n > 0 {
      UploadedLength(s, rows, fates, n - 1);
    }
  }

  lemma SendExactly(s: ServerState, p: Payload, fate: Fate)
    ensures Send(s, p, fate).1 <==>
              fate.Delivered? && p.eventId.Some? && (p.eventId.value in s.recorded || fate.accepts)
    ensures (fate == Delivered(true) || fate == ResponseLost(true)) && p.eventId.Some? ==>
              p.eventId.value in Send(s, p, fate).0.recorded
  {
    hide PushItem;
    if fate != RequestLost {
      OneItem(s, p, fate.accepts);
      PushItemExactly(s, p, fate.accepts);
    }
  }

  /** How many rows a push has turned into ACKED. */
  ghost function NewlyAcked(before: seq<Row>, after: seq<Row>): nat
    requires |before| == |after|
  {
    if before == [] then 0
    else
      var n := |before| - 1;
      NewlyAcked(before[..n], after[..n]) + (if before[n].status != Acked && after[n].status == Acked then 1 else 0)
  }

  lemma NothingAcked()
    ensures NewlyAcked([], []) == 0
  {
  }

  lemma NewlyAckedSnoc(rows: seq<Row>, i: nat, done: seq<Row>, row: Row)
    requires i < |rows| && |done| == i
    ensures NewlyAcked(rows[..i + 1], done + [row]) ==
            NewlyAcked(rows[..i], done) + (if rows[i].status != Acked && row.status == Acked then 1 else 0)
  {
    assert rows[..i + 1][..i] == rows[..i] && (done + [row])[..i] == done;
  }

  class Uploader {
    var rows: seq<Row>

    /** enqueue_event_upload. */
    method EnqueueEventUpload(p: Payload, freshId: string)
      modifies this
      ensures rows == old(rows) + [RowFor(p, freshId)]
      ensures var row := rows[|old(rows)|];
              && row.payload == p && row.status == Pending && row.retryCount == 0
              && (match p.eventId case Some(id) => row.eventId == id case None => row.eventId == freshId)
    {
      var eventId := if p.eventId.Some? then p.eventId.value else freshId;
      rows := rows + [Row(eventId, p, Pending, 0)];
    }

    /** sync_push_once, with the fate of each upload. The commit at the end may be lost in a crash. */
    method SyncPushOnce(server: Server, fates: seq<Fate>, crash: bool) returns (sent: nat)
      requires |fates| == |rows|
      modifies this, server
      ensures server.State() == Uploaded(old(server.State()), old(rows), fates, |old(rows)|).0
      ensures rows == if crash then old(rows) else Uploaded(old(server.State()), old(rows), fates, |old(rows)|).1
      ensures !crash ==> |rows| == |old(rows)| && sent == NewlyAcked(old(rows), rows)
    {
      hide NewlyAcked;
      sent := 0;
      var updated := [];
      NothingAcked();
      for i := 0 to |rows|
        invariant rows == old(rows)
        invariant (server.State(), updated) == Uploaded(old(server.State()), old(rows), fates, i)
        invariant |updated| == i && sent == NewlyAcked(rows[..i], updated)
      {
        ghost var done := updated;
        var row := rows[i];
        if row.status != Pending && row.status != Failed {
          updated := updated + [row];
          NewlyAckedSnoc(rows, i, done, row);
          continue;
        }
        var ok := false;
        if fates[i] != RequestLost {
          var a, d;
          ok, a, d := server.GatewayPushSync([row.payload], [fates[i].accepts]);
          ok := ok && fates[i].Delivered?;
        }
        if ok {
          row := row.(status := Acked);
          sent := sent + 1;
        } else {
          row := row.(status := Failed, retryCount := row.retryCount + 1);
        }
        updated := updated + [row];
        NewlyAckedSnoc(rows, i, done, row);
      }
      assert rows[..|rows|] == rows;
      if !crash {
        rows := updated;
      }
    }
  }

  // ---- Runs

  datatype System = System(server: ServerState, rows: seq<Row>)

  /** What can happen: an event is queued, the queue is pushed, or a request arrives at the server from elsewhere,
      with any number of items: copies of earlier uploads, and uploads of other gateways. */
  datatype Action =
    | Enqueue(payload: Payload, freshId: string)
    | Push(fates: seq<Fate>, crash: bool)
    | Arrive(items: seq<Payload>, accepts: seq<bool>)

  ghost predicate HasRow(rows: seq<Row>, id: string) {
    exists i :: 0 <= i < |rows| && rows[i].eventId == id
  }

  ghost predicate IsUpload(rows: seq<Row>, p: Payload) {
    exists i :: 0 <= i < |rows| && rows[i].payload == p
  }

  /** Event ids are fresh when they are made, so other gateways never use those of this one. */
  ghost predicate Enabled(sys: System, a: Action) {
    match a
    case Enqueue(p, freshId) =>
      var id := RowFor(p, freshId).eventId;
      !HasRow(sys.rows, id) && id !in sys.server.recorded
    case Push(fates, _) => |fates| == |sys.rows|
    case Arrive(items, accepts) =>
      && |accepts| == |items|
      && forall p | p in items :: IsUpload(sys.rows, p) || (p.eventId.Some? ==> !HasRow(sys.rows, p.eventId.value))
  }

  function Step(sys: System, a: Action): System {
    match a
    case Enqueue(p, freshId) => sys.(rows := sys.rows + [RowFor(p, freshId)])
    case Push(fates, crash) =>
      if |fates| != |sys.rows| then sys
      else
        var (server, rows) := Uploaded(sys.server, sys.rows, fates, |sys.rows|);
        System(server, if crash then sys.rows else rows)
    case Arrive(items, accepts) =>
      if |accepts| != |items| then sys else sys.(server := PushRequest(sys.server, items, accepts).0)
  }

  function After(sys: System, actions: seq<Action>, n: nat): System
    requires n <= |actions|
  {
    if n == 0 then sys else Step(After(sys, actions, n - 1), actions[n - 1])
  }

  /** What has taken effect under the event id of the row is its payload. */
  ghost predicate Faithful(s: ServerState, r: Row) {
    forall k | 0 <= k < |s.effects| && s.effects[k].eventId == Some(r.eventId) :: s.effects[k] == r.payload
  }

  /** An item with the event id of the row is the payload of the row. */
  ghost predicate IsOwn(r: Row, p: Payload) {
    p.eventId == Some(r.eventId) ==> p == r.payload
  }

  lemma ItemFaithful(s: ServerState, p: Payload, accepts: bool, r: Row)
    requires Faithful(s, r) && IsOwn(r, p)
    ensures Faithful(PushItem(s, p, accepts).0, r)
  {
  }

  lemma {:induction false} RequestFaithful(s: ServerState, items: seq<Payload>, accepts: seq<bool>, r: Row)
    requires |accepts| == |items| && Faithful(s, r) && forall p | p in items :: IsOwn(r, p)
    ensures Faithful(PushPrefix(s, items, accepts).0, r) && Faithful(PushRequest(s, items, accepts).0, r)
  {
    hide Faithful, IsOwn, PushItem;
    if items != [] {
      var n := |items| - 1;
      RequestFaithful(s, items[..n], accepts[..n], r);
      ItemFaithful(PushPrefix(s, items[..n], accepts[..n]).0, items[n], accepts[n], r);
    }
  }

  lemma SendFaithful(s: ServerState, p: Payload, fate: Fate, r: Row)
    requires Faithful(s, r) && IsOwn(r, p)
    ensures Faithful(Send(s, p, fate).0, r)
  {
    hide Faithful, IsOwn, PushRequest;
    if fate != RequestLost {
      RequestFaithful(s, [p], [fate.accepts], r);
    }
  }

  lemma {:induction false} UploadFaithful(s: ServerState, rows: seq<Row>, fates: seq<Fate>, n: nat, r: Row)
    requires |fates| == |rows| && n <= |rows| && Faithful(s, r)
    requires forall i | 0 <= i < |rows| :: IsOwn(r, rows[i].payload)
    ensures Faithful(Uploaded(s, rows, fates, n).0, r)
  {
    hide Faithful, IsOwn, Send;
    if n > 0 {
      UploadFaithful(s, rows, fates, n - 1, r);
      SendFaithful(Uploaded(s, rows, fates, n - 1).0, rows[n - 1].payload, fates[n - 1], r);
    }
  }

  /** Every event id of this gateway that is on record has taken effect, and so has every acknowledged row. */
  ghost predicate Invariant(sys: System) {
    && AtMostOnce(sys.server)
    && (forall i, j | 0 <= i < j < |sys.rows| :: sys.rows[i].eventId != sys.rows[j].eventId)
    && (forall i | 0 <= i < |sys.rows| :: RowIsSound(sys.server, sys.rows[i]) && Faithful(sys.server, sys.rows[i]))
  }

  /** A payload without an id never gets acknowledged; one with an id has it in common with its row. */
  ghost predicate RowIsSound(s: ServerState, r: Row) {
    && r.status != Sent
    && (r.payload.eventId.Some? ==> r.payload.eventId == Some(r.eventId))
    && (r.eventId in s.recorded ==> AppliedOnce(s, r.eventId))
    && (r.status == Acked ==> r.payload.eventId.Some? && r.eventId in s.recorded)
  }

  lemma SoundLater(s: ServerState, after: ServerState, r: Row)
    requires RowIsSound(s, r) && Extends(s, after)
    ensures RowIsSound(after, r)
  {
    if r.eventId in s.recorded {
      var k :| 0 <= k < |s.effects| && s.effects[k].eventId == Some(r.eventId);
      assert after.effects[k] == s.effects[k];
    }
  }

  lemma SendKeeps(s: ServerState, r: Row, fate: Fate)
    requires AtMostOnce(s) && RowIsSound(s, r)
    ensures var (after, ok) := Send(s, r.payload, fate);
            AtMostOnce(after) && Extends(s, after) && RowIsSound(after, Tried(r, ok))
  {
    hide AtMostOnce, Extends, AppliedOnce;
    ExtendsReflexive(s);
    if fate != RequestLost {
      OneItem(s, r.payload, fate.accepts);
      PushItemKeeps(s, r.payload, fate.accepts);
    }
    SoundLater(s, Send(s, r.payload, fate).0, r);
  }

  lemma OneItem(s: ServerState, p: Payload, accepts: bool)
    ensures PushRequest(s, [p], [accepts]) == PushItem(s, p, accepts)
  {
    assert [p][..0] == [] && [accepts][..0] == [];
    assert PushPrefix(s, [], []) == (s, true);
  }

  lemma {:induction false} UploadKeeps(s: ServerState, rows: seq<Row>, fates: seq<Fate>, n: nat)
    requires |fates| == |rows| && n <= |rows| && AtMostOnce(s)
    requires forall i | 0 <= i < |rows| :: RowIsSound(s, rows[i])
    ensures var (after, done) := Uploaded(s, rows, fates, n);
            && AtMostOnce(after) && Extends(s, after) && |done| == n
            && forall i | 0 <= i < n ::
                 RowIsSound(after, done[i]) && done[i].eventId == rows[i].eventId
                 && done[i].payload == rows[i].payload && (rows[i].status == Acked ==> done[i] == rows[i])
  {
    hide AtMostOnce, Extends, RowIsSound, Send;
    ExtendsReflexive(s);
    if n > 0 {
      UploadKeeps(s, rows, fates, n - 1);
      var (before, done) := Uploaded(s, rows, fates, n - 1);
      var r := rows[n - 1];
      SoundLater(s, before, r);
      if IsSelected(r) {
        SendKeeps(before, r, fates[n - 1]);
        var after := Send(before, r.payload, fates[n - 1]).0;
        ExtendsTransitive(s, before, after);
        forall i | 0 <= i < n - 1
          ensures RowIsSound(after, done[i])
        {
          SoundLater(before, after, done[i]);
        }
      }
    }
  }

  /** The ids of different rows differ, so that no row carries a payload with the id of another. */
  lemma RowsAreOwn(rows: seq<Row>, i: nat)
    requires i < |rows| && forall j, k | 0 <= j < k < |rows| :: rows[j].eventId != rows[k].eventId
    requires forall j | 0 <= j < |rows| ::
               rows[j].payload.eventId.Some? ==> rows[j].payload.eventId == Some(rows[j].eventId)
    ensures forall j | 0 <= j < |rows| :: IsOwn(rows[i], rows[j].payload)
    ensures forall p | IsUpload(rows, p) :: IsOwn(rows[i], p)
  {
  }

  lemma IdsOfPayloads(sys: System)
    requires Invariant(sys)
    ensures forall j | 0 <= j < |sys.rows| ::
              sys.rows[j].payload.eventId.Some? ==> sys.rows[j].payload.eventId == Some(sys.rows[j].eventId)
  {
  }

  lemma OthersAreOwn(rows: seq<Row>, p: Payload, i: nat)
    requires i < |rows| && (p.eventId.Some? ==> !HasRow(rows, p.eventId.value))
    ensures IsOwn(rows[i], p)
  {
  }

  lemma EnqueueKeeps(sys: System, p: Payload, freshId: string)
    requires Invariant(sys) && Enabled(sys, Enqueue(p, freshId))
    ensures Invariant(Step(sys, Enqueue(p, freshId)))
  {
    hide AtMostOnce, RowIsSound, Faithful;
    NewRowIsSound(sys.server, p, freshId);
    NewRowIsFaithful(sys.server, RowFor(p, freshId));
    NewIdDiffers(sys.rows, RowFor(p, freshId).eventId);
  }

  lemma NewRowIsFaithful(s: ServerState, r: Row)
    requires AtMostOnce(s) && r.eventId !in s.recorded
    ensures Faithful(s, r)
  {
  }

  lemma PushKeeps(sys: System, fates: seq<Fate>, crash: bool)
    requires Invariant(sys) && |fates| == |sys.rows|
    ensures Invariant(Step(sys, Push(fates, crash))) && KeepsRows(sys, Step(sys, Push(fates, crash)))
  {
    hide AtMostOnce, Extends, RowIsSound, Faithful, IsOwn;
    var (after, done) := Uploaded(sys.server, sys.rows, fates, |sys.rows|);
    IdsOfPayloads(sys);
    UploadKeeps(sys.server, sys.rows, fates, |sys.rows|);
    forall i | 0 <= i < |sys.rows|
      ensures RowIsSound(after, sys.rows[i]) && Faithful(after, sys.rows[i]) && Faithful(after, done[i])
    {
      SoundLater(sys.server, after, sys.rows[i]);
      RowsAreOwn(sys.rows, i);
      UploadFaithful(sys.server, sys.rows, fates, |sys.rows|, sys.rows[i]);
      SameFaithful(after, sys.rows[i], done[i]);
    }
  }

  lemma SameFaithful(s: ServerState, a: Row, b: Row)
    requires Faithful(s, a) && a.eventId == b.eventId && a.payload == b.payload
    ensures Faithful(s, b)
  {
  }

  lemma ArriveKeeps(sys: System, items: seq<Payload>, accepts: seq<bool>)
    requires Invariant(sys) && Enabled(sys, Arrive(items, accepts))
    ensures Invariant(Step(sys, Arrive(items, accepts)))
  {
    hide AtMostOnce, Extends, RowIsSound, Faithful, IsOwn, IsUpload, HasRow, PushRequest;
    RequestKeeps(sys.server, items, accepts);
    IdsOfPayloads(sys);
    forall i | 0 <= i < |sys.rows|
      ensures RowIsSound(Step(sys, Arrive(items, accepts)).server, sys.rows[i])
      ensures Faithful(Step(sys, Arrive(items, accepts)).server, sys.rows[i])
    {
      SoundLater(sys.server, Step(sys, Arrive(items, accepts)).server, sys.rows[i]);
      RowsAreOwn(sys.rows, i);
      forall p | p in items
        ensures IsOwn(sys.rows[i], p)
      {
        if !IsUpload(sys.rows, p) {
          OthersAreOwn(sys.rows, p, i);
        }
      }
      RequestFaithful(sys.server, items, accepts, sys.rows[i]);
    }
  }

  /** Rows stay, with id and payload, and an acknowledged row stays as it is. */
  ghost predicate KeepsRows(a: System, b: System) {
    && |a.rows| <= |b.rows|
    && forall i | 0 <= i < |a.rows| ::
         b.rows[i].eventId == a.rows[i].eventId && b.rows[i].payload == a.rows[i].payload
         && (a.rows[i].status == Acked ==> b.rows[i] == a.rows[i])
  }

  lemma StepKeeps(sys: System, a: Action)
    requires Invariant(sys) && Enabled(sys, a)
    ensures Invariant(Step(sys, a)) && KeepsRows(sys, Step(sys, a))
  {
    hide Invariant, Uploaded, PushRequest;
    match a
    case Enqueue(p, freshId) => EnqueueKeeps(sys, p, freshId);
    case Push(fates, crash) => PushKeeps(sys, fates, crash);
    case Arrive(items, accepts) => ArriveKeeps(sys, items, accepts);
  }

  lemma NewRowIsSound(s: ServerState, p: Payload, freshId: string)
    requires RowFor(p, freshId).eventId !in s.recorded
    ensures RowIsSound(s, RowFor(p, freshId))
  {
  }

  lemma NewIdDiffers(rows: seq<Row>, id: string)
    requires !HasRow(rows, id)
    ensures forall i | 0 <= i < |rows| :: rows[i].eventId != id
  {
  }

  ghost predicate IsRun(sys: System, actions: seq<Action>) {
    && sys == System(ServerState({}, []), [])
    && forall k | 0 <= k < |actions| :: Enabled(After(sys, actions, k), actions[k])
  }

  lemma {:induction false} RunsKeep(sys: System, actions: seq<Action>, n: nat)
    requires IsRun(sys, actions) && n <= |actions|
    ensures Invariant(After(sys, actions, n))
  {
    hide Step, Enabled, AtMostOnce;
    NothingIsSound();
    if n > 0 {
      RunsKeep(sys, actions, n - 1);
      StepKeeps(After(sys, actions, n - 1), actions[n - 1]);
    }
  }

  lemma NothingIsSound()
    ensures AtMostOnce(ServerState({}, []))
  {
  }

  /** Over every run each queued event takes effect at most once, as it was queued, and exactly once when its row is
      acknowledged. */
  lemma ExactlyOnce(sys: System, actions: seq<Action>, n: nat, i: nat)
    requires IsRun(sys, actions) && n <= |actions| && i < |After(sys, actions, n).rows|
    ensures var s, r := After(sys, actions, n).server, After(sys, actions, n).rows[i];
            && (forall j, k | 0 <= j < |s.effects| && 0 <= k < |s.effects|
                              && s.effects[j].eventId == Some(r.eventId) == s.effects[k].eventId :: j == k)
            && (forall k | 0 <= k < |s.effects| && s.effects[k].eventId == Some(r.eventId) :: s.effects[k] == r.payload)
            && (r.status == Acked ==> exists k :: 0 <= k < |s.effects| && s.effects[k].eventId == Some(r.eventId))
  {
    RunsKeep(sys, actions, n);
  }

  /** Once a push has sent a row that is PENDING or FAILED, with an id in its payload, and the server has taken it and
      answered, the row is ACKED from then on and its event has taken effect exactly once. */
  lemma DeliveredForGood(sys: System, actions: seq<Action>, m: nat, n: nat, i: nat, fates: seq<Fate>)
    requires IsRun(sys, actions) && m < n <= |actions| && actions[m] == Push(fates, false)
    requires i < |After(sys, actions, m).rows| == |fates| && fates[i] == Delivered(true)
    requires var r := After(sys, actions, m).rows[i];
             (r.status == Pending || r.status == Failed) && r.payload.eventId == Some(r.eventId)
    ensures i < |After(sys, actions, n).rows|
    ensures var s, r := After(sys, actions, n).server, After(sys, actions, m).rows[i];
            && After(sys, actions, n).rows[i] == r.(status := Acked)
            && (exists k :: 0 <= k < |s.effects| && s.effects[k] == r.payload)
            && (forall j, k | 0 <= j < |s.effects| && 0 <= k < |s.effects|
                              && s.effects[j].eventId == Some(r.eventId) == s.effects[k].eventId :: j == k)
  {
    hide Step, After, IsRun;
    AckedByPush(sys, actions, m, i, fates);
    AcknowledgedForGood(sys, actions, m + 1, n, i);
    ExactlyOnce(sys, actions, n, i);
  }

  lemma AckedByPush(sys: System, actions: seq<Action>, m: nat, i: nat, fates: seq<Fate>)
    requires m < |actions| && actions[m] == Push(fates, false)
    requires i < |After(sys, actions, m).rows| == |fates| && fates[i] == Delivered(true)
    requires var r := After(sys, actions, m).rows[i];
             (r.status == Pending || r.status == Failed) && r.payload.eventId == Some(r.eventId)
    ensures i < |After(sys, actions, m + 1).rows|
    ensures After(sys, actions, m + 1).rows[i] == After(sys, actions, m).rows[i].(status := Acked)
  {
    hide Uploaded;
    var before := After(sys, actions, m);
    PushExactly(before.server, before.rows, fates, |fates|, i);
  }

  /** An acknowledged row stays as it is, so it is never sent again: only PENDING and FAILED rows are sent. */
  lemma {:induction false} AcknowledgedForGood(sys: System, actions: seq<Action>, m: nat, n: nat, i: nat)
    requires IsRun(sys, actions) && m <= n <= |actions|
    requires i < |After(sys, actions, m).rows| && After(sys, actions, m).rows[i].status == Acked
    ensures i < |After(sys, actions, n).rows| && After(sys, actions, n).rows[i] == After(sys, actions, m).rows[i]
    ensures !IsSelected(After(sys, actions, n).rows[i])
    decreases n
  {
    hide Step, Invariant, Enabled;
    if m < n {
      AcknowledgedForGood(sys, actions, m, n - 1, i);
      RunsKeep(sys, actions, n - 1);
      StepKeeps(After(sys, actions, n - 1), actions[n - 1]);
    }
  }

  /** An event queued without an id in its payload is never acknowledged. */
  lemma WithoutIdNeverAcknowledged(sys: System, actions: seq<Action>, n: nat, i: nat)
    requires IsRun(sys, actions) && n <= |actions| && i < |After(sys, actions, n).rows|
    requires After(sys, actions, n).rows[i].payload.eventId == None
    ensures After(sys, actions, n).rows[i].status in {Pending, Failed}
  {
    RunsKeep(sys, actions, n);
  }
}
