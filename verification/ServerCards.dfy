/**
 Issuing, replacing, reporting and disabling access cards on the server, requests for access by phone, and the events
 queued for the gateways of a station. Tables are maps and sequences; each operation is one transaction.
 */
module ServerCards {
  import opened Options
  import opened Cards
  import opened Texts

  datatype Role = RoleUser | Staff | LocalAdmin | GatewayAdmin | ServerAdmin

  datatype Account = Account(id: int, role: Role, stationId: Option<int>)

  /** A row of user_access_credentials. */
  datatype Card = Card(userId: int, stationId: int, kind: Kind, value: string, status: Status,
                       replacedBy: Option<nat>, reason: Option<string>)

  datatype Gateway = Gateway(id: int, stationId: int)

  datatype SyncStatus = Pending | Sent

  /** A row of gateway_sync_events, from server to gateway. */
  datatype Queued = Queued(gatewayId: int, event: SyncEvent, status: SyncStatus)

  /** The tables. The queue is in creation order. */
  datatype Db = Db(users: map<int, Account>, gateways: seq<Gateway>, cards: map<nat, Card>, nextId: nat,
                   queue: seq<Queued>)

  /** The card that a request is about, nothing for one about no card, or the HTTP status that refuses it. */
  datatype Reply = Accepted(card: nat, replaced: Option<nat>) | Done | Refused(code: int)

  // ---- Queueing

  /** One event for each gateway of the station. */
  function EventsFor(gateways: seq<Gateway>, stationId: int, event: SyncEvent): seq<Queued> {
    if gateways == [] then []
    else
      var g := gateways[|gateways| - 1];
      EventsFor(gateways[..|gateways| - 1], stationId, event)
      + (if g.stationId == stationId then [Queued(g.id, event, Pending)] else [])
  }

  predicate IsPendingFor(q: Queued, gatewayId: int) {
    q.gatewayId == gatewayId && q.status == Pending
  }

  /** The pending events of a gateway. */
  function PendingFor(queue: seq<Queued>, gatewayId: int): seq<SyncEvent> {
    if queue == [] then []
    else
      var last := queue[|queue| - 1];
      PendingFor(queue[..|queue| - 1], gatewayId) + (if IsPendingFor(last, gatewayId) then [last.event] else [])
  }

  function MarkedSent(queue: seq<Queued>, gatewayId: int): (q: seq<Queued>)
    ensures |q| == |queue|
  {
    seq(|queue|, i requires 0 <= i < |queue| =>
      if IsPendingFor(queue[i], gatewayId) then queue[i].(status := Sent) else queue[i])
  }

  lemma {:induction false} PendingConcat(a: seq<Queued>, b: seq<Queued>, gatewayId: int)
    ensures PendingFor(a + b, gatewayId) == PendingFor(a, gatewayId) + PendingFor(b, gatewayId)
  {
    if b == [] {
      assert a + b == a;
    } else {
      var n := |b| - 1;
      PendingConcat(a, b[..n], gatewayId);
      assert (a + b)[..|a| + n] == a + b[..n];
    }
  }

  /** Pulling empties the pending events of one gateway and leaves those of the others. */
  lemma {:induction false} PendingAfterPull(queue: seq<Queued>, gatewayId: int, other: int)
    ensures PendingFor(MarkedSent(queue, gatewayId), other) ==
            if other == gatewayId then [] else PendingFor(queue, other)
  {
    if queue != [] {
      var n := |queue| - 1;
      PendingAfterPull(queue[..n], gatewayId, other);
      assert MarkedSent(queue, gatewayId)[..n] == MarkedSent(queue[..n], gatewayId);
    }
  }

  ghost predicate IsGatewayOf(gateways: seq<Gateway>, gatewayId: int, stationId: int) {
    Gateway(gatewayId, stationId) in gateways
  }

  /** Exactly the gateways of the station get a station event, once. */
  lemma {:induction false} PendingOfStationEvent(gateways: seq<Gateway>, stationId: int, event: SyncEvent,
                                                 gatewayId: int)
    requires DistinctGateways(gateways)
    ensures PendingFor(EventsFor(gateways, stationId, event), gatewayId) ==
            if IsGatewayOf(gateways, gatewayId, stationId) then [event] else []
  {
    if gateways != [] {
      var n := |gateways| - 1;
      var g, queued := gateways[n], EventsFor(gateways[..n], stationId, event);
      PendingOfStationEvent(gateways[..n], stationId, event, gatewayId);
      var q := Queued(g.id, event, Pending);
      assert (queued + [q])[..|queued|] == queued && queued + [] == queued;
      assert IsGatewayOf(gateways, gatewayId, stationId) <==>
             IsGatewayOf(gateways[..n], gatewayId, stationId) || g == Gateway(gatewayId, stationId) by {
        assert gateways == gateways[..n] + [g];
      }
      if g.id == gatewayId {
        assert forall k | 0 <= k < n :: gateways[..n][k].id != g.id;
      }
    }
  }

  /** The event about a card with the fields of _credential_payload. */
  function UpsertOf(c: Card): SyncEvent {
    Upsert(c.value, c.userId, Some(c.stationId), Some(c.kind), Some(c.status))
  }

  function DisableOf(c: Card): SyncEvent {
    Disable(c.value, Some(c.status), c.reason)
  }

  // ---- Operations

  predicate IsIssued(cards: map<nat, Card>, value: string) {
    exists id | id in cards :: cards[id].value == value
  }

  predicate IsActiveCard(c: Card, userId: int, stationId: int) {
    c.userId == userId && c.stationId == stationId && c.kind == CardUid && c.status == Active
  }

  ghost function ActiveCard(cards: map<nat, Card>, userId: int, stationId: int): Option<nat> {
    if exists id :: id in cards && IsActiveCard(cards[id], userId, stationId)
    then
      var id :| id in cards && IsActiveCard(cards[id], userId, stationId);
      Some(id)
    else None
  }

  predicate MayOperate(staff: Account, stationId: int) {
    staff.role == ServerAdmin || staff.stationId == Some(stationId)
  }

  /** Why a card cannot be bound, if anything. */
  function BindRefusal(db: Db, userId: int, stationId: int, kind: Kind, value: string, admin: Account): Option<int> {
    if kind != CardUid then Some(400)
    else if userId !in db.users then Some(404)
    else if db.users[userId].stationId != Some(stationId) then Some(403)
    else if !MayOperate(admin, stationId) then Some(403)
    else if IsIssued(db.cards, Normalized(value)) then Some(409)
    else None
  }

  /** A card is issued; the user's active card of the station, if any, is replaced by it. */
  ghost function Bind(db: Db, userId: int, stationId: int, kind: Kind, value: string, reason: Option<string>,
                      admin: Account): (Db, Reply) {
    match BindRefusal(db, userId, stationId, kind, value, admin)
    case Some(code) => (db, Refused(code))
    case None =>
      var id, current := db.nextId, ActiveCard(db.cards, userId, stationId);
      var card := Card(userId, stationId, kind, Normalized(value), Active, None, reason);
      match current
      case None =>
        (db.(cards := db.cards[id := card], nextId := id + 1,
             queue := db.queue + EventsFor(db.gateways, stationId, UpsertOf(card))), Accepted(id, None))
      case Some(oldId) =>
        var replaced := db.cards[oldId].(status := Replaced, replacedBy := Some(id),
                                         reason := Some("REPLACED_BY_NEW_CARD"));
        (db.(cards := db.cards[id := card][oldId := replaced], nextId := id + 1,
             queue := db.queue + EventsFor(db.gateways, stationId, DisableOf(replaced))
                      + EventsFor(db.gateways, stationId, UpsertOf(card))), Accepted(id, current))
  }

  /** A card leaves the active status. */
  function Retired(db: Db, cardId: nat, status: Status, reason: string): Db
    requires cardId in db.cards
  {
    var card := db.cards[cardId].(status := status, reason := Some(reason));
    db.(cards := db.cards[cardId := card], queue := db.queue + EventsFor(db.gateways, card.stationId, DisableOf(card)))
  }

  function ReportLost(db: Db, userId: int, cardId: nat, reason: string): (Db, Reply) {
    if cardId !in db.cards || db.cards[cardId].userId != userId then (db, Refused(404))
    else if db.cards[cardId].status != Active then (db, Refused(409))
    else (Retired(db, cardId, Lost, reason), Accepted(cardId, None))
  }

  function DisableCard(db: Db, userId: int, cardId: nat, reason: string, staff: Account): (Db, Reply) {
    if cardId !in db.cards || db.cards[cardId].userId != userId then (db, Refused(404))
    else if !MayOperate(staff, db.cards[cardId].stationId) then (db, Refused(403))
    else if db.cards[cardId].status == Active then (Retired(db, cardId, Disabled, reason), Accepted(cardId, None))
    else (db, Accepted(cardId, None))
  }

  /** Why access by phone is refused, if for anything; a QR code expires at the given time. */
  function AccessRefusal(db: Db, user: Account, stationId: int, gatewayId: int, qrExpiresAt: Option<int>,
                         now: int): Option<int> {
    if user.role != RoleUser then Some(403)
    else if user.stationId.Some? && user.stationId != Some(stationId) then Some(403)
    else if Gateway(gatewayId, stationId) !in db.gateways then Some(404)
    else if qrExpiresAt.Some? && qrExpiresAt.value < now then Some(400)
    else None
  }

  function RequestAccess(db: Db, user: Account, stationId: int, gatewayId: int, qrExpiresAt: Option<int>,
                         now: int): (Db, Reply) {
    match AccessRefusal(db, user, stationId, gatewayId, qrExpiresAt, now)
    case Some(code) => (db, Refused(code))
    case None => (db.(queue := db.queue + EventsFor(db.gateways, stationId, AccessRequested(user.id))), Done)
  }

  // ---- What every operation keeps

  ghost predicate LinksGoUp(cards: map<nat, Card>) {
    forall id | id in cards && cards[id].replacedBy.Some? ::
      var next := cards[id].replacedBy.value;
      id < next && next in cards && cards[next].userId == cards[id].userId
        && cards[next].stationId == cards[id].stationId
  }

  ghost predicate DistinctValues(cards: map<nat, Card>) {
    forall i, j | i in cards && j in cards && cards[i].value == cards[j].value :: i == j
  }

  ghost predicate OneActive(cards: map<nat, Card>) {
    forall i, j | i in cards && j in cards && cards[i].status == Active && cards[j].status == Active
                  && cards[i].userId == cards[j].userId && cards[i].stationId == cards[j].stationId :: i == j
  }

  ghost predicate ValidCards(cards: map<nat, Card>, nextId: nat) {
    && (forall id | id in cards :: id < nextId && cards[id].kind == CardUid && cards[id].status != Expired)
    && (forall id | id in cards :: cards[id].replacedBy.Some? <==> cards[id].status == Replaced)
    && LinksGoUp(cards)
    && DistinctValues(cards) && OneActive(cards)
  }

  ghost predicate DistinctGateways(gateways: seq<Gateway>) {
    forall i, j | 0 <= i < j < |gateways| :: gateways[i].id != gateways[j].id
  }

  /** At most one active card for a user and station, no value twice, links that go up, gateway ids distinct. */
  ghost predicate Valid(db: Db) {
    ValidCards(db.cards, db.nextId) && DistinctGateways(db.gateways)
  }

  /** Cards stay, with owner, station and value; one that is not active stays as it is; new ones get new ids. */
  ghost predicate Grows(earlier: map<nat, Card>, nextId: nat, later: map<nat, Card>) {
    && (forall id | id in earlier :: id in later && SameIdentity(earlier[id], later[id])
                                  && (earlier[id].status != Active ==> later[id] == earlier[id]))
    && (forall id | id in later && id !in earlier :: id >= nextId)
  }

  ghost predicate SameIdentity(a: Card, b: Card) {
    a.userId == b.userId && a.stationId == b.stationId && a.kind == b.kind && a.value == b.value
  }

  lemma ActiveCardIs(cards: map<nat, Card>, nextId: nat, userId: int, stationId: int)
    requires ValidCards(cards, nextId)
    ensures forall id | id in cards && IsActiveCard(cards[id], userId, stationId) ::
              ActiveCard(cards, userId, stationId) == Some(id)
    ensures var a := ActiveCard(cards, userId, stationId);
            a.Some? ==> a.value in cards && IsActiveCard(cards[a.value], userId, stationId)
  {
  }

  /** A new active card with a new value, when its user has no active card in the station. */
  lemma IssueKeeps(cards: map<nat, Card>, id: nat, card: Card)
    requires ValidCards(cards, id) && card.kind == CardUid && card.status == Active && card.replacedBy == None
    requires !IsIssued(cards, card.value)
    requires forall i | i in cards :: !IsActiveCard(cards[i], card.userId, card.stationId)
    ensures ValidCards(cards[id := card], id + 1) && Grows(cards, id, cards[id := card])
  {
    hide OneActive, DistinctValues;
    IssueStaysDistinct(cards, id, card);
  }

  lemma IssueStaysDistinct(cards: map<nat, Card>, id: nat, card: Card)
    requires DistinctValues(cards) && OneActive(cards) && !IsIssued(cards, card.value) && card.kind == CardUid
    requires card.status == Active
    requires forall i | i in cards :: cards[i].kind == CardUid && !IsActiveCard(cards[i], card.userId, card.stationId)
    ensures DistinctValues(cards[id := card]) && OneActive(cards[id := card])
  {
  }

  /** The same when it replaces the active card of its user. */
  lemma ReplaceKeeps(cards: map<nat, Card>, id: nat, card: Card, oldId: nat, replaced: Card)
    requires ValidCards(cards, id) && card.kind == CardUid && card.status == Active && card.replacedBy == None
    requires !IsIssued(cards, card.value)
    requires oldId in cards && IsActiveCard(cards[oldId], card.userId, card.stationId)
    requires SameIdentity(replaced, cards[oldId]) && replaced.status == Replaced && replaced.replacedBy == Some(id)
    ensures var after := cards[id := card][oldId := replaced];
            ValidCards(after, id + 1) && Grows(cards, id, after)
  {
    hide IsIssued, Grows, DistinctValues, OneActive;
    var after := cards[id := card][oldId := replaced];
    forall i | i in after
      ensures i == id || (i in cards && SameIdentity(after[i], cards[i]) && (i != oldId ==> after[i] == cards[i]))
    {
    }
    assert LinksGoUp(after);
    hide LinksGoUp;
    ValuesStayDistinct(cards, id, card, oldId, replaced);
    OneActiveStays(cards, id, card, oldId, replaced);
    ReplaceGrows(cards, id, card, oldId, replaced);
  }

  lemma OneActiveStays(cards: map<nat, Card>, id: nat, card: Card, oldId: nat, replaced: Card)
    requires OneActive(cards) && oldId in cards && id !in cards && SameIdentity(replaced, cards[oldId])
    requires replaced.status != Active && IsActiveCard(cards[oldId], card.userId, card.stationId)
    ensures OneActive(cards[id := card][oldId := replaced])
  {
    var after := cards[id := card][oldId := replaced];
    forall i | i in after && i != id
      ensures i in cards && (i != oldId ==> after[i] == cards[i])
    {
    }
  }

  lemma ReplaceGrows(cards: map<nat, Card>, id: nat, card: Card, oldId: nat, replaced: Card)
    requires id !in cards && oldId in cards && cards[oldId].status == Active && SameIdentity(replaced, cards[oldId])
    ensures Grows(cards, id, cards[id := card][oldId := replaced])
  {
  }

  lemma ValuesStayDistinct(cards: map<nat, Card>, id: nat, card: Card, oldId: nat, replaced: Card)
    requires DistinctValues(cards) && !IsIssued(cards, card.value) && oldId in cards && id !in cards
    requires replaced.value == cards[oldId].value
    ensures DistinctValues(cards[id := card][oldId := replaced])
  {
    var after := cards[id := card][oldId := replaced];
    forall i | i in after
      ensures after[i].value == if i == id then card.value else cards[i].value
    {
    }
  }

  lemma BindKeeps(db: Db, userId: int, stationId: int, kind: Kind, value: string, reason: Option<string>,
                  admin: Account)
    requires Valid(db)
    ensures var after := Bind(db, userId, stationId, kind, value, reason, admin).0;
            && Valid(after) && after.nextId >= db.nextId && Grows(db.cards, db.nextId, after.cards)
            && after.gateways == db.gateways
  {
    hide Normalized, EventsFor, ValidCards, Grows, DistinctGateways, ActiveCard;
    GrowsReflexive(db.cards, db.nextId);
    if BindRefusal(db, userId, stationId, kind, value, admin) == None {
      ActiveCardIs(db.cards, db.nextId, userId, stationId);
      var card := Card(userId, stationId, kind, Normalized(value), Active, None, reason);
      match ActiveCard(db.cards, userId, stationId)
      case None => IssueKeeps(db.cards, db.nextId, card);
      case Some(oldId) =>
        ReplaceKeeps(db.cards, db.nextId, card, oldId,
                     db.cards[oldId].(status := Replaced, replacedBy := Some(db.nextId),
                                      reason := Some("REPLACED_BY_NEW_CARD")));
    }
  }

  lemma RetiredKeeps(db: Db, cardId: nat, status: Status, reason: string)
    requires Valid(db) && cardId in db.cards && db.cards[cardId].status == Active
             && (status == Lost || status == Disabled)
    ensures var after := Retired(db, cardId, status, reason);
            Valid(after) && after.nextId == db.nextId && Grows(db.cards, db.nextId, after.cards)
              && after.gateways == db.gateways
  {
    hide EventsFor, ValidCards, Grows, DistinctGateways;
    RetireOne(db.cards, db.nextId, cardId, db.cards[cardId].(status := status, reason := Some(reason)));
  }

  /** An active card that is lost or disabled. */
  lemma RetireOne(cards: map<nat, Card>, nextId: nat, id: nat, card: Card)
    requires ValidCards(cards, nextId) && id in cards && cards[id].status == Active
    requires SameIdentity(card, cards[id]) && (card.status == Lost || card.status == Disabled)
             && card.replacedBy == cards[id].replacedBy
    ensures ValidCards(cards[id := card], nextId) && Grows(cards, nextId, cards[id := card])
  {
    var after := cards[id := card];
    forall i | i in after
      ensures i in cards && SameIdentity(after[i], cards[i]) && (i != id ==> after[i] == cards[i])
    {
    }
    assert LinksGoUp(after);
  }

  // ---- Runs

  /** A request, or what happens outside the card lifecycle: a change of an account, and a pickup that the station is
      told about. */
  datatype Request =
    | BindCard(userId: int, stationId: int, kind: Kind, value: string, bindReason: Option<string>, admin: Account)
    | Report(userId: int, cardId: nat, reason: string)
    | TurnOff(userId: int, cardId: nat, reason: string, staff: Account)
    | AskAccess(user: Account, stationId: int, gatewayId: int, qrExpiresAt: Option<int>, now: int)
    | ChangeAccount(userId: int, account: Account)
    | PickUp(stationId: int, parcelId: int)

  ghost function Handle(db: Db, r: Request): (Db, Reply) {
    match r
    case BindCard(userId, stationId, kind, value, reason, admin) =>
      Bind(db, userId, stationId, kind, value, reason, admin)
    case Report(userId, cardId, reason) => ReportLost(db, userId, cardId, reason)
    case TurnOff(userId, cardId, reason, staff) => DisableCard(db, userId, cardId, reason, staff)
    case AskAccess(user, stationId, gatewayId, qrExpiresAt, now) =>
      RequestAccess(db, user, stationId, gatewayId, qrExpiresAt, now)
    case ChangeAccount(userId, account) => (db.(users := db.users[userId := account]), Done)
    case PickUp(stationId, parcelId) =>
      (db.(queue := db.queue + EventsFor(db.gateways, stationId, PickupConfirmed(parcelId))), Done)
  }

  /** The tables after the first n requests. */
  ghost function After(db: Db, requests: seq<Request>, n: nat): Db
    requires n <= |requests|
  {
    if n == 0 then db else Handle(After(db, requests, n - 1), requests[n - 1]).0
  }

  lemma HandleKeeps(db: Db, r: Request)
    requires Valid(db)
    ensures var after := Handle(db, r).0;
            && Valid(after) && after.nextId >= db.nextId && Grows(db.cards, db.nextId, after.cards)
            && after.gateways == db.gateways
  {
    hide ValidCards, Grows, Bind, Retired;
    GrowsReflexive(db.cards, db.nextId);
    match r
    case BindCard(userId, stationId, kind, value, reason, admin) =>
      BindKeeps(db, userId, stationId, kind, value, reason, admin);
    case Report(userId, cardId, reason) =>
      if cardId in db.cards && db.cards[cardId].status == Active {
        RetiredKeeps(db, cardId, Lost, reason);
      }
    case TurnOff(userId, cardId, reason, staff) =>
      if cardId in db.cards && db.cards[cardId].status == Active {
        RetiredKeeps(db, cardId, Disabled, reason);
      }
    case AskAccess(_, _, _, _, _) =>
    case ChangeAccount(_, _) =>
    case PickUp(_, _) =>
  }

  lemma GrowsReflexive(cards: map<nat, Card>, nextId: nat)
    ensures Grows(cards, nextId, cards)
  {
  }

  lemma GrowsTransitive(a: map<nat, Card>, m: nat, b: map<nat, Card>, n: nat, c: map<nat, Card>)
    requires Grows(a, m, b) && Grows(b, n, c) && m <= n
    ensures Grows(a, m, c)
  {
  }

  /** Over every run the invariants hold, and cards only ever leave the active status. */
  lemma {:induction false} RunsKeep(db: Db, requests: seq<Request>, m: nat, n: nat)
    requires Valid(db) && m <= n <= |requests|
    ensures var a, b := After(db, requests, m), After(db, requests, n);
            Valid(a) && Valid(b) && a.nextId <= b.nextId && Grows(a.cards, a.nextId, b.cards)
              && b.gateways == db.gateways
    decreases n
  {
    hide Valid, Grows, Handle;
    var a := After(db, requests, m);
    if n == m {
      GrowsReflexive(a.cards, a.nextId);
      if m > 0 {
        RunsKeep(db, requests, m - 1, m - 1);
        HandleKeeps(After(db, requests, m - 1), requests[m - 1]);
      }
    } else {
      RunsKeep(db, requests, m, n - 1);
      var b := After(db, requests, n - 1);
      HandleKeeps(b, requests[n - 1]);
      GrowsTransitive(a.cards, a.nextId, b.cards, b.nextId, After(db, requests, n).cards);
    }
  }

  /** The value that the n-th request issued, if it issued one. */
  ghost function IssuedAt(db: Db, requests: seq<Request>, n: nat): Option<string>
    requires n < |requests|
  {
    var r := requests[n];
    if r.BindCard? && Handle(After(db, requests, n), r).1.Accepted? then Some(Normalized(r.value)) else None
  }

  /** An accepted request issues a card with that value, active and owned by the user. */
  lemma IssuedCard(db: Db, requests: seq<Request>, n: nat)
    requires Valid(db) && n < |requests| && IssuedAt(db, requests, n).Some?
    ensures var after, r := After(db, requests, n + 1), requests[n];
            var id := Handle(After(db, requests, n), r).1.card;
            && id in after.cards && after.cards[id].value == Normalized(r.value)
            && IsActiveCard(after.cards[id], r.userId, r.stationId)
            && !IsIssued(After(db, requests, n).cards, Normalized(r.value))
  {
    hide Normalized, EventsFor, ValidCards, Grows, After;
    RunsKeep(db, requests, n, n);
    AfterNext(db, requests, n);
    var before := After(db, requests, n);
    ActiveCardIs(before.cards, before.nextId, requests[n].userId, requests[n].stationId);
    NewIdIsNew(before);
  }

  lemma AfterNext(db: Db, requests: seq<Request>, n: nat)
    requires n < |requests|
    ensures After(db, requests, n + 1) == Handle(After(db, requests, n), requests[n]).0
  {
  }

  lemma NewIdIsNew(db: Db)
    requires Valid(db)
    ensures db.nextId !in db.cards
  {
  }

  /** No credential value is ever issued twice. */
  lemma NeverIssuedTwice(db: Db, requests: seq<Request>, i: nat, j: nat)
    requires Valid(db) && i < j < |requests|
    requires IssuedAt(db, requests, i).Some? && IssuedAt(db, requests, j).Some?
    ensures IssuedAt(db, requests, i) != IssuedAt(db, requests, j)
  {
    hide Valid, Handle, Normalized, After;
    IssuedCard(db, requests, i);
    IssuedCard(db, requests, j);
    RunsKeep(db, requests, i + 1, j);
    var a, b := After(db, requests, i + 1), After(db, requests, j);
    var id := Handle(After(db, requests, i), requests[i]).1.card;
    assert id in b.cards && b.cards[id].value == a.cards[id].value;
  }

  // ---- What each request does, said apart from the operations

  /** Exactly the gateways of the station have the event behind what they had pending; all others have what they had. */
  ghost predicate IsTold(before: Db, after: Db, stationId: int, news: seq<SyncEvent>) {
    forall g | g in before.gateways ::
      PendingFor(after.queue, g.id) == PendingFor(before.queue, g.id) + (if g.stationId == stationId then news else [])
  }

  lemma QueuedIsTold(before: Db, after: Db, stationId: int, e: SyncEvent)
    requires DistinctGateways(before.gateways) && after.queue == before.queue + EventsFor(before.gateways, stationId, e)
    ensures IsTold(before, after, stationId, [e])
  {
    hide EventsFor, PendingFor;
    forall g | g in before.gateways
      ensures PendingFor(after.queue, g.id) ==
                PendingFor(before.queue, g.id) + (if g.stationId == stationId then [e] else [])
    {
      PendingConcat(before.queue, EventsFor(before.gateways, stationId, e), g.id);
      PendingOfStationEvent(before.gateways, stationId, e, g.id);
      OneStation(before.gateways, g, stationId);
    }
  }

  lemma OneStation(gateways: seq<Gateway>, g: Gateway, stationId: int)
    requires DistinctGateways(gateways) && g in gateways
    ensures IsGatewayOf(gateways, g.id, stationId) <==> g.stationId == stationId
  {
  }

  lemma ToldTwice(a: Db, b: Db, c: Db, stationId: int, d: SyncEvent, e: SyncEvent)
    requires a.gateways == b.gateways && IsTold(a, b, stationId, [d]) && IsTold(b, c, stationId, [e])
    ensures IsTold(a, c, stationId, [d, e])
  {
    hide PendingFor;
    assert [d] + [e] == [d, e];
  }

  /** The staff member is a server administrator or belongs to the station. */
  predicate IsInCharge(staff: Account, stationId: int) {
    staff.role == ServerAdmin || (staff.stationId.Some? && staff.stationId.value == stationId)
  }

  /** An active card of the user that staff in charge turn off becomes DISABLED with the reason, and every gateway of
      its station is told. Other cards are left alone, and other requests are refused: 404 for a card that is not the
      user's, 403 for staff not in charge. */
  lemma DisableExactly(db: Db, userId: int, cardId: nat, reason: string, staff: Account)
    requires Valid(db)
    ensures var (after, reply) := Handle(db, TurnOff(userId, cardId, reason, staff));
            var owned := cardId in db.cards && db.cards[cardId].userId == userId;
            && reply == (if !owned then Refused(404)
                         else if !IsInCharge(staff, db.cards[cardId].stationId) then Refused(403)
                         else Accepted(cardId, None))
            && (if reply.Accepted? && db.cards[cardId].status == Active then
                  && after == db.(cards := after.cards, queue := after.queue)
                  && after.cards == db.cards[cardId := db.cards[cardId].(status := Disabled, reason := Some(reason))]
                  && IsTold(db, after, db.cards[cardId].stationId,
                          [Disable(db.cards[cardId].value, Some(Disabled), Some(reason))])
                else after == db)
  {
    hide EventsFor, ValidCards, PendingFor;
    if cardId in db.cards && DisableCard(db, userId, cardId, reason, staff).0 != db {
      QueuedIsTold(db, Retired(db, cardId, Disabled, reason), db.cards[cardId].stationId,
                   Disable(db.cards[cardId].value, Some(Disabled), Some(reason)));
    }
  }

  /** An active card of the user that is reported becomes LOST with the reason, and every gateway of its station is
      told. Otherwise nothing happens: 404 for a card that is not the user's, 409 for one that is not active. */
  lemma ReportExactly(db: Db, userId: int, cardId: nat, reason: string)
    requires Valid(db)
    ensures var (after, reply) := Handle(db, Report(userId, cardId, reason));
            var owned := cardId in db.cards && db.cards[cardId].userId == userId;
            && reply == (if !owned then Refused(404)
                         else if db.cards[cardId].status != Active then Refused(409)
                         else Accepted(cardId, None))
            && (if reply.Accepted? then
                  && after == db.(cards := after.cards, queue := after.queue)
                  && after.cards == db.cards[cardId := db.cards[cardId].(status := Lost, reason := Some(reason))]
                  && IsTold(db, after, db.cards[cardId].stationId,
                          [Disable(db.cards[cardId].value, Some(Lost), Some(reason))])
                else after == db)
  {
    hide EventsFor, ValidCards, PendingFor;
    if cardId in db.cards && ReportLost(db, userId, cardId, reason).0 != db {
      QueuedIsTold(db, Retired(db, cardId, Lost, reason), db.cards[cardId].stationId,
                   Disable(db.cards[cardId].value, Some(Lost), Some(reason)));
    }
  }

  /** A request for access by phone is passed on to the gateways of the station unless the account is not that of a
      user, or of a user of another station (403), the gateway is not of the station (404), or the QR code has expired
      (400). */
  lemma AccessExactly(db: Db, user: Account, stationId: int, gatewayId: int, qrExpiresAt: Option<int>, now: int)
    requires Valid(db)
    ensures var (after, reply) := Handle(db, AskAccess(user, stationId, gatewayId, qrExpiresAt, now));
            && reply == (if user.role != RoleUser
                         || (user.stationId.Some? && user.stationId.value != stationId) then Refused(403)
                         else if Gateway(gatewayId, stationId) !in db.gateways then Refused(404)
                         else if qrExpiresAt.Some? && qrExpiresAt.value < now then Refused(400)
                         else Done)
            && (if reply == Done then
                  after == db.(queue := after.queue) && IsTold(db, after, stationId, [AccessRequested(user.id)])
                else after == db)
  {
    hide EventsFor, ValidCards, PendingFor;
    if AccessRefusal(db, user, stationId, gatewayId, qrExpiresAt, now) == None {
      QueuedIsTold(db, RequestAccess(db, user, stationId, gatewayId, qrExpiresAt, now).0, stationId,
                   AccessRequested(user.id));
    }
  }

  /** Some card, whatever its status, has this value. */
  ghost predicate HasValue(cards: map<nat, Card>, value: string) {
    exists id :: id in cards && cards[id].value == value
  }

  /** The user has an active card in the station. */
  ghost predicate HasActive(cards: map<nat, Card>, userId: int, stationId: int, id: nat) {
    && id in cards && cards[id].userId == userId && cards[id].stationId == stationId && cards[id].kind == CardUid
    && cards[id].status == Active
  }

  /** Why a card is not bound, in the order of the checks: only card numbers (400), an existing user (404) of the
      station (403), staff in charge (403), and a value that no card has had (409). */
  lemma BindReply(db: Db, userId: int, stationId: int, kind: Kind, value: string, reason: Option<string>,
                  admin: Account)
    requires Valid(db)
    ensures var (after, reply) := Handle(db, BindCard(userId, stationId, kind, value, reason, admin));
            && (if kind != CardUid then reply == Refused(400)
                else if userId !in db.users then reply == Refused(404)
                else if db.users[userId].stationId != Some(stationId) || !IsInCharge(admin, stationId)
                then reply == Refused(403)
                else if HasValue(db.cards, Normalized(value)) then reply == Refused(409)
                else reply.Accepted?)
            && (!reply.Accepted? ==> after == db)
  {
    hide EventsFor, ValidCards, Normalized, ActiveCard;
  }

  /** A bound card is active, of the user and the station, with the normalised value and a new id, and its gateways are
      told. An active card of the user there is REPLACED by it, and they are told that first. */
  lemma BindExactly(db: Db, userId: int, stationId: int, kind: Kind, value: string, reason: Option<string>,
                    admin: Account)
    requires Valid(db) && Handle(db, BindCard(userId, stationId, kind, value, reason, admin)).1.Accepted?
    ensures var (after, reply) := Handle(db, BindCard(userId, stationId, kind, value, reason, admin));
            var id, v := db.nextId, Normalized(value);
            var card := Card(userId, stationId, CardUid, v, Active, None, reason);
            var upsert := Upsert(v, userId, Some(stationId), Some(CardUid), Some(Active));
            && reply.card == id && id !in db.cards
            && after == db.(cards := after.cards, nextId := id + 1, queue := after.queue)
            && (if reply.replaced == None then
                  && (forall i :: !HasActive(db.cards, userId, stationId, i))
                  && after.cards == db.cards[id := card] && IsTold(db, after, stationId, [upsert])
                else
                  var oldId, gone := reply.replaced.value, "REPLACED_BY_NEW_CARD";
                  && HasActive(db.cards, userId, stationId, oldId)
                  && after.cards == db.cards[oldId := db.cards[oldId].(status := Replaced, replacedBy := Some(id),
                                                                   reason := Some(gone))][id := card]
                  && IsTold(db, after, stationId, [Disable(db.cards[oldId].value, Some(Replaced), Some(gone)), upsert]))
  {
    hide EventsFor, ValidCards, Normalized, ActiveCard, PendingFor, IsTold, IsIssued, DistinctGateways;
    NewIdIsNew(db);
    ActiveCardIs(db.cards, db.nextId, userId, stationId);
    var after := Bind(db, userId, stationId, kind, value, reason, admin).0;
    var upsert := Upsert(Normalized(value), userId, Some(stationId), Some(CardUid), Some(Active));
    match ActiveCard(db.cards, userId, stationId)
    case None => QueuedIsTold(db, after, stationId, upsert);
    case Some(oldId) =>
      var disable := Disable(db.cards[oldId].value, Some(Replaced), Some("REPLACED_BY_NEW_CARD"));
      var between := db.(queue := db.queue + EventsFor(db.gateways, stationId, disable));
      QueuedIsTold(db, between, stationId, disable);
      QueuedIsTold(between, after, stationId, upsert);
      ToldTwice(db, between, after, stationId, disable, upsert);
  }

  /** A card that is not active is as it is at every later moment of any run. */
  lemma OffForGood(db: Db, requests: seq<Request>, m: nat, n: nat, id: nat)
    requires Valid(db) && m <= n <= |requests| && id in After(db, requests, m).cards
    requires After(db, requests, m).cards[id].status != Active
    ensures id in After(db, requests, n).cards && After(db, requests, n).cards[id] == After(db, requests, m).cards[id]
  {
    hide After, Valid;
    RunsKeep(db, requests, m, n);
  }

  /** After an accepted disable of an active card the card is DISABLED, with the reason, at every later moment. */
  lemma DisabledForGood(db: Db, requests: seq<Request>, m: nat, n: nat, userId: int, cardId: nat, reason: string,
                        staff: Account)
    requires Valid(db) && m < n <= |requests| && requests[m] == TurnOff(userId, cardId, reason, staff)
    requires Handle(After(db, requests, m), requests[m]).1.Accepted?
    requires cardId in After(db, requests, m).cards && After(db, requests, m).cards[cardId].status == Active
    ensures cardId in After(db, requests, n).cards
    ensures After(db, requests, n).cards[cardId] ==
            After(db, requests, m).cards[cardId].(status := Disabled, reason := Some(reason))
  {
    hide After, Valid, Handle, IsTold;
    RunsKeep(db, requests, m, m);
    AfterNext(db, requests, m);
    DisableExactly(After(db, requests, m), userId, cardId, reason, staff);
    OffForGood(db, requests, m + 1, n, cardId);
  }

  /** After an accepted report of loss the card is LOST, with the reason, at every later moment. */
  lemma LostForGood(db: Db, requests: seq<Request>, m: nat, n: nat, userId: int, cardId: nat, reason: string)
    requires Valid(db) && m < n <= |requests| && requests[m] == Report(userId, cardId, reason)
    requires Handle(After(db, requests, m), requests[m]).1.Accepted?
    ensures cardId in After(db, requests, m).cards && cardId in After(db, requests, n).cards
    ensures After(db, requests, n).cards[cardId] ==
            After(db, requests, m).cards[cardId].(status := Lost, reason := Some(reason))
  {
    hide After, Valid, Handle, IsTold;
    RunsKeep(db, requests, m, m);
    AfterNext(db, requests, m);
    ReportExactly(After(db, requests, m), userId, cardId, reason);
    OffForGood(db, requests, m + 1, n, cardId);
  }

  /** The card at the end of the replacement chain of a card. */
  ghost function LastReplacement(cards: map<nat, Card>, nextId: nat, id: nat): (last: nat)
    requires ValidCards(cards, nextId) && id in cards
    ensures last in cards && last >= id && cards[last].status != Replaced
    ensures cards[last].userId == cards[id].userId && cards[last].stationId == cards[id].stationId
    decreases nextId - id
  {
    match cards[id].replacedBy
    case None => id
    case Some(next) => LastReplacement(cards, nextId, next)
  }

  // ---- The service

  /** The database of the server, as the service functions change it. */
  class Server {
    var users: map<int, Account>
    var gateways: seq<Gateway>
    var cards: map<nat, Card>
    var nextId: nat
    var queue: seq<Queued>

    ghost function State(): Db
      reads this
    {
      Db(users, gateways, cards, nextId, queue)
    }

    constructor (users: map<int, Account>, gateways: seq<Gateway>)
      requires DistinctGateways(gateways)
      ensures State() == Db(users, gateways, map[], 1, []) && Valid(State())
    {
      this.users, this.gateways, cards, nextId, queue := users, gateways, map[], 1, [];
    }

    /** _queue_station_event. */
    method QueueStationEvent(stationId: int, event: SyncEvent)
      modifies `queue
      ensures queue == old(queue) + EventsFor(gateways, stationId, event)
    {
      for i := 0 to |gateways|
        invariant queue == old(queue) + EventsFor(gateways[..i], stationId, event)
      {
        assert gateways[..i + 1][..i] == gateways[..i];
        if gateways[i].stationId == stationId {
          queue := queue + [Queued(gateways[i].id, event, Pending)];
        }
      }
      assert gateways[..|gateways|] == gateways;
    }

    /** gateway_pull_sync: the pending events of the gateway, which are marked as sent. */
    method GatewayPullSync(gatewayId: int) returns (events: seq<SyncEvent>)
      modifies `queue
      ensures events == PendingFor(old(queue), gatewayId)
      ensures queue == MarkedSent(old(queue), gatewayId)
    {
      ghost var before := queue;
      events := [];
      for i := 0 to |queue|
        invariant |queue| == |before|
        invariant events == PendingFor(before[..i], gatewayId)
        invariant forall k | 0 <= k < i :: queue[k] == MarkedSent(before, gatewayId)[k]
        invariant forall k | i <= k < |queue| :: queue[k] == before[k]
      {
        assert before[..i + 1][..i] == before[..i];
        if queue[i].gatewayId == gatewayId && queue[i].status == Pending {
          events := events + [queue[i].event];
          queue := queue[i := queue[i].(status := Sent)];
        }
      }
      assert before[..|queue|] == before;
    }

    /** bind_user_card. */
    method BindUserCard(userId: int, stationId: int, kind: Kind, credentialValue: string, reason: Option<string>,
                        admin: Account)
      returns (reply: Reply)
      requires Valid(State())
      modifies this
      ensures (State(), reply) == Bind(old(State()), userId, stationId, kind, credentialValue, reason, admin)
      ensures Valid(State())
    {
      hide Normalized, EventsFor, ValidCards, ActiveCard, Grows, DistinctGateways, UpsertOf, DisableOf, IsActiveCard;
      BindKeeps(State(), userId, stationId, kind, credentialValue, reason, admin);
      ActiveCardIs(cards, nextId, userId, stationId);
      NewIdIsNew(State());
      if kind != CardUid {
        return Refused(400);
      }
      if userId !in users {
        return Refused(404);
      }
      if users[userId].stationId != Some(stationId) {
        return Refused(403);
      }
      if admin.role != ServerAdmin && admin.stationId != Some(stationId) {
        return Refused(403);
      }
      var value := Normalized(credentialValue);
      if exists id | id in cards :: cards[id].value == value {
        return Refused(409);
      }
      var olds := set id | id in cards && IsActiveCard(cards[id], userId, stationId);
      ghost var current := ActiveCard(cards, userId, stationId);
      assert current == None <==> olds == {} by {
        assert current.Some? ==> current.value in olds;
      }
      var cardId := nextId;
      var card := Card(userId, stationId, kind, value, Active, None, reason);
      cards := cards[cardId := card];
      nextId := nextId + 1;
      if olds != {} {
        var oldId :| oldId in olds;
        var oldCard := cards[oldId];
        oldCard := oldCard.(status := Replaced);
        oldCard := oldCard.(replacedBy := Some(cardId));
        oldCard := oldCard.(reason := Some("REPLACED_BY_NEW_CARD"));
        cards := cards[oldId := oldCard];
        QueueStationEvent(stationId, DisableOf(oldCard));
        QueueStationEvent(stationId, UpsertOf(card));
        return Accepted(cardId, Some(oldId));
      }
      QueueStationEvent(stationId, UpsertOf(card));
      return Accepted(cardId, None);
    }

    /** report_card_lost. */
    method ReportCardLost(userId: int, cardId: nat, reason: string) returns (reply: Reply)
      requires Valid(State())
      modifies this
      ensures (State(), reply) == ReportLost(old(State()), userId, cardId, reason)
      ensures Valid(State())
    {
      hide EventsFor, Valid;
      HandleKeeps(State(), Report(userId, cardId, reason));
      if cardId !in cards || cards[cardId].userId != userId {
        return Refused(404);
      }
      if cards[cardId].status != Active {
        return Refused(409);
      }
      cards := cards[cardId := cards[cardId].(status := Lost, reason := Some(reason))];
      QueueStationEvent(cards[cardId].stationId, DisableOf(cards[cardId]));
      return Accepted(cardId, None);
    }

    /** disable_user_card. */
    method DisableUserCard(userId: int, cardId: nat, reason: string, staff: Account) returns (reply: Reply)
      requires Valid(State())
      modifies this
      ensures (State(), reply) == DisableCard(old(State()), userId, cardId, reason, staff)
      ensures Valid(State())
    {
      hide EventsFor, Valid;
      HandleKeeps(State(), TurnOff(userId, cardId, reason, staff));
      if cardId !in cards || cards[cardId].userId != userId {
        return Refused(404);
      }
      if staff.role != ServerAdmin && staff.stationId != Some(cards[cardId].stationId) {
        return Refused(403);
      }
      if cards[cardId].status == Active {
        cards := cards[cardId := cards[cardId].(status := Disabled, reason := Some(reason))];
        QueueStationEvent(cards[cardId].stationId, DisableOf(cards[cardId]));
      }
      return Accepted(cardId, None);
    }

    /** request_gate_auth; the expiry is that of a QR code, and none otherwise. */
    method RequestGateAuth(user: Account, stationId: int, gatewayId: int, qrExpiresAt: Option<int>, now: int)
      returns (reply: Reply)
      requires Valid(State())
      modifies this
      ensures (State(), reply) == RequestAccess(old(State()), user, stationId, gatewayId, qrExpiresAt, now)
      ensures Valid(State())
    {
      hide EventsFor, Valid;
      HandleKeeps(State(), AskAccess(user, stationId, gatewayId, qrExpiresAt, now));
      if user.role != RoleUser {
        return Refused(403);
      }
      if user.stationId.Some? && user.stationId != Some(stationId) {
        return Refused(403);
      }
      if Gateway(gatewayId, stationId) !in gateways {
        return Refused(404);
      }
      if qrExpiresAt.Some? && qrExpiresAt.value < now {
        return Refused(400);
      }
      QueueStationEvent(stationId, AccessRequested(user.id));
      return Done;
    }
  }
}
