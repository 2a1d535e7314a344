/**
 Server and gateways together: when the cards of a gateway agree with those that the server has issued for its
 station. Events are delivered in creation order and are not lost; every gateway is registered from the start.
 */
module CardSync {
  import opened Options
  import opened Cards
  import opened ServerCards
  import opened Texts
  import G = GatewayCards
  import P = PullBatches

  /** A gateway as the sync protocol sees it. */
  datatype Local = Local(stationId: int, rows: G.Rows)

  datatype System = System(db: Db, local: map<int, Local>)

  datatype Action = Serve(request: Request) | Pull(gatewayId: int)

  function PullStep(sys: System, g: int): System
    requires g in sys.local
  {
    var l := sys.local[g];
    var batch := PendingFor(sys.db.queue, g);
    System(sys.db.(queue := MarkedSent(sys.db.queue, g)),
           sys.local[g := l.(rows := G.PullOutcome(l.rows, batch, l.stationId).0)])
  }

  ghost function Step(sys: System, a: Action): System {
    match a
    case Serve(r) => sys.(db := Handle(sys.db, r).0)
    case Pull(g) => if g in sys.local then PullStep(sys, g) else sys
  }

  ghost function After(sys: System, actions: seq<Action>, n: nat): System
    requires n <= |actions|
  {
    if n == 0 then sys else Step(After(sys, actions, n - 1), actions[n - 1])
  }

  // ---- Agreement

  /** A card as a gateway should hold it. */
  function LocalOf(c: Card): G.LocalCard {
    G.LocalCard(c.kind, c.userId, c.stationId, c.status, if c.status == Active then None else c.reason)
  }

  /** The rows hold every card of the station with its owner and status, and nothing else. */
  ghost predicate Mirrors(rows: G.Rows, cards: map<nat, Card>, stationId: int) {
    && (forall id | id in cards && cards[id].stationId == stationId ::
          cards[id].value in rows && rows[cards[id].value] == LocalOf(cards[id]))
    && (forall v | v in rows :: HasCard(cards, stationId, v))
  }

  ghost predicate HasCard(cards: map<nat, Card>, stationId: int, value: string) {
    exists id :: id in cards && cards[id].stationId == stationId && cards[id].value == value
  }

  ghost predicate Registered(sys: System) {
    && (forall i | 0 <= i < |sys.db.gateways| ::
          sys.db.gateways[i].id in sys.local
          && sys.local[sys.db.gateways[i].id].stationId == sys.db.gateways[i].stationId)
    && (forall g | g in sys.local :: Gateway(g, sys.local[g].stationId) in sys.db.gateways)
  }

  /** Every gateway starts without cards and events, and the server without cards. */
  ghost predicate Initial(sys: System) {
    && Valid(sys.db) && Registered(sys) && sys.db.cards == map[] && sys.db.queue == []
    && forall g | g in sys.local :: sys.local[g].rows == map[]
  }

  // ---- Requests

  lemma HasCardAfterUpdate(cards: map<nat, Card>, stationId: int, value: string, id: nat, card: Card)
    requires HasCard(cards, stationId, value) && (id in cards ==> SameIdentity(card, cards[id]))
    ensures HasCard(cards[id := card], stationId, value)
  {
    var i :| i in cards && cards[i].stationId == stationId && cards[i].value == value;
    assert cards[id := card][i].value == value;
  }

  ghost function Told(rows: G.Rows, concerned: bool, e: SyncEvent, stationId: int): G.Rows {
    if concerned then G.Applied(rows, e, stationId) else rows
  }

  /** Issuing a card and telling the station keeps the gateways of every station in agreement. */
  lemma MirrorsIssue(rows: G.Rows, cards: map<nat, Card>, id: nat, card: Card, stationId: int)
    requires Mirrors(rows, cards, stationId) && id !in cards && !IsIssued(cards, card.value) && card.status == Active
    ensures Mirrors(Told(rows, card.stationId == stationId, UpsertOf(card), stationId), cards[id := card], stationId)
  {
    hide HasCard, IsIssued;
    var after := Told(rows, card.stationId == stationId, UpsertOf(card), stationId);
    NotHeld(rows, cards, card.value, stationId);
    forall v | v in after
      ensures HasCard(cards[id := card], stationId, v)
    {
      if v in rows {
        HasCardAfterUpdate(cards, stationId, v, id, card);
      } else {
        HasTheCard(cards[id := card], id);
      }
    }
  }

  lemma NotHeld(rows: G.Rows, cards: map<nat, Card>, value: string, stationId: int)
    requires Mirrors(rows, cards, stationId) && !IsIssued(cards, value)
    ensures value !in rows && forall id | id in cards :: cards[id].value != value
  {
  }

  lemma HasTheCard(cards: map<nat, Card>, id: nat)
    requires id in cards
    ensures HasCard(cards, cards[id].stationId, cards[id].value)
  {
  }

  /** So does retiring a card. */
  lemma MirrorsRetire(rows: G.Rows, cards: map<nat, Card>, id: nat, card: Card, stationId: int)
    requires Mirrors(rows, cards, stationId) && DistinctValues(cards) && id in cards && SameIdentity(card, cards[id])
    requires card.status != Active
    ensures Mirrors(Told(rows, card.stationId == stationId, DisableOf(card), stationId), cards[id := card], stationId)
  {
    hide HasCard;
    var after := Told(rows, card.stationId == stationId, DisableOf(card), stationId);
    forall v | v in after
      ensures HasCard(cards[id := card], stationId, v)
    {
      HasCardAfterUpdate(cards, stationId, v, id, card);
    }
    assert after.Keys == rows.Keys;
  }

  /** What a station event adds to the pending events of a gateway. */
  function News(concerned: bool, e: SyncEvent): seq<SyncEvent> {
    if concerned then [e] else []
  }

  lemma QueuedEvent(queue: seq<Queued>, gateways: seq<Gateway>, stationId: int, e: SyncEvent, g: int, home: int)
    requires DistinctGateways(gateways) && Gateway(g, home) in gateways
    ensures PendingFor(queue + EventsFor(gateways, stationId, e), g) ==
              PendingFor(queue, g) + News(stationId == home, e)
  {
    hide EventsFor, PendingFor;
    PendingConcat(queue, EventsFor(gateways, stationId, e), g);
    PendingOfStationEvent(gateways, stationId, e, g);
    OneHome(gateways, g, home, stationId);
  }

  lemma OneHome(gateways: seq<Gateway>, g: int, home: int, stationId: int)
    requires DistinctGateways(gateways) && Gateway(g, home) in gateways
    ensures IsGatewayOf(gateways, g, stationId) <==> home == stationId
  {
  }

  lemma ApplyNews(rows: G.Rows, pending: seq<SyncEvent>, concerned: bool, e: SyncEvent, home: int)
    ensures G.ApplyAll(rows, pending + News(concerned, e), home) ==
              Told(G.ApplyAll(rows, pending, home), concerned, e, home)
  {
    hide G.Applied, G.ApplyAll;
    P.ApplyAllSnoc(rows, pending, e, home);
    assert pending + [] == pending;
  }

  /** A card with this value has been issued and is not active any more. */
  ghost predicate IsRetired(cards: map<nat, Card>, v: string) {
    exists id :: id in cards && cards[id].value == v && cards[id].status != Active
  }

  /** What the server queues: lifecycle events that bring in each card once, when it has been issued, and turn off each
      card once, when it has ceased to be active. */
  ghost predicate FromServer(cards: map<nat, Card>, events: seq<SyncEvent>) {
    && P.AreLifecycle(events) && P.TurnsOffOnce(events) && P.IntroducesOnce(events)
    && (forall e, v | e in events && P.TurnsOff(e, v) :: IsRetired(cards, v))
    && (forall e | e in events && P.Introduced(e).Some? :: IsIssued(cards, P.Introduced(e).value))
  }

  /** The gateway will mirror the cards once it has applied what is pending. */
  ghost predicate WillMirror(rows: G.Rows, pending: seq<SyncEvent>, cards: map<nat, Card>, home: int) {
    Mirrors(G.ApplyAll(rows, pending, home), cards, home)
  }

  /** A retired card is active at the gateway, and nothing is pending about it. */
  ghost predicate IsStuck(rows: G.Rows, pending: seq<SyncEvent>, cards: map<nat, Card>, v: string) {
    IsRetired(cards, v) && P.IsOn(rows, v) && forall e | e in pending :: !IsAbout(e, v)
  }

  /** What a step of the server keeps, seen from one gateway. */
  ghost predicate Follows(rows: G.Rows, home: int, cards: map<nat, Card>, pending: seq<SyncEvent>,
                          cards': map<nat, Card>, pending': seq<SyncEvent>)
  {
    && (FromServer(cards, pending) ==> FromServer(cards', pending'))
    && (WillMirror(rows, pending, cards, home) ==> WillMirror(rows, pending', cards', home))
    && (forall v | IsStuck(rows, pending, cards, v) :: IsStuck(rows, pending', cards', v))
  }

  lemma FollowsTransitive(rows: G.Rows, home: int, a: map<nat, Card>, p: seq<SyncEvent>, b: map<nat, Card>,
                          q: seq<SyncEvent>, c: map<nat, Card>, r: seq<SyncEvent>)
    requires Follows(rows, home, a, p, b, q) && Follows(rows, home, b, q, c, r)
    ensures Follows(rows, home, a, p, c, r)
  {
    hide FromServer, WillMirror, IsStuck;
  }

  lemma RetiredStays(cards: map<nat, Card>, id: nat, card: Card, v: string)
    requires id in cards ==> card.value == cards[id].value && (cards[id].status != Active ==> card.status != Active)
    ensures IsRetired(cards, v) ==> IsRetired(cards[id := card], v)
    ensures IsIssued(cards, v) ==> IsIssued(cards[id := card], v)
  {
    if IsRetired(cards, v) {
      var i :| i in cards && cards[i].value == v && cards[i].status != Active;
      assert i in cards[id := card];
    }
    if IsIssued(cards, v) {
      var i :| i in cards && cards[i].value == v;
      assert i in cards[id := card];
    }
  }

  lemma ChangedCard(cards: map<nat, Card>, events: seq<SyncEvent>, id: nat, card: Card)
    requires FromServer(cards, events)
    requires id in cards ==> card.value == cards[id].value && (cards[id].status != Active ==> card.status != Active)
    ensures FromServer(cards[id := card], events)
  {
    hide IsRetired, IsIssued, P.TurnsOff, P.Introduced, IsLifecycle;
    forall v
      ensures IsRetired(cards, v) ==> IsRetired(cards[id := card], v)
      ensures IsIssued(cards, v) ==> IsIssued(cards[id := card], v)
    {
      RetiredStays(cards, id, card, v);
    }
  }

  /** One more event, which is about no card that an earlier one brings in or turns off in the same way. */
  lemma OneMoreEvent(cards: map<nat, Card>, events: seq<SyncEvent>, e: SyncEvent)
    requires FromServer(cards, events) && IsLifecycle(e)
    requires forall v | P.TurnsOff(e, v) :: IsRetired(cards, v) && forall d | d in events :: !P.TurnsOff(d, v)
    requires P.Introduced(e).Some? ==>
               IsIssued(cards, P.Introduced(e).value) && forall d | d in events :: P.Introduced(d) != P.Introduced(e)
    ensures FromServer(cards, events + [e])
  {
    hide IsRetired, IsIssued, P.TurnsOff, P.Introduced, IsLifecycle;
    var all := events + [e];
    forall i, j | 0 <= i < j < |all|
      ensures forall v | P.TurnsOff(all[i], v) :: !P.TurnsOff(all[j], v)
      ensures P.Introduced(all[i]).Some? ==> P.Introduced(all[i]) != P.Introduced(all[j])
    {
      assert all[i] in events;
    }
  }

  lemma StuckStays(rows: G.Rows, pending: seq<SyncEvent>, cards: map<nat, Card>, id: nat, card: Card,
                   news: seq<SyncEvent>,
                   v: string)
    requires IsStuck(rows, pending, cards, v)
    requires id in cards ==> card.value == cards[id].value && (cards[id].status != Active ==> card.status != Active)
    requires forall e | e in news :: !IsAbout(e, v)
    ensures IsStuck(rows, pending + news, cards[id := card], v)
  {
    hide IsRetired, P.IsOn, IsAbout;
    RetiredStays(cards, id, card, v);
  }

  /** A new card is issued, and its station is told. */
  lemma IssueFollows(rows: G.Rows, home: int, cards: map<nat, Card>, pending: seq<SyncEvent>, id: nat, card: Card)
    requires id !in cards && !IsIssued(cards, card.value) && card.status == Active
    ensures Follows(rows, home, cards, pending, cards[id := card],
                    pending + News(card.stationId == home, UpsertOf(card)))
  {
    hide FromServer, WillMirror, IsStuck, P.IsOn;
    var e := UpsertOf(card);
    var news, cards' := News(card.stationId == home, e), cards[id := card];
    if FromServer(cards, pending) {
      NotYetIn(cards, pending, card.value);
      ChangedCard(cards, pending, id, card);
      IsIssuedNow(cards', id);
      assert pending + [] == pending;
      OneMoreEvent(cards', pending, e);
    }
    if WillMirror(rows, pending, cards, home) {
      IssueWillMirror(rows, home, cards, pending, id, card);
    }
    forall v | IsStuck(rows, pending, cards, v)
      ensures IsStuck(rows, pending + news, cards', v)
    {
      StuckIsRetired(rows, pending, cards, v);
      StuckStays(rows, pending, cards, id, card, news, v);
    }
  }

  lemma IssueWillMirror(rows: G.Rows, home: int, cards: map<nat, Card>, pending: seq<SyncEvent>, id: nat, card: Card)
    requires id !in cards && !IsIssued(cards, card.value) && card.status == Active
             && WillMirror(rows, pending, cards, home)
    ensures WillMirror(rows, pending + News(card.stationId == home, UpsertOf(card)), cards[id := card], home)
  {
    hide G.ApplyAll, Mirrors, IsIssued, Told, News;
    ApplyNews(rows, pending, card.stationId == home, UpsertOf(card), home);
    MirrorsIssue(G.ApplyAll(rows, pending, home), cards, id, card, home);
  }

  lemma StuckIsRetired(rows: G.Rows, pending: seq<SyncEvent>, cards: map<nat, Card>, v: string)
    requires IsStuck(rows, pending, cards, v)
    ensures IsRetired(cards, v) && IsIssued(cards, v)
  {
  }

  lemma IsIssuedNow(cards: map<nat, Card>, id: nat)
    requires id in cards
    ensures IsIssued(cards, cards[id].value) && (cards[id].status != Active ==> IsRetired(cards, cards[id].value))
  {
  }

  lemma NotYetIn(cards: map<nat, Card>, events: seq<SyncEvent>, v: string)
    requires FromServer(cards, events) && !IsIssued(cards, v)
    ensures forall e | e in events :: P.Introduced(e) != Some(v)
  {
    hide IsIssued, P.Introduced;
  }

  /** An active card is retired, and its station is told. */
  lemma RetireFollows(rows: G.Rows, home: int, cards: map<nat, Card>, pending: seq<SyncEvent>, id: nat, card: Card)
    requires DistinctValues(cards) && id in cards && cards[id].status == Active
    requires SameIdentity(card, cards[id]) && card.status in {Lost, Replaced, Disabled}
    ensures Follows(rows, home, cards, pending, cards[id := card],
                    pending + News(card.stationId == home, DisableOf(card)))
  {
    hide FromServer, WillMirror, IsStuck, P.IsOn, IsRetired;
    var e := DisableOf(card);
    var news, cards' := News(card.stationId == home, e), cards[id := card];
    NotRetired(cards, id);
    if FromServer(cards, pending) {
      NotYetOff(cards, pending, card.value);
      ChangedCard(cards, pending, id, card);
      IsIssuedNow(cards', id);
      assert pending + [] == pending;
      OneMoreEvent(cards', pending, e);
    }
    if WillMirror(rows, pending, cards, home) {
      RetireWillMirror(rows, home, cards, pending, id, card);
    }
    forall v | IsStuck(rows, pending, cards, v)
      ensures IsStuck(rows, pending + news, cards', v)
    {
      StuckIsRetired(rows, pending, cards, v);
      StuckStays(rows, pending, cards, id, card, news, v);
    }
  }

  lemma RetireWillMirror(rows: G.Rows, home: int, cards: map<nat, Card>, pending: seq<SyncEvent>, id: nat, card: Card)
    requires DistinctValues(cards) && id in cards && SameIdentity(card, cards[id]) && card.status != Active
    requires WillMirror(rows, pending, cards, home)
    ensures WillMirror(rows, pending + News(card.stationId == home, DisableOf(card)), cards[id := card], home)
  {
    hide G.ApplyAll, Mirrors, Told, News;
    ApplyNews(rows, pending, card.stationId == home, DisableOf(card), home);
    MirrorsRetire(G.ApplyAll(rows, pending, home), cards, id, card, home);
  }

  lemma NotRetired(cards: map<nat, Card>, id: nat)
    requires DistinctValues(cards) && id in cards && cards[id].status == Active
    ensures !IsRetired(cards, cards[id].value)
  {
  }

  lemma NotYetOff(cards: map<nat, Card>, events: seq<SyncEvent>, v: string)
    requires FromServer(cards, events) && !IsRetired(cards, v)
    ensures forall e | e in events :: !P.TurnsOff(e, v)
  {
    hide IsRetired, P.TurnsOff;
  }

  /** The station is told of something that is about no card. */
  lemma OtherFollows(rows: G.Rows, home: int, cards: map<nat, Card>, pending: seq<SyncEvent>, concerned: bool,
                     e: SyncEvent)
    requires e.AccessRequested? || e.PickupConfirmed?
    ensures Follows(rows, home, cards, pending, cards, pending + News(concerned, e))
  {
    hide FromServer, Mirrors, IsRetired, IsIssued, P.IsOn, G.ApplyAll;
    ApplyNews(rows, pending, concerned, e, home);
    P.NoCard(G.ApplyAll(rows, pending, home), e, home);
    assert pending + [] == pending;
    if FromServer(cards, pending) {
      OneMoreEvent(cards, pending, e);
    }
  }

  /** A step of the server, seen from one gateway. */
  ghost predicate DbFollows(rows: G.Rows, g: int, home: int, db: Db, after: Db) {
    Follows(rows, home, db.cards, PendingFor(db.queue, g), after.cards, PendingFor(after.queue, g))
  }

  lemma RetiredFollows(db: Db, rows: G.Rows, g: int, home: int, cardId: nat, status: Status, reason: string)
    requires Valid(db) && Gateway(g, home) in db.gateways
    requires cardId in db.cards && db.cards[cardId].status == Active && (status == Lost || status == Disabled)
    ensures DbFollows(rows, g, home, db, Retired(db, cardId, status, reason))
  {
    hide EventsFor, PendingFor, Follows;
    var card := db.cards[cardId].(status := status, reason := Some(reason));
    QueuedEvent(db.queue, db.gateways, card.stationId, DisableOf(card), g, home);
    RetireFollows(rows, home, db.cards, PendingFor(db.queue, g), cardId, card);
  }

  lemma BindFollows(db: Db, rows: G.Rows, g: int, home: int, userId: int, stationId: int, kind: Kind, value: string,
                    reason: Option<string>, admin: Account)
    requires Valid(db) && Gateway(g, home) in db.gateways
    ensures DbFollows(rows, g, home, db, Bind(db, userId, stationId, kind, value, reason, admin).0)
  {
    hide EventsFor, PendingFor, Follows, Normalized, ActiveCard, IsIssued, UpsertOf, DisableOf, News;
    FollowsReflexive(rows, home, db.cards, PendingFor(db.queue, g));
    if BindRefusal(db, userId, stationId, kind, value, admin) == None {
      NewIdIsNew(db);
      ActiveCardIs(db.cards, db.nextId, userId, stationId);
      var id, card := db.nextId, Card(userId, stationId, kind, Normalized(value), Active, None, reason);
      var pending := PendingFor(db.queue, g);
      match ActiveCard(db.cards, userId, stationId)
      case None =>
        QueuedEvent(db.queue, db.gateways, stationId, UpsertOf(card), g, home);
        IssueFollows(rows, home, db.cards, pending, id, card);
      case Some(oldId) =>
        var replaced := db.cards[oldId].(status := Replaced, replacedBy := Some(id),
                                         reason := Some("REPLACED_BY_NEW_CARD"));
        var queue, cards := db.queue + EventsFor(db.gateways, stationId, DisableOf(replaced)),
                            db.cards[oldId := replaced];
        QueuedEvent(db.queue, db.gateways, stationId, DisableOf(replaced), g, home);
        QueuedEvent(queue, db.gateways, stationId, UpsertOf(card), g, home);
        StillUnissued(db.cards, oldId, replaced, card.value);
        RetireFollows(rows, home, db.cards, pending, oldId, replaced);
        IssueFollows(rows, home, cards, PendingFor(queue, g), id, card);
        assert cards[id := card] == db.cards[id := card][oldId := replaced];
        FollowsTransitive(rows, home, db.cards, pending, cards, PendingFor(queue, g), cards[id := card],
                          PendingFor(queue, g) + News(stationId == home, UpsertOf(card)));
    }
  }

  lemma FollowsReflexive(rows: G.Rows, home: int, cards: map<nat, Card>, pending: seq<SyncEvent>)
    ensures Follows(rows, home, cards, pending, cards, pending)
  {
    hide FromServer, WillMirror, IsStuck;
  }

  lemma StillUnissued(cards: map<nat, Card>, id: nat, card: Card, value: string)
    requires id in cards && SameIdentity(card, cards[id]) && !IsIssued(cards, value)
    ensures !IsIssued(cards[id := card], value)
  {
  }

  lemma ServeFollows(db: Db, rows: G.Rows, g: int, home: int, r: Request)
    requires Valid(db) && Gateway(g, home) in db.gateways
    ensures DbFollows(rows, g, home, db, Handle(db, r).0)
  {
    hide PendingFor, Follows, Bind, Retired, EventsFor, Valid;
    FollowsReflexive(rows, home, db.cards, PendingFor(db.queue, g));
    match r
    case BindCard(userId, stationId, kind, value, reason, admin) =>
      BindFollows(db, rows, g, home, userId, stationId, kind, value, reason, admin);
    case Report(userId, cardId, reason) =>
      if cardId in db.cards && db.cards[cardId].status == Active {
        RetiredFollows(db, rows, g, home, cardId, Lost, reason);
      }
    case TurnOff(userId, cardId, reason, staff) =>
      if cardId in db.cards && db.cards[cardId].status == Active {
        RetiredFollows(db, rows, g, home, cardId, Disabled, reason);
      }
    case AskAccess(user, stationId, _, _, _) => ToldFollows(db, rows, g, home, stationId, AccessRequested(user.id));
    case ChangeAccount(_, _) =>
    case PickUp(stationId, parcelId) => ToldFollows(db, rows, g, home, stationId, PickupConfirmed(parcelId));
  }

  lemma ToldFollows(db: Db, rows: G.Rows, g: int, home: int, stationId: int, e: SyncEvent)
    requires Valid(db) && Gateway(g, home) in db.gateways && (e.AccessRequested? || e.PickupConfirmed?)
    ensures DbFollows(rows, g, home, db, db.(queue := db.queue + EventsFor(db.gateways, stationId, e)))
  {
    hide EventsFor, PendingFor, Follows;
    QueuedEvent(db.queue, db.gateways, stationId, e, g, home);
    OtherFollows(rows, home, db.cards, PendingFor(db.queue, g), stationId == home, e);
  }

  // ---- Pulls

  /** A gateway of the given home station agrees with the tables, once it has applied what is queued. */
  ghost predicate AgreesAt(db: Db, rows: G.Rows, g: int, home: int) {
    FromServer(db.cards, PendingFor(db.queue, g)) && WillMirror(rows, PendingFor(db.queue, g), db.cards, home)
  }

  /** The gateway holds a retired card that nothing in its queue will turn off. */
  ghost predicate LostAt(db: Db, rows: G.Rows, g: int) {
    exists v :: IsStuck(rows, PendingFor(db.queue, g), db.cards, v)
  }

  /** Two tables that mirror the same cards are equal. */
  lemma MirrorsIsUnique(a: G.Rows, b: G.Rows, cards: map<nat, Card>, stationId: int)
    requires Mirrors(a, cards, stationId) && Mirrors(b, cards, stationId)
    ensures a == b
  {
    assert forall v | v in a :: HasCard(cards, stationId, v);
    assert forall v | v in b :: HasCard(cards, stationId, v);
  }

  /** The tables after a pull by the gateway. */
  function Pulled(db: Db, g: int): Db {
    db.(queue := MarkedSent(db.queue, g))
  }

  /** A pull keeps agreement when, and only when, its batch is separable. */
  lemma PullAgreesExactly(db: Db, rows: G.Rows, g: int, home: int)
    requires AgreesAt(db, rows, g, home)
    ensures var batch := PendingFor(db.queue, g);
            AgreesAt(Pulled(db, g), G.PullOutcome(rows, batch, home).0, g, home) <==> P.Separable(rows, batch)
  {
    hide Mirrors, PendingFor, MarkedSent, P.Separable, G.PullOutcome;
    var batch := PendingFor(db.queue, g);
    var outcome := G.PullOutcome(rows, batch, home).0;
    PendingAfterPull(db.queue, g, g);
    P.BatchOnceExactly(rows, batch, home);
    assert G.ApplyAll(outcome, [], home) == outcome;
    if AgreesAt(Pulled(db, g), outcome, g, home) {
      MirrorsIsUnique(outcome, G.ApplyAll(rows, batch, home), db.cards, home);
    }
  }

  /** A pull whose batch is not separable leaves a retired card active for good. */
  lemma PullLoses(db: Db, rows: G.Rows, g: int, home: int)
    requires FromServer(db.cards, PendingFor(db.queue, g)) && !P.Separable(rows, PendingFor(db.queue, g))
    ensures LostAt(Pulled(db, g), G.PullOutcome(rows, PendingFor(db.queue, g), home).0, g)
  {
    hide PendingFor, MarkedSent, P.Separable, G.PullOutcome, IsRetired, P.IsOn, P.IntroducesOnce, P.TurnsOffOnce,
      P.AreLifecycle;
    var batch := PendingFor(db.queue, g);
    PendingAfterPull(db.queue, g, g);
    var n, v := P.LeftOnByPull(rows, batch, home);
    assert IsStuck(G.PullOutcome(rows, batch, home).0, [], db.cards, v);
  }

  /** Once lost, always lost: a pull cannot change a card that none of its events is about. */
  lemma PullKeepsLost(db: Db, rows: G.Rows, g: int, home: int)
    requires LostAt(db, rows, g)
    ensures LostAt(Pulled(db, g), G.PullOutcome(rows, PendingFor(db.queue, g), home).0, g)
  {
    hide PendingFor, MarkedSent, G.PullOutcome, IsRetired, IsAbout;
    var batch := PendingFor(db.queue, g);
    var v :| IsStuck(rows, batch, db.cards, v);
    PendingAfterPull(db.queue, g, g);
    P.PullLeavesOthers(rows, batch, home, v);
    assert IsStuck(G.PullOutcome(rows, batch, home).0, [], db.cards, v);
  }

  /** A gateway that holds such a card does not agree. */
  lemma LostDisagrees(db: Db, rows: G.Rows, g: int, home: int)
    requires Valid(db) && LostAt(db, rows, g)
    ensures !AgreesAt(db, rows, g, home)
  {
    hide PendingFor, G.ApplyAll, IsAbout, FromServer, LinksGoUp, OneActive;
    var pending := PendingFor(db.queue, g);
    var v :| IsStuck(rows, pending, db.cards, v);
    P.OthersUntouched(rows, pending, home, v);
  }

  // ---- Runs

  ghost predicate Sound(sys: System) {
    && Valid(sys.db) && Registered(sys)
    && forall g | g in sys.local :: FromServer(sys.db.cards, PendingFor(sys.db.queue, g))
  }

  ghost predicate Agrees(sys: System, g: int)
    requires g in sys.local
  {
    AgreesAt(sys.db, sys.local[g].rows, g, sys.local[g].stationId)
  }

  /** The gateway holds the cards of its station, up to the events that are still queued for it; so do all others. */
  ghost predicate Good(sys: System) {
    Sound(sys) && forall g | g in sys.local :: Agrees(sys, g)
  }

  /** The action is no pull by the gateway of a batch in which an event is about a card that an earlier one adds with
      no commit in between. */
  ghost predicate OrderlyFor(sys: System, a: Action, g: int)
    requires g in sys.local
  {
    a == Pull(g) ==> P.Separable(sys.local[g].rows, PendingFor(sys.db.queue, g))
  }

  ghost predicate Orderly(sys: System, a: Action) {
    forall g | g in sys.local :: OrderlyFor(sys, a, g)
  }

  /** At the start nothing is issued, queued or held, so both sides agree. */
  lemma InitiallyGood(sys: System)
    requires Initial(sys)
    ensures Good(sys)
  {
  }

  lemma SameTables(db: Db, queue: seq<Queued>)
    requires Valid(db)
    ensures Valid(db.(queue := queue))
  {
  }

  lemma IsRegistered(sys: System, g: int)
    requires Sound(sys) && g in sys.local
    ensures Valid(sys.db) && Gateway(g, sys.local[g].stationId) in sys.db.gateways
    ensures FromServer(sys.db.cards, PendingFor(sys.db.queue, g))
  {
  }

  lemma ServeKeepsSound(sys: System, r: Request)
    requires Sound(sys)
    ensures Sound(Step(sys, Serve(r)))
  {
    hide Valid, Handle, FromServer, PendingFor, WillMirror, IsStuck;
    HandleKeeps(sys.db, r);
    forall g | g in sys.local
      ensures FromServer(Handle(sys.db, r).0.cards, PendingFor(Handle(sys.db, r).0.queue, g))
    {
      ServeFollows(sys.db, sys.local[g].rows, g, sys.local[g].stationId, r);
    }
  }

  lemma NothingFromServer(cards: map<nat, Card>)
    ensures FromServer(cards, [])
  {
  }

  lemma PullKeepsSound(sys: System, g: int)
    requires Sound(sys) && g in sys.local
    ensures Sound(Step(sys, Pull(g)))
  {
    hide Valid, FromServer, PendingFor, MarkedSent, G.PullOutcome;
    SameTables(sys.db, MarkedSent(sys.db.queue, g));
    NothingFromServer(sys.db.cards);
    forall h | h in sys.local
      ensures FromServer(sys.db.cards, PendingFor(MarkedSent(sys.db.queue, g), h))
    {
      PendingAfterPull(sys.db.queue, g, h);
    }
  }

  /** What one action means for one gateway. */
  lemma StepAt(sys: System, a: Action, g: int)
    requires Sound(sys) && g in sys.local
    ensures var after := Step(sys, a);
            && Sound(after) && after.local.Keys == sys.local.Keys && after.local[g].stationId == sys.local[g].stationId
            && (Agrees(sys, g) ==> if OrderlyFor(sys, a, g) then Agrees(after, g)
                else LostAt(after.db, after.local[g].rows, g))
            && (LostAt(sys.db, sys.local[g].rows, g) ==> LostAt(after.db, after.local[g].rows, g))
  {
    hide Sound, Handle, FromServer, PendingFor, WillMirror, IsStuck, MarkedSent, G.PullOutcome, P.Separable;
    IsRegistered(sys, g);
    match a
    case Serve(r) =>
      ServeKeepsSound(sys, r);
      ServeFollows(sys.db, sys.local[g].rows, g, sys.local[g].stationId, r);
    case Pull(h) =>
      if h in sys.local {
        PullKeepsSound(sys, h);
        PullAt(sys, h, g);
      }
  }

  lemma PullAt(sys: System, h: int, g: int)
    requires Sound(sys) && g in sys.local && h in sys.local
    ensures var after := PullStep(sys, h);
            && (Agrees(sys, g) ==>
                if OrderlyFor(sys, Pull(h), g) then Agrees(after, g) else LostAt(after.db, after.local[g].rows, g))
            && (LostAt(sys.db, sys.local[g].rows, g) ==> LostAt(after.db, after.local[g].rows, g))
  {
    hide Sound, FromServer, PendingFor, WillMirror, IsStuck, MarkedSent, G.PullOutcome, P.Separable;
    IsRegistered(sys, g);
    var rows, home := sys.local[g].rows, sys.local[g].stationId;
    PendingAfterPull(sys.db.queue, h, g);
    if h == g {
      if Agrees(sys, g) {
        PullAgreesExactly(sys.db, rows, g, home);
      }
      if !P.Separable(rows, PendingFor(sys.db.queue, g)) {
        PullLoses(sys.db, rows, g, home);
      }
      if LostAt(sys.db, rows, g) {
        PullKeepsLost(sys.db, rows, g, home);
      }
    }
  }

  /** In every run each gateway either agrees, all its pulls having been orderly, or has lost a card for good. */
  lemma {:induction false} RunAt(sys: System, actions: seq<Action>, n: nat, g: int)
    requires Initial(sys) && n <= |actions| && g in sys.local
    ensures var after := After(sys, actions, n);
            && Sound(after) && after.local.Keys == sys.local.Keys && after.local[g].stationId == sys.local[g].stationId
            && if AllOrderlyFor(sys, actions, n, g) then Agrees(after, g) else LostAt(after.db, after.local[g].rows, g)
  {
    hide Step, OrderlyFor, Sound, Agrees, LostAt, Initial, Good;
    if n == 0 {
      InitiallyAgrees(sys, g);
    } else {
      RunAt(sys, actions, n - 1, g);
      StepAt(After(sys, actions, n - 1), actions[n - 1], g);
    }
  }

  lemma InitiallyAgrees(sys: System, g: int)
    requires Initial(sys) && g in sys.local
    ensures Sound(sys) && Agrees(sys, g)
  {
    hide Sound, Agrees, Initial;
    InitiallyGood(sys);
  }

  /** All pulls of the gateway among the first n actions are orderly. */
  ghost predicate AllOrderlyFor(sys: System, actions: seq<Action>, n: nat, g: int)
    requires n <= |actions|
  {
    forall k | 0 <= k < n && g in After(sys, actions, k).local :: OrderlyFor(After(sys, actions, k), actions[k], g)
  }

  /** In every run a gateway agrees with the server, up to the events still queued for it, exactly when all its pulls
      have been orderly. */
  lemma GatewayAgreesExactly(sys: System, actions: seq<Action>, n: nat, g: int)
    requires Initial(sys) && n <= |actions| && g in sys.local
    ensures g in After(sys, actions, n).local
    ensures Agrees(After(sys, actions, n), g) <==> AllOrderlyFor(sys, actions, n, g)
  {
    hide Initial, AllOrderlyFor, Sound, LostAt, AgreesAt, After;
    RunAt(sys, actions, n, g);
    var after := After(sys, actions, n);
    SoundIsValid(after);
    if LostAt(after.db, after.local[g].rows, g) {
      LostDisagrees(after.db, after.local[g].rows, g, after.local[g].stationId);
    }
  }

  lemma SoundIsValid(sys: System)
    requires Sound(sys)
    ensures Valid(sys.db)
  {
  }

  /** A gateway that has lost agreement never regains it. */
  lemma NeverRegained(sys: System, actions: seq<Action>, m: nat, n: nat, g: int)
    requires Initial(sys) && m <= n <= |actions| && g in sys.local
    ensures g in After(sys, actions, m).local && g in After(sys, actions, n).local
    ensures !Agrees(After(sys, actions, m), g) ==> !Agrees(After(sys, actions, n), g)
  {
    hide Initial, Agrees, After, OrderlyFor;
    GatewayAgreesExactly(sys, actions, m, g);
    GatewayAgreesExactly(sys, actions, n, g);
  }

  /** In every run all gateways hold the cards of their stations, up to the events that are still queued for them,
      exactly when all pulls have been orderly. */
  lemma RunsAgree(sys: System, actions: seq<Action>, n: nat)
    requires Initial(sys) && n <= |actions|
    ensures Good(After(sys, actions, n)) <==> forall k | 0 <= k < n :: Orderly(After(sys, actions, k), actions[k])
  {
    hide Initial, Agrees, After, OrderlyFor, Sound;
    forall k | 0 <= k <= n
      ensures Sound(After(sys, actions, k)) && After(sys, actions, k).local.Keys == sys.local.Keys
    {
      SameGateways(sys, actions, k);
    }
    forall g | g in sys.local
      ensures Agrees(After(sys, actions, n), g) <==> AllOrderlyFor(sys, actions, n, g)
    {
      GatewayAgreesExactly(sys, actions, n, g);
    }
    assert Good(After(sys, actions, n)) <==> forall g | g in sys.local :: AllOrderlyFor(sys, actions, n, g);
    OrderlyForAll(sys, actions, n);
  }

  lemma OrderlyForAll(sys: System, actions: seq<Action>, n: nat)
    requires n <= |actions| && forall k | 0 <= k <= n :: After(sys, actions, k).local.Keys == sys.local.Keys
    ensures (forall g | g in sys.local :: AllOrderlyFor(sys, actions, n, g)) <==>
            (forall k | 0 <= k < n :: Orderly(After(sys, actions, k), actions[k]))
  {
    hide After, OrderlyFor;
    if forall g | g in sys.local :: AllOrderlyFor(sys, actions, n, g) {
      forall k, g | 0 <= k < n && g in After(sys, actions, k).local
        ensures OrderlyFor(After(sys, actions, k), actions[k], g)
      {
        assert g in sys.local && AllOrderlyFor(sys, actions, n, g);
      }
    }
    if forall k | 0 <= k < n :: Orderly(After(sys, actions, k), actions[k]) {
      forall k, g | 0 <= k < n && g in After(sys, actions, k).local
        ensures OrderlyFor(After(sys, actions, k), actions[k], g)
      {
        assert Orderly(After(sys, actions, k), actions[k]);
      }
    }
  }

  lemma {:induction false} SameGateways(sys: System, actions: seq<Action>, n: nat)
    requires Initial(sys) && n <= |actions|
    ensures Sound(After(sys, actions, n)) && After(sys, actions, n).local.Keys == sys.local.Keys
  {
    hide Initial, Sound, Handle, G.PullOutcome;
    if n == 0 {
      InitiallySound(sys);
    } else {
      SameGateways(sys, actions, n - 1);
      var before := After(sys, actions, n - 1);
      match actions[n - 1]
      case Serve(r) => ServeKeepsSound(before, r);
      case Pull(g) =>
        if g in before.local {
          PullKeepsSound(before, g);
        }
    }
  }

  lemma InitiallySound(sys: System)
    requires Initial(sys)
    ensures Sound(sys)
  {
    hide Sound, Initial;
    InitiallyGood(sys);
  }

  /** With what the server queues, every pull commits, orderly or not. */
  lemma EveryPullCommits(sys: System, actions: seq<Action>, n: nat, g: int)
    requires Initial(sys) && n <= |actions| && g in After(sys, actions, n).local
    ensures var s := After(sys, actions, n);
            G.PullOutcome(s.local[g].rows, PendingFor(s.db.queue, g), s.local[g].stationId).1
  {
    hide Initial, After, G.PullOutcome, PendingFor, P.IntroducesOnce, P.NothingAddedTwice;
    SameGateways(sys, actions, n);
    var s := After(sys, actions, n);
    P.IntroducedOnceIsAddedOnce(s.local[g].rows, PendingFor(s.db.queue, g));
    P.PullExactly(s.local[g].rows, PendingFor(s.db.queue, g), s.local[g].stationId);
  }

  // ---- What a gateway holds

  /** The rows that a gateway of the station should hold. */
  ghost function LocalCards(cards: map<nat, Card>, stationId: int): G.Rows
    requires DistinctValues(cards)
  {
    map id | id in cards && cards[id].stationId == stationId :: cards[id].value := LocalOf(cards[id])
  }

  lemma LocalCardsMirror(cards: map<nat, Card>, stationId: int)
    requires DistinctValues(cards)
    ensures Mirrors(LocalCards(cards, stationId), cards, stationId)
  {
    var rows := LocalCards(cards, stationId);
    forall v | v in rows
      ensures HasCard(cards, stationId, v)
    {
    }
  }

  /** Action k is a pull by the gateway, and none of the actions between k and n is. */
  ghost predicate IsLastPull(actions: seq<Action>, k: nat, n: nat, g: int) {
    k < n <= |actions| && actions[k] == Pull(g) && forall j | k < j < n :: actions[j] != Pull(g)
  }

  /** A gateway whose pulls have been orderly holds exactly the cards of its station as they were at the server at the
      moment of its last pull. */
  lemma HoldsLastPull(sys: System, actions: seq<Action>, k: nat, n: nat, g: int)
    requires Initial(sys) && IsLastPull(actions, k, n, g) && g in sys.local && AllOrderlyFor(sys, actions, n, g)
    ensures g in After(sys, actions, n).local && DistinctValues(After(sys, actions, k).db.cards)
    ensures After(sys, actions, n).local[g].rows == LocalCards(After(sys, actions, k).db.cards, sys.local[g].stationId)
  {
    hide Initial, Sound, AllOrderlyFor, Agrees, LocalCards, Mirrors, Step;
    FewerOrderly(sys, actions, k + 1, n, g);
    RunAt(sys, actions, k, g);
    RunAt(sys, actions, k + 1, g);
    RowsStay(sys, actions, k, n, g);
    var before, after := After(sys, actions, k), After(sys, actions, k + 1);
    ValidIsDistinct(before);
    DrainedByPull(before, g);
    DrainedMirrors(after, g);
    LocalCardsMirror(before.db.cards, sys.local[g].stationId);
    MirrorsIsUnique(after.local[g].rows, LocalCards(before.db.cards, sys.local[g].stationId), before.db.cards,
                    sys.local[g].stationId);
  }

  /** Over a run of the whole system, too, a card that is not active stays as it is. */
  lemma {:induction false} CardsGrow(sys: System, actions: seq<Action>, m: nat, n: nat)
    requires Initial(sys) && m <= n <= |actions|
    ensures var a, b := After(sys, actions, m).db, After(sys, actions, n).db;
            a.nextId <= b.nextId && Grows(a.cards, a.nextId, b.cards)
    decreases n
  {
    hide Initial, Sound, Handle, Grows, G.PullOutcome;
    var a := After(sys, actions, m).db;
    GrowsReflexive(a.cards, a.nextId);
    if m < n {
      CardsGrow(sys, actions, m, n - 1);
      SameGateways(sys, actions, n - 1);
      var b := After(sys, actions, n - 1).db;
      SoundIsValid(After(sys, actions, n - 1));
      GrowsReflexive(b.cards, b.nextId);
      if actions[n - 1].Serve? {
        HandleKeeps(b, actions[n - 1].request);
      }
      GrowsTransitive(a.cards, a.nextId, b.cards, b.nextId, After(sys, actions, n).db.cards);
    }
  }

  /** A card that was retired before the last pull of a gateway whose pulls have been orderly has its status and reason
      there. */
  lemma RetiredAtGateway(sys: System, actions: seq<Action>, m: nat, k: nat, n: nat, g: int, cardId: nat)
    requires Initial(sys) && m <= k && IsLastPull(actions, k, n, g) && g in sys.local
    requires AllOrderlyFor(sys, actions, n, g)
    requires cardId in After(sys, actions, m).db.cards
    requires var card := After(sys, actions, m).db.cards[cardId];
             card.status != Active && card.stationId == sys.local[g].stationId
    ensures g in After(sys, actions, n).local
    ensures var card, rows := After(sys, actions, m).db.cards[cardId], After(sys, actions, n).local[g].rows;
            card.value in rows && rows[card.value].status == card.status && rows[card.value].reason == card.reason
  {
    hide Initial, AllOrderlyFor, After, LocalCards, HasCard;
    CardsGrow(sys, actions, m, k);
    HoldsLastPull(sys, actions, k, n, g);
    LocalCardsMirror(After(sys, actions, k).db.cards, sys.local[g].stationId);
  }

  /** The same for a disable: once the gateway has pulled after it, orderly, its row is DISABLED with the reason. */
  lemma DisabledAtGateway(sys: System, actions: seq<Action>, m: nat, k: nat, n: nat, g: int, userId: int, cardId: nat,
                          reason: string, staff: Account)
    requires Initial(sys) && m < k && IsLastPull(actions, k, n, g) && g in sys.local
    requires AllOrderlyFor(sys, actions, n, g) && actions[m] == Serve(TurnOff(userId, cardId, reason, staff))
    requires var db := After(sys, actions, m).db;
             && Handle(db, TurnOff(userId, cardId, reason, staff)).1.Accepted? && cardId in db.cards
             && db.cards[cardId].status == Active && db.cards[cardId].stationId == sys.local[g].stationId
    ensures g in After(sys, actions, n).local
    ensures var value, rows := After(sys, actions, m).db.cards[cardId].value, After(sys, actions, n).local[g].rows;
            value in rows && rows[value].status == Disabled && rows[value].reason == Some(reason)
  {
    hide Initial, AllOrderlyFor, Handle, IsTold, G.PullOutcome;
    SameGateways(sys, actions, m);
    SoundIsValid(After(sys, actions, m));
    DisableExactly(After(sys, actions, m).db, userId, cardId, reason, staff);
    RetiredAtGateway(sys, actions, m + 1, k, n, g, cardId);
  }

  /** And for a report of loss: its row is LOST with the reason. */
  lemma LostAtGateway(sys: System, actions: seq<Action>, m: nat, k: nat, n: nat, g: int, userId: int, cardId: nat,
                      reason: string)
    requires Initial(sys) && m < k && IsLastPull(actions, k, n, g) && g in sys.local
    requires AllOrderlyFor(sys, actions, n, g) && actions[m] == Serve(Report(userId, cardId, reason))
    requires var db := After(sys, actions, m).db;
             && Handle(db, Report(userId, cardId, reason)).1.Accepted? && cardId in db.cards
             && db.cards[cardId].stationId == sys.local[g].stationId
    ensures g in After(sys, actions, n).local
    ensures var value, rows := After(sys, actions, m).db.cards[cardId].value, After(sys, actions, n).local[g].rows;
            value in rows && rows[value].status == Lost && rows[value].reason == Some(reason)
  {
    hide Initial, AllOrderlyFor, Handle, IsTold, G.PullOutcome;
    SameGateways(sys, actions, m);
    SoundIsValid(After(sys, actions, m));
    ReportExactly(After(sys, actions, m).db, userId, cardId, reason);
    RetiredAtGateway(sys, actions, m + 1, k, n, g, cardId);
  }

  /** Before its first pull a gateway holds nothing. */
  lemma HoldsNothing(sys: System, actions: seq<Action>, n: nat, g: int)
    requires Initial(sys) && n <= |actions| && g in sys.local && forall j | 0 <= j < n :: actions[j] != Pull(g)
    ensures g in After(sys, actions, n).local && After(sys, actions, n).local[g].rows == map[]
  {
    hide Handle, G.PullOutcome;
    if n > 0 {
      HoldsNothing(sys, actions, n - 1, g);
    }
  }

  lemma FewerOrderly(sys: System, actions: seq<Action>, m: nat, n: nat, g: int)
    requires m <= n <= |actions| && AllOrderlyFor(sys, actions, n, g)
    ensures AllOrderlyFor(sys, actions, m, g)
  {
    hide OrderlyFor, After;
  }

  lemma {:induction false} RowsStay(sys: System, actions: seq<Action>, k: nat, n: nat, g: int)
    requires IsLastPull(actions, k, n, g) && g in After(sys, actions, k + 1).local
    ensures g in After(sys, actions, n).local
    ensures After(sys, actions, n).local[g] == After(sys, actions, k + 1).local[g]
    decreases n
  {
    hide Handle, G.PullOutcome;
    if n > k + 1 {
      RowsStay(sys, actions, k, n - 1, g);
    }
  }

  lemma ValidIsDistinct(sys: System)
    requires Sound(sys)
    ensures DistinctValues(sys.db.cards)
  {
  }

  lemma DrainedByPull(sys: System, g: int)
    requires g in sys.local
    ensures var after := Step(sys, Pull(g));
            after.db.cards == sys.db.cards && PendingFor(after.db.queue, g) == []
  {
    hide PendingFor, MarkedSent;
    PendingAfterPull(sys.db.queue, g, g);
  }

  lemma DrainedMirrors(sys: System, g: int)
    requires g in sys.local && Agrees(sys, g) && PendingFor(sys.db.queue, g) == []
    ensures Mirrors(sys.local[g].rows, sys.db.cards, sys.local[g].stationId)
  {
    hide PendingFor, Mirrors, FromServer;
    assert G.ApplyAll(sys.local[g].rows, [], sys.local[g].stationId) == sys.local[g].rows;
  }

  ghost function ActiveAtGateway(sys: System, g: int): set<string>
    requires g in sys.local
  {
    set v | v in sys.local[g].rows && sys.local[g].rows[v].status == Active
  }

  ghost function ActiveAtServer(db: Db, stationId: int): set<string> {
    set id | id in db.cards && db.cards[id].stationId == stationId && db.cards[id].status == Active ::
        db.cards[id].value
  }

  /** A card about which nothing is queued has the same status on both sides. */
  lemma SettledCardAgrees(sys: System, g: int, id: nat)
    requires Good(sys) && g in sys.local && id in sys.db.cards && sys.db.cards[id].stationId == sys.local[g].stationId
    requires forall e | e in PendingFor(sys.db.queue, g) :: !IsAbout(e, sys.db.cards[id].value)
    ensures sys.db.cards[id].value in sys.local[g].rows
    ensures sys.local[g].rows[sys.db.cards[id].value].status == sys.db.cards[id].status
  {
    hide PendingFor, G.ApplyAll, Sound;
    var v, l := sys.db.cards[id].value, sys.local[g];
    assert Agrees(sys, g);
    P.OthersUntouched(l.rows, PendingFor(sys.db.queue, g), l.stationId, v);
  }

  /** Once the queue of a gateway is drained, both sides have the same active cards for its station. */
  lemma DrainedAgrees(sys: System, g: int)
    requires Good(sys) && g in sys.local && PendingFor(sys.db.queue, g) == []
    ensures ActiveAtGateway(sys, g) == ActiveAtServer(sys.db, sys.local[g].stationId)
  {
    hide PendingFor, Sound;
    var l := sys.local[g];
    assert Agrees(sys, g);
    assert G.ApplyAll(l.rows, [], l.stationId) == l.rows;
    forall v | v in ActiveAtGateway(sys, g)
      ensures v in ActiveAtServer(sys.db, l.stationId)
    {
      assert HasCard(sys.db.cards, l.stationId, v);
    }
  }

  // ---- A pull that is not orderly

  /** One user of station 1, its gateway 7, and no cards. */
  function FreshSystem(): System {
    System(Db(map[2 := Account(2, RoleUser, Some(1))], [ServerCards.Gateway(7, 1)], map[], 1, []),
           map[7 := Local(1, map[])])
  }

  function IssueTo2(value: string): Request {
    BindCard(2, 1, CardUid, value, None, Account(1, ServerAdmin, None))
  }

  lemma IssueAndLose(db: Db, value: string, reason: string)
    requires db == FreshSystem().db
    ensures var issued := Card(2, 1, CardUid, Normalized(value), Active, None, None);
            var lost := issued.(status := Lost, reason := Some(reason));
            var after := Handle(Handle(db, IssueTo2(value)).0, Report(2, 1, reason)).0;
            after.cards == map[1 := lost] && PendingFor(after.queue, 7) == [UpsertOf(issued), DisableOf(lost)]
  {
    hide Normalized, EventsFor, PendingFor;
    assert ActiveCard(db.cards, 2, 1) == None;
    var issued := Card(2, 1, CardUid, Normalized(value), Active, None, None);
    var lost := issued.(status := Lost, reason := Some(reason));
    var one := Handle(db, IssueTo2(value)).0;
    assert one.cards == map[1 := issued];
    NothingPending();
    assert [] + EventsFor(db.gateways, 1, UpsertOf(issued)) == EventsFor(db.gateways, 1, UpsertOf(issued));
    PendingOfStationEvent(db.gateways, 1, UpsertOf(issued), 7);
    PendingOfStationEvent(db.gateways, 1, DisableOf(lost), 7);
    PendingConcat(EventsFor(db.gateways, 1, UpsertOf(issued)), EventsFor(db.gateways, 1, DisableOf(lost)), 7);
  }

  lemma NothingPending()
    ensures PendingFor([], 7) == []
  {
  }

  /** When a card is issued and reported lost between two pulls, its gateway keeps it active with nothing left to
      pull: the row that the first event adds is not found by the second. */
  lemma LossBetweenPullsIsMissed(value: string, reason: string)
    ensures Initial(FreshSystem())
    ensures var actions := [Serve(IssueTo2(value)), Serve(Report(2, 1, reason)), Pull(7)];
            var after := After(FreshSystem(), actions, 3);
            && PendingFor(after.db.queue, 7) == [] && 7 in after.local && 1 in after.db.cards
            && after.db.cards[1].value == Normalized(value) && after.db.cards[1].status == Lost
            && Normalized(value) in after.local[7].rows && after.local[7].rows[Normalized(value)].status == Active
  {
    hide Handle, PendingFor, MarkedSent, EventsFor, Normalized;
    var sys := FreshSystem();
    var actions := [Serve(IssueTo2(value)), Serve(Report(2, 1, reason)), Pull(7)];
    IssueAndLose(sys.db, value, reason);
    assert After(sys, actions, 0) == sys;
    assert After(sys, actions, 1) == sys.(db := Handle(sys.db, IssueTo2(value)).0);
    var two := After(sys, actions, 2);
    assert two == sys.(db := Handle(Handle(sys.db, IssueTo2(value)).0, Report(2, 1, reason)).0);
    PendingAfterPull(two.db.queue, 7, 7);
    var issued := Card(2, 1, CardUid, Normalized(value), Active, None, None);
    LostEvent(UpsertOf(issued), DisableOf(issued.(status := Lost, reason := Some(reason))));
  }

  lemma LostEvent(a: SyncEvent, b: SyncEvent)
    requires a.Upsert? && b.Disable? && a.value == b.value && a.status == Some(Active)
    ensures var rows := G.PullOutcome(map[], [a, b], 1).0;
            a.value in rows && rows[a.value].status == Active
  {
    hide G.Merged, G.CanInsert;
    OneAdded(a, b);
    var s := G.BatchApplied(G.Opened(map[]), [a, b], 1).0;
    hide G.BatchApplied;
    G.MergedLookup(s.rows, s.added);
    assert s.added[0].0 == a.value;
  }

  lemma OneAdded(a: SyncEvent, b: SyncEvent)
    requires a.Upsert? && b.Disable? && a.value == b.value
    ensures G.BatchApplied(G.Opened(map[]), [a, b], 1) == (G.Session(map[], map[], [(a.value, G.NewRow(a, 1))]), true)
    ensures G.CanInsert(map[], [(a.value, G.NewRow(a, 1))])
  {
    assert [a, b][..1] == [a] && [a][..0] == [];
    assert G.BatchApplied(G.Opened(map[]), [], 1) == (G.Opened(map[]), true);
    assert [] + [(a.value, G.NewRow(a, 1))] == [(a.value, G.NewRow(a, 1))];
    assert G.BatchApplied(G.Opened(map[]), [a], 1) == (G.Session(map[], map[], [(a.value, G.NewRow(a, 1))]), true);
  }
}
