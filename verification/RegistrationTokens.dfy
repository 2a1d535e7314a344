/**
 The life of a gateway registration token: created, listed, revoked, and exchanged once for a gateway secret.
 Every operation is one transaction; row ids are positions, counted from 1, since rows are never deleted.
 */
module RegistrationTokens {
  import opened Options
  import Texts

  datatype TokenStatus = Pending | Used | Expired | Revoked

  /** A row of gateway_registration_tokens; the hash stands for the token, which is drawn at random. */
  datatype Token = Token(gatewayCode: string, stationId: int, tokenHash: int, expiresAt: int, usedAt: Option<int>,
                         status: TokenStatus, factoryCode: string, deviceId: string)

  datatype FactoryStatus = UnknownSeen | PendingBind | Bound | Online | OutOfService | Withdrawn

  datatype GatewayRow = GatewayRow(stationId: int, secret: int, factoryCode: string, deviceId: string, boundAt: int)

  /** A secret that an activation has handed out: the token, the secret and the time. */
  datatype Issue = Issue(token: nat, secret: int, at: int)

  datatype Db = Db(stations: set<int>, tokens: seq<Token>, gateways: map<string, GatewayRow>,
                   factory: map<string, FactoryStatus>, issued: seq<Issue>)

  /** The device_info of an activation; an absent field is the empty string. */
  datatype Device = Device(factoryCode: string, deviceId: string)

  datatype Reply = Done(id: nat) | Secret(secret: int) | Refused(code: int)

  const LIST_LIMIT := 100

  predicate IsExpired(t: Token, now: int) {
    t.expiresAt <= now
  }

  // ---- Operations

  /** ttl_seconds or the default: an absent or zero ttl takes the default. */
  function EffectiveTtl(ttl: Option<int>, defaultTtl: int): int {
    if ttl.Some? && ttl.value != 0 then ttl.value else defaultTtl
  }

  function Create(db: Db, gatewayCode: string, stationId: int, ttl: Option<int>, defaultTtl: int, factoryCode: string,
                  deviceId: string, tokenHash: int, now: int): (Db, Reply)
  {
    if stationId !in db.stations then (db, Refused(404))
    else if EffectiveTtl(ttl, defaultTtl) <= 0 then (db, Refused(400))
    else
      var t := Token(gatewayCode, stationId, tokenHash, now + EffectiveTtl(ttl, defaultTtl), None, Pending,
                     factoryCode, deviceId);
      (db.(tokens := db.tokens + [t]), Done(|db.tokens| + 1))
  }

  function Aged(t: Token, now: int): Token {
    if t.status == Pending && IsExpired(t, now) then t.(status := Expired) else t
  }

  /** Listing shows the latest hundred tokens and expires those among them whose time is over. */
  function List(db: Db, now: int): Db {
    db.(tokens := seq(|db.tokens|, i requires 0 <= i < |db.tokens| =>
                        if i >= |db.tokens| - LIST_LIMIT then Aged(db.tokens[i], now) else db.tokens[i]))
  }

  function Revoke(db: Db, id: nat): (Db, Reply) {
    if !(1 <= id <= |db.tokens|) then (db, Refused(404))
    else if db.tokens[id - 1].status == Pending
    then (db.(tokens := db.tokens[id - 1 := db.tokens[id - 1].(status := Revoked)]), Done(id))
    else (db, Done(id))
  }

  predicate HasHash(tokens: seq<Token>, i: int, tokenHash: int) {
    0 <= i < |tokens| && tokens[i].tokenHash == tokenHash
  }

  ghost function Lookup(tokens: seq<Token>, tokenHash: int): Option<nat> {
    if exists i :: HasHash(tokens, i, tokenHash) then
      var i :| HasHash(tokens, i, tokenHash);
      Some(i)
    else None
  }

  predicate FactoryCodeMatches(t: Token, device: Device) {
    t.factoryCode != "" ==> device.factoryCode != "" && Texts.Upper(t.factoryCode) == Texts.Upper(device.factoryCode)
  }

  predicate DeviceIdMatches(t: Token, device: Device) {
    t.deviceId == "" || device.deviceId == "" || t.deviceId == device.deviceId
  }

  function EffectiveFactoryCode(t: Token, device: Device): string {
    if t.factoryCode != "" then t.factoryCode else device.factoryCode
  }

  predicate FactoryAllows(factory: map<string, FactoryStatus>, code: string) {
    code != "" && code in factory ==> factory[code] != OutOfService && factory[code] != Withdrawn
  }

  /** The token was made for this gateway and station. */
  predicate Matches(t: Token, gatewayCode: string, stationId: int) {
    t.gatewayCode == gatewayCode && t.stationId == stationId
  }

  /** The device fits what the token says about it, and is not out of service. */
  predicate DeviceAllowed(db: Db, t: Token, device: Device) {
    FactoryCodeMatches(t, device) && DeviceIdMatches(t, device)
      && FactoryAllows(db.factory, EffectiveFactoryCode(t, device))
  }

  /** The token becomes used and the gateway gets a secret; stores tells whether the database takes the rows. */
  ghost function Activate(db: Db, gatewayCode: string, stationId: int, tokenHash: int, device: Device, secret: int,
                          stores: bool, now: int): (Db, Reply)
  {
    if stationId !in db.stations then (db, Refused(404))
    else
      match Lookup(db.tokens, tokenHash)
      case None => (db, Refused(401))
      case Some(i) =>
        var t := db.tokens[i];
        if !Matches(t, gatewayCode, stationId) || t.status == Revoked || t.status == Used then (db, Refused(401))
        else if t.status == Expired || IsExpired(t, now) then
          (db.(tokens := db.tokens[i := t.(status := Expired)]), Refused(401))
        else if !DeviceAllowed(db, t, device) then (db, Refused(401))
        else if !stores then (db, Refused(500))
        else (Exchanged(db, i, device, secret, now), Secret(secret))
  }

  function Exchanged(db: Db, i: nat, device: Device, secret: int, now: int): Db
    requires i < |db.tokens|
  {
    var t := db.tokens[i];
    var code := EffectiveFactoryCode(t, device);
    var deviceId := if device.deviceId != "" then device.deviceId else t.deviceId;
    var row := GatewayRow(t.stationId, secret, code, deviceId, now);
    Db(db.stations, db.tokens[i := t.(status := Used, usedAt := Some(now))], db.gateways[t.gatewayCode := row],
       if code != "" && code in db.factory then db.factory[code := Bound] else db.factory,
       db.issued + [Issue(i, secret, now)])
  }

  // ---- What every operation keeps

  /** Secrets go to tokens that are used, one each, strictly before the expiry of the token. */
  ghost predicate Valid(db: Db) {
    && (forall i, j | 0 <= i < j < |db.tokens| :: db.tokens[i].tokenHash != db.tokens[j].tokenHash)
    && (forall k | 0 <= k < |db.issued| ::
          && db.issued[k].token < |db.tokens| && db.tokens[db.issued[k].token].status == Used
          && db.issued[k].at < db.tokens[db.issued[k].token].expiresAt)
    && (forall j, k | 0 <= j < k < |db.issued| :: db.issued[j].token != db.issued[k].token)
    && (forall i | 0 <= i < |db.tokens| && db.tokens[i].status == Used :: IsIssued(db.issued, i))
  }

  ghost predicate IsIssued(issued: seq<Issue>, token: nat) {
    exists k :: 0 <= k < |issued| && issued[k].token == token
  }

  /** A token keeps its terms, and a status other than PENDING for good. */
  ghost predicate Ages(t: Token, u: Token) {
    && t.gatewayCode == u.gatewayCode && t.stationId == u.stationId && t.tokenHash == u.tokenHash
    && t.expiresAt == u.expiresAt
    && (t.status != Pending ==> u == t)
  }

  ghost predicate Evolves(a: Db, b: Db) {
    && |a.tokens| <= |b.tokens| && a.issued <= b.issued
    && forall i | 0 <= i < |a.tokens| :: Ages(a.tokens[i], b.tokens[i])
  }

  lemma LookupIs(tokens: seq<Token>, tokenHash: int)
    requires forall i, j | 0 <= i < j < |tokens| :: tokens[i].tokenHash != tokens[j].tokenHash
    ensures forall i | HasHash(tokens, i, tokenHash) :: Lookup(tokens, tokenHash) == Some(i)
    ensures Lookup(tokens, tokenHash).Some? ==> HasHash(tokens, Lookup(tokens, tokenHash).value, tokenHash)
  {
  }

  lemma ChangeKeeps(db: Db, i: nat, t: Token)
    requires Valid(db) && i < |db.tokens| && Ages(db.tokens[i], t) && (t.status == Used ==> t == db.tokens[i])
    ensures Valid(db.(tokens := db.tokens[i := t])) && Evolves(db, db.(tokens := db.tokens[i := t]))
  {
  }

  lemma ListKeeps(db: Db, now: int)
    requires Valid(db)
    ensures Valid(List(db, now)) && Evolves(db, List(db, now))
  {
    var after := List(db, now);
    forall i | 0 <= i < |db.tokens|
      ensures Ages(db.tokens[i], after.tokens[i]) && (after.tokens[i].status == Used <==> db.tokens[i].status == Used)
    {
    }
  }

  lemma CreateKeeps(db: Db, t: Token)
    requires Valid(db) && t.status == Pending
    requires forall i | 0 <= i < |db.tokens| :: db.tokens[i].tokenHash != t.tokenHash
    ensures Valid(db.(tokens := db.tokens + [t])) && Evolves(db, db.(tokens := db.tokens + [t]))
  {
    var after := db.tokens + [t];
    assert forall i | 0 <= i < |db.tokens| :: after[i] == db.tokens[i];
  }

  lemma ExchangedKeeps(db: Db, i: nat, device: Device, secret: int, now: int)
    requires Valid(db) && i < |db.tokens| && db.tokens[i].status == Pending && !IsExpired(db.tokens[i], now)
    ensures Valid(Exchanged(db, i, device, secret, now)) && Evolves(db, Exchanged(db, i, device, secret, now))
  {
    hide EffectiveFactoryCode;
    NotIssuedBefore(db, i);
    var after := Exchanged(db, i, device, secret, now);
    forall k | 0 <= k < |db.tokens| && after.tokens[k].status == Used
      ensures IsIssued(after.issued, k)
    {
      IssuedLater(db.issued, Issue(i, secret, now), k);
    }
  }

  lemma NotIssuedBefore(db: Db, i: nat)
    requires Valid(db) && i < |db.tokens| && db.tokens[i].status == Pending
    ensures forall k | 0 <= k < |db.issued| :: db.issued[k].token != i
  {
  }

  lemma IssuedLater(issued: seq<Issue>, issue: Issue, token: nat)
    requires IsIssued(issued, token) || issue.token == token
    ensures IsIssued(issued + [issue], token)
  {
    if IsIssued(issued, token) {
      var m :| 0 <= m < |issued| && issued[m].token == token;
      assert (issued + [issue])[m] == issued[m];
    } else {
      assert (issued + [issue])[|issued|] == issue;
    }
  }

  // ---- Runs

  datatype Request =
    | CreateToken(gatewayCode: string, stationId: int, ttl: Option<int>, defaultTtl: int, factoryCode: string,
                  deviceId: string, tokenHash: int)
    | ListTokens
    | RevokeToken(id: nat)
    | ActivateGateway(gatewayCode: string, stationId: int, tokenHash: int, device: Device, secret: int, stores: bool)
    | ChangeFactory(code: string, status: FactoryStatus)

  ghost function Handle(db: Db, r: Request, now: int): (Db, Reply) {
    match r
    case CreateToken(code, stationId, ttl, defaultTtl, factoryCode, deviceId, tokenHash) =>
      Create(db, code, stationId, ttl, defaultTtl, factoryCode, deviceId, tokenHash, now)
    case ListTokens => (List(db, now), Done(0))
    case RevokeToken(id) => Revoke(db, id)
    case ActivateGateway(code, stationId, tokenHash, device, secret, stores) =>
      Activate(db, code, stationId, tokenHash, device, secret, stores, now)
    case ChangeFactory(code, status) => (db.(factory := db.factory[code := status]), Done(0))
  }

  /** A new token is one that has not been drawn before. */
  ghost predicate Enabled(db: Db, r: Request) {
    r.CreateToken? ==> forall i | 0 <= i < |db.tokens| :: db.tokens[i].tokenHash != r.tokenHash
  }

  /** Requests with the time at which they are handled. */
  ghost function After(db: Db, requests: seq<(Request, int)>, n: nat): Db
    requires n <= |requests|
  {
    if n == 0 then db else Handle(After(db, requests, n - 1), requests[n - 1].0, requests[n - 1].1).0
  }

  ghost predicate IsRun(db: Db, requests: seq<(Request, int)>) {
    && db.tokens == [] && db.issued == []
    && forall k | 0 <= k < |requests| :: Enabled(After(db, requests, k), requests[k].0)
  }

  lemma HandleKeeps(db: Db, r: Request, now: int)
    requires Valid(db) && Enabled(db, r)
    ensures Valid(Handle(db, r, now).0) && Evolves(db, Handle(db, r, now).0)
  {
    hide Valid, Evolves, Exchanged, List, DeviceAllowed;
    Unchanged(db, db.factory);
    match r
    case CreateToken(code, stationId, ttl, defaultTtl, factoryCode, deviceId, tokenHash) =>
      CreateKeeps(db, Token(code, stationId, tokenHash, now + EffectiveTtl(ttl, defaultTtl), None, Pending,
                            factoryCode, deviceId));
    case ListTokens => ListKeeps(db, now);
    case RevokeToken(id) =>
      if 1 <= id <= |db.tokens| && db.tokens[id - 1].status == Pending {
        ChangeKeeps(db, id - 1, db.tokens[id - 1].(status := Revoked));
      }
    case ActivateGateway(code, stationId, tokenHash, device, secret, stores) =>
      ActivateKeeps(db, code, stationId, tokenHash, device, secret, stores, now);
    case ChangeFactory(code, status) => Unchanged(db, db.factory[code := status]);
  }

  lemma Unchanged(db: Db, factory: map<string, FactoryStatus>)
    requires Valid(db)
    ensures Valid(db.(factory := factory)) && Evolves(db, db.(factory := factory)) && Evolves(db, db)
  {
  }

  lemma HashesDistinct(db: Db)
    requires Valid(db)
    ensures forall i, j | 0 <= i < j < |db.tokens| :: db.tokens[i].tokenHash != db.tokens[j].tokenHash
  {
  }

  lemma ActivateKeeps(db: Db, code: string, stationId: int, tokenHash: int, device: Device, secret: int, stores: bool,
                      now: int)
    requires Valid(db)
    ensures var after := Activate(db, code, stationId, tokenHash, device, secret, stores, now).0;
            Valid(after) && Evolves(db, after)
  {
    hide Valid, Evolves, Exchanged, DeviceAllowed, Lookup;
    Unchanged(db, db.factory);
    HashesDistinct(db);
    LookupIs(db.tokens, tokenHash);
    if Lookup(db.tokens, tokenHash).Some? {
      var i := Lookup(db.tokens, tokenHash).value;
      var t := db.tokens[i];
      if t.status == Expired || (t.status == Pending && IsExpired(t, now)) {
        ChangeKeeps(db, i, t.(status := Expired));
      } else if t.status == Pending {
        ExchangedKeeps(db, i, device, secret, now);
      }
    }
  }

  lemma EvolvesTransitive(a: Db, b: Db, c: Db)
    requires Evolves(a, b) && Evolves(b, c)
    ensures Evolves(a, c)
  {
  }

  /** Over every run the invariant holds, and USED, EXPIRED and REVOKED are final. */
  lemma {:induction false} RunsKeep(db: Db, requests: seq<(Request, int)>, m: nat, n: nat)
    requires IsRun(db, requests) && m <= n <= |requests|
    ensures Valid(After(db, requests, n)) && Evolves(After(db, requests, m), After(db, requests, n))
    decreases n
  {
    hide Valid, Evolves, Handle, Enabled;
    if n == 0 {
      EmptyIsValid(db);
      Unchanged(db, db.factory);
    } else if m == n {
      RunsKeep(db, requests, n - 1, n - 1);
      HandleKeeps(After(db, requests, n - 1), requests[n - 1].0, requests[n - 1].1);
      Unchanged(After(db, requests, n), After(db, requests, n).factory);
    } else {
      RunsKeep(db, requests, m, n - 1);
      var before := After(db, requests, n - 1);
      HandleKeeps(before, requests[n - 1].0, requests[n - 1].1);
      EvolvesTransitive(After(db, requests, m), before, After(db, requests, n));
    }
  }

  lemma EmptyIsValid(db: Db)
    requires db.tokens == [] && db.issued == []
    ensures Valid(db)
  {
  }

  /** A token leaves PENDING at most once: its status at two later moments is the same. */
  lemma LeavesPendingOnce(db: Db, requests: seq<(Request, int)>, m: nat, n: nat, i: nat)
    requires IsRun(db, requests) && m <= n <= |requests| && i < |After(db, requests, m).tokens|
    requires After(db, requests, m).tokens[i].status != Pending
    ensures i < |After(db, requests, n).tokens| && After(db, requests, n).tokens[i] == After(db, requests, m).tokens[i]
  {
    hide After, IsRun;
    RunsKeep(db, requests, m, n);
  }

  /** Each token yields at most one secret, strictly before its expiry. */
  lemma OneSecretPerToken(db: Db, requests: seq<(Request, int)>, n: nat, j: nat, k: nat)
    requires IsRun(db, requests) && n <= |requests|
    requires j < |After(db, requests, n).issued| && k < |After(db, requests, n).issued|
    ensures var after := After(db, requests, n);
            && after.issued[j].token < |after.tokens|
            && after.issued[j].at < after.tokens[after.issued[j].token].expiresAt
            && (after.issued[j].token == after.issued[k].token ==> j == k)
  {
    hide After, IsRun;
    RunsKeep(db, requests, n, n);
  }

  // ---- What each operation does, said apart from it

  /** A token takes an existing station (404) and a positive lifetime (400), which is the default when none or zero is
      asked for; it is added PENDING behind all others. */
  lemma CreateExactly(db: Db, code: string, stationId: int, ttl: Option<int>, defaultTtl: int, factoryCode: string,
                      deviceId: string, tokenHash: int, now: int)
    ensures var r := CreateToken(code, stationId, ttl, defaultTtl, factoryCode, deviceId, tokenHash);
            var (after, reply) := Handle(db, r, now);
            var lifetime := match ttl case None => defaultTtl case Some(t) => if t == 0 then defaultTtl else t;
            if stationId !in db.stations then (after, reply) == (db, Refused(404))
            else if lifetime <= 0 then (after, reply) == (db, Refused(400))
            else
              && reply == Done(|db.tokens| + 1)
              && after == db.(tokens := db.tokens + [Token(code, stationId, tokenHash, now + lifetime, None, Pending,
                                                           factoryCode, deviceId)])
  {
  }

  /** Listing expires exactly the pending tokens among the latest hundred whose time is over. */
  lemma ListExactly(db: Db, now: int, i: nat)
    requires i < |db.tokens|
    ensures var after := Handle(db, ListTokens, now).0;
            && after == db.(tokens := after.tokens) && |after.tokens| == |db.tokens|
            && after.tokens[i] == if i + 100 >= |db.tokens| && db.tokens[i].status == Pending
               && db.tokens[i].expiresAt <= now
                                  then db.tokens[i].(status := Expired) else db.tokens[i]
  {
  }

  /** Revoking an existing token (404) makes it REVOKED if it is pending and changes nothing else. */
  lemma RevokeExactly(db: Db, id: nat, now: int)
    ensures var (after, reply) := Handle(db, RevokeToken(id), now);
            if id < 1 || id > |db.tokens| then (after, reply) == (db, Refused(404))
            else
              && reply == Done(id)
              && after == if db.tokens[id - 1].status == Pending
                          then db.(tokens := db.tokens[id - 1 := db.tokens[id - 1].(status := Revoked)]) else db
  {
  }

  /** What a device must bring: the factory code of the token, in any case, if it has one; the device id of the token,
      if both have one; and the factory device with the code, if known, must be in service. */
  ghost predicate IsAcceptable(db: Db, t: Token, device: Device) {
    var code := if |t.factoryCode| > 0 then t.factoryCode else device.factoryCode;
    && (|t.factoryCode| > 0 ==>
        |device.factoryCode| == |t.factoryCode|
        && forall k | 0 <= k < |t.factoryCode| ::
             Texts.UpperChar(device.factoryCode[k]) == Texts.UpperChar(t.factoryCode[k]))
    && (|t.deviceId| > 0 && |device.deviceId| > 0 ==> device.deviceId == t.deviceId)
    && (|code| > 0 && code in db.factory ==> db.factory[code] !in {OutOfService, Withdrawn})
  }

  lemma AcceptableIsAllowed(db: Db, t: Token, device: Device)
    ensures DeviceAllowed(db, t, device) <==> IsAcceptable(db, t, device)
  {
    SameUpper(t.factoryCode, device.factoryCode);
  }

  lemma SameUpper(a: string, b: string)
    ensures Texts.Upper(a) == Texts.Upper(b) <==>
              |a| == |b| && forall k | 0 <= k < |a| :: Texts.UpperChar(b[k]) == Texts.UpperChar(a[k])
  {
    if Texts.Upper(a) == Texts.Upper(b) {
      forall k | 0 <= k < |a|
        ensures Texts.UpperChar(b[k]) == Texts.UpperChar(a[k])
      {
        assert Texts.Upper(a)[k] == Texts.Upper(b)[k];
      }
    } else if |a| == |b| {
      var k :| 0 <= k < |a| && Texts.Upper(a)[k] != Texts.Upper(b)[k];
    }
  }

  /** An activation with token i. It needs a token of the gateway and station that is pending and in time, an acceptable
      device, and a database that takes the rows; it then uses the token, gives the gateway the secret, the station and
      the identity of the device, and binds the factory device. A token found to be over is marked EXPIRED; any other
      refusal changes nothing. */
  lemma ActivateExactly(db: Db, code: string, stationId: int, tokenHash: int, device: Device, secret: int, stores: bool,
                        now: int, i: nat)
    requires Valid(db) && i < |db.tokens| && db.tokens[i].tokenHash == tokenHash && stationId in db.stations
    ensures var (after, reply) := Handle(db, ActivateGateway(code, stationId, tokenHash, device, secret, stores), now);
            var t := db.tokens[i];
            var factoryCode := if t.factoryCode != "" then t.factoryCode else device.factoryCode;
            if t.gatewayCode != code || t.stationId != stationId || t.status == Used || t.status == Revoked
            then (after, reply) == (db, Refused(401))
            else if t.status == Expired || now >= t.expiresAt
            then (after, reply) == (db.(tokens := db.tokens[i := t.(status := Expired)]), Refused(401))
            else if !IsAcceptable(db, t, device) then (after, reply) == (db, Refused(401))
            else if !stores then (after, reply) == (db, Refused(500))
            else
              && reply == Secret(secret) && after.stations == db.stations
              && after.tokens == db.tokens[i := t.(status := Used, usedAt := Some(now))]
              && after.gateways == db.gateways[code := GatewayRow(stationId, secret, factoryCode,
                                                                  if device.deviceId != "" then device.deviceId
                                                                    else t.deviceId,
                                                                  now)]
              && after.factory == (if factoryCode != "" && factoryCode in db.factory
                                   then db.factory[factoryCode := Bound] else db.factory)
              && after.issued == db.issued + [Issue(i, secret, now)]
  {
    hide DeviceAllowed, Lookup, IsAcceptable, Valid;
    assert HasHash(db.tokens, i, tokenHash);
    HashesDistinct(db);
    LookupIs(db.tokens, tokenHash);
    AcceptableIsAllowed(db, db.tokens[i], device);
  }

  /** Without such a token an activation is refused: 404 for an unknown station, else 401. */
  lemma UnknownTokenIsRefused(db: Db, code: string, stationId: int, tokenHash: int, device: Device, secret: int,
                              stores: bool, now: int)
    requires stationId !in db.stations || forall i | 0 <= i < |db.tokens| :: db.tokens[i].tokenHash != tokenHash
    ensures Handle(db, ActivateGateway(code, stationId, tokenHash, device, secret, stores), now) ==
            (db, Refused(if stationId !in db.stations then 404 else 401))
  {
    hide DeviceAllowed, Exchanged;
  }

  /** A request answers with a secret exactly when it is the activation of a pending token in time that nothing stands
      against, and then that token has been used for it. */
  lemma SecretExactly(db: Db, code: string, stationId: int, tokenHash: int, device: Device, secret: int, stores: bool,
                      now: int)
    requires Valid(db)
    ensures Activate(db, code, stationId, tokenHash, device, secret, stores, now).1.Secret? <==>
              stores && stationId in db.stations
              && exists i :: 0 <= i < |db.tokens| && db.tokens[i].tokenHash == tokenHash
                             && db.tokens[i].gatewayCode == code && db.tokens[i].stationId == stationId
                             && db.tokens[i].status == Pending && now < db.tokens[i].expiresAt
                             && IsAcceptable(db, db.tokens[i], device)
  {
    hide Exchanged, DeviceAllowed, Lookup, IsAcceptable;
    LookupIs(db.tokens, tokenHash);
    forall i | 0 <= i < |db.tokens| && db.tokens[i].tokenHash == tokenHash
      ensures HasHash(db.tokens, i, tokenHash)
      ensures DeviceAllowed(db, db.tokens[i], device) <==> IsAcceptable(db, db.tokens[i], device)
    {
      AcceptableIsAllowed(db, db.tokens[i], device);
    }
  }

  // ---- The service

  class TokenService {
    var stations: set<int>
    var tokens: seq<Token>
    var gateways: map<string, GatewayRow>
    var factory: map<string, FactoryStatus>
    ghost var issued: seq<Issue>

    ghost function State(): Db
      reads this
    {
      Db(stations, tokens, gateways, factory, issued)
    }

    /** create_gateway_registration_token. */
    method CreateGatewayRegistrationToken(gatewayCode: string, stationId: int, ttl: Option<int>, defaultTtl: int,
                                          factoryCode: string, deviceId: string, tokenHash: int, now: int)
      returns (reply: Reply)
      modifies this
      ensures (State(), reply) ==
                Create(old(State()), gatewayCode, stationId, ttl, defaultTtl, factoryCode, deviceId, tokenHash, now)
    {
      if stationId !in stations {
        return Refused(404);
      }
      var effectiveTtl := if ttl.Some? && ttl.value != 0 then ttl.value else defaultTtl;
      if effectiveTtl <= 0 {
        return Refused(400);
      }
      tokens := tokens + [Token(gatewayCode, stationId, tokenHash, now + effectiveTtl, None, Pending, factoryCode,
                                deviceId)];
      return Done(|tokens|);
    }

    /** list_gateway_registration_tokens, latest first. */
    method ListGatewayRegistrationTokens(now: int)
      modifies this
      ensures State() == List(old(State()), now)
    {
      hide IsExpired;
      var n, shown := |tokens|, 0;
      while shown < n && shown < LIST_LIMIT
        invariant 0 <= shown <= n && shown <= LIST_LIMIT && |tokens| == n
        invariant (stations, gateways, factory, issued) == old((stations, gateways, factory, issued))
        invariant forall i | 0 <= i < n ::
                    tokens[i] == if i >= n - shown then Aged(old(tokens)[i], now) else old(tokens)[i]
      {
        var i := n - 1 - shown;
        if tokens[i].status == Pending && IsExpired(tokens[i], now) {
          tokens := tokens[i := tokens[i].(status := Expired)];
        }
        shown := shown + 1;
      }
      assert tokens == List(old(State()), now).tokens;
    }

    /** revoke_gateway_registration_token. */
    method RevokeGatewayRegistrationToken(id: nat) returns (reply: Reply)
      modifies this
      ensures (State(), reply) == Revoke(old(State()), id)
    {
      if !(1 <= id <= |tokens|) {
        return Refused(404);
      }
      if tokens[id - 1].status == Pending {
        tokens := tokens[id - 1 := tokens[id - 1].(status := Revoked)];
      }
      return Done(id);
    }

    /** activate_gateway_registration. */
    method ActivateGatewayRegistration(gatewayCode: string, stationId: int, tokenHash: int, device: Device, secret: int,
                                       stores: bool, now: int) returns (reply: Reply)
      requires Valid(State())
      modifies this
      ensures (State(), reply) == Activate(old(State()), gatewayCode, stationId, tokenHash, device, secret, stores, now)
      ensures Valid(State())
    {
      hide Lookup, Valid, Texts.Upper;
      ActivateKeeps(State(), gatewayCode, stationId, tokenHash, device, secret, stores, now);
      HashesDistinct(State());
      LookupIs(tokens, tokenHash);
      if stationId !in stations {
        return Refused(404);
      }
      var i := 0;
      while i < |tokens| && tokens[i].tokenHash != tokenHash
        invariant 0 <= i <= |tokens|
        invariant forall k | 0 <= k < i :: !HasHash(tokens, k, tokenHash)
      {
        i := i + 1;
      }
      if i == |tokens| {
        return Refused(401);
      }
      assert HasHash(tokens, i, tokenHash);
      var row := tokens[i];
      if row.gatewayCode != gatewayCode || row.stationId != stationId {
        return Refused(401);
      }
      if row.status == Revoked {
        return Refused(401);
      }
      if row.status == Used {
        return Refused(401);
      }
      if row.status == Expired || row.expiresAt <= now {
        tokens := tokens[i := row.(status := Expired)];
        return Refused(401);
      }
      if row.factoryCode != "" {
        if device.factoryCode == "" {
          return Refused(401);
        }
        if Texts.Upper(row.factoryCode) != Texts.Upper(device.factoryCode) {
          return Refused(401);
        }
      }
      if row.deviceId != "" && device.deviceId != "" {
        if row.deviceId != device.deviceId {
          return Refused(401);
        }
      }
      var effectiveFactoryCode := if row.factoryCode != "" then row.factoryCode else device.factoryCode;
      if effectiveFactoryCode != "" && effectiveFactoryCode in factory {
        if factory[effectiveFactoryCode] in {OutOfService, Withdrawn} {
          return Refused(401);
        }
      }
      if !stores {
        return Refused(500);
      }
      var gatewayDeviceId := if device.deviceId != "" then device.deviceId else row.deviceId;
      gateways := gateways[gatewayCode := GatewayRow(stationId, secret, effectiveFactoryCode, gatewayDeviceId, now)];
      if effectiveFactoryCode != "" && effectiveFactoryCode in factory {
        factory := factory[effectiveFactoryCode := Bound];
      }
      row := row.(status := Used);
      row := row.(usedAt := Some(now));
      tokens := tokens[i := row];
      issued := issued + [Issue(i, secret, now)];
      return Secret(secret);
    }
  }
}
