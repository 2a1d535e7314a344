/**
 Admitting signed gateway requests: the timestamp window, and the table of nonces from which entries outside the
 window are purged. The clock is read twice in a request, once for the window and once for the purge.
 */
module NonceWindow {
  import opened Options

  datatype GatewayRow = GatewayRow(id: int, code: string, status: string)

  /** Why a request is refused, or the gateway that it is admitted for. */
  datatype Verdict = Admitted(gateway: int) | MissingHeader | UnknownGateway | CodeMismatch | GatewayDisabled
                   | BadTimestamp | BadBodyHash | BadSignature | ReplayedNonce

  /** A request with its headers; the results of parsing the timestamp and of comparing body hash and signature are
      part of it. */
  datatype Request = Request(code: string, timestamp: string, nonce: string, bodySha256: string, signature: string,
                             value: Option<int>, bodyMatches: bool, signatureMatches: bool, expectedCode: string)

  /** The nonce table: the timestamp for each gateway and nonce. */
  type Nonces = map<(int, string), int>

  // ---- The parts

  function Distance(a: int, b: int): nat {
    if a < b then b - a else a - b
  }

  /** validate_gateway_timestamp at the given time. */
  predicate InWindow(value: int, tolerance: int, now: int) {
    Distance(now, value) <= tolerance
  }

  function Purged(nonces: Nonces, cutoff: int): Nonces {
    map k | k in nonces && nonces[k] >= cutoff :: nonces[k]
  }

  /** remember_gateway_nonce at the given time: none when the insert violates uniqueness, and all is rolled back. */
  function Remembered(nonces: Nonces, key: (int, string), timestamp: int, tolerance: int, now: int): Option<Nonces> {
    var purged := Purged(nonces, now - tolerance);
    if key in purged then None else Some(purged[key := timestamp])
  }

  /** The checks before the nonce, in the order in which they are made, with the gateway and timestamp on success. */
  function Screened(r: Request, gateways: map<string, GatewayRow>, tolerance: int, now: int): (Verdict, int) {
    if r.code == "" || r.timestamp == "" || r.nonce == "" || r.bodySha256 == "" || r.signature == ""
    then (MissingHeader, 0)
    else if r.code !in gateways then (UnknownGateway, 0)
    else
      var gateway := gateways[r.code];
      if r.expectedCode != "" && gateway.code != r.expectedCode then (CodeMismatch, 0)
      else if gateway.status != "ACTIVE" && gateway.status != "ONLINE" then (GatewayDisabled, 0)
      else if r.value == None || !InWindow(r.value.value, tolerance, now) then (BadTimestamp, 0)
      else if !r.bodyMatches then (BadBodyHash, 0)
      else if !r.signatureMatches then (BadSignature, 0)
      else (Admitted(gateway.id), r.value.value)
  }

  // ---- The service

  class Gate {
    var gateways: map<string, GatewayRow>
    var nonces: Nonces
    const tolerance: int

    method RememberGatewayNonce(gatewayId: int, nonce: string, timestamp: int, now: int) returns (ok: bool)
      modifies `nonces
      ensures ok == Remembered(old(nonces), (gatewayId, nonce), timestamp, tolerance, now).Some?
      ensures nonces ==
              if ok then Remembered(old(nonces), (gatewayId, nonce), timestamp, tolerance, now).value else old(nonces)
    {
      var begin := nonces;
      var cutoff := now - tolerance;
      nonces := map k | k in nonces && !(nonces[k] < cutoff) :: nonces[k];
      if (gatewayId, nonce) in nonces {
        nonces := begin;
        return false;
      }
      nonces := nonces[(gatewayId, nonce) := timestamp];
      return true;
    }

    /** verify_gateway_request, with the two readings of the clock. */
    method VerifyGatewayRequest(r: Request, checkTime: int, purgeTime: int) returns (verdict: Verdict)
      modifies `nonces
      ensures (verdict, nonces) == Verified(r, gateways, old(nonces), tolerance, checkTime, purgeTime)
    {
      if r.code == "" || r.timestamp == "" || r.nonce == "" || r.bodySha256 == "" || r.signature == "" {
        return MissingHeader;
      }
      if r.code !in gateways {
        return UnknownGateway;
      }
      var gateway := gateways[r.code];
      if r.expectedCode != "" && gateway.code != r.expectedCode {
        return CodeMismatch;
      }
      if !(gateway.status in {"ACTIVE", "ONLINE"}) {
        return GatewayDisabled;
      }
      if r.value == None {
        return BadTimestamp;
      }
      var timestamp := r.value.value;
      if Distance(checkTime, timestamp) > tolerance {
        return BadTimestamp;
      }
      if !r.bodyMatches {
        return BadBodyHash;
      }
      if !r.signatureMatches {
        return BadSignature;
      }
      var isNew := RememberGatewayNonce(gateway.id, r.nonce, timestamp, purgeTime);
      if !isNew {
        return ReplayedNonce;
      }
      return Admitted(gateway.id);
    }
  }

  /** The verdict on a request and the nonce table after it. */
  function Verified(r: Request, gateways: map<string, GatewayRow>, nonces: Nonces, tolerance: int, checkTime: int,
                    purgeTime: int)
    : (Verdict, Nonces)
  {
    match Screened(r, gateways, tolerance, checkTime)
    case (Admitted(gateway), timestamp) =>
      (match Remembered(nonces, (gateway, r.nonce), timestamp, tolerance, purgeTime)
       case Some(after) => (Admitted(gateway), after)
       case None => (ReplayedNonce, nonces))
    case (verdict, _) => (verdict, nonces)
  }

  // ---- The verdict, said apart from the checks

  ghost predicate HasAllHeaders(r: Request) {
    forall h | h in [r.code, r.timestamp, r.nonce, r.bodySha256, r.signature] :: |h| > 0
  }

  ghost predicate IsRecent(nonces: Nonces, gateway: int, nonce: string, since: int) {
    (gateway, nonce) in nonces && nonces[(gateway, nonce)] >= since
  }

  /** All that an admission for a gateway takes. */
  ghost predicate IsInOrder(r: Request, gateways: map<string, GatewayRow>, nonces: Nonces, tolerance: int,
                            checkTime: int,
                            purgeTime: int, gateway: int)
  {
    && HasAllHeaders(r) && r.code in gateways
    && gateways[r.code].id == gateway && gateways[r.code].status in {"ACTIVE", "ONLINE"}
    && r.expectedCode in {"", gateways[r.code].code}
    && r.value.Some? && checkTime - tolerance <= r.value.value <= checkTime + tolerance
    && r.bodyMatches && r.signatureMatches
    && !IsRecent(nonces, gateway, r.nonce, purgeTime - tolerance)
  }

  lemma HeadersPresent(r: Request)
    ensures HasAllHeaders(r) <==>
              r.code != "" && r.timestamp != "" && r.nonce != "" && r.bodySha256 != "" && r.signature != ""
  {
    var all := [r.code, r.timestamp, r.nonce, r.bodySha256, r.signature];
    assert all[0] in all && all[1] in all && all[2] in all && all[3] in all && all[4] in all;
  }

  /** A request is admitted for a gateway if and only if everything about it is in order. Then its nonce is stored with
      its timestamp and older entries are dropped; a refusal changes nothing. */
  lemma AdmittedExactly(r: Request, gateways: map<string, GatewayRow>, nonces: Nonces, tolerance: int, checkTime: int,
                        purgeTime: int, gateway: int)
    ensures var (verdict, after) := Verified(r, gateways, nonces, tolerance, checkTime, purgeTime);
            && (verdict == Admitted(gateway) <==>
                IsInOrder(r, gateways, nonces, tolerance, checkTime, purgeTime, gateway))
            && (verdict == Admitted(gateway) ==>
                after == (map k | k in nonces && nonces[k] >= purgeTime - tolerance :: nonces[k])
                         [(gateway, r.nonce) := r.value.value])
            && (!verdict.Admitted? ==> after == nonces)
  {
    hide HasAllHeaders;
    HeadersPresent(r);
    if IsInOrder(r, gateways, nonces, tolerance, checkTime, purgeTime, gateway) {
      assert Screened(r, gateways, tolerance, checkTime) == (Admitted(gateway), r.value.value);
      assert (gateway, r.nonce) !in Purged(nonces, purgeTime - tolerance);
    }
  }

  /** Why a request is refused: the first thing that is not in order. */
  lemma RefusedExactly(r: Request, gateways: map<string, GatewayRow>, nonces: Nonces, tolerance: int, checkTime: int,
                       purgeTime: int)
    ensures var verdict := Verified(r, gateways, nonces, tolerance, checkTime, purgeTime).0;
            && (verdict == MissingHeader <==> !HasAllHeaders(r))
            && (verdict == UnknownGateway <==> HasAllHeaders(r) && r.code !in gateways)
            && (HasAllHeaders(r) && r.code in gateways ==>
                var g := gateways[r.code];
                && (verdict == CodeMismatch <==> r.expectedCode !in {"", g.code})
                && (r.expectedCode in {"", g.code} ==>
                    && (verdict == GatewayDisabled <==> g.status !in {"ACTIVE", "ONLINE"})
                    && (g.status in {"ACTIVE", "ONLINE"} ==>
                        var timely := r.value.Some? && checkTime - tolerance <= r.value.value <= checkTime + tolerance;
                        && (verdict == BadTimestamp <==> !timely)
                        && (verdict == BadBodyHash <==> timely && !r.bodyMatches)
                        && (verdict == BadSignature <==> timely && r.bodyMatches && !r.signatureMatches)
                        && (verdict == ReplayedNonce <==>
                            timely && r.bodyMatches && r.signatureMatches
                            && IsRecent(nonces, g.id, r.nonce, purgeTime - tolerance)))))
  {
    hide HasAllHeaders;
    HeadersPresent(r);
    if r.code in gateways && Screened(r, gateways, tolerance, checkTime).0.Admitted? {
      assert (gateways[r.code].id, r.nonce) in Purged(nonces, purgeTime - tolerance) <==>
          IsRecent(nonces, gateways[r.code].id, r.nonce, purgeTime - tolerance);
    }
  }

  // ---- Runs

  /** A request with the clock readings it meets, the gateways of the moment, and whether its transaction commits. */
  datatype Event = Event(request: Request, gateways: map<string, GatewayRow>, checkTime: int, purgeTime: int,
                         commits: bool)

  function VerdictOf(e: Event, nonces: Nonces, tolerance: int): Verdict {
    Verified(e.request, e.gateways, nonces, tolerance, e.checkTime, e.purgeTime).0
  }

  /** The table after the first n requests. */
  function NoncesAfter(events: seq<Event>, tolerance: int, n: nat): Nonces
    requires n <= |events|
  {
    if n == 0 then map[]
    else
      var e, before := events[n - 1], NoncesAfter(events, tolerance, n - 1);
      if e.commits then Verified(e.request, e.gateways, before, tolerance, e.checkTime, e.purgeTime).1 else before
  }

  /** The gateway, nonce and timestamp with which request i was admitted. */
  ghost predicate AdmittedAs(events: seq<Event>, tolerance: int, i: nat, gateway: int, nonce: string, timestamp: int)
    requires i < |events|
  {
    var e := events[i];
    && VerdictOf(e, NoncesAfter(events, tolerance, i), tolerance) == Admitted(gateway)
    && e.request.nonce == nonce && e.request.value == Some(timestamp)
  }

  /** Everything about request j is in order except possibly its nonce. */
  ghost predicate PassesScreening(e: Event, tolerance: int, gateway: int, nonce: string, timestamp: int) {
    Screened(e.request, e.gateways, tolerance, e.checkTime) == (Admitted(gateway), timestamp)
      && e.request.nonce == nonce
  }

  /** The clock never runs backwards, from one request to the next and within a request. */
  ghost predicate Monotone(events: seq<Event>) {
    && (forall k | 0 <= k < |events| :: events[k].checkTime <= events[k].purgeTime)
    && (forall j, k | 0 <= j < k < |events| :: events[j].purgeTime <= events[k].checkTime)
  }

  lemma AdmittedPassed(events: seq<Event>, tolerance: int, i: nat, gateway: int, nonce: string, timestamp: int)
    requires i < |events| && AdmittedAs(events, tolerance, i, gateway, nonce, timestamp)
    ensures PassesScreening(events[i], tolerance, gateway, nonce, timestamp)
    ensures InWindow(timestamp, tolerance, events[i].checkTime)
  {
  }

  /** In every run what is admitted was in order, against the table of that moment. */
  lemma AdmittedInOrder(events: seq<Event>, tolerance: int, i: nat, gateway: int, nonce: string, timestamp: int)
    requires i < |events| && AdmittedAs(events, tolerance, i, gateway, nonce, timestamp)
    ensures var e := events[i];
            && IsInOrder(e.request, e.gateways, NoncesAfter(events, tolerance, i), tolerance, e.checkTime, e.purgeTime,
                         gateway)
            && e.request.nonce == nonce && e.request.value == Some(timestamp)
  {
    hide IsInOrder, Verified, NoncesAfter;
    var e := events[i];
    AdmittedExactly(e.request, e.gateways, NoncesAfter(events, tolerance, i), tolerance, e.checkTime, e.purgeTime,
                    gateway);
  }

  /** A committed entry stays in the table as long as no later request purges with a time beyond its window. */
  lemma {:induction false} EntryStays(events: seq<Event>, tolerance: int, i: nat, n: nat, gateway: int, nonce: string,
                                      timestamp: int)
    requires i < n <= |events| && AdmittedAs(events, tolerance, i, gateway, nonce, timestamp) && events[i].commits
    requires forall k | i < k < n :: events[k].purgeTime <= timestamp + tolerance
    ensures (gateway, nonce) in NoncesAfter(events, tolerance, n)
            && NoncesAfter(events, tolerance, n)[(gateway, nonce)] == timestamp
  {
    if n > i + 1 {
      EntryStays(events, tolerance, i, n - 1, gateway, nonce, timestamp);
    }
  }

  /** An admitted and committed request is admitted again exactly when its timestamp leaves the window between the two
      readings of the clock in the repetition. */
  lemma ReplayExactly(events: seq<Event>, tolerance: int, i: nat, j: nat, gateway: int, nonce: string, timestamp: int)
    requires Monotone(events) && i < j < |events| && events[i].commits
    requires AdmittedAs(events, tolerance, i, gateway, nonce, timestamp)
    requires PassesScreening(events[j], tolerance, gateway, nonce, timestamp)
    ensures AdmittedAs(events, tolerance, j, gateway, nonce, timestamp) <==> timestamp + tolerance < events[j].purgeTime
  {
    hide NoncesAfter;
    var e, nonces := events[j], NoncesAfter(events, tolerance, j);
    ScreenedInWindow(e, tolerance, gateway, nonce, timestamp);
    EntryStays(events, tolerance, i, j, gateway, nonce, timestamp);
    assert (gateway, nonce) in Purged(nonces, e.purgeTime - tolerance) <==> e.purgeTime <= timestamp + tolerance;
  }

  lemma ScreenedInWindow(e: Event, tolerance: int, gateway: int, nonce: string, timestamp: int)
    requires PassesScreening(e, tolerance, gateway, nonce, timestamp)
    ensures e.checkTime <= timestamp + tolerance && e.request.value == Some(timestamp)
  {
  }

  /** When both readings of a request agree, no run admits the same gateway, nonce and timestamp twice. */
  lemma NoReplay(events: seq<Event>, tolerance: int, i: nat, j: nat, gateway: int, nonce: string, timestamp: int)
    requires Monotone(events) && i < j < |events| && events[i].commits && events[j].checkTime == events[j].purgeTime
    requires AdmittedAs(events, tolerance, i, gateway, nonce, timestamp)
    ensures !AdmittedAs(events, tolerance, j, gateway, nonce, timestamp)
  {
    hide NoncesAfter, Monotone;
    if AdmittedAs(events, tolerance, j, gateway, nonce, timestamp) {
      AdmittedPassed(events, tolerance, j, gateway, nonce, timestamp);
      ScreenedInWindow(events[j], tolerance, gateway, nonce, timestamp);
      ReplayExactly(events, tolerance, i, j, gateway, nonce, timestamp);
    }
  }

  /** An admission that is rolled back leaves no trace, so the same request is admitted again. */
  lemma UncommittedReplays(events: seq<Event>, tolerance: int, i: nat, gateway: int, nonce: string, timestamp: int)
    requires i + 1 < |events| && !events[i].commits && events[i + 1] == events[i]
    requires AdmittedAs(events, tolerance, i, gateway, nonce, timestamp)
    ensures AdmittedAs(events, tolerance, i + 1, gateway, nonce, timestamp)
  {
    assert NoncesAfter(events, tolerance, i + 1) == NoncesAfter(events, tolerance, i);
  }

  // ---- Concrete runs

  function ActiveGateways(): map<string, GatewayRow> {
    map["GW001" := GatewayRow(7, "GW001", "ACTIVE")]
  }

  /** A request in order of gateway GW001, signed at 1000. */
  function SignedAt1000(): Request {
    Request("GW001", "1000", "n1", "hash", "mac", Some(1000), true, true, "")
  }

  lemma SignedAt1000Passes(checkTime: int)
    requires 700 <= checkTime <= 1300
    ensures Screened(SignedAt1000(), ActiveGateways(), 300, checkTime) == (Admitted(7), 1000)
  {
    var r := SignedAt1000();
    assert r.code[0] == 'G' && r.timestamp[0] == '1' && r.nonce[0] == 'n' && r.bodySha256[0] == 'h'
           && r.signature[0] == 'm';
  }

  /** A committed request of time 1000 comes again; it is checked at 1300, the last moment of its window, and purges at
      1301, when its own nonce has left the window. It is admitted again. */
  lemma ReplayAtTheEdge()
    ensures var first := Event(SignedAt1000(), ActiveGateways(), 1000, 1000, true);
            var again := Event(SignedAt1000(), ActiveGateways(), 1300, 1301, true);
            && Monotone([first, again])
            && AdmittedAs([first, again], 300, 0, 7, "n1", 1000) && AdmittedAs([first, again], 300, 1, 7, "n1", 1000)
  {
    hide Screened, ActiveGateways, NoncesAfter;
    var first := Event(SignedAt1000(), ActiveGateways(), 1000, 1000, true);
    var again := Event(SignedAt1000(), ActiveGateways(), 1300, 1301, true);
    SignedAt1000Passes(1000);
    SignedAt1000Passes(1300);
    AdmittedFirst(first, again);
    ReplayExactly([first, again], 300, 0, 1, 7, "n1", 1000);
  }

  lemma AdmittedFirst(first: Event, again: Event)
    requires Screened(first.request, first.gateways, 300, first.checkTime) == (Admitted(7), 1000)
    requires first.request == SignedAt1000()
    ensures AdmittedAs([first, again], 300, 0, 7, "n1", 1000)
  {
    hide Screened;
  }

  /** When the transaction of the first request does not commit, the repetition is admitted at once. */
  lemma ReplayAfterRollback()
    ensures var e := Event(SignedAt1000(), ActiveGateways(), 1000, 1000, false);
            AdmittedAs([e, e], 300, 0, 7, "n1", 1000) && AdmittedAs([e, e], 300, 1, 7, "n1", 1000)
  {
    hide Screened, ActiveGateways, NoncesAfter;
    var e := Event(SignedAt1000(), ActiveGateways(), 1000, 1000, false);
    SignedAt1000Passes(1000);
    AdmittedFirst(e, e);
    UncommittedReplays([e, e], 300, 0, 7, "n1", 1000);
  }
}
