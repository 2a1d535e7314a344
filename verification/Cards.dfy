/** What server and gateway share about access cards: credential types, statuses and the events between them. */
module Cards {
  import opened Options

  datatype Kind = CardUid | PhoneHce | GateNfcTag | GateQr

  datatype Status = Active | Lost | Replaced | Disabled | Expired

  predicate IsTerminal(s: Status) {
    s == Lost || s == Replaced || s == Disabled
  }

  /** What the server queues for a gateway: USER_ACCESS_CREDENTIAL_UPSERT, _DISABLED and _REPLACED with their payload,
      GATE_USER_AUTH_REQUESTED, and PARCEL_PICKUP_CONFIRMED. Optional fields of a payload are options; an absent
      credential value of a replacement is the empty string, as the code treats it. */
  datatype SyncEvent =
    | Upsert(value: string, userId: int, stationId: Option<int>, kind: Option<Kind>, status: Option<Status>)
    | Disable(value: string, status: Option<Status>, reason: Option<string>)
    | Replace(oldValue: string, newValue: string, userId: int, stationId: Option<int>, kind: Option<Kind>,
              reason: Option<string>)
    | AccessRequested(userId: int)
    | PickupConfirmed(parcelId: int)

  /** The event is about the card with this value. */
  predicate IsAbout(e: SyncEvent, value: string) {
    match e
    case Upsert(v, _, _, _, _) => v == value
    case Disable(v, _, _) => v == value
    case Replace(o, n, _, _, _, _) => (o != "" && o == value) || (n != "" && n == value)
    case AccessRequested(_) => false
    case PickupConfirmed(_) => false
  }

  /** The events that card issue, loss, replacement and disabling give rise to, and those about no card. */
  predicate IsLifecycle(e: SyncEvent) {
    match e
    case Upsert(_, _, _, _, status) => status == None || status == Some(Active)
    case Disable(_, status, _) => status == None || IsTerminal(status.value)
    case Replace(_, _, _, _, _, _) => true
    case AccessRequested(_) => true
    case PickupConfirmed(_) => true
  }
}
