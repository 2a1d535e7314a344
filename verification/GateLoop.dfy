/**
 The main loop of the gate: pages with deadlines, a latched card that must be taken away before it counts again,
 a cooldown between submissions, and polling for the result of a QR login. What the hardware and the network answer
 in an iteration is its input; all times are in microseconds.
 */
module GateLoop {
  import opened Options

  const GATE_AUTH_POLL_MS := 1000
  const UI_PAGE_TIMEOUT_MS := 10000
  const RESULT_PAGE_TIMEOUT_MS := 5000
  const CARD_REMOVE_CONFIRM_MS := 2000
  const CARD_DEBOUNCE_MS := 3000

  datatype Page = Menu | Qr | Result

  datatype Credential = Credential(kind: string, value: string)

  datatype PollError = PollOk | PollTimeout | PollFailed

  /** The page on the display, until when it is shown, and what is awaited on it. */
  datatype Ui = Ui(page: Page, deadlineUs: int, authTerminalShown: bool, qrAuthPending: bool)

  /** The credential that has been seen and not yet been taken away, and since when it is absent; 0 when it is not. */
  datatype Latch = Latch(on: bool, credential: Credential, absentSinceUs: int)

  datatype Submission = Submission(credential: Credential, atUs: int)

  /** The variables of the loop. */
  datatype State = State(ui: Ui, latch: Latch, last: Submission, lastAuthPollUs: int, loopCount: nat, pn532Ok: bool,
                         netOk: bool)

  /** What one iteration meets: the clock whenever it is read, a touch, the answer of the card reader, the answers of
      the network, and whether a restart of reader or network succeeds. */
  datatype Input = Input(nowUs: int, touched: bool, refreshOk: bool, touchUs: int,
                         pollError: PollError, present: bool, credential: Credential, isoDep: bool, readUs: int,
                         resultUs: int, readerStarts: bool, authOk: bool, authStatus: string, authUs: int,
                         netStarts: bool)

  /** Division of C, which truncates. */
  function Millis(us: int): int {
    if us >= 0 then us / 1000 else -((-us) / 1000)
  }

  const NOTHING := Credential("", "")

  function Initial(pn532Ok: bool, netOk: bool): State {
    State(Ui(Menu, 0, false, false), Latch(false, NOTHING, 0), Submission(NOTHING, 0), 0, 0, pn532Ok, netOk)
  }

  // ---- One iteration, part by part

  /** The page after its deadline and after a touch in the menu. */
  function UiBeforePoll(ui: Ui, netOk: bool, i: Input): Ui {
    var u := if ui.page != Menu && i.nowUs >= ui.deadlineUs then ui.(page := Menu, qrAuthPending := false) else ui;
    if i.touched && u.page == Menu
    then Ui(Qr, i.touchUs + UI_PAGE_TIMEOUT_MS * 1000, false, netOk && i.refreshOk)
    else u
  }

  function ResultPage(atUs: int): Ui {
    Ui(Result, atUs + RESULT_PAGE_TIMEOUT_MS * 1000, true, false)
  }

  predicate IsPresent(i: Input) {
    i.present && |i.credential.value| > 0
  }

  /** A card number read from a phone whose emulated card is the latched one. */
  predicate IsPhoneLeaving(isoDep: bool, kind: string, latchedKind: string) {
    isoDep && kind == "CARD_UID" && latchedKind == "PHONE_HCE"
  }

  predicate IsFallback(l: Latch, i: Input) {
    l.on && IsPhoneLeaving(i.isoDep, i.credential.kind, l.credential.kind)
  }

  predicate IsNew(l: Latch, i: Input) {
    !IsFallback(l, i) && (!l.on || i.credential != l.credential)
  }

  predicate IsDuplicate(last: Submission, i: Input) {
    i.credential == last.credential && Millis(i.readUs - last.atUs) < CARD_DEBOUNCE_MS
  }

  function LatchPolled(l: Latch, i: Input): Latch {
    if IsPresent(i) then (if IsNew(l, i) then Latch(true, i.credential, 0) else l.(absentSinceUs := 0))
    else if l.on then
      var since := if l.absentSinceUs == 0 then i.readUs else l.absentSinceUs;
      if Millis(i.readUs - since) >= CARD_REMOVE_CONFIRM_MS then Latch(false, NOTHING, 0)
      else l.(absentSinceUs := since)
    else l
  }

  /** The reader reports a credential. */
  predicate Sees(s: State, i: Input) {
    s.pn532Ok && IsPresent(i)
  }

  /** The credential that the iteration posts to the gateway. */
  function Posted(s: State, i: Input): Option<Credential> {
    if Sees(s, i) && IsNew(s.latch, i) && !IsDuplicate(s.last, i) then Some(i.credential) else None
  }

  function LatchAfter(s: State, i: Input): Latch {
    if s.pn532Ok then LatchPolled(s.latch, i) else s.latch
  }

  function LastAfter(s: State, i: Input): Submission {
    if Posted(s, i).Some? then Submission(i.credential, i.readUs) else s.last
  }

  function UiAfterPoll(s: State, i: Input): Ui {
    if Posted(s, i).Some? then ResultPage(i.resultUs) else UiBeforePoll(s.ui, s.netOk, i)
  }

  predicate PollsAuth(s: State, i: Input) {
    s.netOk && UiAfterPoll(s, i).qrAuthPending && Millis(i.nowUs - s.lastAuthPollUs) >= GATE_AUTH_POLL_MS
  }

  predicate IsFinal(status: string) {
    status == "GRANTED" || status == "DENIED" || status == "EXPIRED"
  }

  predicate IsTerminal(i: Input) {
    i.authOk && IsFinal(i.authStatus)
  }

  /** The iteration shows the result of a QR login. */
  predicate ShowsAuth(s: State, i: Input) {
    PollsAuth(s, i) && IsTerminal(i) && !UiAfterPoll(s, i).authTerminalShown
  }

  function UiAfter(s: State, i: Input): Ui {
    if ShowsAuth(s, i) then ResultPage(i.authUs) else UiAfterPoll(s, i)
  }

  function ReaderAfter(s: State, i: Input): bool {
    if s.pn532Ok then i.pollError != PollFailed else if (s.loopCount + 1) % 20 == 0 then i.readerStarts else false
  }

  function NetAfter(s: State, i: Input): bool {
    s.netOk || ((s.loopCount + 1) % 30 == 0 && i.netStarts)
  }

  function Step(s: State, i: Input): State {
    State(UiAfter(s, i), LatchAfter(s, i), LastAfter(s, i), if PollsAuth(s, i) then i.nowUs else s.lastAuthPollUs,
          s.loopCount + 1, ReaderAfter(s, i), NetAfter(s, i))
  }

  // ---- The loop

  class Gate {
    var page: Page
    var pageDeadlineUs: int
    var cardLatched: bool
    var latched: Credential
    var lastSubmitted: Credential
    var lastSubmitUs: int
    var lastAuthPollUs: int
    var cardAbsentSinceUs: int
    var authTerminalShown: bool
    var qrAuthPending: bool
    var loopCount: nat
    var pn532Ok: bool
    var netOk: bool

    ghost function UiVars(): Ui
      reads this
    {
      Ui(page, pageDeadlineUs, authTerminalShown, qrAuthPending)
    }

    ghost function LatchVars(): Latch
      reads this
    {
      Latch(cardLatched, latched, cardAbsentSinceUs)
    }

    ghost function Vars(): State
      reads this
    {
      State(UiVars(), LatchVars(), Submission(lastSubmitted, lastSubmitUs), lastAuthPollUs, loopCount, pn532Ok, netOk)
    }

    constructor (pn532Ok: bool, netOk: bool)
      ensures Vars() == Initial(pn532Ok, netOk)
    {
      page, pageDeadlineUs, cardLatched, latched, lastSubmitted := Menu, 0, false, NOTHING, NOTHING;
      lastSubmitUs, lastAuthPollUs, cardAbsentSinceUs := 0, 0, 0;
      authTerminalShown, qrAuthPending, loopCount := false, false, 0;
      this.pn532Ok, this.netOk := pn532Ok, netOk;
    }

    /** One iteration of the loop in gate_main_task. */
    method Iterate(i: Input) returns (posted: Option<Credential>, shown: bool)
      modifies this
      ensures Vars() == Step(old(Vars()), i)
      ensures posted == Posted(old(Vars()), i) && shown == ShowsAuth(old(Vars()), i)
    {
      hide Millis, IsTerminal, ResultPage, Posted, UiAfterPoll, LatchAfter, LastAfter, ReaderAfter;
      posted := PagesAndCard(i);
      shown := AuthPolled(i);
      if loopCount % 30 == 0 && !netOk {
        netOk := i.netStarts;
      }
    }

    /** The first half of the iteration: pages, and the card reader. */
    method PagesAndCard(i: Input) returns (posted: Option<Credential>)
      modifies this
      ensures loopCount == old(loopCount) + 1 && (netOk, lastAuthPollUs) == old((netOk, lastAuthPollUs))
      ensures var s := old(Vars());
              && posted == Posted(s, i) && UiVars() == UiAfterPoll(s, i) && LatchVars() == LatchAfter(s, i)
              && Submission(lastSubmitted, lastSubmitUs) == LastAfter(s, i) && pn532Ok == ReaderAfter(s, i)
    {
      hide Millis, IsPhoneLeaving, LatchPolled, IsDuplicate, IsNew, IsPresent, UiBeforePoll, ResultPage;
      loopCount := loopCount + 1;
      PageAndTouch(i);
      posted := None;
      if pn532Ok {
        pn532Ok := i.pollError != PollFailed;
        posted := CardPolled(i);
      } else if loopCount % 20 == 0 {
        pn532Ok := i.readerStarts;
      }
    }

    /** The page times out, or a touch in the menu opens the QR page. */
    method PageAndTouch(i: Input)
      modifies `page, `pageDeadlineUs, `authTerminalShown, `qrAuthPending
      ensures UiVars() == UiBeforePoll(old(UiVars()), netOk, i)
    {
      if page != Menu && i.nowUs >= pageDeadlineUs {
        page := Menu;
        qrAuthPending := false;
      }
      if page == Menu && i.touched {
        var qrOk := netOk && i.refreshOk;
        page := Qr;
        pageDeadlineUs := i.touchUs + UI_PAGE_TIMEOUT_MS * 1000;
        authTerminalShown := false;
        qrAuthPending := qrOk;
      }
    }

    /** The poll for the result of a QR login. */
    method AuthPolled(i: Input) returns (shown: bool)
      modifies `page, `pageDeadlineUs, `authTerminalShown, `qrAuthPending, `lastAuthPollUs
      ensures var polls := netOk && old(qrAuthPending) && Millis(i.nowUs - old(lastAuthPollUs)) >= GATE_AUTH_POLL_MS;
              && lastAuthPollUs == (if polls then i.nowUs else old(lastAuthPollUs))
              && shown == (polls && IsTerminal(i) && !old(authTerminalShown))
      ensures UiVars() == if shown then ResultPage(i.authUs) else old(UiVars())
    {
      hide Millis, IsFinal;
      shown := false;
      if netOk && qrAuthPending && Millis(i.nowUs - lastAuthPollUs) >= GATE_AUTH_POLL_MS {
        lastAuthPollUs := i.nowUs;
        var terminal := i.authOk && IsFinal(i.authStatus);
        if terminal && !authTerminalShown {
          shown := true;
          page := Result;
          pageDeadlineUs := i.authUs + RESULT_PAGE_TIMEOUT_MS * 1000;
          authTerminalShown := true;
          qrAuthPending := false;
        }
      }
    }

    /** What the loop does with the answer of the card reader. */
    method CardPolled(i: Input) returns (posted: Option<Credential>)
      modifies `cardLatched, `latched, `cardAbsentSinceUs, `lastSubmitted, `lastSubmitUs, `page, `pageDeadlineUs,
               `authTerminalShown, `qrAuthPending
      ensures LatchVars() == LatchPolled(old(LatchVars()), i)
      ensures posted == old(if && IsPresent(i) && IsNew(LatchVars(), i)
                               && !IsDuplicate(Submission(lastSubmitted, lastSubmitUs), i)
                            then Some(i.credential) else None)
      ensures (lastSubmitted, lastSubmitUs) ==
              if posted.Some? then (i.credential, i.readUs) else old((lastSubmitted, lastSubmitUs))
      ensures UiVars() == if posted.Some? then ResultPage(i.resultUs) else old(UiVars())
    {
      hide Millis, IsPhoneLeaving;
      posted := None;
      if IsPresent(i) {
        cardAbsentSinceUs := 0;
        var fallback := cardLatched && IsPhoneLeaving(i.isoDep, i.credential.kind, latched.kind);
        if fallback {
          return;
        } else if !cardLatched || i.credential.kind != latched.kind || i.credential.value != latched.value {
          cardLatched := true;
          latched := i.credential;
          var duplicate := i.credential == lastSubmitted && Millis(i.readUs - lastSubmitUs) < CARD_DEBOUNCE_MS;
          if !duplicate {
            lastSubmitted := i.credential;
            lastSubmitUs := i.readUs;
            posted := Some(i.credential);
            page := Result;
            pageDeadlineUs := i.resultUs + RESULT_PAGE_TIMEOUT_MS * 1000;
            authTerminalShown := true;
            qrAuthPending := false;
          }
        }
      } else if cardLatched {
        if cardAbsentSinceUs == 0 {
          cardAbsentSinceUs := i.readUs;
        }
        if Millis(i.readUs - cardAbsentSinceUs) >= CARD_REMOVE_CONFIRM_MS {
          cardLatched := false;
          latched := NOTHING;
          cardAbsentSinceUs := 0;
        }
      }
    }
  }

  // ---- Runs

  /** The variables before iteration n. */
  function Before(s: State, inputs: seq<Input>, n: nat): State
    requires n <= |inputs|
  {
    if n == 0 then s else Step(Before(s, inputs, n - 1), inputs[n - 1])
  }

  /** A QR login is awaited only on the QR page, and only while no final result has been shown. */
  predicate PendingOnQrPage(ui: Ui) {
    ui.qrAuthPending ==> ui.page == Qr && !ui.authTerminalShown
  }

  lemma PendingKept(s: State, i: Input)
    requires PendingOnQrPage(s.ui)
    ensures PendingOnQrPage(UiBeforePoll(s.ui, s.netOk, i)) && PendingOnQrPage(UiAfterPoll(s, i))
            && PendingOnQrPage(Step(s, i).ui)
  {
    hide Posted, Millis, IsFinal, LatchAfter;
  }

  lemma {:induction false} AlwaysPendingOnQrPage(pn532Ok: bool, netOk: bool, inputs: seq<Input>, n: nat)
    requires n <= |inputs|
    ensures PendingOnQrPage(Before(Initial(pn532Ok, netOk), inputs, n).ui)
  {
    hide Step;
    if n > 0 {
      AlwaysPendingOnQrPage(pn532Ok, netOk, inputs, n - 1);
      PendingKept(Before(Initial(pn532Ok, netOk), inputs, n - 1), inputs[n - 1]);
    }
  }

  /** A final answer to a poll for the QR login is always shown, and the QR page is open when it comes. */
  lemma AuthAnswersAreShown(pn532Ok: bool, netOk: bool, inputs: seq<Input>, n: nat)
    requires n < |inputs|
    ensures var s, i := Before(Initial(pn532Ok, netOk), inputs, n), inputs[n];
            PollsAuth(s, i) ==> UiAfterPoll(s, i).page == Qr && (ShowsAuth(s, i) <==> IsTerminal(i))
  {
    hide Step;
    AlwaysPendingOnQrPage(pn532Ok, netOk, inputs, n);
    PendingKept(Before(Initial(pn532Ok, netOk), inputs, n), inputs[n]);
  }

  /** A touch in the menu opens the QR page with a fresh code. */
  predicate OpensQr(s: State, i: Input) {
    i.touched && (s.ui.page == Menu || i.nowUs >= s.ui.deadlineUs) && s.netOk && i.refreshOk
  }

  lemma {:induction false} PendingNeedsTouch(s: State, inputs: seq<Input>, m: nat, n: nat)
    requires m <= n <= |inputs| && !Before(s, inputs, m).ui.qrAuthPending
    requires forall k: nat | m <= k < n :: !OpensQr(Before(s, inputs, k), inputs[k])
    ensures !Before(s, inputs, n).ui.qrAuthPending
    decreases n
  {
    hide Step, OpensQr;
    if m < n {
      PendingNeedsTouch(s, inputs, m, n - 1);
      NotPendingNext(Before(s, inputs, n - 1), inputs[n - 1]);
    }
  }

  lemma NotPendingNext(s: State, i: Input)
    requires !s.ui.qrAuthPending && !OpensQr(s, i)
    ensures !Step(s, i).ui.qrAuthPending
  {
    hide Posted, PollsAuth, LatchAfter, LastAfter, IsTerminal;
  }

  /** Between two results of QR logins that are shown, the QR page has been opened by a touch. */
  lemma EachResultNeedsATouch(s: State, inputs: seq<Input>, i: nat, j: nat)
    requires i < j < |inputs|
    requires ShowsAuth(Before(s, inputs, i), inputs[i]) && ShowsAuth(Before(s, inputs, j), inputs[j])
    ensures exists k: nat :: i < k <= j && OpensQr(Before(s, inputs, k), inputs[k])
  {
    hide Step, ShowsAuth, OpensQr, Before;
    NextState(s, inputs, i);
    ShownIsPending(Before(s, inputs, i), inputs[i]);
    ShownIsPending(Before(s, inputs, j), inputs[j]);
    if forall k: nat | i < k <= j :: !OpensQr(Before(s, inputs, k), inputs[k]) {
      PendingNeedsTouch(s, inputs, i + 1, j);
    }
  }

  lemma NextState(s: State, inputs: seq<Input>, n: nat)
    requires n < |inputs|
    ensures Before(s, inputs, n + 1) == Step(Before(s, inputs, n), inputs[n])
  {
  }

  lemma ShownIsPending(s: State, i: Input)
    requires ShowsAuth(s, i)
    ensures (s.ui.qrAuthPending || OpensQr(s, i)) && !Step(s, i).ui.qrAuthPending
  {
    hide IsNew, IsDuplicate, IsPresent, IsTerminal, Millis, LatchPolled;
  }

  // ---- Cooldown

  ghost predicate NoPostBetween(s: State, inputs: seq<Input>, i: nat, j: nat) {
    j <= |inputs| && forall k: nat | i < k < j :: Posted(Before(s, inputs, k), inputs[k]) == None
  }

  lemma {:induction false} LastSubmissionStays(s: State, inputs: seq<Input>, i: nat, j: nat)
    requires i < j <= |inputs| && Posted(Before(s, inputs, i), inputs[i]).Some? && NoPostBetween(s, inputs, i, j)
    ensures Before(s, inputs, j).last == Submission(inputs[i].credential, inputs[i].readUs)
    decreases j
  {
    hide Posted, UiAfter, LatchAfter, PollsAuth;
    if j > i + 1 {
      LastSubmissionStays(s, inputs, i, j - 1);
    }
  }

  /** Two consecutive posts of the same credential are at least 3000 ms apart. */
  lemma PostsAreApart(s: State, inputs: seq<Input>, i: nat, j: nat, c: Credential)
    requires i < j < |inputs| && NoPostBetween(s, inputs, i, j)
    requires Posted(Before(s, inputs, i), inputs[i]) == Some(c) == Posted(Before(s, inputs, j), inputs[j])
    ensures inputs[j].readUs - inputs[i].readUs >= CARD_DEBOUNCE_MS * 1000
  {
    LastSubmissionStays(s, inputs, i, j);
  }

  /** Iteration i posts the credential, and no iteration between i and j does. */
  ghost predicate IsLastPost(s: State, inputs: seq<Input>, i: nat, j: nat, c: Credential) {
    && i < j <= |inputs| && Posted(Before(s, inputs, i), inputs[i]) == Some(c)
    && forall k: nat | i < k < j :: Posted(Before(s, inputs, k), inputs[k]) != Some(c)
  }

  lemma {:induction false} LastSubmissionIs(s: State, inputs: seq<Input>, i: nat, j: nat, c: Credential)
    requires IsLastPost(s, inputs, i, j, c)
    ensures if NoPostBetween(s, inputs, i, j) then Before(s, inputs, j).last == Submission(c, inputs[i].readUs)
            else Before(s, inputs, j).last.credential != c
    decreases j
  {
    hide Posted, UiAfter, LatchAfter, PollsAuth;
    PostedIs(Before(s, inputs, j - 1), inputs[j - 1]);
    if j > i + 1 {
      LastSubmissionIs(s, inputs, i, j - 1, c);
    }
  }

  lemma PostedIs(s: State, i: Input)
    ensures Posted(s, i).Some? ==> Posted(s, i) == Some(i.credential)
  {
  }

  /** A credential that the loop takes for new is posted again exactly when another one has been posted in between or
      3000 ms have passed since its last post. */
  lemma PostedAgainExactly(s: State, inputs: seq<Input>, i: nat, j: nat, c: Credential)
    requires j < |inputs| && IsLastPost(s, inputs, i, j, c) && inputs[j].credential == c
    requires Sees(Before(s, inputs, j), inputs[j]) && IsNew(Before(s, inputs, j).latch, inputs[j])
    ensures Posted(Before(s, inputs, j), inputs[j]) == Some(c) <==>
              !NoPostBetween(s, inputs, i, j) || inputs[j].readUs - inputs[i].readUs >= CARD_DEBOUNCE_MS * 1000
  {
    hide NoPostBetween, Sees, IsNew, Before;
    LastSubmissionIs(s, inputs, i, j, c);
  }

  /** Two cards held to the reader in turn are posted in turn, whatever the cooldown says. */
  lemma AlternatingCardsAreNotApart(s: State, a: Input, b: Input)
    requires IsPresent(a) && IsPresent(b) && !a.isoDep && !b.isoDep && a.pollError == PollOk == b.pollError
    requires a.credential != b.credential && Posted(s, a).Some?
    ensures Posted(Step(s, a), b) == Some(b.credential)
    ensures Posted(Step(Step(s, a), b), a) == Some(a.credential)
  {
    hide UiAfter, PollsAuth, Millis, NetAfter;
    assert !IsPhoneLeaving(a.isoDep, a.credential.kind, b.credential.kind);
    assert !IsPhoneLeaving(b.isoDep, b.credential.kind, a.credential.kind);
    hide IsPhoneLeaving;
  }

  /** The reader reports a card at the given time. */
  function CardAt(value: string, us: int): Input {
    Input(us, false, false, us, PollOk, true, Credential("CARD_UID", value), false, us, us, false, false, "", us, false)
  }

  /** From the start of the loop: card 04AA, card 04BB and card 04AA again, 100 ms apart, and all three are posted. */
  lemma PostedTwiceWithin200Ms()
    ensures var inputs := [CardAt("04AA", 5000000), CardAt("04BB", 5100000), CardAt("04AA", 5200000)];
            && Posted(Before(Initial(true, true), inputs, 0), inputs[0]) == Some(Credential("CARD_UID", "04AA"))
            && Posted(Before(Initial(true, true), inputs, 1), inputs[1]) == Some(Credential("CARD_UID", "04BB"))
            && Posted(Before(Initial(true, true), inputs, 2), inputs[2]) == Some(Credential("CARD_UID", "04AA"))
            && inputs[2].readUs - inputs[0].readUs == 200000
  {
    var s, a, b := Initial(true, true), CardAt("04AA", 5000000), CardAt("04BB", 5100000);
    var inputs := [a, b, CardAt("04AA", 5200000)];
    assert a.credential.value[0] == '0' && a.credential.value[2] != b.credential.value[2];
    assert Before(s, inputs, 0) == s;
    assert Before(s, inputs, 1) == Step(s, a);
    assert Before(s, inputs, 2) == Step(Step(s, a), b);
  }

  // ---- Taking the card away

  ghost predicate Quiet(s: State, inputs: seq<Input>, a: nat, b: nat) {
    b <= |inputs| && forall k: nat | a <= k < b :: !Sees(Before(s, inputs, k), inputs[k])
  }

  /** Between iterations i and j there is a stretch of 2000 ms in which no poll reports a card. */
  ghost predicate TakenAway(s: State, inputs: seq<Input>, i: nat, j: nat) {
    j <= |inputs| && exists a: nat, b: nat :: IsAbsence(s, inputs, i, j, a, b)
  }

  ghost predicate IsAbsence(s: State, inputs: seq<Input>, i: nat, j: nat, a: nat, b: nat)
    requires j <= |inputs|
  {
    && i < a <= b < j && Quiet(s, inputs, a, b + 1)
    && inputs[b].readUs - inputs[a].readUs >= CARD_REMOVE_CONFIRM_MS * 1000
  }

  /** Between iterations i and j the reader reports no other credential, or one that the loop ignores. */
  ghost predicate OnlyThisCard(s: State, inputs: seq<Input>, i: nat, j: nat, c: Credential) {
    j <= |inputs| && forall k: nat | i < k < j && Sees(Before(s, inputs, k), inputs[k]) ::
      inputs[k].credential == c || IsFallback(Before(s, inputs, k).latch, inputs[k])
  }

  /** The card is latched, and the time since which it is absent is that of a poll with nothing reported since. */
  ghost predicate Held(s: State, inputs: seq<Input>, i: nat, n: nat, c: Credential)
    requires n <= |inputs|
  {
    var l := Before(s, inputs, n).latch;
    && l.on && l.credential == c
    && (l.absentSinceUs != 0 ==>
        exists a: nat :: i < a < n && Quiet(s, inputs, a, n) && inputs[a].readUs == l.absentSinceUs)
  }

  /** What one iteration does to the latch while its card or nothing is reported. */
  lemma LatchStep(s: State, i: Input, c: Credential)
    requires s.latch.on && s.latch.credential == c && (Sees(s, i) ==> i.credential == c || IsFallback(s.latch, i))
    ensures var since := if s.latch.absentSinceUs == 0 then i.readUs else s.latch.absentSinceUs;
            || Step(s, i).latch == s.latch.(absentSinceUs := if Sees(s, i) then 0
                                                             else if s.pn532Ok then since
                                                             else s.latch.absentSinceUs)
            || (!Sees(s, i) && i.readUs - since >= CARD_REMOVE_CONFIRM_MS * 1000)
  {
    hide UiAfter, PollsAuth, LastAfter, IsPhoneLeaving;
  }

  lemma LatchAfterPost(s: State, i: Input, c: Credential)
    requires Posted(s, i) == Some(c)
    ensures Step(s, i).latch == Latch(true, c, 0)
  {
    hide UiAfter, PollsAuth, LastAfter, IsPhoneLeaving, Millis;
  }

  lemma LatchedIsNotPosted(s: State, i: Input, c: Credential)
    requires s.latch.on && s.latch.credential == c
    ensures Posted(s, i) != Some(c)
  {
  }

  lemma {:induction false} HeldUntilTakenAway(s: State, inputs: seq<Input>, i: nat, n: nat, c: Credential)
    requires i < n <= |inputs| && Posted(Before(s, inputs, i), inputs[i]) == Some(c) && OnlyThisCard(s, inputs, i, n, c)
    ensures Held(s, inputs, i, n, c) || TakenAway(s, inputs, i, n)
    decreases n
  {
    hide Step, Posted, Sees, IsFallback;
    if n == i + 1 {
      LatchAfterPost(Before(s, inputs, i), inputs[i], c);
    } else {
      HeldUntilTakenAway(s, inputs, i, n - 1, c);
      if TakenAway(s, inputs, i, n - 1) {
        TakenAwayLater(s, inputs, i, n - 1);
      } else {
        HeldNext(s, inputs, i, n - 1, c);
      }
    }
  }

  lemma TakenAwayLater(s: State, inputs: seq<Input>, i: nat, n: nat)
    requires n < |inputs| && TakenAway(s, inputs, i, n)
    ensures TakenAway(s, inputs, i, n + 1)
  {
    hide Quiet;
    var a: nat, b: nat :| IsAbsence(s, inputs, i, n, a, b);
    assert IsAbsence(s, inputs, i, n + 1, a, b);
  }

  lemma HeldNext(s: State, inputs: seq<Input>, i: nat, n: nat, c: Credential)
    requires i < n < |inputs| && Held(s, inputs, i, n, c) && OnlyThisCard(s, inputs, i, n + 1, c)
    ensures Held(s, inputs, i, n + 1, c) || TakenAway(s, inputs, i, n + 1)
  {
    hide Step, Sees, IsFallback;
    var t := Before(s, inputs, n);
    LatchStep(t, inputs[n], c);
    assert Before(s, inputs, n + 1) == Step(t, inputs[n]);
    if !Sees(t, inputs[n]) {
      var a: nat := n;
      if t.latch.absentSinceUs != 0 {
        a :| i < a < n && Quiet(s, inputs, a, n) && inputs[a].readUs == t.latch.absentSinceUs;
      }
      assert Quiet(s, inputs, a, n + 1);
      if inputs[n].readUs - inputs[a].readUs >= CARD_REMOVE_CONFIRM_MS * 1000 {
        assert IsAbsence(s, inputs, i, n + 1, a, n);
      }
    }
  }

  /** Between two posts of one credential, with no other credential detected in between, there is a stretch of at least
      2000 ms in which no poll reports a card. */
  lemma TakenAwayBetweenPosts(s: State, inputs: seq<Input>, i: nat, j: nat, c: Credential)
    requires i < j < |inputs| && OnlyThisCard(s, inputs, i, j, c)
    requires Posted(Before(s, inputs, i), inputs[i]) == Some(c) == Posted(Before(s, inputs, j), inputs[j])
    ensures TakenAway(s, inputs, i, j)
  {
    hide Posted, TakenAway;
    HeldUntilTakenAway(s, inputs, i, j, c);
    if Held(s, inputs, i, j, c) {
      LatchedIsNotPosted(Before(s, inputs, j), inputs[j], c);
    }
  }

  // ---- Putting the card back

  /** The reader works at iteration k, and the clock does not read 0, which stands for no time. */
  ghost predicate IsPoll(s: State, inputs: seq<Input>, k: nat)
    requires k < |inputs|
  {
    Before(s, inputs, k).pn532Ok && inputs[k].readUs != 0
  }

  /** Poll a is the first one after iteration i. */
  ghost predicate IsFirstPoll(s: State, inputs: seq<Input>, i: nat, a: nat) {
    && i < a < |inputs| && IsPoll(s, inputs, a)
    && forall k: nat | i < k < a :: !IsPoll(s, inputs, k)
  }

  /** Before iteration n a poll has come 2000 ms or more after the first one after iteration i. */
  ghost predicate IsRearmed(s: State, inputs: seq<Input>, i: nat, n: nat) {
    n <= |inputs| && exists a: nat, b: nat :: IsRelease(s, inputs, i, n, a, b)
  }

  ghost predicate IsRelease(s: State, inputs: seq<Input>, i: nat, n: nat, a: nat, b: nat)
    requires n <= |inputs|
  {
    && a <= b < n && IsFirstPoll(s, inputs, i, a) && Before(s, inputs, b).pn532Ok
    && inputs[b].readUs - inputs[a].readUs >= 2000 * 1000
  }

  /** Since when a latched card is absent: the time of the first poll after iteration i, or 0 before that. */
  ghost predicate AwaySince(s: State, inputs: seq<Input>, i: nat, n: nat, sinceUs: int)
    requires n <= |inputs|
  {
    if sinceUs == 0 then forall k: nat | i < k < n :: !IsPoll(s, inputs, k)
    else exists a: nat :: a < n && IsFirstPoll(s, inputs, i, a) && inputs[a].readUs == sinceUs
  }

  /** A poll reports a credential when the reader works, says that one is there, and gives it a value. */
  lemma SeesExactly(s: State, i: Input)
    ensures Sees(s, i) <==> s.pn532Ok && i.present && i.credential.value != ""
  {
  }

  /** What a poll that reports nothing does to a latch. */
  lemma NothingReported(s: State, i: Input)
    requires !(s.pn532Ok && i.present && i.credential.value != "")
    ensures Posted(s, i) == None
    ensures !s.latch.on ==> Step(s, i).latch == s.latch
    ensures !s.pn532Ok ==> Step(s, i).latch == s.latch
    ensures s.pn532Ok && s.latch.on ==>
              var since := if s.latch.absentSinceUs == 0 then i.readUs else s.latch.absentSinceUs;
              Step(s, i).latch == if i.readUs - since >= 2000 * 1000 then Latch(false, NOTHING, 0)
                                  else s.latch.(absentSinceUs := since)
  {
    hide UiAfter, PollsAuth, LastAfter, IsPhoneLeaving;
  }

  /** While nothing is reported, a card stays latched until the first release, and no longer. */
  lemma {:induction false} LatchWhileAway(s: State, inputs: seq<Input>, i: nat, n: nat, c: Credential)
    requires i < n <= |inputs| && Before(s, inputs, i + 1).latch == Latch(true, c, 0) && Quiet(s, inputs, i + 1, n)
    ensures var l := Before(s, inputs, n).latch;
            if IsRearmed(s, inputs, i, n) then !l.on
            else l.on && l.credential == c && AwaySince(s, inputs, i, n, l.absentSinceUs)
    decreases n
  {
    hide Step, Sees, IsRearmed, AwaySince, IsPoll;
    if n == i + 1 {
      NotYetAway(s, inputs, i);
    } else {
      LatchWhileAway(s, inputs, i, n - 1, c);
      SeesExactly(Before(s, inputs, n - 1), inputs[n - 1]);
      NothingReported(Before(s, inputs, n - 1), inputs[n - 1]);
      if IsRearmed(s, inputs, i, n - 1) {
        RearmedLater(s, inputs, i, n - 1);
      } else {
        AwayNext(s, inputs, i, n - 1, Before(s, inputs, n - 1).latch.absentSinceUs);
      }
    }
  }

  lemma NotYetAway(s: State, inputs: seq<Input>, i: nat)
    requires i < |inputs|
    ensures AwaySince(s, inputs, i, i + 1, 0) && !IsRearmed(s, inputs, i, i + 1)
  {
    hide IsPoll;
  }

  lemma RearmedLater(s: State, inputs: seq<Input>, i: nat, n: nat)
    requires n < |inputs| && IsRearmed(s, inputs, i, n)
    ensures IsRearmed(s, inputs, i, n + 1)
  {
    hide IsFirstPoll, Before;
    var a: nat, b: nat :| IsRelease(s, inputs, i, n, a, b);
    assert IsRelease(s, inputs, i, n + 1, a, b);
  }

  /** One more iteration of absence. */
  lemma AwayNext(s: State, inputs: seq<Input>, i: nat, n: nat, sinceUs: int)
    requires i < n < |inputs| && AwaySince(s, inputs, i, n, sinceUs) && !IsRearmed(s, inputs, i, n)
    ensures var ok, next := Before(s, inputs, n).pn532Ok, if sinceUs == 0 then inputs[n].readUs else sinceUs;
            && (IsRearmed(s, inputs, i, n + 1) <==> ok && inputs[n].readUs - next >= 2000 * 1000)
            && AwaySince(s, inputs, i, n + 1, if ok then next else sinceUs)
  {
    hide Before;
    var next := if sinceUs == 0 then inputs[n].readUs else sinceUs;
    if IsRearmed(s, inputs, i, n + 1) {
      var a: nat, b: nat :| IsRelease(s, inputs, i, n + 1, a, b);
      assert b < n ==> IsRelease(s, inputs, i, n, a, b);
    }
    if sinceUs == 0 {
      if IsPoll(s, inputs, n) {
        assert IsFirstPoll(s, inputs, i, n);
      }
    } else {
      var a: nat :| a < n && IsFirstPoll(s, inputs, i, a) && inputs[a].readUs == sinceUs;
      OneFirstPoll(s, inputs, i, a);
      if Before(s, inputs, n).pn532Ok && inputs[n].readUs - next >= 2000 * 1000 {
        assert IsRelease(s, inputs, i, n + 1, a, n);
      }
    }
  }

  lemma OneFirstPoll(s: State, inputs: seq<Input>, i: nat, a: nat)
    requires IsFirstPoll(s, inputs, i, a)
    ensures forall b: nat | IsFirstPoll(s, inputs, i, b) :: b == a
  {
    hide IsPoll;
  }

  /** After a card has been reported and latched, and then nothing, the next report of it counts as new if and only if
      the reader has been polled 2000 ms or more after its first poll without the card. */
  lemma NewAgainExactly(s: State, inputs: seq<Input>, i: nat, j: nat, c: Credential)
    requires i < j < |inputs| && Before(s, inputs, i + 1).latch == Latch(true, c, 0) && Quiet(s, inputs, i + 1, j)
    requires inputs[j].credential == c
    ensures IsNew(Before(s, inputs, j).latch, inputs[j]) <==> IsRearmed(s, inputs, i, j)
  {
    hide Before, Quiet, IsRearmed, AwaySince;
    LatchWhileAway(s, inputs, i, j, c);
  }

  /** A card that has been taken away for long enough and comes back is posted exactly when another one has been posted
      since its last post or 3000 ms have passed. */
  lemma PutBackExactly(s: State, inputs: seq<Input>, p: nat, i: nat, j: nat, c: Credential)
    requires i < j < |inputs| && Before(s, inputs, i + 1).latch == Latch(true, c, 0) && Quiet(s, inputs, i + 1, j)
    requires IsRearmed(s, inputs, i, j) && Sees(Before(s, inputs, j), inputs[j]) && inputs[j].credential == c
    requires IsLastPost(s, inputs, p, j, c)
    ensures Posted(Before(s, inputs, j), inputs[j]) == Some(c) <==>
              !NoPostBetween(s, inputs, p, j) || inputs[j].readUs - inputs[p].readUs >= 3000 * 1000
  {
    hide Before, Quiet, IsRearmed, Sees, IsNew, IsLastPost, NoPostBetween, Posted;
    NewAgainExactly(s, inputs, i, j, c);
    PostedAgainExactly(s, inputs, p, j, c);
  }

  /** The reader reports nothing at the given time. */
  function NothingAt(us: int): Input {
    CardAt("", us).(present := false)
  }

  /** From the start of the loop: a card at 5 s, nothing at 6 s and at 9 s, and the card again at 10 s, which is posted
      again. */
  lemma PostedAgainAfterAbsence()
    ensures var inputs := [CardAt("04AA", 5000000), NothingAt(6000000), NothingAt(9000000), CardAt("04AA", 10000000)];
            && Posted(Before(Initial(true, true), inputs, 0), inputs[0]) == Some(Credential("CARD_UID", "04AA"))
            && Posted(Before(Initial(true, true), inputs, 3), inputs[3]) == Some(Credential("CARD_UID", "04AA"))
  {
    hide Step, Posted, Sees;
    var s, a := Initial(true, true), CardAt("04AA", 5000000);
    var inputs := [a, NothingAt(6000000), NothingAt(9000000), CardAt("04AA", 10000000)];
    var c := a.credential;
    var s1 := Step(s, a);
    assert Before(s, inputs, 0) == s && Before(s, inputs, 1) == s1;
    FirstCard(s, a);
    var s2 := Step(s1, inputs[1]);
    assert Before(s, inputs, 2) == s2;
    CardStaysAway(s1, inputs[1], inputs[2]);
    var s3 := Step(s2, inputs[2]);
    assert Before(s, inputs, 3) == s3;
    CardComesBack(s3, inputs[3]);
  }

  lemma FirstCard(s: State, a: Input)
    requires s == Initial(true, true) && a == CardAt("04AA", 5000000)
    ensures Posted(s, a) == Some(a.credential)
    ensures Step(s, a).latch == Latch(true, a.credential, 0) && Step(s, a).last == Submission(a.credential, 5000000)
    ensures Step(s, a).pn532Ok
  {
    assert a.credential.value[0] == '0';
  }

  lemma CardStaysAway(s: State, a: Input, b: Input)
    requires s.latch.on && s.latch.absentSinceUs == 0 && s.pn532Ok
    requires a == NothingAt(6000000) && b == NothingAt(9000000)
    ensures var t := Step(Step(s, a), b);
            t.latch == Latch(false, NOTHING, 0) && t.last == s.last && t.pn532Ok
  {
    hide UiAfter, PollsAuth;
  }

  lemma CardComesBack(s: State, a: Input)
    requires !s.latch.on && s.pn532Ok && s.last.atUs == 5000000 && a == CardAt("04AA", 10000000)
    ensures Posted(s, a) == Some(a.credential)
  {
    assert a.credential.value[0] == '0';
  }

  // ---- One iteration, said apart from its parts

  /** The page has been on display for its time. */
  predicate IsOver(ui: Ui, nowUs: int) {
    ui.page == Menu || nowUs >= ui.deadlineUs
  }

  /** The pages: 5 s for a result of a post or of a login, 10 s for the QR page that a touch opens from the menu, back
      to the menu when the time is over, and no change before. */
  lemma PagesExactly(s: State, i: Input)
    ensures var ui := Step(s, i).ui;
            if Posted(s, i).Some? then ui == Ui(Result, i.resultUs + 5000000, true, false)
            else if ShowsAuth(s, i) then ui == Ui(Result, i.authUs + 5000000, true, false)
            else if !IsOver(s.ui, i.nowUs) then ui == s.ui
            else if i.touched then ui == Ui(Qr, i.touchUs + 10000000, false, s.netOk && i.refreshOk)
            else ui == if s.ui.page == Menu then s.ui else s.ui.(page := Menu, qrAuthPending := false)
  {
    hide Posted, PollsAuth, IsTerminal;
  }

  /** The result of a login is polled when it is awaited, the network is up, and 1000 ms have passed since the last
      poll; only GRANTED, DENIED and EXPIRED are shown, once. */
  lemma LoginExactly(s: State, i: Input)
    ensures var shown := UiAfterPoll(s, i);
            && (PollsAuth(s, i) <==> s.netOk && shown.qrAuthPending && i.nowUs - s.lastAuthPollUs >= 1000 * 1000)
            && (ShowsAuth(s, i) <==> PollsAuth(s, i) && i.authOk && i.authStatus in {"GRANTED", "DENIED", "EXPIRED"}
                                     && !shown.authTerminalShown)
            && Step(s, i).lastAuthPollUs == if PollsAuth(s, i) then i.nowUs else s.lastAuthPollUs
  {
    hide UiAfterPoll, LatchAfter, LastAfter;
  }

  /** Two polls for the result of a login are at least 1000 ms apart. */
  lemma {:induction false} PollsAreApart(s: State, inputs: seq<Input>, i: nat, j: nat)
    requires i < j < |inputs| && PollsAuth(Before(s, inputs, i), inputs[i])
             && PollsAuth(Before(s, inputs, j), inputs[j])
    requires forall k: nat | i < k < j :: !PollsAuth(Before(s, inputs, k), inputs[k])
    ensures inputs[j].nowUs - inputs[i].nowUs >= 1000 * 1000
  {
    hide PollsAuth, Step;
    LastPollStays(s, inputs, i, j);
    LoginExactly(Before(s, inputs, j), inputs[j]);
  }

  lemma {:induction false} LastPollStays(s: State, inputs: seq<Input>, i: nat, j: nat)
    requires i < j <= |inputs| && PollsAuth(Before(s, inputs, i), inputs[i])
    requires forall k: nat | i < k < j :: !PollsAuth(Before(s, inputs, k), inputs[k])
    ensures Before(s, inputs, j).lastAuthPollUs == inputs[i].nowUs
    decreases j
  {
    hide PollsAuth, Step, ShowsAuth;
    LoginExactly(Before(s, inputs, j - 1), inputs[j - 1]);
    if j > i + 1 {
      LastPollStays(s, inputs, i, j - 1);
    }
  }

  /** A reader that has failed is restarted at every 20th iteration, the network at every 30th. */
  lemma {:induction false} RestartsExactly(pn532Ok: bool, netOk: bool, inputs: seq<Input>, n: nat)
    requires n < |inputs|
    ensures var s, t := Before(Initial(pn532Ok, netOk), inputs, n), Before(Initial(pn532Ok, netOk), inputs, n + 1);
            && t.pn532Ok == (if s.pn532Ok then inputs[n].pollError != PollFailed
                             else (n + 1) % 20 == 0 && inputs[n].readerStarts)
            && t.netOk == (s.netOk || ((n + 1) % 30 == 0 && inputs[n].netStarts))
  {
    hide UiAfter, PollsAuth, LatchAfter, LastAfter;
    IterationsCount(pn532Ok, netOk, inputs, n);
  }

  lemma {:induction false} IterationsCount(pn532Ok: bool, netOk: bool, inputs: seq<Input>, n: nat)
    requires n <= |inputs|
    ensures Before(Initial(pn532Ok, netOk), inputs, n).loopCount == n
  {
    hide UiAfter, PollsAuth, LatchAfter, LastAfter;
    if n > 0 {
      IterationsCount(pn532Ok, netOk, inputs, n - 1);
    }
  }

  /** What is posted and what is latched when a card is reported: a card that is neither the latched one nor the number
      of a phone whose emulated card is latched takes the latch, and is posted unless it was the last to be posted, less
      than 3000 ms ago. Any report resets the time of absence. */
  lemma CardExactly(s: State, i: Input)
    requires s.pn532Ok && i.present && i.credential.value != ""
    ensures var fallback := i.isoDep && i.credential.kind == "CARD_UID" && s.latch.on
            && s.latch.credential.kind == "PHONE_HCE";
            var taken := !fallback && (!s.latch.on || i.credential != s.latch.credential);
            var again := i.credential == s.last.credential && i.readUs - s.last.atUs < 3000 * 1000;
            && Posted(s, i) == (if taken && !again then Some(i.credential) else None)
            && Step(s, i).latch == (if taken then Latch(true, i.credential, 0) else s.latch.(absentSinceUs := 0))
            && Step(s, i).last == if taken && !again then Submission(i.credential, i.readUs) else s.last
  {
    hide UiAfter, PollsAuth;
    assert |i.credential.value| > 0;
  }
}
