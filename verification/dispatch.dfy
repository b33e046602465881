/** The bulk dispatcher (send_bulk_emails): every account sends the message
    to every recipient, account by account, with a pause after each send and
    a double pause between accounts. The transmitter (send_email) is an
    oracle: the network decides how each pass through the try block ends. */
module Dispatch {
  import opened Wrappers
  import opened Sequences
  import opened AccountLoader

  /** The arguments of one transmitter call. */
  datatype Request = Request(
    login: string, password: string, toAddress: string,
    subject: string, body: string, smtpServer: string, smtpPort: int)

  /** How one pass through the try block ended, as the counters see it.
      Raised: an exception reached the handler before either counter moved
      (the progress print, or an exception send_email let through).
      Returned(success, raisedAfter): send_email returned success, and then,
      when raisedAfter, a result print or the pause after the send raised, so
      the handler counts the same send once more as a failure. */
  datatype Outcome = Raised | Returned(success: bool, raisedAfter: bool)

  /** What a run does, in order: passes through the inner try block and the
      two kinds of sleep. An Attempt is one pass for an (account, recipient)
      pair; it is a transmitter call unless the progress print raised first. */
  datatype Event =
    | Attempt(account: nat, recipient: nat, request: Request, outcome: Outcome)
    | SendPause     // sleep(delay) after a send
    | AccountPause  // sleep(2 * delay) before the next account

  /** The outcome of account i's pass for recipient j with the given request.
      Indexing by (i, j) lets two identical requests end differently. */
  type Transmitter = (nat, nat, Request) -> Outcome

  datatype Campaign = Campaign(accounts: seq<Account>, recipients: seq<string>, subject: string, body: string)

  function RequestFor(c: Campaign, i: nat, j: nat): Request
    requires i < |c.accounts| && j < |c.recipients|
  {
    var a := c.accounts[i];
    Request(a.login, a.password, c.recipients[j], c.subject, c.body, a.smtpServer, a.smtpPort)
  }

  /** Account i's attempt for recipient j. */
  function AttemptAt(c: Campaign, transmit: Transmitter, i: nat, j: nat): Event
    requires i < |c.accounts| && j < |c.recipients|
  {
    var req := RequestFor(c, i, j);
    Attempt(i, j, req, transmit(i, j, req))
  }

  /** An attempt that raised nothing is followed by
      a pause unless its recipient is the last. */
  predicate PausesAfter(e: Event, recipientCount: nat)
  {
    e.Attempt? && e.outcome.Returned? && !e.outcome.raisedAfter && e.recipient + 1 < recipientCount
  }

  function StepEvents(c: Campaign, transmit: Transmitter, i: nat, j: nat): seq<Event>
    requires i < |c.accounts| && j < |c.recipients|
  {
    var e := AttemptAt(c, transmit, i, j);
    [e] + (if PausesAfter(e, |c.recipients|) then [SendPause] else [])
  }

  /** The events of account i's first j sends. */
  function RoundEvents(c: Campaign, transmit: Transmitter, i: nat, j: nat): seq<Event>
    requires i < |c.accounts| && j <= |c.recipients|
  {
    if j == 0 then [] else RoundEvents(c, transmit, i, j - 1) + StepEvents(c, transmit, i, j - 1)
  }

  /** The events of the first i accounts' rounds, with the pause that follows
      every round but the last account's. */
  function RunEvents(c: Campaign, transmit: Transmitter, i: nat): seq<Event>
    requires i <= |c.accounts|
  {
    if i == 0 then []
    else
      RunEvents(c, transmit, i - 1) + RoundEvents(c, transmit, i - 1, |c.recipients|) +
      (if i < |c.accounts| then [AccountPause] else [])
  }

  function Trace(c: Campaign, transmit: Transmitter): seq<Event>
  {
    RunEvents(c, transmit, |c.accounts|)
  }

  predicate IsDelivered(e: Event) { e.Attempt? && e.outcome.Returned? && e.outcome.success }
  predicate IsFailed(e: Event) { e.Attempt? && !(e.outcome.Returned? && e.outcome.success) }
  /** An attempt counted, then counted again as a failure by the handler. */
  predicate IsLateRaise(e: Event) { e.Attempt? && e.outcome.Returned? && e.outcome.raisedAfter }
  predicate IsAccountPause(e: Event) { e.AccountPause? }

  function AsAttempt(e: Event): Option<Event>
  {
    if e.Attempt? then Some(e) else None
  }

  /** The attempts of a sequence of events, in order. */
  function Attempts(events: seq<Event>): seq<Event>
  {
    FilterMap(AsAttempt, events)
  }

  /** The campaign's attempts by account and recipient (a placeholder outside it). */
  function Calls(c: Campaign, transmit: Transmitter): (nat, nat) -> Event
  {
    (a: nat, b: nat) => if a < |c.accounts| && b < |c.recipients| then AttemptAt(c, transmit, a, b) else SendPause
  }

  /** One step makes one attempt. */
  lemma StepAttempts(c: Campaign, transmit: Transmitter, i: nat, j: nat)
    requires i < |c.accounts| && j < |c.recipients|
    ensures Attempts(StepEvents(c, transmit, i, j)) == [AttemptAt(c, transmit, i, j)]
  {
    var e := AttemptAt(c, transmit, i, j);
    assert Attempts([e]) == [e] by {
      assert [e][..0] == [];
    }
    if PausesAfter(e, |c.recipients|) {
      FilterMapAppend(AsAttempt, [e], [SendPause]);
      assert Attempts([SendPause]) == [] by {
        assert [SendPause][..0] == [];
      }
    }
  }

  /** Account i's round makes one attempt per recipient, in order. */
  lemma {:induction false} RoundAttempts(c: Campaign, transmit: Transmitter, i: nat, j: nat)
    requires i < |c.accounts| && j <= |c.recipients|
    ensures Attempts(RoundEvents(c, transmit, i, j)) == Row(Calls(c, transmit), i, j)
  {
    if j > 0 {
      var prev := RoundEvents(c, transmit, i, j - 1);
      var step := StepEvents(c, transmit, i, j - 1);
      RoundAttempts(c, transmit, i, j - 1);
      StepAttempts(c, transmit, i, j - 1);
      FilterMapAppend(AsAttempt, prev, step);
      assert RoundEvents(c, transmit, i, j) == prev + step;
    }
  }

  lemma RoundHasNoAccountPause(c: Campaign, transmit: Transmitter, i: nat, j: nat)
    requires i < |c.accounts| && j <= |c.recipients|
    ensures Count(IsAccountPause, RoundEvents(c, transmit, i, j)) == 0
  {
    if j > 0 {
      RoundHasNoAccountPause(c, transmit, i, j - 1);
      CountAppend(IsAccountPause, RoundEvents(c, transmit, i, j - 1), StepEvents(c, transmit, i, j - 1));
    }
  }

  lemma RunAttemptsStep(c: Campaign, transmit: Transmitter, i: nat)
    requires 0 < i <= |c.accounts|
    ensures Attempts(RunEvents(c, transmit, i)) ==
      Attempts(RunEvents(c, transmit, i - 1)) + Attempts(RoundEvents(c, transmit, i - 1, |c.recipients|))
  {
    var prev := RunEvents(c, transmit, i - 1);
    var round := RoundEvents(c, transmit, i - 1, |c.recipients|);
    var tail: seq<Event> := if i < |c.accounts| then [AccountPause] else [];
    FilterMapAppend(AsAttempt, prev, round);
    FilterMapAppend(AsAttempt, prev + round, tail);
    assert Attempts(tail) == [] by {
      assert tail == [] || tail[..0] == [];
    }
  }

  /** The attempts of the first i accounts' rounds: account by account, each
      attempting every recipient in order. */
  lemma {:induction false} RunAttempts(c: Campaign, transmit: Transmitter, i: nat)
    requires i <= |c.accounts|
    ensures Attempts(RunEvents(c, transmit, i)) == Rows(Calls(c, transmit), i, |c.recipients|)
  {
    if i > 0 {
      var m := |c.recipients|;
      RunAttempts(c, transmit, i - 1);
      RoundAttempts(c, transmit, i - 1, m);
      RunAttemptsStep(c, transmit, i);
    }
  }

  /** Every (account, recipient) pair is attempted exactly once, account by
      account: the run makes |accounts| * |recipients| passes, and pass number
      a*m + b is account a's pass for recipient b, with the outcome the
      transmitter gave it; no outcome of a pass stops the run. */
  lemma TraceCall(c: Campaign, transmit: Transmitter, a: nat, b: nat)
    requires a < |c.accounts| && b < |c.recipients|
    ensures var m, att := |c.recipients|, Attempts(Trace(c, transmit));
      |att| == |c.accounts| * m && a * m + b < |att| && att[a * m + b] == AttemptAt(c, transmit, a, b)
  {
    RunAttempts(c, transmit, |c.accounts|);
    RowsAt(Calls(c, transmit), |c.accounts|, |c.recipients|, a, b);
  }

  /** Every attempt is either a delivery or a failure. */
  lemma {:induction false} DeliveredPlusFailed(events: seq<Event>)
    ensures Count(IsDelivered, events) + Count(IsFailed, events) == |Attempts(events)|
  {
    if events != [] {
      var init := events[..|events| - 1];
      DeliveredPlusFailed(init);
      FilterMapAppend(AsAttempt, init, [events[|events| - 1]]);
      assert init + [events[|events| - 1]] == events;
    }
  }

  /** Only attempts can be late raises, so counting them among the attempts gives the same number. */
  lemma {:induction false} LateRaisesAmongAttempts(events: seq<Event>)
    ensures Count(IsLateRaise, events) == Count(IsLateRaise, Attempts(events))
  {
    if events != [] {
      var init, x := events[..|events| - 1], events[|events| - 1];
      LateRaisesAmongAttempts(init);
      assert init + [x] == events;
      FilterMapAppend(AsAttempt, init, [x]);
      CountAppend(IsLateRaise, Attempts(init), Attempts([x]));
      assert [x][..0] == [];
    }
  }

  /** When no pass through the try block raises after the counting, the run
      counts nothing twice. */
  lemma NoLateRaiseNoDoubleCount(c: Campaign, transmit: Transmitter)
    requires forall a: nat, b: nat :: a < |c.accounts| && b < |c.recipients| ==>
      !IsLateRaise(AttemptAt(c, transmit, a, b))
    ensures Count(IsLateRaise, Trace(c, transmit)) == 0
  {
    RunAttempts(c, transmit, |c.accounts|);
    LateRaisesAmongAttempts(Trace(c, transmit));
    CountRowsNone(IsLateRaise, Calls(c, transmit), |c.accounts|, |c.recipients|);
  }

  /** An attempt whose result print or pause raises is counted twice: the run's
      late-raise count, by which the counters exceed the number of attempts, is positive. */
  lemma LateRaiseCountsTwice(c: Campaign, transmit: Transmitter, a: nat, b: nat)
    requires a < |c.accounts| && b < |c.recipients|
    requires IsLateRaise(AttemptAt(c, transmit, a, b))
    ensures Count(IsLateRaise, Trace(c, transmit)) >= 1
  {
    TraceCall(c, transmit, a, b);
    LateRaisesAmongAttempts(Trace(c, transmit));
    CountPositive(IsLateRaise, Attempts(Trace(c, transmit)), a * |c.recipients| + b);
  }

  /** The account-switch pause happens once between each two consecutive accounts. */
  lemma {:induction false} RunAccountPauses(c: Campaign, transmit: Transmitter, i: nat)
    requires 0 < i <= |c.accounts|
    ensures Count(IsAccountPause, RunEvents(c, transmit, i)) == if i < |c.accounts| then i else i - 1
  {
    var m := |c.recipients|;
    var prev := RunEvents(c, transmit, i - 1);
    var round := RoundEvents(c, transmit, i - 1, m);
    var tail: seq<Event> := if i < |c.accounts| then [AccountPause] else [];
    if i > 1 {
      RunAccountPauses(c, transmit, i - 1);
    } else {
      assert prev == [];
    }
    RoundHasNoAccountPause(c, transmit, i - 1, m);
    CountAcross(IsAccountPause, prev, round, tail);
    assert Count(IsAccountPause, tail) == if i < |c.accounts| then 1 else 0 by {
      assert tail == [] || tail[..0] == [];
    }
    RunGrows(c, transmit, i - 1);
  }

  lemma TraceAccountPauses(c: Campaign, transmit: Transmitter)
    ensures Count(IsAccountPause, Trace(c, transmit)) == if |c.accounts| == 0 then 0 else |c.accounts| - 1
  {
    if |c.accounts| > 0 {
      RunAccountPauses(c, transmit, |c.accounts|);
    }
  }

  /** The send pauses sit exactly behind the attempts that did not raise and
      whose recipient is not the last. */
  ghost predicate PausesPlaced(s: seq<Event>, m: nat)
  {
    (forall p :: 0 <= p < |s| && s[p].SendPause? ==> 0 < p && PausesAfter(s[p - 1], m)) &&
    (forall p :: 0 <= p < |s| && PausesAfter(s[p], m) ==> p + 1 < |s| && s[p + 1].SendPause?)
  }

  lemma PausesPlacedAppend(s: seq<Event>, t: seq<Event>, m: nat)
    requires PausesPlaced(s, m) && PausesPlaced(t, m)
    ensures PausesPlaced(s + t, m)
  {
    var u := s + t;
    forall p | 0 <= p < |u| && u[p].SendPause?
      ensures 0 < p && PausesAfter(u[p - 1], m)
    {
      if p >= |s| {
        assert t[p - |s|] == u[p];
      }
    }
    forall p | 0 <= p < |u| && PausesAfter(u[p], m)
      ensures p + 1 < |u| && u[p + 1].SendPause?
    {
      if p >= |s| {
        assert t[p - |s|] == u[p];
      }
    }
  }

  lemma StepPausesPlaced(c: Campaign, transmit: Transmitter, i: nat, j: nat)
    requires i < |c.accounts| && j < |c.recipients|
    ensures PausesPlaced(StepEvents(c, transmit, i, j), |c.recipients|)
  {
    var e := AttemptAt(c, transmit, i, j);
    var step := StepEvents(c, transmit, i, j);
    assert step[0] == e;
    assert |step| == 2 ==> step[1] == SendPause && PausesAfter(e, |c.recipients|);
  }

  lemma {:induction false} RoundPausesPlaced(c: Campaign, transmit: Transmitter, i: nat, j: nat)
    requires i < |c.accounts| && j <= |c.recipients|
    ensures PausesPlaced(RoundEvents(c, transmit, i, j), |c.recipients|)
  {
    if j > 0 {
      RoundPausesPlaced(c, transmit, i, j - 1);
      StepPausesPlaced(c, transmit, i, j - 1);
      PausesPlacedAppend(RoundEvents(c, transmit, i, j - 1), StepEvents(c, transmit, i, j - 1), |c.recipients|);
    }
  }

  lemma {:induction false} RunPausesPlaced(c: Campaign, transmit: Transmitter, i: nat)
    requires i <= |c.accounts|
    ensures PausesPlaced(RunEvents(c, transmit, i), |c.recipients|)
  {
    if i > 0 {
      var m := |c.recipients|;
      var prev := RunEvents(c, transmit, i - 1);
      var round := RoundEvents(c, transmit, i - 1, m);
      var tail: seq<Event> := if i < |c.accounts| then [AccountPause] else [];
      RunPausesPlaced(c, transmit, i - 1);
      RoundPausesPlaced(c, transmit, i - 1, m);
      PausesPlacedAppend(prev, round, m);
      PausesPlacedAppend(prev + round, tail, m);
    }
  }

  /** A step is the attempt, then a pause when the attempt did not raise and its
      recipient is not the last. */
  lemma StepShape(c: Campaign, transmit: Transmitter, i: nat, j: nat, request: Request)
    requires i < |c.accounts| && j < |c.recipients|
    requires request == RequestFor(c, i, j)
    ensures var outcome := transmit(i, j, request);
      StepEvents(c, transmit, i, j) ==
        [Attempt(i, j, request, outcome)] +
        (if outcome.Returned? && !outcome.raisedAfter && j + 1 < |c.recipients| then [SendPause] else [])
  {
  }

  /** A round grows by one step at a time, after whatever came before it. */
  lemma RoundGrows(c: Campaign, transmit: Transmitter, i: nat, j: nat, prefix: seq<Event>)
    requires i < |c.accounts| && j < |c.recipients|
    ensures prefix + RoundEvents(c, transmit, i, j + 1) ==
      prefix + RoundEvents(c, transmit, i, j) + StepEvents(c, transmit, i, j)
  {
  }

  /** A run grows by one account's round, and the pause when another account follows. */
  lemma RunGrows(c: Campaign, transmit: Transmitter, i: nat)
    requires i < |c.accounts|
    ensures RunEvents(c, transmit, i + 1) ==
      RunEvents(c, transmit, i) + RoundEvents(c, transmit, i, |c.recipients|) +
      (if i + 1 < |c.accounts| then [AccountPause] else [])
  {
  }

  /** A step adds one delivery or one failure to the counts, and one late
      raise when the handler ran after the counting. */
  lemma StepTally(c: Campaign, transmit: Transmitter, i: nat, j: nat, done: seq<Event>)
    requires i < |c.accounts| && j < |c.recipients|
    ensures var e, s := AttemptAt(c, transmit, i, j), done + StepEvents(c, transmit, i, j);
      var delivered := e.outcome.Returned? && e.outcome.success;
      Count(IsDelivered, s) == Count(IsDelivered, done) + (if delivered then 1 else 0) &&
      Count(IsFailed, s) == Count(IsFailed, done) + (if delivered then 0 else 1) &&
      Count(IsLateRaise, s) == Count(IsLateRaise, done) + (if IsLateRaise(e) then 1 else 0)
  {
    var e := AttemptAt(c, transmit, i, j);
    var step := StepEvents(c, transmit, i, j);
    assert [e][..0] == [];
    if PausesAfter(e, |c.recipients|) {
      CountAppend(IsDelivered, [e], [SendPause]);
      CountAppend(IsFailed, [e], [SendPause]);
      CountAppend(IsLateRaise, [e], [SendPause]);
      assert [SendPause][..0] == [];
    }
    CountAppend(IsDelivered, done, step);
    CountAppend(IsFailed, done, step);
    CountAppend(IsLateRaise, done, step);
  }

  /** The pause between accounts is neither a delivery nor a failure. */
  lemma PauseTally(done: seq<Event>)
    ensures Count(IsDelivered, done + [AccountPause]) == Count(IsDelivered, done)
    ensures Count(IsFailed, done + [AccountPause]) == Count(IsFailed, done)
    ensures Count(IsLateRaise, done + [AccountPause]) == Count(IsLateRaise, done)
  {
    assert (done + [AccountPause])[..|done|] == done;
  }

  /** One pass through the inner loop's try block: account i sends to
      recipient j, the counters move, and the pause follows when nothing
      raised and another recipient remains. */
  method SendOne(ghost c: Campaign, account: Account, i: nat, j: nat, recipients: seq<string>,
                 subject: string, body: string, transmit: Transmitter,
                 successful0: nat, failed0: nat, events0: seq<Event>)
    returns (successful: nat, failed: nat, events: seq<Event>)
    requires i < |c.accounts| && c.accounts[i] == account && j < |recipients|
    requires c.recipients == recipients && c.subject == subject && c.body == body
    requires successful0 == Count(IsDelivered, events0)
    requires failed0 == Count(IsFailed, events0) + Count(IsLateRaise, events0)
    ensures events == events0 + StepEvents(c, transmit, i, j)
    ensures successful == Count(IsDelivered, events)
    ensures failed == Count(IsFailed, events) + Count(IsLateRaise, events)
  {
    successful, failed := successful0, failed0;
    var request := Request(account.login, account.password, recipients[j], subject, body,
                           account.smtpServer, account.smtpPort);
    var outcome := transmit(i, j, request);
    StepShape(c, transmit, i, j, request);
    StepTally(c, transmit, i, j, events0);
    events := events0 + [Attempt(i, j, request, outcome)];
    if outcome.Raised? {
      // the exception handler counts a failure and skips the pause
      failed := failed + 1;
    } else {
      if outcome.success {
        successful := successful + 1;
      } else {
        failed := failed + 1;
      }
      if outcome.raisedAfter {
        // a print or the pause raised after the counting: the handler
        // counts the same send again, as a failure
        failed := failed + 1;
      } else if j + 1 < |recipients| {
        events := events + [SendPause];
      }
    }
  }

  /** The inner loop of the dispatcher: account i sends to every recipient
      in order, carrying on the counters and the events so far. */
  method SendRound(ghost c: Campaign, account: Account, i: nat, recipients: seq<string>,
                   subject: string, body: string, transmit: Transmitter,
                   successful0: nat, failed0: nat, events0: seq<Event>)
    returns (successful: nat, failed: nat, events: seq<Event>)
    requires i < |c.accounts| && c.accounts[i] == account
    requires c.recipients == recipients && c.subject == subject && c.body == body
    requires successful0 == Count(IsDelivered, events0)
    requires failed0 == Count(IsFailed, events0) + Count(IsLateRaise, events0)
    ensures events == events0 + RoundEvents(c, transmit, i, |recipients|)
    ensures successful == Count(IsDelivered, events)
    ensures failed == Count(IsFailed, events) + Count(IsLateRaise, events)
  {
    successful, failed, events := successful0, failed0, events0;
    var j := 0;
    while j < |recipients|
      invariant 0 <= j <= |recipients|
      invariant events == events0 + RoundEvents(c, transmit, i, j)
      invariant successful == Count(IsDelivered, events)
      invariant failed == Count(IsFailed, events) + Count(IsLateRaise, events)
    {
      successful, failed, events :=
        SendOne(c, account, i, j, recipients, subject, body, transmit, successful, failed, events);
      RoundGrows(c, transmit, i, j, events0);
      j := j + 1;
    }
  }

  /** The dispatcher: returns the number of successful and failed sends, and
      the sends and pauses it performed. */
  method SendBulkEmails(accounts: seq<Account>, recipients: seq<string>, subject: string, body: string,
                        transmit: Transmitter)
    returns (successful: nat, failed: nat, events: seq<Event>)
    ensures events == Trace(Campaign(accounts, recipients, subject, body), transmit)
    ensures successful == Count(IsDelivered, events)
    ensures failed == Count(IsFailed, events) + Count(IsLateRaise, events)
    ensures successful + failed == |accounts| * |recipients| + Count(IsLateRaise, events)
  {
    ghost var c := Campaign(accounts, recipients, subject, body);
    successful, failed := 0, 0;
    events := [];
    var i := 0;
    while i < |accounts|
      invariant 0 <= i <= |accounts|
      invariant events == RunEvents(c, transmit, i)
      invariant successful == Count(IsDelivered, events)
      invariant failed == Count(IsFailed, events) + Count(IsLateRaise, events)
    {
      successful, failed, events :=
        SendRound(c, accounts[i], i, recipients, subject, body, transmit, successful, failed, events);
      if i + 1 < |accounts| {
        PauseTally(events);
        events := events + [AccountPause];
      }
      RunGrows(c, transmit, i);
      i := i + 1;
    }
    RunAttempts(c, transmit, |accounts|);
    DeliveredPlusFailed(events);
  }
}
