/** The HTTP server's life: a goroutine that serves and sends its result into a channel, and the caller
    that waits for the result or for its context to be cancelled. */
module ServeLoop {
  import opened Bytes

  /** What serving can end with: a failure, or the closed-server sentinel. */
  datatype ServeEnd = Broken(reason: string) | Closed

  /** Serving, with a result to send, and finished. The sentinel is sent as no error. */
  datatype Goroutine = Serving | Sending(result: Option<string>) | Finished

  datatype Caller = Selecting | ShuttingDown | Returned(error: Option<string>)

  /** The channel's content and capacity, what has been sent into it, and whether the context is cancelled. */
  datatype State = State(
    goroutine: Goroutine, caller: Caller, channel: seq<Option<string>>, capacity: nat,
    sent: seq<Option<string>>, failures: set<string>, cancelled: bool, closing: bool)

  datatype Event =
    | ServeReturns(end: ServeEnd)
    | Send
    | Cancel
    | ReceiveResult
    | SeeCancelled
    | ShutdownReturns

  function Initial(capacity: nat): State {
    State(Serving, Selecting, [], capacity, [], {}, false, false)
  }

  /** The sentinel comes only after Shutdown was called, as the library documents. A send needs room in
      the channel; without a buffer it needs the receiver. */
  predicate Enabled(s: State, e: Event) {
    match e
    case ServeReturns(end) => s.goroutine.Serving? && (end.Closed? ==> s.closing)
    case Send => s.goroutine.Sending? && (|s.channel| < s.capacity || (s.capacity == 0 && s.caller.Selecting?))
    case Cancel => !s.cancelled
    case ReceiveResult => s.caller.Selecting? && s.channel != []
    case SeeCancelled => s.caller.Selecting? && s.cancelled
    case ShutdownReturns => s.caller.ShuttingDown?
  }

  function Next(s: State, e: Event): State
    requires Enabled(s, e)
  {
    match e
    case ServeReturns(end) =>
      (match end
       case Broken(reason) => s.(goroutine := Sending(Some(reason)), failures := s.failures + {reason})
       case Closed => s.(goroutine := Sending(None)))
    case Send =>
      var result := s.goroutine.result;
      if s.capacity == 0 then
        s.(goroutine := Finished, caller := Returned(result), sent := s.sent + [result])
      else
        s.(goroutine := Finished, channel := s.channel + [result], sent := s.sent + [result])
    case Cancel => s.(cancelled := true)
    case ReceiveResult => s.(caller := Returned(s.channel[0]), channel := s.channel[1..])
    case SeeCancelled => s.(caller := ShuttingDown, closing := true)
    case ShutdownReturns => s.(caller := Returned(None))
  }

  ghost predicate Runs(s: State, events: seq<Event>, end: State)
    decreases |events|
  {
    if events == [] then end == s
    else Enabled(s, events[0]) && Runs(Next(s, events[0]), events[1..], end)
  }

  /** What holds between the two at every moment, with a buffer of one. */
  ghost predicate Coherent(s: State) {
    && s.capacity == 1
    && |s.sent| <= 1
    && (s.goroutine.Finished? <==> |s.sent| == 1)
    && s.channel <= s.sent
    && (s.closing ==> s.cancelled)
    && (s.caller.ShuttingDown? ==> s.closing)
    && (s.caller.Selecting? ==> !s.closing && s.channel == s.sent)
    && (s.goroutine.Serving? ==> s.failures == {})
    && (s.goroutine.Sending? ==> Genuine(s, s.goroutine.result))
    && (|s.sent| == 1 ==> Genuine(s, s.sent[0]))
    && (s.caller.Returned? && s.caller.error.Some? ==> s.caller.error.value in s.failures)
    && (s.caller.Returned? && s.caller.error.None? ==> s.cancelled)
    && (s.caller.Returned? && !s.closing ==> |s.sent| == 1 && s.caller.error == s.sent[0])
  }

  /** An error is one that serving failed with; no error means that the server was told to close. */
  ghost predicate Genuine(s: State, result: Option<string>) {
    match result
    case Some(reason) => s.failures == {reason}
    case None => s.closing && s.failures == {}
  }

  lemma StepKeepsCoherent(s: State, e: Event)
    requires Coherent(s) && Enabled(s, e)
    ensures Coherent(Next(s, e))
  {
  }

  lemma {:induction false} RunKeepsCoherent(s: State, events: seq<Event>, end: State)
    requires Coherent(s) && Runs(s, events, end)
    ensures Coherent(end)
    decreases |events|
  {
    if events != [] {
      StepKeepsCoherent(s, events[0]);
      RunKeepsCoherent(Next(s, events[0]), events[1..], end);
    }
  }

  /** The goroutine sends at most once and its send never blocks. */
  lemma SendNeverBlocks(events: seq<Event>, s: State)
    requires Runs(Initial(1), events, s)
    ensures |s.sent| <= 1
    ensures s.goroutine.Sending? ==> Enabled(s, Send)
  {
    RunKeepsCoherent(Initial(1), events, s);
  }

  /** The shutdown path is entered by seeing the cancellation, and only so. */
  lemma {:induction false} ClosingExactly(s: State, events: seq<Event>, end: State)
    requires Coherent(s) && Runs(s, events, end)
    ensures end.closing <==> s.closing || SeeCancelled in events
    decreases |events|
  {
    if events != [] {
      StepKeepsCoherent(s, events[0]);
      ClosingExactly(Next(s, events[0]), events[1..], end);
      assert events == [events[0]] + events[1..];
    }
  }

  /** On the shutdown path no error is returned. */
  ghost predicate ClosedQuietly(s: State) {
    s.closing && s.caller.Returned? ==> s.caller.error.None?
  }

  lemma {:induction false} ClosesQuietly(s: State, events: seq<Event>, end: State)
    requires Coherent(s) && ClosedQuietly(s) && Runs(s, events, end)
    ensures ClosedQuietly(end)
    decreases |events|
  {
    if events != [] {
      StepKeepsCoherent(s, events[0]);
      ClosesQuietly(Next(s, events[0]), events[1..], end);
    }
  }

  /** What the function returns: no error exactly when the select took the cancellation, and otherwise the
      one failure that serving ended with. */
  lemma ReturnsExactly(events: seq<Event>, s: State)
    requires Runs(Initial(1), events, s) && s.caller.Returned?
    ensures s.caller.error.None? <==> SeeCancelled in events
    ensures s.caller.error.Some? ==> s.failures == {s.caller.error.value}
    ensures s.caller.error.None? ==> s.cancelled
  {
    RunKeepsCoherent(Initial(1), events, s);
    FailuresAreOne(Initial(1), events, s);
    ClosingExactly(Initial(1), events, s);
    ClosesQuietly(Initial(1), events, s);
  }

  /** A failure is missed exactly in the runs that saw the cancellation: the function returned, serving
      had failed, and the failure is not what was returned. */
  lemma MissedExactly(events: seq<Event>, s: State, reason: string)
    requires Runs(Initial(1), events, s) && s.caller.Returned? && reason in s.failures
    ensures s.caller.error != Some(reason) <==> SeeCancelled in events
  {
    ReturnsExactly(events, s);
  }

  lemma {:induction false} FailuresAreOne(s: State, events: seq<Event>, end: State)
    requires Coherent(s) && Runs(s, events, end)
    requires s.goroutine.Serving? || |s.failures| <= 1
    ensures |end.failures| <= 1
    decreases |events|
  {
    if events != [] {
      StepKeepsCoherent(s, events[0]);
      FailuresAreOne(Next(s, events[0]), events[1..], end);
    }
  }

  /** The steps that are left to the program once serving has failed or the context is cancelled. */
  function Left(s: State): nat {
    (match s.goroutine
     case Serving => 2
     case Sending(_) => 1
     case Finished => 0)
    + (match s.caller
       case Selecting => 2
       case ShuttingDown => 1
       case Returned(_) => 0)
    + (if s.cancelled then 0 else 1)
  }

  /** Every event uses up one of at most five. */
  lemma EveryEventCounts(s: State, e: Event)
    requires Coherent(s) && Enabled(s, e)
    ensures Left(Next(s, e)) < Left(s)
  {
  }

  lemma {:induction false} RunsAreShort(s: State, events: seq<Event>, end: State)
    requires Coherent(s) && Runs(s, events, end)
    ensures |events| + Left(end) <= Left(s)
    decreases |events|
  {
    if events != [] {
      EveryEventCounts(s, events[0]);
      StepKeepsCoherent(s, events[0]);
      RunsAreShort(Next(s, events[0]), events[1..], end);
    }
  }

  /** The moves of the program itself, Shutdown's return included. */
  predicate Own(e: Event) {
    e.Send? || e.ReceiveResult? || e.SeeCancelled? || e.ShutdownReturns?
  }

  /** Once serving has failed or the context is cancelled, the program can move until the function has
      returned; and it cannot move more than five times. */
  lemma FailureOrCancelReturns(events: seq<Event>, s: State)
    requires Runs(Initial(1), events, s)
    requires s.failures != {} || s.cancelled
    ensures !s.caller.Returned? ==> exists e :: Own(e) && Enabled(s, e)
    ensures |events| <= 5
  {
    RunKeepsCoherent(Initial(1), events, s);
    RunsAreShort(Initial(1), events, s);
    if s.caller.ShuttingDown? {
      assert Own(ShutdownReturns) && Enabled(s, ShutdownReturns);
    } else if s.caller.Selecting? {
      if s.cancelled {
        assert Own(SeeCancelled) && Enabled(s, SeeCancelled);
      } else if s.goroutine.Sending? {
        assert Own(Send) && Enabled(s, Send);
      } else {
        assert Own(ReceiveResult) && Enabled(s, ReceiveResult);
      }
    }
  }

  /** When failure and cancellation come together the select may take the cancellation: the failure is
      then not returned. */
  lemma FailureCanBeMissed(reason: string)
    ensures exists events, s: State ::
      Runs(Initial(1), events, s) && s.failures == {reason} && s.caller == Returned(None)
  {
    var events := [ServeReturns(Broken(reason)), Send, Cancel, SeeCancelled, ShutdownReturns];
    var s1 := Next(Initial(1), events[0]);
    var s2 := Next(s1, Send);
    var s3 := Next(s2, Cancel);
    var s4 := Next(s3, SeeCancelled);
    var s5 := Next(s4, ShutdownReturns);
    assert events[1..][1..] == events[2..] && events[2..][1..] == events[3..] && events[3..][1..] == events[4..];
    assert events[4..][1..] == [];
    assert Runs(s4, events[4..], s5);
    assert Runs(s3, events[3..], s5);
    assert Runs(s2, events[2..], s5);
    assert Runs(s1, events[1..], s5);
    assert Runs(Initial(1), events, s5);
  }

  /** Or it may take the result: a cancelled run can return the failure as well. */
  lemma FailureCanWin(reason: string)
    ensures exists events, s: State ::
      Runs(Initial(1), events, s) && s.cancelled && s.caller == Returned(Some(reason))
  {
    var events := [ServeReturns(Broken(reason)), Send, Cancel, ReceiveResult];
    var s1 := Next(Initial(1), events[0]);
    var s2 := Next(s1, Send);
    var s3 := Next(s2, Cancel);
    var s4 := Next(s3, ReceiveResult);
    assert events[1..][1..] == events[2..] && events[2..][1..] == events[3..] && events[3..][1..] == [];
    assert Runs(s3, events[3..], s4);
    assert Runs(s2, events[2..], s4);
    assert Runs(s1, events[1..], s4);
    assert Runs(Initial(1), events, s4);
  }

  /** Without the buffer the goroutine would be stuck after a cancellation: it has a result, nobody
      receives it, and no event can ever free it. */
  lemma UnbufferedGoroutineIsStuck()
    ensures exists events, s: State ::
      && Runs(Initial(0), events, s)
      && s.goroutine.Sending? && s.caller.Returned?
      && forall e :: !Enabled(s, e)
  {
    var events := [Cancel, SeeCancelled, ServeReturns(Closed), ShutdownReturns];
    var s1 := Next(Initial(0), Cancel);
    var s2 := Next(s1, SeeCancelled);
    var s3 := Next(s2, ServeReturns(Closed));
    var s4 := Next(s3, ShutdownReturns);
    assert events[1..][1..] == events[2..] && events[2..][1..] == events[3..] && events[3..][1..] == [];
    assert Runs(s3, events[3..], s4);
    assert Runs(s2, events[2..], s4);
    assert Runs(s1, events[1..], s4);
    assert Runs(Initial(0), events, s4);
  }
}
