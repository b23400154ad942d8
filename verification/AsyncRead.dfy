/**
 The streaming engine of src/librtlsdr.c: `rtlsdr_read_async`, the transfer callback and
 `rtlsdr_cancel_async`. The USB host is the environment: a transfer is in flight from its
 submission to its callback, and cancelling one fails only if it is not in flight. What the
 host, the user's callback and other threads do is given by a script; a call that has not
 returned when the script ends is still running.
 */
module AsyncRead {

  const DEFAULT_BUF_NUMBER := 15

  datatype XferStatus = Completed | Error | TimedOut | Cancelled | Stall | NoDevice | Overflow
  datatype AsyncStatus = Inactive | Canceling | Running

  /** A transfer as the driver sees it (status) and as the host sees it (inFlight). */
  datatype Xfer = Xfer(status: XferStatus, inFlight: bool)

  /** What can happen while events are handled. */
  datatype Event =
    /** Transfer i ends with this status; its callback may cancel, and its resubmission may fail. */
    | Ends(i: nat, status: XferStatus, userCancels: bool, resubmits: bool)
    /** Another thread calls rtlsdr_cancel_async. */
    | OtherThreadCancels

  datatype EventsResult = Handled | Interrupted | Fatal

  /** An attempt to cancel a transfer: whether it succeeds on one not in flight, and the events handled after it. */
  datatype Attempt = Attempt(succeedsAnyway: bool, events: seq<Event>)

  /** One turn of the event loop. */
  datatype Turn = Turn(events: seq<Event>, result: EventsResult, attempts: nat -> Attempt, last: seq<Event>)

  predicate NoneInFlight(xfers: seq<Xfer>) {
    forall i :: 0 <= i < |xfers| ==> !xfers[i].inFlight
  }

  /** A transfer whose last status is `cancelled` has not been submitted again. */
  predicate CancelledAreDone(xfers: seq<Xfer>) {
    forall i :: 0 <= i < |xfers| ==> xfers[i].status.Cancelled? ==> !xfers[i].inFlight
  }

  /** Transfers may have ended between the two, and a running one may have been resubmitted, but none was started. */
  predicate OnlyEnded(before: seq<Xfer>, after: seq<Xfer>) {
    |before| == |after| && forall i :: 0 <= i < |before| ==> !before[i].inFlight ==> after[i] == before[i]
  }

  // ---- what the calls do to the engine

  datatype Engine = Engine(status: AsyncStatus, devLost: bool, errors: nat, bufNum: nat, xfers: seq<Xfer>)

  function Stopped(e: Engine): Engine {
    if e.status == Running then e.(status := Canceling) else e
  }

  /** The callback for transfer i, which has ended. */
  function CalledBack(e: Engine, i: nat, userCancels: bool, resubmits: bool): (f: Engine)
    requires i < |e.xfers|
    ensures |f.xfers| == |e.xfers| && f.bufNum == e.bufNum
  {
    var status := e.xfers[i].status;
    if status.Completed? then
      var f := if userCancels then Stopped(e) else e;
      f.(errors := 0, xfers := if resubmits then e.xfers[i := e.xfers[i].(inFlight := true)] else e.xfers)
    else if status.Cancelled? then e
    else
      var errors := if status.Error? then e.errors + 1 else e.errors;
      if errors >= e.bufNum || status.NoDevice? then Stopped(e).(errors := errors, devLost := true)
      else e.(errors := errors)
  }

  function AfterEvent(e: Engine, event: Event): (f: Engine)
    ensures |f.xfers| == |e.xfers| && f.bufNum == e.bufNum
  {
    match event
    case OtherThreadCancels => Stopped(e)
    case Ends(i, status, userCancels, resubmits) =>
      if i < |e.xfers| && e.xfers[i].inFlight
      then CalledBack(e.(xfers := e.xfers[i := Xfer(status, false)]), i, userCancels, resubmits)
      else e
  }

  function AfterEvents(e: Engine, events: seq<Event>): (f: Engine)
    ensures |f.xfers| == |e.xfers| && f.bufNum == e.bufNum
  {
    if events == [] then e else AfterEvent(AfterEvents(e, events[..|events| - 1]), events[|events| - 1])
  }

  /** The engine before the pass comes to transfer i. */
  function PassState(e: Engine, attempts: nat -> Attempt, i: nat): (f: Engine)
    requires i <= |e.xfers|
    ensures |f.xfers| == |e.xfers| && f.bufNum == e.bufNum
  {
    if i == 0 then e
    else
      var f := PassState(e, attempts, i - 1);
      if f.xfers[i - 1].status.Cancelled? then f else AfterEvents(f, attempts(i - 1).events)
  }

  /** The pass cancels transfer i with success. */
  predicate CancelSucceeds(e: Engine, attempts: nat -> Attempt, i: nat)
    requires i < |e.xfers|
  {
    var x := PassState(e, attempts, i).xfers[i];
    !x.status.Cancelled? && (x.inFlight || attempts(i).succeedsAnyway)
  }

  /** Some of the first n transfers are cancelled with success. */
  predicate SomeCancelSucceeds(e: Engine, attempts: nat -> Attempt, n: nat)
    requires n <= |e.xfers|
  {
    exists i :: 0 <= i < n && CancelSucceeds(e, attempts, i)
  }

  /** The result of the last attempt among the first n transfers, or 0. */
  function LastAttempt(e: Engine, attempts: nat -> Attempt, n: nat): int
    requires n <= |e.xfers|
  {
    if n == 0 then 0
    else if PassState(e, attempts, n - 1).xfers[n - 1].status.Cancelled? then LastAttempt(e, attempts, n - 1)
    else if CancelSucceeds(e, attempts, n - 1) then 0 else -1
  }

  /** The event loop goes on, or ends with a result and the status that the device gets. */
  datatype Loop =
    | Goes(e: Engine, next: AsyncStatus)
    | Left(e: Engine, next: AsyncStatus, r: int, fatal: bool)

  function AfterTurn(e: Engine, next: AsyncStatus, turn: Turn): Loop {
    var f := AfterEvents(e, turn.events);
    match turn.result
    case Interrupted => Goes(f, next)
    case Fatal => Left(f, next, -1, true)
    case Handled =>
      if f.status != Canceling then Goes(f, next)
      else
        var g := PassState(f, turn.attempts, |f.xfers|);
        var more := SomeCancelSucceeds(f, turn.attempts, |f.xfers|);
        if g.devLost || !more
        then Left(AfterEvents(g, turn.last), if more then Canceling else Inactive,
                  LastAttempt(f, turn.attempts, |f.xfers|), false)
        else Goes(g, Canceling)
  }

  function AfterTurns(e: Engine, turns: seq<Turn>, n: nat): Loop
    requires n <= |turns|
  {
    if n == 0 then Goes(e, Inactive)
    else
      var l := AfterTurns(e, turns, n - 1);
      if l.Goes? then AfterTurn(l.e, l.next, turns[n - 1]) else l
  }

  /** The first submission from i on that is refused, or count. */
  function FirstRefused(submits: nat -> bool, i: nat, count: nat): (n: nat)
    requires i <= count
    ensures i <= n <= count && (n < count ==> !submits(n)) && forall j :: i <= j < n ==> submits(j)
    decreases count - i
  {
    if i == count || !submits(i) then i else FirstRefused(submits, i + 1, count)
  }

  /** After the submissions: all transfers are in flight, or those before the first refusal, and the engine cancels. */
  function Started(devLost: bool, errors: nat, bufNum: nat, submits: nat -> bool): Engine {
    var n := FirstRefused(submits, 0, bufNum);
    Engine(if n == bufNum then Running else Canceling, devLost, errors, bufNum,
           seq(bufNum, i => Xfer(Completed, i < n)))
  }

  // ---- when a stream that is being cancelled ends

  /** A cancelled stream, or one that never started in full, has nothing left that can be cancelled. */
  predicate NothingToCancel(e: Engine, attempts: nat -> Attempt) {
    NoneInFlight(e.xfers)
    && forall i :: 0 <= i < |e.xfers| ==> e.xfers[i].status.Cancelled? || !attempts(i).succeedsAnyway
  }

  /** Events leave transfers alone that are not in flight. */
  lemma {:induction false} IdleStayIdle(e: Engine, events: seq<Event>)
    ensures OnlyEnded(e.xfers, AfterEvents(e, events).xfers)
    ensures e.status != Running ==> AfterEvents(e, events).status == e.status
    ensures e.devLost ==> AfterEvents(e, events).devLost
  {
    if events != [] { IdleStayIdle(e, events[..|events| - 1]); }
  }

  lemma {:induction false} PassLeavesIdle(e: Engine, attempts: nat -> Attempt, n: nat)
    requires n <= |e.xfers|
    ensures OnlyEnded(e.xfers, PassState(e, attempts, n).xfers)
  {
    hide AfterEvents;
    if n > 0 {
      PassLeavesIdle(e, attempts, n - 1);
      var f := PassState(e, attempts, n - 1);
      IdleStayIdle(f, attempts(n - 1).events);
    }
  }

  /** Then no cancel of the pass succeeds. */
  lemma NoCancelSucceeds(e: Engine, attempts: nat -> Attempt)
    requires NothingToCancel(e, attempts)
    ensures forall i :: 0 <= i < |e.xfers| ==> !CancelSucceeds(e, attempts, i)
    ensures !SomeCancelSucceeds(e, attempts, |e.xfers|)
    ensures PassState(e, attempts, |e.xfers|).xfers == e.xfers
  {
    forall i | 0 <= i <= |e.xfers|
      ensures PassState(e, attempts, i).xfers == e.xfers
    {
      PassLeavesIdle(e, attempts, i);
    }
    hide PassState;
  }

  lemma {:induction false} LeftForGood(e: Engine, turns: seq<Turn>, n: nat, m: nat)
    requires n <= m <= |turns| && AfterTurns(e, turns, n).Left?
    ensures AfterTurns(e, turns, m) == AfterTurns(e, turns, n)
  {
    if m > n { LeftForGood(e, turns, n, m - 1); }
  }

  /**
   A script that comes to a handled turn of a cancelling engine with nothing left to cancel makes
   the call return there, with no transfer in flight and the device inactive.
   */
  lemma ReturnsWhenCancelled(e: Engine, turns: seq<Turn>, n: nat)
    requires n < |turns| && AfterTurns(e, turns, n).Goes? && turns[n].result == Handled
    requires var f := AfterEvents(AfterTurns(e, turns, n).e, turns[n].events);
             f.status == Canceling && NothingToCancel(f, turns[n].attempts)
    ensures var l := AfterTurns(e, turns, |turns|);
            l.Left? && !l.fatal && l.next == Inactive && NoneInFlight(l.e.xfers)
  {
    hide *;
    NextTurn(e, turns, n);
    var l := AfterTurns(e, turns, n);
    LeavesWhenCancelled(l.e, l.next, turns[n]);
    LeftForGood(e, turns, n + 1, |turns|);
  }

  lemma LeavesWhenCancelled(e: Engine, next: AsyncStatus, turn: Turn)
    requires turn.result == Handled
    requires var f := AfterEvents(e, turn.events); f.status == Canceling && NothingToCancel(f, turn.attempts)
    ensures var l := AfterTurn(e, next, turn);
            l.Left? && !l.fatal && l.next == Inactive && NoneInFlight(l.e.xfers)
  {
    hide AfterEvents, PassState, CancelSucceeds, SomeCancelSucceeds;
    var f := AfterEvents(e, turn.events);
    NoCancelSucceeds(f, turn.attempts);
    IdleStayIdle(PassState(f, turn.attempts, |f.xfers|), turn.last);
  }

  /** Without loss of the device or an error, a call returns in no other turn. */
  lemma GoesOnOtherwise(e: Engine, next: AsyncStatus, turn: Turn)
    ensures var f := AfterEvents(e, turn.events);
            AfterTurn(e, next, turn).Goes? <==>
              || turn.result == Interrupted
              || (turn.result == Handled && f.status != Canceling)
              || (turn.result == Handled && f.status == Canceling
                  && !PassState(f, turn.attempts, |f.xfers|).devLost
                  && exists i :: 0 <= i < |f.xfers| && CancelSucceeds(f, turn.attempts, i))
  {
    hide AfterEvents, PassState, CancelSucceeds;
  }

  /**
   An instance: of two transfers the second is not submitted. The first turn cancels transfer 0,
   the second finds that transfer 1 cannot be cancelled, and the call returns -1, the result of
   that attempt.
   */
  lemma SecondSubmitFails()
    ensures var e := Started(false, 0, 2, i => i != 1);
            var attempts := i => Attempt(false, if i == 0 then [Ends(0, Cancelled, false, false)] else []);
            var turn := Turn([], Handled, attempts, []);
            AfterTurns(e, [turn, turn], 2)
            == Left(Engine(Canceling, false, 0, 2, [Xfer(Cancelled, false), Xfer(Completed, false)]),
                    Inactive, -1, false)
  {
    var e := Started(false, 0, 2, i => i != 1);
    var attempts := i => Attempt(false, if i == 0 then [Ends(0, Cancelled, false, false)] else []);
    var turn := Turn([], Handled, attempts, []);
    assert FirstRefused(i => i != 1, 0, 2) == 1;
    assert e == Engine(Canceling, false, 0, 2, [Xfer(Completed, true), Xfer(Completed, false)]);
    var f := Engine(Canceling, false, 0, 2, [Xfer(Cancelled, false), Xfer(Completed, false)]);
    assert AfterEvents(e, [Ends(0, Cancelled, false, false)]) == f by {
      assert [Ends(0, Cancelled, false, false)][..0] == [];
    }
    assert PassState(e, attempts, 1) == f && PassState(e, attempts, 2) == f;
    assert PassState(f, attempts, 1) == f && PassState(f, attempts, 2) == f;
    assert CancelSucceeds(e, attempts, 0);
    assert AfterTurn(e, Inactive, turn) == Goes(f, Canceling);
    assert LastAttempt(f, attempts, 2) == -1;
    assert AfterTurn(f, Canceling, turn) == Left(f, Inactive, -1, false);
    assert AfterTurns(e, [turn, turn], 0) == Goes(e, Inactive);
    assert AfterTurns(e, [turn, turn], 1) == Goes(f, Canceling);
  }

  // ---- the calls

  class Device {
    var asyncStatus: AsyncStatus
    var devLost: bool
    var xferErrors: nat
    var xferBufNum: nat
    /** The transfers; meaningful while xferAllocated. */
    var xfers: seq<Xfer>
    var xferAllocated: bool
    var bufsAllocated: bool

    constructor ()
      ensures asyncStatus == Inactive && !devLost && !xferAllocated && !bufsAllocated
    {
      asyncStatus, devLost, xferErrors, xferBufNum := Inactive, false, 0, 0;
      xfers, xferAllocated, bufsAllocated := [], false, false;
    }

    /** A transfer that ended so, with so many errors in a row, counts as loss of the device. */
    predicate LosesDevice(status: XferStatus, errors: nat)
      reads this`xferBufNum
    {
      !status.Completed? && !status.Cancelled? && (errors >= xferBufNum || status.NoDevice?)
    }

    function Now(): Engine
      reads this
    {
      Engine(asyncStatus, devLost, xferErrors, xferBufNum, xfers)
    }

    method CancelAsync() returns (r: int)
      modifies `asyncStatus
      ensures asyncStatus == if old(asyncStatus) == Running then Canceling else old(asyncStatus)
      ensures r == if old(asyncStatus) == Running then 0 else -2
      ensures Now() == Stopped(old(Now()))
    {
      if asyncStatus == Running {
        asyncStatus := Canceling;
        return 0;
      }
      return -2;
    }

    /** _libusb_callback for transfer i, which the host has just ended. */
    method Callback(i: nat, userCancels: bool, resubmits: bool)
      requires i < |xfers| && !xfers[i].inFlight && CancelledAreDone(xfers)
      modifies `asyncStatus, `devLost, `xferErrors, `xfers
      ensures CancelledAreDone(xfers) && |xfers| == old(|xfers|)
      ensures forall j :: 0 <= j < |xfers| && j != i ==> xfers[j] == old(xfers[j])
      ensures xfers[i].status == old(xfers[i].status)
      ensures xfers[i].inFlight <==> resubmits && xfers[i].status.Completed?
      ensures xferErrors == match xfers[i].status
                case Completed => 0
                case Error => old(xferErrors) + 1
                case _ => old(xferErrors)
      ensures devLost == (old(devLost) || LosesDevice(xfers[i].status, xferErrors))
      ensures asyncStatus == if old(asyncStatus) == Running
                                && ((xfers[i].status.Completed? && userCancels) ||
                                    LosesDevice(xfers[i].status, xferErrors))
                             then Canceling else old(asyncStatus)
      ensures Now() == CalledBack(old(Now()), i, userCancels, resubmits)
    {
      var status := xfers[i].status;
      if status.Completed? {
        if userCancels { var _ := CancelAsync(); }
        if resubmits { xfers := xfers[i := xfers[i].(inFlight := true)]; }
        xferErrors := 0;
      } else if !status.Cancelled? {
        if status.Error? { xferErrors := xferErrors + 1; }
        if xferErrors >= xferBufNum || status.NoDevice? {
          devLost := true;
          var _ := CancelAsync();
        }
      }
    }

    /** libusb_handle_events_timeout_completed: callbacks run for transfers that end. */
    method HandleEvents(events: seq<Event>)
      requires CancelledAreDone(xfers)
      modifies `asyncStatus, `devLost, `xferErrors, `xfers
      ensures CancelledAreDone(xfers) && OnlyEnded(old(xfers), xfers)
      ensures old(devLost) ==> devLost
      ensures old(asyncStatus) != Running ==> asyncStatus == old(asyncStatus)
      ensures asyncStatus == Inactive ==> old(asyncStatus) == Inactive
      ensures Now() == AfterEvents(old(Now()), events)
    {
      for n := 0 to |events|
        invariant Now() == AfterEvents(old(Now()), events[..n])
        invariant CancelledAreDone(xfers) && OnlyEnded(old(xfers), xfers)
        invariant old(devLost) ==> devLost
        invariant old(asyncStatus) != Running ==> asyncStatus == old(asyncStatus)
        invariant asyncStatus == Inactive ==> old(asyncStatus) == Inactive
      {
        assert events[..n + 1][..n] == events[..n];
        match events[n]
        case OtherThreadCancels => var _ := CancelAsync();
        case Ends(i, status, userCancels, resubmits) =>
          if i < |xfers| && xfers[i].inFlight {
            xfers := xfers[i := Xfer(status, false)];
            Callback(i, userCancels, resubmits);
          }
      }
      assert events[..|events|] == events;
    }

    method AllocAsyncBuffers()
      requires !xferAllocated && !bufsAllocated
      modifies `xfers, `xferAllocated, `bufsAllocated
      ensures xferAllocated && bufsAllocated && |xfers| == xferBufNum
      ensures forall i :: 0 <= i < |xfers| ==> xfers[i] == Xfer(Completed, false)
    {
      xfers := seq(xferBufNum, _ => Xfer(Completed, false));
      xferAllocated := true;
      bufsAllocated := true;
    }

    /** Frees transfers and buffers; `inFlightAtFree` tells whether the host still used one. */
    method FreeAsyncBuffers() returns (ghost inFlightAtFree: bool)
      modifies `xferAllocated, `bufsAllocated
      ensures inFlightAtFree <==> !NoneInFlight(xfers)
      ensures !xferAllocated && !bufsAllocated
    {
      inFlightAtFree := !NoneInFlight(xfers);
      xferAllocated := false;
      bufsAllocated := false;
    }

    /** Submits every transfer, giving up at the first failure. */
    method SubmitAll(submits: nat -> bool)
      requires xferAllocated && |xfers| == xferBufNum && asyncStatus == Running
      requires forall i :: 0 <= i < |xfers| ==> xfers[i] == Xfer(Completed, false)
      modifies `xfers, `asyncStatus
      ensures CancelledAreDone(xfers) && |xfers| == xferBufNum && asyncStatus != Inactive
      ensures Now() == Started(devLost, xferErrors, xferBufNum, submits)
    {
      var i := 0;
      while i < xferBufNum
        invariant 0 <= i <= xferBufNum && |xfers| == xferBufNum && asyncStatus == Running
        invariant forall j :: 0 <= j < |xfers| ==> xfers[j] == Xfer(Completed, j < i)
        invariant FirstRefused(submits, i, xferBufNum) == FirstRefused(submits, 0, xferBufNum)
      {
        if !submits(i) {
          asyncStatus := Canceling;
          break;
        }
        xfers := xfers[i := xfers[i].(inFlight := true)];
        i := i + 1;
      }
    }

    /**
     The pass over all transfers of a cancelling turn. It goes on cancelling exactly if some cancel
     succeeded; when it does not, no transfer is in flight.
     */
    method CancelPass(attempts: nat -> Attempt) returns (nextStatus: AsyncStatus, r: int)
      requires CancelledAreDone(xfers) && |xfers| == xferBufNum && asyncStatus == Canceling
      modifies `asyncStatus, `devLost, `xferErrors, `xfers
      ensures CancelledAreDone(xfers) && |xfers| == xferBufNum && asyncStatus == Canceling
      ensures old(devLost) ==> devLost
      ensures nextStatus == Canceling || (nextStatus == Inactive && NoneInFlight(xfers))
      ensures Now() == PassState(old(Now()), attempts, xferBufNum)
      ensures nextStatus == Canceling <==> SomeCancelSucceeds(old(Now()), attempts, xferBufNum)
      ensures r == LastAttempt(old(Now()), attempts, xferBufNum)
      ensures NoneInFlight(old(xfers)) &&
              (forall i :: 0 <= i < |old(xfers)| ==> old(xfers)[i].status.Cancelled? || !attempts(i).succeedsAnyway) ==>
                nextStatus == Inactive && xfers == old(xfers)
    {
      ghost var e := Now();
      FirstOfPass(e, attempts);
      if NothingToCancel(e, attempts) { NoCancelSucceeds(e, attempts); }
      IdleAfterPass(e, attempts, xferBufNum);
      hide *;
      nextStatus, r := Inactive, 0;
      var i := 0;
      while i < xferBufNum
        invariant 0 <= i <= xferBufNum && |xfers| == xferBufNum && asyncStatus == Canceling
        invariant CancelledAreDone(xfers) && (old(devLost) ==> devLost)
        invariant nextStatus == Inactive || nextStatus == Canceling
        invariant Now() == PassState(e, attempts, i) && r == LastAttempt(e, attempts, i)
        invariant nextStatus == Canceling <==> SomeCancelSucceeds(e, attempts, i)
      {
        NextOfPass(e, attempts, i);
        if !xfers[i].status.Cancelled? {
          r := if xfers[i].inFlight || attempts(i).succeedsAnyway then 0 else -1;
          HandleEvents(attempts(i).events);
          if r >= 0 {
            nextStatus := Canceling;
          }
        }
        i := i + 1;
      }
    }

    /** One turn of the event loop of rtlsdr_read_async: what it leaves, or that it goes on. */
    method HandleTurn(turn: Turn, next: AsyncStatus) returns (left: bool, nextStatus: AsyncStatus, r: int, fatal: bool)
      requires CancelledAreDone(xfers) && |xfers| == xferBufNum && asyncStatus != Inactive
      modifies `asyncStatus, `devLost, `xferErrors, `xfers
      ensures CancelledAreDone(xfers) && |xfers| == xferBufNum && asyncStatus != Inactive
      ensures AfterTurn(old(Now()), next, turn) ==
              if left then Left(Now(), nextStatus, r, fatal) else Goes(Now(), nextStatus)
      ensures left && !fatal && !devLost ==> NoneInFlight(xfers) && nextStatus == Inactive
      ensures old(devLost) ==> devLost
    {
      hide AfterEvents, PassState, SomeCancelSucceeds, LastAttempt, CancelSucceeds;
      HandleEvents(turn.events);
      if turn.result != Handled {
        if turn.result == Interrupted { return false, next, 0, false; }
        return true, next, -1, true;
      }
      if asyncStatus != Canceling { return false, next, 0, false; }
      nextStatus, r := CancelPass(turn.attempts);
      if devLost || nextStatus == Inactive {
        HandleEvents(turn.last);
        return true, nextStatus, r, false;
      }
      return false, nextStatus, 0, false;
    }

    /**
     rtlsdr_read_async. A call that returns, without an event-handling error and without loss
     of the device, leaves no transfer in flight when it frees the buffers, and the device
     inactive; this holds whether submission failed midway or not, and whatever callbacks
     resubmit while cancelling. It returns when and with what the turns of its event loop say.
     */
    method ReadAsync(bufNum: nat, submits: nat -> bool, turns: seq<Turn>)
      returns (returned: bool, r: int, fatal: bool, ghost inFlightAtFree: bool)
      requires asyncStatus == Inactive ==> !xferAllocated && !bufsAllocated
      modifies this
      ensures old(asyncStatus) != Inactive ==>
                returned && r == -2 && asyncStatus == old(asyncStatus) && xfers == old(xfers)
      ensures old(asyncStatus) == Inactive && returned ==> !xferAllocated && !bufsAllocated
      ensures old(asyncStatus) == Inactive && returned && !fatal && !devLost ==>
                !inFlightAtFree && asyncStatus == Inactive
      ensures old(asyncStatus) == Inactive && !returned ==> asyncStatus != Inactive && xferAllocated && bufsAllocated
      ensures old(devLost) ==> devLost
      ensures old(asyncStatus) == Inactive ==>
                var count := if bufNum > 0 then bufNum else DEFAULT_BUF_NUMBER;
                var l := AfterTurns(Started(old(devLost), old(xferErrors), count, submits), turns, |turns|);
                if returned
                then l.Left? && Now() == l.e.(status := l.next) && r == l.r && fatal == l.fatal
                     && (inFlightAtFree <==> !NoneInFlight(l.e.xfers))
                else l.Goes? && Now() == l.e
    {
      hide AfterEvents, AfterTurn, AfterTurns, Started, NoneInFlight, CancelledAreDone;
      fatal, inFlightAtFree := false, false;
      if asyncStatus != Inactive {
        return true, -2, false, false;
      }
      var nextStatus := Inactive;
      asyncStatus := Running;
      xferBufNum := if bufNum > 0 then bufNum else DEFAULT_BUF_NUMBER;
      AllocAsyncBuffers();
      SubmitAll(submits);
      ghost var e := Now();
      r := 0;
      var n := 0;
      NoTurn(e, turns);
      while asyncStatus != Inactive
        invariant 0 <= n <= |turns| && xferAllocated && bufsAllocated
        invariant CancelledAreDone(xfers) && |xfers| == xferBufNum && asyncStatus != Inactive
        invariant old(devLost) ==> devLost
        invariant AfterTurns(e, turns, n) == Goes(Now(), nextStatus)
        decreases |turns| - n
      {
        if n == |turns| {
          return false, 0, false, false;
        }
        NextTurn(e, turns, n);
        var left;
        left, nextStatus, r, fatal := HandleTurn(turns[n], nextStatus);
        n := n + 1;
        if left { break; }
      }
      LeftForGood(e, turns, n, |turns|);
      inFlightAtFree := FreeAsyncBuffers();
      asyncStatus := nextStatus;
      returned := true;
    }
  }

  lemma FirstOfPass(e: Engine, attempts: nat -> Attempt)
    ensures PassState(e, attempts, 0) == e && LastAttempt(e, attempts, 0) == 0 && !SomeCancelSucceeds(e, attempts, 0)
  {
  }

  lemma NextOfPass(e: Engine, attempts: nat -> Attempt, i: nat)
    requires i < |e.xfers|
    ensures var f := PassState(e, attempts, i);
            var attempted := !f.xfers[i].status.Cancelled?;
            var succeeds := attempted && (f.xfers[i].inFlight || attempts(i).succeedsAnyway);
            && PassState(e, attempts, i + 1) == (if attempted then AfterEvents(f, attempts(i).events) else f)
            && (SomeCancelSucceeds(e, attempts, i + 1) <==> SomeCancelSucceeds(e, attempts, i) || succeeds)
            && LastAttempt(e, attempts, i + 1) ==
               if !attempted then LastAttempt(e, attempts, i) else if succeeds then 0 else -1
  {
    hide AfterEvents;
    assert CancelSucceeds(e, attempts, i) <==>
           (var x := PassState(e, attempts, i).xfers[i];
            !x.status.Cancelled? && (x.inFlight || attempts(i).succeedsAnyway));
    OneMoreSucceeds(e, attempts, i);
    hide CancelSucceeds, SomeCancelSucceeds;
  }

  lemma OneMoreSucceeds(e: Engine, attempts: nat -> Attempt, i: nat)
    requires i < |e.xfers|
    ensures SomeCancelSucceeds(e, attempts, i + 1) <==>
            SomeCancelSucceeds(e, attempts, i) || CancelSucceeds(e, attempts, i)
  {
    hide CancelSucceeds;
    if SomeCancelSucceeds(e, attempts, i) {
      var k: nat :| k < i && CancelSucceeds(e, attempts, k);
      assert k < i + 1 && CancelSucceeds(e, attempts, k);
    }
  }

  lemma {:induction false} CancelledStayDone(e: Engine, events: seq<Event>)
    requires CancelledAreDone(e.xfers)
    ensures CancelledAreDone(AfterEvents(e, events).xfers)
  {
    if events != [] { CancelledStayDone(e, events[..|events| - 1]); }
  }

  /** When no cancel of the pass succeeds, it finds no transfer in flight. */
  lemma {:induction false} IdleAfterPass(e: Engine, attempts: nat -> Attempt, n: nat)
    requires CancelledAreDone(e.xfers) && n <= |e.xfers|
    ensures CancelledAreDone(PassState(e, attempts, n).xfers)
    ensures !SomeCancelSucceeds(e, attempts, n) ==>
              forall i :: 0 <= i < n ==> !PassState(e, attempts, n).xfers[i].inFlight
  {
    hide PassState, SomeCancelSucceeds, CancelSucceeds, AfterEvents;
    FirstOfPass(e, attempts);
    if n > 0 {
      IdleAfterPass(e, attempts, n - 1);
      NextOfPass(e, attempts, n - 1);
      var f := PassState(e, attempts, n - 1);
      CancelledStayDone(f, attempts(n - 1).events);
      IdleStayIdle(f, attempts(n - 1).events);
    }
  }

  lemma NoTurn(e: Engine, turns: seq<Turn>)
    ensures AfterTurns(e, turns, 0) == Goes(e, Inactive)
  {
  }

  lemma NextTurn(e: Engine, turns: seq<Turn>, n: nat)
    requires n < |turns| && AfterTurns(e, turns, n).Goes?
    ensures var l := AfterTurns(e, turns, n); AfterTurns(e, turns, n + 1) == AfterTurn(l.e, l.next, turns[n])
  {
  }
}
