/** What a SendCall returns, over every run of Calls: where each answer comes from and where it
    goes. */
module Outcomes {
  import opened Bytes
  import opened Stats
  import Xids
  import opened Calls

  /** What SendCall returns on receiving an answer. */
  function ResultOf(a: Answer): Option<Error> {
    if IsSuccess(a) then None else Some(Failed(a))
  }

  /** The answer is on its way to the caller, or returned to it. */
  predicate Carries(c: Call, a: Answer) {
    c.slot == Some(a) || a in c.claims || c.phase == Returned(ResultOf(a))
  }

  /** The action gives the answer to the pending call: a reply with its identifier, from its peer,
      or a cancellation. */
  predicate Gives(c: Call, act: Action, a: Answer) {
    match act
    case GetReply(x, peer, r, decodes) => x == c.xid && peer == c.peer && Final(r, decodes) == a
    case Cancel(x, reason) => x == c.xid && Reason(reason) == a
    case CancelAll => a == Accepted(CANCELED)
    case _ => false
  }

  /** Step k of the run gave call i the answer. */
  ghost predicate GaveAt(M: nat, run: seq<Action>, k: nat, i: nat, a: Answer)
    requires Legal(M, run)
  {
    && k < |run| && Legal(M, run[..k])
    && var s := After(M, run[..k]);
       i < |s.calls| && Pending(s, i) && Gives(s.calls[i], run[k], a)
  }

  lemma CarryStep(M: nat, s: State, act: Action, i: nat, a: Answer)
    requires Inv(M, s) && Enabled(M, s, act) && i < |Next(M, s, act).calls| && Carries(Next(M, s, act).calls[i], a)
    requires !(i < |s.calls| && Carries(s.calls[i], a))
    ensures i < |s.calls| && Pending(s, i) && Gives(s.calls[i], act, a)
  {
    hide Xids.Lap, CallOk, Apart, Own, Xids.Valid, Xids.NewXid;
    if i < |s.calls| { DeletingOk(M, s, i); }
  }

  lemma DeletingOk(M: nat, s: State, i: nat)
    requires Inv(M, s) && i < |s.calls|
    ensures s.calls[i].phase.Deleting? ==> !s.calls[i].phase.err.Failed?
  {
    hide Xids.Lap;
    assert CallOk(M, TableOf(s), Pending(s, i), s.calls[i]);
  }

  /** Whatever answer SendCall returns, or is about to, some step gave it to the call while it was
      pending. */
  lemma {:induction false} AnswerWasGiven(M: nat, run: seq<Action>, i: nat, a: Answer)
    requires M > 0 && Legal(M, run) && i < |After(M, run).calls| && Carries(After(M, run).calls[i], a)
    ensures exists k :: GaveAt(M, run, k, i, a)
    decreases |run|
  {
    hide Inv, Enabled, Next, Carries, Gives, Modest;
    var n := |run| - 1;
    var s := After(M, run[..n]);
    Invariant(M, run[..n]);
    if i < |s.calls| && Carries(s.calls[i], a) {
      AnswerWasGiven(M, run[..n], i, a);
      var k: nat :| GaveAt(M, run[..n], k, i, a);
      assert run[..n][..k] == run[..k];
      assert GaveAt(M, run, k, i, a);
    } else {
      CarryStep(M, s, run[n], i, a);
      assert GaveAt(M, run, n, i, a);
    }
  }

  /** SendCall returns nil only if, while the call was pending, an accepted SUCCESS reply with
      its identifier came from its peer and the result decoded. */
  lemma NilMeansSuccess(M: nat, run: seq<Action>, i: nat) returns (k: nat)
    requires M > 0 && Legal(M, run) && i < |After(M, run).calls| && After(M, run).calls[i].phase == Returned(None)
    ensures k < |run| && Legal(M, run[..k])
    ensures var s := After(M, run[..k]);
      && i < |s.calls| && Pending(s, i)
      && run[k] == GetReply(s.calls[i].xid, s.calls[i].peer, Accepted(SUCCESS), true)
  {
    AnswerWasGiven(M, run, i, Accepted(SUCCESS));
    k :| GaveAt(M, run, k, i, Accepted(SUCCESS));
  }

  // ------------------------------------------------------------------- and back

  /** An answer that was given is the one SendCall is to return, unless a context ends first or
      SendCall was given none. */
  predicate Settles(c: Call, a: Answer) {
    match c.phase
    case Returned(result) => result == ResultOf(a) || (result.Some? && !result.value.Failed?)
    case Deleting(err) => !err.Failed?
    case Panicked => true
    case _ => c.slot == Some(a) || c.claims == [a]
  }

  lemma GivenSettles(M: nat, s: State, act: Action, i: nat, a: Answer)
    requires Inv(M, s) && Enabled(M, s, act) && i < |s.calls| && Pending(s, i) && Gives(s.calls[i], act, a)
    ensures |s.calls| <= |Next(M, s, act).calls|
    ensures !Pending(Next(M, s, act), i) && Settles(Next(M, s, act).calls[i], a)
  {
    hide Xids.Lap, Apart, Own;
    assert CallOk(M, TableOf(s), true, s.calls[i]);
  }

  lemma SettlesStep(M: nat, s: State, act: Action, i: nat, a: Answer)
    requires Inv(M, s) && Enabled(M, s, act) && i < |s.calls| && !Pending(s, i) && Settles(s.calls[i], a)
    ensures |s.calls| <= |Next(M, s, act).calls|
    ensures !Pending(Next(M, s, act), i) && Settles(Next(M, s, act).calls[i], a)
  {
    hide Xids.Lap, Apart, Xids.Valid, Xids.NewXid;
    TakesStep(M, s, act, i);
    assert CallOk(M, TableOf(s), false, s.calls[i]);
  }

  /** Over every run: once an answer has been given to call i, its SendCall returns that answer
      (nil for a success) or gives up because a context is done, whatever else happens in
      between. */
  lemma {:induction false} GivenIsReturned(M: nat, run: seq<Action>, k: nat, i: nat, a: Answer)
    requires M > 0 && Legal(M, run) && GaveAt(M, run, k, i, a)
    ensures i < |After(M, run).calls| && !Pending(After(M, run), i)
    ensures Settles(After(M, run).calls[i], a)
    decreases |run|
  {
    hide Inv, Enabled, Next, Gives, Settles, Modest;
    var n := |run| - 1;
    Invariant(M, run[..n]);
    if k == n {
      GivenSettles(M, After(M, run[..n]), run[n], i, a);
    } else {
      assert run[..n][..k] == run[..k];
      GivenIsReturned(M, run[..n], k, i, a);
      SettlesStep(M, After(M, run[..n]), run[n], i, a);
    }
  }

  // ------------------------------------------------------------------- giving up

  /** SendCall returns the error, or is about to. */
  predicate Stopped(c: Call, err: Error) {
    c.phase == Deleting(err) || c.phase == Returned(Some(err))
  }

  /** SendCall stopped with the error while it offered its message or waited. */
  predicate Stops(act: Action, i: nat, err: Error) {
    act == SendStopped(i, err) || act == GiveUp(i, err)
  }

  lemma StopStep(M: nat, s: State, act: Action, i: nat, err: Error)
    requires Inv(M, s) && Enabled(M, s, act) && i < |s.calls| && !err.Failed?
    ensures |s.calls| <= |Next(M, s, act).calls|
    ensures Stopped(Next(M, s, act).calls[i], err) <==> Stopped(s.calls[i], err) || Stops(act, i, err)
    ensures Next(M, s, act).calls[i].nilCtx == s.calls[i].nilCtx && (s.closed ==> Next(M, s, act).closed)
    ensures Stops(act, i, TransportClosed) ==> s.closed
    ensures Stops(act, i, ContextDone) ==> !s.calls[i].nilCtx
  {
    hide Inv, Next, Xids.Valid, Xids.NewXid;
    DrainsStep(M, s, i, act);
    PhaseStep(M, s, act, i);
  }

  /** The phase of call i after a step, which only its own steps change. */
  function PhaseAfter(c: Call, act: Action, i: nat): Phase
    requires act == Receive(i) ==> c.slot.Some?
    requires act == Delete(i) ==> c.phase.Deleting?
  {
    if act == Panic(i) then Panicked
    else if act == Sent(i) then Waiting
    else if act == Receive(i) then Returned(ResultOf(c.slot.value))
    else if act == Delete(i) then Returned(Some(c.phase.err))
    else if act.SendStopped? && act.c == i then Deleting(act.err)
    else if act.GiveUp? && act.c == i then Deleting(act.err)
    else c.phase
  }

  lemma PhaseStep(M: nat, s: State, act: Action, i: nat)
    requires Enabled(M, s, act) && i < |s.calls|
    ensures |s.calls| <= |Next(M, s, act).calls|
    ensures Next(M, s, act).calls[i].phase == PhaseAfter(s.calls[i], act, i)
    ensures Next(M, s, act).calls[i].nilCtx == s.calls[i].nilCtx
  {
    hide Xids.Valid, Xids.NewXid, Final, Reason;
  }

  lemma BeganNotStopped(M: nat, s: State, act: Action, i: nat, err: Error)
    requires Enabled(M, s, act) && |s.calls| <= i < |Next(M, s, act).calls|
    ensures !Stopped(Next(M, s, act).calls[i], err) && !Stops(act, i, err)
  {
    CallsGrow(M, s, act);
  }

  /** Over every run SendCall returns ErrTransportClosed or its context's error exactly if it
      stopped with that, the first only once the driver's context is done and the second only if
      it was given a context. */
  lemma {:induction false} StoppedExactly(M: nat, run: seq<Action>, i: nat, err: Error)
    requires M > 0 && Legal(M, run) && i < |After(M, run).calls| && !err.Failed?
    ensures var s := After(M, run);
      && (Stopped(s.calls[i], err) <==> SendStopped(i, err) in run || GiveUp(i, err) in run)
      && (Stopped(s.calls[i], err) && err == TransportClosed ==> s.closed)
      && (Stopped(s.calls[i], err) && err == ContextDone ==> !s.calls[i].nilCtx)
    decreases |run|
  {
    hide Inv, Enabled, Next, Modest, Stopped;
    var n := |run| - 1;
    var s := After(M, run[..n]);
    assert run == run[..n] + [run[n]];
    Invariant(M, run[..n]);
    if i < |s.calls| {
      StoppedExactly(M, run[..n], i, err);
      StopStep(M, s, run[n], i, err);
    } else {
      BeganNotStopped(M, s, run[n], i, err);
      if SendStopped(i, err) in run[..n] { ActedBegan(M, run[..n], SendStopped(i, err), i); }
      if GiveUp(i, err) in run[..n] { ActedBegan(M, run[..n], GiveUp(i, err), i); }
    }
  }

  /** A cancellation reaches the caller with its reason: SendCall returns that status as an error,
      CANCELED if none or SUCCESS was given, unless a context ends first. */
  lemma CancelReaches(M: nat, run: seq<Action>, k: nat, i: nat, reason: Option<nat>)
    requires M > 0 && Legal(M, run) && k < |run| && Legal(M, run[..k])
    requires i < |After(M, run[..k]).calls| && Pending(After(M, run[..k]), i)
    requires run[k] == Cancel(After(M, run[..k]).calls[i].xid, reason)
    ensures i < |After(M, run).calls|
    ensures var c := After(M, run).calls[i];
      c.phase.Returned? ==>
        || c.phase.result == Some(TransportClosed) || c.phase.result == Some(ContextDone)
        || c.phase.result == Some(Failed(Accepted(
             match reason
             case None => CANCELED
             case Some(stat) => if stat == SUCCESS then CANCELED else stat)))
  {
    hide Inv, Enabled, Next, Modest;
    assert GaveAt(M, run, k, i, Reason(reason));
    GivenIsReturned(M, run, k, i, Reason(reason));
  }
}
