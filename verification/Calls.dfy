/** The life of outgoing calls: SendCall in any number of goroutines, replies, cancellations
    and shutdown, interleaved in any order. Each section under the CallSet's lock and each
    channel operation is one step. */
module Calls {
  import opened Bytes
  import opened Stats
  import opened Xids

  /** What a callback is handed: an accepted reply and its status, or any other message. */
  datatype Answer = Accepted(stat: nat) | Denied

  predicate IsSuccess(a: Answer) {
    a == Accepted(SUCCESS)
  }

  datatype Error = TransportClosed | ContextDone | Failed(answer: Answer)

  /** Where a SendCall stands: registered and serializing or offering its message, waiting for
      its reply channel, about to delete its entry, or returned (None is nil). SendCall panics
      with the entry registered when the argument does not marshal and, if it was given no
      context, at the select in which it would wait. */
  datatype Phase = Sending | Waiting | Deleting(err: Error) | Returned(result: Option<Error>) | Panicked

  /** A call and everything it owns. `fits` says whether its argument marshals and `nilCtx` whether
      SendCall was given a nil context. `slot` and `closes` are its reply channel; `claims` are the
      replies that took it out of the map and whose callback has yet to run; `callbacks` and
      `recycles` count what happened to its record. `others` and `later` record which
      identifiers were pending when it began and which were issued since. */
  datatype Call = Call(xid: nat, peer: string, fits: bool, nilCtx: bool, phase: Phase, slot: Option<Answer>,
                       closes: nat, claims: seq<Answer>, callbacks: nat, recycles: nat,
                       others: set<nat>, later: set<nat>)

  /** The CallSet, the calls ever begun, and whether the driver's context is done. */
  datatype State = State(last: nat, pending: map<nat, nat>, calls: seq<Call>, closed: bool)

  datatype Action =
    | Begin(peer: string, fits: bool, nilCtx: bool)
    | Panic(c: nat)
    | Sent(c: nat)
    | SendStopped(c: nat, err: Error)
    | Delete(c: nat)
    | Receive(c: nat)
    | GiveUp(c: nat, err: Error)
    | GetReply(xid: nat, peer: string, answer: Answer, decodes: bool)
    | RunCallback(c: nat)
    | Cancel(xid: nat, reason: Option<nat>)
    | CancelAll
    | Close

  function Init(): State {
    State(0, map[], [], false)
  }

  function TableOf(s: State): Table {
    Table(s.last, s.pending.Keys)
  }

  predicate InFlight(c: Call) {
    c.phase.Sending? || c.phase.Waiting? || c.phase.Deleting?
  }

  predicate Pending(s: State, i: nat)
    requires i < |s.calls|
  {
    s.calls[i].xid in s.pending && s.pending[s.calls[i].xid] == i
  }

  /** SendCall's callback: send on the channel, then close it. */
  function Callback(c: Call, a: Answer): Call {
    c.(slot := Some(a), closes := c.closes + 1, callbacks := c.callbacks + 1)
  }

  function Recycle(c: Call): Call {
    c.(recycles := c.recycles + 1)
  }

  /** The status a claimed reply ends up with: GARBAGE_RET when the result does not decode. */
  function Final(a: Answer, decodes: bool): Answer {
    if IsSuccess(a) && !decodes then Accepted(GARBAGE_RET) else a
  }

  function Reason(reason: Option<nat>): Answer {
    if reason.None? || reason.value == SUCCESS then Accepted(CANCELED) else Accepted(reason.value)
  }

  /** Why SendCall may stop waiting. A nil context is never done: safeSend puts another in its
      place. */
  predicate StopReason(s: State, c: Call, err: Error) {
    (err == ContextDone && !c.nilCtx) || (err == TransportClosed && s.closed)
  }

  ghost predicate Enabled(M: nat, s: State, a: Action) {
    match a
    case Begin(_, _, _) => Valid(M, TableOf(s)) && |s.pending.Keys| < M
    case Panic(c) => c < |s.calls| && Panics(s.calls[c])
    case Sent(c) => c < |s.calls| && s.calls[c].phase.Sending? && s.calls[c].fits
    case SendStopped(c, err) =>
      c < |s.calls| && s.calls[c].phase.Sending? && s.calls[c].fits && StopReason(s, s.calls[c], err)
    case Delete(c) => c < |s.calls| && s.calls[c].phase.Deleting?
    case Receive(c) => c < |s.calls| && Waits(s.calls[c]) && s.calls[c].slot.Some?
    case GiveUp(c, err) => c < |s.calls| && Waits(s.calls[c]) && StopReason(s, s.calls[c], err)
    case RunCallback(c) => c < |s.calls| && s.calls[c].claims != []
    case GetReply(_, _, _, _) => true
    case Cancel(_, _) => true
    case CancelAll => true
    case Close => true
  }

  predicate Panics(c: Call) {
    (c.phase.Sending? && !c.fits) || (c.phase.Waiting? && c.nilCtx)
  }

  predicate Waits(c: Call) {
    c.phase.Waiting? && !c.nilCtx
  }

  function Set(s: State, i: nat, c: Call): State
    requires i < |s.calls|
  {
    s.(calls := s.calls[i := c])
  }

  ghost function Next(M: nat, s: State, a: Action): State
    requires Enabled(M, s, a)
  {
    match a
    case Begin(peer, fits, nilCtx) =>
      var x := NewXid(M, TableOf(s));
      var i := |s.calls|;
      var c := Call(x, peer, fits, nilCtx, Sending, None, 0, [], 0, 0, s.pending.Keys, {});
      var before := seq(i, j requires 0 <= j < i => s.calls[j].(later := s.calls[j].later + {x}));
      State(x, s.pending[x := i], before + [c], s.closed)
    case Panic(c) => Set(s, c, s.calls[c].(phase := Panicked))
    case Sent(c) => Set(s, c, s.calls[c].(phase := Waiting))
    case SendStopped(c, err) => Set(s, c, s.calls[c].(phase := Deleting(err)))
    case Delete(c) =>
      var s' := Remove(s, s.calls[c].xid);
      Set(s', c, s'.calls[c].(phase := Returned(Some(s.calls[c].phase.err))))
    case Receive(c) =>
      var r := s.calls[c].slot.value;
      Set(s, c, s.calls[c].(slot := None, phase := Returned(if IsSuccess(r) then None else Some(Failed(r)))))
    case GiveUp(c, err) => Set(s, c, s.calls[c].(phase := Deleting(err)))
    case GetReply(x, peer, r, decodes) =>
      if x in s.pending && s.pending[x] < |s.calls| && s.calls[s.pending[x]].peer == peer then
        var i := s.pending[x];
        var s' := Remove(s, x);
        Set(s', i, s'.calls[i].(claims := s'.calls[i].claims + [Final(r, decodes)]))
      else s
    case RunCallback(c) =>
      Set(s, c, Callback(s.calls[c].(claims := s.calls[c].claims[1..]), s.calls[c].claims[0]))
    case Cancel(x, reason) =>
      if x in s.pending && s.pending[x] < |s.calls| then
        var i := s.pending[x];
        var s' := Remove(s, x);
        Set(s', i, Callback(s'.calls[i], Reason(reason)))
      else s
    case CancelAll =>
      s.(pending := map[],
         calls := seq(|s.calls|, j requires 0 <= j < |s.calls| =>
           if Pending(s, j) then Recycle(Callback(s.calls[j], Accepted(CANCELED))) else s.calls[j]))
    case Close => s.(closed := true)
  }

  /** CallSet.delete: the entry goes and its record is recycled. */
  function Remove(s: State, x: nat): (s': State)
    ensures |s'.calls| == |s.calls|
  {
    if x in s.pending then
      var i := s.pending[x];
      s.(pending := map y | y in s.pending && y != x :: s.pending[y],
         calls := if i < |s.calls| then s.calls[i := Recycle(s.calls[i])] else s.calls)
    else s
  }

  // ------------------------------------------------------------------- invariant

  /** What holds of a call, given the table and whether the map holds its entry. */
  ghost predicate CallOk(M: nat, t: Table, pending: bool, c: Call) {
    && (InFlight(c) ==> Lap(M, c.xid, c.others, c.later, t))
    && (c.phase.Panicked? ==> !c.fits || c.nilCtx)
    && (!c.fits ==> c.phase.Sending? || c.phase.Panicked?)
    && (c.phase.Deleting? ==> !c.phase.err.Failed?)
    && (pending ==> !c.phase.Returned? && c.callbacks == c.recycles == 0 && c.claims == [])
    && (!pending ==> c.recycles == 1 && c.callbacks + |c.claims| <= 1)
    && c.closes == c.callbacks
    && (c.slot.Some? ==> c.callbacks == 1)
    && ((c.phase.Sending? || c.phase.Waiting?) && c.callbacks == 1 ==> c.slot.Some?)
  }

  /** No two calls in flight share an identifier. */
  ghost predicate Apart(calls: seq<Call>) {
    forall i, j :: 0 <= i < j < |calls| && InFlight(calls[i]) && InFlight(calls[j]) ==> calls[i].xid != calls[j].xid
  }

  /** The entry under the identifier of a call in flight is its own. */
  ghost predicate Own(s: State) {
    forall i :: 0 <= i < |s.calls| && InFlight(s.calls[i]) && s.calls[i].xid in s.pending ==> Pending(s, i)
  }

  ghost predicate Inv(M: nat, s: State) {
    && Valid(M, TableOf(s))
    && (forall x :: x in s.pending ==> s.pending[x] < |s.calls| && s.calls[s.pending[x]].xid == x)
    && (forall i :: 0 <= i < |s.calls| ==> CallOk(M, TableOf(s), Pending(s, i), s.calls[i]))
    && Apart(s.calls) && Own(s)
  }

  /** The environment's only promise: while a call is in flight, fewer calls begin than it takes
      lastXid to come around (2^32 less the calls pending when it began). */
  ghost predicate Modest(M: nat, s: State, a: Action) {
    a.Begin? ==> forall i :: 0 <= i < |s.calls| && InFlight(s.calls[i]) ==>
      |s.calls[i].others| + |s.calls[i].later| + 1 < M
  }

  lemma InvSet(M: nat, s: State, i: nat, c: Call)
    requires Inv(M, s) && i < |s.calls|
    requires c.xid == s.calls[i].xid && (InFlight(c) ==> InFlight(s.calls[i]))
    requires CallOk(M, TableOf(s), Pending(s, i), c)
    ensures Inv(M, Set(s, i, c))
  {
    hide CallOk, Valid;
    var s' := Set(s, i, c);
    assert TableOf(s') == TableOf(s);
    forall j | 0 <= j < |s'.calls| ensures CallOk(M, TableOf(s'), Pending(s', j), s'.calls[j]) {
      assert Pending(s', j) == Pending(s, j);
    }
  }

  lemma InvRemove(M: nat, s: State, x: nat)
    requires Inv(M, s)
    ensures Inv(M, Remove(s, x))
  {
    if x in s.pending {
      var i, s' := s.pending[x], Remove(s, x);
      assert TableOf(s').pending <= TableOf(s).pending;
      assert TableOf(s') == TableOf(s).(pending := TableOf(s').pending);
      assert CallOk(M, TableOf(s), true, s.calls[i]);
      forall j | 0 <= j < |s'.calls| ensures CallOk(M, TableOf(s'), Pending(s', j), s'.calls[j]) {
        assert CallOk(M, TableOf(s), Pending(s, j), s.calls[j]);
        if InFlight(s.calls[j]) {
          LapEnds(M, s.calls[j].xid, s.calls[j].others, s.calls[j].later, TableOf(s), TableOf(s').pending);
        }
        if j != i { assert Pending(s', j) == Pending(s, j); }
      }
    }
  }

  lemma CallBegin(M: nat, t: Table, pending: bool, c: Call)
    requires CallOk(M, t, pending, c) && Valid(M, t) && |t.pending| < M
    requires InFlight(c) ==> |c.others| + |c.later| + 1 < M
    ensures CallOk(M, Xids.Begin(M, t), pending, c.(later := c.later + {NewXid(M, t)}))
    ensures InFlight(c) ==> c.xid != NewXid(M, t)
  {
    hide Lap, Valid;
    if InFlight(c) { LapGoesOn(M, c.xid, c.others, c.later, t); }
  }

  lemma BeginKeeps(M: nat, s: State, peer: string, fits: bool, nilCtx: bool, i: nat)
    requires Inv(M, s) && i < |s.calls|
    requires Enabled(M, s, Begin(peer, fits, nilCtx)) && Modest(M, s, Begin(peer, fits, nilCtx))
    ensures var s' := Next(M, s, Begin(peer, fits, nilCtx));
      && |s'.calls| == |s.calls| + 1
      && Pending(s', i) == Pending(s, i)
      && CallOk(M, Xids.Begin(M, TableOf(s)), Pending(s', i), s'.calls[i])
      && s'.calls[i].xid == s.calls[i].xid && InFlight(s'.calls[i]) == InFlight(s.calls[i])
      && (InFlight(s.calls[i]) ==> s.calls[i].xid != s'.last)
  {
    hide CallOk, Valid, Lap, NewXid, Apart, Own, Xids.Begin;
    CallBegin(M, TableOf(s), Pending(s, i), s.calls[i]);
  }

  lemma InvBegin(M: nat, s: State, peer: string, fits: bool, nilCtx: bool)
    requires Inv(M, s) && Enabled(M, s, Begin(peer, fits, nilCtx)) && Modest(M, s, Begin(peer, fits, nilCtx))
    ensures Inv(M, Next(M, s, Begin(peer, fits, nilCtx)))
  {
    hide CallOk, Valid, Lap, InFlight, NewXid, Apart, Own, Xids.Begin;
    var t, s', n := TableOf(s), Next(M, s, Begin(peer, fits, nilCtx)), |s.calls|;
    TableBegin(M, s, peer, fits, nilCtx);
    BeginsOk(M, t, s'.calls[n], peer, fits, nilCtx);
    forall i | 0 <= i < n { BeginKeeps(M, s, peer, fits, nilCtx, i); }
    SeparateBegin(s, s');
    assert forall x :: x in s.pending ==> s'.pending[x] == s.pending[x];
  }

  lemma TableBegin(M: nat, s: State, peer: string, fits: bool, nilCtx: bool)
    requires Enabled(M, s, Begin(peer, fits, nilCtx))
    ensures TableOf(Next(M, s, Begin(peer, fits, nilCtx))) == Xids.Begin(M, TableOf(s))
  {
    hide NewXid, Valid;
    var s' := Next(M, s, Begin(peer, fits, nilCtx));
    assert s'.pending.Keys == s.pending.Keys + {s'.last};
  }

  lemma SeparateBegin(s: State, s': State)
    requires Apart(s.calls) && Own(s) && |s'.calls| == |s.calls| + 1
    requires s'.calls[|s.calls|].xid == s'.last && s'.pending == s.pending[s'.last := |s.calls|]
    requires forall i :: 0 <= i < |s.calls| ==>
               && s'.calls[i].xid == s.calls[i].xid && InFlight(s'.calls[i]) == InFlight(s.calls[i])
               && (InFlight(s.calls[i]) ==> s.calls[i].xid != s'.last)
    ensures Apart(s'.calls) && Own(s')
  {
    hide InFlight;
  }

  lemma BeginsOk(M: nat, t: Table, c: Call, peer: string, fits: bool, nilCtx: bool)
    requires Valid(M, t) && |t.pending| < M
    requires c == Call(NewXid(M, t), peer, fits, nilCtx, Sending, None, 0, [], 0, 0, t.pending, {})
    ensures CallOk(M, Xids.Begin(M, t), true, c)
  {
    hide Lap;
    LapBegins(M, t);
  }

  lemma InvCancelAll(M: nat, s: State)
    requires Inv(M, s)
    ensures Inv(M, Next(M, s, CancelAll))
  {
    hide Lap;
    var s' := Next(M, s, CancelAll);
    assert TableOf(s') == TableOf(s).(pending := {});
    forall i | 0 <= i < |s.calls| ensures CallOk(M, TableOf(s'), false, s'.calls[i]) {
      var c := s.calls[i];
      assert CallOk(M, TableOf(s), Pending(s, i), c);
      if InFlight(c) { LapEnds(M, c.xid, c.others, c.later, TableOf(s), {}); }
    }
  }

  /** The steps that take a call out of the table. */
  lemma InvTaken(M: nat, s: State, a: Action)
    requires Inv(M, s) && Enabled(M, s, a) && (a.Delete? || a.GetReply? || a.Cancel?)
    ensures Inv(M, Next(M, s, a))
  {
    hide Lap, Valid, Apart, NewXid;
    if a.Delete? {
      var x := s.calls[a.c].xid;
      assert x in s.pending ==> Pending(s, a.c);
      InvRemove(M, s, x);
      InvSet(M, Remove(s, x), a.c, Next(M, s, a).calls[a.c]);
    } else if a.xid in s.pending && Next(M, s, a) != s {
      var i := s.pending[a.xid];
      InvRemove(M, s, a.xid);
      InvSet(M, Remove(s, a.xid), i, Next(M, s, a).calls[i]);
    }
  }

  /** Every step keeps the invariant. */
  lemma InvNext(M: nat, s: State, a: Action)
    requires Inv(M, s) && Enabled(M, s, a) && Modest(M, s, a)
    ensures Inv(M, Next(M, s, a))
  {
    hide Lap, Valid, Apart, Own, NewXid;
    if a.Begin? {
      InvBegin(M, s, a.peer, a.fits, a.nilCtx);
    } else if a.CancelAll? {
      InvCancelAll(M, s);
    } else if a.Close? {
      InvClose(M, s);
    } else if a.Delete? || a.GetReply? || a.Cancel? {
      InvTaken(M, s, a);
    } else {
      InvSet(M, s, a.c, Next(M, s, a).calls[a.c]);
    }
  }

  lemma InvClose(M: nat, s: State)
    requires Inv(M, s)
    ensures Inv(M, s.(closed := true))
  {
    hide CallOk;
    var s' := s.(closed := true);
    assert TableOf(s') == TableOf(s);
    forall j | 0 <= j < |s.calls| ensures CallOk(M, TableOf(s'), Pending(s', j), s'.calls[j]) {
      assert Pending(s', j) == Pending(s, j);
    }
  }

  // ------------------------------------------------------------------- whole runs

  /** Each action of the run was enabled where it happened. */
  ghost predicate Possible(M: nat, run: seq<Action>)
    decreases |run|, 0
  {
    run == [] ||
    var n := |run| - 1;
    Possible(M, run[..n]) && Enabled(M, After(M, run[..n]), run[n])
  }

  /** The state after a run. */
  ghost function After(M: nat, run: seq<Action>): State
    requires Possible(M, run)
    decreases |run|, 1
  {
    if run == [] then Init() else Next(M, After(M, run[..|run| - 1]), run[|run| - 1])
  }

  /** A run in which the environment keeps its promise. */
  ghost predicate Legal(M: nat, run: seq<Action>)
    ensures Legal(M, run) ==> Possible(M, run)
  {
    run == [] ||
    var n := |run| - 1;
    && Legal(M, run[..n])
    && Enabled(M, After(M, run[..n]), run[n]) && Modest(M, After(M, run[..n]), run[n])
  }

  lemma {:induction false} Invariant(M: nat, run: seq<Action>)
    requires M > 0 && Legal(M, run)
    ensures Inv(M, After(M, run))
    decreases |run|
  {
    if run != [] {
      var n := |run| - 1;
      Invariant(M, run[..n]);
      InvNext(M, After(M, run[..n]), run[n]);
    }
  }

  /** Call conservation over every interleaving: each call's callback runs at most once and its
      record is recycled at most once; once SendCall has returned the record has been recycled
      and the map no longer holds the call. */
  lemma Conservation(M: nat, run: seq<Action>, i: nat)
    requires M > 0 && Legal(M, run) && i < |After(M, run).calls|
    ensures var s := After(M, run); var c := s.calls[i];
      && c.callbacks + |c.claims| <= 1
      && c.recycles == (if Pending(s, i) then 0 else 1)
      && (c.phase.Returned? ==> !Pending(s, i))
  {
    hide Lap;
    Invariant(M, run);
    var s := After(M, run);
    assert CallOk(M, TableOf(s), Pending(s, i), s.calls[i]);
  }

  /** The steps that take a call out of the table on someone else's part: a reply from its peer,
      or a cancellation. */
  predicate Takes(c: Call, a: Action) {
    match a
    case GetReply(x, peer, _, _) => x == c.xid && peer == c.peer
    case Cancel(x, _) => x == c.xid
    case CancelAll => true
    case _ => false
  }

  /** No such step has been taken since call i began. */
  ghost predicate Untouched(M: nat, run: seq<Action>, i: nat)
    requires Legal(M, run) && i < |After(M, run).calls|
    decreases |run|
  {
    var n := |run| - 1;
    var s := After(M, run[..n]);
    i < |s.calls| ==> Untouched(M, run[..n], i) && !Takes(s.calls[i], run[n])
  }

  lemma TakesStep(M: nat, s: State, a: Action, i: nat)
    requires Inv(M, s) && Enabled(M, s, a) && i < |s.calls|
    ensures |s.calls| <= |Next(M, s, a).calls|
    ensures Pending(Next(M, s, a), i) <==> Pending(s, i) && !Takes(s.calls[i], a) && a != Delete(i)
  {
    hide Lap, Valid, Apart, CallOk, Final, Reason;
    if a.Delete? {
      assert s.calls[a.c].xid in s.pending ==> Pending(s, a.c);
    }
    if a.Begin? {
      assert NewXid(M, TableOf(s)) !in s.pending;
    }
  }

  lemma ReturnsStep(M: nat, s: State, a: Action, i: nat)
    requires Inv(M, s) && Enabled(M, s, a) && i < |s.calls|
    ensures |s.calls| <= |Next(M, s, a).calls|
    ensures Next(M, s, a).calls[i].phase.Returned? <==> s.calls[i].phase.Returned? || a == Delete(i) || a == Receive(i)
    ensures a == Receive(i) ==> !Pending(s, i)
  {
    hide Lap, Valid, Apart, Own, NewXid;
    assert CallOk(M, TableOf(s), Pending(s, i), s.calls[i]);
  }

  /** Over every interleaving a call is in the table exactly from its begin until its SendCall
      returns or a reply from its peer or a cancellation takes it. */
  lemma {:induction false} PendingExactly(M: nat, run: seq<Action>, i: nat)
    requires M > 0 && Legal(M, run) && i < |After(M, run).calls|
    ensures Pending(After(M, run), i) <==> Untouched(M, run, i) && !After(M, run).calls[i].phase.Returned?
    decreases |run|
  {
    hide Next, Inv;
    var n := |run| - 1;
    var s := After(M, run[..n]);
    Invariant(M, run[..n]);
    if i < |s.calls| {
      PendingExactly(M, run[..n], i);
      TakesStep(M, s, run[n], i);
      ReturnsStep(M, s, run[n], i);
    } else {
      BeginsPending(M, s, run[n], i);
    }
  }

  lemma BeginsPending(M: nat, s: State, a: Action, i: nat)
    requires Enabled(M, s, a) && |s.calls| <= i < |Next(M, s, a).calls|
    ensures Pending(Next(M, s, a), i) && Next(M, s, a).calls[i].phase.Sending?
  {
    hide NewXid, Valid;
  }

  /** A SendCall acts only after it began. */
  lemma {:induction false} ActedBegan(M: nat, run: seq<Action>, a: Action, i: nat)
    requires Legal(M, run) && a in run && OwnStep(a, i)
    ensures i < |After(M, run).calls|
    decreases |run|
  {
    hide Next, Modest;
    var n := |run| - 1;
    assert run == run[..n] + [run[n]];
    if a in run[..n] { ActedBegan(M, run[..n], a, i); }
    CallsGrow(M, After(M, run[..n]), run[n]);
  }

  lemma CallsGrow(M: nat, s: State, a: Action)
    requires Enabled(M, s, a)
    ensures |Next(M, s, a).calls| == |s.calls| + if a.Begin? then 1 else 0
    ensures a.Begin? ==> Next(M, s, a).calls[|s.calls|].phase.Sending?
  {
    hide NewXid, Valid;
  }

  /** Whether a call with a nil context has been enqueued shows in its phase. */
  lemma {:induction false} SentExactly(M: nat, run: seq<Action>, i: nat)
    requires Legal(M, run) && i < |After(M, run).calls| && After(M, run).calls[i].nilCtx
    ensures var c := After(M, run).calls[i];
            Sent(i) in run <==> c.fits && (c.phase.Waiting? || c.phase.Panicked?)
    decreases |run|
  {
    hide Next, Modest, Enabled;
    var n := |run| - 1;
    var s := After(M, run[..n]);
    assert run == run[..n] + [run[n]];
    CallsGrow(M, s, run[n]);
    if i < |s.calls| {
      SentStep(M, s, run[n], i);
      SentExactly(M, run[..n], i);
    } else if Sent(i) in run {
      assert run[n] != Sent(i);
      ActedBegan(M, run[..n], Sent(i), i);
    }
  }

  lemma SentStep(M: nat, s: State, a: Action, i: nat)
    requires Enabled(M, s, a) && i < |s.calls|
    ensures |s.calls| <= |Next(M, s, a).calls|
    ensures var c, c' := s.calls[i], Next(M, s, a).calls[i];
      && c'.nilCtx == c.nilCtx && c'.fits == c.fits
      && (c.nilCtx && c.fits ==>
            (c'.phase.Waiting? || c'.phase.Panicked? <==> c.phase.Waiting? || c.phase.Panicked? || a == Sent(i)))
      && (!c.fits ==> a != Sent(i))
  {
    hide NewXid, Valid;
  }

  /** Why a SendCall that is no longer in flight has not returned: its argument does not marshal,
      or it was given no context and had enqueued its message. */
  predicate Stuck(run: seq<Action>, c: Call, i: nat) {
    !c.fits || (c.nilCtx && Sent(i) in run)
  }

  /** When no SendCall is in flight, the table holds exactly the calls whose SendCall is stuck and
      that no reply or cancellation has taken since. */
  lemma LeftOver(M: nat, run: seq<Action>, x: nat)
    requires M > 0 && Legal(M, run)
    requires forall i :: 0 <= i < |After(M, run).calls| ==> !InFlight(After(M, run).calls[i])
    ensures var s := After(M, run);
      x in s.pending <==>
      exists i :: 0 <= i < |s.calls| && s.calls[i].xid == x && Stuck(run, s.calls[i], i) && Untouched(M, run, i)
  {
    hide Lap;
    Invariant(M, run);
    var s := After(M, run);
    forall i | 0 <= i < |s.calls|
      ensures Pending(s, i) <==> Untouched(M, run, i) && Stuck(run, s.calls[i], i)
    {
      assert CallOk(M, TableOf(s), Pending(s, i), s.calls[i]);
      PendingExactly(M, run, i);
      if s.calls[i].nilCtx { SentExactly(M, run, i); }
    }
    if x in s.pending {
      assert Pending(s, s.pending[x]);
    }
  }

  /** So the table is empty if every argument marshals and no context is nil. */
  lemma NothingLeft(M: nat, run: seq<Action>)
    requires M > 0 && Legal(M, run)
    requires forall i :: 0 <= i < |After(M, run).calls| ==> !InFlight(After(M, run).calls[i])
    requires forall k :: 0 <= k < |run| && run[k].Begin? ==> run[k].fits && !run[k].nilCtx
    ensures After(M, run).pending == map[]
  {
    forall x ensures x !in After(M, run).pending {
      LeftOver(M, run, x);
      AllSound(M, run);
    }
  }

  lemma {:induction false} AllSound(M: nat, run: seq<Action>)
    requires Legal(M, run)
    requires forall k :: 0 <= k < |run| && run[k].Begin? ==> run[k].fits && !run[k].nilCtx
    ensures forall i :: 0 <= i < |After(M, run).calls| ==> After(M, run).calls[i].fits && !After(M, run).calls[i].nilCtx
    decreases |run|
  {
    if run != [] {
      var n := |run| - 1;
      AllSound(M, run[..n]);
      SoundStep(M, After(M, run[..n]), run[n]);
    }
  }

  lemma SoundStep(M: nat, s: State, a: Action)
    requires Enabled(M, s, a) && (a.Begin? ==> a.fits && !a.nilCtx)
    requires forall i :: 0 <= i < |s.calls| ==> s.calls[i].fits && !s.calls[i].nilCtx
    ensures forall i :: 0 <= i < |Next(M, s, a).calls| ==>
              Next(M, s, a).calls[i].fits && !Next(M, s, a).calls[i].nilCtx
  {
    hide NewXid, Valid;
  }

  /** One call with an argument that does not marshal leaves its entry behind. */
  lemma PanicLeaks(M: nat, peer: string, nilCtx: bool)
    requires M > 0
    ensures var run := [Begin(peer, false, nilCtx), Panic(0)];
      && Legal(M, run) && After(M, run).pending != map[]
      && forall i :: 0 <= i < |After(M, run).calls| ==> !InFlight(After(M, run).calls[i])
  {
    var run := [Begin(peer, false, nilCtx), Panic(0)];
    assert run[..1] == [Begin(peer, false, nilCtx)] && run[..1][..0] == [];
    assert Legal(M, []) && Legal(M, run[..1]);
    assert After(M, run[..1]) == Next(M, Init(), Begin(peer, false, nilCtx));
  }

  /** So does one call with a nil context, although its argument marshals and is sent. */
  lemma NilContextLeaks(M: nat, peer: string)
    requires M > 0
    ensures var run := [Begin(peer, true, true), Sent(0), Panic(0)];
      && Legal(M, run) && After(M, run).pending != map[]
      && forall i :: 0 <= i < |After(M, run).calls| ==> !InFlight(After(M, run).calls[i])
  {
    var run := [Begin(peer, true, true), Sent(0), Panic(0)];
    assert run[..2] == [Begin(peer, true, true), Sent(0)] && run[..2][..1] == [Begin(peer, true, true)];
    assert run[..2][..1][..0] == [];
    assert Legal(M, []) && Legal(M, run[..2][..1]);
    assert After(M, run[..2][..1]) == Next(M, Init(), Begin(peer, true, true));
    assert Legal(M, run[..2]);
  }

  /** Delete goes by identifier, and still a SendCall that deletes changes no call but its own,
      nor any other entry. */
  lemma DeletesOwn(M: nat, run: seq<Action>, c: nat)
    requires M > 0 && Legal(M, run) && Enabled(M, After(M, run), Delete(c))
    ensures var s, s' := After(M, run), Next(M, After(M, run), Delete(c));
      && (forall i :: 0 <= i < |s.calls| && i != c ==> s'.calls[i] == s.calls[i] && Pending(s', i) == Pending(s, i))
      && s'.calls[c].phase.Returned? && !Pending(s', c) && s'.calls[c].recycles == 1
  {
    hide Lap, Apart;
    Invariant(M, run);
    var s := After(M, run);
    assert s.calls[c].xid in s.pending ==> Pending(s, c);
    assert CallOk(M, TableOf(s), Pending(s, c), s.calls[c]);
  }

  /** Whose callback a step runs. */
  ghost predicate RunsCallback(s: State, a: Action, i: nat)
    requires i < |s.calls|
  {
    match a
    case RunCallback(c) => c == i
    case Cancel(x, _) => x in s.pending && s.pending[x] == i
    case CancelAll => Pending(s, i)
    case _ => false
  }

  /** A callback finds its one-slot channel empty and open, so it never blocks while holding the
      CallSet's lock and never closes the channel twice. */
  lemma CallbackNeverBlocks(M: nat, run: seq<Action>, a: Action, i: nat)
    requires M > 0 && Legal(M, run) && Enabled(M, After(M, run), a)
    requires i < |After(M, run).calls| && RunsCallback(After(M, run), a, i)
    ensures After(M, run).calls[i].slot.None? && After(M, run).calls[i].closes == 0
  {
    hide Lap;
    Invariant(M, run);
    var s := After(M, run);
    assert CallOk(M, TableOf(s), Pending(s, i), s.calls[i]);
  }

  /** How many steps of its own a SendCall still has at most. */
  function StepsLeft(c: Call): nat {
    match c.phase
    case Sending => 3
    case Waiting => 2
    case Deleting(_) => 1
    case Returned(_) => 0
    case Panicked => 0
  }

  /** What a SendCall can do by itself once the driver's context is done. */
  function Leave(s: State, i: nat): Action
    requires i < |s.calls|
  {
    match s.calls[i].phase
    case Sending => if s.calls[i].fits then SendStopped(i, TransportClosed) else Panic(i)
    case Waiting => if s.calls[i].nilCtx then Panic(i) else GiveUp(i, TransportClosed)
    case _ => Delete(i)
  }

  /** The step is one of call i's own SendCall. */
  predicate OwnStep(a: Action, i: nat) {
    match a
    case Panic(c) => c == i
    case Sent(c) => c == i
    case SendStopped(c, _) => c == i
    case Delete(c) => c == i
    case Receive(c) => c == i
    case GiveUp(c, _) => c == i
    case _ => false
  }

  function OwnSteps(run: seq<Action>, i: nat): nat {
    if run == [] then 0
    else OwnSteps(run[..|run| - 1], i) + if OwnStep(run[|run| - 1], i) then 1 else 0
  }

  lemma DrainsStep(M: nat, s: State, i: nat, a: Action)
    requires i < |s.calls| && Enabled(M, s, a)
    ensures |Next(M, s, a).calls| >= |s.calls|
    ensures StepsLeft(Next(M, s, a).calls[i]) + (if OwnStep(a, i) then 1 else 0) <= StepsLeft(s.calls[i])
    ensures s.closed ==> Next(M, s, a).closed
  {
    hide NewXid, Valid;
  }

  lemma LeaveEnabled(M: nat, s: State, i: nat)
    requires i < |s.calls| && s.closed && InFlight(s.calls[i])
    ensures OwnStep(Leave(s, i), i) && Enabled(M, s, Leave(s, i)) && Modest(M, s, Leave(s, i))
  {
  }

  lemma StartsWithThree(c: Call)
    ensures StepsLeft(c) <= 3
  {
  }

  lemma ClosedStep(M: nat, s: State, a: Action)
    requires Enabled(M, s, a)
    ensures Next(M, s, a).closed <==> s.closed || a == Close
  {
    hide Enabled, NewXid, Valid, Callback, Recycle;
  }

  lemma {:induction false} ClosedExactly(M: nat, run: seq<Action>)
    requires Legal(M, run)
    ensures After(M, run).closed <==> Close in run
    decreases |run|
  {
    hide Next, Enabled, Modest, NewXid, Valid;
    if run != [] {
      var n := |run| - 1;
      assert run == run[..n] + [run[n]];
      ClosedExactly(M, run[..n]);
      ClosedStep(M, After(M, run[..n]), run[n]);
    }
  }

  /** Shutdown: whatever else goes on, once the driver's context is done a SendCall in flight can
      always take a step of its own towards returning, and it takes at most three in all. */
  lemma {:induction false} Drains(M: nat, run: seq<Action>, more: seq<Action>, i: nat)
    requires Legal(M, run) && Legal(M, run + more) && i < |After(M, run).calls|
    ensures var s, s' := After(M, run), After(M, run + more);
      && i < |s'.calls|
      && StepsLeft(s'.calls[i]) + OwnSteps(more, i) <= StepsLeft(s.calls[i]) <= 3
      && (s.closed ==> s'.closed)
      && (s.closed && InFlight(s'.calls[i]) ==>
            && OwnStep(Leave(s', i), i) && Legal(M, run + more + [Leave(s', i)])
            && StepsLeft(Next(M, s', Leave(s', i)).calls[i]) < StepsLeft(s'.calls[i]))
    decreases |more|
  {
    hide Next, Enabled, InFlight, StepsLeft, OwnStep;
    StartsWithThree(After(M, run).calls[i]);
    if more == [] {
      assert run + more == run;
    } else {
      var n := |more| - 1;
      assert (run + more)[..|run| + n] == run + more[..n];
      Drains(M, run, more[..n], i);
      DrainsStep(M, After(M, run + more[..n]), i, more[n]);
    }
    var s' := After(M, run + more);
    if s'.closed && InFlight(s'.calls[i]) {
      assert (run + more + [Leave(s', i)])[..|run + more|] == run + more;
      LeaveEnabled(M, s', i);
      DrainsStep(M, s', i, Leave(s', i));
    }
  }
}
