/** What happens when the environment begins more calls during one call than Calls.Modest allows. */
module Wraps {
  import opened Bytes
  import Xids
  import opened Calls

  /** The call that Begin adds has the identifier after lastXid when the table is empty. */
  lemma BeginNext(M: nat, s: State)
    requires M > 0 && Xids.Valid(M, TableOf(s)) && s.pending == map[]
    ensures Enabled(M, s, Begin("", true, false))
    ensures var x, s' := Xids.At(M, s.last, 1), Next(M, s, Begin("", true, false));
      && s'.last == x && s'.pending == map[x := |s.calls|] && |s'.calls| == |s.calls| + 1
      && s'.calls[|s.calls|].xid == x && s'.calls[|s.calls|].phase.Sending?
      && s'.calls[|s.calls|].fits && !s'.calls[|s.calls|].nilCtx
      && forall i :: 0 <= i < |s.calls| ==> Same(s'.calls[i], s.calls[i])
  {
    assert TableOf(s).pending == {};
  }

  predicate Same(c: Call, c': Call) {
    c.xid == c'.xid && c.phase == c'.phase && c.fits == c'.fits && c.nilCtx == c'.nilCtx
  }

  lemma Extend(M: nat, run: seq<Action>, a: Action)
    requires Possible(M, run) && Enabled(M, After(M, run), a)
    ensures Possible(M, run + [a]) && After(M, run + [a]) == Next(M, After(M, run), a)
  {
    assert (run + [a])[..|run|] == run;
  }

  /** A call that begins and is cancelled moves lastXid on by one and leaves the table empty. */
  lemma OneTurn(M: nat, run: seq<Action>) returns (more: seq<Action>)
    requires M > 0 && Possible(M, run)
    requires Xids.Valid(M, TableOf(After(M, run))) && After(M, run).pending == map[]
    ensures Possible(M, more)
    ensures var s, s' := After(M, run), After(M, more);
      && s'.last == Xids.At(M, s.last, 1) && s'.pending == map[] && |s'.calls| == |s.calls| + 1
      && Xids.Valid(M, TableOf(s'))
      && s'.calls[|s.calls|].xid == s'.last && s'.calls[|s.calls|].phase.Sending?
      && s'.calls[|s.calls|].fits && !s'.calls[|s.calls|].nilCtx
      && forall i :: 0 <= i < |s.calls| ==> Same(s'.calls[i], s.calls[i])
  {
    hide Xids.NewXid;
    var s := After(M, run);
    BeginNext(M, s);
    Extend(M, run, Begin("", true, false));
    more := run + [Begin("", true, false)];
    var x := Xids.At(M, s.last, 1);
    var s1 := After(M, more);
    Extend(M, more, Cancel(x, None));
    more := more + [Cancel(x, None)];
    assert After(M, more) == Next(M, s1, Cancel(x, None));
  }

  /** n such calls move it on by n. */
  lemma {:induction false} Turns(M: nat, run: seq<Action>, n: nat) returns (more: seq<Action>)
    requires 0 < M && n < M && Possible(M, run) && After(M, run).calls != []
    requires Xids.Valid(M, TableOf(After(M, run))) && After(M, run).pending == map[]
    ensures Possible(M, more)
    ensures var s, s' := After(M, run), After(M, more);
      && s'.last == Xids.At(M, s.last, n) && s'.pending == map[] && |s'.calls| == |s.calls| + n
      && Xids.Valid(M, TableOf(s')) && Same(s'.calls[0], s.calls[0])
  {
    hide Next, Enabled, Possible;
    more := run;
    if n > 0 {
      more := Turns(M, run, n - 1);
      more := OneTurn(M, more);
    }
  }

  /** For every M there is a run that breaks Calls.Modest in which a SendCall deletes the entry of
      another call that is in flight: its own entry is cancelled, lastXid comes around while it
      still offers its message, the other call gets its identifier, and then its context ends. */
  lemma DeletesAnothers(M: nat) returns (run: seq<Action>, c: nat, other: nat)
    requires M > 0
    ensures Possible(M, run) && Enabled(M, After(M, run), Delete(c))
    ensures var s, s' := After(M, run), Next(M, After(M, run), Delete(c));
      && other != c && other < |s.calls| && InFlight(s.calls[other])
      && Pending(s, other) && !Pending(s', other)
    ensures !Legal(M, run)
  {
    hide Xids.NewXid, Legal;
    run := [];
    assert Possible(M, run) && After(M, run) == Init();
    run := OneTurn(M, run);
    var x := After(M, run).last;
    run := Turns(M, run, M - 1);
    var s := After(M, run);
    assert Xids.At(M, s.last, 1) == x;
    BeginNext(M, s);
    Extend(M, run, Begin("", true, false));
    run := run + [Begin("", true, false)];
    Extend(M, run, SendStopped(0, ContextDone));
    run := run + [SendStopped(0, ContextDone)];
    c, other := 0, M;
    NotLegal(M, run);
  }

  lemma NotLegal(M: nat, run: seq<Action>)
    requires M > 0 && Possible(M, run) && Enabled(M, After(M, run), Delete(0))
    requires After(M, run).calls[0].xid in After(M, run).pending
    requires !Pending(After(M, run), 0)
    ensures !Legal(M, run)
  {
    if Legal(M, run) {
      Invariant(M, run);
    }
  }
}
