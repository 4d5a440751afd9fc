/** The failure latch of StreamTransport: any number of goroutines in fail, failed and Close,
    interleaved at every atomic operation and every access to the error. */
module Latch {
  import opened Bytes

  const OKAY: int := 1
  const FAILING: int := -1
  const FAILED: int := 0

  /** Where a goroutine is: outside; in fail, having won the swap, written the error, closed the
      connection; past a failed() that said true; or holding the error it then read. */
  datatype Thread = Outside | Won(err: nat) | Wrote(err: nat) | Closed | SawFailure | Got(read: Option<nat>)

  datatype State = State(okay: int, err: Option<nat>, writes: nat, closes: nat, threads: seq<Thread>)

  datatype Action =
    | Swap(i: nat, err: nat)   // CompareAndSwap(okay, 1, -1), by fail(err)
    | WriteError(i: nat)
    | CloseConn(i: nat)
    | Store(i: nat)            // okay = 0
    | Load(i: nat)             // one turn of the loop in failed
    | ReadError(i: nat)
    | Leave(i: nat)            // the caller goes on, and may come back

  function Init(n: nat): State {
    State(OKAY, None, 0, 0, seq(n, _ => Outside))
  }

  predicate Enabled(s: State, a: Action) {
    && a.i < |s.threads|
    && var t := s.threads[a.i];
       match a
       case Swap(_, _) => t.Outside?
       case WriteError(_) => t.Won?
       case CloseConn(_) => t.Wrote?
       case Store(_) => t.Closed?
       case Load(_) => t.Outside?
       case ReadError(_) => t.SawFailure?
       case Leave(_) => t.Got?
  }

  function Next(s: State, a: Action): State
    requires Enabled(s, a)
  {
    var i := a.i;
    match a
    case Swap(_, e) => if s.okay == OKAY then s.(okay := FAILING, threads := s.threads[i := Won(e)]) else s
    case WriteError(_) =>
      s.(err := Some(s.threads[i].err), writes := s.writes + 1, threads := s.threads[i := Wrote(s.threads[i].err)])
    case CloseConn(_) => s.(closes := s.closes + 1, threads := s.threads[i := Closed])
    case Store(_) => s.(okay := FAILED, threads := s.threads[i := Outside])
    case Load(_) => if s.okay == FAILED then s.(threads := s.threads[i := SawFailure]) else s
    case ReadError(_) => s.(threads := s.threads[i := Got(s.err)])
    case Leave(_) => s.(threads := s.threads[i := Outside])
  }

  predicate Failing(t: Thread) {
    t.Won? || t.Wrote? || t.Closed?
  }

  ghost predicate Inv(s: State) {
    && s.okay in {OKAY, FAILING, FAILED}
    && (forall i, j :: 0 <= i < j < |s.threads| ==> !(Failing(s.threads[i]) && Failing(s.threads[j])))
    && (s.okay == FAILING <==> exists i :: 0 <= i < |s.threads| && Failing(s.threads[i]))
    && (s.okay == OKAY ==> s.err == None && s.writes == s.closes == 0)
    && (s.okay == FAILED ==> s.err.Some? && s.writes == s.closes == 1)
    && (forall i :: 0 <= i < |s.threads| ==> ThreadOk(s, s.threads[i]))
  }

  ghost predicate ThreadOk(s: State, t: Thread) {
    match t
    case Won(_) => s.writes == s.closes == 0
    case Wrote(e) => s.err == Some(e) && s.writes == 1 && s.closes == 0
    case Closed => s.err.Some? && s.writes == s.closes == 1
    case SawFailure => s.okay == FAILED
    case Got(read) => s.okay == FAILED && read == s.err
    case Outside => true
  }

  lemma InvNext(s: State, a: Action)
    requires Inv(s) && Enabled(s, a)
    ensures Inv(Next(s, a))
  {
    var s' := Next(s, a);
    if Failing(s.threads[a.i]) {
      assert s.okay == FAILING;
      forall j | 0 <= j < |s.threads| && j != a.i ensures !Failing(s.threads[j]) && ThreadOk(s', s.threads[j]) {
        assert ThreadOk(s, s.threads[j]);
      }
    }
    if Failing(s'.threads[a.i]) {
      assert s'.okay == FAILING;
    } else if s'.okay == FAILING {
      var k :| 0 <= k < |s.threads| && Failing(s.threads[k]);
      assert Failing(s'.threads[k]);
    }
  }

  ghost predicate Legal(n: nat, run: seq<Action>)
    decreases |run|, 0
  {
    run == [] ||
    var k := |run| - 1;
    Legal(n, run[..k]) && Enabled(After(n, run[..k]), run[k])
  }

  ghost function After(n: nat, run: seq<Action>): State
    requires Legal(n, run)
    decreases |run|, 1
  {
    if run == [] then Init(n) else Next(After(n, run[..|run| - 1]), run[|run| - 1])
  }

  lemma {:induction false} Invariant(n: nat, run: seq<Action>)
    requires Legal(n, run)
    ensures Inv(After(n, run))
    decreases |run|
  {
    if run != [] {
      Invariant(n, run[..|run| - 1]);
      InvNext(After(n, run[..|run| - 1]), run[|run| - 1]);
    }
  }

  /** The state only moves from okay to failing to failed; the error is written once and the
      connection closed once, both before anyone sees the failure. */
  lemma OneWay(n: nat, run: seq<Action>)
    requires Legal(n, run) && run != [] && Legal(n, run[..|run| - 1])
    ensures var s, s' := After(n, run[..|run| - 1]), After(n, run);
      && (s'.okay == s.okay || (s.okay == OKAY && s'.okay == FAILING) || (s.okay == FAILING && s'.okay == FAILED))
      && s'.writes <= 1 && s'.closes <= 1
      && (s'.okay == FAILED ==> s'.err.Some? && s'.writes == s'.closes == 1)
  {
    hide Inv, Next, Enabled;
    Invariant(n, run[..|run| - 1]);
    Invariant(n, run);
    Moves(After(n, run[..|run| - 1]), run[|run| - 1]);
    OncePerLatch(After(n, run));
  }

  lemma Moves(s: State, a: Action)
    requires Inv(s) && Enabled(s, a)
    ensures var s' := Next(s, a);
            s'.okay == s.okay || (s.okay == OKAY && s'.okay == FAILING) || (s.okay == FAILING && s'.okay == FAILED)
  {
    assert a.Store? ==> Failing(s.threads[a.i]);
  }

  lemma OncePerLatch(s: State)
    requires Inv(s)
    ensures s.writes <= 1 && s.closes <= 1
    ensures s.okay == FAILED ==> s.err.Some? && s.writes == s.closes == 1
  {
    if s.okay == FAILING {
      var k :| 0 <= k < |s.threads| && Failing(s.threads[k]);
      assert ThreadOk(s, s.threads[k]);
    }
  }

  /** Whatever a goroutine reads after failed() said true is the error every other such
      goroutine reads, now or at any later time. */
  lemma {:induction false} OneError(n: nat, run: seq<Action>, k: nat, i: nat)
    requires Legal(n, run) && k <= |run| && Legal(n, run[..k])
    requires i < |After(n, run[..k]).threads| && After(n, run[..k]).threads[i].Got?
    ensures After(n, run).okay == FAILED && After(n, run).err == After(n, run[..k]).threads[i].read
    ensures After(n, run).err.Some?
    decreases |run|
  {
    Invariant(n, run[..k]);
    var s := After(n, run[..k]);
    assert ThreadOk(s, s.threads[i]);
    if k == |run| {
      assert run[..k] == run;
    } else {
      var m := |run| - 1;
      assert run[..m][..k] == run[..k];
      OneError(n, run[..m], k, i);
      Invariant(n, run[..m]);
      var t := After(n, run[..m]);
      assert !Failing(t.threads[run[m].i]);
    }
  }

  /** The swap of a run that failed the transport. */
  ghost predicate Wins(n: nat, run: seq<Action>, k: nat)
    requires Legal(n, run)
  {
    k < |run| && Legal(n, run[..k]) && run[k].Swap? && After(n, run[..k]).okay == OKAY
  }

  /** What the threads carry is the error of that swap. */
  predicate Carries(s: State, err: nat) {
    && s.okay != OKAY && (s.err.Some? ==> s.err.value == err)
    && forall i :: 0 <= i < |s.threads| ==>
         && (s.threads[i].Won? ==> s.threads[i].err == err)
         && (s.threads[i].Wrote? ==> s.threads[i].err == err)
  }

  lemma CarriesNext(s: State, a: Action, err: nat)
    requires Inv(s) && Enabled(s, a) && Carries(s, err)
    ensures Carries(Next(s, a), err)
  {
    assert ThreadOk(s, s.threads[a.i]);
  }

  lemma CarriesFirst(s: State, a: Action)
    requires Inv(s) && Enabled(s, a) && s.okay == OKAY
    ensures if a.Swap? then Carries(Next(s, a), a.err) else Next(s, a).okay == OKAY
  {
    assert ThreadOk(s, s.threads[a.i]);
    assert forall i :: 0 <= i < |s.threads| ==> ThreadOk(s, s.threads[i]);
    assert forall i :: 0 <= i < |s.threads| ==> !Failing(s.threads[i]);
  }

  /** The error everyone reads is the one that the first fail of the run was given. */
  lemma {:induction false} FirstFailWins(n: nat, run: seq<Action>)
    requires Legal(n, run)
    ensures After(n, run).okay != OKAY ==> exists k: nat :: Wins(n, run, k) && Carries(After(n, run), run[k].err)
    ensures After(n, run).okay == OKAY ==> forall k :: 0 <= k < |run| ==> !run[k].Swap?
    decreases |run|
  {
    hide Inv, Next, Enabled, Carries;
    if run == [] {
      assert After(n, run).okay == OKAY;
    } else {
      var m := |run| - 1;
      var s := After(n, run[..m]);
      Invariant(n, run[..m]);
      FirstFailWins(n, run[..m]);
      if s.okay == OKAY {
        CarriesFirst(s, run[m]);
        if run[m].Swap? {
          CarriesSome(After(n, run), run[m].err);
          assert Wins(n, run, m);
        }
      } else {
        var k: nat :| Wins(n, run[..m], k) && Carries(s, run[..m][k].err);
        CarriesNext(s, run[m], run[k].err);
        CarriesSome(After(n, run), run[k].err);
        assert run[..m][..k] == run[..k];
        assert Wins(n, run, k);
      }
    }
  }

  lemma CarriesSome(s: State, err: nat)
    requires Carries(s, err)
    ensures s.okay != OKAY
  {
  }
}
