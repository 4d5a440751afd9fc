/** Serial dispatch: handlers that share a Driver's Lock, each with its once-only unlock
    function, with Detach calls, returns and panics in any order. */
module Dispatch {
  import opened Bytes

  datatype Stage = Waiting | Running | Finished

  /** A doMsg goroutine from mkUnlocker on. `once` is its sync.Once. */
  datatype Handler = Handler(stage: Stage, once: bool, unlocks: nat)

  /** The mutex does not know who holds it; `lock` does. */
  datatype State = State(lock: Option<nat>, handlers: seq<Handler>)

  datatype Action =
    | Arrive           // a new handler reaches mkUnlocker
    | Acquire(i: nat)  // lock.Lock returns
    | Detach(i: nat)   // by anyone holding the handler's context, even after it has finished
    | Finish(i: nat)   // proc.Do returns or panics: the deferred unlock

  function Init(): State {
    State(None, [])
  }

  predicate Enabled(s: State, a: Action) {
    match a
    case Arrive => true
    case Acquire(i) => i < |s.handlers| && s.handlers[i].stage.Waiting? && s.lock == None
    case Detach(i) => i < |s.handlers| && !s.handlers[i].stage.Waiting?
    case Finish(i) => i < |s.handlers| && s.handlers[i].stage.Running?
  }

  /** once.Do(lock.Unlock). Unlock frees the mutex whoever holds it. */
  function Unlock(s: State, i: nat): State
    requires i < |s.handlers|
  {
    var h := s.handlers[i];
    if h.once then s
    else State(None, s.handlers[i := h.(once := true, unlocks := h.unlocks + 1)])
  }

  function Next(s: State, a: Action): State
    requires Enabled(s, a)
  {
    match a
    case Arrive => s.(handlers := s.handlers + [Handler(Waiting, false, 0)])
    case Acquire(i) => State(Some(i), s.handlers[i := s.handlers[i].(stage := Running)])
    case Detach(i) => Unlock(s, i)
    case Finish(i) =>
      var s' := Unlock(s, i);
      s'.(handlers := s'.handlers[i := s'.handlers[i].(stage := Finished)])
  }

  /** Between lock and unlock. */
  predicate Inside(h: Handler) {
    !h.stage.Waiting? && !h.once
  }

  ghost predicate Inv(s: State) {
    && (s.lock.Some? ==> s.lock.value < |s.handlers|)
    && (forall i :: 0 <= i < |s.handlers| ==> (Inside(s.handlers[i]) <==> s.lock == Some(i)))
    && (forall i :: 0 <= i < |s.handlers| ==> HandlerOk(s.handlers[i]))
  }

  predicate HandlerOk(h: Handler) {
    && h.unlocks == (if h.once then 1 else 0)
    && (h.stage.Waiting? ==> !h.once)
    && (h.stage.Finished? ==> h.once)
  }

  lemma InvNext(s: State, a: Action)
    requires Inv(s) && Enabled(s, a)
    ensures Inv(Next(s, a))
  {
    if a.Acquire? || a.Detach? || a.Finish? {
      assert HandlerOk(s.handlers[a.i]);
    }
  }

  ghost predicate Legal(run: seq<Action>)
    decreases |run|, 0
  {
    run == [] ||
    var k := |run| - 1;
    Legal(run[..k]) && Enabled(After(run[..k]), run[k])
  }

  ghost function After(run: seq<Action>): State
    requires Legal(run)
    decreases |run|, 1
  {
    if run == [] then Init() else Next(After(run[..|run| - 1]), run[|run| - 1])
  }

  /** Over every interleaving at most one undetached handler is between lock and unlock, each
      handler unlocks at most once, and exactly once by the time it has finished. */
  lemma {:induction false} Serial(run: seq<Action>)
    requires Legal(run)
    ensures Inv(After(run))
    ensures var hs := After(run).handlers;
      && (forall i, j :: 0 <= i < j < |hs| ==> !(Inside(hs[i]) && Inside(hs[j])))
      && (forall i :: 0 <= i < |hs| ==> hs[i].unlocks <= 1 && (hs[i].stage.Finished? ==> hs[i].unlocks == 1))
    decreases |run|
  {
    if run != [] {
      Serial(run[..|run| - 1]);
      InvNext(After(run[..|run| - 1]), run[|run| - 1]);
    }
    assert forall i :: 0 <= i < |After(run).handlers| ==> HandlerOk(After(run).handlers[i]);
  }

  /** A step that unlocks is taken by the handler that holds the lock. */
  lemma UnlocksOwn(run: seq<Action>, a: Action)
    requires Legal(run) && Enabled(After(run), a) && (a.Detach? || a.Finish?)
    requires Next(After(run), a).handlers[a.i].unlocks != After(run).handlers[a.i].unlocks
    ensures After(run).lock == Some(a.i)
  {
    Serial(run);
  }

  /** A handler that detaches, or finishes, no longer holds the lock: if it did, the lock is free
      for the next, and if it did not, nothing happens to the lock. */
  lemma Frees(run: seq<Action>, a: Action)
    requires Legal(run) && Enabled(After(run), a) && (a.Detach? || a.Finish?)
    ensures var s, s' := After(run), Next(After(run), a);
      && s'.handlers[a.i].once && !Inside(s'.handlers[a.i])
      && s'.lock == (if s.lock == Some(a.i) then None else s.lock)
      && (s'.lock.None? ==>
            forall j :: 0 <= j < |s'.handlers| && s'.handlers[j].stage.Waiting? ==> Enabled(s', Acquire(j)))
  {
    Serial(run);
  }
}
