/** Who holds each message: the receiving goroutine, the receive queue, the handlers, callers,
    the send queue and the sending goroutine, in any interleaving. Each arena or channel
    operation is one step. */
module Ownership {
  import opened Arenas

  /** A goroutine, with the messages that the rest of its code still refers to. */
  datatype Thread =
    | RecvIdle
    | RecvReading(m: nat)           // Receive has allocated and is reading
    | RecvOffering(m: nat)          // ReceiveChan: c <- m or ctx.Done
    | SendIdle
    | Transmitting(m: nat)          // SendChan: t.Send(m)
    | Handling(m: nat)              // doMsg, until the message is classified
    | Serving(m: nat)               // doMsg, in proc.Do
    | Replying(m: nat, reply: nat)  // doMsg, with the reply allocated and m to recycle
    | Offering(m: nat)              // SendCall or doMsg, serializing and then in safeSend
    | Panicked(m: nat)              // SendCall, when serializing panicked: m is never recycled
    | Ended

  datatype State = State(pool: Pool, threads: seq<Thread>, inbox: seq<nat>, outbox: seq<nat>)

  datatype Action =
    | Allocate(i: nat)     // RecvIdle: Receive begins
    | ReadFails(i: nat)    // RecvReading: recycle and close
    | ReadDone(i: nat)
    | Deliver(i: nat)      // RecvOffering: into the receive queue
    | Abandon(i: nat)      // RecvOffering or Offering: context done, recycle
    | Stop(i: nat)         // RecvIdle or SendIdle: the transport or driver is closed
    | Dispatch             // doMsgs: a new handler for the head of the receive queue
    | Discard(i: nat)      // Handling: garbage, a matched reply, or nothing to answer
    | Serve(i: nat)        // Handling: a procedure to run
    | Answer(i: nat)       // Handling (refused) or Serving (done, or panicked): allocate the reply
    | DropRequest(i: nat)  // Replying: recycle the request
    | Call                 // SendCall: allocate, then safeSend
    | Panic(i: nat)        // Offering: ends without recycling
    | Enqueue(i: nat)      // Offering: into the send queue
    | Dequeue(i: nat)      // SendIdle: the head of the send queue
    | Transmit(i: nat)     // Transmitting: Send recycles, sent or not

  function Init(size: nat): State {
    State(NewPool(size), [RecvIdle, SendIdle], [], [])
  }

  /** How often the rest of a goroutine's code refers to message x. */
  function Refs(t: Thread, x: nat): nat {
    match t
    case RecvIdle => 0
    case SendIdle => 0
    case Ended => 0
    case Replying(m, reply) => (if m == x then 1 else 0) + (if reply == x then 1 else 0)
    case _ => if t.m == x then 1 else 0
  }

  function Held(ts: seq<Thread>, x: nat): nat {
    if ts == [] then 0 else Refs(ts[0], x) + Held(ts[1..], x)
  }

  function Count(q: seq<nat>, x: nat): nat {
    multiset(q)[x]
  }

  /** The number of places x is in use. */
  function InUse(s: State, x: nat): nat {
    Held(s.threads, x) + Count(s.inbox, x) + Count(s.outbox, x)
  }

  predicate Enabled(s: State, a: Action) {
    match a
    case Allocate(i) => i < |s.threads| && s.threads[i].RecvIdle?
    case ReadFails(i) => i < |s.threads| && s.threads[i].RecvReading?
    case ReadDone(i) => i < |s.threads| && s.threads[i].RecvReading?
    case Deliver(i) => i < |s.threads| && s.threads[i].RecvOffering?
    case Abandon(i) => i < |s.threads| && (s.threads[i].RecvOffering? || s.threads[i].Offering?)
    case Stop(i) => i < |s.threads| && (s.threads[i].RecvIdle? || s.threads[i].SendIdle?)
    case Dispatch => s.inbox != []
    case Discard(i) => i < |s.threads| && s.threads[i].Handling?
    case Serve(i) => i < |s.threads| && s.threads[i].Handling?
    case Answer(i) => i < |s.threads| && (s.threads[i].Handling? || s.threads[i].Serving?)
    case DropRequest(i) => i < |s.threads| && s.threads[i].Replying?
    case Call => true
    case Panic(i) => i < |s.threads| && s.threads[i].Offering?
    case Enqueue(i) => i < |s.threads| && s.threads[i].Offering?
    case Dequeue(i) => i < |s.threads| && s.threads[i].SendIdle? && s.outbox != []
    case Transmit(i) => i < |s.threads| && s.threads[i].Transmitting?
  }

  function Becomes(s: State, i: nat, t: Thread): State
    requires i < |s.threads|
  {
    s.(threads := s.threads[i := t])
  }

  function Recycling(s: State, x: nat): State {
    s.(pool := Returned(s.pool, x))
  }

  function Next(s: State, a: Action): State
    requires Enabled(s, a)
  {
    match a
    case Allocate(i) => Becomes(s, i, RecvReading(Top(s.pool))).(pool := Taken(s.pool))
    case ReadFails(i) => Recycling(Becomes(s, i, Ended), s.threads[i].m)
    case ReadDone(i) => Becomes(s, i, RecvOffering(s.threads[i].m))
    case Deliver(i) => Becomes(s, i, RecvIdle).(inbox := s.inbox + [s.threads[i].m])
    case Abandon(i) => Recycling(Becomes(s, i, Ended), s.threads[i].m)
    case Stop(i) => Becomes(s, i, Ended)
    case Dispatch => s.(inbox := s.inbox[1..], threads := s.threads + [Handling(s.inbox[0])])
    case Discard(i) => Recycling(Becomes(s, i, Ended), s.threads[i].m)
    case Serve(i) => Becomes(s, i, Serving(s.threads[i].m))
    case Answer(i) => Becomes(s, i, Replying(s.threads[i].m, Top(s.pool))).(pool := Taken(s.pool))
    case DropRequest(i) => Recycling(Becomes(s, i, Offering(s.threads[i].reply)), s.threads[i].m)
    case Call => s.(threads := s.threads + [Offering(Top(s.pool))], pool := Taken(s.pool))
    case Panic(i) => Becomes(s, i, Panicked(s.threads[i].m))
    case Enqueue(i) => Becomes(s, i, Ended).(outbox := s.outbox + [s.threads[i].m])
    case Dequeue(i) => Becomes(s, i, Transmitting(s.outbox[0])).(outbox := s.outbox[1..])
    case Transmit(i) => Recycling(Becomes(s, i, SendIdle), s.threads[i].m)
  }

  /** Every object of the arena is in exactly one place, free or in use; an object made on a miss
      is in at most one, and none is in use before it is made. */
  ghost predicate Linear(s: State) {
    && s.pool.size <= s.pool.made
    && (forall x :: 0 <= x < s.pool.size ==> InUse(s, x) + Count(s.pool.free, x) == 1)
    && (forall x :: x >= s.pool.size ==> InUse(s, x) <= 1 && Count(s.pool.free, x) == 0)
    && (forall x :: x >= s.pool.made ==> InUse(s, x) == 0)
  }

  lemma {:induction false} HeldBecomes(ts: seq<Thread>, i: nat, t: Thread, x: nat)
    requires i < |ts|
    ensures Held(ts[i := t], x) + Refs(ts[i], x) == Held(ts, x) + Refs(t, x)
  {
    hide Refs;
    if i == 0 {
      assert ts[0 := t][1..] == ts[1..];
    } else {
      HeldBecomes(ts[1..], i - 1, t, x);
      assert ts[i := t][1..] == ts[1..][i - 1 := t];
    }
  }

  lemma {:induction false} HeldMore(ts: seq<Thread>, t: Thread, x: nat)
    ensures Held(ts + [t], x) == Held(ts, x) + Refs(t, x)
  {
    hide Refs;
    if ts == [] {
      assert [] + [t] == [t] && [t][1..] == [];
    } else {
      HeldMore(ts[1..], t, x);
      assert (ts + [t])[1..] == ts[1..] + [t];
    }
  }

  lemma TakenIs(p: Pool, x: nat)
    ensures Count(Taken(p).free, x) + (if x == Top(p) then 1 else 0)
            == Count(p.free, x) + if p.free == [] && x == p.made then 1 else 0
  {
    if p.free != [] {
      assert p.free == p.free[..|p.free| - 1] + [Top(p)];
    }
  }

  lemma ReturnedIs(p: Pool, m: nat, x: nat)
    ensures Count(Returned(p, m).free, x) == Count(p.free, x) + if m == x && x < p.size then 1 else 0
  {
  }

  lemma HeadIs(q: seq<nat>, x: nat)
    requires q != []
    ensures Count(q, x) == (if q[0] == x then 1 else 0) + Count(q[1..], x)
  {
    assert q == [q[0]] + q[1..];
  }

  lemma TailIs(q: seq<nat>, m: nat, x: nat)
    ensures Count(q + [m], x) == Count(q, x) + if m == x then 1 else 0
  {
  }

  /** 1 if the step makes object x because the free list is empty. */
  function Made(s: State, a: Action, x: nat): nat {
    if (a.Allocate? || a.Answer? || a.Call?) && s.pool.free == [] && x == s.pool.made then 1 else 0
  }

  /** 1 if the step recycles object x and the arena does not take it back. */
  function Lost(s: State, a: Action, x: nat): nat
    requires Enabled(s, a)
  {
    if Recycles(a) && x == s.threads[a.i].m && x >= s.pool.size then 1 else 0
  }

  /** No step duplicates or loses a message other than by making or dropping one outside the
      arena. */
  lemma Balance(s: State, a: Action, x: nat)
    requires Enabled(s, a)
    ensures InUse(Next(s, a), x) + Count(Next(s, a).pool.free, x) + Lost(s, a, x)
            == InUse(s, x) + Count(s.pool.free, x) + Made(s, a, x)
  {
    hide Held, Count, Top, Taken, Returned;
    TakenIs(s.pool, x);
    if a.Dispatch? {
      HeadIs(s.inbox, x);
      HeldMore(s.threads, Handling(s.inbox[0]), x);
    } else if a.Call? {
      HeldMore(s.threads, Offering(Top(s.pool)), x);
    } else if Recycles(a) {
      BalanceRecycles(s, a, x);
    } else {
      BalanceMoves(s, a, x);
    }
  }

  predicate Recycles(a: Action) {
    a.ReadFails? || a.Abandon? || a.Discard? || a.DropRequest? || a.Transmit?
  }

  lemma BalanceRecycles(s: State, a: Action, x: nat)
    requires Enabled(s, a) && Recycles(a)
    ensures InUse(Next(s, a), x) + Count(Next(s, a).pool.free, x) + Lost(s, a, x)
            == InUse(s, x) + Count(s.pool.free, x) + Made(s, a, x)
  {
    hide Held, Count, Top, Taken, Returned;
    HeldBecomes(s.threads, a.i, Next(s, a).threads[a.i], x);
    ReturnedIs(s.pool, s.threads[a.i].m, x);
  }

  /** The steps that allocate or pass a message on. */
  lemma BalanceMoves(s: State, a: Action, x: nat)
    requires Enabled(s, a) && !Recycles(a) && !a.Dispatch? && !a.Call?
    ensures InUse(Next(s, a), x) + Count(Next(s, a).pool.free, x) + Lost(s, a, x)
            == InUse(s, x) + Count(s.pool.free, x) + Made(s, a, x)
  {
    hide Held, Count, Top, Taken, Returned;
    TakenIs(s.pool, x);
    HeldBecomes(s.threads, a.i, Next(s, a).threads[a.i], x);
    if a.Dequeue? {
      HeadIs(s.outbox, x);
    } else if a.Deliver? {
      TailIs(s.inbox, s.threads[a.i].m, x);
    } else if a.Enqueue? {
      TailIs(s.outbox, s.threads[a.i].m, x);
    }
  }

  lemma FreeNext(s: State, a: Action, x: nat)
    requires Enabled(s, a) && Count(s.pool.free, x) == 0 && x >= s.pool.size
    ensures Count(Next(s, a).pool.free, x) == 0
  {
    hide Count;
    TakenIs(s.pool, x);
    if Recycles(a) {
      ReturnedIs(s.pool, s.threads[a.i].m, x);
    }
  }

  lemma LinearNext(s: State, a: Action)
    requires Linear(s) && Enabled(s, a)
    ensures Linear(Next(s, a))
  {
    hide InUse, Count;
    var s' := Next(s, a);
    forall x: nat
      ensures InUse(s', x) + Count(s'.pool.free, x) + Lost(s, a, x)
              == InUse(s, x) + Count(s.pool.free, x) + Made(s, a, x)
      ensures x >= s.pool.size ==> Count(s'.pool.free, x) == 0
    {
      Balance(s, a, x);
      if x >= s.pool.size { FreeNext(s, a, x); }
    }
  }

  ghost predicate Legal(size: nat, run: seq<Action>)
    decreases |run|, 0
  {
    run == [] ||
    var n := |run| - 1;
    Legal(size, run[..n]) && Enabled(After(size, run[..n]), run[n])
  }

  ghost function After(size: nat, run: seq<Action>): State
    requires Legal(size, run)
    decreases |run|, 1
  {
    if run == [] then Init(size) else Next(After(size, run[..|run| - 1]), run[|run| - 1])
  }

  lemma FreshCount(n: nat, x: nat)
    ensures Count(NewPool(n).free, x) == if x < n then 1 else 0
  {
    var q := NewPool(n).free;
    if n > 0 {
      FreshCount(n - 1, x);
      assert q == NewPool(n - 1).free + [n - 1];
    }
  }

  /** Over every interleaving each arena object is at all times in exactly one place. So none is
      recycled twice, the free list has no duplicates, and Get never hands out one in use; a
      message still queued when its reader has stopped, or whose serialization panicked, never
      comes back. */
  lemma {:induction false} AlwaysLinear(size: nat, run: seq<Action>)
    requires Legal(size, run)
    ensures Linear(After(size, run))
    ensures InUse(After(size, run), Top(After(size, run).pool)) == 0
    decreases |run|
  {
    var s := After(size, run);
    if run == [] {
      forall x: nat ensures Count(s.pool.free, x) == (if x < size then 1 else 0) && InUse(s, x) == 0 {
        FreshCount(size, x);
        assert Held([RecvIdle, SendIdle], x) == Held([SendIdle], x) == Held([], x) by {
          assert [RecvIdle, SendIdle][1..] == [SendIdle];
        }
      }
    } else {
      AlwaysLinear(size, run[..|run| - 1]);
      LinearNext(After(size, run[..|run| - 1]), run[|run| - 1]);
    }
    if s.pool.free != [] {
      assert Top(s.pool) in s.pool.free;
      assert Count(s.pool.free, Top(s.pool)) > 0;
    }
  }
}
