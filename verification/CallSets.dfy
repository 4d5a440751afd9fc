/** CallSet: the table of pending calls. Each method is one step of Calls. */
module CallSets {
  import opened Bytes
  import opened Schema
  import opened Codec
  import opened InPlace
  import opened RpcMsg
  import opened Stats
  import Xids
  import Calls

  /** A procedure and the types of its argument and result. */
  datatype Proc = Proc(prog: u32, vers: u32, proc: u32, arg: Type, res: Type)

  /** The header of a call. */
  function CallMsg(xid: u32, proc: Proc): Msg {
    Msg(xid, Call(2, proc.prog, proc.vers, proc.proc, Auth(0, []), Auth(0, [])))
  }

  /** A record: the procedure, the variable for its result, the SendCall whose channel the
      callback sends on, and the peer. */
  datatype PendingCall = PendingCall(proc: Proc, res: Slot, cb: nat, server: string)

  /** What a CallSet method does to the outside, in order. */
  datatype Event = Ran(cb: nat, answer: Calls.Answer) | Recycled(cb: nat)

  /** The effect of events on the calls they belong to. */
  function Effect(calls: seq<Calls.Call>, events: seq<Event>): (r: seq<Calls.Call>)
    ensures |r| == |calls|
  {
    if events == [] then calls
    else
      var n := |events| - 1;
      var cs := Effect(calls, events[..n]);
      var e := events[n];
      if e.cb >= |cs| then cs
      else cs[e.cb := if e.Ran? then Calls.Callback(cs[e.cb], e.answer) else Calls.Recycle(cs[e.cb])]
  }

  lemma EffectNone(calls: seq<Calls.Call>, events: seq<Event>)
    requires events == []
    ensures Effect(calls, events) == calls
  {
  }

  lemma EffectMore(calls: seq<Calls.Call>, events: seq<Event>, e: Event)
    ensures var cs := Effect(calls, events);
            Effect(calls, events + [e])
            == if e.cb >= |cs| then cs
               else cs[e.cb := if e.Ran? then Calls.Callback(cs[e.cb], e.answer) else Calls.Recycle(cs[e.cb])]
  {
    assert (events + [e])[..|events|] == events;
  }

  /** A reply that its callback has yet to deliver. */
  function Claim(calls: seq<Calls.Call>, i: nat, answer: Calls.Answer): seq<Calls.Call>
    requires i < |calls|
  {
    calls[i := calls[i].(claims := calls[i].claims + [answer])]
  }

  /** How a reply header reads to the caller. */
  function AnswerOf(b: Body): Calls.Answer {
    match b
    case Success(_) => Calls.Accepted(SUCCESS)
    case Mismatch(_, _, _) => Calls.Accepted(PROG_MISMATCH)
    case Other(_, stat) => Calls.Accepted(stat)
    case _ => Calls.Denied
  }

  /** A reply header reads as its tags say: an accepted reply as its status, any other as a
      denial. */
  lemma AnswerReads(b: Body)
    requires RpcMsg.Valid(Msg(0, b)) && !b.Call?
    ensures var v := BodyValue(b);
      && v.VUnion? && v.tag == 1 && v.body.VUnion?
      && (v.body.tag == 0 ==> AnswerOf(b) == Calls.Accepted(v.body.body.elems[1].tag))
      && (v.body.tag != 0 ==> AnswerOf(b) == Calls.Denied)
  {
  }

  /** Of all headers just that of an accepted SUCCESS reply counts as a success. */
  lemma SuccessReads(b: Body)
    requires RpcMsg.Valid(Msg(0, b))
    ensures Calls.IsSuccess(AnswerOf(b)) <==> b.Success?
  {
  }

  /** The calls when all entries but those of `left` have been cancelled. */
  function Cancelled(s: Calls.State, left: set<u32>): (r: seq<Calls.Call>)
    ensures |r| == |s.calls|
  {
    seq(|s.calls|, j requires 0 <= j < |s.calls| =>
      if Calls.Pending(s, j) && s.calls[j].xid !in left
      then Calls.Recycle(Calls.Callback(s.calls[j], Calls.Accepted(CANCELED))) else s.calls[j])
  }

  lemma CancelledOne(s: Calls.State, left: set<u32>, x: u32)
    requires x in left && x in s.pending && s.pending[x] < |s.calls| && s.calls[s.pending[x]].xid == x
    ensures var i, cs := s.pending[x], Cancelled(s, left);
            cs[i := Calls.Recycle(Calls.Callback(cs[i], Calls.Accepted(CANCELED)))] == Cancelled(s, left - {x})
  {
  }

  lemma CancelledEnds(s: Calls.State, left: set<u32>)
    ensures left == {} ==> Calls.Next(TWO32, s, Calls.CancelAll) == s.(pending := map[], calls := Cancelled(s, left))
    ensures (forall x :: x in s.pending ==> x in left) ==> Cancelled(s, left) == s.calls
  {
  }

  lemma CancelIs(s: Calls.State, x: nat, reason: Option<nat>)
    requires x in s.pending && s.pending[x] < |s.calls|
    ensures var i := s.pending[x];
            Calls.Next(TWO32, s, Calls.Cancel(x, reason))
            == s.(pending := s.pending - {x},
                  calls := s.calls[i := Calls.Recycle(Calls.Callback(s.calls[i], Calls.Reason(reason)))])
  {
    assert s.pending - {x} == map y | y in s.pending && y != x :: s.pending[y];
  }

  lemma GetReplyIs(s: Calls.State, x: nat, peer: string, answer: Calls.Answer, decodes: bool)
    requires x in s.pending && s.pending[x] < |s.calls| && s.calls[s.pending[x]].peer == peer
    ensures var i := s.pending[x];
            Calls.Next(TWO32, s, Calls.GetReply(x, peer, answer, decodes))
            == s.(pending := s.pending - {x},
                  calls := Claim(s.calls[i := Calls.Recycle(s.calls[i])], i, Calls.Final(answer, decodes)))
  {
    assert s.pending - {x} == map y | y in s.pending && y != x :: s.pending[y];
  }

  lemma GetReplyNone(s: Calls.State, x: nat, peer: string, answer: Calls.Answer, decodes: bool)
    requires x in s.pending && s.pending[x] < |s.calls| ==> s.calls[s.pending[x]].peer != peer
    ensures Calls.Next(TWO32, s, Calls.GetReply(x, peer, answer, decodes)) == s
  {
  }

  lemma CancelNone(s: Calls.State, x: nat, reason: Option<nat>)
    ensures x !in s.pending ==> Calls.Next(TWO32, s, Calls.Cancel(x, reason)) == s
  {
  }

  /** Unmarshals the result of a success into the caller's variable; if that fails with an
      XdrError the status becomes GARBAGE_RET. */
  method TakeResult(env: Schema, pc: PendingCall, b: Body, results: Reader)
    returns (answer: Calls.Answer, ghost decodes: bool, died: bool)
    requires env.Valid() && env.WellFormed(pc.proc.res) && Tree(env, pc.proc.res, pc.res) && RpcMsg.Valid(Msg(0, b))
    modifies results, pc.res.repr
    ensures answer == Calls.Final(AnswerOf(b), decodes) && (!b.Success? ==> decodes)
    ensures Calls.IsSuccess(answer) <==> b.Success? && decodes
    ensures answer == if b.Success? && !decodes then Calls.Accepted(GARBAGE_RET) else AnswerOf(b)
    ensures Tree(env, pc.proc.res, pc.res)
    ensures died <==> b.Success? && Decode(env, pc.proc.res, old(results.rest)).Crash?
    ensures b.Success? ==>
              && (decodes <==> Decode(env, pc.proc.res, old(results.rest)).Got?)
              && (decodes ==> Holds(env, pc.proc.res, pc.res, Decode(env, pc.proc.res, old(results.rest)).v))
  {
    hide Decode, Tree, Holds;
    answer, decodes, died := AnswerOf(b), true, false;
    if b.Success? {
      var end := Unmarshal(env, pc.proc.res, pc.res, results);
      decodes, died := end.Done?, end.Crashed?;
      if !end.Done? { answer := Calls.Accepted(GARBAGE_RET); }
    }
  }

  class CallSet {
    var lastXid: u32
    var calls: map<u32, PendingCall>
    var events: seq<Event>

    constructor ()
      ensures Shows(Calls.Init()) && events == []
    {
      lastXid, calls, events := 0, map[], [];
    }

    /** The table is that of the state s. */
    ghost predicate Shows(s: Calls.State)
      reads this
    {
      && lastXid == s.last
      && (forall x :: x in calls <==> x in s.pending)
      && (forall x :: x in calls ==>
            calls[x].cb == s.pending[x] < |s.calls| && s.calls[s.pending[x]].peer == calls[x].server)
    }

    /** The search in NewCall. It would not return if no identifier were free. */
    method FreeXid(ghost t: Xids.Table)
      requires Xids.Valid(TWO32, t) && lastXid == t.last && |t.pending| < TWO32
      requires forall x: nat :: x in calls <==> x in t.pending
      modifies `lastXid
      ensures lastXid == Xids.NewXid(TWO32, t)
    {
      Xids.SomeFree(TWO32, t);
      ghost var d := 1;
      lastXid := (lastXid + 1) % TWO32;
      while lastXid in calls
        invariant 1 <= d <= TWO32 && lastXid == Xids.At(TWO32, t.last, d)
        invariant forall i :: 1 <= i < d ==> Xids.At(TWO32, t.last, i) in t.pending
        decreases TWO32 - d
      {
        lastXid := (lastXid + 1) % TWO32;
        d := d + 1;
      }
    }

    /** `fits` is whether the argument marshals, which SendCall is about to find out, and `nilCtx`
        whether it was given no context. */
    method NewCall(server: string, proc: Proc, res: Slot, cb: nat, ghost fits: bool, ghost nilCtx: bool,
                   ghost s: Calls.State)
      returns (m: Msg)
      requires Shows(s) && cb == |s.calls| && |s.pending.Keys| < TWO32
      modifies this
      ensures Calls.Enabled(TWO32, s, Calls.Begin(server, fits, nilCtx))
      ensures Shows(Calls.Next(TWO32, s, Calls.Begin(server, fits, nilCtx)))
      ensures calls == old(calls)[lastXid := PendingCall(proc, res, cb, server)] && lastXid !in old(calls)
      ensures m == CallMsg(lastXid, proc)
      ensures events == old(events)
    {
      hide Xids.NewXid;
      assert Xids.Valid(TWO32, Calls.TableOf(s));
      FreeXid(Calls.TableOf(s));
      calls := calls[lastXid := PendingCall(proc, res, cb, server)];
      m := CallMsg(lastXid, proc);
    }

    /** Delete, without the callback. */
    method Delete(xid: u32, ghost s: Calls.State)
      requires Shows(s)
      modifies this
      ensures Shows(Calls.Remove(s, xid)) && calls == old(calls) - {xid}
      ensures events == old(events) + if xid in old(calls) then [Recycled(old(calls)[xid].cb)] else []
      ensures Effect(s.calls, events[|old(events)|..]) == Calls.Remove(s, xid).calls
    {
      if xid in calls {
        events := events + [Recycled(calls[xid].cb)];
      }
      calls := calls - {xid};
    }

    /** Runs the callback and recycles the record of an entry that has left the table. */
    method Finish(pc: PendingCall, answer: Calls.Answer, ghost cs: seq<Calls.Call>, ghost n: nat)
      requires n <= |events| && pc.cb < |cs|
      modifies `events
      ensures events == old(events) + [Ran(pc.cb, answer), Recycled(pc.cb)]
      ensures var done := Effect(cs, old(events[n..]));
              done[pc.cb := Calls.Recycle(Calls.Callback(done[pc.cb], answer))] == Effect(cs, events[n..])
    {
      ghost var es := events[n..];
      EffectMore(cs, es, Ran(pc.cb, answer));
      EffectMore(cs, es + [Ran(pc.cb, answer)], Recycled(pc.cb));
      events := events + [Ran(pc.cb, answer)];
      events := events + [Recycled(pc.cb)];
      assert events[n..] == es + [Ran(pc.cb, answer)] + [Recycled(pc.cb)];
    }

    method Cancel(xid: u32, reason: Option<nat>, ghost s: Calls.State)
      requires Shows(s)
      modifies this
      ensures Shows(Calls.Next(TWO32, s, Calls.Cancel(xid, reason))) && calls == old(calls) - {xid}
      ensures |old(events)| <= |events|
      ensures xid in old(calls) ==>
                var stat := if reason.None? || reason.value == SUCCESS then CANCELED else reason.value;
                var cb := old(calls)[xid].cb;
                events == old(events) + [Ran(cb, Calls.Accepted(stat)), Recycled(cb)]
      ensures xid !in old(calls) ==> events == old(events)
      ensures Effect(s.calls, events[|old(events)|..]) == Calls.Next(TWO32, s, Calls.Cancel(xid, reason)).calls
    {
      hide Effect, Calls.Next;
      ghost var s', n := Calls.Next(TWO32, s, Calls.Cancel(xid, reason)), |events|;
      EffectNone(s.calls, events[n..]);
      CancelNone(s, xid, reason);
      if xid in calls {
        var pc := calls[xid];
        calls := calls - {xid};
        var answer := if reason.None? || reason.value == SUCCESS then Calls.Accepted(CANCELED)
                      else Calls.Accepted(reason.value);
        CancelIs(s, xid, reason);
        Finish(pc, answer, s.calls, n);
        assert Effect(s.calls, events[n..]) == s'.calls;
      } else {
        assert calls == calls - {xid};
      }
    }

    /** CancelAll goes through the entries in whatever order the map yields them. */
    method CancelAll(ghost s: Calls.State)
      requires Shows(s) && forall x :: x in s.pending ==> s.calls[s.pending[x]].xid == x
      modifies this
      ensures Shows(Calls.Next(TWO32, s, Calls.CancelAll)) && calls == map[]
      ensures |old(events)| <= |events|
      ensures Effect(s.calls, events[|old(events)|..]) == Calls.Next(TWO32, s, Calls.CancelAll).calls
    {
      hide Effect, Cancelled, Calls.Next, Calls.Recycle, Calls.Callback;
      ghost var n := |events|;
      EffectNone(s.calls, events[n..]);
      CancelledEnds(s, calls.Keys);
      CancelledEnds(s, {});
      var was := calls;
      calls := map[];
      var left := was.Keys;
      while left != {}
        invariant calls == map[] && lastXid == old(lastXid)
        invariant n <= |events| && left <= was.Keys
        invariant Effect(s.calls, events[n..]) == Cancelled(s, left)
        decreases left
      {
        var x :| x in left;
        Finish(was[x], Calls.Accepted(CANCELED), s.calls, n);
        CancelledOne(s, left, x);
        left := left - {x};
      }
    }

    /** GetReply: a reply to a pending call of this peer takes the entry out of the table and, if
        it is a success, its result is unmarshaled into the caller's variable. `died` is a crash
        there, with the entry gone and its record not recycled. */
    method GetReply(env: Schema, server: string, m: Msg, results: Reader, ghost s: Calls.State)
      returns (r: Option<(Proc, nat, Calls.Answer)>, ghost decodes: bool, died: bool)
      requires env.Valid() && RpcMsg.Valid(m) && Shows(s)
      requires m.xid in calls ==>
                 env.WellFormed(calls[m.xid].proc.res) && Tree(env, calls[m.xid].proc.res, calls[m.xid].res)
      modifies this, results, if m.xid in calls then calls[m.xid].res.repr else {}
      ensures died <==>
                && m.body.Success? && m.xid in old(calls) && old(calls)[m.xid].server == server
                && Decode(env, old(calls)[m.xid].proc.res, old(results.rest)).Crash?
      ensures died ==> r.None? && calls == old(calls) - {m.xid} && events == old(events)
      ensures !m.body.Call? && !died ==>
                && Shows(Calls.Next(TWO32, s, Calls.GetReply(m.xid, server, AnswerOf(m.body), decodes)))
                && (r.Some? <==> m.xid in old(calls) && old(calls)[m.xid].server == server)
      ensures r.Some? ==>
                !m.body.Call? && m.xid in old(calls) && r.value.1 < |s.calls| &&
                var pc := old(calls)[m.xid];
                && Calls.Next(TWO32, s, Calls.GetReply(m.xid, server, AnswerOf(m.body), decodes)).calls
                   == Claim(Effect(s.calls, [Recycled(pc.cb)]), pc.cb, r.value.2)
                && r.value == (pc.proc, pc.cb, Calls.Final(AnswerOf(m.body), decodes))
                && (Calls.IsSuccess(r.value.2) <==> m.body.Success? && decodes)
                && r.value.2 == (if m.body.Success? && !decodes then Calls.Accepted(GARBAGE_RET) else AnswerOf(m.body))
                && calls == old(calls) - {m.xid} && events == old(events) + [Recycled(pc.cb)]
                && Tree(env, pc.proc.res, pc.res)
                && (!m.body.Success? ==> decodes)
                && (m.body.Success? ==>
                      && (decodes <==> Decode(env, pc.proc.res, old(results.rest)).Got?)
                      && (decodes ==> Holds(env, pc.proc.res, pc.res, Decode(env, pc.proc.res, old(results.rest)).v)))
      ensures r.None? && !died ==> calls == old(calls) && events == old(events)
    {
      hide Decode, Tree, Holds, Effect, Calls.Next;
      decodes, died := true, false;
      if m.body.Call? || m.xid !in calls || calls[m.xid].server != server {
        if !m.body.Call? { GetReplyNone(s, m.xid, server, AnswerOf(m.body), true); }
        return None, true, false;
      }
      var pc := calls[m.xid];
      calls := calls - {m.xid};
      var answer;
      answer, decodes, died := TakeResult(env, pc, m.body, results);
      if died {
        return None, decodes, true;
      }
      GetReplyIs(s, m.xid, server, AnswerOf(m.body), decodes);
      EffectNone(s.calls, []);
      EffectMore(s.calls, [], Recycled(pc.cb));
      assert [] + [Recycled(pc.cb)] == [Recycled(pc.cb)];
      events := events + [Recycled(pc.cb)];
      r := Some((pc.proc, pc.cb, answer));
    }
  }
}
