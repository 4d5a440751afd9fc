/** One remote call with every part in place: the caller's variables, its CallSet, the two
    connections, the server's RpcSrv and the procedure. */
module RemoteCalls {
  import opened Bytes
  import opened Schema
  import opened Codec
  import opened InPlace
  import opened MarshalOut
  import opened RpcMsg
  import opened Stats
  import opened Records
  import opened Transport
  import opened Server
  import opened EndToEnd
  import CallSets
  import Calls

  /** One direction of a connection: what reads find of the octets written to it, how many octets
      it takes, and the most the receiver admits in a message. */
  datatype Wire = Wire(read: seq<byte> -> Chunks, room: nat, max: nat) {

    ghost predicate Lossless() {
      forall b: seq<byte> :: Concat(read(b)) == b
    }

    /** The message gets across: the connection takes its record, no header is split on the way
        and the receiver admits its size. */
    ghost predicate Passes(m: seq<byte>) {
      && |Record(Split(m))| <= room
      && Whole(Split(m), read(Record(Split(m))))
      && |m| <= max
    }
  }

  /** Send at one end and Receive at the other. */
  method Transit(m: seq<byte>, wire: Wire) returns (r: Option<seq<byte>>)
    requires wire.Lossless()
    ensures r == if wire.Passes(m) then Some(m) else None
  {
    hide Split, Record, Whole, Records.Receive;
    var tx := new StreamTransport([], wire.room, 0);
    var sent := tx.Send(m);
    if !sent {
      return None;
    }
    assert tx.output == Record(Split(m)) by { assert [] + Record(Split(m)) == Record(Split(m)); }
    var rx := new StreamTransport(wire.read(tx.output), 0, wire.max);
    ghost var peak;
    r, peak := rx.Receive();
    Crosses(m, wire);
  }

  lemma Crosses(m: seq<byte>, wire: Wire)
    requires wire.Lossless()
    ensures var c := wire.read(Record(Split(m))); var r := Records.Receive(wire.max, [], c);
            if Whole(Split(m), c) && |m| <= wire.max then r.Message? && r.m == m else r.Failed?
  {
    hide Split, Record, Whole, Records.Receive;
    var c := wire.read(Record(Split(m)));
    SplitIs(m);
    assert Concat(c) + [] == Record(Split(m)) + [];
    Reassembles(wire.max, [], Split(m), c, [], []);
    assert [] + Concat(Split(m)) == m;
  }

  /** GetMsg: reads a header. `died` is a crash, which is not for the caller to see. */
  method GetMsg(env: Schema, r: Reader) returns (m: Option<Msg>, died: bool)
    requires env.Valid()
    modifies r
    ensures died <==> (HeaderWellFormed(env); Decode(env, RPC_MSG, old(r.rest)).Crash?)
    ensures m.Some? ==> RpcMsg.Valid(m.value) && Headed(env, old(r.rest), m.value, r.rest)
    ensures m.None? ==> forall m', rest :: !Headed(env, old(r.rest), m', rest)
  {
    hide Decode, Typed, Encode, ToValue;
    HeaderWellFormed(env);
    Canonical(env, RPC_MSG, r.rest);
    var d := Decode(env, RPC_MSG, r.rest);
    if !d.Got? {
      return None, d.Crash?;
    }
    r.rest := d.rest;
    m, died := Some(MsgOf(env, d.v)), false;
  }

  // ------------------------------------------------------------------- the caller

  /** SendCall up to safeSend: registers the call and serializes it. If the argument does not
      marshal, that panics and the entry stays. */
  method Request(env: Schema, cs: CallSets.CallSet, peer: string, p: Proc, arg: Slot, res: Slot, cb: nat,
                 ghost v: Value, ghost s: Calls.State)
    returns (x: u32, octets: Option<seq<byte>>)
    requires env.Valid() && env.WellFormed(p.arg) && Tree(env, p.arg, arg)
    requires Holds(env, p.arg, arg, v) && Typed(env, p.arg, v, false)
    requires cs.Shows(s) && cb == |s.calls| && |s.pending.Keys| < TWO32
    modifies cs, arg.repr
    ensures octets.Some? <==> Encode(env, p.arg, v).Wire?
    ensures octets.Some? ==> octets.value == Octets(env, CallSets.CallMsg(x, p), p.arg, v)
    ensures x !in old(cs.calls) && cs.calls == old(cs.calls)[x := CallSets.PendingCall(p, res, cb, peer)]
    ensures Calls.Enabled(TWO32, s, Calls.Begin(peer, octets.Some?, false))
    ensures cs.Shows(Calls.Next(TWO32, s, Calls.Begin(peer, octets.Some?, false)))
  {
    hide Tree, Holds, Typed, Encode, Calls.Enabled, Calls.Next, cs.Shows;
    var m := cs.NewCall(peer, p, res, cb, Encode(env, p.arg, v).Wire?, false, s);
    x := m.xid;
    var w := new Writer();
    w.Write(PutMsg(env, m));
    var ok := Marshal(env, p.arg, arg, v, w);
    octets := if ok then Some(w.out) else None;
  }

  // ------------------------------------------------------------------- the server

  /** The procedure runs on the value of its argument variable, which it reads by marshaling. */
  method Do(env: Schema, p: ProcType, arg: Slot, ghost v: Value) returns (res: Option<Value>)
    requires env.Valid() && env.WellFormed(p.arg) && Tree(env, p.arg, arg)
    requires Holds(env, p.arg, arg, v) && InBounds(env, p.arg, v)
    modifies arg.repr
    ensures res == p.run(v)
  {
    hide Tree, Holds, Typed, Encode, Decode;
    InBoundsTyped(env, p.arg, v);
    RoundTrip(env, p.arg, v, []);
    var w := new Writer();
    var ok := Marshal(env, p.arg, arg, v, w);
    assert w.out == Encode(env, p.arg, v).out + [];
    res := p.run(Decode(env, p.arg, w.out).v);
  }

  /** doMsg at the server: the octets of the reply, if there is one. `died` is a crash. */
  method Answer(env: Schema, srv: RpcSrv, b: seq<byte>) returns (reply: Option<seq<byte>>, died: bool)
    requires env.Valid() && Usable(env, srv.srvs)
    ensures died <==> Kills(env, srv.srvs, b)
    ensures reply.Some? ==> Serves(env, srv.srvs, b, reply.value)
    ensures reply.None? ==> forall o :: !Serves(env, srv.srvs, b, o)
  {
    hide Decides, Headed, Usable, Decode, Encode, Typed, Tree, Holds, Octets, Sendable, PutMsg;
    var r := new Reader(b);
    var m;
    m, died := GetMsg(env, r);
    if m.None? {
      return None, died;
    }
    ghost var args := r.rest;
    HeaderReads(env, b, m.value, args);
    ghost var d;
    var header, proc, arg;
    d, header, proc, arg, died := srv.GetProc(env, m.value, r);
    reply := None;
    if header.Some? {
      DecidesValid(env, srv.srvs, m.value, args, d);
      if proc.None? {
        reply := Some(PutMsg(env, header.value));
      } else {
        DecidesRunnable(env, srv.srvs, m.value, args, d);
        var res := Do(env, proc.value, arg, d.arg);
        reply := Serialize(env, header.value, proc.value, res);
        died := reply.None?;
      }
    }
    AnswersOnce(env, srv.srvs, b, m.value, args, d, reply);
  }

  /** The reply to a call that was run. None if the result does not marshal, which is a panic
      that nothing recovers. */
  method Serialize(env: Schema, header: Msg, p: ProcType, res: Option<Value>) returns (reply: Option<seq<byte>>)
    requires env.Valid() && RpcMsg.Valid(header) && env.WellFormed(p.res)
    requires res.Some? ==> Typed(env, p.res, res.value, false)
    ensures res.None? ==> reply == Some(PutMsg(env, Msg(header.xid, Other(NO_AUTH, SYSTEM_ERR))))
    ensures res.Some? && Sendable(env, p.res, res.value) ==> reply == Some(Octets(env, header, p.res, res.value))
    ensures res.Some? && !Sendable(env, p.res, res.value) ==> reply == None
  {
    hide Typed, Encode;
    if res.None? {
      return Some(PutMsg(env, Msg(header.xid, Other(NO_AUTH, SYSTEM_ERR))));
    }
    var out := Encode(env, p.res, res.value);
    reply := if out.Wire? then Some(PutMsg(env, header) + out.out) else None;
  }

  lemma DecidesValid(env: Schema, t: Table, m: Msg, args: seq<byte>, d: Decision)
    requires env.Valid() && Usable(env, t) && Decides(env, t, m, args, d)
    ensures d.Refuse? || d.Run? ==> RpcMsg.Valid(d.reply) && d.reply.xid == m.xid && !d.reply.body.Call?
    ensures d.Run? ==> d.reply.body.Success?
  {
    hide Decode, Runnable;
  }

  lemma DecidesRunnable(env: Schema, t: Table, m: Msg, args: seq<byte>, d: Decision)
    requires env.Valid() && Usable(env, t) && Decides(env, t, m, args, d) && d.Run?
    ensures Runnable(env, d.proc) && InBounds(env, d.proc.arg, d.arg)
  {
    hide Decode, Typed, Encode;
    var Call(_, prog, vers, c, _, _) := m.body;
    assert Has(t, prog, vers) && Runnable(env, t[prog][vers].procs[c]);
    Canonical(env, d.proc.arg, args);
  }

  lemma DecidesOnce(env: Schema, t: Table, m: Msg, args: seq<byte>, d: Decision, d': Decision)
    requires env.Valid() && Usable(env, t) && Decides(env, t, m, args, d) && Decides(env, t, m, args, d')
    ensures d.Refuse? == d'.Refuse? && (!d.Refuse? ==> d == d')
  {
    hide Decode, Runnable;
  }

  /** The reply made, or its absence, or the crash, is what comes of doMsg on these octets. */
  lemma AnswersOnce(env: Schema, t: Table, b: seq<byte>, m: Msg, args: seq<byte>, d: Decision, reply: Option<seq<byte>>)
    requires env.Valid() && Usable(env, t) && Headed(env, b, m, args) && Decides(env, t, m, args, d)
    requires (HeaderWellFormed(env); Decode(env, RPC_MSG, b).Got?)
    requires reply.Some? ==> Replies(env, d, reply.value)
    requires reply.None? ==> !d.Refuse? && forall o :: !Replies(env, d, o)
    ensures Kills(env, t, b) <==> Ends(env, d)
    ensures reply.Some? ==> Serves(env, t, b, reply.value)
    ensures reply.None? ==> forall o :: !Serves(env, t, b, o)
  {
    hide Headed, Decides, Replies, Usable, Decode, Sendable;
    if Kills(env, t, b) {
      var m', args', d' :| Headed(env, b, m', args') && Decides(env, t, m', args', d') && Ends(env, d');
      HeaderOnce(env, b, m, args, m', args');
      DecidesOnce(env, t, m, args, d, d');
    }
    if reply.Some? {
      assert Answers(env, t, m, args, reply.value);
    } else {
      forall o ensures !Serves(env, t, b, o) {
        if Serves(env, t, b, o) {
          var m', args' :| Headed(env, b, m', args') && Answers(env, t, m', args', o);
          HeaderOnce(env, b, m, args, m', args');
          var d' :| Decides(env, t, m, args, d') && Replies(env, d', o);
          DecidesOnce(env, t, m, args, d, d');
        }
      }
    }
  }

  lemma TreeRoot(env: Schema, t: Type, s: Slot)
    requires env.Valid() && env.WellFormed(t) && Tree(env, t, s)
    ensures s in s.repr
  {
  }

  lemma OctetsHeaded(env: Schema, m: Msg, t: Type, v: Value)
    requires env.Valid() && RpcMsg.Valid(m) && Sendable(env, t, v)
    ensures Headed(env, Octets(env, m, t, v), m, Encode(env, t, v).out)
  {
    HeaderRoundTrip(env, m, Encode(env, t, v).out);
  }

  /** A reply starts with a header for the call it answers. */
  lemma ReplyHeaded(env: Schema, t: Table, b: seq<byte>, m: Msg, args: seq<byte>, reply: seq<byte>)
    requires env.Valid() && Usable(env, t) && Headed(env, b, m, args) && Serves(env, t, b, reply)
    ensures exists m', rest :: Headed(env, reply, m', rest) && m'.xid == m.xid && !m'.body.Call?
  {
    hide Headed, Decides, Usable, Encode, Typed;
    var m1, args1 :| Headed(env, b, m1, args1) && Answers(env, t, m1, args1, reply);
    HeaderOnce(env, b, m, args, m1, args1);
    var d :| Decides(env, t, m, args, d) && Replies(env, d, reply);
    DecidesValid(env, t, m, args, d);
    if d.Run? && d.proc.run(d.arg).Some? {
      HeaderRoundTrip(env, d.reply, Encode(env, d.proc.res, d.proc.run(d.arg).value).out);
    } else {
      var m2 := if d.Run? then Msg(m.xid, Other(NO_AUTH, SYSTEM_ERR)) else d.reply;
      HeaderRoundTrip(env, m2, []);
      assert PutMsg(env, m2) + [] == reply;
    }
  }

  // ------------------------------------------------------------------- the caller again

  /** doMsg at the client, on the octets of a reply to the call x. `died` is a crash. */
  method Accept(env: Schema, cs: CallSets.CallSet, from: string, x: u32, b: seq<byte>, ghost s: Calls.State)
    returns (r: Option<Calls.Answer>, ghost h: Heard, died: bool)
    requires env.Valid() && cs.Shows(s) && x in cs.calls && env.WellFormed(cs.calls[x].proc.res)
    requires Tree(env, cs.calls[x].proc.res, cs.calls[x].res)
    requires exists m, rest :: Headed(env, b, m, rest) && m.xid == x && !m.body.Call?
    modifies cs, cs.calls[x].res.repr
    ensures var pc := old(cs.calls)[x];
      && (died <==> from == pc.server && KillsCaller(env, pc.proc, b))
      && if died then r == None
         else if from == pc.server then
           && r == Some(Calls.Final(h.answer, h.decodes))
           && Hears(env, pc.proc, b, h) && h.xid == x
           && Tree(env, pc.proc.res, pc.res) && (h.result.Some? ==> Holds(env, pc.proc.res, pc.res, h.result.value))
           && cs.calls == old(cs.calls) - {x} && cs.Shows(AfterReply(s, from, h))
         else r == None && cs.calls == old(cs.calls)
  {
    hide Tree, Holds, Headed, Decode, CallSets.Effect, cs.Shows, Calls.Next;
    var results := new Reader(b);
    var got;
    got, died := GetMsg(env, results);
    var m := got.value;
    ghost var rest := results.rest;
    ghost var m', rest' :| Headed(env, b, m', rest') && m'.xid == x && !m'.body.Call?;
    HeaderOnce(env, b, m, rest, m', rest');
    ghost var pc, d := cs.calls[x], Decode(env, cs.calls[x].proc.res, rest);
    var g;
    ghost var decodes;
    g, decodes, died := cs.GetReply(env, from, m, results, s);
    h := Heard(x, CallSets.AnswerOf(m.body), decodes, if m.body.Success? && d.Got? then Some(d.v) else None);
    KillsCallerIf(env, pc.proc, b, m, rest);
    if g.None? {
      return None, h, died;
    }
    assert Reads(env, pc.proc, m, rest, h);
    r := Some(g.value.2);
  }

  lemma KillsCallerIf(env: Schema, p: Proc, b: seq<byte>, m: Msg, rest: seq<byte>)
    requires env.Valid() && env.WellFormed(p.res) && Headed(env, b, m, rest)
    ensures KillsCaller(env, p, b) <==> m.body.Success? && Decode(env, p.res, rest).Crash?
  {
    hide Headed, Decode;
    if KillsCaller(env, p, b) {
      var m', rest' :| Headed(env, b, m', rest') && m'.body.Success? && Decode(env, p.res, rest').Crash?;
      HeaderOnce(env, b, m, rest, m', rest');
    }
  }

  // ------------------------------------------------------------------- all of it

  /** A whole call, from the caller's argument variable to its result variable. It returns when
      the reply has been matched; otherwise something on the way stopped it, and the entry is
      left for whoever cancels it. `from` is the name that the reply's connection has; `died` is a
      crash of the server or the caller. */
  method Call(env: Schema, cs: CallSets.CallSet, srv: RpcSrv, peer: string, from: string, p: Proc, arg: Slot, res: Slot,
              cb: nat, to: Wire, back: Wire, ghost v: Value, ghost s: Calls.State)
    returns (r: Option<Calls.Answer>, died: bool, ghost x: u32, ghost reply: seq<byte>, ghost h: Heard)
    requires env.Valid() && Usable(env, srv.srvs) && to.Lossless() && back.Lossless()
    requires env.WellFormed(p.arg) && Tree(env, p.arg, arg) && Holds(env, p.arg, arg, v) && Typed(env, p.arg, v, false)
    requires env.WellFormed(p.res) && Tree(env, p.res, res) && arg.repr !! res.repr
    requires cs.Shows(s) && cb == |s.calls| && |s.pending.Keys| < TWO32
    modifies cs, arg.repr, res.repr
    ensures r.Some? ==>
              && !died && from == peer && Sendable(env, p.arg, v)
              && Serves(env, srv.srvs, Octets(env, CallSets.CallMsg(x, p), p.arg, v), reply)
              && Hears(env, p, reply, h) && h.xid == x && r.value == Calls.Final(h.answer, h.decodes)
              && Tree(env, p.res, res) && (h.result.Some? ==> Holds(env, p.res, res, h.result.value))
              && cs.calls == old(cs.calls)
              && Calls.Enabled(TWO32, s, Calls.Begin(peer, true, false))
              && cs.Shows(AfterReply(Calls.Next(TWO32, s, Calls.Begin(peer, true, false)), from, h))
    ensures r.None? && !died ==>
              && cs.calls == old(cs.calls)[x := CallSets.PendingCall(p, res, cb, peer)]
              && (Sendable(env, p.arg, v) ==>
                    var request := Octets(env, CallSets.CallMsg(x, p), p.arg, v);
                    || !to.Passes(request)
                    || (forall o :: !Serves(env, srv.srvs, request, o))
                    || (Serves(env, srv.srvs, request, reply) && (!back.Passes(reply) || from != peer)))
    ensures died ==>
              && Sendable(env, p.arg, v)
              && var request := Octets(env, CallSets.CallMsg(x, p), p.arg, v);
                 || Kills(env, srv.srvs, request)
                 || (Serves(env, srv.srvs, request, reply) && from == peer && KillsCaller(env, p, reply))
    ensures r.Some? && Agree(srv.srvs, p) && InBounds(env, p.arg, v) ==>
              Delivered(env, srv.srvs, p, x, v, r.value, res, h)
    ensures Agree(srv.srvs, p) && InBounds(env, p.arg, v) && ResultInBounds(env, srv.srvs, p, v) ==> !died
  {
    hide Tree, Holds, Typed, Encode, Headed, Serves, Hears, Octets, Usable, cs.Shows, Calls.Next, Delivered;
    hide Wire.Passes, Wire.Lossless, Kills, KillsCaller, ResultInBounds;
    TreeRoot(env, p.res, res);
    reply, h, died := [], Heard(0, Calls.Denied, false, None), false;
    var id, request := Request(env, cs, peer, p, arg, res, cb, v, s);
    x := id;
    if request.None? {
      return None, false, x, reply, h;
    }
    ghost var s1 := Calls.Next(TWO32, s, Calls.Begin(peer, true, false));
    var b := Transit(request.value, to);
    if b.None? {
      return None, false, x, reply, h;
    }
    WellMadeCall(env, srv.srvs, p, x, v);
    var answer;
    answer, died := Answer(env, srv, b.value);
    if answer.None? {
      return None, died, x, reply, h;
    }
    reply := answer.value;
    ServesNotKills(env, srv.srvs, b.value, reply);
    var c := Transit(answer.value, back);
    if c.None? {
      return None, died, x, reply, h;
    }
    ghost var m := CallSets.CallMsg(x, p);
    OctetsHeaded(env, m, p.arg, v);
    assert cs.calls[id] == CallSets.PendingCall(p, res, cb, peer);
    ReplyHeaded(env, srv.srvs, b.value, m, Encode(env, p.arg, v).out, reply);
    WellMadeReply(env, srv.srvs, p, x, v, reply);
    r, h, died := Accept(env, cs, from, id, c.value, s1);
    if r.Some? && Agree(srv.srvs, p) && InBounds(env, p.arg, v) {
      HearsReply(env, srv.srvs, p, x, v, reply, h);
      DeliveredIs(env, srv.srvs, p, x, v, r.value, res, h);
    }
  }

  ghost predicate ResultInBounds(env: Schema, t: Table, p: Proc, v: Value)
    requires env.Valid() && env.WellFormed(p.res)
  {
    Expected(t, p, v).1.Some? ==> InBounds(env, p.res, Expected(t, p, v).1.value)
  }

  lemma ServesNotKills(env: Schema, t: Table, b: seq<byte>, reply: seq<byte>)
    requires env.Valid() && Usable(env, t) && Serves(env, t, b, reply)
    ensures !Kills(env, t, b)
  {
    hide Headed, Decides, Usable, Decode, Sendable, Octets, PutMsg;
    var m, args :| Headed(env, b, m, args) && Answers(env, t, m, args, reply);
    HeaderReads(env, b, m, args);
    var d :| Decides(env, t, m, args, d) && Replies(env, d, reply);
    if Kills(env, t, b) {
      var m', args', d' :| Headed(env, b, m', args') && Decides(env, t, m', args', d') && Ends(env, d');
      HeaderOnce(env, b, m, args, m', args');
      DecidesOnce(env, t, m, args, d, d');
    }
  }

  /** A call between agreeing sides with everything in bounds crashes neither. */
  lemma WellMadeCall(env: Schema, t: Table, p: Proc, x: u32, v: Value)
    requires env.Valid() && Usable(env, t) && env.WellFormed(p.res) && Sendable(env, p.arg, v)
    ensures Agree(t, p) && InBounds(env, p.arg, v) && ResultInBounds(env, t, p, v) ==>
              !Kills(env, t, Octets(env, CallSets.CallMsg(x, p), p.arg, v))
  {
    hide Kills, Octets, Typed, Encode, Decode, Usable, Expected;
    if Agree(t, p) && InBounds(env, p.arg, v) && ResultInBounds(env, t, p, v) {
      CallKills(env, t, p, x, v);
      var result := Expected(t, p, v).1;
      if result.Some? { RoundTrip(env, p.res, result.value, []); }
    }
  }

  lemma WellMadeReply(env: Schema, t: Table, p: Proc, x: u32, v: Value, reply: seq<byte>)
    requires env.Valid() && Usable(env, t) && env.WellFormed(p.res) && Sendable(env, p.arg, v)
    requires Serves(env, t, Octets(env, CallSets.CallMsg(x, p), p.arg, v), reply)
    ensures Agree(t, p) && InBounds(env, p.arg, v) && ResultInBounds(env, t, p, v) ==> !KillsCaller(env, p, reply)
  {
    hide Serves, Octets, Typed, Encode, Decode, Usable, PutMsg, Headed;
    if Agree(t, p) && InBounds(env, p.arg, v) && ResultInBounds(env, t, p, v) && KillsCaller(env, p, reply) {
      var m, rest :| Headed(env, reply, m, rest) && m.body.Success? && Decode(env, p.res, rest).Crash?;
      var d := Served(env, t, p, x, v, reply);
      if d.Run? && d.proc.run(d.arg).Some? {
        Arrives(env, d.reply, p.res, d.proc.run(d.arg).value, m, rest);
      } else {
        var m' := if d.Run? then Msg(d.reply.xid, Other(NO_AUTH, SYSTEM_ERR)) else d.reply;
        HeaderRoundTrip(env, m', []);
        assert PutMsg(env, m') + [] == reply;
        HeaderOnce(env, reply, m', [], m, rest);
      }
    }
  }

  /** The caller's variable holds what the registered procedure made of the argument, provided
      that is in bounds; and the answer is the one expected. */
  ghost predicate Delivered(env: Schema, t: Table, p: Proc, x: u32, v: Value, answer: Calls.Answer, res: Slot, h: Heard)
    requires env.Valid() && env.WellFormed(p.res) && Tree(env, p.res, res)
    reads res, res.repr
  {
    var (expected, result) := Expected(t, p, v);
    && Outcome(env, t, p, x, v, h)
    && (result.None? ==> answer == expected)
    && (result.Some? && InBounds(env, p.res, result.value) ==>
          answer == Calls.Accepted(SUCCESS) && Holds(env, p.res, res, result.value))
  }

  lemma DeliveredIs(env: Schema, t: Table, p: Proc, x: u32, v: Value, answer: Calls.Answer, res: Slot, h: Heard)
    requires env.Valid() && env.WellFormed(p.res) && Tree(env, p.res, res)
    requires Outcome(env, t, p, x, v, h) && answer == Calls.Final(h.answer, h.decodes)
    requires h.result.Some? ==> Holds(env, p.res, res, h.result.value)
    ensures Delivered(env, t, p, x, v, answer, res, h)
  {
    hide Tree, Holds, Typed;
  }

  /** An argument that the Go type admits and that does not marshal: one element in a vector with
      bound zero. SendCall panics on it and leaves its entry in the table with no call in flight. */
  lemma UnmarshalableLeaks(peer: string)
    ensures var env, t, v := Schema(map[], map[]), Vec(Num32(Int), 0), VSeq([V32(7)]);
      && env.Valid() && env.WellFormed(t) && Typed(env, t, v, false) && Encode(env, t, v).Panic?
      && var run := [Calls.Begin(peer, Encode(env, t, v).Wire?, false), Calls.Panic(0)];
         && Calls.Legal(TWO32, run) && Calls.After(TWO32, run).pending != map[]
         && forall i :: 0 <= i < |Calls.After(TWO32, run).calls| ==> !Calls.InFlight(Calls.After(TWO32, run).calls[i])
  {
    Calls.PanicLeaks(TWO32, peer, false);
    var env, t, v := Schema(map[], map[]), Vec(Num32(Int), 0), VSeq([V32(7)]);
    assert Typed(env, Num32(Int), v.elems[0], false);
    assert Counted(v.elems) == v.elems;
  }

  /** A call that ends the server's program: a procedure that takes eight octets, or a 64-bit
      number, called with none, or with a word. */
  lemma ShortArgumentKills(env: Schema, t: Table, m: Msg, args: seq<byte>, d: Decision)
    requires env.Valid() && Usable(env, t) && RpcMsg.Valid(m)
    requires m.body.Call? && m.body.rpcvers == 2 && Has(t, m.body.prog, m.body.vers)
    requires m.body.proc in t[m.body.prog][m.body.vers].procs
    requires var arg := t[m.body.prog][m.body.vers].procs[m.body.proc].arg;
             (arg == Opaque(8) && args == []) || (arg == Num64(Hyper) && |args| == 4)
    requires Decides(env, t, m, args, d)
    ensures d == End && Kills(env, t, PutMsg(env, m) + args)
  {
    hide Headed, ToValue, PutMsg, Usable;
    LeafEnds(env, Opaque(8), args);
    LeafEnds(env, Num64(Hyper), args);
    HeaderRoundTrip(env, m, args);
    assert Ends(env, d);
  }

  /** No octets at all for the number, though, are an XdrError, and the server answers. */
  lemma NoArgumentRefused(env: Schema, t: Table, m: Msg, d: Decision)
    requires env.Valid() && Usable(env, t) && RpcMsg.Valid(m)
    requires m.body.Call? && m.body.rpcvers == 2 && Has(t, m.body.prog, m.body.vers)
    requires m.body.proc in t[m.body.prog][m.body.vers].procs
    requires t[m.body.prog][m.body.vers].procs[m.body.proc].arg == Num64(Hyper)
    requires Decides(env, t, m, [], d)
    ensures d == Refuse(Msg(m.xid, Other(NO_AUTH, GARBAGE_ARGS)))
  {
    hide Usable;
    LeafEnds(env, Num64(Hyper), []);
  }
}
