/** A remote call from SendCall to the handler and back: the codec, the message header, record
    marking, dispatch and the pending-call protocol together. */
module EndToEnd {
  import opened Bytes
  import opened Schema
  import opened Codec
  import opened RpcMsg
  import opened Stats
  import opened Records
  import opened Server
  import CallSets
  import Calls
  import opened Outcomes

  type Proc = CallSets.Proc

  /** One direction of a connection: the messages sent, one after the other, the octets that were
      read of them, in whatever chunks, and the name the receiver has for the sender. */
  datatype Link = Link(peer: string, sent: seq<seq<byte>>, read: Chunks, max: nat) {

    /** Octets arrive in order and unchanged, though not necessarily all. */
    ghost predicate Faithful() {
      exists missing :: Concat(read) + missing == Stream(SplitAll(sent))
    }

    function Received(): seq<seq<byte>> {
      ReceiveAll(max, read)
    }
  }

  lemma ArrivesAsSent(l: Link, i: nat)
    requires l.Faithful() && i < |l.Received()|
    ensures i < |l.sent| && l.Received()[i] == l.sent[i]
  {
    var missing :| Concat(l.read) + missing == Stream(SplitAll(l.sent));
    SentThenReceived(l.max, l.sent, l.read, missing);
  }

  ghost predicate Sendable(env: Schema, t: Type, v: Value)
    requires env.Valid()
  {
    env.WellFormed(t) && Typed(env, t, v, false) && Encode(env, t, v).Wire?
  }

  /** A header and what is marshaled after it. */
  ghost function Octets(env: Schema, m: Msg, t: Type, v: Value): seq<byte>
    requires env.Valid() && RpcMsg.Valid(m) && Sendable(env, t, v)
  {
    PutMsg(env, m) + Encode(env, t, v).out
  }

  lemma HeaderOnce(env: Schema, b: seq<byte>, m: Msg, rest: seq<byte>, m': Msg, rest': seq<byte>)
    requires env.Valid() && Headed(env, b, m, rest) && Headed(env, b, m', rest')
    ensures m == m' && rest == rest'
  {
    hide ToValue, Decode;
    ToValueInjective(m, m');
  }

  /** GetMsg finds the header that was sent, and what follows unmarshals to the value that was
      marshaled if and only if that was in bounds. */
  lemma Arrives(env: Schema, m: Msg, t: Type, v: Value, m': Msg, rest: seq<byte>)
    requires env.Valid() && RpcMsg.Valid(m) && Sendable(env, t, v)
    requires Headed(env, Octets(env, m, t, v), m', rest)
    ensures m' == m && rest == Encode(env, t, v).out
    ensures InBounds(env, t, v) <==> Decode(env, t, rest) == Got(v, [])
  {
    hide Headed, Decode, Encode, Typed;
    var out := Encode(env, t, v).out;
    HeaderRoundTrip(env, m, out);
    HeaderOnce(env, PutMsg(env, m) + out, m, out, m', rest);
    RoundTripExactly(env, t, v, []);
    assert out + [] == out;
  }

  // ------------------------------------------------------------------- the server

  /** What doMsg sends back. Nothing is sent if the result of the procedure cannot be marshaled. */
  ghost predicate Replies(env: Schema, d: Decision, reply: seq<byte>)
    requires env.Valid()
  {
    match d
    case Ignore => false
    case End => false
    case Refuse(r) => RpcMsg.Valid(r) && reply == PutMsg(env, r)
    case Run(r, p, arg) =>
      match p.run(arg)
      case None => reply == PutMsg(env, Msg(r.xid, Other(NO_AUTH, SYSTEM_ERR)))
      case Some(res) => RpcMsg.Valid(r) && Sendable(env, p.res, res) && reply == Octets(env, r, p.res, res)
  }

  ghost predicate Answers(env: Schema, t: Table, m: Msg, args: seq<byte>, reply: seq<byte>)
    requires env.Valid() && Usable(env, t)
  {
    exists d :: Decides(env, t, m, args, d) && Replies(env, d, reply)
  }

  /** doMsg on the octets of a message. */
  ghost predicate Serves(env: Schema, t: Table, b: seq<byte>, reply: seq<byte>)
    requires env.Valid() && Usable(env, t)
  {
    exists m, args :: Headed(env, b, m, args) && Answers(env, t, m, args, reply)
  }

  /** The decision, or what comes of it, crashes: the argument does when it is unmarshaled, or the
      result does not marshal. */
  ghost predicate Ends(env: Schema, d: Decision)
    requires env.Valid()
  {
    d.End? || (d.Run? && d.proc.run(d.arg).Some? && !Sendable(env, d.proc.res, d.proc.run(d.arg).value))
  }

  /** doMsg on these octets ends the server's program. */
  ghost predicate Kills(env: Schema, t: Table, b: seq<byte>)
    requires env.Valid() && Usable(env, t)
  {
    || (HeaderWellFormed(env); Decode(env, RPC_MSG, b).Crash?)
    || exists m, args, d :: Headed(env, b, m, args) && Decides(env, t, m, args, d) && Ends(env, d)
  }

  /** A call that is well made does not: neither its header nor its argument crashes, and only a
      result that does not marshal could. */
  lemma CallKills(env: Schema, t: Table, p: Proc, xid: u32, arg: Value)
    requires env.Valid() && Usable(env, t) && Agree(t, p)
    requires Sendable(env, p.arg, arg) && InBounds(env, p.arg, arg)
    ensures var result := Expected(t, p, arg).1;
            Kills(env, t, Octets(env, CallSets.CallMsg(xid, p), p.arg, arg))
            ==> result.Some? && !Sendable(env, p.res, result.value)
  {
    hide Headed, Decides, Decode, Typed, Encode, Usable, PutMsg;
    var sent := CallSets.CallMsg(xid, p);
    var b := Octets(env, sent, p.arg, arg);
    HeaderRoundTrip(env, sent, Encode(env, p.arg, arg).out);
    HeaderReads(env, b, sent, Encode(env, p.arg, arg).out);
    if Kills(env, t, b) {
      var m, args, d :| Headed(env, b, m, args) && Decides(env, t, m, args, d) && Ends(env, d);
      Arrives(env, sent, p.arg, arg, m, args);
      Dispatched(env, t, p, xid, arg, args, d);
    }
  }

  lemma HeaderReads(env: Schema, b: seq<byte>, m: Msg, rest: seq<byte>)
    requires env.Valid() && Headed(env, b, m, rest)
    ensures (HeaderWellFormed(env); Decode(env, RPC_MSG, b).Got?)
  {
    hide Decode, ToValue;
  }

  // ------------------------------------------------------------------- the client

  /** What GetReply makes of the octets of a message when its identifier is that of a call to p:
      the status before the result is unmarshaled, whether that succeeds, and the result. */
  datatype Heard = Heard(xid: u32, answer: Calls.Answer, decodes: bool, result: Option<Value>)

  ghost predicate Hears(env: Schema, p: Proc, b: seq<byte>, r: Heard)
    requires env.Valid() && env.WellFormed(p.res)
  {
    exists m, rest :: Headed(env, b, m, rest) && Reads(env, p, m, rest, r)
  }

  ghost predicate Reads(env: Schema, p: Proc, m: Msg, rest: seq<byte>, r: Heard)
    requires env.Valid() && env.WellFormed(p.res)
  {
    && !m.body.Call? && r.xid == m.xid && r.answer == CallSets.AnswerOf(m.body)
    && if m.body.Success? then
         match Decode(env, p.res, rest)
         case Got(v, _) => r.decodes && r.result == Some(v)
         case Bad => !r.decodes && r.result == None
         case Crash => false
       else r.decodes && r.result == None
  }

  /** doMsg on these octets, as a reply to a call to p, ends the client's program. */
  ghost predicate KillsCaller(env: Schema, p: Proc, b: seq<byte>)
    requires env.Valid() && env.WellFormed(p.res)
  {
    exists m, rest :: Headed(env, b, m, rest) && m.body.Success? && Decode(env, p.res, rest).Crash?
  }

  // ------------------------------------------------------------------- together

  predicate Offers(t: Table, p: Proc) {
    Has(t, p.prog, p.vers) && p.proc in t[p.prog][p.vers].procs
  }

  /** The outcome of a call as the caller is to see it: what the registered procedure of that
      program, version and number makes of this argument, if there is such a procedure. */
  function Expected(t: Table, p: Proc, arg: Value): (Calls.Answer, Option<Value>) {
    if p.prog !in t then (Calls.Accepted(PROG_UNAVAIL), None)
    else if p.vers !in t[p.prog] then (Calls.Accepted(PROG_MISMATCH), None)
    else if p.proc !in t[p.prog][p.vers].procs then (Calls.Accepted(PROC_UNAVAIL), None)
    else
      match t[p.prog][p.vers].procs[p.proc].run(arg)
      case None => (Calls.Accepted(SYSTEM_ERR), None)
      case Some(res) => (Calls.Accepted(SUCCESS), Some(res))
  }

  /** Of several services registered for the program and version the one registered last runs. */
  lemma LatestRuns(ss: seq<Service>, i: nat, p: Proc, arg: Value)
    requires Latest(ss, i, p.prog, p.vers) && p.proc in ss[i].procs
    ensures Offers(AllRegistered(ss), p)
    ensures Expected(AllRegistered(ss), p, arg).1 == ss[i].procs[p.proc].run(arg)
  {
    FindsLatest(ss, p.prog, p.vers);
  }

  /** Client and server were compiled from one declaration of the procedure. */
  predicate Agree(t: Table, p: Proc) {
    Offers(t, p) ==>
      t[p.prog][p.vers].procs[p.proc].arg == p.arg && t[p.prog][p.vers].procs[p.proc].res == p.res
  }

  /** The decision on a call to p with this argument: to run the registered procedure of that
      program, version and number on it, or a refusal if there is none. */
  ghost predicate DispatchedTo(t: Table, p: Proc, xid: u32, arg: Value, d: Decision) {
    if Offers(t, p) then
      d == Run(Msg(xid, Success(NO_AUTH)), t[p.prog][p.vers].procs[p.proc], arg)
    else
      && d.Refuse? && d.reply.xid == xid && !d.reply.body.Call? && !d.reply.body.Success?
      && Expected(t, p, arg) == (CallSets.AnswerOf(d.reply.body), None)
  }

  /** Dispatch of a call that arrived whole. */
  lemma Dispatched(env: Schema, t: Table, p: Proc, xid: u32, arg: Value, args: seq<byte>, d: Decision)
    requires env.Valid() && Usable(env, t) && Agree(t, p) && env.WellFormed(p.arg)
    requires Decode(env, p.arg, args) == Got(arg, [])
    requires Decides(env, t, CallSets.CallMsg(xid, p), args, d)
    ensures DispatchedTo(t, p, xid, arg, d)
  {
    hide Decode, Runnable;
  }

  /** The server's side: whatever reply it sends, it dispatched this very call. */
  lemma Served(env: Schema, t: Table, p: Proc, xid: u32, arg: Value, reply: seq<byte>) returns (d: Decision)
    requires env.Valid() && Usable(env, t) && Agree(t, p)
    requires Sendable(env, p.arg, arg) && InBounds(env, p.arg, arg)
    requires Serves(env, t, Octets(env, CallSets.CallMsg(xid, p), p.arg, arg), reply)
    ensures Replies(env, d, reply) && DispatchedTo(t, p, xid, arg, d)
  {
    hide Headed, Decides, Replies, Octets, Decode, Typed, Expected, Agree, Usable, DispatchedTo;
    var sent := CallSets.CallMsg(xid, p);
    var m, args :| Headed(env, Octets(env, sent, p.arg, arg), m, args) && Answers(env, t, m, args, reply);
    Arrives(env, sent, p.arg, arg, m, args);
    d :| Decides(env, t, m, args, d) && Replies(env, d, reply);
    Dispatched(env, t, p, xid, arg, args, d);
  }

  /** A reply without a result. */
  lemma HearsHeader(env: Schema, p: Proc, m: Msg, r: Heard)
    requires env.Valid() && env.WellFormed(p.res) && RpcMsg.Valid(m) && !m.body.Success?
    requires Hears(env, p, PutMsg(env, m), r)
    ensures r == Heard(m.xid, CallSets.AnswerOf(m.body), true, None)
  {
    hide Headed, Decode;
    HeaderRoundTrip(env, m, []);
    assert PutMsg(env, m) + [] == PutMsg(env, m);
    var m', rest :| Headed(env, PutMsg(env, m), m', rest) && Reads(env, p, m', rest, r);
    HeaderOnce(env, PutMsg(env, m), m, [], m', rest);
  }

  /** A SUCCESS reply: the caller has the handler's result if and only if that was in bounds. */
  lemma HearsResult(env: Schema, p: Proc, xid: u32, res: Value, r: Heard)
    requires env.Valid() && env.WellFormed(p.res) && Sendable(env, p.res, res)
    requires Hears(env, p, Octets(env, Msg(xid, Success(NO_AUTH)), p.res, res), r)
    ensures r.xid == xid && r.answer == Calls.Accepted(SUCCESS) && (r.decodes <==> r.result.Some?)
    ensures r.result == Some(res) <==> InBounds(env, p.res, res)
  {
    hide Headed, Decode, Encode, Typed, Octets;
    var sent := Msg(xid, Success(NO_AUTH));
    var m, rest :| Headed(env, Octets(env, sent, p.res, res), m, rest) && Reads(env, p, m, rest, r);
    Arrives(env, sent, p.res, res, m, rest);
    if Decode(env, p.res, rest).Got? { Canonical(env, p.res, rest); }
  }

  /** The reply carries the identifier of the call and the status expected; its result is the one
      expected, if and only if that is in bounds. */
  ghost predicate Outcome(env: Schema, t: Table, p: Proc, xid: u32, arg: Value, r: Heard)
    requires env.Valid() && env.WellFormed(p.res)
  {
    var (answer, result) := Expected(t, p, arg);
    && r.xid == xid && r.answer == answer && (r.decodes <==> result.None? || r.result.Some?)
    && (r.result == result <==> (result.Some? ==> InBounds(env, p.res, result.value)))
  }

  /** The reply to a call reads as expected. */
  lemma HearsReply(env: Schema, t: Table, p: Proc, xid: u32, arg: Value, reply: seq<byte>, r: Heard)
    requires env.Valid() && Usable(env, t) && Agree(t, p) && env.WellFormed(p.res)
    requires Sendable(env, p.arg, arg) && InBounds(env, p.arg, arg)
    requires Serves(env, t, Octets(env, CallSets.CallMsg(xid, p), p.arg, arg), reply) && Hears(env, p, reply, r)
    ensures Outcome(env, t, p, xid, arg, r)
  {
    hide Hears, Serves, Decode, Typed, Octets, Sendable, PutMsg, Usable;
    var d := Served(env, t, p, xid, arg, reply);
    if d.Refuse? {
      HearsHeader(env, p, d.reply, r);
    } else if d.proc.run(arg).None? {
      HearsHeader(env, p, Msg(xid, Other(NO_AUTH, SYSTEM_ERR)), r);
    } else {
      HearsResult(env, p, xid, d.proc.run(arg).value, r);
    }
  }

  /** The table and the calls after GetReply with this reply from this peer. */
  ghost function AfterReply(s: Calls.State, peer: string, r: Heard): Calls.State {
    Calls.Next(TWO32, s, Calls.GetReply(r.xid, peer, r.answer, r.decodes))
  }

  /** The reply is the n-th step of a run, when call k is pending under the identifier. */
  ghost predicate Arrived(run: seq<Calls.Action>, n: nat, k: nat, xid: nat, peer: string, r: Heard) {
    && Calls.Legal(TWO32, run) && n < |run| && Calls.Legal(TWO32, run[..n])
    && run[n] == Calls.GetReply(r.xid, peer, r.answer, r.decodes)
    && var s := Calls.After(TWO32, run[..n]);
       k < |s.calls| && Calls.Pending(s, k) && s.calls[k].xid == xid
  }

  /** From the peer the call was made to, the reply is what SendCall is to return, whatever else
      happens; from any other it changes nothing. */
  ghost predicate Settled(run: seq<Calls.Action>, n: nat, k: nat, peer: string, r: Heard)
    requires Arrived(run, n, k, r.xid, peer, r)
  {
    var s, s' := Calls.After(TWO32, run[..n]), Calls.After(TWO32, run);
    if s.calls[k].peer == peer then k < |s'.calls| && Settles(s'.calls[k], Calls.Final(r.answer, r.decodes))
    else AfterReply(s, peer, r) == s
  }

  lemma ArrivedSettles(run: seq<Calls.Action>, n: nat, k: nat, peer: string, r: Heard)
    requires Arrived(run, n, k, r.xid, peer, r)
    ensures Settled(run, n, k, peer, r)
  {
    hide Calls.Inv, Calls.Next, Calls.Modest;
    var s := Calls.After(TWO32, run[..n]);
    if s.calls[k].peer == peer {
      assert GaveAt(TWO32, run, n, k, Calls.Final(r.answer, r.decodes));
      GivenIsReturned(TWO32, run, n, k, Calls.Final(r.answer, r.decodes));
    } else {
      Dropped(s, k, peer, r);
    }
  }

  lemma Dropped(s: Calls.State, k: nat, peer: string, r: Heard)
    requires k < |s.calls| && Calls.Pending(s, k) && s.calls[k].xid == r.xid && s.calls[k].peer != peer
    ensures AfterReply(s, peer, r) == s
  {
  }

  /** GetReply took the action for these octets, of a reply to a call to p. */
  ghost predicate HeardAs(env: Schema, p: Proc, b: seq<byte>, a: Calls.Action)
    requires env.Valid() && env.WellFormed(p.res)
  {
    a.GetReply? && exists r :: Hears(env, p, b, r) && a.xid == r.xid && a.answer == r.answer && a.decodes == r.decodes
  }

  /** The octets start with the header of an accepted SUCCESS reply to the call, and its result
      follows. */
  ghost predicate SuccessOctets(env: Schema, p: Proc, b: seq<byte>, xid: nat)
    requires env.Valid() && env.WellFormed(p.res)
  {
    exists m, rest :: Headed(env, b, m, rest) && m.xid == xid && m.body.Success? && Decode(env, p.res, rest).Got?
  }

  lemma HeardSuccess(env: Schema, p: Proc, b: seq<byte>, a: Calls.Action)
    requires env.Valid() && env.WellFormed(p.res) && HeardAs(env, p, b, a)
    requires Calls.IsSuccess(a.answer) && a.decodes
    ensures SuccessOctets(env, p, b, a.xid)
  {
    hide Headed, Decode;
    var r :| Hears(env, p, b, r) && a.xid == r.xid && a.answer == r.answer && a.decodes == r.decodes;
    var m, rest :| Headed(env, b, m, rest) && Reads(env, p, m, rest, r);
    HeaderValid(env, b, m, rest);
    CallSets.SuccessReads(m.body);
  }

  lemma HeaderValid(env: Schema, b: seq<byte>, m: Msg, rest: seq<byte>)
    requires env.Valid() && Headed(env, b, m, rest)
    ensures RpcMsg.Valid(Msg(0, m.body))
  {
    hide Decode;
  }

  /** Down to the octets: SendCall returned nil only if, while the call was pending, its peer sent
      the header of an accepted SUCCESS reply with its identifier, followed by a result. `got`
      are the octets that each step was taken for, and `ps` the procedures of their calls. */
  lemma NilMeansOctets(env: Schema, run: seq<Calls.Action>, got: seq<seq<byte>>, ps: seq<Proc>, i: nat) returns (k: nat)
    requires env.Valid() && forall j :: 0 <= j < |ps| ==> env.WellFormed(ps[j].res)
    requires Calls.Legal(TWO32, run) && |got| == |ps| == |run| && i < |Calls.After(TWO32, run).calls|
    requires Calls.After(TWO32, run).calls[i].phase == Calls.Returned(None)
    requires forall j :: 0 <= j < |run| && run[j].GetReply? ==> HeardAs(env, ps[j], got[j], run[j])
    ensures k < |run| && Calls.Legal(TWO32, run[..k])
    ensures var s := Calls.After(TWO32, run[..k]);
      && i < |s.calls| && Calls.Pending(s, i)
      && run[k].GetReply? && run[k].peer == s.calls[i].peer
      && SuccessOctets(env, ps[k], got[k], s.calls[i].xid)
  {
    hide HeardAs, SuccessOctets;
    k := NilMeansSuccess(TWO32, run, i);
    HeardSuccess(env, ps[k], got[k], run[k]);
  }

  /** A call to p with an argument in bounds is the i-th message sent, and the i-th received. */
  ghost predicate Requested(env: Schema, p: Proc, xid: u32, arg: Value, to: Link, i: nat)
    requires env.Valid()
  {
    && Sendable(env, p.arg, arg) && InBounds(env, p.arg, arg)
    && to.Faithful() && i < |to.Received()| && i < |to.sent|
    && to.sent[i] == Octets(env, CallSets.CallMsg(xid, p), p.arg, arg)
  }

  /** The server's answer to the octets of a request is the j-th message sent back, and the
      client hears r in the j-th that it receives. */
  ghost predicate Answered(env: Schema, t: Table, p: Proc, request: seq<byte>, back: Link, j: nat, r: Heard)
    requires env.Valid() && Usable(env, t) && env.WellFormed(p.res)
  {
    && back.Faithful() && j < |back.Received()| && j < |back.sent|
    && Serves(env, t, request, back.sent[j])
    && Hears(env, p, back.Received()[j], r)
  }

  /** End to end. A call to p with an argument in bounds is the i-th message of one direction;
      whatever octets of that direction have been read, in whatever chunks, the server answers
      the message it reassembles i-th; its answer is the j-th message of the other direction, and
      the client reassembles that while a call is pending under the identifier of the request.
      Then the identifier is the same, the status is the one expected and the result is what the
      registered procedure makes of this very argument. If the call was made to the peer that the
      reply came from, then over every run its SendCall returns, unless a context ends first, nil
      exactly if there is such a result and it unmarshals, and the reply otherwise; if it was made
      to another, the reply changes nothing. */
  lemma CallCompletes(env: Schema, t: Table, p: Proc, xid: u32, arg: Value, to: Link, i: nat, back: Link, j: nat,
                      r: Heard, run: seq<Calls.Action>, n: nat, k: nat)
    requires env.Valid() && Usable(env, t) && Agree(t, p) && env.WellFormed(p.res)
    requires Requested(env, p, xid, arg, to, i)
    requires Answered(env, t, p, to.Received()[i], back, j, r)
    requires Arrived(run, n, k, xid, back.peer, r)
    ensures Outcome(env, t, p, xid, arg, r)
    ensures r.xid == xid && Settled(run, n, k, back.peer, r)
    ensures Calls.IsSuccess(Calls.Final(r.answer, r.decodes))
            <==> Expected(t, p, arg).0 == Calls.Accepted(SUCCESS) && r.decodes
  {
    hide Hears, Serves, Decode, Typed, Octets, Sendable, Agree, PutMsg, Usable, Link.Faithful, Link.Received;
    hide Settled, Calls.Legal;
    ArrivesAsSent(to, i);
    ArrivesAsSent(back, j);
    HearsReply(env, t, p, xid, arg, back.sent[j], r);
    ArrivedSettles(run, n, k, back.peer, r);
  }

  /** When it does happen: of a stream read to its end every message is received if and only if
      no header is split and no message is too long. */
  lemma AllArrive(l: Link)
    requires Concat(l.read) == Stream(SplitAll(l.sent))
    ensures l.Faithful()
    ensures l.Received() == l.sent <==>
              AllWhole(SplitAll(l.sent), l.read) && forall i :: 0 <= i < |l.sent| ==> |l.sent[i]| <= l.max
  {
    assert Concat(l.read) + [] == Stream(SplitAll(l.sent));
    SplitAllIs(l.sent);
    MessagesAt(SplitAll(l.sent));
    DeliversAll(l.max, SplitAll(l.sent), l.read);
  }

  lemma {:induction false} MessagesAt(recs: seq<seq<seq<byte>>>)
    ensures forall i :: 0 <= i < |recs| ==> Messages(recs)[i] == Concat(recs[i])
  {
    if recs != [] { MessagesAt(recs[1..]); }
  }
}
