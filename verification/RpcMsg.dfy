/** The RPC message header of RFC 5531 section 9 (rpc_msg.x), as a type of the codec. */
module RpcMsg {
  import opened Bytes
  import opened Schema
  import opened Codec
  import opened Stats

  const UNSIGNED := Num32(Uint)
  const OPAQUE_AUTH := Struct([Num32(Enum("auth_flavor")), VarOpaque(400)])
  const CALL_BODY := Struct([UNSIGNED, UNSIGNED, UNSIGNED, UNSIGNED, OPAQUE_AUTH, OPAQUE_AUTH])
  const MISMATCH_INFO := Struct([UNSIGNED, UNSIGNED])
  const REPLY_DATA := Union(false, [Arm([0], Opaque(0)), Arm([2], MISMATCH_INFO)], Some(Void))
  const ACCEPTED_REPLY := Struct([OPAQUE_AUTH, REPLY_DATA])
  const REJECTED_REPLY := Union(false, [Arm([0], MISMATCH_INFO), Arm([1], Num32(Enum("auth_stat")))], None)
  const REPLY_BODY := Union(false, [Arm([0], ACCEPTED_REPLY), Arm([1], REJECTED_REPLY)], None)
  const MSG_BODY := Union(false, [Arm([0], CALL_BODY), Arm([1], REPLY_BODY)], None)
  const RPC_MSG := Struct([UNSIGNED, MSG_BODY])

  datatype Auth = Auth(flavor: u32, body: seq<byte>)

  /** The bodies by what they carry. `Other` is any accept_stat but SUCCESS and PROG_MISMATCH. */
  datatype Body =
    | Call(rpcvers: u32, prog: u32, vers: u32, proc: u32, cred: Auth, verf: Auth)
    | Success(verf: Auth)
    | Mismatch(verf: Auth, low: u32, high: u32)
    | Other(verf: Auth, stat: u32)
    | RpcMismatch(low: u32, high: u32)
    | AuthError(why: u32)

  datatype Msg = Msg(xid: u32, body: Body)

  predicate AuthValid(a: Auth) {
    |a.body| <= 400
  }

  predicate Valid(m: Msg) {
    match m.body
    case Call(_, _, _, _, cred, verf) => AuthValid(cred) && AuthValid(verf)
    case Success(verf) => AuthValid(verf)
    case Mismatch(verf, _, _) => AuthValid(verf)
    case Other(verf, stat) => AuthValid(verf) && stat != SUCCESS && stat != PROG_MISMATCH
    case RpcMismatch(_, _) => true
    case AuthError(_) => true
  }

  function AuthValue(a: Auth): Value {
    VSeq([V32(a.flavor), VBytes(a.body)])
  }

  function AcceptedValue(verf: Auth, stat: u32, data: Value): Value {
    VUnion(1, VUnion(0, VSeq([AuthValue(verf), VUnion(stat, data)])))
  }

  function BodyValue(b: Body): Value {
    match b
    case Call(r, p, v, c, cred, verf) =>
      VUnion(0, VSeq([V32(r), V32(p), V32(v), V32(c), AuthValue(cred), AuthValue(verf)]))
    case Success(verf) => AcceptedValue(verf, SUCCESS, VBytes([]))
    case Mismatch(verf, low, high) => AcceptedValue(verf, PROG_MISMATCH, VSeq([V32(low), V32(high)]))
    case Other(verf, stat) => AcceptedValue(verf, stat, VVoid)
    case RpcMismatch(low, high) => VUnion(1, VUnion(1, VUnion(0, VSeq([V32(low), V32(high)]))))
    case AuthError(why) => VUnion(1, VUnion(1, VUnion(1, V32(why))))
  }

  /** The Go value of a header. */
  function ToValue(m: Msg): Value {
    VSeq([V32(m.xid), BodyValue(m.body)])
  }

  // ------------------------------------------------------------------- the header type

  lemma ArmOfTwo(a: Arm, b: Arm, otherwise: Option<Type>, tag: u32)
    ensures ArmFor([a, b], otherwise, tag)
            == if tag in a.cases then Some(a.body) else if tag in b.cases then Some(b.body) else otherwise
  {
    assert [a, b][1..] == [b] && [b][1..] == [];
    assert ArmFor([b], otherwise, tag) == if tag in b.cases then Some(b.body) else ArmFor([], otherwise, tag);
  }

  lemma PartsWellFormed(env: Schema)
    ensures env.WellFormed(OPAQUE_AUTH) && env.WellFormed(MISMATCH_INFO) && env.WellFormed(CALL_BODY)
    ensures env.WellFormed(REPLY_DATA)
  {
    assert env.WellFormed(UNSIGNED);
    assert env.WellFormed(OPAQUE_AUTH);
    assert env.WellFormed(Opaque(0)) && env.WellFormed(Void);
    assert env.WellFormed(MISMATCH_INFO);
  }

  lemma HeaderWellFormed(env: Schema)
    ensures env.WellFormed(RPC_MSG) && env.WellFormed(MSG_BODY) && env.WellFormed(REPLY_BODY)
    ensures env.WellFormed(REJECTED_REPLY) && env.WellFormed(ACCEPTED_REPLY) && env.WellFormed(REPLY_DATA)
    ensures env.WellFormed(MISMATCH_INFO) && env.WellFormed(CALL_BODY) && env.WellFormed(OPAQUE_AUTH)
  {
    PartsWellFormed(env);
    assert env.WellFormed(ACCEPTED_REPLY);
    assert env.WellFormed(REJECTED_REPLY);
    assert env.WellFormed(REPLY_BODY);
    assert env.WellFormed(MSG_BODY);
  }

  ghost predicate Fits(env: Schema, t: Type, v: Value)
    requires env.Valid()
  {
    env.WellFormed(t) && InBounds(env, t, v)
  }

  lemma WordInBounds(env: Schema, w: u32)
    requires env.Valid()
    ensures Typed(env, UNSIGNED, V32(w), true)
  {
  }

  lemma AuthInBounds(env: Schema, a: Auth)
    requires env.Valid() && AuthValid(a)
    ensures Fits(env, OPAQUE_AUTH, AuthValue(a))
  {
    HeaderWellFormed(env);
    assert Typed(env, OPAQUE_AUTH.fields[0], V32(a.flavor), true);
    assert Typed(env, OPAQUE_AUTH.fields[1], VBytes(a.body), true);
    assert Typed(env, OPAQUE_AUTH, AuthValue(a), true);
  }

  lemma InfoInBounds(env: Schema, low: u32, high: u32)
    requires env.Valid()
    ensures Fits(env, MISMATCH_INFO, VSeq([V32(low), V32(high)]))
  {
    HeaderWellFormed(env);
    WordInBounds(env, low);
    WordInBounds(env, high);
    assert Typed(env, MISMATCH_INFO, VSeq([V32(low), V32(high)]), true);
  }

  lemma AcceptedInBounds(env: Schema, verf: Auth, stat: u32, data: Value)
    requires env.Valid() && AuthValid(verf)
    requires Fits(env, REPLY_DATA, VUnion(stat, data))
    ensures Fits(env, MSG_BODY, AcceptedValue(verf, stat, data))
  {
    HeaderWellFormed(env);
    AuthInBounds(env, verf);
    var reply := VSeq([AuthValue(verf), VUnion(stat, data)]);
    assert Fits(env, ACCEPTED_REPLY, reply);
    ArmOfTwo(REPLY_BODY.arms[0], REPLY_BODY.arms[1], None, 0);
    assert Fits(env, REPLY_BODY, VUnion(0, reply));
    ArmOfTwo(MSG_BODY.arms[0], MSG_BODY.arms[1], None, 1);
  }

  lemma RejectedInBounds(env: Schema, v: Value)
    requires env.Valid()
    requires Fits(env, REJECTED_REPLY, v)
    ensures Fits(env, MSG_BODY, VUnion(1, VUnion(1, v)))
  {
    HeaderWellFormed(env);
    ArmOfTwo(REPLY_BODY.arms[0], REPLY_BODY.arms[1], None, 1);
    assert Fits(env, REPLY_BODY, VUnion(1, v));
    ArmOfTwo(MSG_BODY.arms[0], MSG_BODY.arms[1], None, 1);
  }

  lemma BodyInBounds(env: Schema, m: Msg)
    requires env.Valid() && Valid(m)
    ensures Fits(env, MSG_BODY, BodyValue(m.body))
  {
    hide Typed;
    HeaderWellFormed(env);
    match m.body
    case Call(r, p, v, c, cred, verf) => CallInBounds(env, r, p, v, c, cred, verf);
    case Success(verf) =>
      DataInBounds(env, 0, 0);
      AcceptedInBounds(env, verf, SUCCESS, VBytes([]));
    case Mismatch(verf, low, high) =>
      DataInBounds(env, low, high);
      AcceptedInBounds(env, verf, PROG_MISMATCH, VSeq([V32(low), V32(high)]));
    case Other(verf, stat) =>
      VoidInBounds(env, stat);
      AcceptedInBounds(env, verf, stat, VVoid);
    case RpcMismatch(low, high) =>
      RefusalInBounds(env, low, high);
      RejectedInBounds(env, VUnion(0, VSeq([V32(low), V32(high)])));
    case AuthError(why) =>
      RefusalInBounds(env, why, why);
      RejectedInBounds(env, VUnion(1, V32(why)));
  }

  lemma CallInBounds(env: Schema, r: u32, p: u32, v: u32, c: u32, cred: Auth, verf: Auth)
    requires env.Valid() && AuthValid(cred) && AuthValid(verf)
    ensures Fits(env, MSG_BODY, BodyValue(Call(r, p, v, c, cred, verf)))
  {
    HeaderWellFormed(env);
    AuthInBounds(env, cred);
    AuthInBounds(env, verf);
    WordInBounds(env, r);
    WordInBounds(env, p);
    WordInBounds(env, v);
    WordInBounds(env, c);
    assert Typed(env, CALL_BODY, BodyValue(Call(r, p, v, c, cred, verf)).body, true);
    ArmOfTwo(MSG_BODY.arms[0], MSG_BODY.arms[1], None, 0);
    assert Typed(env, MSG_BODY, BodyValue(Call(r, p, v, c, cred, verf)), true);
  }

  lemma DataInBounds(env: Schema, low: u32, high: u32)
    requires env.Valid()
    ensures Fits(env, REPLY_DATA, VUnion(SUCCESS, VBytes([])))
    ensures Fits(env, REPLY_DATA, VUnion(PROG_MISMATCH, VSeq([V32(low), V32(high)])))
  {
    HeaderWellFormed(env);
    InfoInBounds(env, low, high);
    ArmOfTwo(REPLY_DATA.arms[0], REPLY_DATA.arms[1], Some(Void), SUCCESS);
    ArmOfTwo(REPLY_DATA.arms[0], REPLY_DATA.arms[1], Some(Void), PROG_MISMATCH);
    assert Typed(env, Opaque(0), VBytes([]), true);
    assert Typed(env, REPLY_DATA, VUnion(SUCCESS, VBytes([])), true);
    assert Typed(env, REPLY_DATA, VUnion(PROG_MISMATCH, VSeq([V32(low), V32(high)])), true);
  }

  lemma VoidInBounds(env: Schema, stat: u32)
    requires env.Valid() && stat != SUCCESS && stat != PROG_MISMATCH
    ensures Fits(env, REPLY_DATA, VUnion(stat, VVoid))
  {
    HeaderWellFormed(env);
    ArmOfTwo(REPLY_DATA.arms[0], REPLY_DATA.arms[1], Some(Void), stat);
    assert Typed(env, Void, VVoid, true);
    assert Typed(env, REPLY_DATA, VUnion(stat, VVoid), true);
  }

  lemma RefusalInBounds(env: Schema, low: u32, high: u32)
    requires env.Valid()
    ensures Fits(env, REJECTED_REPLY, VUnion(0, VSeq([V32(low), V32(high)])))
    ensures Fits(env, REJECTED_REPLY, VUnion(1, V32(low)))
  {
    HeaderWellFormed(env);
    InfoInBounds(env, low, high);
    ArmOfTwo(REJECTED_REPLY.arms[0], REJECTED_REPLY.arms[1], None, 0);
    ArmOfTwo(REJECTED_REPLY.arms[0], REJECTED_REPLY.arms[1], None, 1);
    assert Typed(env, Num32(Enum("auth_stat")), V32(low), true);
    assert Typed(env, REJECTED_REPLY, VUnion(0, VSeq([V32(low), V32(high)])), true);
    assert Typed(env, REJECTED_REPLY, VUnion(1, V32(low)), true);
  }

  /** Every header is a value in bounds of the header type. */
  lemma MsgInBounds(env: Schema, m: Msg)
    requires env.Valid() && Valid(m)
    ensures Fits(env, RPC_MSG, ToValue(m))
  {
    HeaderWellFormed(env);
    BodyInBounds(env, m);
    assert Typed(env, UNSIGNED, V32(m.xid), true);
    hide ArmFor, BodyValue;
  }

  // ------------------------------------------------------------------- reading a header

  /** GetMsg on these octets returns m and leaves rest. */
  ghost predicate Headed(env: Schema, b: seq<byte>, m: Msg, rest: seq<byte>)
    requires env.Valid()
  {
    && Valid(m)
    && (HeaderWellFormed(env); Decode(env, RPC_MSG, b) == Got(ToValue(m), rest))
  }

  function PutMsg(env: Schema, m: Msg): (b: seq<byte>)
    requires env.Valid() && Valid(m)
  {
    MsgInBounds(env, m);
    RoundTrip(env, RPC_MSG, ToValue(m), []);
    Encode(env, RPC_MSG, ToValue(m)).out
  }

  lemma HeaderRoundTrip(env: Schema, m: Msg, s: seq<byte>)
    requires env.Valid() && Valid(m)
    ensures Headed(env, PutMsg(env, m) + s, m, s)
  {
    hide ToValue, Decode, Encode, Typed;
    MsgInBounds(env, m);
    RoundTrip(env, RPC_MSG, ToValue(m), s);
  }

  /** GetMsg does not crash on a whole number of words, whatever they are. */
  lemma HeaderNeverCrashes(env: Schema, b: seq<byte>)
    requires env.Valid() && |b| % 4 == 0
    ensures (HeaderWellFormed(env); InWords(Decode(env, RPC_MSG, b)))
  {
    HeaderWellFormed(env);
    HeaderWordwise({});
    NeverCrashes(env, {}, RPC_MSG, b);
  }

  lemma PartsWordwise(names: set<string>)
    ensures Wordwise(names, UNSIGNED) && Wordwise(names, OPAQUE_AUTH) && Wordwise(names, MISMATCH_INFO)
  {
    assert Wordwise(names, OPAQUE_AUTH.fields[0]) && Wordwise(names, OPAQUE_AUTH.fields[1]);
  }

  lemma RepliesWordwise(names: set<string>)
    ensures Wordwise(names, ACCEPTED_REPLY) && Wordwise(names, REJECTED_REPLY)
  {
    PartsWordwise(names);
    assert Wordwise(names, Opaque(0)) && Wordwise(names, Void) && Wordwise(names, Num32(Enum("auth_stat")));
    assert Wordwise(names, REPLY_DATA);
  }

  lemma HeaderWordwise(names: set<string>)
    ensures Wordwise(names, RPC_MSG)
  {
    PartsWordwise(names);
    RepliesWordwise(names);
    assert Wordwise(names, CALL_BODY) && Wordwise(names, REPLY_BODY);
    assert Wordwise(names, MSG_BODY);
  }

  function AuthOf(env: Schema, v: Value): (a: Auth)
    requires env.Valid() && Fits(env, OPAQUE_AUTH, v)
    ensures AuthValid(a) && v == AuthValue(a)
  {
    assert Typed(env, OPAQUE_AUTH.fields[0], v.elems[0], true) && Typed(env, OPAQUE_AUTH.fields[1], v.elems[1], true);
    assert v.elems == [v.elems[0], v.elems[1]];
    Auth(v.elems[0].w, v.elems[1].bytes)
  }

  function InfoOf(env: Schema, v: Value): (info: (u32, u32))
    requires env.Valid() && Fits(env, MISMATCH_INFO, v)
    ensures v == VSeq([V32(info.0), V32(info.1)])
  {
    assert Typed(env, UNSIGNED, v.elems[0], true) && Typed(env, UNSIGNED, v.elems[1], true);
    assert v.elems == [v.elems[0], v.elems[1]];
    (v.elems[0].w, v.elems[1].w)
  }

  lemma AcceptedParts(env: Schema, v: Value)
    requires env.Valid() && Fits(env, ACCEPTED_REPLY, v)
    ensures v.VSeq? && |v.elems| == 2 && Fits(env, OPAQUE_AUTH, v.elems[0]) && Fits(env, REPLY_DATA, v.elems[1])
    ensures v == VSeq([v.elems[0], v.elems[1]])
  {
    HeaderWellFormed(env);
    assert Typed(env, ACCEPTED_REPLY.fields[0], v.elems[0], true);
    assert Typed(env, ACCEPTED_REPLY.fields[1], v.elems[1], true);
    assert v.elems == [v.elems[0], v.elems[1]];
  }

  function AcceptedOf(env: Schema, v: Value): (b: Body)
    requires env.Valid() && Fits(env, ACCEPTED_REPLY, v)
    ensures Valid(Msg(0, b)) && VUnion(1, VUnion(0, v)) == BodyValue(b)
  {
    AcceptedParts(env, v);
    DataOf(env, AuthOf(env, v.elems[0]), v.elems[1])
  }

  function DataOf(env: Schema, verf: Auth, data: Value): (b: Body)
    requires env.Valid() && AuthValid(verf) && Fits(env, REPLY_DATA, data)
    ensures Valid(Msg(0, b)) && AcceptedValue(verf, data.tag, data.body) == BodyValue(b)
  {
    HeaderWellFormed(env);
    ArmOfTwo(REPLY_DATA.arms[0], REPLY_DATA.arms[1], Some(Void), data.tag);
    if data.tag == SUCCESS then
      assert Typed(env, Opaque(0), data.body, true);
      Success(verf)
    else if data.tag == PROG_MISMATCH then
      var info := InfoOf(env, data.body);
      Mismatch(verf, info.0, info.1)
    else
      assert Typed(env, Void, data.body, true);
      Other(verf, data.tag)
  }

  function RejectedOf(env: Schema, v: Value): (b: Body)
    requires env.Valid() && Fits(env, REJECTED_REPLY, v)
    ensures Valid(Msg(0, b)) && VUnion(1, VUnion(1, v)) == BodyValue(b)
  {
    HeaderWellFormed(env);
    ArmOfTwo(REJECTED_REPLY.arms[0], REJECTED_REPLY.arms[1], None, v.tag);
    if v.tag == 0 then
      var info := InfoOf(env, v.body);
      RpcMismatch(info.0, info.1)
    else
      assert Typed(env, Num32(Enum("auth_stat")), v.body, true);
      AuthError(v.body.w)
  }

  function CallOf(env: Schema, v: Value): (b: Body)
    requires env.Valid() && Fits(env, CALL_BODY, v)
    ensures Valid(Msg(0, b)) && VUnion(0, v) == BodyValue(b)
  {
    HeaderWellFormed(env);
    var es := v.elems;
    assert forall i :: 0 <= i < 4 ==> Typed(env, UNSIGNED, es[i], true);
    assert Typed(env, OPAQUE_AUTH, es[4], true) && Typed(env, OPAQUE_AUTH, es[5], true);
    assert es == [es[0], es[1], es[2], es[3], es[4], es[5]];
    Call(es[0].w, es[1].w, es[2].w, es[3].w, AuthOf(env, es[4]), AuthOf(env, es[5]))
  }

  function ReplyOf(env: Schema, v: Value): (b: Body)
    requires env.Valid() && Fits(env, REPLY_BODY, v)
    ensures Valid(Msg(0, b)) && VUnion(1, v) == BodyValue(b)
  {
    HeaderWellFormed(env);
    ArmOfTwo(REPLY_BODY.arms[0], REPLY_BODY.arms[1], None, v.tag);
    if v.tag == 0 then AcceptedOf(env, v.body) else RejectedOf(env, v.body)
  }

  lemma MsgParts(env: Schema, v: Value)
    requires env.Valid() && Fits(env, RPC_MSG, v)
    ensures v.VSeq? && |v.elems| == 2 && v.elems[0].V32? && Fits(env, MSG_BODY, v.elems[1])
    ensures v == VSeq([v.elems[0], v.elems[1]])
  {
    HeaderWellFormed(env);
    assert Typed(env, UNSIGNED, v.elems[0], true) && Typed(env, RPC_MSG.fields[1], v.elems[1], true);
    assert v.elems == [v.elems[0], v.elems[1]];
  }

  /** The header that a Go value of the type is. */
  function MsgOf(env: Schema, v: Value): (m: Msg)
    requires env.Valid() && Fits(env, RPC_MSG, v)
    ensures Valid(m) && v == ToValue(m)
  {
    HeaderWellFormed(env);
    MsgParts(env, v);
    var body := v.elems[1];
    ArmOfTwo(MSG_BODY.arms[0], MSG_BODY.arms[1], None, body.tag);
    Msg(v.elems[0].w, if body.tag == 0 then CallOf(env, body.body) else ReplyOf(env, body.body))
  }

  lemma ToValueInjective(m: Msg, m': Msg)
    requires Valid(m) && Valid(m') && ToValue(m) == ToValue(m')
    ensures m == m'
  {
    assert ToValue(m).elems[0] == V32(m.xid) && ToValue(m').elems[0] == V32(m'.xid);
    assert BodyValue(m.body) == ToValue(m).elems[1] == BodyValue(m'.body);
    assert forall a: Auth, a': Auth :: AuthValue(a) == AuthValue(a') ==> a == a' by {
      forall a: Auth, a': Auth | AuthValue(a) == AuthValue(a') ensures a == a' {
        assert AuthValue(a).elems[0] == AuthValue(a').elems[0] && AuthValue(a).elems[1] == AuthValue(a').elems[1];
      }
    }
  }

  /** Whatever GetMsg accepts is one of these messages, and just one, and is followed by exactly
      what remains. */
  lemma HeaderCanonical(env: Schema, b: seq<byte>)
    requires env.Valid() && (HeaderWellFormed(env); Decode(env, RPC_MSG, b).Got?)
    ensures exists m, rest :: Headed(env, b, m, rest) && b == PutMsg(env, m) + rest
  {
    hide ToValue, Decode, Encode, Typed;
    HeaderWellFormed(env);
    Canonical(env, RPC_MSG, b);
    var d := Decode(env, RPC_MSG, b);
    var m := MsgOf(env, d.v);
    assert Headed(env, b, m, d.rest);
  }
}
