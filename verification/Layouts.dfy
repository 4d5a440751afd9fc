/** What is on the wire, octet by octet, as RFC 4506 and RFC 5531 lay it out. */
module Layouts {
  import opened Bytes
  import opened Schema
  import opened Codec
  import opened RpcMsg
  import opened Stats
  import opened Server
  import opened EndToEnd
  import CallSets
  import Calls

  /** Words one after the other. */
  function Words(ws: seq<u32>): (b: seq<byte>)
  {
    if ws == [] then [] else Put32(ws[0]) + Words(ws[1..])
  }

  lemma {:induction false} WordsBoth(a: seq<u32>, b: seq<u32>)
    ensures Words(a + b) == Words(a) + Words(b)
  {
    if a == [] {
      assert [] + b == b;
    } else {
      WordsBoth(a[1..], b);
      assert (a + b)[1..] == a[1..] + b;
    }
  }

  lemma WordOne(w: u32)
    ensures Words([w]) == Put32(w)
  {
    assert [w][1..] == [];
    assert Put32(w) + [] == Put32(w);
  }

  // ------------------------------------------------------------------- RFC 4506

  /** Sections 4.1 to 4.11 and 4.19: false and absent are 0, true and present are 1; strings and
      variable opaque data are a length, the octets and zeros up to a multiple of four, whether or
      not they are within their bound; fixed opaque data lacks the length. */
  lemma LeafLayout(env: Schema, t: Type, v: Value)
    requires env.Valid() && env.WellFormed(t) && Typed(env, t, v, false)
    ensures var r := Encode(env, t, v);
      && (t.Void? ==> r == Wire([]))
      && (t.Bool? ==> r == Wire(Words([if v.b then 1 else 0])))
      && (t.Num32? ==> r == Wire(Words([v.w])))
      && (t.Num64? ==> r == Wire(Words([v.d / TWO32, v.d % TWO32])))
      && ((t.Str? || t.VarOpaque?) && |v.bytes| < TWO32 ==>
            r.Wire? && |r.out| == 4 + |v.bytes| + Pad(|v.bytes|) && r.out[..4] == Words([|v.bytes|])
            && r.out[4..4 + |v.bytes|] == v.bytes && ZeroFilled(r.out[4..], |v.bytes|))
      && (t.Opaque? ==>
            r.Wire? && |r.out| == t.size + Pad(t.size)
            && r.out[..t.size] == v.bytes && ZeroFilled(r.out, t.size))
      && (t.Ptr? && v.VNil? ==> r == Wire(Words([0])))
      && (t.Ptr? && v.VPtr? && r.Wire? ==> r.out[..4] == Words([1]))
      && (t.Vec? && |v.elems| < TWO32 && r.Wire? ==> |r.out| >= 4 && r.out[..4] == Words([|v.elems|]))
      && (t.Union? && r.Wire? ==> |r.out| >= 4 && r.out[..4] == Words([v.tag]))
  {
    hide EncodeAll, EncodeEach, Put32, Words;
    match t
    case Bool => WordOne(if v.b then 1 else 0);
    case Num32(_) => WordOne(v.w);
    case Num64(_) => LongLayout(v.d);
    case Str(_) => WordOne(|v.bytes| % TWO32);
    case VarOpaque(_) => WordOne(|v.bytes| % TWO32);
    case Ptr(_) =>
      WordOne(0);
      WordOne(1);
    case Vec(_, _) => WordOne(|v.elems| % TWO32);
    case Union(_, _, _) => WordOne(v.tag);
    case _ =>
  }

  lemma LongLayout(d: u64)
    ensures Put64(d) == Words([d / TWO32, d % TWO32])
  {
    var ws := [d / TWO32, d % TWO32];
    assert ws[1..] == [d % TWO32];
    WordOne(d % TWO32);
  }

  /** A zero value is marshaled as zeros. */
  lemma {:induction false} ZeroIsZeros(env: Schema, t: Type, v: Value)
    requires env.Valid() && env.WellFormed(t) && Typed(env, t, v, false) && ZeroValue(env, t, v)
    ensures var r := Encode(env, t, v); r.Wire? ==> AllZero(r.out)
    decreases v, env.Rank(t), t
  {
    hide EncodeAll, EncodeEach;
    match t
    case Arr(e, _) => ZeroAll(env, e, v.elems);
    case Struct(fs) => ZeroEach(env, fs, v.elems);
    case Union(_, arms, otherwise) =>
      ArmForWellFormed(env, arms, otherwise, 0);
      var arm := ArmFor(arms, otherwise, 0);
      if arm.Some? { ZeroIsZeros(env, arm.value, v.body); }
    case Named(n) => ZeroIsZeros(env, env.defs[n], v);
    case Vec(e, _) => assert EncodeAll(env, e, []) == Wire([]) by { ZeroAll(env, e, []); }
    case _ =>
  }

  predicate AllZero(b: seq<byte>) {
    forall i :: 0 <= i < |b| ==> b[i] == 0
  }

  lemma {:induction false} ZeroAll(env: Schema, t: Type, vs: seq<Value>)
    requires env.Valid() && env.WellFormed(t)
    requires forall i :: 0 <= i < |vs| ==> Typed(env, t, vs[i], false) && ZeroValue(env, t, vs[i])
    ensures var r := EncodeAll(env, t, vs); r.Wire? ==> AllZero(r.out)
    ensures vs == [] ==> EncodeAll(env, t, vs) == Wire([])
    decreases vs, 0
  {
    hide Encode, Typed, ZeroValue;
    if vs != [] {
      ZeroIsZeros(env, t, vs[0]);
      ZeroAll(env, t, vs[1..]);
    }
  }

  lemma {:induction false} ZeroEach(env: Schema, ts: seq<Type>, vs: seq<Value>)
    requires env.Valid() && |ts| == |vs|
    requires forall i :: 0 <= i < |ts| ==>
               env.WellFormed(ts[i]) && Typed(env, ts[i], vs[i], false) && ZeroValue(env, ts[i], vs[i])
    ensures var r := EncodeEach(env, ts, vs); r.Wire? ==> AllZero(r.out)
    decreases vs, 0
  {
    hide Encode, Typed, ZeroValue;
    if vs != [] {
      ZeroIsZeros(env, ts[0], vs[0]);
      ZeroEach(env, ts[1..], vs[1..]);
    }
  }

  // ------------------------------------------------------------------- RFC 5531 section 9

  function AuthOctets(a: Auth): seq<byte>
    requires AuthValid(a)
  {
    Words([a.flavor, |a.body|]) + PutBytes(a.body)
  }

  /** The header of a message. */
  function HeaderOctets(m: Msg): seq<byte>
    requires RpcMsg.Valid(m)
  {
    match m.body
    case Call(r, p, v, c, cred, verf) => Words([m.xid, 0, r, p, v, c]) + (AuthOctets(cred) + AuthOctets(verf))
    case Success(verf) => Words([m.xid, 1, 0]) + (AuthOctets(verf) + Words([0]))
    case Mismatch(verf, low, high) => Words([m.xid, 1, 0]) + (AuthOctets(verf) + Words([2, low, high]))
    case Other(verf, stat) => Words([m.xid, 1, 0]) + (AuthOctets(verf) + Words([stat]))
    case RpcMismatch(low, high) => Words([m.xid, 1, 1, 0, low, high])
    case AuthError(why) => Words([m.xid, 1, 1, 1, why])
  }

  /** v is marshaled as b. */
  ghost predicate Puts(env: Schema, t: Type, v: Value, b: seq<byte>)
    requires env.Valid()
  {
    env.WellFormed(t) && Typed(env, t, v, false) && Encode(env, t, v) == Wire(b)
  }

  ghost predicate PutsEach(env: Schema, ts: seq<Type>, vs: seq<Value>, b: seq<byte>)
    requires env.Valid()
  {
    && |ts| == |vs|
    && (forall i :: 0 <= i < |ts| ==> env.WellFormed(ts[i]) && Typed(env, ts[i], vs[i], false))
    && EncodeEach(env, ts, vs) == Wire(b)
  }

  lemma NoFields(env: Schema)
    requires env.Valid()
    ensures PutsEach(env, [], [], [])
  {
  }

  /** One field more in front. */
  lemma Field(env: Schema, t: Type, v: Value, a: seq<byte>, ts: seq<Type>, vs: seq<Value>, b: seq<byte>)
    requires env.Valid() && Puts(env, t, v, a) && PutsEach(env, ts, vs, b)
    ensures PutsEach(env, [t] + ts, [v] + vs, a + b)
  {
    hide Encode, Typed;
    assert ([t] + ts)[1..] == ts && ([v] + vs)[1..] == vs;
  }

  lemma WordField(env: Schema, w: u32, ts: seq<Type>, vs: seq<Value>, b: seq<byte>)
    requires env.Valid() && PutsEach(env, ts, vs, b)
    ensures PutsEach(env, [UNSIGNED] + ts, [V32(w)] + vs, Words([w]) + b)
  {
    WordOne(w);
    assert Puts(env, UNSIGNED, V32(w), Put32(w));
    Field(env, UNSIGNED, V32(w), Put32(w), ts, vs, b);
  }

  lemma WholeStruct(env: Schema, ts: seq<Type>, vs: seq<Value>, b: seq<byte>)
    requires env.Valid() && PutsEach(env, ts, vs, b)
    ensures Puts(env, Struct(ts), VSeq(vs), b)
  {
    hide EncodeEach;
  }

  /** A tag and the body of its arm. */
  lemma Tagged(env: Schema, t: Type, tag: u32, body: Value, b: seq<byte>)
    requires env.Valid() && t.Union? && env.WellFormed(t) && !t.boolTag
    requires ArmFor(t.arms, t.otherwise, tag).Some? && Puts(env, ArmFor(t.arms, t.otherwise, tag).value, body, b)
    ensures Puts(env, t, VUnion(tag, body), Words([tag]) + b)
  {
    hide Put32, ArmFor;
    WordOne(tag);
  }

  lemma AuthFields(env: Schema, a: Auth)
    requires env.Valid() && AuthValid(a)
    ensures Puts(env, Num32(Enum("auth_flavor")), V32(a.flavor), Words([a.flavor]))
    ensures Puts(env, VarOpaque(400), VBytes(a.body), Words([|a.body|]) + PutBytes(a.body))
  {
    hide PutBytes;
    WordOne(a.flavor);
    WordOne(|a.body|);
  }

  lemma AuthLayout(env: Schema, a: Auth)
    requires env.Valid() && AuthValid(a)
    ensures Puts(env, OPAQUE_AUTH, AuthValue(a), AuthOctets(a))
  {
    hide PutBytes, Words, Puts, PutsEach;
    var n, o := |a.body|, Words([|a.body|]) + PutBytes(a.body);
    WordsBoth([a.flavor], [n]);
    assert [a.flavor] + [n] == [a.flavor, n];
    AuthFields(env, a);
    NoFields(env);
    Field(env, VarOpaque(400), VBytes(a.body), o, [], [], []);
    Field(env, Num32(Enum("auth_flavor")), V32(a.flavor), Words([a.flavor]),
          [VarOpaque(400)] + [], [VBytes(a.body)] + [], o + []);
    assert [Num32(Enum("auth_flavor"))] + ([VarOpaque(400)] + []) == OPAQUE_AUTH.fields;
    assert [V32(a.flavor)] + ([VBytes(a.body)] + []) == AuthValue(a).elems;
    assert Words([a.flavor]) + (o + []) == AuthOctets(a);
    WholeStruct(env, OPAQUE_AUTH.fields, AuthValue(a).elems, AuthOctets(a));
  }

  lemma InfoLayout(env: Schema, low: u32, high: u32)
    requires env.Valid()
    ensures Puts(env, MISMATCH_INFO, VSeq([V32(low), V32(high)]), Words([low, high]))
  {
    HeaderWellFormed(env);
    NoFields(env);
    WordField(env, high, [], [], []);
    WordField(env, low, [UNSIGNED] + [], [V32(high)] + [], Words([high]) + []);
    assert [UNSIGNED] + ([UNSIGNED] + []) == MISMATCH_INFO.fields;
    assert [V32(low)] + ([V32(high)] + []) == [V32(low), V32(high)];
    WordsBoth([low], [high]);
    assert [low] + [high] == [low, high] && Words([low]) + (Words([high]) + []) == Words([low, high]);
    WholeStruct(env, MISMATCH_INFO.fields, [V32(low), V32(high)], Words([low, high]));
  }

  lemma CallLayout(env: Schema, r: u32, p: u32, v: u32, c: u32, cred: Auth, verf: Auth)
    requires env.Valid() && AuthValid(cred) && AuthValid(verf)
    ensures Puts(env, CALL_BODY, BodyValue(Call(r, p, v, c, cred, verf)).body,
                 Words([r, p, v, c]) + (AuthOctets(cred) + AuthOctets(verf)))
  {
    hide Encode, Typed, AuthOctets, AuthValue, Words;
    HeaderWellFormed(env);
    var a, b := AuthOctets(cred), AuthOctets(verf);
    AuthLayout(env, cred);
    AuthLayout(env, verf);
    NoFields(env);
    Field(env, OPAQUE_AUTH, AuthValue(verf), b, [], [], []);
    Field(env, OPAQUE_AUTH, AuthValue(cred), a, [OPAQUE_AUTH] + [], [AuthValue(verf)] + [], b + []);
    var ts, vs, o := [OPAQUE_AUTH] + ([OPAQUE_AUTH] + []), [AuthValue(cred)] + ([AuthValue(verf)] + []), a + (b + []);
    WordField(env, c, ts, vs, o);
    WordField(env, v, [UNSIGNED] + ts, [V32(c)] + vs, Words([c]) + o);
    WordField(env, p, [UNSIGNED] + ([UNSIGNED] + ts), [V32(v)] + ([V32(c)] + vs), Words([v]) + (Words([c]) + o));
    var ts', vs' := [UNSIGNED] + ([UNSIGNED] + ([UNSIGNED] + ts)), [V32(p)] + ([V32(v)] + ([V32(c)] + vs));
    var o' := Words([p]) + (Words([v]) + (Words([c]) + o));
    WordField(env, r, ts', vs', o');
    assert [UNSIGNED] + ts' == CALL_BODY.fields;
    assert [V32(r)] + vs' == BodyValue(Call(r, p, v, c, cred, verf)).body.elems;
    FourWords(r, p, v, c, o);
    assert o == a + b;
    WholeStruct(env, CALL_BODY.fields, [V32(r)] + vs', Words([r]) + o');
  }

  lemma FourWords(r: u32, p: u32, v: u32, c: u32, o: seq<byte>)
    ensures Words([r]) + (Words([p]) + (Words([v]) + (Words([c]) + o))) == Words([r, p, v, c]) + o
  {
    hide Words;
    WordsBoth([r], [p, v, c]);
    WordsBoth([p], [v, c]);
    WordsBoth([v], [c]);
    assert [r] + [p, v, c] == [r, p, v, c] && [p] + [v, c] == [p, v, c] && [v] + [c] == [v, c];
  }

  lemma NothingLayout(env: Schema)
    requires env.Valid()
    ensures Puts(env, Void, VVoid, []) && Puts(env, Opaque(0), VBytes([]), [])
  {
    assert [] + Zeros(Pad(0)) == [];
  }

  lemma DataLayout(env: Schema, stat: u32, data: Value, b: seq<byte>)
    requires env.Valid()
    requires if stat == 0 then data == VBytes([]) && b == []
             else if stat == 2 then Puts(env, MISMATCH_INFO, data, b) else data == VVoid && b == []
    ensures Puts(env, REPLY_DATA, VUnion(stat, data), Words([stat]) + b)
  {
    hide Puts, Words, ArmFor;
    PartsWellFormed(env);
    ArmOfTwo(REPLY_DATA.arms[0], REPLY_DATA.arms[1], Some(Void), stat);
    NothingLayout(env);
    Tagged(env, REPLY_DATA, stat, data, b);
  }

  lemma AcceptedLayout(env: Schema, verf: Auth, stat: u32, data: Value, b: seq<byte>)
    requires env.Valid() && AuthValid(verf) && Puts(env, REPLY_DATA, VUnion(stat, data), b)
    ensures Puts(env, MSG_BODY, AcceptedValue(verf, stat, data), Words([1, 0]) + (AuthOctets(verf) + b))
  {
    hide Encode, Typed, AuthOctets, AuthValue;
    HeaderWellFormed(env);
    var v := VUnion(stat, data);
    AuthLayout(env, verf);
    NoFields(env);
    Field(env, REPLY_DATA, v, b, [], [], []);
    Field(env, OPAQUE_AUTH, AuthValue(verf), AuthOctets(verf), [REPLY_DATA] + [], [v] + [], b + []);
    assert [OPAQUE_AUTH] + ([REPLY_DATA] + []) == ACCEPTED_REPLY.fields;
    assert [AuthValue(verf)] + ([v] + []) == [AuthValue(verf), v];
    var o := AuthOctets(verf) + b;
    assert AuthOctets(verf) + (b + []) == o;
    WholeStruct(env, ACCEPTED_REPLY.fields, [AuthValue(verf), v], o);
    ReplyLayout(env, 0, VSeq([AuthValue(verf), v]), o);
  }

  lemma ReplyLayout(env: Schema, stat: u32, v: Value, o: seq<byte>)
    requires env.Valid() && stat <= 1
    requires Puts(env, if stat == 0 then ACCEPTED_REPLY else REJECTED_REPLY, v, o)
    ensures Puts(env, MSG_BODY, VUnion(1, VUnion(stat, v)), Words([1, stat]) + o)
  {
    hide Encode, Typed, Puts, Words;
    HeaderWellFormed(env);
    ArmOfTwo(REPLY_BODY.arms[0], REPLY_BODY.arms[1], None, stat);
    Tagged(env, REPLY_BODY, stat, v, o);
    ArmOfTwo(MSG_BODY.arms[0], MSG_BODY.arms[1], None, 1);
    Tagged(env, MSG_BODY, 1, VUnion(stat, v), Words([stat]) + o);
    WordsBoth([1], [stat]);
    assert [1] + [stat] == [1, stat] && Words([1]) + (Words([stat]) + o) == Words([1, stat]) + o;
  }

  lemma RejectedLayout(env: Schema, tag: u32, v: Value, o: seq<byte>)
    requires env.Valid() && tag <= 1
    requires Puts(env, if tag == 0 then MISMATCH_INFO else Num32(Enum("auth_stat")), v, o)
    ensures Puts(env, MSG_BODY, VUnion(1, VUnion(1, VUnion(tag, v))), Words([1, 1, tag]) + o)
  {
    hide Encode, Typed, Puts, Words;
    HeaderWellFormed(env);
    ArmOfTwo(REJECTED_REPLY.arms[0], REJECTED_REPLY.arms[1], None, tag);
    Tagged(env, REJECTED_REPLY, tag, v, o);
    ReplyLayout(env, 1, VUnion(tag, v), Words([tag]) + o);
    WordsBoth([1, 1], [tag]);
    assert [1, 1] + [tag] == [1, 1, tag] && Words([1, 1]) + (Words([tag]) + o) == Words([1, 1, tag]) + o;
  }

  /** The words of a header in front of its body's. */
  lemma XidLayout(env: Schema, xid: u32, body: Value, ws: seq<u32>, o: seq<byte>)
    requires env.Valid() && Puts(env, MSG_BODY, body, Words(ws) + o)
    ensures Puts(env, RPC_MSG, VSeq([V32(xid), body]), Words([xid] + ws) + o)
  {
    hide Encode, Typed;
    HeaderWellFormed(env);
    NoFields(env);
    Field(env, MSG_BODY, body, Words(ws) + o, [], [], []);
    WordField(env, xid, [MSG_BODY] + [], [body] + [], Words(ws) + o + []);
    assert [UNSIGNED] + ([MSG_BODY] + []) == RPC_MSG.fields && [V32(xid)] + ([body] + []) == [V32(xid), body];
    WordsBoth([xid], ws);
    assert Words([xid]) + (Words(ws) + o + []) == Words([xid] + ws) + o;
    WholeStruct(env, RPC_MSG.fields, [V32(xid), body], Words([xid] + ws) + o);
  }

  lemma CallMsgLayout(env: Schema, xid: u32, r: u32, p: u32, v: u32, c: u32, cred: Auth, verf: Auth)
    requires env.Valid() && AuthValid(cred) && AuthValid(verf)
    ensures var m := Msg(xid, Call(r, p, v, c, cred, verf)); Puts(env, RPC_MSG, ToValue(m), HeaderOctets(m))
  {
    hide Encode, Typed, AuthOctets, AuthValue, Words;
    HeaderWellFormed(env);
    var body := BodyValue(Call(r, p, v, c, cred, verf));
    var o := AuthOctets(cred) + AuthOctets(verf);
    CallLayout(env, r, p, v, c, cred, verf);
    ArmOfTwo(MSG_BODY.arms[0], MSG_BODY.arms[1], None, 0);
    Tagged(env, MSG_BODY, 0, body.body, Words([r, p, v, c]) + o);
    WordsBoth([0], [r, p, v, c]);
    assert [0] + [r, p, v, c] == [0, r, p, v, c];
    assert Words([0]) + (Words([r, p, v, c]) + o) == Words([0, r, p, v, c]) + o;
    XidLayout(env, xid, body, [0, r, p, v, c], o);
    assert [xid] + [0, r, p, v, c] == [xid, 0, r, p, v, c];
  }

  lemma AcceptedMsgLayout(env: Schema, xid: u32, verf: Auth, stat: u32, data: Value, b: seq<byte>)
    requires env.Valid() && AuthValid(verf) && Puts(env, REPLY_DATA, VUnion(stat, data), b)
    ensures Puts(env, RPC_MSG, VSeq([V32(xid), AcceptedValue(verf, stat, data)]),
                 Words([xid, 1, 0]) + (AuthOctets(verf) + b))
  {
    hide Encode, Typed, AuthOctets, AcceptedValue, Words;
    AcceptedLayout(env, verf, stat, data, b);
    XidLayout(env, xid, AcceptedValue(verf, stat, data), [1, 0], AuthOctets(verf) + b);
    assert [xid] + [1, 0] == [xid, 1, 0];
  }

  lemma RejectedMsgLayout(env: Schema, xid: u32, tag: u32, v: Value, ws: seq<u32>)
    requires env.Valid() && tag <= 1
    requires Puts(env, if tag == 0 then MISMATCH_INFO else Num32(Enum("auth_stat")), v, Words(ws))
    ensures Puts(env, RPC_MSG, VSeq([V32(xid), VUnion(1, VUnion(1, VUnion(tag, v)))]), Words([xid, 1, 1, tag] + ws))
  {
    hide Encode, Typed, Words;
    RejectedLayout(env, tag, v, Words(ws));
    XidLayout(env, xid, VUnion(1, VUnion(1, VUnion(tag, v))), [1, 1, tag], Words(ws));
    WordsBoth([xid, 1, 1, tag], ws);
    assert [xid] + [1, 1, tag] == [xid, 1, 1, tag];
  }

  /** Every header is on the wire as RFC 5531 section 9 lays it out. */
  lemma HeaderLayout(env: Schema, m: Msg)
    requires env.Valid() && RpcMsg.Valid(m)
    ensures PutMsg(env, m) == HeaderOctets(m)
  {
    hide Encode, Typed, AuthOctets, Words;
    match m.body
    case Call(r, p, v, c, cred, verf) => CallMsgLayout(env, m.xid, r, p, v, c, cred, verf);
    case Success(verf) =>
      DataLayout(env, 0, VBytes([]), []);
      assert Words([0]) + [] == Words([0]);
      AcceptedMsgLayout(env, m.xid, verf, 0, VBytes([]), Words([0]));
    case Mismatch(verf, low, high) =>
      InfoLayout(env, low, high);
      DataLayout(env, 2, VSeq([V32(low), V32(high)]), Words([low, high]));
      WordsBoth([2], [low, high]);
      assert [2] + [low, high] == [2, low, high];
      AcceptedMsgLayout(env, m.xid, verf, 2, VSeq([V32(low), V32(high)]), Words([2, low, high]));
    case Other(verf, stat) =>
      DataLayout(env, stat, VVoid, []);
      assert Words([stat]) + [] == Words([stat]);
      AcceptedMsgLayout(env, m.xid, verf, stat, VVoid, Words([stat]));
    case RpcMismatch(low, high) =>
      InfoLayout(env, low, high);
      RejectedMsgLayout(env, m.xid, 0, VSeq([V32(low), V32(high)]), [low, high]);
      assert [m.xid, 1, 1, 0] + [low, high] == [m.xid, 1, 1, 0, low, high];
    case AuthError(why) =>
      WhyLayout(env, why);
      RejectedMsgLayout(env, m.xid, 1, V32(why), [why]);
      assert [m.xid, 1, 1, 1] + [why] == [m.xid, 1, 1, 1, why];
  }

  lemma WhyLayout(env: Schema, why: u32)
    requires env.Valid()
    ensures Puts(env, Num32(Enum("auth_stat")), V32(why), Words([why]))
  {
    WordOne(why);
  }

  // ------------------------------------------------------------------- calls and replies

  lemma NoAuthLayout()
    ensures AuthOctets(NO_AUTH) == Words([0, 0])
  {
    assert NO_AUTH.body + Zeros(Pad(0)) == [];
    assert Words([0, 0]) + [] == Words([0, 0]);
  }

  /** What SendCall sends: identifier, CALL, RPC version 2, program, version, procedure, twice no
      authentication, and the argument. */
  lemma CallOctets(env: Schema, xid: u32, p: Proc, arg: Value)
    requires env.Valid() && Sendable(env, p.arg, arg)
    ensures Octets(env, CallSets.CallMsg(xid, p), p.arg, arg)
            == Words([xid, 0, 2, p.prog, p.vers, p.proc, 0, 0, 0, 0]) + Encode(env, p.arg, arg).out
  {
    hide Encode, Typed, Words, AuthOctets, PutMsg;
    HeaderLayout(env, CallSets.CallMsg(xid, p));
    NoAuthLayout();
    var ws := [xid, 0, 2, p.prog, p.vers, p.proc];
    WordsBoth([0, 0], [0, 0]);
    WordsBoth(ws, [0, 0, 0, 0]);
    assert [0, 0] + [0, 0] == [0, 0, 0, 0];
    assert ws + [0, 0, 0, 0] == [xid, 0, 2, p.prog, p.vers, p.proc, 0, 0, 0, 0];
  }

  /** What doMsg sends back: identifier, REPLY, and then for the wrong RPC version MSG_DENIED,
      RPC_MISMATCH, 2 and 2, and otherwise MSG_ACCEPTED, no authentication and a status. That is 1
      for an unknown program, 2 with the least and greatest version for an unknown version, 3 for
      an unknown procedure, 4 for an argument that raises an XdrError, 5 for a procedure that
      panics, and 0 with the result for one that returns. */
  lemma ReplyOctets(env: Schema, t: Table, m: Msg, args: seq<byte>, reply: seq<byte>)
    requires env.Valid() && Usable(env, t) && Answers(env, t, m, args, reply)
    ensures m.body.Call?
    ensures var Call(rpcvers, prog, vers, proc, _, _) := m.body;
      if rpcvers != 2 then reply == Words([m.xid, 1, 1, 0, 2, 2])
      else if prog !in t then reply == Words([m.xid, 1, 0, 0, 0, 1])
      else if vers !in t[prog] then
        exists low: u32, high: u32 ::
          && reply == Words([m.xid, 1, 0, 0, 0, 2, low, high])
          && (t[prog].Keys != {} ==> IsLeast(low, t[prog].Keys) && IsGreatest(high, t[prog].Keys))
      else if proc !in t[prog][vers].procs then reply == Words([m.xid, 1, 0, 0, 0, 3])
      else
        var p := t[prog][vers].procs[proc];
        assert Has(t, prog, vers) && Runnable(env, p);
        match Decode(env, p.arg, args)
        case Bad => reply == Words([m.xid, 1, 0, 0, 0, 4])
        case Crash => false
        case Got(arg, _) =>
          match p.run(arg)
          case None => reply == Words([m.xid, 1, 0, 0, 0, 5])
          case Some(res) =>
            Sendable(env, p.res, res) && reply == Words([m.xid, 1, 0, 0, 0, 0]) + Encode(env, p.res, res).out
  {
    hide Encode, Typed, Decode, Words, PutMsg, Runnable;
    var d :| Decides(env, t, m, args, d) && Replies(env, d, reply);
    if d.Refuse? {
      RefusalLayout(env, d.reply);
    } else {
      RefusalLayout(env, Msg(m.xid, Other(NO_AUTH, SYSTEM_ERR)));
      RefusalLayout(env, Msg(m.xid, Success(NO_AUTH)));
    }
  }

  lemma RefusalLayout(env: Schema, m: Msg)
    requires env.Valid() && RpcMsg.Valid(m)
    ensures m.body == Success(NO_AUTH) ==> PutMsg(env, m) == Words([m.xid, 1, 0, 0, 0, 0])
    ensures m.body.Other? && m.body.verf == NO_AUTH ==> PutMsg(env, m) == Words([m.xid, 1, 0, 0, 0, m.body.stat])
    ensures m.body.Mismatch? && m.body.verf == NO_AUTH ==>
              PutMsg(env, m) == Words([m.xid, 1, 0, 0, 0, 2, m.body.low, m.body.high])
    ensures m.body.RpcMismatch? ==> PutMsg(env, m) == Words([m.xid, 1, 1, 0, m.body.low, m.body.high])
  {
    hide Words, PutMsg, AuthOctets;
    HeaderLayout(env, m);
    NoAuthLayout();
    match m.body
    case Success(_) =>
      Joined(m.xid, [0]);
      assert [m.xid, 1, 0, 0, 0] + [0] == [m.xid, 1, 0, 0, 0, 0];
    case Other(_, stat) =>
      Joined(m.xid, [stat]);
      assert [m.xid, 1, 0, 0, 0] + [stat] == [m.xid, 1, 0, 0, 0, stat];
    case Mismatch(_, low, high) =>
      Joined(m.xid, [2, low, high]);
      assert [m.xid, 1, 0, 0, 0] + [2, low, high] == [m.xid, 1, 0, 0, 0, 2, low, high];
    case _ =>
  }

  lemma Joined(xid: u32, ws: seq<u32>)
    ensures Words([xid, 1, 0]) + (Words([0, 0]) + Words(ws)) == Words([xid, 1, 0, 0, 0] + ws)
  {
    hide Words;
    WordsBoth([0, 0], ws);
    WordsBoth([xid, 1, 0], [0, 0] + ws);
    assert [xid, 1, 0] + ([0, 0] + ws) == [xid, 1, 0, 0, 0] + ws;
  }
}
