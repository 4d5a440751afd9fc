/** XdrOut and XdrIn as functions: what marshaling a Go value appends to the output, and what
    unmarshaling the front of an input yields. */
module Codec {
  import opened Bytes
  import opened Schema

  /** Marshaling panics with an XdrError, which nothing on the way out recovers. */
  datatype Encoded = Wire(out: seq<byte>) | Panic

  /** Bad is a panic with an XdrError, which safeMarshal returns as an error. Crash is any other:
      the nil error of a read that got some of the octets it wanted, or the plain error of
      io.ReadFull. Nothing recovers it and the program ends. */
  datatype Decoded<+T> = Got(v: T, rest: seq<byte>) | Bad | Crash

  function Fail<S, T>(d: Decoded<S>): Decoded<T>
    requires !d.Got?
  {
    if d.Bad? then Bad else Crash
  }

  /** How unmarshaling into a variable ends. */
  datatype Ending = Done | XdrError | Crashed

  function EndingOf<T>(d: Decoded<T>): Ending {
    match d
    case Got(_, _) => Done
    case Bad => XdrError
    case Crash => Crashed
  }

  /** The values the Go types admit; with `strict`, only those within the declared bounds and
      with a tag that selects an arm. */
  ghost predicate Typed(env: Schema, t: Type, v: Value, strict: bool)
    requires env.Valid() && env.WellFormed(t)
    decreases v, env.Rank(t), t
  {
    match t
    case Void => v.VVoid?
    case Bool => v.VBool?
    case Num32(_) => v.V32?
    case Num64(_) => v.V64?
    case Str(bound) => v.VBytes? && (strict ==> |v.bytes| <= bound)
    case VarOpaque(bound) => v.VBytes? && (strict ==> |v.bytes| <= bound)
    case Opaque(n) => v.VBytes? && |v.bytes| == n
    case Ptr(e) => v.VNil? || (v.VPtr? && Typed(env, e, v.target, strict))
    case Vec(e, bound) =>
      && v.VSeq?
      && (strict ==> |v.elems| <= bound)
      && forall i :: 0 <= i < |v.elems| ==> Typed(env, e, v.elems[i], strict)
    case Arr(e, n) =>
      && v.VSeq? && |v.elems| == n
      && forall i :: 0 <= i < |v.elems| ==> Typed(env, e, v.elems[i], strict)
    case Struct(fs) =>
      && v.VSeq? && |v.elems| == |fs|
      && forall i :: 0 <= i < |fs| ==> Typed(env, fs[i], v.elems[i], strict)
    case Union(boolTag, arms, otherwise) =>
      && v.VUnion? && TagOk(boolTag, v.tag)
      && (ArmForWellFormed(env, arms, otherwise, v.tag);
          match ArmFor(arms, otherwise, v.tag)
          case Some(arm) => Typed(env, arm, v.body, strict)
          case None => !strict && v.body.VVoid?)
    case Named(n) => Typed(env, env.defs[n], v, strict)
  }

  ghost predicate InBounds(env: Schema, t: Type, v: Value)
    requires env.Valid() && env.WellFormed(t)
  {
    Typed(env, t, v, true)
  }

  /** v is the zero value of the type as a reader sees it. A union's body is made when it is
      first looked at, so a union whose arm for zero leads back to it has no zero value. */
  ghost predicate ZeroValue(env: Schema, t: Type, v: Value)
    requires env.Valid() && env.WellFormed(t)
    decreases v, env.Rank(t), t
  {
    match t
    case Void => v.VVoid?
    case Bool => v == VBool(false)
    case Num32(_) => v == V32(0)
    case Num64(_) => v == V64(0)
    case Str(_) => v == VBytes([])
    case VarOpaque(_) => v == VBytes([])
    case Opaque(n) => v == VBytes(Zeros(n))
    case Ptr(_) => v.VNil?
    case Vec(_, _) => v == VSeq([])
    case Arr(e, n) =>
      v.VSeq? && |v.elems| == n && forall i :: 0 <= i < n ==> ZeroValue(env, e, v.elems[i])
    case Struct(fs) =>
      v.VSeq? && |v.elems| == |fs| && forall i :: 0 <= i < |fs| ==> ZeroValue(env, fs[i], v.elems[i])
    case Union(_, arms, otherwise) =>
      && v.VUnion? && v.tag == 0
      && (ArmForWellFormed(env, arms, otherwise, 0);
          match ArmFor(arms, otherwise, 0)
          case Some(arm) => ZeroValue(env, arm, v.body)
          case None => v.body.VVoid?)
    case Named(n) => ZeroValue(env, env.defs[n], v)
  }

  function Then(a: Encoded, b: Encoded): Encoded {
    if a.Wire? && b.Wire? then Wire(a.out + b.out) else Panic
  }

  function PutBytes(bs: seq<byte>): seq<byte> {
    bs + Zeros(Pad(|bs|))
  }

  /** The elements XdrMarshalN visits when told uint32(len(v)). */
  function Counted(vs: seq<Value>): seq<Value> {
    var n := |vs| % TWO32;
    if n < |vs| then vs[..n] else vs
  }

  /** XdrOut.Marshal on a value of the Go type. Strings are not checked against their bound;
      vectors and union tags are. */
  function Encode(env: Schema, t: Type, v: Value): (r: Encoded)
    requires env.Valid() && env.WellFormed(t) && Typed(env, t, v, false)
    decreases v, env.Rank(t), t
  {
    match t
    case Void => Wire([])
    case Bool => Wire(Put32(if v.b then 1 else 0))
    case Num32(_) => Wire(Put32(v.w))
    case Num64(_) => Wire(Put64(v.d))
    case Str(_) => Wire(Put32(|v.bytes| % TWO32) + PutBytes(v.bytes))
    case VarOpaque(_) => Wire(Put32(|v.bytes| % TWO32) + PutBytes(v.bytes))
    case Opaque(_) => Wire(PutBytes(v.bytes))
    case Ptr(e) =>
      if v.VNil? then Wire(Put32(0))
      else Then(Wire(Put32(1)), Encode(env, e, v.target))
    case Vec(e, bound) =>
      var vs := Counted(v.elems);
      if |vs| > bound then Panic
      else Then(Wire(Put32(|vs|)), EncodeAll(env, e, vs))
    case Arr(e, _) => EncodeAll(env, e, v.elems)
    case Struct(fs) => EncodeEach(env, fs, v.elems)
    case Union(_, arms, otherwise) =>
      ArmForWellFormed(env, arms, otherwise, v.tag);
      (match ArmFor(arms, otherwise, v.tag)
       case Some(arm) => Then(Wire(Put32(v.tag)), Encode(env, arm, v.body))
       case None => Panic)
    case Named(n) => Encode(env, env.defs[n], v)
  }

  function EncodeAll(env: Schema, t: Type, vs: seq<Value>): (r: Encoded)
    requires env.Valid() && env.WellFormed(t)
    requires forall i :: 0 <= i < |vs| ==> Typed(env, t, vs[i], false)
    decreases vs, 0
  {
    if vs == [] then Wire([])
    else Then(Encode(env, t, vs[0]), EncodeAll(env, t, vs[1..]))
  }

  function EncodeEach(env: Schema, ts: seq<Type>, vs: seq<Value>): (r: Encoded)
    requires env.Valid() && |ts| == |vs|
    requires forall i :: 0 <= i < |ts| ==> env.WellFormed(ts[i]) && Typed(env, ts[i], vs[i], false)
    decreases vs, 0
  {
    if vs == [] then Wire([])
    else Then(Encode(env, ts[0], vs[0]), EncodeEach(env, ts[1..], vs[1..]))
  }

  /** One read of n octets: an XdrError if there are none, a crash if there are some but too
      few. */
  function Short<T>(b: seq<byte>): Decoded<T> {
    if b == [] then Bad else Crash
  }

  function Got32(b: seq<byte>): (r: Decoded<u32>)
    ensures r.Got? ==> |r.rest| == |b| - 4
  {
    if |b| < 4 then Short(b) else Got(Get32(b), b[4..])
  }

  function Got64(b: seq<byte>): (r: Decoded<u64>)
    ensures r.Got? ==> |r.rest| == |b| - 8
  {
    if |b| < 8 then Short(b) else Got(Get64(b), b[8..])
  }

  /** A flag: a word that must be 0 or 1. */
  function GotFlag(b: seq<byte>): (r: Decoded<bool>)
    ensures r.Got? ==> |r.rest| == |b| - 4
  {
    match Got32(b)
    case Got(w, rest) => if w <= 1 then Got(w == 1, rest) else Bad
    case d => Fail(d)
  }

  /** n octets that are there, and their padding, which must be zero. */
  function GotPadded(n: nat, b: seq<byte>): (r: Decoded<seq<byte>>)
    requires n <= |b|
    ensures r.Got? ==> |r.rest| <= |b|
  {
    var m := n + Pad(n);
    if |b| < m then Short(b[n..])
    else if b[n..m] != Zeros(Pad(n)) then Bad
    else Got(b[..n], b[m..])
  }

  /** Opaque data of fixed length: io.ReadFull's own error if it is not all there. */
  function GotBytes(n: nat, b: seq<byte>): (r: Decoded<seq<byte>>)
    ensures r.Got? ==> |r.rest| <= |b|
  {
    if |b| < n then Crash else GotPadded(n, b)
  }

  /** A length and that many octets: an XdrError if they are not all there or too many. */
  function GotVarBytes(bound: u32, b: seq<byte>): (r: Decoded<seq<byte>>)
    ensures r.Got? ==> |r.rest| <= |b|
  {
    match Got32(b)
    case Got(n, rest) => if n <= bound && n <= |rest| then GotPadded(n, rest) else Bad
    case d => Fail(d)
  }

  /** XdrIn.Marshal: the value at the front of the input and what follows it. */
  function Decode(env: Schema, t: Type, b: seq<byte>): (r: Decoded<Value>)
    requires env.Valid() && env.WellFormed(t)
    ensures r.Got? ==> |r.rest| <= |b|
    decreases |b|, env.Rank(t), t, 0
  {
    match t
    case Void => Got(VVoid, b)
    case Bool => (match GotFlag(b) case Got(f, rest) => Got(VBool(f), rest) case d => Fail(d))
    case Num32(_) => (match Got32(b) case Got(w, rest) => Got(V32(w), rest) case d => Fail(d))
    case Num64(_) => (match Got64(b) case Got(d, rest) => Got(V64(d), rest) case d => Fail(d))
    case Str(bound) =>
      (match GotVarBytes(bound, b) case Got(bs, rest) => Got(VBytes(bs), rest) case d => Fail(d))
    case VarOpaque(bound) =>
      (match GotVarBytes(bound, b) case Got(bs, rest) => Got(VBytes(bs), rest) case d => Fail(d))
    case Opaque(n) =>
      (match GotBytes(n, b) case Got(bs, rest) => Got(VBytes(bs), rest) case d => Fail(d))
    case Ptr(e) =>
      (match GotFlag(b)
       case Got(present, rest) =>
         if !present then Got(VNil, rest)
         else (match Decode(env, e, rest) case Got(v, rest') => Got(VPtr(v), rest') case d => Fail(d))
       case d => Fail(d))
    case Vec(e, bound) =>
      (match Got32(b)
       case Got(n, rest) =>
         if n > bound then Bad
         else (match DecodeN(env, e, n, rest) case Got(vs, rest') => Got(VSeq(vs), rest') case d => Fail(d))
       case d => Fail(d))
    case Arr(e, n) =>
      (match DecodeN(env, e, n, b) case Got(vs, rest) => Got(VSeq(vs), rest) case d => Fail(d))
    case Struct(fs) =>
      (match DecodeEach(env, fs, b) case Got(vs, rest) => Got(VSeq(vs), rest) case d => Fail(d))
    case Union(boolTag, arms, otherwise) =>
      (match Got32(b)
       case Got(tag, rest) =>
         if !TagOk(boolTag, tag) then Bad
         else
           ArmForWellFormed(env, arms, otherwise, tag);
           (match ArmFor(arms, otherwise, tag)
            case Some(arm) =>
              (match Decode(env, arm, rest) case Got(v, rest') => Got(VUnion(tag, v), rest') case d => Fail(d))
            case None => Bad)
       case d => Fail(d))
    case Named(n) => Decode(env, env.defs[n], b)
  }

  function DecodeN(env: Schema, t: Type, n: nat, b: seq<byte>): (r: Decoded<seq<Value>>)
    requires env.Valid() && env.WellFormed(t)
    ensures r.Got? ==> |r.rest| <= |b| && |r.v| == n
    decreases |b|, env.Rank(t), t, 1 + n
  {
    if n == 0 then Got([], b)
    else
      match Decode(env, t, b)
      case Got(v, rest) =>
        (match DecodeN(env, t, n - 1, rest)
         case Got(vs, rest') => Got([v] + vs, rest')
         case d => Fail(d))
      case d => Fail(d)
  }

  function DecodeEach(env: Schema, ts: seq<Type>, b: seq<byte>): (r: Decoded<seq<Value>>)
    requires env.Valid()
    requires forall i :: 0 <= i < |ts| ==> env.WellFormed(ts[i])
    ensures r.Got? ==> |r.rest| <= |b| && |r.v| == |ts|
    decreases |b|, env.RankAll(ts), ts, 0
  {
    if ts == [] then Got([], b)
    else
      match Decode(env, ts[0], b)
      case Got(v, rest) =>
        (match DecodeEach(env, ts[1..], rest)
         case Got(vs, rest') => Got([v] + vs, rest')
         case d => Fail(d))
      case d => Fail(d)
  }

  // ------------------------------------------------------------------- round trip

  lemma FlagRoundTrip(f: bool, s: seq<byte>)
    ensures GotFlag(Put32(if f then 1 else 0) + s) == Got(f, s)
  {
    Get32Put32(if f then 1 else 0, s);
  }

  lemma BytesRoundTrip(bs: seq<byte>, s: seq<byte>)
    ensures |bs| <= |PutBytes(bs) + s| && GotPadded(|bs|, PutBytes(bs) + s) == Got(bs, s)
  {
    var b, m := PutBytes(bs) + s, |bs| + Pad(|bs|);
    assert b[..|bs|] == bs && b[|bs|..m] == Zeros(Pad(|bs|)) && b[m..] == s;
  }

  lemma VarBytesRoundTrip(bs: seq<byte>, bound: u32, s: seq<byte>)
    requires |bs| <= bound
    ensures GotVarBytes(bound, Put32(|bs|) + PutBytes(bs) + s) == Got(bs, s)
  {
    assert Put32(|bs|) + PutBytes(bs) + s == Put32(|bs|) + (PutBytes(bs) + s);
    Get32Put32(|bs|, PutBytes(bs) + s);
    BytesRoundTrip(bs, s);
  }

  /** A value in bounds fits the Go type. */
  lemma {:induction false} InBoundsTyped(env: Schema, t: Type, v: Value)
    requires env.Valid() && env.WellFormed(t) && InBounds(env, t, v)
    ensures Typed(env, t, v, false)
    decreases v, env.Rank(t), t
  {
    match t
    case Ptr(e) => if v.VPtr? { InBoundsTyped(env, e, v.target); }
    case Vec(e, _) => forall i | 0 <= i < |v.elems| { InBoundsTyped(env, e, v.elems[i]); }
    case Arr(e, _) => forall i | 0 <= i < |v.elems| { InBoundsTyped(env, e, v.elems[i]); }
    case Struct(fs) => forall i | 0 <= i < |fs| { InBoundsTyped(env, fs[i], v.elems[i]); }
    case Union(_, arms, otherwise) =>
      ArmForWellFormed(env, arms, otherwise, v.tag);
      InBoundsTyped(env, ArmFor(arms, otherwise, v.tag).value, v.body);
    case Named(n) => InBoundsTyped(env, env.defs[n], v);
    case _ =>
  }

  /** The round trip: the encoding of a value in bounds, followed by anything, decodes to
      that value and exactly what followed. */
  lemma {:induction false} RoundTrip(env: Schema, t: Type, v: Value, s: seq<byte>)
    requires env.Valid() && env.WellFormed(t) && InBounds(env, t, v)
    ensures Typed(env, t, v, false)
    ensures Encode(env, t, v).Wire?
    ensures Decode(env, t, Encode(env, t, v).out + s) == Got(v, s)
    decreases v, env.Rank(t), t, 1
  {
    match t
    case Ptr(e) => RoundTripPtr(env, e, v, s);
    case Vec(e, bound) => RoundTripVec(env, e, bound, v, s);
    case Arr(e, _) => RoundTripAll(env, e, v.elems, s);
    case Struct(fs) => RoundTripEach(env, fs, v.elems, s);
    case Union(boolTag, arms, otherwise) => RoundTripUnion(env, boolTag, arms, otherwise, v, s);
    case Named(n) => RoundTrip(env, env.defs[n], v, s);
    case _ => RoundTripLeaf(env, t, v, s);
  }

  predicate Leaf(t: Type) {
    t.Void? || t.Bool? || t.Num32? || t.Num64? || t.Str? || t.VarOpaque? || t.Opaque?
  }

  lemma RoundTripLeaf(env: Schema, t: Type, v: Value, s: seq<byte>)
    requires env.Valid() && Leaf(t) && InBounds(env, t, v)
    ensures Encode(env, t, v).Wire?
    ensures Decode(env, t, Encode(env, t, v).out + s) == Got(v, s)
  {
    hide Put32, Get32, Put64, Get64, PutBytes, GotPadded, GotVarBytes, GotFlag;
    match t
    case Void => assert [] + s == s;
    case Bool => FlagRoundTrip(v.b, s);
    case Num32(_) => Get32Put32(v.w, s);
    case Num64(_) => Get64Put64(v.d, s);
    case Str(bound) => VarBytesRoundTrip(v.bytes, bound, s);
    case VarOpaque(bound) => VarBytesRoundTrip(v.bytes, bound, s);
    case Opaque(_) => BytesRoundTrip(v.bytes, s);
  }

  lemma {:induction false} RoundTripPtr(env: Schema, e: Type, v: Value, s: seq<byte>)
    requires env.Valid() && env.WellFormed(e) && InBounds(env, Ptr(e), v)
    ensures Typed(env, Ptr(e), v, false)
    ensures Encode(env, Ptr(e), v).Wire?
    ensures Decode(env, Ptr(e), Encode(env, Ptr(e), v).out + s) == Got(v, s)
    decreases v, env.Rank(Ptr(e)), Ptr(e), 0
  {
    if v.VNil? {
      FlagRoundTrip(false, s);
    } else {
      RoundTrip(env, e, v.target, s);
      var out := Encode(env, e, v.target).out;
      assert Put32(1) + out + s == Put32(1) + (out + s);
      FlagRoundTrip(true, out + s);
    }
  }

  lemma {:induction false} RoundTripVec(env: Schema, e: Type, bound: u32, v: Value, s: seq<byte>)
    requires env.Valid() && env.WellFormed(e) && InBounds(env, Vec(e, bound), v)
    ensures Typed(env, Vec(e, bound), v, false)
    ensures Encode(env, Vec(e, bound), v).Wire?
    ensures Decode(env, Vec(e, bound), Encode(env, Vec(e, bound), v).out + s) == Got(v, s)
    decreases v, env.Rank(Vec(e, bound)), Vec(e, bound), 0
  {
    hide Put32, Get32, EncodeAll, DecodeN;
    RoundTripAll(env, e, v.elems, s);
    var out := EncodeAll(env, e, v.elems).out;
    assert Put32(|v.elems|) + out + s == Put32(|v.elems|) + (out + s);
    Get32Put32(|v.elems|, out + s);
  }

  lemma {:induction false} RoundTripUnion(env: Schema, boolTag: bool, arms: seq<Arm>, otherwise: Option<Type>,
                                          v: Value, s: seq<byte>)
    requires var t := Union(boolTag, arms, otherwise);
             env.Valid() && env.WellFormed(t) && InBounds(env, t, v)
    ensures var t := Union(boolTag, arms, otherwise);
            && Typed(env, t, v, false) && Encode(env, t, v).Wire?
            && Decode(env, t, Encode(env, t, v).out + s) == Got(v, s)
    decreases v, env.Rank(Union(boolTag, arms, otherwise)), Union(boolTag, arms, otherwise), 0
  {
    ArmForWellFormed(env, arms, otherwise, v.tag);
    var arm := ArmFor(arms, otherwise, v.tag).value;
    RoundTrip(env, arm, v.body, s);
    var out := Encode(env, arm, v.body).out;
    assert Put32(v.tag) + out + s == Put32(v.tag) + (out + s);
    Get32Put32(v.tag, out + s);
  }

  lemma {:induction false} RoundTripAll(env: Schema, t: Type, vs: seq<Value>, s: seq<byte>)
    requires env.Valid() && env.WellFormed(t)
    requires forall i :: 0 <= i < |vs| ==> InBounds(env, t, vs[i])
    ensures forall i :: 0 <= i < |vs| ==> Typed(env, t, vs[i], false)
    ensures EncodeAll(env, t, vs).Wire?
    ensures DecodeN(env, t, |vs|, EncodeAll(env, t, vs).out + s) == Got(vs, s)
    decreases vs, 0
  {
    hide Decode, Encode, Typed;
    if vs == [] {
      assert [] + s == s;
    } else {
      forall i | 0 <= i < |vs| { InBoundsTyped(env, t, vs[i]); }
      RoundTripAll(env, t, vs[1..], s);
      var tail := EncodeAll(env, t, vs[1..]).out;
      RoundTrip(env, t, vs[0], tail + s);
      assert Encode(env, t, vs[0]).out + tail + s == Encode(env, t, vs[0]).out + (tail + s);
      assert vs == [vs[0]] + vs[1..];
    }
  }

  lemma {:induction false} RoundTripEach(env: Schema, ts: seq<Type>, vs: seq<Value>, s: seq<byte>)
    requires env.Valid() && |ts| == |vs|
    requires forall i :: 0 <= i < |ts| ==> env.WellFormed(ts[i]) && InBounds(env, ts[i], vs[i])
    ensures forall i :: 0 <= i < |ts| ==> Typed(env, ts[i], vs[i], false)
    ensures EncodeEach(env, ts, vs).Wire?
    ensures DecodeEach(env, ts, EncodeEach(env, ts, vs).out + s) == Got(vs, s)
    decreases vs, 0
  {
    hide Decode, Encode, Typed;
    if vs == [] {
      assert [] + s == s;
    } else {
      forall i | 0 <= i < |vs| { InBoundsTyped(env, ts[i], vs[i]); }
      RoundTripEach(env, ts[1..], vs[1..], s);
      var tail := EncodeEach(env, ts[1..], vs[1..]).out;
      RoundTrip(env, ts[0], vs[0], tail + s);
      assert Encode(env, ts[0], vs[0]).out + tail + s == Encode(env, ts[0], vs[0]).out + (tail + s);
      assert vs == [vs[0]] + vs[1..];
    }
  }

  // ------------------------------------------------------------------- canonicity

  lemma FlagCanonical(b: seq<byte>)
    ensures GotFlag(b).Got? ==> b == Put32(if GotFlag(b).v then 1 else 0) + GotFlag(b).rest
  {
    if |b| >= 4 { Put32Get32(b); }
  }

  lemma WordCanonical(b: seq<byte>)
    ensures Got32(b).Got? ==> b == Put32(Got32(b).v) + Got32(b).rest
  {
    if |b| >= 4 { Put32Get32(b); }
  }

  lemma BytesCanonical(n: nat, b: seq<byte>)
    requires n <= |b|
    ensures var r := GotPadded(n, b);
            r.Got? ==> |r.v| == n && b == PutBytes(r.v) + r.rest
  {
    var m := n + Pad(n);
    if |b| >= m {
      assert b == b[..n] + b[n..m] + b[m..];
    }
  }

  lemma VarBytesCanonical(bound: u32, b: seq<byte>)
    ensures var r := GotVarBytes(bound, b);
            r.Got? ==> |r.v| <= bound && b == Put32(|r.v|) + PutBytes(r.v) + r.rest
  {
    WordCanonical(b);
    if Got32(b).Got? && Got32(b).v <= |Got32(b).rest| {
      BytesCanonical(Got32(b).v, Got32(b).rest);
    }
  }

  /** What each type's canonicity says about one input. */
  ghost predicate Faithful(env: Schema, t: Type, b: seq<byte>)
    requires env.Valid() && env.WellFormed(t)
  {
    var r := Decode(env, t, b);
    r.Got? ==>
      && InBounds(env, t, r.v) && Typed(env, t, r.v, false)
      && Encode(env, t, r.v).Wire?
      && b == Encode(env, t, r.v).out + r.rest
  }

  /** Whatever is accepted is in bounds and re-encodes to exactly the octets consumed. */
  lemma {:induction false} Canonical(env: Schema, t: Type, b: seq<byte>)
    requires env.Valid() && env.WellFormed(t)
    ensures Faithful(env, t, b)
    decreases |b|, env.Rank(t), t, 0
  {
    match t
    case Ptr(e) =>
      var f := GotFlag(b);
      if f.Got? && f.v { Canonical(env, e, f.rest); }
      CanonicalPtr(env, e, b);
    case Vec(e, bound) =>
      var w := Got32(b);
      if w.Got? && w.v <= bound && DecodeN(env, e, w.v, w.rest).Got? {
        CanonicalN(env, e, w.v, w.rest);
        CanonicalVec(env, e, bound, b);
      }
    case Arr(e, n) => if DecodeN(env, e, n, b).Got? { CanonicalN(env, e, n, b); }
    case Struct(fs) => if DecodeEach(env, fs, b).Got? { CanonicalEach(env, fs, b); }
    case Union(boolTag, arms, otherwise) =>
      var w := Got32(b);
      if w.Got? {
        ArmForWellFormed(env, arms, otherwise, w.v);
        var arm := ArmFor(arms, otherwise, w.v);
        if arm.Some? { Canonical(env, arm.value, w.rest); }
        CanonicalUnion(env, boolTag, arms, otherwise, b);
      }
    case Named(n) => Canonical(env, env.defs[n], b);
    case _ => CanonicalLeaf(env, t, b);
  }

  lemma CanonicalLeaf(env: Schema, t: Type, b: seq<byte>)
    requires env.Valid() && Leaf(t)
    ensures Faithful(env, t, b)
  {
    hide Put32, Get32, Put64, Get64, PutBytes, GotPadded, GotVarBytes, GotFlag;
    match t
    case Void =>
    case Bool => FlagCanonical(b);
    case Num32(_) => WordCanonical(b);
    case Num64(_) => if |b| >= 8 { Put64Get64(b); }
    case Str(bound) => VarBytesCanonical(bound, b);
    case VarOpaque(bound) => VarBytesCanonical(bound, b);
    case Opaque(n) => if n <= |b| { BytesCanonical(n, b); }
  }

  lemma CanonicalPtr(env: Schema, e: Type, b: seq<byte>)
    requires env.Valid() && env.WellFormed(e)
    requires GotFlag(b).Got? && GotFlag(b).v ==> Faithful(env, e, GotFlag(b).rest)
    ensures Faithful(env, Ptr(e), b)
  {
    hide Put32, Get32, EncodeAll, EncodeEach, DecodeN, DecodeEach, PutBytes, GotPadded, GotVarBytes;
    FlagCanonical(b);
    var r := Decode(env, Ptr(e), b);
    if r.Got? && r.v.VPtr? {
      var out := Encode(env, e, r.v.target).out;
      assert Put32(1) + out + r.rest == Put32(1) + (out + r.rest);
    }
  }

  lemma CanonicalVec(env: Schema, e: Type, bound: u32, b: seq<byte>)
    requires env.Valid() && env.WellFormed(e)
    requires Got32(b).Got? && Got32(b).v <= bound
    requires var r := DecodeN(env, e, Got32(b).v, Got32(b).rest);
             && r.Got?
             && (forall i :: 0 <= i < |r.v| ==> InBounds(env, e, r.v[i]) && Typed(env, e, r.v[i], false))
             && EncodeAll(env, e, r.v).Wire?
             && Got32(b).rest == EncodeAll(env, e, r.v).out + r.rest
    ensures Faithful(env, Vec(e, bound), b)
  {
    hide Put32, Get32, EncodeAll, DecodeN;
    WordCanonical(b);
    var r := DecodeN(env, e, Got32(b).v, Got32(b).rest);
    var out := EncodeAll(env, e, r.v).out;
    assert Put32(|r.v|) + out + r.rest == Put32(|r.v|) + (out + r.rest);
  }

  lemma CanonicalUnion(env: Schema, boolTag: bool, arms: seq<Arm>, otherwise: Option<Type>, b: seq<byte>)
    requires env.Valid() && env.WellFormed(Union(boolTag, arms, otherwise)) && Got32(b).Got?
    requires (ArmForWellFormed(env, arms, otherwise, Got32(b).v);
              var arm := ArmFor(arms, otherwise, Got32(b).v);
              arm.Some? ==> Faithful(env, arm.value, Got32(b).rest))
    ensures Faithful(env, Union(boolTag, arms, otherwise), b)
  {
    hide Put32, Get32, EncodeAll, EncodeEach, DecodeN, DecodeEach, PutBytes, GotPadded, GotVarBytes;
    WordCanonical(b);
    ArmForWellFormed(env, arms, otherwise, Got32(b).v);
    var t := Union(boolTag, arms, otherwise);
    var r := Decode(env, t, b);
    if r.Got? {
      var arm := ArmFor(arms, otherwise, r.v.tag).value;
      var out := Encode(env, arm, r.v.body).out;
      assert Put32(r.v.tag) + out + r.rest == Put32(r.v.tag) + (out + r.rest);
    }
  }

  lemma {:induction false} CanonicalN(env: Schema, t: Type, n: nat, b: seq<byte>)
    requires env.Valid() && env.WellFormed(t) && DecodeN(env, t, n, b).Got?
    ensures var r := DecodeN(env, t, n, b);
            && (forall i :: 0 <= i < n ==> InBounds(env, t, r.v[i]) && Typed(env, t, r.v[i], false))
            && EncodeAll(env, t, r.v).Wire?
            && b == EncodeAll(env, t, r.v).out + r.rest
    decreases |b|, env.Rank(t), t, 1 + n
  {
    hide Decode, Encode, Typed;
    if n > 0 {
      var h := Decode(env, t, b);
      Canonical(env, t, b);
      CanonicalN(env, t, n - 1, h.rest);
      var r := DecodeN(env, t, n, b);
      assert r.v[1..] == DecodeN(env, t, n - 1, h.rest).v;
    }
  }

  lemma {:induction false} CanonicalEach(env: Schema, ts: seq<Type>, b: seq<byte>)
    requires env.Valid()
    requires forall i :: 0 <= i < |ts| ==> env.WellFormed(ts[i])
    requires DecodeEach(env, ts, b).Got?
    ensures var r := DecodeEach(env, ts, b);
            && (forall i :: 0 <= i < |ts| ==> InBounds(env, ts[i], r.v[i]) && Typed(env, ts[i], r.v[i], false))
            && EncodeEach(env, ts, r.v).Wire?
            && b == EncodeEach(env, ts, r.v).out + r.rest
    decreases |b|, env.RankAll(ts), ts, 0
  {
    hide Decode, Encode, Typed;
    if ts != [] {
      var h := Decode(env, ts[0], b);
      Canonical(env, ts[0], b);
      CanonicalEach(env, ts[1..], h.rest);
      var r := DecodeEach(env, ts, b);
      assert r.v[1..] == DecodeEach(env, ts[1..], h.rest).v;
    }
  }

  // ------------------------------------------------------------------- consequences

  /** Exactly which Go values survive: the round trip holds if and only if the value is
      within its bounds and every tag selects an arm. */
  lemma RoundTripExactly(env: Schema, t: Type, v: Value, s: seq<byte>)
    requires env.Valid() && env.WellFormed(t) && Typed(env, t, v, false)
    ensures InBounds(env, t, v) <==>
              Encode(env, t, v).Wire? && Decode(env, t, Encode(env, t, v).out + s) == Got(v, s)
  {
    if InBounds(env, t, v) {
      RoundTrip(env, t, v, s);
    } else if Encode(env, t, v).Wire? && Decode(env, t, Encode(env, t, v).out + s).Got? {
      Canonical(env, t, Encode(env, t, v).out + s);
    }
  }

  /** Encodings of one type are injective and no encoding is a proper prefix of another. */
  lemma PrefixFree(env: Schema, t: Type, v: Value, v': Value, s: seq<byte>, s': seq<byte>)
    requires env.Valid() && env.WellFormed(t) && InBounds(env, t, v) && InBounds(env, t, v')
    requires Typed(env, t, v, false) && Typed(env, t, v', false)
    requires Encode(env, t, v).Wire? && Encode(env, t, v').Wire?
    requires Encode(env, t, v).out + s == Encode(env, t, v').out + s'
    ensures v == v' && s == s'
  {
    RoundTrip(env, t, v, s);
    RoundTrip(env, t, v', s');
  }

  ghost predicate Aligned(r: Encoded) {
    r.Wire? ==> |r.out| % 4 == 0
  }

  /** RFC 4506 section 3: an encoding is a multiple of four octets long, in bounds or not. */
  lemma {:induction false} FourAligned(env: Schema, t: Type, v: Value)
    requires env.Valid() && env.WellFormed(t) && Typed(env, t, v, false)
    ensures Aligned(Encode(env, t, v))
    decreases v, env.Rank(t), t
  {
    hide EncodeAll, EncodeEach, ArmFor, Put32, Put64, PutBytes;
    match t
    case Ptr(e) =>
      if v.VPtr? {
        FourAligned(env, e, v.target);
        AlignedThen(1, Encode(env, e, v.target));
      } else {
        AlignedThen(0, Wire([]));
        assert Put32(0) + [] == Put32(0);
      }
    case Vec(e, _) =>
      var vs := Counted(v.elems);
      FourAlignedAll(env, e, vs);
      if |vs| <= t.bound { AlignedThen(|vs|, EncodeAll(env, e, vs)); }
    case Arr(e, _) => FourAlignedAll(env, e, v.elems);
    case Struct(fs) => FourAlignedEach(env, fs, v.elems);
    case Union(_, arms, otherwise) =>
      ArmForWellFormed(env, arms, otherwise, v.tag);
      if ArmFor(arms, otherwise, v.tag).Some? {
        FourAligned(env, ArmFor(arms, otherwise, v.tag).value, v.body);
        AlignedThen(v.tag, Encode(env, ArmFor(arms, otherwise, v.tag).value, v.body));
      }
    case Named(n) => FourAligned(env, env.defs[n], v);
    case _ => FourAlignedLeaf(env, t, v);
  }

  lemma AlignedThen(w: u32, r: Encoded)
    requires Aligned(r)
    ensures Aligned(Then(Wire(Put32(w)), r))
  {
  }

  lemma FourAlignedLeaf(env: Schema, t: Type, v: Value)
    requires env.Valid() && Leaf(t) && Typed(env, t, v, false)
    ensures Aligned(Encode(env, t, v))
  {
    hide Put32, Put64, Zeros;
    if t.Str? || t.VarOpaque? || t.Opaque? {
      var n := |v.bytes|;
      assert |PutBytes(v.bytes)| == n + Pad(n);
      assert (4 + (n + Pad(n))) % 4 == 0;
    }
  }

  lemma {:induction false} FourAlignedAll(env: Schema, t: Type, vs: seq<Value>)
    requires env.Valid() && env.WellFormed(t)
    requires forall i :: 0 <= i < |vs| ==> Typed(env, t, vs[i], false)
    ensures Aligned(EncodeAll(env, t, vs))
    decreases vs, 0
  {
    hide Decode, Encode, Typed;
    if vs != [] {
      FourAligned(env, t, vs[0]);
      FourAlignedAll(env, t, vs[1..]);
    }
  }

  lemma {:induction false} FourAlignedEach(env: Schema, ts: seq<Type>, vs: seq<Value>)
    requires env.Valid() && |ts| == |vs|
    requires forall i :: 0 <= i < |ts| ==> env.WellFormed(ts[i]) && Typed(env, ts[i], vs[i], false)
    ensures Aligned(EncodeEach(env, ts, vs))
    decreases vs, 0
  {
    hide Decode, Encode, Typed;
    if vs != [] {
      FourAligned(env, ts[0], vs[0]);
      FourAlignedEach(env, ts[1..], vs[1..]);
    }
  }

  // ------------------------------------------------------------------- crashes

  /** No 64-bit number, no fixed opaque data but the empty one, and no declaration but these. */
  ghost predicate Wordwise(names: set<string>, t: Type)
    decreases t
  {
    match t
    case Num64(_) => false
    case Opaque(n) => n == 0
    case Ptr(e) => Wordwise(names, e)
    case Vec(e, _) => Wordwise(names, e)
    case Arr(e, _) => Wordwise(names, e)
    case Struct(fs) => forall i :: 0 <= i < |fs| ==> Wordwise(names, fs[i])
    case Union(_, arms, otherwise) =>
      && (forall i :: 0 <= i < |arms| ==> Wordwise(names, arms[i].body))
      && (otherwise.Some? ==> Wordwise(names, otherwise.value))
    case Named(n) => n in names
    case _ => true
  }

  ghost predicate AllWordwise(env: Schema, names: set<string>) {
    forall n :: n in names && n in env.defs ==> Wordwise(names, env.defs[n])
  }

  lemma {:induction false} ArmForWordwise(names: set<string>, arms: seq<Arm>, otherwise: Option<Type>, tag: u32)
    requires forall i :: 0 <= i < |arms| ==> Wordwise(names, arms[i].body)
    requires otherwise.Some? ==> Wordwise(names, otherwise.value)
    ensures ArmFor(arms, otherwise, tag).Some? ==> Wordwise(names, ArmFor(arms, otherwise, tag).value)
    decreases |arms|
  {
    if arms != [] && tag !in arms[0].cases { ArmForWordwise(names, arms[1..], otherwise, tag); }
  }

  /** Neither a crash, nor a remainder that is not a whole number of words. */
  predicate InWords<T>(d: Decoded<T>) {
    !d.Crash? && (d.Got? ==> |d.rest| % 4 == 0)
  }

  lemma PaddedInWords(n: nat, b: seq<byte>)
    requires |b| % 4 == 0 && n <= |b|
    ensures InWords(GotPadded(n, b))
  {
    hide Zeros;
    var m := n + Pad(n);
    assert m / 4 * 4 == m && |b| / 4 * 4 == |b|;
    assert m <= |b|;
    assert (|b| - m) / 4 * 4 == |b| - m;
  }

  /** Which types never crash on a whole number of words, whatever they are: those read a word at
      a time or through a length. */
  lemma {:induction false} NeverCrashes(env: Schema, names: set<string>, t: Type, b: seq<byte>)
    requires env.Valid() && AllWordwise(env, names) && env.WellFormed(t) && Wordwise(names, t) && |b| % 4 == 0
    ensures InWords(Decode(env, t, b))
    decreases |b|, env.Rank(t), t, 0
  {
    hide GotPadded, DecodeN, DecodeEach, ArmFor;
    match t
    case Str(_) => if Got32(b).Got? && Got32(b).v <= |Got32(b).rest| { PaddedInWords(Got32(b).v, Got32(b).rest); }
    case VarOpaque(_) => if Got32(b).Got? && Got32(b).v <= |Got32(b).rest| { PaddedInWords(Got32(b).v, Got32(b).rest); }
    case Opaque(_) => PaddedInWords(0, b);
    case Ptr(e) => if GotFlag(b).Got? { NeverCrashes(env, names, e, GotFlag(b).rest); }
    case Vec(e, _) => if Got32(b).Got? { NeverCrashesN(env, names, e, Got32(b).v, Got32(b).rest); }
    case Arr(e, n) => NeverCrashesN(env, names, e, n, b);
    case Struct(fs) => NeverCrashesEach(env, names, fs, b);
    case Union(_, arms, otherwise) =>
      if Got32(b).Got? {
        ArmForWellFormed(env, arms, otherwise, Got32(b).v);
        ArmForWordwise(names, arms, otherwise, Got32(b).v);
        var arm := ArmFor(arms, otherwise, Got32(b).v);
        if arm.Some? { NeverCrashes(env, names, arm.value, Got32(b).rest); }
      }
    case Named(n) => NeverCrashes(env, names, env.defs[n], b);
    case _ =>
  }

  lemma {:induction false} NeverCrashesN(env: Schema, names: set<string>, t: Type, n: nat, b: seq<byte>)
    requires env.Valid() && AllWordwise(env, names) && env.WellFormed(t) && Wordwise(names, t) && |b| % 4 == 0
    ensures InWords(DecodeN(env, t, n, b))
    decreases |b|, env.Rank(t), t, 1 + n
  {
    hide Decode;
    if n > 0 {
      NeverCrashes(env, names, t, b);
      if Decode(env, t, b).Got? { NeverCrashesN(env, names, t, n - 1, Decode(env, t, b).rest); }
    }
  }

  lemma {:induction false} NeverCrashesEach(env: Schema, names: set<string>, ts: seq<Type>, b: seq<byte>)
    requires env.Valid() && AllWordwise(env, names) && |b| % 4 == 0
    requires forall i :: 0 <= i < |ts| ==> env.WellFormed(ts[i]) && Wordwise(names, ts[i])
    ensures InWords(DecodeEach(env, ts, b))
    decreases |b|, env.RankAll(ts), ts, 0
  {
    hide Decode;
    if ts != [] {
      NeverCrashes(env, names, ts[0], b);
      if Decode(env, ts[0], b).Got? { NeverCrashesEach(env, names, ts[1..], Decode(env, ts[0], b).rest); }
    }
  }

  /** How unmarshaling a value without parts ends, for every input: a word or a flag, and a 64-bit
      number, by the octets there are for the one read it takes; opaque data and strings by their
      octets and then by those of their padding. */
  lemma LeafEnds(env: Schema, t: Type, b: seq<byte>)
    requires env.Valid() && Leaf(t)
    ensures var d := Decode(env, t, b);
      && (t.Void? ==> d.Got?)
      && (t.Num32? ==> (d.Crash? <==> 0 < |b| < 4) && (d.Bad? <==> b == []))
      && (t.Num64? ==> (d.Crash? <==> 0 < |b| < 8) && (d.Bad? <==> b == []))
      && (t.Bool? ==> (d.Crash? <==> 0 < |b| < 4) && (d.Bad? <==> b == [] || (|b| >= 4 && Get32(b) > 1)))
      && (t.Opaque? ==>
            && (d.Crash? <==> |b| < t.size || 0 < |b| - t.size < Pad(t.size))
            && (d.Got? <==> |b| >= t.size + Pad(t.size) && ZeroFilled(b, t.size)))
      && (t.Str? || t.VarOpaque? ==>
            && (d.Crash? <==> 0 < |b| < 4 || (|b| >= 4 && Get32(b) <= t.bound && PadPartly(b[4..], Get32(b))))
            && (d.Got? <==> |b| >= 4 && Get32(b) <= t.bound && |b| - 4 >= Get32(b) + Pad(Get32(b))
                            && ZeroFilled(b[4..], Get32(b))))
  {
    hide Get32, Zeros;
    if t.Opaque? && |b| >= t.size + Pad(t.size) { ZeroFilledIs(b, t.size); }
    if (t.Str? || t.VarOpaque?) && |b| >= 4 && |b| - 4 >= Get32(b) + Pad(Get32(b)) { ZeroFilledIs(b[4..], Get32(b)); }
  }

  predicate PadPartly(b: seq<byte>, n: nat) {
    0 < |b| - n < Pad(n)
  }

  /** The padding after n octets is there and is zero. */
  predicate ZeroFilled(b: seq<byte>, n: nat) {
    |b| >= n + Pad(n) && forall i :: n <= i < n + Pad(n) ==> b[i] == 0
  }

  lemma ZeroFilledIs(b: seq<byte>, n: nat)
    requires |b| >= n + Pad(n)
    ensures ZeroFilled(b, n) <==> b[n..n + Pad(n)] == Zeros(Pad(n))
  {
    var p := b[n..n + Pad(n)];
    assert forall i :: 0 <= i < Pad(n) ==> p[i] == b[n + i];
    assert forall i :: n <= i < n + Pad(n) ==> b[i] == p[i - n];
  }

  // ------------------------------------------------------------------- what marshals

  /** Every tag met selects an arm, and every vector counts no more elements than its bound. A
      vector counts its length modulo 2^32, and its elements past that are not met. */
  ghost predicate Marshals(env: Schema, t: Type, v: Value)
    requires env.Valid() && env.WellFormed(t) && Typed(env, t, v, false)
    decreases v, env.Rank(t), t
  {
    match t
    case Ptr(e) => v.VPtr? ==> Marshals(env, e, v.target)
    case Vec(e, bound) =>
      && |v.elems| % TWO32 <= bound
      && forall i :: 0 <= i < |v.elems| % TWO32 ==> Marshals(env, e, v.elems[i])
    case Arr(e, n) => forall i :: 0 <= i < n ==> Marshals(env, e, v.elems[i])
    case Struct(fs) => forall i :: 0 <= i < |fs| ==> Marshals(env, fs[i], v.elems[i])
    case Union(_, arms, otherwise) =>
      ArmForWellFormed(env, arms, otherwise, v.tag);
      (match ArmFor(arms, otherwise, v.tag)
       case Some(arm) => Marshals(env, arm, v.body)
       case None => false)
    case Named(n) => Marshals(env, env.defs[n], v)
    case _ => true
  }

  /** A value marshals if and only if that is so. */
  lemma {:induction false} MarshalsExactly(env: Schema, t: Type, v: Value)
    requires env.Valid() && env.WellFormed(t) && Typed(env, t, v, false)
    ensures Encode(env, t, v).Wire? <==> Marshals(env, t, v)
    decreases v, env.Rank(t), t
  {
    hide EncodeAll, EncodeEach, Put32, PutBytes;
    match t
    case Ptr(e) => if v.VPtr? { MarshalsExactly(env, e, v.target); }
    case Vec(e, _) => MarshalsAll(env, e, Counted(v.elems));
    case Arr(e, _) => MarshalsAll(env, e, v.elems);
    case Struct(fs) => MarshalsEach(env, fs, v.elems);
    case Union(_, arms, otherwise) =>
      ArmForWellFormed(env, arms, otherwise, v.tag);
      var arm := ArmFor(arms, otherwise, v.tag);
      if arm.Some? { MarshalsExactly(env, arm.value, v.body); }
    case Named(n) => MarshalsExactly(env, env.defs[n], v);
    case _ =>
  }

  lemma {:induction false} MarshalsAll(env: Schema, t: Type, vs: seq<Value>)
    requires env.Valid() && env.WellFormed(t)
    requires forall i :: 0 <= i < |vs| ==> Typed(env, t, vs[i], false)
    ensures EncodeAll(env, t, vs).Wire? <==> forall i :: 0 <= i < |vs| ==> Marshals(env, t, vs[i])
    decreases vs, 0
  {
    hide Encode, Typed, Marshals;
    if vs != [] {
      MarshalsExactly(env, t, vs[0]);
      MarshalsAll(env, t, vs[1..]);
      assert forall i :: 0 < i < |vs| ==> vs[i] == vs[1..][i - 1];
    }
  }

  lemma {:induction false} MarshalsEach(env: Schema, ts: seq<Type>, vs: seq<Value>)
    requires env.Valid() && |ts| == |vs|
    requires forall i :: 0 <= i < |ts| ==> env.WellFormed(ts[i]) && Typed(env, ts[i], vs[i], false)
    ensures EncodeEach(env, ts, vs).Wire? <==> forall i :: 0 <= i < |ts| ==> Marshals(env, ts[i], vs[i])
    decreases vs, 0
  {
    hide Encode, Typed, Marshals;
    if vs != [] {
      MarshalsExactly(env, ts[0], vs[0]);
      MarshalsEach(env, ts[1..], vs[1..]);
      assert forall i :: 0 < i < |vs| ==> vs[i] == vs[1..][i - 1] && ts[i] == ts[1..][i - 1];
    }
  }
}
