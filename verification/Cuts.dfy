/** How unmarshaling ends when an encoding is cut off, anywhere. */
module Cuts {
  import opened Bytes
  import opened Schema
  import opened Codec

  /** A read of XdrIn: one Read that must yield all its octets, io.ReadFull of octets whose number
      was read, or io.ReadFull into fixed opaque data. */
  datatype Step = Read(size: nat) | Counted(size: nat) | Fixed(size: nat)

  /** The reads that the encoding of a value is made for (RFC 4506 sections 4.1 to 4.19). */
  ghost function Steps(env: Schema, t: Type, v: Value): (ss: seq<Step>)
    requires env.Valid() && env.WellFormed(t) && InBounds(env, t, v)
    decreases v, env.Rank(t), t
  {
    match t
    case Void => []
    case Bool => [Read(4)]
    case Num32(_) => [Read(4)]
    case Num64(_) => [Read(8)]
    case Str(_) => [Read(4), Step.Counted(|v.bytes|), Read(Pad(|v.bytes|))]
    case VarOpaque(_) => [Read(4), Step.Counted(|v.bytes|), Read(Pad(|v.bytes|))]
    case Opaque(_) => [Fixed(|v.bytes|), Read(Pad(|v.bytes|))]
    case Ptr(e) => [Read(4)] + if v.VNil? then [] else Steps(env, e, v.target)
    case Vec(e, _) => [Read(4)] + StepsAll(env, e, v.elems)
    case Arr(e, _) => StepsAll(env, e, v.elems)
    case Struct(fs) => StepsEach(env, fs, v.elems)
    case Union(_, arms, otherwise) =>
      ArmForWellFormed(env, arms, otherwise, v.tag);
      [Read(4)] + Steps(env, ArmFor(arms, otherwise, v.tag).value, v.body)
    case Named(n) => Steps(env, env.defs[n], v)
  }

  ghost function StepsAll(env: Schema, t: Type, vs: seq<Value>): (ss: seq<Step>)
    requires env.Valid() && env.WellFormed(t)
    requires forall i :: 0 <= i < |vs| ==> InBounds(env, t, vs[i])
    decreases vs, 0
  {
    if vs == [] then [] else Steps(env, t, vs[0]) + StepsAll(env, t, vs[1..])
  }

  ghost function StepsEach(env: Schema, ts: seq<Type>, vs: seq<Value>): (ss: seq<Step>)
    requires env.Valid() && |ts| == |vs|
    requires forall i :: 0 <= i < |ts| ==> env.WellFormed(ts[i]) && InBounds(env, ts[i], vs[i])
    decreases vs, 0
  {
    if vs == [] then [] else Steps(env, ts[0], vs[0]) + StepsEach(env, ts[1..], vs[1..])
  }

  function Total(ss: seq<Step>): nat {
    if ss == [] then 0 else ss[0].size + Total(ss[1..])
  }

  /** The end of input after k octets: an XdrError between two reads or within counted octets, a
      crash within any other read or before fixed opaque data. */
  function CutAt(ss: seq<Step>, k: nat): Ending
    requires k < Total(ss)
  {
    if k >= ss[0].size then CutAt(ss[1..], k - ss[0].size)
    else
      match ss[0]
      case Read(_) => if k == 0 then XdrError else Crashed
      case Counted(_) => XdrError
      case Fixed(_) => Crashed
  }

  lemma {:induction false} CutNotDone(ss: seq<Step>, k: nat)
    requires k < Total(ss)
    ensures !CutAt(ss, k).Done?
  {
    if k >= ss[0].size { CutNotDone(ss[1..], k - ss[0].size); }
  }

  lemma {:induction false} TotalBoth(a: seq<Step>, b: seq<Step>)
    ensures Total(a + b) == Total(a) + Total(b)
  {
    if a == [] {
      assert [] + b == b;
    } else {
      TotalBoth(a[1..], b);
      assert (a + b)[1..] == a[1..] + b;
    }
  }

  lemma {:induction false} CutBoth(a: seq<Step>, b: seq<Step>, k: nat)
    requires k < Total(a) + Total(b)
    ensures Total(a + b) == Total(a) + Total(b)
    ensures CutAt(a + b, k) == if k < Total(a) then CutAt(a, k) else CutAt(b, k - Total(a))
  {
    TotalBoth(a, b);
    if a == [] {
      assert [] + b == b;
    } else {
      assert (a + b)[1..] == a[1..] + b;
      TotalBoth(a[1..], b);
      if k >= a[0].size { CutBoth(a[1..], b, k - a[0].size); }
    }
  }

  /** The encoding of a value in bounds is as long as its reads, and cut after k octets it ends as
      those say. */
  ghost predicate CutsAs(env: Schema, t: Type, v: Value, k: nat)
    requires env.Valid() && env.WellFormed(t) && InBounds(env, t, v)
  {
    && Typed(env, t, v, false) && Encode(env, t, v).Wire?
    && var out := Encode(env, t, v).out;
       && |out| == Total(Steps(env, t, v))
       && (k < |out| ==> EndingOf(Decode(env, t, out[..k])) == CutAt(Steps(env, t, v), k))
  }

  lemma {:induction false} CutEnds(env: Schema, t: Type, v: Value, k: nat)
    requires env.Valid() && env.WellFormed(t) && InBounds(env, t, v)
    ensures CutsAs(env, t, v, k)
    decreases v, env.Rank(t), t, 1
  {
    match t
    case Ptr(e) => CutPtr(env, e, v, k);
    case Vec(e, bound) => CutVec(env, e, bound, v, k);
    case Arr(e, n) => CutArr(env, e, n, v, k);
    case Struct(fs) => CutStruct(env, fs, v, k);
    case Union(boolTag, arms, otherwise) => CutUnion(env, boolTag, arms, otherwise, v, k);
    case Named(n) => CutEnds(env, env.defs[n], v, k);
    case _ => CutLeaf(env, t, v, k);
  }

  lemma CutLeaf(env: Schema, t: Type, v: Value, k: nat)
    requires env.Valid() && Leaf(t) && InBounds(env, t, v)
    ensures CutsAs(env, t, v, k)
  {
    hide Put32, Get32, Put64, Get64, Zeros;
    InBoundsTyped(env, t, v);
    match t
    case Str(bound) => CutBytes(env, t, bound, v, k);
    case VarOpaque(bound) => CutBytes(env, t, bound, v, k);
    case Opaque(n) => CutFixed(env, n, v, k);
    case _ => CutWord(env, t, v, k);
  }

  lemma CutWord(env: Schema, t: Type, v: Value, k: nat)
    requires env.Valid() && (t.Void? || t.Bool? || t.Num32? || t.Num64?) && InBounds(env, t, v)
    ensures CutsAs(env, t, v, k)
  {
    hide Get32, Get64;
    assert Total([Read(4)]) == 4 && Total([Read(8)]) == 8;
  }

  lemma CutFixed(env: Schema, n: u32, v: Value, k: nat)
    requires env.Valid() && InBounds(env, Opaque(n), v)
    ensures CutsAs(env, Opaque(n), v, k)
  {
    hide Zeros;
    var ss := [Fixed(n), Read(Pad(n))];
    assert ss[1..] == [Read(Pad(n))] && ss[1..][1..] == [];
    assert Total(ss[1..]) == Pad(n);
    var out := Encode(env, Opaque(n), v).out;
    if n <= k < |out| {
      assert CutAt(ss, k) == CutAt(ss[1..], k - n);
      assert |out[..k][n..]| == k - n;
    }
  }

  lemma CutBytes(env: Schema, t: Type, bound: u32, v: Value, k: nat)
    requires env.Valid() && (t == Str(bound) || t == VarOpaque(bound)) && InBounds(env, t, v)
    ensures CutsAs(env, t, v, k)
  {
    hide Put32, Get32, Zeros;
    var n := |v.bytes|;
    var ss := [Read(4), Step.Counted(n), Read(Pad(n))];
    assert ss[1..] == [Step.Counted(n), Read(Pad(n))] && ss[1..][1..] == [Read(Pad(n))];
    assert ss[1..][1..][1..] == [];
    assert Total(ss[1..][1..]) == Pad(n) && Total(ss[1..]) == n + Pad(n) && Total(ss) == 4 + n + Pad(n);
    var out := Encode(env, t, v).out;
    assert |out| == Total(ss) && Steps(env, t, v) == ss;
    if 4 <= k < |out| {
      assert out[..k] == Put32(n) + out[4..k];
      Get32Put32(n, out[4..k]);
      assert CutAt(ss, k) == CutAt(ss[1..], k - 4);
      if k - 4 >= n {
        assert CutAt(ss[1..], k - 4) == CutAt(ss[1..][1..], k - 4 - n);
        assert |out[4..k][n..]| == k - 4 - n;
      }
    }
  }

  lemma {:induction false} CutPtr(env: Schema, e: Type, v: Value, k: nat)
    requires env.Valid() && env.WellFormed(e) && InBounds(env, Ptr(e), v)
    ensures CutsAs(env, Ptr(e), v, k)
    decreases v, env.Rank(Ptr(e)), Ptr(e), 0
  {
    assert Total([]) == 0;
    hide Put32, Got32, CutAt, Total;
    InBoundsTyped(env, Ptr(e), v);
    if v.VNil? {
      CutBehindWord(0, [], [], k);
      assert [Read(4)] + [] == [Read(4)] && Put32(0) + [] == Put32(0);
    } else {
      CutEnds(env, e, v.target, if k < 4 then 0 else k - 4);
      CutBehindWord(1, Encode(env, e, v.target).out, Steps(env, e, v.target), k);
    }
  }

  /** A word in front, and the rest cut. */
  lemma CutBehindWord(w: u32, o: seq<byte>, ss: seq<Step>, k: nat)
    requires |o| == Total(ss)
    ensures Total([Read(4)] + ss) == |Put32(w) + o|
    ensures k < 4 ==>
              && CutAt([Read(4)] + ss, k) == (if k == 0 then XdrError else Crashed)
              && EndingOf(Got32((Put32(w) + o)[..k])) == (if k == 0 then XdrError else Crashed)
    ensures 4 <= k < 4 + |o| ==>
              && CutAt([Read(4)] + ss, k) == CutAt(ss, k - 4)
              && Got32((Put32(w) + o)[..k]) == Got(w, o[..k - 4])
  {
    hide Put32, Get32;
    assert Total([Read(4)]) == 4;
    TotalBoth([Read(4)], ss);
    if k < 4 + |o| {
      CutBoth([Read(4)], ss, k);
      if k >= 4 {
        assert (Put32(w) + o)[..k] == Put32(w) + o[..k - 4];
        Get32Put32(w, o[..k - 4]);
      }
    }
  }

  lemma {:induction false} CutVec(env: Schema, e: Type, bound: u32, v: Value, k: nat)
    requires env.Valid() && env.WellFormed(e) && InBounds(env, Vec(e, bound), v)
    ensures CutsAs(env, Vec(e, bound), v, k)
    decreases v, env.Rank(Vec(e, bound)), Vec(e, bound), 0
  {
    hide Put32, Get32, Got32, EncodeAll, DecodeN, StepsAll, CutAt, Total;
    InBoundsTyped(env, Vec(e, bound), v);
    CutAll(env, e, v.elems, if k < 4 then 0 else k - 4);
    CutBehindWord(|v.elems|, EncodeAll(env, e, v.elems).out, StepsAll(env, e, v.elems), k);
  }

  lemma {:induction false} CutArr(env: Schema, e: Type, n: u32, v: Value, k: nat)
    requires env.Valid() && env.WellFormed(e) && InBounds(env, Arr(e, n), v)
    ensures CutsAs(env, Arr(e, n), v, k)
    decreases v, env.Rank(Arr(e, n)), Arr(e, n), 0
  {
    hide EncodeAll, DecodeN, StepsAll, CutAt, Total;
    InBoundsTyped(env, Arr(e, n), v);
    CutAll(env, e, v.elems, k);
  }

  lemma {:induction false} CutStruct(env: Schema, fs: seq<Type>, v: Value, k: nat)
    requires env.Valid() && env.WellFormed(Struct(fs)) && InBounds(env, Struct(fs), v)
    ensures CutsAs(env, Struct(fs), v, k)
    decreases v, env.Rank(Struct(fs)), Struct(fs), 0
  {
    hide EncodeEach, DecodeEach, StepsEach, CutAt, Total;
    InBoundsTyped(env, Struct(fs), v);
    CutEach(env, fs, v.elems, k);
  }

  lemma {:induction false} CutUnion(env: Schema, boolTag: bool, arms: seq<Arm>, otherwise: Option<Type>,
                                    v: Value, k: nat)
    requires env.Valid() && env.WellFormed(Union(boolTag, arms, otherwise))
    requires InBounds(env, Union(boolTag, arms, otherwise), v)
    ensures CutsAs(env, Union(boolTag, arms, otherwise), v, k)
    decreases v, env.Rank(Union(boolTag, arms, otherwise)), Union(boolTag, arms, otherwise), 0
  {
    hide Put32, Get32, Got32, CutAt, Total;
    InBoundsTyped(env, Union(boolTag, arms, otherwise), v);
    ArmForWellFormed(env, arms, otherwise, v.tag);
    var arm := ArmFor(arms, otherwise, v.tag).value;
    CutEnds(env, arm, v.body, if k < 4 then 0 else k - 4);
    CutBehindWord(v.tag, Encode(env, arm, v.body).out, Steps(env, arm, v.body), k);
  }

  lemma EndsN(env: Schema, t: Type, n: nat, b: seq<byte>)
    requires env.Valid() && env.WellFormed(t) && n > 0
    ensures var d := Decode(env, t, b);
            EndingOf(DecodeN(env, t, n, b))
            == if EndingOf(d).Done? then EndingOf(DecodeN(env, t, n - 1, d.rest)) else EndingOf(d)
    ensures EndingOf(Decode(env, t, b)).Done? <==> Decode(env, t, b).Got?
  {
    hide Decode;
  }

  lemma {:induction false} CutAll(env: Schema, t: Type, vs: seq<Value>, k: nat)
    requires env.Valid() && env.WellFormed(t)
    requires forall i :: 0 <= i < |vs| ==> InBounds(env, t, vs[i])
    ensures forall i :: 0 <= i < |vs| ==> Typed(env, t, vs[i], false)
    ensures EncodeAll(env, t, vs).Wire?
    ensures var out := EncodeAll(env, t, vs).out;
      && |out| == Total(StepsAll(env, t, vs))
      && (k < |out| ==> EndingOf(DecodeN(env, t, |vs|, out[..k])) == CutAt(StepsAll(env, t, vs), k))
    decreases vs, 0
  {
    hide Decode, Encode, Typed, Steps, CutAt;
    if vs != [] {
      hide Total, InBounds, DecodeN, EndingOf;
      forall i | 0 <= i < |vs| { InBoundsTyped(env, t, vs[i]); }
      CutEnds(env, t, vs[0], k);
      var a, ss := Encode(env, t, vs[0]).out, Steps(env, t, vs[0]);
      CutAll(env, t, vs[1..], if k < |a| then 0 else k - |a|);
      var b := EncodeAll(env, t, vs[1..]).out;
      assert EncodeAll(env, t, vs).out == a + b && StepsAll(env, t, vs) == ss + StepsAll(env, t, vs[1..]);
      TotalBoth(ss, StepsAll(env, t, vs[1..]));
      if k < |a| {
        CutBoth(ss, StepsAll(env, t, vs[1..]), k);
        assert (a + b)[..k] == a[..k];
        assert EndingOf(Decode(env, t, a[..k])) == CutAt(ss, k);
        CutNotDone(ss, k);
        EndsN(env, t, |vs|, a[..k]);
      } else if k < |a| + |b| {
        CutBoth(ss, StepsAll(env, t, vs[1..]), k);
        assert (a + b)[..k] == a + b[..k - |a|];
        RoundTrip(env, t, vs[0], b[..k - |a|]);
        EndsN(env, t, |vs|, a + b[..k - |a|]);
      }
    }
  }

  lemma {:induction false} CutEach(env: Schema, ts: seq<Type>, vs: seq<Value>, k: nat)
    requires env.Valid() && |ts| == |vs|
    requires forall i :: 0 <= i < |ts| ==> env.WellFormed(ts[i]) && InBounds(env, ts[i], vs[i])
    ensures forall i :: 0 <= i < |ts| ==> Typed(env, ts[i], vs[i], false)
    ensures EncodeEach(env, ts, vs).Wire?
    ensures var out := EncodeEach(env, ts, vs).out;
      && |out| == Total(StepsEach(env, ts, vs))
      && (k < |out| ==> EndingOf(DecodeEach(env, ts, out[..k])) == CutAt(StepsEach(env, ts, vs), k))
    decreases vs, 0
  {
    hide Decode, Encode, Typed, Steps, CutAt;
    if vs != [] {
      hide Total, InBounds;
      forall i | 0 <= i < |vs| { InBoundsTyped(env, ts[i], vs[i]); }
      CutEnds(env, ts[0], vs[0], k);
      var a, ss := Encode(env, ts[0], vs[0]).out, Steps(env, ts[0], vs[0]);
      CutEach(env, ts[1..], vs[1..], if k < |a| then 0 else k - |a|);
      var b := EncodeEach(env, ts[1..], vs[1..]).out;
      assert EncodeEach(env, ts, vs).out == a + b && StepsEach(env, ts, vs) == ss + StepsEach(env, ts[1..], vs[1..]);
      TotalBoth(ss, StepsEach(env, ts[1..], vs[1..]));
      if k < |a| {
        CutBoth(ss, StepsEach(env, ts[1..], vs[1..]), k);
        assert (a + b)[..k] == a[..k];
        assert EndingOf(Decode(env, ts[0], a[..k])) == CutAt(ss, k);
        CutNotDone(ss, k);
      } else if k < |a| + |b| {
        CutBoth(ss, StepsEach(env, ts[1..], vs[1..]), k);
        assert (a + b)[..k] == a + b[..k - |a|];
        RoundTrip(env, ts[0], vs[0], b[..k - |a|]);
      }
    }
  }

  /** Cut between two reads: an XdrError for every type, 64-bit numbers included, unless what was
      to be read is fixed opaque data. */
  lemma CutBetween(env: Schema, t: Type, v: Value, j: nat)
    requires env.Valid() && env.WellFormed(t) && InBounds(env, t, v)
    requires j < |Steps(env, t, v)| && Steps(env, t, v)[j].size > 0
    ensures var ss := Steps(env, t, v); var k := Total(ss[..j]);
      && Typed(env, t, v, false) && Encode(env, t, v).Wire? && k < |Encode(env, t, v).out|
      && EndingOf(Decode(env, t, Encode(env, t, v).out[..k])) == if ss[j].Fixed? then Crashed else XdrError
  {
    hide Encode, Decode, Typed, Steps, CutAt;
    var ss := Steps(env, t, v);
    var k := Total(ss[..j]);
    CutEnds(env, t, v, k);
    assert ss == ss[..j] + ss[j..];
    TotalBoth(ss[..j], ss[j..]);
    CutBoth(ss[..j], ss[j..], k);
    AtStart(ss[j..]);
  }

  lemma AtStart(ss: seq<Step>)
    requires ss != [] && ss[0].size > 0
    ensures Total(ss) > 0 && CutAt(ss, 0) == if ss[0].Fixed? then Crashed else XdrError
  {
  }
}
