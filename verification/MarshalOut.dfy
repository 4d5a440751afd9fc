/** Marshaling Go variables, and the trip from one variable through octets into another. */
module MarshalOut {
  import opened Bytes
  import opened Schema
  import opened Codec
  import opened InPlace

  /** A bytes.Buffer being written. */
  class Writer {
    var out: seq<byte>

    constructor ()
      ensures out == []
    {
      out := [];
    }

    method Write(b: seq<byte>)
      modifies this
      ensures out == old(out) + b
    {
      out := out + b;
    }
  }

  /** XdrOut.Marshal on a variable: appends the encoding of the value it holds. It may change the
      variable: an accessor makes the body of a union that has none, and a slice of 2^32 or more
      elements is cut. Neither shows if the value is in bounds. */
  method Marshal(env: Schema, t: Type, s: Slot, ghost v: Value, w: Writer) returns (ok: bool)
    requires env.Valid() && env.WellFormed(t) && Tree(env, t, s)
    requires Holds(env, t, s, v) && Typed(env, t, v, false)
    modifies s.repr, w
    ensures Tree(env, t, s) && s in s.repr && fresh(s.repr - old(s.repr))
    ensures ok && InBounds(env, t, v) ==> Holds(env, t, s, v)
    ensures ok <==> Marshals(env, t, v)
    ensures ok <==> Encode(env, t, v).Wire?
    ensures ok ==> w.out == old(w.out) + Encode(env, t, v).out
    decreases v, env.Rank(t), t, 1
  {
    hide Marshals;
    MarshalsExactly(env, t, v);
    match t
    case Ptr(e) => ok := MarshalPtr(env, e, s, v, w);
    case Vec(e, bound) => ok := MarshalVec(env, e, bound, s, v, w);
    case Arr(e, n) => ok := MarshalArr(env, e, n, s, v, w);
    case Struct(fs) => ok := MarshalStruct(env, fs, s, v, w);
    case Union(boolTag, arms, otherwise) => ok := MarshalUnion(env, boolTag, arms, otherwise, s, v, w);
    case Named(n) => ok := Marshal(env, env.defs[n], s, v, w);
    case _ =>
      MarshalLeaf(env, t, s, v, w);
      ok := true;
  }

  method MarshalLeaf(env: Schema, t: Type, s: Slot, ghost v: Value, w: Writer)
    requires env.Valid() && Leaf(t) && Tree(env, t, s)
    requires Holds(env, t, s, v) && Typed(env, t, v, false)
    modifies w
    ensures Encode(env, t, v).Wire? && w.out == old(w.out) + Encode(env, t, v).out
  {
    hide Put32, Put64, Zeros, Pad;
    match t
    case Void =>
    case Bool => w.Write(Put32(if s.b then 1 else 0));
    case Num32(_) => w.Write(Put32(s.w));
    case Num64(_) => w.Write(Put64(s.d));
    case Str(_) =>
      w.Write(Put32(|s.bytes| % TWO32));
      w.Write(s.bytes);
      w.Write(Zeros(Pad(|s.bytes|)));
    case VarOpaque(_) =>
      w.Write(Put32(|s.bytes| % TWO32));
      w.Write(s.bytes);
      w.Write(Zeros(Pad(|s.bytes|)));
    case Opaque(_) =>
      w.Write(s.bytes);
      w.Write(Zeros(Pad(|s.bytes|)));
  }

  method MarshalPtr(env: Schema, e: Type, s: Slot, ghost v: Value, w: Writer) returns (ok: bool)
    requires env.Valid() && env.WellFormed(e) && Tree(env, Ptr(e), s)
    requires Holds(env, Ptr(e), s, v) && Typed(env, Ptr(e), v, false)
    modifies s.repr, w
    ensures Tree(env, Ptr(e), s) && fresh(s.repr - old(s.repr))
    ensures ok && InBounds(env, Ptr(e), v) ==> Holds(env, Ptr(e), s, v)
    ensures ok <==> Encode(env, Ptr(e), v).Wire?
    ensures ok ==> w.out == old(w.out) + Encode(env, Ptr(e), v).out
    decreases v, env.Rank(Ptr(e)), Ptr(e), 0
  {
    if s.ref == null {
      w.Write(Put32(0));
      ok := true;
    } else {
      w.Write(Put32(1));
      ok := MarshalRef(env, e, s, v.target, w);
    }
  }

  /** Marshals what s refers to. */
  method MarshalRef(env: Schema, t: Type, s: Slot, ghost v: Value, w: Writer) returns (ok: bool)
    requires env.Valid() && env.WellFormed(t) && RefTree(env, t, s)
    requires Holds(env, t, s.ref, v) && Typed(env, t, v, false)
    modifies s.repr, w
    ensures RefTree(env, t, s) && fresh(s.repr - old(s.repr))
    ensures s.ref == old(s.ref) && s.w == old(s.w) && s.dyn == old(s.dyn)
    ensures ok && InBounds(env, t, v) ==> Holds(env, t, s.ref, v)
    ensures ok <==> Encode(env, t, v).Wire?
    ensures ok ==> w.out == old(w.out) + Encode(env, t, v).out
    decreases v, env.Rank(t), t, 2
  {
    hide Tree, Holds, Typed, Encode;
    ok := Marshal(env, t, s.ref, v, w);
    s.repr := s.repr + s.ref.repr;
  }

  /** XdrRecurse of a slice writes its length; XdrMarshalN then visits as many elements and cuts
      the slice to them. */
  method MarshalVec(env: Schema, e: Type, bound: u32, s: Slot, ghost v: Value, w: Writer) returns (ok: bool)
    requires env.Valid() && env.WellFormed(e) && Tree(env, Vec(e, bound), s)
    requires Holds(env, Vec(e, bound), s, v) && Typed(env, Vec(e, bound), v, false)
    modifies s.repr, w
    ensures Tree(env, Vec(e, bound), s) && fresh(s.repr - old(s.repr))
    ensures ok && InBounds(env, Vec(e, bound), v) ==> Holds(env, Vec(e, bound), s, v)
    ensures ok <==> Encode(env, Vec(e, bound), v).Wire?
    ensures ok ==> w.out == old(w.out) + Encode(env, Vec(e, bound), v).out
    ensures ok ==> s.len == old(s.len) % TWO32
    decreases v, env.Rank(Vec(e, bound)), Vec(e, bound), 0
  {
    hide Put32, EncodeAll, EncodeEach, ArmFor, ZeroValue;
    var n := s.len % TWO32;
    w.Write(Put32(n));
    if n > bound {
      return false;
    }
    assert Parts(env, Repeat(e, |s.kids|), s);
    ok := MarshalCounted(env, e, s, n, v.elems, w);
  }

  /** XdrMarshalN told the length modulo 2^32. */
  method MarshalCounted(env: Schema, e: Type, s: Slot, n: u32, ghost vs: seq<Value>, w: Writer) returns (ok: bool)
    requires env.Valid() && env.WellFormed(e) && Parts(env, Repeat(e, |s.kids|), s)
    requires s.len == |vs| <= |s.kids| && n == |vs| % TWO32
    requires forall i :: 0 <= i < |vs| ==> Holds(env, e, s.kids[i], vs[i]) && Typed(env, e, vs[i], false)
    modifies s.repr, w
    ensures Parts(env, Repeat(e, |s.kids|), s) && s.len <= |s.kids| && fresh(s.repr - old(s.repr))
    ensures ok ==> s.len == n && forall i :: 0 <= i < n && InBounds(env, e, vs[i]) ==> Holds(env, e, s.kids[i], vs[i])
    ensures ok <==> EncodeAll(env, e, Counted(vs)).Wire?
    ensures ok ==> w.out == old(w.out) + EncodeAll(env, e, Counted(vs)).out
    decreases vs, 2
  {
    hide Tree, Holds, Typed, EncodeAll;
    ok := MarshalAll(env, e, s, n, Counted(vs), w);
    if ok {
      Cut(env, e, s, n);
    }
  }

  method MarshalArr(env: Schema, e: Type, n: u32, s: Slot, ghost v: Value, w: Writer) returns (ok: bool)
    requires env.Valid() && env.WellFormed(e) && Tree(env, Arr(e, n), s)
    requires Holds(env, Arr(e, n), s, v) && Typed(env, Arr(e, n), v, false)
    modifies s.repr, w
    ensures Tree(env, Arr(e, n), s) && fresh(s.repr - old(s.repr))
    ensures ok && InBounds(env, Arr(e, n), v) ==> Holds(env, Arr(e, n), s, v)
    ensures ok <==> Encode(env, Arr(e, n), v).Wire?
    ensures ok ==> w.out == old(w.out) + Encode(env, Arr(e, n), v).out
    decreases v, env.Rank(Arr(e, n)), Arr(e, n), 0
  {
    assert Parts(env, Repeat(e, n), s);
    ok := MarshalAll(env, e, s, n, v.elems, w);
  }

  method MarshalStruct(env: Schema, fs: seq<Type>, s: Slot, ghost v: Value, w: Writer) returns (ok: bool)
    requires env.Valid() && env.WellFormed(Struct(fs)) && Tree(env, Struct(fs), s)
    requires Holds(env, Struct(fs), s, v) && Typed(env, Struct(fs), v, false)
    modifies s.repr, w
    ensures Tree(env, Struct(fs), s) && fresh(s.repr - old(s.repr))
    ensures ok && InBounds(env, Struct(fs), v) ==> Holds(env, Struct(fs), s, v)
    ensures ok <==> Encode(env, Struct(fs), v).Wire?
    ensures ok ==> w.out == old(w.out) + Encode(env, Struct(fs), v).out
    decreases v, env.Rank(Struct(fs)), Struct(fs), 0
  {
    assert Parts(env, fs, s);
    ok := MarshalEach(env, fs, s, v.elems, w);
  }

  /** The tag, then the body that the accessor of its arm returns. */
  method MarshalUnion(env: Schema, boolTag: bool, arms: seq<Arm>, otherwise: Option<Type>,
                      s: Slot, ghost v: Value, w: Writer)
    returns (ok: bool)
    requires env.Valid() && env.WellFormed(Union(boolTag, arms, otherwise))
    requires Tree(env, Union(boolTag, arms, otherwise), s)
    requires Holds(env, Union(boolTag, arms, otherwise), s, v) && Typed(env, Union(boolTag, arms, otherwise), v, false)
    modifies s.repr, w
    ensures Tree(env, Union(boolTag, arms, otherwise), s) && fresh(s.repr - old(s.repr))
    ensures ok && InBounds(env, Union(boolTag, arms, otherwise), v) ==>
              Holds(env, Union(boolTag, arms, otherwise), s, v)
    ensures ok <==> Marshals(env, Union(boolTag, arms, otherwise), v)
    ensures ok <==> Encode(env, Union(boolTag, arms, otherwise), v).Wire?
    ensures ok ==> w.out == old(w.out) + Encode(env, Union(boolTag, arms, otherwise), v).out
    decreases v, env.Rank(Union(boolTag, arms, otherwise)), Union(boolTag, arms, otherwise), 0
  {
    hide Put32, EncodeAll, EncodeEach, Marshals;
    MarshalsExactly(env, Union(boolTag, arms, otherwise), v);
    w.Write(Put32(s.w));
    ArmForWellFormed(env, arms, otherwise, s.w);
    var arm := ArmFor(arms, otherwise, s.w);
    if arm.None? {
      ok := false;
    } else if arm.value.Void? {
      ok := true;
    } else {
      ok := MarshalBody(env, arm.value, s, v.body, w);
    }
  }

  /** Marshals what the accessor of the arm returns. */
  method MarshalBody(env: Schema, arm: Type, s: Slot, ghost v: Value, w: Writer) returns (ok: bool)
    requires env.Valid() && env.WellFormed(arm) && BodyTree(env, s)
    requires BodyHolds(env, arm, s, v) && Typed(env, arm, v, false)
    modifies s.repr, w
    ensures RefTree(env, arm, s) && s.dyn == arm && s.w == old(s.w) && fresh(s.repr - old(s.repr))
    ensures ok && InBounds(env, arm, v) ==> Holds(env, arm, s.ref, v)
    ensures ok <==> Encode(env, arm, v).Wire?
    ensures ok ==> w.out == old(w.out) + Encode(env, arm, v).out
    decreases v, env.Rank(arm), arm, 3
  {
    hide Tree, Holds, Typed, Encode, ZeroValue;
    Accessor(env, arm, s);
    ok := MarshalRef(env, arm, s, v, w);
  }

  /** Marshals one part of s and leaves the other parts alone. */
  method MarshalPart(env: Schema, ghost ts: seq<Type>, t: Type, s: Slot, i: nat, ghost v: Value, w: Writer)
    returns (ok: bool)
    requires env.Valid() && (forall j :: 0 <= j < |ts| ==> env.WellFormed(ts[j]))
    requires Parts(env, ts, s) && i < |ts| && t == ts[i]
    requires Holds(env, t, s.kids[i], v) && Typed(env, t, v, false)
    modifies s.repr, w
    ensures Parts(env, ts, s) && fresh(s.repr - old(s.repr))
    ensures s.kids == old(s.kids) && s.len == old(s.len)
    ensures ok && InBounds(env, t, v) ==> Holds(env, t, s.kids[i], v)
    ensures ok <==> Encode(env, t, v).Wire?
    ensures ok ==> w.out == old(w.out) + Encode(env, t, v).out
    ensures forall j, v {:trigger Holds(env, ts[j], s.kids[j], v)} ::
              0 <= j < |ts| && j != i && old(Holds(env, ts[j], s.kids[j], v)) ==> Holds(env, ts[j], s.kids[j], v)
    decreases v, env.Rank(t), t, 2
  {
    hide Tree, Holds, Typed, Encode;
    ok := Marshal(env, t, s.kids[i], v, w);
    s.repr := s.repr + s.kids[i].repr;
  }

  /** As MarshalPart, when all parts have one type. */
  method MarshalElem(env: Schema, e: Type, s: Slot, i: nat, ghost v: Value, w: Writer) returns (ok: bool)
    requires env.Valid() && env.WellFormed(e)
    requires Parts(env, Repeat(e, |s.kids|), s) && i < |s.kids|
    requires Holds(env, e, s.kids[i], v) && Typed(env, e, v, false)
    modifies s.repr, w
    ensures Parts(env, Repeat(e, |s.kids|), s) && fresh(s.repr - old(s.repr))
    ensures s.kids == old(s.kids) && s.len == old(s.len)
    ensures ok && InBounds(env, e, v) ==> Holds(env, e, s.kids[i], v)
    ensures ok <==> Encode(env, e, v).Wire?
    ensures ok ==> w.out == old(w.out) + Encode(env, e, v).out
    ensures forall j, v {:trigger Holds(env, e, s.kids[j], v)} ::
              0 <= j < |s.kids| && j != i && old(Holds(env, e, s.kids[j], v)) ==> Holds(env, e, s.kids[j], v)
    decreases v, env.Rank(e), e, 3
  {
    hide Tree, Holds, Typed, Encode;
    ghost var ts := Repeat(e, |s.kids|);
    ok := MarshalPart(env, ts, e, s, i, v, w);
    forall j, v | 0 <= j < |s.kids| && j != i && old(Holds(env, e, s.kids[j], v))
      ensures Holds(env, e, s.kids[j], v)
    {
      assert old(Holds(env, ts[j], s.kids[j], v));
      assert Holds(env, ts[j], s.kids[j], v);
    }
  }

  method MarshalAll(env: Schema, e: Type, s: Slot, n: nat, ghost vs: seq<Value>, w: Writer) returns (ok: bool)
    requires env.Valid() && env.WellFormed(e) && Parts(env, Repeat(e, |s.kids|), s)
    requires n == |vs| <= |s.kids|
    requires forall i :: 0 <= i < n ==> Holds(env, e, s.kids[i], vs[i]) && Typed(env, e, vs[i], false)
    modifies s.repr, w
    ensures Parts(env, Repeat(e, |s.kids|), s) && fresh(s.repr - old(s.repr))
    ensures s.kids == old(s.kids) && s.len == old(s.len)
    ensures ok ==> forall i :: 0 <= i < n && InBounds(env, e, vs[i]) ==> Holds(env, e, s.kids[i], vs[i])
    ensures ok <==> EncodeAll(env, e, vs).Wire?
    ensures ok ==> w.out == old(w.out) + EncodeAll(env, e, vs).out
    decreases vs, 1
  {
    hide Tree, Holds, Typed, Encode;
    ghost var acc: seq<byte> := [];
    assert vs[0..] == vs;
    ThenNothing(EncodeAll(env, e, vs));
    for i := 0 to n
      invariant Parts(env, Repeat(e, |s.kids|), s) && fresh(s.repr - old(s.repr))
      invariant s.kids == old(s.kids) && s.len == old(s.len)
      invariant w.out == old(w.out) + acc
      invariant EncodeAll(env, e, vs) == Then(Wire(acc), EncodeAll(env, e, vs[i..]))
      invariant forall j :: 0 <= j < n && (i <= j || InBounds(env, e, vs[j])) ==> Holds(env, e, s.kids[j], vs[j])
    {
      assert vs[i..][1..] == vs[i + 1..];
      ghost var out := Encode(env, e, vs[i]);
      ok := MarshalElem(env, e, s, i, vs[i], w);
      if !ok { return; }
      ThenAssociative(acc, out.out, EncodeAll(env, e, vs[i + 1..]));
      acc := acc + out.out;
    }
    ok := true;
  }

  method MarshalEach(env: Schema, fs: seq<Type>, s: Slot, ghost vs: seq<Value>, w: Writer) returns (ok: bool)
    requires env.Valid() && (forall i :: 0 <= i < |fs| ==> env.WellFormed(fs[i])) && Parts(env, fs, s)
    requires |vs| == |fs|
    requires forall i :: 0 <= i < |fs| ==> Holds(env, fs[i], s.kids[i], vs[i]) && Typed(env, fs[i], vs[i], false)
    modifies s.repr, w
    ensures Parts(env, fs, s) && fresh(s.repr - old(s.repr))
    ensures ok ==> forall i :: 0 <= i < |fs| && InBounds(env, fs[i], vs[i]) ==> Holds(env, fs[i], s.kids[i], vs[i])
    ensures ok <==> EncodeEach(env, fs, vs).Wire?
    ensures ok ==> w.out == old(w.out) + EncodeEach(env, fs, vs).out
    decreases vs, 1
  {
    hide Tree, Holds, Typed, Encode;
    ghost var acc: seq<byte> := [];
    assert vs[0..] == vs && fs[0..] == fs;
    ThenNothing(EncodeEach(env, fs, vs));
    for i := 0 to |fs|
      invariant Parts(env, fs, s) && fresh(s.repr - old(s.repr))
      invariant w.out == old(w.out) + acc
      invariant EncodeEach(env, fs, vs) == Then(Wire(acc), EncodeEach(env, fs[i..], vs[i..]))
      invariant forall j :: 0 <= j < |fs| && (i <= j || InBounds(env, fs[j], vs[j])) ==>
                  Holds(env, fs[j], s.kids[j], vs[j])
    {
      assert vs[i..][1..] == vs[i + 1..] && fs[i..][1..] == fs[i + 1..];
      ghost var out := Encode(env, fs[i], vs[i]);
      ok := MarshalPart(env, fs, fs[i], s, i, vs[i], w);
      if !ok { return; }
      ThenAssociative(acc, out.out, EncodeEach(env, fs[i + 1..], vs[i + 1..]));
      acc := acc + out.out;
    }
    ok := true;
  }

  lemma ThenNothing(r: Encoded)
    ensures Then(Wire([]), r) == r
  {
    if r.Wire? { assert [] + r.out == r.out; }
  }

  lemma ThenAssociative(a: seq<byte>, b: seq<byte>, r: Encoded)
    ensures Then(Wire(a), Then(Wire(b), r)) == Then(Wire(a + b), r)
  {
    if r.Wire? { assert a + (b + r.out) == a + b + r.out; }
  }

  /** Marshaling one variable and unmarshaling the octets into any other of the same type
      leaves the second holding what the first holds, and nothing unread. */
  method Transfer(env: Schema, t: Type, from: Slot, to: Slot, ghost v: Value) returns (ok: bool)
    requires env.Valid() && env.WellFormed(t) && Tree(env, t, from) && Tree(env, t, to)
    requires Holds(env, t, from, v) && InBounds(env, t, v) && from.repr !! to.repr
    modifies from.repr, to.repr
    ensures ok && Tree(env, t, from) && Tree(env, t, to)
    ensures Holds(env, t, from, v) && Holds(env, t, to, v)
  {
    hide Holds, Typed, Encode, Decode;
    InBoundsTyped(env, t, v);
    var w := new Writer();
    RoundTrip(env, t, v, []);
    ok := Marshal(env, t, from, v, w);
    var r := new Reader(w.out);
    assert w.out == Encode(env, t, v).out + [];
    var end := Unmarshal(env, t, to, r);
    ok := end.Done?;
  }
}
