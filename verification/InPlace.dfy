/** Unmarshaling into existing Go variables. A destination is a tree of variables that may
    hold anything: elements past the length of a slice, old pointees, a union body that
    belongs to another arm. */
module InPlace {
  import opened Bytes
  import opened Schema
  import opened Codec
  import opened Vectors

  /** A bytes.Buffer being read. */
  class Reader {
    var rest: seq<byte>

    constructor (b: seq<byte>)
      ensures rest == b
    {
      rest := b;
    }

    method Word() returns (r: Decoded<u32>)
      modifies this
      ensures r == Got32(old(rest))
      ensures r.Got? ==> rest == r.rest
    {
      r := Got32(rest);
      if r.Got? { rest := r.rest; }
    }

    method Flag() returns (r: Decoded<bool>)
      modifies this
      ensures r == GotFlag(old(rest))
      ensures r.Got? ==> rest == r.rest
    {
      var w := Word();
      if !w.Got? {
        r := Fail(w);
      } else if w.v <= 1 {
        r := Got(w.v == 1, rest);
      } else {
        r := Bad;
      }
    }

    method Double() returns (r: Decoded<u64>)
      modifies this
      ensures r == Got64(old(rest))
      ensures r.Got? ==> rest == r.rest
    {
      r := Got64(rest);
      if r.Got? { rest := r.rest; }
    }

    method Padded(n: nat) returns (r: Decoded<seq<byte>>)
      requires n <= |rest|
      modifies this
      ensures r == GotPadded(n, old(rest))
      ensures r.Got? ==> rest == r.rest
    {
      r := GotPadded(n, rest);
      if r.Got? { rest := r.rest; }
    }

    method Bytes(n: nat) returns (r: Decoded<seq<byte>>)
      modifies this
      ensures r == GotBytes(n, old(rest))
      ensures r.Got? ==> rest == r.rest
    {
      if |rest| < n {
        r := Crash;
      } else {
        r := Padded(n);
      }
    }

    method VarBytes(bound: u32) returns (r: Decoded<seq<byte>>)
      modifies this
      ensures r == GotVarBytes(bound, old(rest))
      ensures r.Got? ==> rest == r.rest
    {
      var n := Word();
      if !n.Got? {
        r := Fail(n);
      } else if n.v <= bound && n.v <= |rest| {
        r := Padded(n.v);
      } else {
        r := Bad;
      }
    }
  }

  /** A Go variable. Which fields matter depends on its type: `kids` are struct fields, array
      elements or a slice's whole backing array, of which the first `len` are in the slice;
      `ref` is a pointee or the body in a union's interface field, `dyn` that body's type. */
  class Slot {
    var b: bool
    var w: u32
    var d: u64
    var bytes: seq<byte>
    var kids: seq<Slot>
    var len: nat
    var ref: Slot?
    var dyn: Type
    ghost var repr: set<Slot>

    constructor ()
      ensures repr == {this} && kids == [] && len == 0 && ref == null && w == 0 && !b && d == 0 && bytes == []
    {
      b, w, d, bytes := false, 0, 0, [];
      kids, len, ref, dyn := [], 0, null, Void;
      repr := {this};
    }
  }

  ghost predicate Owns(s: Slot, k: Slot)
    reads s, k
  {
    k in k.repr && k.repr <= s.repr && s !in k.repr
  }

  /** The parts of s belong to s and to no other part. */
  ghost predicate Forest(s: Slot)
    reads s, s.repr
  {
    && (forall i :: 0 <= i < |s.kids| ==> s.kids[i] in s.repr && Owns(s, s.kids[i]))
    && (forall i, j :: 0 <= i < j < |s.kids| ==> s.kids[i].repr !! s.kids[j].repr)
  }

  /** s is a variable of type t whose parts are shared with nothing. Bounds do not matter, nor
      what the variables hold. */
  ghost predicate Tree(env: Schema, t: Type, s: Slot)
    requires env.Valid() && env.WellFormed(t)
    reads s, s.repr
    decreases s.repr, 1, env.Rank(t), t
  {
    && s in s.repr
    && match t
       case Ptr(e) => s.ref != null ==> s.ref in s.repr && Owns(s, s.ref) && Tree(env, e, s.ref)
       case Vec(e, _) => s.len <= |s.kids| && Parts(env, Repeat(e, |s.kids|), s)
       case Arr(e, n) => Parts(env, Repeat(e, n), s)
       case Struct(fs) => Parts(env, fs, s)
       case Union(_, _, _) =>
         s.ref != null ==>
           s.ref in s.repr && Owns(s, s.ref) && env.WellFormed(s.dyn) && Tree(env, s.dyn, s.ref)
       case Named(n) => Tree(env, env.defs[n], s)
       case _ => true
  }

  /** The parts of s have the types ts, are trees and share nothing. */
  ghost predicate Parts(env: Schema, ts: seq<Type>, s: Slot)
    requires env.Valid() && forall i :: 0 <= i < |ts| ==> env.WellFormed(ts[i])
    reads s, s.repr
    decreases s.repr, 0
  {
    && s in s.repr && |s.kids| == |ts| && Forest(s)
    && forall i :: 0 <= i < |ts| ==> Tree(env, ts[i], s.kids[i])
  }

  function Repeat(t: Type, n: nat): (ts: seq<Type>)
    ensures |ts| == n && forall i :: 0 <= i < n ==> ts[i] == t
  {
    seq(n, _ => t)
  }

  /** v is what a reader of the variable sees. */
  ghost predicate Holds(env: Schema, t: Type, s: Slot, v: Value)
    requires env.Valid() && env.WellFormed(t) && Tree(env, t, s)
    reads s, s.repr
    decreases v, env.Rank(t), t
  {
    match t
    case Void => v.VVoid?
    case Bool => v == VBool(s.b)
    case Num32(_) => v == V32(s.w)
    case Num64(_) => v == V64(s.d)
    case Str(_) => v == VBytes(s.bytes)
    case VarOpaque(_) => v == VBytes(s.bytes)
    case Opaque(_) => v == VBytes(s.bytes)
    case Ptr(e) => if s.ref == null then v.VNil? else v.VPtr? && Holds(env, e, s.ref, v.target)
    case Vec(e, _) =>
      && assert Parts(env, Repeat(e, |s.kids|), s);
         v.VSeq? && |v.elems| == s.len
      && forall i :: 0 <= i < s.len ==> Holds(env, e, s.kids[i], v.elems[i])
    case Arr(e, n) =>
      && assert Parts(env, Repeat(e, n), s);
         v.VSeq? && |v.elems| == n
      && forall i :: 0 <= i < n ==> Holds(env, e, s.kids[i], v.elems[i])
    case Struct(fs) =>
      && assert Parts(env, fs, s);
         v.VSeq? && |v.elems| == |fs|
      && forall i :: 0 <= i < |fs| ==> Holds(env, fs[i], s.kids[i], v.elems[i])
    case Union(_, arms, otherwise) =>
      && v.VUnion? && v.tag == s.w
      && (ArmForWellFormed(env, arms, otherwise, v.tag);
          match ArmFor(arms, otherwise, v.tag)
          case None => v.body.VVoid?
          case Some(arm) =>
            if arm.Void? then v.body.VVoid?
            else if Made(s, arm) then
              SameGoType(env, s.dyn, arm, s.ref);
              Holds(env, arm, s.ref, v.body)
            else ZeroValue(env, arm, v.body))
    case Named(n) => Holds(env, env.defs[n], s, v)
  }

  /** The body of the union is one that the accessor of the arm returns; for any other it makes
      a zero body. */
  ghost predicate Made(s: Slot, arm: Type)
    reads s
  {
    s.ref != null && GoType(s.dyn) == GoType(arm)
  }

  ghost predicate BodyTree(env: Schema, s: Slot)
    requires env.Valid()
    reads s, s.repr
  {
    s in s.repr && (s.ref != null ==> env.WellFormed(s.dyn) && RefTree(env, s.dyn, s))
  }

  /** v is what the accessor of the arm returns. */
  ghost predicate BodyHolds(env: Schema, arm: Type, s: Slot, v: Value)
    requires env.Valid() && env.WellFormed(arm) && BodyTree(env, s)
    reads s, s.repr
  {
    if Made(s, arm) then
      SameGoType(env, s.dyn, arm, s.ref);
      Holds(env, arm, s.ref, v)
    else ZeroValue(env, arm, v)
  }

  ghost predicate HoldsZero(env: Schema, t: Type, s: Slot)
    requires env.Valid() && env.WellFormed(t) && Tree(env, t, s)
    reads s, s.repr
  {
    forall v :: ZeroValue(env, t, v) ==> Holds(env, t, s, v)
  }

  /** What `var zero T` or `new(T)` allocates. */
  method NewZero(env: Schema, t: Type) returns (s: Slot)
    requires env.Valid() && env.WellFormed(t)
    ensures Tree(env, t, s) && fresh(s.repr) && HoldsZero(env, t, s)
    decreases env.Rank(t), t, 1
  {
    match t
    case Struct(fs) => s := NewStruct(env, fs);
    case Arr(e, n) => s := NewArr(env, e, n);
    case Named(n) => s := NewZero(env, env.defs[n]);
    case Opaque(n) =>
      s := new Slot();
      s.bytes := Zeros(n);
    case _ => s := new Slot();
  }

  method NewStruct(env: Schema, fs: seq<Type>) returns (s: Slot)
    requires env.Valid() && forall i :: 0 <= i < |fs| ==> env.WellFormed(fs[i])
    ensures Parts(env, fs, s) && fresh(s.repr)
    ensures forall i :: 0 <= i < |fs| ==> HoldsZero(env, fs[i], s.kids[i])
    decreases env.RankAll(fs), fs, 0
  {
    hide Tree, HoldsZero;
    s := new Slot();
    RankField(env, fs);
    for i := 0 to |fs|
      invariant fresh(s.repr) && Parts(env, fs[..i], s)
      invariant forall j :: 0 <= j < i ==> HoldsZero(env, fs[j], s.kids[j])
    {
      var k := NewZero(env, fs[i]);
      Grow(env, fs[..i], fs[i], s, k);
      assert fs[..i] + [fs[i]] == fs[..i + 1];
    }
    assert fs[..|fs|] == fs;
  }

  method NewArr(env: Schema, e: Type, n: nat) returns (s: Slot)
    requires env.Valid() && env.WellFormed(e)
    ensures Parts(env, Repeat(e, n), s) && fresh(s.repr)
    ensures forall i :: 0 <= i < n ==> HoldsZero(env, e, s.kids[i])
    decreases env.Rank(e), e, 2
  {
    hide Tree, HoldsZero;
    s := new Slot();
    for i := 0 to n
      invariant fresh(s.repr) && Parts(env, Repeat(e, i), s)
      invariant forall j :: 0 <= j < i ==> HoldsZero(env, e, s.kids[j])
    {
      var k := NewZero(env, e);
      Grow(env, Repeat(e, i), e, s, k);
      assert Repeat(e, i) + [e] == Repeat(e, i + 1);
    }
  }

  /** Appends k, which nothing else refers to, to the parts of s. */
  method Grow(env: Schema, ghost ts: seq<Type>, ghost t: Type, s: Slot, k: Slot)
    requires env.Valid() && (forall i :: 0 <= i < |ts| ==> env.WellFormed(ts[i])) && env.WellFormed(t)
    requires Parts(env, ts, s) && Tree(env, t, k) && k.repr !! s.repr
    modifies s`kids, s`repr
    ensures s.kids == old(s.kids) + [k] && s.repr == old(s.repr) + k.repr
    ensures Parts(env, ts + [t], s)
  {
    s.repr := s.repr + k.repr;
    s.kids := s.kids + [k];
  }

  /** Unmarshals into one part of s and leaves the other parts alone. */
  method UnmarshalPart(env: Schema, ghost ts: seq<Type>, t: Type, s: Slot, i: nat, r: Reader) returns (end: Ending)
    requires env.Valid() && (forall j :: 0 <= j < |ts| ==> env.WellFormed(ts[j]))
    requires Parts(env, ts, s) && i < |ts| && t == ts[i]
    modifies s.repr, r
    ensures Parts(env, ts, s) && fresh(s.repr - old(s.repr))
    ensures s.kids == old(s.kids) && s.len == old(s.len)
    ensures end == EndingOf(Decode(env, t, old(r.rest)))
    ensures end.Done? ==>
              && Holds(env, t, s.kids[i], Decode(env, t, old(r.rest)).v)
              && r.rest == Decode(env, t, old(r.rest)).rest
    ensures forall j, v {:trigger Holds(env, ts[j], s.kids[j], v)} ::
              0 <= j < |ts| && j != i && old(Holds(env, ts[j], s.kids[j], v)) ==> Holds(env, ts[j], s.kids[j], v)
    decreases |r.rest|, env.Rank(t), t, 2
  {
    hide Decode, Tree, Holds;
    end := Unmarshal(env, t, s.kids[i], r);
    s.repr := s.repr + s.kids[i].repr;
  }

  /** As UnmarshalPart, when all parts have one type. */
  method UnmarshalElem(env: Schema, e: Type, s: Slot, i: nat, r: Reader) returns (end: Ending)
    requires env.Valid() && env.WellFormed(e)
    requires Parts(env, Repeat(e, |s.kids|), s) && i < |s.kids|
    modifies s.repr, r
    ensures Parts(env, Repeat(e, |s.kids|), s) && fresh(s.repr - old(s.repr))
    ensures s.kids == old(s.kids) && s.len == old(s.len)
    ensures end == EndingOf(Decode(env, e, old(r.rest)))
    ensures end.Done? ==>
              && Holds(env, e, s.kids[i], Decode(env, e, old(r.rest)).v)
              && r.rest == Decode(env, e, old(r.rest)).rest
    ensures forall j, v {:trigger Holds(env, e, s.kids[j], v)} ::
              0 <= j < |s.kids| && j != i && old(Holds(env, e, s.kids[j], v)) ==> Holds(env, e, s.kids[j], v)
    decreases |r.rest|, env.Rank(e), e, 3
  {
    hide Decode, Tree, Holds;
    ghost var ts := Repeat(e, |s.kids|);
    end := UnmarshalPart(env, ts, e, s, i, r);
    forall j, v | 0 <= j < |s.kids| && j != i && old(Holds(env, e, s.kids[j], v))
      ensures Holds(env, e, s.kids[j], v)
    {
      assert old(Holds(env, ts[j], s.kids[j], v));
      assert Holds(env, ts[j], s.kids[j], v);
    }
  }

  /** The contract of unmarshaling: the outcome, the value left in s and the input left over
      are those of Decode, whatever s held before. */
  method Unmarshal(env: Schema, t: Type, s: Slot, r: Reader) returns (end: Ending)
    requires env.Valid() && env.WellFormed(t) && Tree(env, t, s)
    modifies s.repr, r
    ensures Tree(env, t, s) && fresh(s.repr - old(s.repr))
    ensures end == EndingOf(Decode(env, t, old(r.rest)))
    ensures end.Done? ==>
              && Holds(env, t, s, Decode(env, t, old(r.rest)).v)
              && r.rest == Decode(env, t, old(r.rest)).rest
    decreases |r.rest|, env.Rank(t), t, 1
  {
    match t
    case Ptr(e) => end := UnmarshalPtr(env, e, s, r);
    case Vec(e, bound) => end := UnmarshalVec(env, e, bound, s, r);
    case Arr(e, n) => end := UnmarshalArr(env, e, n, s, r);
    case Struct(fs) => end := UnmarshalFields(env, fs, s, r);
    case Union(boolTag, arms, otherwise) => end := UnmarshalUnion(env, boolTag, arms, otherwise, s, r);
    case Named(n) => end := Unmarshal(env, env.defs[n], s, r);
    case _ => end := UnmarshalLeaf(env, t, s, r);
  }

  method UnmarshalLeaf(env: Schema, t: Type, s: Slot, r: Reader) returns (end: Ending)
    requires env.Valid() && Leaf(t) && Tree(env, t, s)
    modifies s, r
    ensures Tree(env, t, s) && s.repr == old(s.repr)
    ensures end == EndingOf(Decode(env, t, old(r.rest)))
    ensures end.Done? ==>
              && Holds(env, t, s, Decode(env, t, old(r.rest)).v)
              && r.rest == Decode(env, t, old(r.rest)).rest
  {
    hide Got32, Got64, GotFlag, GotBytes, GotVarBytes;
    match t
    case Void => end := Done;
    case Bool =>
      var f := r.Flag();
      end := EndingOf(f);
      if f.Got? { s.b := f.v; }
    case Num32(_) =>
      var w := r.Word();
      end := EndingOf(w);
      if w.Got? { s.w := w.v; }
    case Num64(_) =>
      var d := r.Double();
      end := EndingOf(d);
      if d.Got? { s.d := d.v; }
    case Str(bound) =>
      var bs := r.VarBytes(bound);
      end := EndingOf(bs);
      if bs.Got? { s.bytes := bs.v; }
    case VarOpaque(bound) =>
      var bs := r.VarBytes(bound);
      end := EndingOf(bs);
      if bs.Got? { s.bytes := bs.v; }
    case Opaque(n) =>
      var bs := r.Bytes(n);
      end := EndingOf(bs);
      if bs.Got? { s.bytes := bs.v; }
  }

  /** The present flag keeps an old pointee if there is one; the value goes into it. */
  method UnmarshalPtr(env: Schema, e: Type, s: Slot, r: Reader) returns (end: Ending)
    requires env.Valid() && env.WellFormed(e) && Tree(env, Ptr(e), s)
    modifies s.repr, r
    ensures Tree(env, Ptr(e), s) && fresh(s.repr - old(s.repr))
    ensures end == EndingOf(Decode(env, Ptr(e), old(r.rest)))
    ensures end.Done? ==>
              && Holds(env, Ptr(e), s, Decode(env, Ptr(e), old(r.rest)).v)
              && r.rest == Decode(env, Ptr(e), old(r.rest)).rest
    ensures old(s.ref) != null && s.ref != null ==> s.ref == old(s.ref)
    decreases |r.rest|, env.Rank(Ptr(e)), Ptr(e), 0
  {
    var f := r.Flag();
    if !f.Got? {
      end := EndingOf(f);
    } else if !f.v {
      s.ref := null;
      end := Done;
    } else {
      SetPresent(env, e, s);
      end := UnmarshalRef(env, e, s, r);
    }
  }

  /** A flag of one: a new zero value if there is no pointee. */
  method SetPresent(env: Schema, e: Type, s: Slot)
    requires env.Valid() && env.WellFormed(e) && Tree(env, Ptr(e), s)
    modifies s
    ensures RefTree(env, e, s) && fresh(s.repr - old(s.repr))
    ensures if old(s.ref) != null then s.ref == old(s.ref) && s.repr == old(s.repr)
            else fresh(s.ref.repr) && HoldsZero(env, e, s.ref)
  {
    if s.ref == null {
      var k := NewZero(env, e);
      s.ref := k;
      s.repr := s.repr + k.repr;
    }
  }

  ghost predicate RefTree(env: Schema, t: Type, s: Slot)
    requires env.Valid() && env.WellFormed(t)
    reads s, s.repr
  {
    s in s.repr && s.ref != null && s.ref in s.repr && Owns(s, s.ref) && Tree(env, t, s.ref)
  }

  /** Unmarshals into what s refers to. */
  method UnmarshalRef(env: Schema, t: Type, s: Slot, r: Reader) returns (end: Ending)
    requires env.Valid() && env.WellFormed(t) && RefTree(env, t, s)
    modifies s.repr, r
    ensures RefTree(env, t, s) && fresh(s.repr - old(s.repr))
    ensures s.ref == old(s.ref) && s.w == old(s.w) && s.dyn == old(s.dyn)
    ensures end == EndingOf(Decode(env, t, old(r.rest)))
    ensures end.Done? ==>
              && Holds(env, t, s.ref, Decode(env, t, old(r.rest)).v)
              && r.rest == Decode(env, t, old(r.rest)).rest
    decreases |r.rest|, env.Rank(t), t, 2
  {
    hide Decode, Tree, Holds;
    end := Unmarshal(env, t, s.ref, r);
    s.repr := s.repr + s.ref.repr;
  }

  /** The Go type of a declaration: bounds are not part of it. */
  function GoType(t: Type): Type {
    match t
    case Str(_) => Str(0)
    case VarOpaque(_) => VarOpaque(0)
    case Ptr(e) => Ptr(GoType(e))
    case Vec(e, _) => Vec(GoType(e), 0)
    case Arr(e, n) => Arr(GoType(e), n)
    case _ => t
  }

  /** Types of one shape: the same but for the bounds of strings, opaque data and slices. */
  predicate SameShape(t: Type, t': Type) {
    match t
    case Str(_) => t'.Str?
    case VarOpaque(_) => t'.VarOpaque?
    case Ptr(e) => t'.Ptr? && SameShape(e, t'.elem)
    case Vec(e, _) => t'.Vec? && SameShape(e, t'.elem)
    case Arr(e, n) => t'.Arr? && t'.size == n && SameShape(e, t'.elem)
    case _ => t == t'
  }

  lemma {:induction false} GoTypesAgree(t: Type, t': Type)
    ensures GoType(t) == GoType(t') <==> SameShape(t, t')
    decreases t
  {
    match t
    case Ptr(e) => if t'.Ptr? { GoTypesAgree(e, t'.elem); }
    case Vec(e, _) => if t'.Vec? { GoTypesAgree(e, t'.elem); }
    case Arr(e, _) => if t'.Arr? { GoTypesAgree(e, t'.elem); }
    case _ =>
  }

  lemma {:induction false} SameGoType(env: Schema, t: Type, t': Type, s: Slot)
    requires env.Valid() && env.WellFormed(t) && env.WellFormed(t')
    requires GoType(t) == GoType(t') && Tree(env, t, s)
    ensures Tree(env, t', s)
    decreases t
  {
    match t
    case Ptr(e) => if s.ref != null { SameGoType(env, e, t'.elem, s.ref); }
    case Vec(e, _) =>
      assert Parts(env, Repeat(e, |s.kids|), s);
      forall i | 0 <= i < |s.kids| ensures Tree(env, t'.elem, s.kids[i]) {
        SameGoType(env, e, t'.elem, s.kids[i]);
      }
      assert Parts(env, Repeat(t'.elem, |s.kids|), s);
    case Arr(e, n) =>
      assert Parts(env, Repeat(e, n), s);
      forall i | 0 <= i < |s.kids| ensures Tree(env, t'.elem, s.kids[i]) {
        SameGoType(env, e, t'.elem, s.kids[i]);
      }
      assert Parts(env, Repeat(t'.elem, n), s);
    case _ =>
  }

  /** The accessor of the selected arm keeps a body of the same Go type, whichever arm it was
      made for, and replaces any other by a zero body. */
  method Accessor(env: Schema, arm: Type, s: Slot)
    requires env.Valid() && env.WellFormed(arm) && BodyTree(env, s)
    modifies s
    ensures RefTree(env, arm, s) && s.dyn == arm && s.w == old(s.w) && fresh(s.repr - old(s.repr))
    ensures if old(Made(s, arm)) then s.ref == old(s.ref) && s.repr == old(s.repr)
            else fresh(s.ref.repr) && HoldsZero(env, arm, s.ref)
  {
    if s.ref != null && GoType(s.dyn) == GoType(arm) {
      SameGoType(env, s.dyn, arm, s.ref);
    } else {
      var k := NewZero(env, arm);
      s.ref := k;
      s.repr := s.repr + k.repr;
    }
    s.dyn := arm;
  }

  /** The tag, then the arm it selects. A void arm leaves a stale body in place. */
  method UnmarshalUnion(env: Schema, boolTag: bool, arms: seq<Arm>, otherwise: Option<Type>, s: Slot, r: Reader)
    returns (end: Ending)
    requires env.Valid() && env.WellFormed(Union(boolTag, arms, otherwise))
    requires Tree(env, Union(boolTag, arms, otherwise), s)
    modifies s.repr, r
    ensures Tree(env, Union(boolTag, arms, otherwise), s) && fresh(s.repr - old(s.repr))
    ensures end == EndingOf(Decode(env, Union(boolTag, arms, otherwise), old(r.rest)))
    ensures var d := Decode(env, Union(boolTag, arms, otherwise), old(r.rest));
            end.Done? ==> Holds(env, Union(boolTag, arms, otherwise), s, d.v) && r.rest == d.rest
    ensures var arm := ArmFor(arms, otherwise, s.w);
            end.Done? && arm.Some? && (arm.value.Void? || old(Made(s, arm.value))) ==> s.ref == old(s.ref)
    decreases |r.rest|, env.Rank(Union(boolTag, arms, otherwise)), Union(boolTag, arms, otherwise), 0
  {
    var tag := r.Word();
    if !tag.Got? {
      return EndingOf(tag);
    }
    if !TagOk(boolTag, tag.v) {
      return XdrError;
    }
    s.w := tag.v;
    ArmForWellFormed(env, arms, otherwise, tag.v);
    var arm := ArmFor(arms, otherwise, tag.v);
    if arm.None? {
      end := XdrError;
    } else if arm.value.Void? {
      end := Done;
    } else {
      end := UnmarshalBody(env, arm.value, s, r);
    }
  }

  /** Unmarshals into what the accessor of the arm returns. */
  method UnmarshalBody(env: Schema, arm: Type, s: Slot, r: Reader) returns (end: Ending)
    requires env.Valid() && env.WellFormed(arm) && BodyTree(env, s)
    modifies s.repr, r
    ensures RefTree(env, arm, s) && s.dyn == arm && s.w == old(s.w) && fresh(s.repr - old(s.repr))
    ensures old(Made(s, arm)) ==> s.ref == old(s.ref)
    ensures end == EndingOf(Decode(env, arm, old(r.rest)))
    ensures end.Done? ==>
              && Holds(env, arm, s.ref, Decode(env, arm, old(r.rest)).v)
              && r.rest == Decode(env, arm, old(r.rest)).rest
    decreases |r.rest|, env.Rank(arm), arm, 3
  {
    hide Decode, Tree, Holds;
    Accessor(env, arm, s);
    end := UnmarshalRef(env, arm, s, r);
  }

  method UnmarshalArr(env: Schema, e: Type, n: u32, s: Slot, r: Reader) returns (end: Ending)
    requires env.Valid() && env.WellFormed(e) && Parts(env, Repeat(e, n), s)
    modifies s.repr, r
    ensures Parts(env, Repeat(e, n), s) && fresh(s.repr - old(s.repr))
    ensures end == EndingOf(DecodeN(env, e, n, old(r.rest)))
    ensures var d := DecodeN(env, e, n, old(r.rest));
            end.Done? ==> r.rest == d.rest && forall i :: 0 <= i < n ==> Holds(env, e, s.kids[i], d.v[i])
    decreases |r.rest|, env.Rank(e), e, 4
  {
    hide Decode, Tree, Holds;
    ghost var b0 := r.rest;
    ghost var vs: seq<Value> := [];
    PrependNothing(DecodeN(env, e, n, b0));
    for i := 0 to n
      invariant Parts(env, Repeat(e, n), s) && fresh(s.repr - old(s.repr))
      invariant |vs| == i && |r.rest| <= |b0|
      invariant forall j :: 0 <= j < i ==> Holds(env, e, s.kids[j], vs[j])
      invariant DecodeN(env, e, n, b0) == Prepend(vs, DecodeN(env, e, n - i, r.rest))
    {
      DecodeNNext(env, e, n - i, r.rest, vs);
      ghost var d := Decode(env, e, r.rest);
      end := UnmarshalElem(env, e, s, i, r);
      if !end.Done? { return; }
      vs := vs + [d.v];
    }
    end := Done;
  }

  /** SetVecLen: fails past the bound. Within capacity the slice is just re-sliced, stale elements
      and all. Past it the elements move to a new backing array with zero elements behind them. */
  method SetVecLen(env: Schema, e: Type, bound: u32, s: Slot, length: u32) returns (ok: bool)
    requires env.Valid() && env.WellFormed(e)
    requires s.len <= |s.kids| && Parts(env, Repeat(e, |s.kids|), s)
    modifies s
    ensures ok <==> length <= bound
    ensures !ok ==> unchanged(s)
    ensures Parts(env, Repeat(e, |s.kids|), s) && fresh(s.repr - old(s.repr))
    ensures ok ==> s.len == length <= |s.kids| == CapAfter(old(|s.kids|), length, bound)
    ensures s.len <= |s.kids| && s.kids[..old(s.len)] == old(s.kids[..s.len])
    ensures forall j, v {:trigger Holds(env, e, s.kids[j], v)} ::
              0 <= j < old(s.len) && old(Holds(env, e, s.kids[j], v)) ==> Holds(env, e, s.kids[j], v)
    ensures ok ==> if length <= old(|s.kids|) then s.kids == old(s.kids)
                   else forall j :: old(s.len) <= j < |s.kids| ==> fresh(s.kids[j]) && HoldsZero(env, e, s.kids[j])
  {
    hide Tree, Holds, HoldsZero;
    ok := length <= bound;
    if !ok {
      return;
    }
    if length <= |s.kids| {
      s.len := length;
      return;
    }
    var cap := CapAfter(|s.kids|, length, bound);
    s.kids := s.kids[..s.len];
    s.len := length;
    Extend(env, e, s, cap);
  }

  /** Adds zero elements up to a capacity. */
  method Extend(env: Schema, e: Type, s: Slot, cap: nat)
    requires env.Valid() && env.WellFormed(e)
    requires Parts(env, Repeat(e, |s.kids|), s) && |s.kids| <= cap
    modifies s`kids, s`repr
    ensures Parts(env, Repeat(e, |s.kids|), s) && |s.kids| == cap && fresh(s.repr - old(s.repr))
    ensures s.kids[..old(|s.kids|)] == old(s.kids)
    ensures forall j :: old(|s.kids|) <= j < cap ==> fresh(s.kids[j]) && HoldsZero(env, e, s.kids[j])
  {
    hide Tree, Holds, HoldsZero;
    for i := |s.kids| to cap
      invariant |s.kids| == i && fresh(s.repr - old(s.repr))
      invariant Parts(env, Repeat(e, i), s)
      invariant s.kids[..old(|s.kids|)] == old(s.kids)
      invariant forall j :: old(|s.kids|) <= j < i ==> fresh(s.kids[j]) && HoldsZero(env, e, s.kids[j])
    {
      var k := NewZero(env, e);
      Grow(env, Repeat(e, i), e, s, k);
      assert Repeat(e, i) + [e] == Repeat(e, i + 1);
    }
  }

  /** The length, then XdrMarshalN: elements are unmarshaled into what the backing array holds,
      the slice grows one element at a time and is cut to n at the end. */
  method UnmarshalVec(env: Schema, e: Type, bound: u32, s: Slot, r: Reader) returns (end: Ending)
    requires env.Valid() && env.WellFormed(e) && Tree(env, Vec(e, bound), s)
    modifies s.repr, r
    ensures Tree(env, Vec(e, bound), s) && fresh(s.repr - old(s.repr))
    ensures end == EndingOf(Decode(env, Vec(e, bound), old(r.rest)))
    ensures end.Done? ==>
              && Holds(env, Vec(e, bound), s, Decode(env, Vec(e, bound), old(r.rest)).v)
              && r.rest == Decode(env, Vec(e, bound), old(r.rest)).rest
    decreases |r.rest|, env.Rank(Vec(e, bound)), Vec(e, bound), 0
  {
    var n := r.Word();
    if !n.Got? {
      return EndingOf(n);
    }
    if n.v > bound {
      return XdrError;
    }
    assert Parts(env, Repeat(e, |s.kids|), s);
    end := MarshalN(env, e, bound, s, n.v, r);
  }

  method MarshalN(env: Schema, e: Type, bound: u32, s: Slot, n: u32, r: Reader) returns (end: Ending)
    requires env.Valid() && env.WellFormed(e) && n <= bound
    requires s.len <= |s.kids| && Parts(env, Repeat(e, |s.kids|), s)
    modifies s.repr, r
    ensures s.len <= |s.kids| && Parts(env, Repeat(e, |s.kids|), s) && fresh(s.repr - old(s.repr))
    ensures end == EndingOf(DecodeN(env, e, n, old(r.rest)))
    ensures var d := DecodeN(env, e, n, old(r.rest));
            end.Done? ==> r.rest == d.rest && s.len == n && forall i :: 0 <= i < n ==> Holds(env, e, s.kids[i], d.v[i])
    decreases |r.rest|, env.Rank(e), e, 5
  {
    hide Decode, Tree, Holds, HoldsZero, CapAfter;
    ghost var b0 := r.rest;
    ghost var vs: seq<Value> := [];
    PrependNothing(DecodeN(env, e, n, b0));
    for i := 0 to n
      invariant i <= s.len <= |s.kids| && Parts(env, Repeat(e, |s.kids|), s) && fresh(s.repr - old(s.repr))
      invariant |vs| == i && |r.rest| <= |b0|
      invariant forall j :: 0 <= j < i ==> Holds(env, e, s.kids[j], vs[j])
      invariant DecodeN(env, e, n, b0) == Prepend(vs, DecodeN(env, e, n - i, r.rest))
    {
      DecodeNNext(env, e, n - i, r.rest, vs);
      ghost var d := Decode(env, e, r.rest);
      end := MarshalNth(env, e, bound, s, i, r);
      if !end.Done? { return; }
      vs := vs + [d.v];
    }
    Cut(env, e, s, n);
    end := Done;
  }

  /** Cuts the slice to n elements, if it has more. */
  method Cut(env: Schema, ghost e: Type, s: Slot, n: nat)
    requires env.Valid() && env.WellFormed(e) && Parts(env, Repeat(e, |s.kids|), s) && n <= s.len <= |s.kids|
    modifies s`len
    ensures Parts(env, Repeat(e, |s.kids|), s) && s.len == n
    ensures n == old(s.len) ==> unchanged(s)
    ensures forall j, v {:trigger Holds(env, e, s.kids[j], v)} ::
              0 <= j < |s.kids| && old(Holds(env, e, s.kids[j], v)) ==> Holds(env, e, s.kids[j], v)
  {
    hide Tree;
    if n < s.len {
      s.len := n;
    }
  }

  /** One turn of the loop: makes room for the element if the slice ends there, and unmarshals
      it. */
  method MarshalNth(env: Schema, e: Type, bound: u32, s: Slot, i: nat, r: Reader) returns (end: Ending)
    requires env.Valid() && env.WellFormed(e) && i < bound
    requires i <= s.len <= |s.kids| && Parts(env, Repeat(e, |s.kids|), s)
    modifies s.repr, r
    ensures i < s.len <= |s.kids| && Parts(env, Repeat(e, |s.kids|), s) && fresh(s.repr - old(s.repr))
    ensures end == EndingOf(Decode(env, e, old(r.rest)))
    ensures end.Done? ==>
              && Holds(env, e, s.kids[i], Decode(env, e, old(r.rest)).v)
              && r.rest == Decode(env, e, old(r.rest)).rest
    ensures forall j, v {:trigger Holds(env, e, s.kids[j], v)} ::
              0 <= j < i && old(Holds(env, e, s.kids[j], v)) ==> Holds(env, e, s.kids[j], v)
    decreases |r.rest|, env.Rank(e), e, 4
  {
    hide Decode, Tree, Holds, HoldsZero, CapAfter;
    if i >= s.len {
      var grown := SetVecLen(env, e, bound, s, i + 1);
    }
    end := UnmarshalElem(env, e, s, i, r);
  }

  method UnmarshalFields(env: Schema, fs: seq<Type>, s: Slot, r: Reader) returns (end: Ending)
    requires env.Valid() && (forall i :: 0 <= i < |fs| ==> env.WellFormed(fs[i])) && Parts(env, fs, s)
    modifies s.repr, r
    ensures Parts(env, fs, s) && fresh(s.repr - old(s.repr)) 
    ensures end == EndingOf(DecodeEach(env, fs, old(r.rest)))
    ensures var d := DecodeEach(env, fs, old(r.rest));
            end.Done? ==> r.rest == d.rest && forall i :: 0 <= i < |fs| ==> Holds(env, fs[i], s.kids[i], d.v[i])
    decreases |r.rest|, env.RankAll(fs), fs, 0
  {
    hide Decode, Tree, Holds;
    ghost var b0 := r.rest;
    ghost var vs: seq<Value> := [];
    RankField(env, fs);
    assert fs[0..] == fs;
    PrependNothing(DecodeEach(env, fs, b0));
    for i := 0 to |fs|
      invariant Parts(env, fs, s) && fresh(s.repr - old(s.repr))
      invariant |vs| == i && |r.rest| <= |b0|
      invariant forall j :: 0 <= j < i ==> Holds(env, fs[j], s.kids[j], vs[j])
      invariant DecodeEach(env, fs, b0) == Prepend(vs, DecodeEach(env, fs[i..], r.rest))
    {
      DecodeEachNext(env, fs[i..], r.rest, vs);
      assert fs[i..][1..] == fs[i + 1..];
      ghost var d := Decode(env, fs[i], r.rest);
      end := UnmarshalPart(env, fs, fs[i], s, i, r);
      if !end.Done? { return; }
      vs := vs + [d.v];
    }
    end := Done;
  }

  ghost function Prepend(vs: seq<Value>, d: Decoded<seq<Value>>): Decoded<seq<Value>> {
    match d
    case Got(ws, rest) => Got(vs + ws, rest)
    case _ => d
  }

  lemma PrependNothing(d: Decoded<seq<Value>>)
    ensures Prepend([], d) == d
  {
    if d.Got? { assert [] + d.v == d.v; }
  }

  /** One turn of the loop over fields, seen from the values read so far. */
  lemma DecodeEachNext(env: Schema, ts: seq<Type>, b: seq<byte>, vs: seq<Value>)
    requires env.Valid() && (forall i :: 0 <= i < |ts| ==> env.WellFormed(ts[i])) && ts != []
    ensures var d := Decode(env, ts[0], b);
            Prepend(vs, DecodeEach(env, ts, b))
            == if !d.Got? then Fail(d) else Prepend(vs + [d.v], DecodeEach(env, ts[1..], d.rest))
  {
    hide Decode;
    var d := Decode(env, ts[0], b);
    if d.Got? {
      var rest := DecodeEach(env, ts[1..], d.rest);
      if rest.Got? { assert vs + ([d.v] + rest.v) == vs + [d.v] + rest.v; }
    }
  }

  lemma DecodeNNext(env: Schema, t: Type, n: nat, b: seq<byte>, vs: seq<Value>)
    requires env.Valid() && env.WellFormed(t) && n > 0
    ensures var d := Decode(env, t, b);
            Prepend(vs, DecodeN(env, t, n, b))
            == if !d.Got? then Fail(d) else Prepend(vs + [d.v], DecodeN(env, t, n - 1, d.rest))
  {
    hide Decode;
    var d := Decode(env, t, b);
    if d.Got? {
      var rest := DecodeN(env, t, n - 1, d.rest);
      if rest.Got? { assert vs + ([d.v] + rest.v) == vs + [d.v] + rest.v; }
    }
  }

  lemma {:induction false} ZeroOne(env: Schema, t: Type, v: Value, v': Value)
    requires env.Valid() && env.WellFormed(t) && ZeroValue(env, t, v) && ZeroValue(env, t, v')
    ensures v == v'
    decreases v, env.Rank(t), t
  {
    match t
    case Arr(e, n) =>
      forall i | 0 <= i < |v.elems| ensures v.elems[i] == v'.elems[i] {
        ZeroOne(env, e, v.elems[i], v'.elems[i]);
      }
    case Struct(fs) =>
      forall i | 0 <= i < |v.elems| ensures v.elems[i] == v'.elems[i] {
        ZeroOne(env, fs[i], v.elems[i], v'.elems[i]);
      }
    case Union(_, arms, otherwise) =>
      ArmForWellFormed(env, arms, otherwise, 0);
      if ArmFor(arms, otherwise, 0).Some? { ZeroOne(env, ArmFor(arms, otherwise, 0).value, v.body, v'.body); }
    case Named(n) => ZeroOne(env, env.defs[n], v, v');
    case _ =>
  }

  /** A variable holds one value. */
  lemma {:induction false} HoldsOne(env: Schema, t: Type, s: Slot, v: Value, v': Value)
    requires env.Valid() && env.WellFormed(t) && Tree(env, t, s)
    requires Holds(env, t, s, v) && Holds(env, t, s, v')
    ensures v == v'
    decreases v, env.Rank(t), t
  {
    match t
    case Ptr(e) => if s.ref != null { HoldsOne(env, e, s.ref, v.target, v'.target); }
    case Vec(e, _) =>
      assert Parts(env, Repeat(e, |s.kids|), s);
      forall i | 0 <= i < |v.elems| ensures v.elems[i] == v'.elems[i] {
        HoldsOne(env, e, s.kids[i], v.elems[i], v'.elems[i]);
      }
    case Arr(e, n) =>
      assert Parts(env, Repeat(e, n), s);
      forall i | 0 <= i < |v.elems| ensures v.elems[i] == v'.elems[i] {
        HoldsOne(env, e, s.kids[i], v.elems[i], v'.elems[i]);
      }
    case Struct(fs) =>
      assert Parts(env, fs, s);
      forall i | 0 <= i < |v.elems| ensures v.elems[i] == v'.elems[i] {
        HoldsOne(env, fs[i], s.kids[i], v.elems[i], v'.elems[i]);
      }
    case Union(_, arms, otherwise) =>
      ArmForWellFormed(env, arms, otherwise, v.tag);
      var arm := ArmFor(arms, otherwise, v.tag);
      if arm.Some? && !arm.value.Void? {
        if Made(s, arm.value) {
          SameGoType(env, s.dyn, arm.value, s.ref);
          HoldsOne(env, arm.value, s.ref, v.body, v'.body);
        } else {
          ZeroOne(env, arm.value, v.body, v'.body);
        }
      }
    case Named(n) => HoldsOne(env, env.defs[n], s, v, v');
    case _ =>
  }
}
