/** The types that an XDR source file declares, as the compiler represents them, and the Go
    values of those types. Typedefs are Go aliases and are written out; a name stands for a
    struct or union declaration, which is where recursion goes through. */
module Schema {
  import opened Bytes

  /** The Go types that marshal as one 32-bit word with no check (header.go.in, XdrNum32). */
  datatype Kind32 = Int | Uint | Float | Enum(name: string)
  datatype Kind64 = Hyper | Uhyper | Double

  datatype Arm = Arm(cases: seq<u32>, body: Type)

  datatype Type =
    | Void
    | Bool
    | Num32(kind32: Kind32)
    | Num64(kind64: Kind64)
    | Str(bound: u32)
    | VarOpaque(bound: u32)
    | Opaque(size: u32)
    | Ptr(elem: Type)
    | Vec(elem: Type, bound: u32)
    | Arr(elem: Type, size: u32)
    | Struct(fields: seq<Type>)
    | Union(boolTag: bool, arms: seq<Arm>, otherwise: Option<Type>)
    | Named(name: string)

  /** What a reader of the Go value sees: slices up to their length, and of a union only the
      arm its tag selects. Words are bit patterns. */
  datatype Value =
    | VVoid
    | VBool(b: bool)
    | V32(w: u32)
    | V64(d: u64)
    | VBytes(bytes: seq<byte>)
    | VNil
    | VPtr(target: Value)
    | VSeq(elems: seq<Value>)
    | VUnion(tag: u32, body: Value)

  /** `depth` ranks declarations by by-value nesting. It exists because Go rejects a type that
      contains itself other than through a pointer, a slice or an interface. */
  datatype Schema = Schema(defs: map<string, Type>, depth: map<string, nat>) {

    ghost predicate Valid() {
      forall n :: n in defs ==>
        n in depth && WellFormed(defs[n]) && Rank(defs[n]) <= depth[n]
    }

    /** Names are declared and a union's case values are usable and distinct. */
    ghost predicate WellFormed(t: Type)
      decreases t
    {
      match t
      case Ptr(e) => WellFormed(e)
      case Vec(e, _) => WellFormed(e)
      case Arr(e, _) => WellFormed(e)
      case Struct(fs) => forall i :: 0 <= i < |fs| ==> WellFormed(fs[i])
      case Union(_, arms, otherwise) =>
        && (forall i :: 0 <= i < |arms| ==> WellFormed(arms[i].body))
        && (otherwise.Some? ==> WellFormed(otherwise.value))
      case Named(n) => n in defs && n in depth
      case _ => true
    }

    /** How many declarations deep a value of the type nests by value. */
    ghost function Rank(t: Type): nat
      decreases t
    {
      match t
      case Named(n) => if n in depth then depth[n] + 1 else 0
      case Arr(e, _) => Rank(e)
      case Struct(fs) => RankAll(fs)
      case _ => 0
    }

    ghost function RankAll(ts: seq<Type>): nat
      decreases ts
    {
      if ts == [] then 0
      else
        var r, rest := Rank(ts[0]), RankAll(ts[1..]);
        if r < rest then rest else r
    }
  }

  lemma {:induction false} RankField(env: Schema, ts: seq<Type>)
    ensures forall i :: 0 <= i < |ts| ==> env.Rank(ts[i]) <= env.RankAll(ts)
  {
    if ts != [] {
      RankField(env, ts[1..]);
      forall i | 0 < i < |ts| ensures env.Rank(ts[i]) <= env.RankAll(ts) {
        assert ts[i] == ts[1..][i - 1];
      }
    }
  }

  /** The declarations a value of the type contains without a pointer, slice or union between. */
  ghost function ByValue(t: Type): set<string>
    decreases t
  {
    match t
    case Named(n) => {n}
    case Arr(e, _) => ByValue(e)
    case Struct(fs) => set i, n | 0 <= i < |fs| && n in ByValue(fs[i]) :: n
    case _ => {}
  }

  lemma {:induction false} ByValueRank(env: Schema, t: Type, n: string)
    requires env.WellFormed(t) && n in ByValue(t)
    ensures n in env.depth && env.depth[n] < env.Rank(t)
    decreases t
  {
    match t
    case Arr(e, _) => ByValueRank(env, e, n);
    case Struct(fs) =>
      var i :| 0 <= i < |fs| && n in ByValue(fs[i]);
      ByValueRank(env, fs[i], n);
      RankField(env, fs);
    case _ =>
  }

  /** Each declaration contains the next by value. */
  ghost predicate Chain(env: Schema, names: seq<string>) {
    && (forall i :: 0 <= i < |names| ==> names[i] in env.defs)
    && forall i :: 0 < i < |names| ==> names[i] in ByValue(env.defs[names[i - 1]])
  }

  /** Every cycle of declarations passes a present flag, a length or a tag: following
      containment by value alone never comes back. With those consuming four octets each, this
      is why unmarshaling a recursive type ends. */
  lemma {:induction false} EveryCycleConsumes(env: Schema, names: seq<string>)
    requires env.Valid() && Chain(env, names) && |names| > 1
    ensures env.depth[names[|names| - 1]] < env.depth[names[0]]
    ensures names[|names| - 1] != names[0]
  {
    var k := |names| - 1;
    ByValueRank(env, env.defs[names[k - 1]], names[k]);
    if k > 1 {
      EveryCycleConsumes(env, names[..k]);
    }
  }

  /** The arm a tag selects: the body type, Void for a void arm, None when no arm takes it. */
  function ArmFor(arms: seq<Arm>, otherwise: Option<Type>, tag: u32): (r: Option<Type>)
    decreases |arms|
  {
    if arms == [] then otherwise
    else if tag in arms[0].cases then Some(arms[0].body)
    else ArmFor(arms[1..], otherwise, tag)
  }

  lemma {:induction false} ArmForWellFormed(env: Schema, arms: seq<Arm>, otherwise: Option<Type>, tag: u32)
    requires forall i :: 0 <= i < |arms| ==> env.WellFormed(arms[i].body)
    requires otherwise.Some? ==> env.WellFormed(otherwise.value)
    ensures ArmFor(arms, otherwise, tag).Some? ==> env.WellFormed(ArmFor(arms, otherwise, tag).value)
    decreases |arms|
  {
    if arms != [] && tag !in arms[0].cases {
      ArmForWellFormed(env, arms[1..], otherwise, tag);
    }
  }

  predicate TagOk(boolTag: bool, tag: u32) {
    boolTag ==> tag <= 1
  }
}
