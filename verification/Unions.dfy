/** The switches that one union declaration turns into. */
module Unions {
  import opened Bytes
  import opened Schema

  /** A case as written. `known` is what the compiler can resolve it to (get_bound), which it
      cannot for a name from another file. */
  datatype Case = Case(value: u32, known: Option<u32>)

  /** An arm of the declaration. A default arm's own cases are not emitted. */
  datatype Field = Field(cases: seq<Case>, isDefault: bool, name: string, body: Type)

  datatype Decl = Decl(fields: seq<Field>) {
    predicate HasDefault() {
      exists i :: 0 <= i < |fields| && fields[i].isDefault
    }

    /** What the parser and the Go compiler let through: at most one default, every other arm
        with a case, no case value twice. */
    ghost predicate Valid() {
      && fields != []
      && (forall i :: 0 <= i < |fields| && !fields[i].isDefault ==> fields[i].cases != [])
      && (forall i, j :: 0 <= i < j < |fields| ==> !(fields[i].isDefault && fields[j].isDefault))
      && (forall i, j, k, l ::
            (0 <= i < |fields| && 0 <= j < |fields[i].cases| && 0 <= k < |fields| && 0 <= l < |fields[k].cases|
             && fields[i].cases[j].value == fields[k].cases[l].value) ==> i == k && j == l)
      && (forall i, j :: 0 <= i < |fields| && 0 <= j < |fields[i].cases| && fields[i].cases[j].known.Some? ==>
            fields[i].cases[j].known.value == fields[i].cases[j].value)
    }
  }

  predicate Listed(cases: seq<Case>, tag: u32) {
    exists j :: 0 <= j < |cases| && cases[j].value == tag
  }

  // ------------------------------------------------------------------- what is meant

  /** The arm of a tag: the one that lists it, or the default if none does. */
  ghost predicate Selects(d: Decl, tag: u32, i: nat) {
    && i < |d.fields|
    && if d.fields[i].isDefault
       then forall k :: 0 <= k < |d.fields| && !d.fields[k].isDefault ==> !Listed(d.fields[k].cases, tag)
       else Listed(d.fields[i].cases, tag)
  }

  // ------------------------------------------------------------------- what is emitted

  /** A clause of a Go switch. */
  datatype Clause = On(cases: seq<Case>) | Default

  /** Go's switch: the clause taken, wherever the default stands. */
  function Switch(clauses: seq<Clause>, tag: u32): (r: Option<nat>)
    ensures r.Some? ==> r.value < |clauses|
  {
    var i := First(clauses, tag);
    if i < |clauses| then Some(i)
    else
      var k := DefaultOf(clauses);
      if k < |clauses| then Some(k) else None
  }

  function First(clauses: seq<Clause>, tag: u32): (i: nat)
    ensures i <= |clauses|
    ensures i < |clauses| ==> clauses[i].On? && Listed(clauses[i].cases, tag)
    ensures forall k :: 0 <= k < i && clauses[k].On? ==> !Listed(clauses[k].cases, tag)
  {
    if clauses == [] then 0
    else if clauses[0].On? && Listed(clauses[0].cases, tag) then 0
    else 1 + First(clauses[1..], tag)
  }

  function DefaultOf(clauses: seq<Clause>): (i: nat)
    ensures i <= |clauses|
    ensures i < |clauses| ==> clauses[i].Default?
    ensures forall k :: 0 <= k < i ==> !clauses[k].Default?
  {
    if clauses == [] then 0
    else if clauses[0].Default? then 0
    else 1 + DefaultOf(clauses[1..])
  }

  /** The clauses that XdrUnionBody, XdrUnionBodyName and XdrRecurse all emit, one per arm. */
  function Clauses(d: Decl): (cs: seq<Clause>)
    ensures |cs| == |d.fields|
    ensures forall i :: 0 <= i < |cs| ==> cs[i] == if d.fields[i].isDefault then Default else On(d.fields[i].cases)
  {
    seq(|d.fields|, i requires 0 <= i < |d.fields| =>
      if d.fields[i].isDefault then Default else On(d.fields[i].cases))
  }

  /** The cases of all arms but the default, as the accessor of the default and XdrValid list
      them. */
  function AllCases(fields: seq<Field>): (cs: seq<Case>)
    ensures forall tag :: Listed(cs, tag) <==>
              exists k :: 0 <= k < |fields| && !fields[k].isDefault && Listed(fields[k].cases, tag)
  {
    if fields == [] then []
    else
      var rest := AllCases(fields[1..]);
      var cs := if fields[0].isDefault then rest else fields[0].cases + rest;
      assert forall tag ::
        Listed(cs, tag) <==> (!fields[0].isDefault && Listed(fields[0].cases, tag)) || Listed(rest, tag) by {
        forall tag ensures Listed(fields[0].cases + rest, tag) <==> Listed(fields[0].cases, tag) || Listed(rest, tag) {
          ListedConcat(fields[0].cases, rest, tag);
        }
      }
      cs
  }

  lemma ListedConcat(a: seq<Case>, b: seq<Case>, tag: u32)
    ensures Listed(a + b, tag) <==> Listed(a, tag) || Listed(b, tag)
  {
    if Listed(a, tag) {
      var j :| 0 <= j < |a| && a[j].value == tag;
      assert (a + b)[j].value == tag;
    }
    if Listed(b, tag) {
      var j :| 0 <= j < |b| && b[j].value == tag;
      assert (a + b)[|a| + j].value == tag;
    }
  }

  /** Whether the accessor of arm i returns rather than panics. */
  predicate AccessorReturns(d: Decl, i: nat, tag: u32)
    requires i < |d.fields|
  {
    var f := d.fields[i];
    if f.isDefault && |d.fields| > 1 then Switch([On(AllCases(d.fields)), Default], tag) == Some(1)
    else if f.isDefault then Switch([Default], tag) == Some(0)
    else Switch([On(f.cases), Default], tag) == Some(0)
  }

  predicate XdrValid(d: Decl, tag: u32) {
    d.HasDefault() || Switch([On(AllCases(d.fields))], tag) == Some(0)
  }

  /** The arm whose body XdrUnionBody returns, whose name XdrUnionBodyName returns and which
      XdrRecurse marshals; None where XdrRecurse falls through to its panic. */
  function Selected(d: Decl, tag: u32): Option<nat> {
    Switch(Clauses(d), tag)
  }

  lemma SelectedIs(d: Decl, tag: u32, i: nat)
    requires d.Valid()
    ensures Selected(d, tag) == Some(i) <==> Selects(d, tag, i)
  {
    var cs := Clauses(d);
    assert First(cs, tag) <= |cs| && DefaultOf(cs) <= |cs|;
  }

  lemma ValidSelects(d: Decl, tag: u32)
    requires d.Valid()
    ensures XdrValid(d, tag) <==> Selected(d, tag).Some?
  {
    var cs := Clauses(d);
    SwitchTwo(AllCases(d.fields), tag);
    if XdrValid(d, tag) {
      if d.HasDefault() {
        var i :| 0 <= i < |d.fields| && d.fields[i].isDefault;
        assert cs[i].Default?;
      } else {
        var k :| 0 <= k < |d.fields| && !d.fields[k].isDefault && Listed(d.fields[k].cases, tag);
        assert cs[k].On?;
      }
    } else {
      assert First(cs, tag) == |cs| && DefaultOf(cs) == |cs|;
    }
  }

  lemma SwitchTwo(cases: seq<Case>, tag: u32)
    ensures Switch([On(cases), Default], tag) == Some(if Listed(cases, tag) then 0 else 1)
    ensures Switch([Default], tag) == Some(0)
    ensures Switch([On(cases)], tag) == if Listed(cases, tag) then Some(0) else None
  {
  }

  /** Every emitted switch agrees: the tag selects at most one arm, the accessor of an arm
      returns exactly when XdrUnionBody, XdrUnionBodyName and XdrRecurse take that arm, and
      XdrRecurse rejects the tag exactly when XdrValid is false. */
  lemma Coherent(d: Decl, tag: u32)
    requires d.Valid()
    ensures forall i :: 0 <= i < |d.fields| ==> (AccessorReturns(d, i, tag) <==> Selected(d, tag) == Some(i))
    ensures XdrValid(d, tag) <==> Selected(d, tag).Some?
  {
    hide Switch, AllCases, Selected, Listed;
    SwitchTwo(AllCases(d.fields), tag);
    ValidSelects(d, tag);
    forall i | 0 <= i < |d.fields| ensures AccessorReturns(d, i, tag) <==> Selected(d, tag) == Some(i) {
      SelectedIs(d, tag, i);
      SwitchTwo(d.fields[i].cases, tag);
    }
  }

  // ------------------------------------------------------------------- XdrInitialize

  /** XdrInitialize is not emitted when some case is seen to be zero. */
  predicate SeenZero(d: Decl) {
    exists i, j :: 0 <= i < |d.fields| && 0 <= j < |d.fields[i].cases| && d.fields[i].cases[j].known == Some(0)
  }

  /** The tag of a zero value after XdrInitialize where it is emitted. */
  function InitialTag(d: Decl): u32
    requires d.fields != [] && (!d.fields[0].isDefault ==> d.fields[0].cases != [])
  {
    if d.HasDefault() || SeenZero(d) || Listed(AllCases(d.fields), 0) then 0
    else
      assert !d.fields[0].isDefault;
      d.fields[0].cases[0].value
  }

  /** A zero value is valid once initialized, and already valid where nothing is emitted. */
  lemma InitialValid(d: Decl)
    requires d.Valid()
    ensures XdrValid(d, InitialTag(d))
    ensures SeenZero(d) ==> XdrValid(d, 0)
    ensures InitialTag(d) == if XdrValid(d, 0) then 0 else d.fields[0].cases[0].value
  {
    if !d.HasDefault() {
      if SeenZero(d) {
        var i, j :| 0 <= i < |d.fields| && 0 <= j < |d.fields[i].cases| && d.fields[i].cases[j].known == Some(0);
        assert Listed(d.fields[i].cases, 0);
      } else {
        assert Listed(d.fields[0].cases, d.fields[0].cases[0].value);
      }
    }
  }

  // ------------------------------------------------------------------- the codec's arms

  function ArmsOf(fields: seq<Field>): seq<Arm> {
    if fields == [] then []
    else if fields[0].isDefault then ArmsOf(fields[1..])
    else [Arm(Values(fields[0].cases), fields[0].body)] + ArmsOf(fields[1..])
  }

  function Values(cases: seq<Case>): (vs: seq<u32>)
    ensures |vs| == |cases| && forall i :: 0 <= i < |vs| ==> vs[i] == cases[i].value
  {
    seq(|cases|, i requires 0 <= i < |cases| => cases[i].value)
  }

  function OtherwiseOf(d: Decl): Option<Type> {
    var k := DefaultOf(Clauses(d));
    if k < |d.fields| then Some(d.fields[k].body) else None
  }

  lemma {:induction false} ArmForFirst(fields: seq<Field>, otherwise: Option<Type>, tag: u32, i: nat)
    requires i < |fields| && !fields[i].isDefault && Listed(fields[i].cases, tag)
    requires forall k :: 0 <= k < i && !fields[k].isDefault ==> !Listed(fields[k].cases, tag)
    ensures ArmFor(ArmsOf(fields), otherwise, tag) == Some(fields[i].body)
  {
    ListedValue(fields[0].cases, tag);
    if i == 0 {
      assert ArmsOf(fields)[0] == Arm(Values(fields[0].cases), fields[0].body);
    } else {
      ArmForFirst(fields[1..], otherwise, tag, i - 1);
      if !fields[0].isDefault { assert ArmsOf(fields)[1..] == ArmsOf(fields[1..]); }
    }
  }

  lemma {:induction false} ArmForNone(fields: seq<Field>, otherwise: Option<Type>, tag: u32)
    requires forall k :: 0 <= k < |fields| && !fields[k].isDefault ==> !Listed(fields[k].cases, tag)
    ensures ArmFor(ArmsOf(fields), otherwise, tag) == otherwise
  {
    if fields != [] {
      ListedValue(fields[0].cases, tag);
      ArmForNone(fields[1..], otherwise, tag);
      if !fields[0].isDefault { assert ArmsOf(fields)[1..] == ArmsOf(fields[1..]); }
    }
  }

  lemma ListedValue(cases: seq<Case>, tag: u32)
    ensures tag in Values(cases) <==> Listed(cases, tag)
  {
    if Listed(cases, tag) {
      var j :| 0 <= j < |cases| && cases[j].value == tag;
      assert Values(cases)[j] == tag;
    }
  }

  /** The arm the codec follows is the arm all the emitted switches select. */
  lemma CodecFollows(d: Decl, tag: u32)
    requires d.Valid()
    ensures ArmFor(ArmsOf(d.fields), OtherwiseOf(d), tag)
            == match Selected(d, tag) case Some(i) => Some(d.fields[i].body) case None => None
  {
    var cs := Clauses(d);
    var i := First(cs, tag);
    if i < |cs| {
      ArmForFirst(d.fields, OtherwiseOf(d), tag, i);
    } else {
      ArmForNone(d.fields, OtherwiseOf(d), tag);
    }
  }
}
