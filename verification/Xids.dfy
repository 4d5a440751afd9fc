/** How NewCall picks transaction identifiers, over any interleaving of calls that begin and
    calls that end. M is the number of identifiers, 2^32 in the source. */
module Xids {

  /** lastXid and the keys of the map of pending calls. */
  datatype Table = Table(last: nat, pending: set<nat>)

  ghost predicate Valid(M: nat, t: Table) {
    t.last < M && forall x :: x in t.pending ==> x < M
  }

  /** The identifier d places after x. */
  function At(M: nat, x: nat, d: nat): (y: nat)
    requires x < M && d <= M
    ensures y < M
  {
    if x + d < M then x + d else x + d - M
  }

  /** The identifiers one to d places after x. */
  ghost function Ahead(M: nat, x: nat, d: nat): (s: set<nat>)
    requires x < M && d <= M
  {
    if d == 0 then {} else Ahead(M, x, d - 1) + {At(M, x, d)}
  }

  lemma {:induction false} AheadIs(M: nat, x: nat, d: nat)
    requires x < M && d <= M
    ensures |Ahead(M, x, d)| == d
    ensures forall y :: y in Ahead(M, x, d) <==> exists i :: 1 <= i <= d && y == At(M, x, i)
  {
    if d > 0 {
      AheadIs(M, x, d - 1);
      assert At(M, x, d) !in Ahead(M, x, d - 1);
      forall i | 1 <= i <= d ensures At(M, x, i) in Ahead(M, x, d) {
        if i < d { assert At(M, x, i) in Ahead(M, x, d - 1); }
      }
    }
  }

  lemma SubsetSize<T>(a: set<T>, b: set<T>)
    requires a <= b
    ensures |a| <= |b|
  {
    assert b == a + (b - a);
    assert |b| == |a| + |b - a|;
  }

  /** While fewer than M calls are pending, some identifier within a lap is free. */
  lemma SomeFree(M: nat, t: Table)
    requires Valid(M, t) && |t.pending| < M
    ensures exists e :: 1 <= e <= M && At(M, t.last, e) !in t.pending
  {
    if forall e :: 1 <= e <= M ==> At(M, t.last, e) in t.pending {
      AheadIs(M, t.last, M);
      SubsetSize(Ahead(M, t.last, M), t.pending);
      assert false;
    }
  }

  /** The loop in NewCall: the number of places to the first identifier not in use. */
  function Probe(M: nat, last: nat, pending: set<nat>, d: nat): (r: nat)
    requires last < M && 1 <= d <= M
    requires exists e :: d <= e <= M && At(M, last, e) !in pending
    ensures d <= r <= M && At(M, last, r) !in pending
    ensures forall i :: d <= i < r ==> At(M, last, i) in pending
    decreases M - d
  {
    if At(M, last, d) !in pending then d else Probe(M, last, pending, d + 1)
  }

  function NewXid(M: nat, t: Table): (x: nat)
    requires Valid(M, t) && |t.pending| < M
    ensures x < M && x !in t.pending
  {
    SomeFree(M, t);
    At(M, t.last, Probe(M, t.last, t.pending, 1))
  }

  /** It is the first free one after lastXid, counting up. */
  lemma NewXidFirst(M: nat, t: Table) returns (e: nat)
    requires Valid(M, t) && |t.pending| < M
    ensures 1 <= e <= M && NewXid(M, t) == At(M, t.last, e) == (t.last + e) % M
    ensures NewXid(M, t) !in t.pending && forall i :: 1 <= i < e ==> At(M, t.last, i) in t.pending
  {
    SomeFree(M, t);
    e := Probe(M, t.last, t.pending, 1);
    AtMod(M, t.last, e);
  }

  /** Counting up goes from M - 1 to 0. */
  lemma AtMod(M: nat, x: nat, d: nat)
    requires x < M && d <= M
    ensures At(M, x, d) == (x + d) % M
  {
    var q := if x + d < M then 0 else 1;
    assert x + d == q * M + At(M, x, d);
    Remainder(M, q, At(M, x, d));
  }

  lemma Remainder(M: nat, q: nat, r: nat)
    requires r < M && q <= 1
    ensures (q * M + r) % M == r
  {
    if q == 1 { assert (M + r) / M == 1; }
  }

  function Begin(M: nat, t: Table): (t': Table)
    requires Valid(M, t) && |t.pending| < M
    ensures Valid(M, t')
  {
    var x := NewXid(M, t);
    Table(x, t.pending + {x})
  }

  // ------------------------------------------------------------------- one lap

  /** Since x was issued with `others` pending, the identifiers `later` were issued. They lie on
      the part of one lap that lastXid has covered, and the rest of that part was in use all
      along by the others. */
  ghost predicate Lap(M: nat, x: nat, others: set<nat>, later: set<nat>, t: Table) {
    && Valid(M, t) && x < M
    && t.pending <= {x} + others + later
    && exists d :: Covered(M, x, others, later, t, d)
  }

  ghost predicate Covered(M: nat, x: nat, others: set<nat>, later: set<nat>, t: Table, d: nat) {
    && x < M && d < M && t.last == At(M, x, d)
    && later <= Ahead(M, x, d) <= later + others
  }

  lemma LapBegins(M: nat, t: Table)
    requires Valid(M, t) && |t.pending| < M
    ensures Lap(M, NewXid(M, t), t.pending, {}, Begin(M, t))
  {
    assert Covered(M, NewXid(M, t), t.pending, {}, Begin(M, t), 0);
  }

  lemma LapEnds(M: nat, x: nat, others: set<nat>, later: set<nat>, t: Table, pending: set<nat>)
    requires Lap(M, x, others, later, t) && pending <= t.pending
    ensures Lap(M, x, others, later, t.(pending := pending))
  {
    var d: nat :| Covered(M, x, others, later, t, d);
    assert Covered(M, x, others, later, t.(pending := pending), d);
  }

  lemma LapPending(M: nat, x: nat, others: set<nat>, later: set<nat>, t: Table)
    requires Lap(M, x, others, later, t) && |others| + |later| + 1 < M
    ensures |t.pending| < M
  {
    SubsetSize(t.pending, {x} + others + later);
    assert |{x} + others + later| <= 1 + |others| + |later|;
  }

  /** The identifiers NewCall skips within the lap belong to the others. */
  lemma Skipped(M: nat, x: nat, others: set<nat>, later: set<nat>, t: Table, d: nat, i: nat)
    requires Lap(M, x, others, later, t) && Covered(M, x, others, later, t, d) && |t.pending| < M
    requires (SomeFree(M, t); d < i < d + Probe(M, t.last, t.pending, 1)) && i < M
    ensures At(M, x, i) in others && At(M, x, i) !in Ahead(M, x, d)
  {
    AheadIs(M, x, d);
    assert At(M, x, i) == At(M, t.last, i - d);
    assert At(M, t.last, i - d) in t.pending by { SomeFree(M, t); }
  }

  /** There are not enough others to skip to the end of the lap. */
  lemma StaysInLap(M: nat, x: nat, others: set<nat>, later: set<nat>, t: Table, d: nat)
    requires Lap(M, x, others, later, t) && |others| + |later| + 1 < M && |t.pending| < M
    requires Covered(M, x, others, later, t, d)
    ensures (SomeFree(M, t); d + Probe(M, t.last, t.pending, 1) < M)
  {
    hide Ahead, Probe, At;
    SomeFree(M, t);
    if d + Probe(M, t.last, t.pending, 1) >= M {
      AheadIs(M, x, d);
      AheadIs(M, x, M - 1);
      forall y | y in Ahead(M, x, M - 1) ensures y in later + others {
        var i :| 1 <= i <= M - 1 && y == At(M, x, i);
        if d < i { Skipped(M, x, others, later, t, d, i); } else { assert y in Ahead(M, x, d); }
      }
      SubsetSize(Ahead(M, x, M - 1), later + others);
      assert false;
    }
  }

  /** What NewCall passes over on its way to a new identifier. */
  lemma AheadGoesOn(M: nat, x: nat, others: set<nat>, later: set<nat>, t: Table, d: nat)
    requires Lap(M, x, others, later, t) && Covered(M, x, others, later, t, d) && |t.pending| < M
    requires (SomeFree(M, t); d + Probe(M, t.last, t.pending, 1) < M)
    ensures (SomeFree(M, t);
             var e := Probe(M, t.last, t.pending, 1);
             later <= Ahead(M, x, d + e) <= later + {At(M, x, d + e)} + others)
  {
    hide Ahead, Probe, At;
    SomeFree(M, t);
    var e := Probe(M, t.last, t.pending, 1);
    var y := At(M, x, d + e);
    AheadIs(M, x, d);
    AheadIs(M, x, d + e);
    forall z | z in Ahead(M, x, d + e) ensures z in later + {y} + others {
      var i :| 1 <= i <= d + e && z == At(M, x, i);
      if i <= d {
        assert z in Ahead(M, x, d);
      } else if i < d + e {
        Skipped(M, x, others, later, t, d, i);
      }
    }
    forall z | z in later ensures z in Ahead(M, x, d + e) {
      assert z in Ahead(M, x, d);
    }
  }

  /** While a lap lasts, NewCall returns something new. */
  lemma LapGoesOn(M: nat, x: nat, others: set<nat>, later: set<nat>, t: Table)
    requires Lap(M, x, others, later, t) && |others| + |later| + 1 < M && |t.pending| < M
    ensures var y := NewXid(M, t); y != x && y !in later && Lap(M, x, others, later + {y}, Begin(M, t))
  {
    hide Ahead, Probe;
    SomeFree(M, t);
    var d: nat :| Covered(M, x, others, later, t, d);
    var e := Probe(M, t.last, t.pending, 1);
    StaysInLap(M, x, others, later, t, d);
    var y := NewXid(M, t);
    assert y == At(M, x, d + e);
    AheadIs(M, x, d);
    AheadIs(M, x, d + e);
    AheadGoesOn(M, x, others, later, t, d);
    assert Covered(M, x, others, later + {y}, Begin(M, t), d + e);
  }

  // ------------------------------------------------------------------- any interleaving

  /** New is NewCall; Remove is what Delete, Cancel and GetReply do to the map, whether or not
      the identifier is there; RemoveAll is CancelAll. */
  datatype Op = New | Remove(xid: nat) | RemoveAll

  /** The identifiers issued; `stuck` if some NewCall found every identifier in use. */
  datatype Outcome = Outcome(table: Table, issued: seq<nat>, stuck: bool)

  ghost function Run(M: nat, t: Table, ops: seq<Op>): (r: Outcome)
    requires Valid(M, t)
    ensures Valid(M, r.table)
    decreases |ops|
  {
    if ops == [] then Outcome(t, [], false)
    else
      match ops[0]
      case New =>
        if |t.pending| < M then
          var r := Run(M, Begin(M, t), ops[1..]);
          r.(issued := [NewXid(M, t)] + r.issued)
        else Outcome(t, [], true)
      case Remove(x) => Run(M, t.(pending := t.pending - {x}), ops[1..])
      case RemoveAll => Run(M, t.(pending := {}), ops[1..])
  }

  function News(ops: seq<Op>): nat {
    if ops == [] then 0 else (if ops[0].New? then 1 else 0) + News(ops[1..])
  }

  ghost predicate Distinct(xs: seq<nat>) {
    forall i, j :: 0 <= i < j < |xs| ==> xs[i] != xs[j]
  }

  lemma {:induction false} WithinLap(M: nat, x: nat, others: set<nat>, later: set<nat>, t: Table, ops: seq<Op>)
    requires Lap(M, x, others, later, t) && |others| + |later| + News(ops) < M
    ensures var r := Run(M, t, ops);
            && !r.stuck && |r.issued| == News(ops) && Distinct(r.issued)
            && forall i :: 0 <= i < |r.issued| ==> r.issued[i] != x && r.issued[i] !in later
    decreases |ops|
  {
    if ops != [] {
      match ops[0]
      case New =>
        LapPending(M, x, others, later, t);
        LapGoesOn(M, x, others, later, t);
        WithinLap(M, x, others, later + {NewXid(M, t)}, Begin(M, t), ops[1..]);
      case Remove(y) =>
        LapEnds(M, x, others, later, t, t.pending - {y});
        WithinLap(M, x, others, later, t.(pending := t.pending - {y}), ops[1..]);
      case RemoveAll =>
        LapEnds(M, x, others, later, t, {});
        WithinLap(M, x, others, later, t.(pending := {}), ops[1..]);
    }
  }

  /** If NewCall returns x while k other calls are pending, then whatever calls begin and end
      afterwards the next M-1-k NewCalls all return, pairwise distinct and different from x. */
  lemma XidDistance(M: nat, t: Table, ops: seq<Op>)
    requires Valid(M, t) && |t.pending| + News(ops) < M
    ensures var r := Run(M, Begin(M, t), ops);
            && !r.stuck && |r.issued| == News(ops) && Distinct(r.issued)
            && forall i :: 0 <= i < |r.issued| ==> r.issued[i] != NewXid(M, t)
  {
    LapBegins(M, t);
    WithinLap(M, NewXid(M, t), t.pending, {}, Begin(M, t), ops);
  }
}
