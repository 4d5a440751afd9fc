/** RpcSrv: which service a call is for, and the reply header it gets. */
module Server {
  import opened Bytes
  import opened Schema
  import opened Codec
  import opened InPlace
  import opened RpcMsg
  import opened Stats

  /** A procedure: its types and what its implementation makes of an argument, None if it
      panics. */
  datatype ProcType = ProcType(arg: Type, res: Type, run: Value -> Option<Value>)

  /** A service for one version of a program: its procedures by number. */
  datatype Service = Service(prog: u32, vers: u32, procs: map<u32, ProcType>)

  type Table = map<u32, map<u32, Service>>

  function Registered(t: Table, s: Service): Table {
    var versions := if s.prog in t then t[s.prog] else map[];
    t[s.prog := versions[s.vers := s]]
  }

  /** After registering the services one after the other. */
  function AllRegistered(ss: seq<Service>): Table {
    if ss == [] then map[] else Registered(AllRegistered(ss[..|ss| - 1]), ss[|ss| - 1])
  }

  ghost predicate Latest(ss: seq<Service>, i: nat, prog: u32, vers: u32) {
    && i < |ss| && ss[i].prog == prog && ss[i].vers == vers
    && forall j :: i < j < |ss| ==> !(ss[j].prog == prog && ss[j].vers == vers)
  }

  predicate Has(t: Table, prog: u32, vers: u32) {
    prog in t && vers in t[prog]
  }

  /** A lookup finds the service registered last for the program and version, and finds nothing
      when none was; no program is listed without a version. */
  lemma {:induction false} FindsLatest(ss: seq<Service>, prog: u32, vers: u32)
    ensures var t := AllRegistered(ss);
      && (Has(t, prog, vers) <==> exists i: nat :: Latest(ss, i, prog, vers))
      && (forall i: nat :: Latest(ss, i, prog, vers) ==> Has(t, prog, vers) && t[prog][vers] == ss[i])
      && (prog in t ==> t[prog].Keys != {})
  {
    if ss != [] {
      var n := |ss| - 1;
      var s := ss[n];
      FindsLatest(ss[..n], prog, vers);
      if s.prog == prog && s.vers == vers {
        assert Latest(ss, n, prog, vers);
      } else {
        forall i: nat ensures Latest(ss, i, prog, vers) <==> Latest(ss[..n], i, prog, vers) {
        }
      }
      if s.prog == prog { assert s.vers in AllRegistered(ss)[prog].Keys; }
    }
  }

  ghost function VersionsOf(ss: seq<Service>, prog: u32): set<u32> {
    set i | 0 <= i < |ss| && ss[i].prog == prog :: ss[i].vers
  }

  /** A program's versions are those registered for it. */
  lemma {:induction false} ListsVersions(ss: seq<Service>, prog: u32)
    ensures (if prog in AllRegistered(ss) then AllRegistered(ss)[prog].Keys else {}) == VersionsOf(ss, prog)
  {
    if ss != [] {
      var n := |ss| - 1;
      ListsVersions(ss[..n], prog);
      assert VersionsOf(ss, prog) == VersionsOf(ss[..n], prog) + if ss[n].prog == prog then {ss[n].vers} else {} by {
        assert forall i :: 0 <= i < n ==> ss[..n][i] == ss[i];
      }
    }
  }

  // ------------------------------------------------------------------- dispatch

  const NO_AUTH := Auth(0, [])

  /** What GetProc decides: no reply, a reply without a call, or a procedure to run, its argument
      and its SUCCESS reply. End is no decision: unmarshaling the argument crashes the server. */
  datatype Decision = Ignore | Refuse(reply: Msg) | Run(reply: Msg, proc: ProcType, arg: Value) | End

  /** The types are declared and a result is of the result's Go type. */
  ghost predicate Runnable(env: Schema, p: ProcType)
    requires env.Valid()
  {
    && env.WellFormed(p.arg) && env.WellFormed(p.res)
    && forall a :: p.run(a).Some? ==> Typed(env, p.res, p.run(a).value, false)
  }

  ghost predicate Usable(env: Schema, t: Table)
    requires env.Valid()
  {
    forall p, v, c :: Has(t, p, v) && c in t[p][v].procs ==> Runnable(env, t[p][v].procs[c])
  }

  predicate IsLeast(x: u32, s: set<u32>) {
    x in s && forall y :: y in s ==> x <= y
  }

  predicate IsGreatest(x: u32, s: set<u32>) {
    x in s && forall y :: y in s ==> y <= x
  }

  /** The decision on a call, as RFC 5531 section 9 has it. */
  ghost predicate Decides(env: Schema, t: Table, m: Msg, args: seq<byte>, d: Decision)
    requires env.Valid() && Usable(env, t)
  {
    if !m.body.Call? then d == Ignore
    else
      var Call(rpcvers, prog, vers, proc, _, _) := m.body;
      if rpcvers != 2 then d == Refuse(Msg(m.xid, RpcMismatch(2, 2)))
      else if prog !in t then d == Refuse(Msg(m.xid, Other(NO_AUTH, PROG_UNAVAIL)))
      else if vers !in t[prog] then
        && d.Refuse? && d.reply.xid == m.xid
        && d.reply.body.Mismatch? && d.reply.body.verf == NO_AUTH
        && (t[prog].Keys != {} ==>
              IsLeast(d.reply.body.low, t[prog].Keys) && IsGreatest(d.reply.body.high, t[prog].Keys))
      else if proc !in t[prog][vers].procs then d == Refuse(Msg(m.xid, Other(NO_AUTH, PROC_UNAVAIL)))
      else
        var p := t[prog][vers].procs[proc];
        assert Has(t, prog, vers);
        match Decode(env, p.arg, args)
        case Bad => d == Refuse(Msg(m.xid, Other(NO_AUTH, GARBAGE_ARGS)))
        case Crash => d == End
        case Got(arg, _) => d == Run(Msg(m.xid, Success(NO_AUTH)), p, arg)
  }

  /** A PROG_MISMATCH reply carries exactly the least and the greatest registered version. */
  lemma MismatchExact(env: Schema, ss: seq<Service>, m: Msg, args: seq<byte>, d: Decision)
    requires env.Valid() && Usable(env, AllRegistered(ss)) && Decides(env, AllRegistered(ss), m, args, d)
    requires d.Refuse? && d.reply.body.Mismatch?
    ensures m.body.Call? && m.body.vers !in VersionsOf(ss, m.body.prog)
    ensures IsLeast(d.reply.body.low, VersionsOf(ss, m.body.prog))
    ensures IsGreatest(d.reply.body.high, VersionsOf(ss, m.body.prog))
  {
    FindsLatest(ss, m.body.prog, m.body.vers);
    ListsVersions(ss, m.body.prog);
  }

  class RpcSrv {
    var srvs: Table

    constructor ()
      ensures srvs == map[]
    {
      srvs := map[];
    }

    method Register(s: Service)
      modifies this
      ensures srvs == Registered(old(srvs), s)
    {
      if s.prog !in srvs {
        srvs := srvs[s.prog := map[]];
      }
      var versions: map<u32, Service> := srvs[s.prog];
      srvs := srvs[s.prog := versions[s.vers := s]];
    }

    /** The loop over a program's versions, in whatever order the map yields them. */
    method Versions(versions: set<u32>) returns (low: u32, high: u32)
      ensures versions != {} ==> IsLeast(low, versions) && IsGreatest(high, versions)
      ensures versions == {} ==> low == 0xffff_ffff && high == 0
    {
      low, high := 0xffff_ffff, 0;
      var left := versions;
      while left != {}
        invariant left <= versions
        invariant if left == versions then low == 0xffff_ffff && high == 0
                  else IsLeast(low, versions - left) && IsGreatest(high, versions - left)
        decreases left
      {
        var i :| i in left;
        ghost var seen := versions - left;
        if i < low { low := i; }
        if i > high { high := i; }
        left := left - {i};
        assert versions - left == seen + {i};
        assert seen == {} <==> left + {i} == versions;
      }
      assert versions - left == versions;
    }

    /** GetProc, with the arguments unmarshaled into a new variable of the argument type. `died`
        is a crash there. */
    method GetProc(env: Schema, m: Msg, args: Reader)
      returns (ghost d: Decision, reply: Option<Msg>, proc: Option<ProcType>, arg: Slot?, died: bool)
      requires env.Valid() && Usable(env, srvs)
      modifies args
      ensures Decides(env, srvs, m, old(args.rest), d)
      ensures died <==> d.End?
      ensures reply == match d case Refuse(r) => Some(r) case Run(r, _, _) => Some(r) case _ => None
      ensures proc == match d case Run(_, p, _) => Some(p) case _ => None
      ensures d.Run? ==>
                && arg != null && fresh(arg.repr) && env.WellFormed(d.proc.arg)
                && Tree(env, d.proc.arg, arg) && Holds(env, d.proc.arg, arg, d.arg)
    {
      hide Decode, Tree, Holds;
      reply, proc, arg, died := None, None, null, false;
      d := Ignore;
      if !m.body.Call? {
        return;
      }
      var Call(rpcvers, prog, vers, c, _, _) := m.body;
      if rpcvers != 2 {
        reply := Some(Msg(m.xid, RpcMismatch(2, 2)));
      } else if prog !in srvs {
        reply := Some(Msg(m.xid, Other(NO_AUTH, PROG_UNAVAIL)));
      } else if vers !in srvs[prog] {
        var low, high := Versions(srvs[prog].Keys);
        reply := Some(Msg(m.xid, Mismatch(NO_AUTH, low, high)));
      } else if c !in srvs[prog][vers].procs {
        reply := Some(Msg(m.xid, Other(NO_AUTH, PROC_UNAVAIL)));
      } else {
        var p := srvs[prog][vers].procs[c];
        assert Has(srvs, prog, vers);
        var s := NewZero(env, p.arg);
        ghost var a := Decode(env, p.arg, args.rest);
        var end := Unmarshal(env, p.arg, s, args);
        if end.Crashed? {
          d, died := End, true;
          return;
        }
        if end.Done? {
          reply, proc, arg := Some(Msg(m.xid, Success(NO_AUTH))), Some(p), s;
          d := Run(reply.value, p, a.v);
          return;
        }
        reply := Some(Msg(m.xid, Other(NO_AUTH, GARBAGE_ARGS)));
      }
      d := Refuse(reply.value);
    }
  }
}
