/** Growth of generated slice types: SetVecLen and the loop of XdrMarshalN on a real backing
    array. */
module Vectors {
  import opened Bytes

  /** The capacity of a slice of capacity cap after SetVecLen(length). */
  function CapAfter(cap: nat, length: nat, bound: u32): nat {
    if length <= cap then cap
    else if 2 * cap < length then length
    else if 2 * cap > bound then bound
    else 2 * cap
  }

  /** A slice that must grow has room for the length and doubles if its bound admits that. */
  lemma CapAfterIs(cap: nat, length: nat, bound: u32)
    requires length <= bound
    ensures CapAfter(cap, length, bound)
            == if length <= cap then cap else Max(length, if 2 * cap < bound then 2 * cap else bound)
  {
  }

  function Max(a: nat, b: nat): nat {
    if a < b then b else a
  }

  /** The capacity and the elements copied when i elements have been reached from capacity cap0. */
  predicate Grown(cap0: nat, i: nat, bound: u32, cap: nat, copied: nat) {
    && cap0 <= cap <= Max(cap0, 2 * Max(i, 1)) && cap <= Max(cap0, bound)
    && (copied == 0 || copied <= 2 * (i - 1))
    && (copied <= cap || cap == bound)
  }

  /** A full slice grows to reach one element more; any other need not. */
  lemma GrowsOn(cap0: nat, i: nat, bound: u32, cap: nat, copied: nat)
    requires Grown(cap0, i, bound, cap, copied) && i <= cap && i < bound
    ensures if cap == i then Grown(cap0, i + 1, bound, CapAfter(cap, i + 1, bound), copied + i)
            else Grown(cap0, i + 1, bound, cap, copied)
  {
  }

  class Slice<T> {
    const bound: u32
    const zero: T
    var data: array<T>
    var len: nat
    /** Elements copied by growing, counted from the start of the last MarshalN. */
    ghost var copied: nat

    ghost predicate Valid()
      reads this
    {
      len <= data.Length
    }

    ghost function Contents(): seq<T>
      reads this, data
      requires Valid()
    {
      data[..len]
    }

    constructor (bound: u32, zero: T)
      ensures Valid() && Contents() == [] && fresh(data) && copied == 0 && data.Length == 0
      ensures this.bound == bound && this.zero == zero
    {
      this.bound, this.zero := bound, zero;
      data := new T[0];
      len, copied := 0, 0;
    }

    /** SetVecLen: fails past the bound. Within capacity, what lies past the old length comes
        back into view; past it the elements are copied in front of zeros. */
    method SetVecLen(length: u32) returns (ok: bool)
      requires Valid()
      modifies this
      ensures Valid() && (ok <==> length <= bound)
      ensures data == old(data) || fresh(data)
      ensures !ok ==> data == old(data) && len == old(len) && copied == old(copied)
      ensures ok ==> len == length && data.Length == CapAfter(old(data.Length), length, bound)
      ensures ok && length <= old(data.Length) ==> data == old(data) && copied == old(copied)
      ensures ok && length > old(data.Length) ==>
                && data[..] == old(data[..len]) + seq(data.Length - old(len), _ => zero)
                && copied == old(copied) + old(len)
    {
      if length > bound {
        return false;
      }
      ok := true;
      if length <= data.Length {
        len := length;
        return;
      }
      var newcap := 2 * data.Length;
      if newcap < length {
        newcap := length;
      } else if newcap > bound {
        newcap := bound;
      }
      var nv := new T[newcap](_ => zero);
      for i := 0 to len
        invariant nv.Length == newcap && fresh(nv)
        invariant len == old(len) && data == old(data) && copied == old(copied)
        invariant data[..] == old(data[..])
        invariant nv[..] == data[..i] + seq(newcap - i, _ => zero)
      {
        nv[i] := data[i];
      }
      copied := copied + len;
      data, len := nv, length;
    }

    /** Makes room for element i: the slice grows by one when it ends there. */
    method Reach(i: nat)
      requires Valid() && i <= len && i < bound
      modifies this
      ensures Valid() && i < len && forall j :: 0 <= j < i ==> data[j] == old(data[j])
      ensures i < old(data.Length) ==> data == old(data) && copied == old(copied)
      ensures i == old(data.Length) ==>
                fresh(data) && data.Length == CapAfter(i, i + 1, bound) && copied == old(copied) + i
    {
      if i >= len {
        var done := SetVecLen(i + 1);
      }
    }

    /** The loop of XdrMarshalN, up to element n or the end of the input. */
    method Fill(n: u32, xs: seq<T>) returns (done: nat)
      requires Valid() && n <= bound && copied == 0
      modifies this, data
      ensures Valid() && (data == old(data) || fresh(data))
      ensures done == (if n <= |xs| then n else |xs|) <= len
      ensures forall j :: 0 <= j < done ==> data[j] == xs[j]
      ensures Grown(old(data.Length), if done < n then done + 1 else n, bound, data.Length, copied)
    {
      hide CapAfter;
      for i := 0 to n
        invariant Valid() && i <= len && i <= |xs|
        invariant data == old(data) || fresh(data)
        invariant forall j :: 0 <= j < i ==> data[j] == xs[j]
        invariant Grown(old(data.Length), i, bound, data.Length, copied)
      {
        GrowsOn(old(data.Length), i, bound, data.Length, copied);
        Reach(i);
        if i == |xs| {
          return i;
        }
        data[i] := xs[i];
      }
      done := n;
    }

    /** XdrMarshalN told n with only the elements xs to be read: it succeeds when n is within the
        bound and there are n. However large n is, the capacity stays within twice the elements
        reached (or what it was), and never above the bound; growing copies fewer than twice
        the elements reached. */
    method MarshalN(n: u32, xs: seq<T>) returns (ok: bool)
      requires Valid()
      modifies this, data
      ensures Valid() && (ok <==> n <= bound && n <= |xs|)
      ensures ok ==> Contents() == xs[..n]
      ensures data == old(data) || fresh(data)
      ensures ok ==> data.Length <= Max(old(data.Length), 2 * Max(n, 1))
      ensures n <= bound ==> data.Length <= Max(old(data.Length), 2 * (|xs| + 1))
      ensures data.Length <= Max(old(data.Length), bound)
      ensures n <= bound ==> copied == 0 || copied < 2 * (|xs| + 1)
      ensures ok && copied > 0 ==> copied < 2 * n
    {
      if n > bound {
        return false;
      }
      copied := 0;
      var done := Fill(n, xs);
      ok := done == n;
      if ok && n < len {
        len := n;
      }
    }
  }
}
