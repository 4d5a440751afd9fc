/** The arena that pools messages and call records. An object is its index: those below `size`
    are the arena's own, the rest were made on a miss and are not taken back. */
module Arenas {

  datatype Pool = Pool(size: nat, free: seq<nat>, made: nat)

  function NewPool(size: nat): Pool {
    Pool(size, seq(size, i => i), size)
  }

  /** The object the next Get hands out. */
  function Top(p: Pool): nat {
    if p.free == [] then p.made else p.free[|p.free| - 1]
  }

  function Taken(p: Pool): Pool {
    if p.free == [] then p.(made := p.made + 1) else p.(free := p.free[..|p.free| - 1])
  }

  function Returned(p: Pool, x: nat): Pool {
    if x < p.size then p.(free := p.free + [x]) else p
  }

  /** The object recycled last is the next one handed out, and then the pool is as it was. */
  lemma LastInFirstOut(p: Pool, x: nat)
    requires x < p.size
    ensures Top(Returned(p, x)) == x && Taken(Returned(p, x)) == p
  {
    assert (p.free + [x])[..|p.free|] == p.free;
  }

  class Arena {
    const size: nat
    var free: seq<nat>
    var made: nat
    var numGet: nat
    var numMiss: nat

    constructor (n: nat)
      ensures View() == NewPool(n) && numGet == numMiss == 0
    {
      size, made, numGet, numMiss := n, n, 0, 0;
      free := seq(n, i => i);
    }

    function View(): Pool
      reads this
    {
      Pool(size, free, made)
    }

    method Get() returns (x: nat)
      modifies this
      ensures x == Top(old(View())) && View() == Taken(old(View()))
      ensures numGet + numMiss == old(numGet) + old(numMiss) + 1
      ensures numMiss == old(numMiss) <==> old(free) != []
    {
      if |free| == 0 {
        numMiss := numMiss + 1;
        x, made := made, made + 1;
        return;
      }
      numGet := numGet + 1;
      x := free[|free| - 1];
      free := free[..|free| - 1];
    }

    method Recycle(x: nat)
      modifies this
      ensures View() == Returned(old(View()), x)
      ensures numGet == old(numGet) && numMiss == old(numMiss)
    {
      if x >= size {
        return;
      }
      free := free + [x];
    }
  }
}
