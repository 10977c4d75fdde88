/**
 * The shared pool of device contexts. A claim hands out an idle DC, or makes a new
 * one when none is idle; a free gives a claimed DC back. The pool keeps ghost counts
 * of claims and frees so that callers can state that the two are paired.
 */
module DcPool {
  import opened Gdi

  class Pool {
    var idle: set<Hdc>
    var busy: set<Hdc>
    /** The number of the DC the pool makes next when none is idle. */
    var nextDc: nat
    ghost var claims: nat
    ghost var frees: nat

    ghost predicate Valid()
      reads this
    {
      && idle !! busy
      && (forall d | d in idle :: d.PooledDc? && d.n < nextDc)
      && (forall d | d in busy :: d.PooledDc? && d.n < nextDc)
    }

    constructor ()
      ensures Valid()
      ensures idle == {} && busy == {} && claims == 0 && frees == 0
    {
      idle, busy, nextDc := {}, {}, 0;
      claims, frees := 0, 0;
    }

    method Claim() returns (dc: Hdc)
      requires Valid()
      modifies this
      ensures Valid()
      ensures dc !in old(busy)
      ensures old(idle) != {} ==> dc in old(idle) && nextDc == old(nextDc)
      ensures old(idle) == {} ==> dc == PooledDc(old(nextDc)) && nextDc == old(nextDc) + 1
      ensures dc.PooledDc? && dc.n < nextDc
      ensures idle == old(idle) - {dc} && busy == old(busy) + {dc}
      ensures claims == old(claims) + 1 && frees == old(frees)
    {
      if idle != {} {
        dc :| dc in idle;
      } else {
        dc := PooledDc(nextDc);
        nextDc := nextDc + 1;
      }
      idle := idle - {dc};
      busy := busy + {dc};
      claims := claims + 1;
    }

    method Free(dc: Hdc)
      requires Valid() && dc in busy
      modifies this
      ensures Valid()
      ensures idle == old(idle) + {dc} && busy == old(busy) - {dc} && nextDc == old(nextDc)
      ensures frees == old(frees) + 1 && claims == old(claims)
    {
      idle := idle + {dc};
      busy := busy - {dc};
      frees := frees + 1;
    }

    /**
     * Between the two states exactly one claim and one free happened, on the same DC:
     * no DC is left borrowed, and the idle set is what it was, except for the one DC the
     * pool had to make because none was idle.
     */
    twostate predicate ClaimedAndFreedOnce(dc: Hdc)
      reads this
    {
      && busy == old(busy)
      && (if old(idle) != {} then dc in old(idle) && idle == old(idle) && nextDc == old(nextDc)
          else dc == PooledDc(old(nextDc)) && idle == {dc} && nextDc == old(nextDc) + 1)
      && claims == old(claims) + 1
      && frees == old(frees) + 1
    }
  }
}
