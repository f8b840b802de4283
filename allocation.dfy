/**
 * Identifier allocation. Each entity kind keeps one counter (a class attribute in the
 * original); here it is an `Allocator` object that every construction path is handed.
 */
module Allocation {

  predicate StrictlyIncreasing(s: seq<int>)
  {
    forall i, j :: 0 <= i < j < |s| ==> s[i] < s[j]
  }

  /** Where the counter stands after an explicit id: past the id, never backwards. */
  function Advance(next: int, id: int): (r: int)
    ensures r > id && r >= next
    ensures r == next || r == id + 1
  {
    if id >= next then id + 1 else next
  }

  class Allocator {
    /** The next id handed out when none is supplied. */
    var next: int
    /** Every id issued or observed so far. */
    ghost var seen: set<int>
    /** The ids handed out without an explicit id, in order. */
    ghost var issued: seq<int>

    ghost predicate Valid()
      reads this
    {
      (forall x :: x in seen ==> x < next)
      && (forall i :: 0 <= i < |issued| ==> issued[i] in seen)
      && StrictlyIncreasing(issued)
    }

    /** The counter starts at 1. */
    constructor ()
      ensures Valid() && next == 1 && seen == {} && issued == []
    {
      next := 1;
      seen := {};
      issued := [];
    }

    /** Hands out the counter's value and moves the counter up by one. */
    method Issue() returns (id: int)
      requires Valid()
      modifies this
      ensures Valid()
      ensures id == old(next) && next == old(next) + 1
      ensures forall x :: x in old(seen) ==> x < id
      ensures seen == old(seen) + {id} && issued == old(issued) + [id]
    {
      id := next;
      next := next + 1;
      seen := seen + {id};
      issued := issued + [id];
    }

    /** Takes note of an id supplied from outside, moving the counter past it. */
    method Observe(id: int)
      requires Valid()
      modifies this
      ensures Valid()
      ensures next == Advance(old(next), id)
      ensures seen == old(seen) + {id} && issued == old(issued)
    {
      next := Advance(next, id);
      seen := seen + {id};
    }
  }

  /** A store's own id rule: one more than the largest id held, or 1 when nothing is held. */
  function NextAfter(ids: seq<int>): (r: int)
    ensures forall i :: 0 <= i < |ids| ==> ids[i] < r
    ensures ids == [] ==> r == 1
    ensures ids != [] ==> exists i :: 0 <= i < |ids| && ids[i] == r - 1
  {
    if ids == [] then 1
    else if |ids| == 1 then ids[0] + 1
    else
      var p := NextAfter(ids[..|ids| - 1]);
      var last := ids[|ids| - 1];
      if p - 1 >= last then p else last + 1
  }
}
