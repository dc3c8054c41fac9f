/** The bump allocator behind the asset cache: a fixed buffer, a `used`
    cursor, allocations handed out one after another and only ever
    reclaimed all at once by `Clear`. Pointers are modelled as offsets into
    the buffer (`current` is `m_current - m_memory`). */
module StackAllocators {
  import opened Wire

  /** The offset `Allocate(n)` hands out from cursor `used`, if any. */
  function Grant(capacity: nat, used: nat, n: nat): Option<nat>
  {
    if used + n > capacity then None else Some(used)
  }

  /** The cursor after `Allocate(n)` from cursor `used`. */
  function Advance(capacity: nat, used: nat, n: nat): nat
  {
    if used + n > capacity then used else used + n
  }

  function Sum(reqs: seq<nat>): nat
  {
    if reqs == [] then 0 else reqs[0] + Sum(reqs[1..])
  }

  /** The grants of successive `Allocate` calls, and the final cursor. */
  function Run(capacity: nat, used: nat, reqs: seq<nat>): (r: (seq<Option<nat>>, nat))
    ensures |r.0| == |reqs|
    decreases reqs
  {
    if reqs == [] then ([], used)
    else
      var rest := Run(capacity, Advance(capacity, used, reqs[0]), reqs[1..]);
      ([Grant(capacity, used, reqs[0])] + rest.0, rest.1)
  }

  /** Every granted range lies between the starting cursor and the final
      one, and the cursor never passes the capacity. */
  lemma {:induction false} RunBounds(capacity: nat, used: nat, reqs: seq<nat>)
    requires used <= capacity
    decreases reqs
    ensures var (grants, final) := Run(capacity, used, reqs);
      used <= final <= capacity &&
      forall i :: 0 <= i < |reqs| && grants[i].Some? ==>
        used <= grants[i].value && grants[i].value + reqs[i] <= final
  {
    if reqs != [] {
      RunBounds(capacity, Advance(capacity, used, reqs[0]), reqs[1..]);
    }
  }

  /** Successful allocations never overlap: each granted range ends at or
      before the start of every later granted range. */
  lemma {:induction false} RunDisjoint(capacity: nat, used: nat, reqs: seq<nat>, i: nat, j: nat)
    requires used <= capacity
    requires i < j < |reqs|
    requires Run(capacity, used, reqs).0[i].Some? && Run(capacity, used, reqs).0[j].Some?
    ensures Run(capacity, used, reqs).0[i].value + reqs[i] <= Run(capacity, used, reqs).0[j].value
    decreases reqs
  {
    var next := Advance(capacity, used, reqs[0]);
    if i == 0 {
      RunBounds(capacity, next, reqs[1..]);
      assert Run(capacity, used, reqs).0[j] == Run(capacity, next, reqs[1..]).0[j - 1];
    } else {
      RunDisjoint(capacity, next, reqs[1..], i - 1, j - 1);
    }
  }

  /** Requests that add up to exactly the free space all succeed, each at the
      offset where the previous one ended; the cursor then sits at the
      capacity and one more byte fails. */
  lemma {:induction false} ExactFill(capacity: nat, used: nat, reqs: seq<nat>)
    requires used + Sum(reqs) == capacity
    decreases reqs
    ensures var (grants, final) := Run(capacity, used, reqs);
      final == capacity &&
      (forall i :: 0 <= i < |reqs| ==> grants[i] == Some(used + Sum(reqs[..i]))) &&
      Grant(capacity, final, 1) == None
  {
    if reqs != [] {
      var next := used + reqs[0];
      ExactFill(capacity, next, reqs[1..]);
      var grants := Run(capacity, used, reqs).0;
      forall i | 0 < i < |reqs|
        ensures grants[i] == Some(used + Sum(reqs[..i]))
      {
        assert reqs[..i][1..] == reqs[1..][..i - 1];
      }
      assert reqs[..0] == [];
    }
  }

  class StackAllocator {
    const size: nat
    const memory: array<byte>
    var used: nat
    /** `m_current`, as an offset from the start of `memory`. */
    var current: nat

    ghost predicate Valid()
      reads this
    {
      memory.Length == size && used <= size && current == used
    }

    constructor (size: nat)
      ensures Valid() && fresh(memory)
      ensures this.size == size && used == 0
    {
      this.size := size;
      memory := new byte[size];
      used, current := 0, 0;
    }

    /** Hands out the next `n` bytes, or nothing (and changes nothing) when
        they do not fit. */
    method Allocate(n: nat) returns (r: Option<nat>)
      requires Valid()
      modifies this
      ensures Valid()
      ensures r.None? <==> old(used) + n > size
      ensures r == Grant(size, old(used), n) && used == Advance(size, old(used), n)
      ensures r.Some? ==> r.value == old(used) && used == old(used) + n && r.value + n <= memory.Length
    {
      if used + n > size {
        return None;
      }
      r := Some(current);
      current := current + n;
      used := used + n;
    }

    /** Reclaims every allocation at once. */
    method Clear()
      requires Valid()
      modifies this
      ensures Valid() && used == 0
    {
      used := 0;
      current := 0;
    }
  }
}
