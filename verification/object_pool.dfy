/** The reusable-object pool: every object it ever made (`all`, which only
    grows) and a FIFO queue of the ones free for reuse (`available`, front at
    index 0). Objects are opaque handles of type `T`. */
module ObjectPools {
  import opened Wire

  predicate Distinct<T(==)>(s: seq<T>)
  {
    forall i, j :: 0 <= i < j < |s| ==> s[i] != s[j]
  }

  /** A list without repeats has as many members as elements. */
  lemma {:induction false} DistinctCount<T>(s: seq<T>)
    requires Distinct(s)
    ensures |set x | x in s| == |s|
  {
    if s != [] {
      DistinctCount(s[1..]);
      assert (set x | x in s) == {s[0]} + (set x | x in s[1..]);
    }
  }

  /** `s` is what is left of `t` once some of its front is taken off: the
      only way acquisitions change a pool's queue. */
  predicate Suffix<T(==)>(s: seq<T>, t: seq<T>)
  {
    |s| <= |t| && s == t[|t| - |s|..]
  }

  /** Taking from the front twice is taking from the front once. */
  lemma SuffixTransitive<T>(a: seq<T>, b: seq<T>, c: seq<T>)
    requires Suffix(a, b) && Suffix(b, c)
    ensures Suffix(a, c)
  {
    assert c[|c| - |b|..][|b| - |a|..] == c[|c| - |a|..];
  }

  class ObjectPool<T(==)> {
    var all: seq<T>
    var available: seq<T>
    /** The handles `GetResource` gave out that have not come back through
        `ReturnResource`. */
    ghost var outstanding: set<T>

    /** The pool's bookkeeping is consistent: no handle is listed twice, each
        free handle belongs to the pool, and each handle of the pool is
        either free or checked out, never both. `ReturnResource` of a handle
        that is not checked out breaks this, since the source checks nothing. */
    ghost predicate Sound()
      reads this
    {
      && Distinct(all) && Distinct(available)
      && (forall x :: x in available ==> x in all)
      && (forall x :: x in outstanding ==> x in all && x !in available)
      && (forall x :: x in all ==> x in available || x in outstanding)
    }

    /** `ObjectPool(initialSize)` with the `initialSize` objects it creates:
        each is both in the pool and free. */
    constructor (initial: seq<T>)
      requires Distinct(initial)
      ensures Sound() && all == initial && available == initial && outstanding == {}
    {
      all, available, outstanding := initial, initial, {};
    }

    /** The front of the queue, or, when the queue is empty, `spare` (the
        object `new T()` makes), which the pool registers. */
    method GetResource(spare: T) returns (obj: T)
      requires spare !in all
      modifies this
      ensures old(available) == [] ==> obj == spare && all == old(all) + [spare] && available == []
      ensures old(available) != [] ==>
        obj == old(available)[0] && available == old(available)[1..] && all == old(all)
      ensures outstanding == old(outstanding) + {obj}
      ensures old(Sound()) ==> Sound() && obj in all && obj !in old(outstanding)
    {
      if available == [] {
        all := all + [spare];
        obj := spare;
      } else {
        obj := available[0];
        available := available[1..];
      }
      outstanding := outstanding + {obj};
      if old(Sound()) {
        assert forall x :: x in available ==> x in old(available);
      }
    }

    /** Queues `obj` for reuse; a null handle (`None`) is ignored. Neither
        membership nor duplicates are checked. */
    method ReturnResource(obj: Option<T>)
      modifies this
      ensures obj.None? ==> all == old(all) && available == old(available) && outstanding == old(outstanding)
      ensures obj.Some? ==>
        available == old(available) + [obj.value] && all == old(all) &&
        outstanding == old(outstanding) - {obj.value}
      ensures old(Sound()) && obj.Some? && obj.value in old(outstanding) ==> Sound()
    {
      if obj.Some? {
        available := available + [obj.value];
        outstanding := outstanding - {obj.value};
      }
    }

    /** `GetTotalSize()`: every object the pool has made. In a sound pool
        each one is either free or handed out. */
    function GetTotalSize(): (n: nat)
      reads this
      ensures Sound() ==> n == |available| + |outstanding|
    {
      SoundCount();
      |all|
    }

    /** `GetAvailableSize()`: how many objects `GetResource` can still hand
        out before it has to grow the pool. */
    function GetAvailableSize(): (n: nat)
      reads this
      ensures n == 0 <==> available == []
      ensures Sound() ==> n <= |all|
    {
      SoundCount();
      |available|
    }

    /** A sound pool's objects split into the free and the handed-out. */
    lemma SoundCount()
      ensures Sound() ==> |all| == |available| + |outstanding|
    {
      if Sound() {
        var everything := set x | x in all;
        var free := set x | x in available;
        DistinctCount(all);
        DistinctCount(available);
        assert outstanding == everything - free;
        assert everything == outstanding + free;
      }
    }
  }
}
