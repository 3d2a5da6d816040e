/** The observer registry (`WeakPointerArray`): a hash table of weak
    references. Observers are identified by object identity; an observer that
    its owner deallocates simply stops being held, which the model expresses
    by dropping its id (see `Remove`). The table has no order. */
module WeakPointers {

  /** Identity of an observer object. */
  type ObserverId = nat

  datatype Registry = Registry(held: set<ObserverId>)

  /** A freshly created registry holds nothing. */
  function Empty(): (r: Registry)
    ensures Count(r) == 0
    ensures forall o :: !Contains(r, o)
  {
    Registry({})
  }

  predicate Contains(r: Registry, o: ObserverId) {
    o in r.held
  }

  /** Number of observers currently held. */
  function Count(r: Registry): (n: nat)
    ensures n == 0 <==> forall o :: !Contains(r, o)
  {
    assert r.held != {} ==> exists o :: Contains(r, o) by {
      if r.held != {} {
        var o :| o in r.held;
        assert Contains(r, o);
      }
    }
    |r.held|
  }

  /** Adding an object already held changes nothing (hash-table semantics). */
  function Add(r: Registry, o: ObserverId): (r': Registry)
    ensures Contains(r', o)
    ensures forall x :: x != o ==> (Contains(r', x) <==> Contains(r, x))
    ensures Count(r') == if Contains(r, o) then Count(r) else Count(r) + 1
  {
    assert o in r.held ==> r.held + {o} == r.held;
    assert o !in r.held ==> (r.held + {o}) - {o} == r.held;
    Registry(r.held + {o})
  }

  /** Removing an object that is not held changes nothing. Also models an
      observer that its owner deallocated: the weak entry disappears. */
  function Remove(r: Registry, o: ObserverId): (r': Registry)
    ensures !Contains(r', o)
    ensures forall x :: x != o ==> (Contains(r', x) <==> Contains(r, x))
    ensures Count(r') == if Contains(r, o) then Count(r) - 1 else Count(r)
  {
    Registry(r.held - {o})
  }

  function RemoveAll(r: Registry): (r': Registry)
    ensures Count(r') == 0
    ensures forall x :: !Contains(r', x)
  {
    Registry({})
  }

  predicate Distinct<T(==)>(s: seq<T>) {
    forall i, j :: 0 <= i < j < |s| ==> s[i] != s[j]
  }

  /** Iteration over the registry: every held observer exactly once, in an
      order the table chooses (the model does not fix one). */
  method Enumerate(r: Registry) returns (s: seq<ObserverId>)
    ensures forall o :: o in s <==> Contains(r, o)
    ensures Distinct(s)
    ensures |s| == Count(r)
  {
    s := [];
    var remaining := r.held;
    while remaining != {}
      invariant remaining <= r.held
      invariant forall o :: o in s <==> o in r.held && o !in remaining
      invariant Distinct(s)
      invariant |s| + |remaining| == |r.held|
      decreases remaining
    {
      var o :| o in remaining;
      s := s + [o];
      remaining := remaining - {o};
    }
  }
}
