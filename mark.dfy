/** The mark phase of the collector: a depth-first traversal guarded by the mark bit. */
module Marking {
  import opened Objects

  /** `y` is an object of `heap` whose mark bit is set. */
  ghost predicate MarkedIn(heap: set<Obj>, y: Obj?)
    reads heap`marked
  {
    y != null && y in heap && y.marked
  }

  /**
   * Every marked pair of `heap`, except those in `pending`, has both children
   * marked. `pending` holds the pairs whose traversal is still in progress.
   */
  ghost predicate MarkClosedExcept(heap: set<Obj>, pending: set<Obj>)
    reads heap`marked, heap`head, heap`tail
  {
    forall x {:trigger x.kind} :: x in heap && x.marked && x !in pending && x.kind == ObjPair ==>
      MarkedIn(heap, x.head) && MarkedIn(heap, x.tail)
  }

  /** The marked objects of `heap` are closed under head/tail edges. */
  ghost predicate MarkClosed(heap: set<Obj>)
    reads heap`marked, heap`head, heap`tail
  {
    MarkClosedExcept(heap, {})
  }

  /** The objects of `heap` not yet marked: the measure that makes marking terminate. */
  ghost function Unmarked(heap: set<Obj>): set<Obj>
    reads heap`marked
  {
    set x | x in heap && !x.marked
  }

  /** A subset is no larger than its superset. */
  lemma SubsetCard(a: set<Obj>, b: set<Obj>)
    requires a <= b
    ensures |a| <= |b|
  {
    assert b == a + (b - a);
    assert a * (b - a) == {};
  }

  /** Walking from a marked object through a mark-closed heap meets only marked objects. */
  lemma {:induction false} MarkedAlongPath(heap: set<Obj>, p: seq<Obj>, i: nat)
    requires IsPath(heap, p) && p[0].marked && MarkClosed(heap) && i < |p|
    ensures p[i].marked
    decreases i
  {
    if i > 0 {
      MarkedAlongPath(heap, p, i - 1);
      assert Edge(p[i - 1], p[i]);
    }
  }

  /** In a mark-closed heap, everything reachable from a marked object is marked. */
  lemma ReachableMarked(heap: set<Obj>, o: Obj, x: Obj)
    requires MarkClosed(heap) && o.marked && Reachable(heap, o, x)
    ensures x.marked
  {
    var p :| IsPath(heap, p) && p[0] == o && p[|p| - 1] == x;
    MarkedAlongPath(heap, p, |p| - 1);
  }

  /**
   * mark(o): return at once if `o` is marked, otherwise mark it and, for a
   * pair, mark its head and then its tail. `pending` is the ghost set of the
   * pairs on the recursion stack above this call.
   */
  method Mark(o: Obj, ghost heap: set<Obj>, ghost pending: set<Obj>)
    requires o in heap && Closed(heap)
    requires forall y :: y in pending ==> y in heap && y.marked
    requires MarkClosedExcept(heap, pending)
    modifies heap`marked
    ensures o.marked
    ensures forall x :: x in heap && old(x.marked) ==> x.marked
    ensures forall x :: x in heap && x.marked && !old(x.marked) ==> Reachable(heap, o, x)
    ensures MarkClosedExcept(heap, pending)
    ensures pending == {} ==> forall x :: x in heap && Reachable(heap, o, x) ==> x.marked
    decreases |Unmarked(heap)|
  {
    if !o.marked {
      ghost var before := Unmarked(heap);
      o.marked := true;
      assert Unmarked(heap) == before - {o};
      ReachableSelf(heap, o);
      if o.kind == ObjPair {
        ghost var middle := Unmarked(heap);
        Mark(o.head, heap, pending + {o});
        SubsetCard(Unmarked(heap), middle);
        Mark(o.tail, heap, pending + {o});
        forall x | x in heap && x.marked && !old(x.marked)
          ensures Reachable(heap, o, x)
        {
          if x != o {
            if Reachable(heap, o.head, x) {
              ReachableFromChild(heap, o, o.head, x);
            } else {
              ReachableFromChild(heap, o, o.tail, x);
            }
          }
        }
      }
    }
    if pending == {} {
      forall x | x in heap && Reachable(heap, o, x)
        ensures x.marked
      {
        ReachableMarked(heap, o, x);
      }
    }
  }

  /** Adding an unmarked object keeps the marked objects closed. */
  lemma MarkClosedAdd(heap: set<Obj>, o: Obj)
    requires MarkClosed(heap) && !o.marked
    ensures MarkClosed(heap + {o})
  {
  }
}
