/** The tagged heap object of the collector and the object graph its pairs span. */
module Objects {

  /** The C `int` payload of a scalar object. */
  newtype Int32 = x: int | -0x8000_0000 <= x < 0x8000_0000

  /** The closed type tag of an object. */
  datatype ObjectType = ObjInt | ObjPair

  /**
   * A heap object. `value` means something only when `kind == ObjInt`,
   * `head` and `tail` only when `kind == ObjPair`; `next` is the intrusive
   * link of the list of all allocated objects. The type tag and the link are
   * set once, when the object is created, and never change afterwards.
   */
  class Obj {
    const kind: ObjectType
    var value: Int32
    var head: Obj?
    var tail: Obj?
    var marked: bool
    const next: Obj?

    /**
     * Allocation with the tag, a clear mark bit and the registry link set.
     * Like `malloc`, it promises nothing about the payload fields: whoever
     * allocates a scalar or a pair must set them.
     */
    constructor (kind: ObjectType, next: Obj?)
      ensures this.kind == kind && this.next == next && !marked
    {
      this.kind := kind;
      value := 0;
      head := null;
      tail := null;
      marked := false;
      this.next := next;
    }
  }

  /** `x` is a pair with `y` as its head or its tail. */
  ghost predicate Edge(x: Obj, y: Obj)
    reads x`head, x`tail
  {
    x.kind == ObjPair && (x.head == y || x.tail == y)
  }

  /** Every pair of `heap` has both children, and they lie in `heap`. */
  ghost predicate Closed(heap: set<Obj>)
    reads heap`head, heap`tail
  {
    forall x {:trigger x.kind} :: x in heap && x.kind == ObjPair ==>
      x.head != null && x.tail != null && x.head in heap && x.tail in heap
  }

  /** `p` is a non-empty walk through `heap` along head/tail edges. */
  ghost predicate IsPath(heap: set<Obj>, older p: seq<Obj>)
    reads heap`head, heap`tail
  {
    |p| > 0 &&
    (forall i :: 0 <= i < |p| ==> p[i] in heap) &&
    (forall i :: 0 <= i < |p| - 1 ==> Edge(p[i], p[i + 1]))
  }

  /** `dst` can be reached from `src` by following head/tail edges inside `heap`. */
  ghost predicate Reachable(heap: set<Obj>, src: Obj, dst: Obj)
    reads heap`head, heap`tail
  {
    exists p :: IsPath(heap, p) && p[0] == src && p[|p| - 1] == dst
  }

  /** `dst` is reachable inside `heap` from one of the non-null entries of `roots`. */
  ghost predicate ReachableFrom(heap: set<Obj>, roots: seq<Obj?>, dst: Obj)
    reads heap`head, heap`tail
  {
    exists j :: 0 <= j < |roots| && roots[j] != null && Reachable(heap, roots[j], dst)
  }

  /** Every object of the heap reaches itself by the empty walk. */
  lemma ReachableSelf(heap: set<Obj>, o: Obj)
    requires o in heap
    ensures Reachable(heap, o, o)
  {
    assert IsPath(heap, [o]);
  }

  /** Whatever a child of `o` reaches, `o` reaches too. */
  lemma ReachableFromChild(heap: set<Obj>, o: Obj, c: Obj, x: Obj)
    requires o in heap && Edge(o, c) && Reachable(heap, c, x)
    ensures Reachable(heap, o, x)
  {
    var p :| IsPath(heap, p) && p[0] == c && p[|p| - 1] == x;
    var q := [o] + p;
    assert forall i :: 0 < i < |q| ==> q[i] == p[i - 1];
    assert IsPath(heap, q);
  }

  /** Adding an object whose children (if it is a pair) are already in a closed heap keeps it closed. */
  lemma ClosedAdd(heap: set<Obj>, o: Obj)
    requires Closed(heap)
    requires o.kind == ObjPair ==> o.head != null && o.tail != null && o.head in heap && o.tail in heap
    ensures Closed(heap + {o})
  {
  }

  /** Being reachable from the first `i + 1` roots means being reachable from the first `i` or from root `i`. */
  lemma ReachableFromSnoc(heap: set<Obj>, roots: seq<Obj?>, i: nat, x: Obj)
    requires i < |roots|
    ensures ReachableFrom(heap, roots[..i + 1], x) <==>
      ReachableFrom(heap, roots[..i], x) || (roots[i] != null && Reachable(heap, roots[i], x))
  {
  }
}
