/**
 * The collector context: a bounded root stack and the intrusive list of all
 * allocated objects, with the allocator, the operand constructors and the
 * mark phase driven from the roots.
 */
module Machine {
  import opened Objects
  import opened Marking

  /** Capacity of the root stack. */
  const STACK_MAX: nat := 256

  /**
   * Following `next` from `first` visits the objects of `list` in order and
   * then reaches null, and `elems` holds exactly those objects, each visited
   * once.
   */
  ghost predicate LinkedList(first: Obj?, list: seq<Obj>, elems: set<Obj>)
    decreases |list|
  {
    if list == [] then first == null && elems == {}
    else first == list[0] && list[0] in elems && LinkedList(list[0].next, list[1..], elems - {list[0]})
  }

  /**
   * The list holds each element of `elems` exactly once: its elements are
   * those of `elems`, and it is as long as `elems` is large.
   */
  lemma {:induction false} LinkedListElems(first: Obj?, list: seq<Obj>, elems: set<Obj>)
    requires LinkedList(first, list, elems)
    ensures forall x :: x in elems <==> x in list
    ensures |elems| == |list|
    decreases |list|
  {
    if list != [] {
      LinkedListElems(list[0].next, list[1..], elems - {list[0]});
      assert elems == (elems - {list[0]}) + {list[0]};
      assert list == [list[0]] + list[1..];
    }
  }

  class VM {
    /** The root stack; slots `0 .. stackSize - 1` are in use. */
    const stack: array<Obj?>
    var stackSize: int
    /** Head of the list of all allocated objects, linked through `next`. */
    var firstObject: Obj?
    /** The list starting at `firstObject`, as a sequence. */
    ghost var objects: seq<Obj>
    /** The set of all allocated objects: the elements of `objects`. */
    ghost var heap: set<Obj>

    /** The slots of the root stack that are in use, bottom first. */
    ghost function Roots(): seq<Obj?>
      reads this`stackSize, stack
      requires 0 <= stackSize <= stack.Length
    {
      stack[..stackSize]
    }

    /** The stack has its fixed capacity, and every slot in use holds an allocated object. */
    ghost predicate StackValid()
      reads this`stackSize, this`heap, stack
    {
      stack.Length == STACK_MAX && 0 <= stackSize <= STACK_MAX &&
      forall i :: 0 <= i < stackSize ==> stack[i] != null && stack[i] in heap
    }

    /** `firstObject` and the `next` links spell out `objects`, whose elements form `heap`. */
    ghost predicate RegistryValid()
      reads this`firstObject, this`objects, this`heap
    {
      LinkedList(firstObject, objects, heap)
    }

    /**
     * The invariant between operations: the stack and the list are well
     * formed, every pair points at allocated objects, and the marked
     * objects are closed under head/tail edges.
     */
    ghost predicate Valid()
      reads this, stack, heap
    {
      StackValid() && RegistryValid() && Closed(heap) && MarkClosed(heap)
    }

    /** newVM: an empty stack and an empty object list. */
    constructor ()
      ensures Valid() && fresh(stack)
      ensures stackSize == 0 && firstObject == null && objects == []
    {
      stack := new Obj?[STACK_MAX];
      stackSize := 0;
      firstObject := null;
      objects := [];
      heap := {};
    }

    /** push: store `value` in the first free slot; the stack must not be full. */
    method Push(value: Obj)
      requires StackValid() && value in heap
      requires stackSize < STACK_MAX
      modifies this`stackSize, stack
      ensures StackValid()
      ensures stackSize == old(stackSize) + 1
      ensures stack[..] == old(stack[..])[old(stackSize) := value]
    {
      stack[stackSize] := value;
      stackSize := stackSize + 1;
    }

    /** pop: remove and return the top entry, clearing its slot; the stack must not be empty. */
    method Pop() returns (value: Obj)
      requires StackValid()
      requires stackSize > 0
      modifies this`stackSize, stack
      ensures StackValid()
      ensures stackSize == old(stackSize) - 1
      ensures value == old(stack[stackSize - 1]) && value in heap
      ensures stack[..] == old(stack[..])[stackSize := null]
    {
      stackSize := stackSize - 1;
      value := stack[stackSize];
      stack[stackSize] := null;
    }

    /** push followed by pop hands back the pushed value and leaves the array as it was, with the slot above the top cleared. */
    method PushPop(value: Obj) returns (popped: Obj)
      requires StackValid() && value in heap
      requires stackSize < STACK_MAX
      modifies this`stackSize, stack
      ensures popped == value
      ensures StackValid() && stackSize == old(stackSize)
      ensures stack[..] == old(stack[..])[stackSize := null]
    {
      Push(value);
      popped := Pop();
    }

    /**
     * newObject: allocate an unmarked object of the given type and link it in
     * front of the object list. Its payload is left for the caller to set.
     */
    method NewObject(kind: ObjectType) returns (obj: Obj)
      requires RegistryValid()
      modifies this`firstObject, this`objects, this`heap
      ensures fresh(obj)
      ensures obj.kind == kind && !obj.marked && obj.next == old(firstObject)
      ensures firstObject == obj && objects == [obj] + old(objects)
      ensures heap == old(heap) + {obj}
      ensures RegistryValid()
      ensures old(StackValid()) ==> StackValid()
    {
      obj := new Obj(kind, firstObject);
      firstObject := obj;
      objects := [obj] + objects;
      heap := heap + {obj};
      assert heap - {obj} == old(heap);
    }

    /** pushInt: allocate a scalar holding `intValue` and push it. */
    method PushInt(intValue: Int32)
      requires Valid()
      requires stackSize < STACK_MAX
      modifies this, stack
      ensures Valid()
      ensures |objects| == |old(objects)| + 1 && objects[1..] == old(objects) && fresh(objects[0])
      ensures objects[0].kind == ObjInt && objects[0].value == intValue && !objects[0].marked
      ensures stackSize == old(stackSize) + 1
      ensures stack[..] == old(stack[..])[old(stackSize) := objects[0]]
    {
      var obj := NewObject(ObjInt);
      obj.value := intValue;
      Push(obj);
    }

    /**
     * pushPair: allocate a pair, pop its head and then its tail off the
     * stack, and push the pair in their place.
     */
    method PushPair() returns (obj: Obj)
      requires Valid()
      requires stackSize >= 2
      modifies this, stack
      ensures Valid()
      ensures fresh(obj) && firstObject == obj && objects == [obj] + old(objects)
      ensures obj.kind == ObjPair && !obj.marked
      ensures obj.head == old(stack[stackSize - 1]) && obj.tail == old(stack[stackSize - 2])
      ensures stackSize == old(stackSize) - 1
      ensures stack[..] == old(stack[..])[stackSize - 1 := obj][stackSize := null]
    {
      ghost var heap0 := heap;
      obj := NewObject(ObjPair);
      var head := Pop();
      var tail := Pop();
      obj.head, obj.tail := head, tail;
      ClosedAdd(heap0, obj);
      MarkClosedAdd(heap0, obj);
      Push(obj);
    }

    /**
     * markAll: mark from every slot of the root stack in turn. Afterwards
     * everything reachable from a root is marked, no mark was cleared, and
     * every newly marked object is reachable from a root.
     */
    method MarkAll()
      requires Valid()
      modifies heap`marked
      ensures Valid()
      ensures forall x :: x in heap && ReachableFrom(heap, Roots(), x) ==> x.marked
      ensures forall x :: x in heap && old(x.marked) ==> x.marked
      ensures forall x :: x in heap && x.marked && !old(x.marked) ==> ReachableFrom(heap, Roots(), x)
    {
      ghost var roots := Roots();
      for i := 0 to stackSize
        invariant Valid() && roots == Roots()
        invariant forall x :: x in heap && ReachableFrom(heap, roots[..i], x) ==> x.marked
        invariant forall x :: x in heap && old(x.marked) ==> x.marked
        invariant forall x :: x in heap && x.marked && !old(x.marked) ==> ReachableFrom(heap, roots[..i], x)
      {
        Mark(stack[i], heap, {});
        forall x | x in heap
          ensures ReachableFrom(heap, roots[..i + 1], x) <==>
            ReachableFrom(heap, roots[..i], x) || Reachable(heap, stack[i], x)
        {
          ReachableFromSnoc(heap, roots, i, x);
        }
      }
      assert roots[..stackSize] == roots;
    }
  }
}
