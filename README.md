# tgc: the mark phase of a tiny mark-and-sweep collector

This project models the first half of a minimal mark-and-sweep garbage
collector written in C (`main.c`), and proves its contracts in Dafny.

- **Objects** (`objects.dfy`, module `Objects`). A heap object is either a
  scalar holding a 32-bit `int` or a pair whose `head` and `tail` point at
  other objects. It has a mark bit and a `next` link into the list of all
  allocated objects. The module also defines the object graph the pairs
  span: an edge runs from a pair to its head and to its tail. It defines
  walks along those edges, and reachability from one object or from a
  sequence of roots.
- **Marking** (`mark.dfy`, module `Marking`). `Mark` is the recursive
  depth-first traversal. It returns at once on an object that is already
  marked. Otherwise it sets the bit and, for a pair, marks the head and then
  the tail.
  - It terminates on cyclic graphs whose marked objects are closed under
    edges, as the VM invariant guarantees. The measure is the number of
    unmarked objects in the heap, which each marking step lowers.
  - Afterwards, everything reachable from the object is marked.
  - No mark bit is cleared.
  - Every object it newly marks is reachable from the object it started at.
- **The VM** (`vm.dfy`, module `Machine`). The class `VM` holds the root
  stack: an array of 256 slots and `stackSize`. It also holds `firstObject`,
  the head of the intrusive list of all allocated objects.
  - Ghost state: `objects` is that list as a sequence, and `heap` is its
    set of elements.
  - The invariant `Valid` says:
    - the slots in use hold allocated objects;
    - the `next` links spell out `objects`;
    - every pair's children are allocated;
    - the marked objects are closed under edges. This holds in the source
      because new objects start unmarked and only `mark` sets the bit.
  - `Push`, `Pop`, `NewObject`, `PushInt` and `PushPair` each state their
    whole effect on the stack and the list.
  - `MarkAll` marks from every slot in use. The objects it marks are
    exactly those reachable from the roots, plus those marked before.

The clock, I/O and allocation failure are not modelled: `malloc` always
returns a fresh object (see "Left out").

## Model

| member | source | states |
|---|---|---|
| Objects.Obj.constructor | main.c:73-78 | allocation sets the requested type, clears the mark bit and links `next` to the given list head; the payload is left unspecified, as `malloc` leaves it |
| Objects.ReachableSelf | main.c:104-117 | every object of the heap reaches itself, so the object `mark` starts from counts as reached |
| Objects.ReachableFromChild | main.c:113-116 | whatever the head or the tail of a pair reaches, the pair reaches too; this is why recursing into both children covers everything the pair reaches |
| Objects.ClosedAdd | main.c:92-102 | adding an object whose children, when it is a pair, are allocated keeps every pair's children inside the heap |
| Objects.ReachableFromSnoc | main.c:120-124 | being reachable from the first i+1 roots means being reachable from the first i roots or from root i, in both directions |
| Marking.MarkedAlongPath | main.c:104-117 | in a heap whose marked objects are closed under edges, every object on a walk that starts at a marked object is marked |
| Marking.ReachableMarked | main.c:104-117 | in such a heap, everything reachable from a marked object is marked |
| Marking.MarkClosedAdd | main.c:75 | adding an unmarked object keeps the marked objects closed under edges |
| Marking.Mark | main.c:104-117 | terminates on any graph, cyclic or shared, whose marked objects are closed under edges (the VM invariant); afterwards the object is marked, no mark is cleared, every newly marked object is reachable from it, and, called from the top level, everything reachable from it is marked |
| Machine.LinkedListElems | main.c:77-79 | the object list holds each allocated object exactly once: same elements as the heap, and as many |
| Machine.VM.constructor | main.c:42-47 | a new VM has an empty stack of capacity 256 and an empty object list, and satisfies the invariant |
| Machine.VM.Push | main.c:49-57 | requires a non-full stack; stores the value at the old top index, raises `stackSize` by one and changes no other slot |
| Machine.VM.Pop | main.c:59-69 | requires a non-empty stack; lowers `stackSize` by one, returns the old top, which is allocated, clears that slot and changes no other slot |
| Machine.VM.PushPop | main.c:49-69 | a push followed by a pop returns the pushed value, restores `stackSize` and leaves the array as it was except that the slot above the top is cleared |
| Machine.VM.NewObject | main.c:72-82 | returns a fresh unmarked object of the requested type that becomes `firstObject`, with the old head as its `next`; the list is the old list with exactly this one object in front; the stack is untouched |
| Machine.VM.PushInt | main.c:86-90 | prepends one fresh unmarked scalar carrying the given value to the list and pushes it; the invariant is kept |
| Machine.VM.PushPair | main.c:92-102 | requires two operands; the new pair is at the head of the list, its head is the old top and its tail the old second slot, `stackSize` drops by one, the pair becomes the top and the freed slot is cleared; the invariant is kept |
| Machine.VM.MarkAll | main.c:120-124 | afterwards every object reachable from a root is marked, no mark is cleared, and every newly marked object is reachable from a root; the invariant is kept |

## Left out

- `main` and its `printf` (main.c:126-129) hold no collector logic.
- Allocation failure: `newVM` and `newObject` never check `malloc` for NULL (main.c:43, 73), so allocation is modelled as always succeeding.
- Sweep, `free`, a live-object counter and a collection threshold do not exist in `main.c`, so none is modelled. `mark` is recursive, and the model keeps it recursive.
- The `union` of `value` with `head`/`tail` (main.c:15-24) is modelled as separate fields that mean something only under the type tag. Writing one does not clobber the other, and that aliasing is not modelled.
- The native recursion depth of `mark` and its stack-overflow risk are a platform resource limit, not behaviour.
- The loop counter of `markAll` is declared without an initialiser (main.c:121). That is undefined behaviour in C. `MarkAll` starts it at 0, the evident intent.
- The `assert`s guarding `push` and `pop` (main.c:51, 61) become preconditions. So does the pair constructor's need for two operands, which the two `pop` asserts enforce.
- The type tag and the `next` link are `const` fields set by the `Obj` constructor. `newObject` is the only code that writes them, and nothing writes them again, because the code has no sweep.
- `marked` is an `unsigned char` that the code only ever sets to 0 or 1. It is modelled as a `bool`, so the test `marked == 1` becomes a test of the flag.
- Stack slots at or above `stackSize` start out indeterminate in C (`malloc` in `newVM`). Dafny's array starts out null. The constructor promises nothing about those slots, and no operation reads them.
- `push` takes a non-null object allocated by this VM. The C accepts any pointer, but every call in `main.c` (lines 89 and 100) pushes an object it has just allocated, and `mark` would dereference a NULL.
- `PushPair` pops the head and the tail into locals and then writes both fields. The C writes `head` before the second `pop`. The order cannot be observed, because the new pair is on neither the stack nor any other pair.
- The ghost `heap` and pending-set arguments of `Mark` are proof devices. The C `mark` takes only the object.
