# Singly linked list and digit-list integer

A Dafny model of the header `Rust/LinkedList/LinkedList.hpp`. It covers three entities.

- `Node<T>` is a value plus a `next` pointer.
- `LinkedList<T>` is a singly linked list of such nodes. Its fields are `head` and `size`. Its operations are `empty`, `front`, `addFront`, `removeFront`, `size`, the destructor's clearing loop, the iterative `reverse`, the recursive `reverseRecursive` with its helper `_reverse_recursive`, and `deleteKey`.
- `Int` is a non-negative integer stored one decimal digit per node in a `LinkedList<int>`.

The model is imperative, like the source.

- `Node` and `LinkedList` are classes whose methods update `head`, `size` and the nodes' `next` fields in place.
- Every list carries two ghost sequences:
  - `nodes`: the chain of nodes from the head on;
  - `contents`: the values those nodes hold.
- `LinkedList.Valid()` is the structural invariant:
  - the chain is null-terminated and acyclic;
  - no node appears twice;
  - `head` is its first node;
  - `size` counts its nodes;
  - node `k` holds `contents[k]`.
- Each method is proved against a value-level specification in module `SeqSpec`:
  - `Reversed` for both reversals;
  - `RemoveFirst` and `FirstIndex` for `deleteKey`.
  The lemmas there state what those specifications mean: positionwise reversal, involution, permutation, and removal of exactly the first occurrence.

`Int` keeps the order the code produces. The ones digit is at the head, so `Int(905)` holds the chain 5, 0, 9. This matches the class comment ("starting from ones") and `value()`, which weights the head digit by 1. A description that lists the digits most-significant first does not match the code; the model follows the code.

The `std::range_error` the source throws becomes a `Result` value:
- `EmptyList` for `front()` on an empty list;
- `NegativeNumber` for `Int(n)` with `n < 0`.

Files:
- `seq_spec.dfy`, module `SeqSpec`: the sequence specifications and their lemmas.
- `linked_list.dfy`, module `LinkedLists`: `Node`, `LinkedList`, the chain predicates and the distinctness lemmas.
- `digit_int.dfy`, module `DigitInts`: `Int`, the digit functions `Digits` / `DigitsValue` and their round-trip lemmas.

## Model

| member | source | states |
|---|---|---|
| LinkedLists.Node.constructor | Rust/LinkedList/LinkedList.hpp:20 | a new node holds the given value and has no successor |
| LinkedLists.LinkedList.constructor | Rust/LinkedList/LinkedList.hpp:88-89 | a new list is valid, with a null head, size 0 and empty contents |
| LinkedLists.LinkedList.Empty | Rust/LinkedList/LinkedList.hpp:102-105 | the null-head test holds exactly when the contents are empty, and exactly when `size` is 0 |
| LinkedLists.LinkedList.Front | Rust/LinkedList/LinkedList.hpp:111-119 | it fails with the empty-list error exactly when the list is empty; otherwise it returns the first element; it modifies nothing, being a function |
| LinkedLists.LinkedList.AddFront | Rust/LinkedList/LinkedList.hpp:125-132 | keeps `Valid`; the contents become `[e] + old contents`; size grows by exactly one; the new head is a fresh node placed before the old chain; `front()` then returns `e`; no existing node is modified (only `this` is in the frame) |
| LinkedLists.LinkedList.RemoveFront | Rust/LinkedList/LinkedList.hpp:137-144 | keeps `Valid`; on an empty list nothing changes; otherwise the contents and the chain lose their first entry and size drops by one |
| LinkedLists.LinkedList.Size | Rust/LinkedList/LinkedList.hpp:150-153 | the stored count equals the number of reachable nodes and the number of elements |
| LinkedLists.LinkedList.Clear | Rust/LinkedList/LinkedList.hpp:92-96 | the destructor's loop of `removeFront` until `empty` terminates with a valid empty list: null head, size 0 |
| LinkedLists.LinkedList.Reverse | Rust/LinkedList/LinkedList.hpp:199-215 | keeps `Valid`; the contents and the node chain become the reversal of the old ones; size is unchanged; the same node multiset is reused, so no node is allocated or lost; lists of 0 or 1 elements are untouched |
| LinkedLists.LinkedList.ReverseRecursive | Rust/LinkedList/LinkedList.hpp:219-222 | keeps `Valid`; the contents become the reversal of the old contents, as with `Reverse`, over the same nodes; size is unchanged |
| LinkedLists.LinkedList.ReverseRecursiveFrom | Rust/LinkedList/LinkedList.hpp:265-276 | relinks the chain starting at `node` into its reversal; returns the old last node as the new head; the old head ends with a null `next`; no node's value changes |
| LinkedLists.LinkedList.DeleteKey | Rust/LinkedList/LinkedList.hpp:228-254 | keeps `Valid`; the contents lose exactly the first occurrence of `key`; size drops by one exactly when `key` occurred; with no match the chain and head are unchanged; otherwise the chain loses exactly the node at the first matching position, and a match at the head moves `head` to the second node |
| LinkedLists.LinkedBackwards | Rust/LinkedList/LinkedList.hpp:207-213 | nodes each linked to their predecessor, the first having a null link, form exactly the chain of the reversed sequence, with the last node as its head |
| LinkedLists.Unlinked | Rust/LinkedList/LinkedList.hpp:247-250 | pointing the predecessor of node `i` (or the head) past it leaves a valid chain of the remaining nodes, with their values in order |
| SeqSpec.ReversedAt | Rust/LinkedList/LinkedList.hpp:199-215 | position `k` of the reversal holds the element at position `length - 1 - k` |
| SeqSpec.ReversedElements | Rust/LinkedList/LinkedList.hpp:199-215 | reversal is a permutation: same multiset of elements |
| SeqSpec.ReversedTwice | Rust/LinkedList/LinkedList.hpp:199-215 | reversing twice restores the original order |
| SeqSpec.ReversedShort | Rust/LinkedList/LinkedList.hpp:201-202 | sequences of length 0 or 1 equal their reversal, which is why the early return is correct |
| SeqSpec.FirstIndex | Rust/LinkedList/LinkedList.hpp:233-241 | the position the scan stops at holds `key`, and `key` does not occur before it |
| SeqSpec.FirstIndexAt | Rust/LinkedList/LinkedList.hpp:233-241 | a position holding `key` with no earlier occurrence is the first index |
| SeqSpec.RemoveFirstAbsent | Rust/LinkedList/LinkedList.hpp:243-245 | removing an absent key changes nothing |
| SeqSpec.RemoveFirstAt | Rust/LinkedList/LinkedList.hpp:247-253 | removing the key whose first occurrence is at `i` gives the elements before `i` followed by those after it, in order |
| SeqSpec.RemoveFirstElements | Rust/LinkedList/LinkedList.hpp:228-254 | removal takes away exactly one copy of `key` when present and nothing else; the length drops by one exactly when `key` occurs |
| DigitInts.Int.constructor | Rust/LinkedList/LinkedList.hpp:312-316 | for `n >= 0`, the do-while loop of `addFront(n % 10)` followed by `reverse()` leaves a valid list holding the decimal digits of `n`, ones digit first; there is at least one digit (`0` gives `[0]`), each digit is in 0..9, and there is no leading zero |
| DigitInts.Int.FromInt | Rust/LinkedList/LinkedList.hpp:307-317 | `Int(int n)` fails with the negative-number error exactly when `n < 0`; otherwise it yields a fresh valid `Int` holding the digits of `n` |
| DigitInts.Int.Value | Rust/LinkedList/LinkedList.hpp:340-351 | the cursor loop returns the number the digit list stands for, head digit worth 1 |
| DigitInts.Int.ValueRoundTrip | Rust/LinkedList/LinkedList.hpp:307-351 | constructing from `n` and calling `value()` gives back `n`; a negative `n` is refused |
| DigitInts.DigitsCanonical | Rust/LinkedList/LinkedList.hpp:312-315 | the loop's digits are non-empty, all in 0..9, and the last (most significant) one is non-zero for `n > 0` |
| DigitInts.PushDigit | Rust/LinkedList/LinkedList.hpp:312-315 | one turn of the digit loop preserves "reversed list followed by the digits still to push equals the digits of `n`" |
| DigitInts.AddDigit | Rust/LinkedList/LinkedList.hpp:344-348 | one turn of the `value()` loop preserves "accumulated sum plus weight times the value of the rest equals the total" |
| DigitInts.DigitsRoundTrip | Rust/LinkedList/LinkedList.hpp:285-286 | reading the digits of `n` back, ones first, gives `n` |
| DigitInts.CanonicalValuePositive | Rust/LinkedList/LinkedList.hpp:285-286 | a digit sequence whose most significant digit is non-zero stands for a positive number |
| DigitInts.CanonicalRoundTrip | Rust/LinkedList/LinkedList.hpp:285-286 | every canonical digit sequence is the digit sequence of the number it stands for, so the representation is unique |

## Left out

- `operator<<` for `LinkedList` (lines 182-192) and for `Int` (lines 355-366) is stream output. The `Int` printer also assigns where it should accumulate (line 360), so it does not print `value()`. It is not modelled.
- Memory management is not modelled, because Dafny is garbage-collected:
  - `new` is modelled only through freshness;
  - `delete` of removed nodes is not modelled;
  - `delete` of null cursors (lines 190, 214, 349) is not modelled;
  - freeing in the destructor is not modelled.
- `head()` and `setHead` (lines 160, 170-172) are not separate operations: they bypass the invariant. `setHead` appears only as the head relink inside `DeleteKey`.
- `Int(Node<int>*)` (line 291) sets a head without updating the size, so it breaks the size invariant. It is not modelled.
- `Int::getHead` (lines 294-295) is not a separate member. `Value` reads `num.head` directly.
- `Int::operator=` (lines 325-336) is not modelled. It clears the list and then repeats the constructor's digit loop from `rhs.value()`; under self-assignment it reads an already-cleared list.
- `Int::~Int` (lines 319-321) is the same loop as `LinkedList.Clear` and has no separate member.
- DigitInts.Int.constructor: takes a `nat` rather than a C++ `int`. The negative-number check and its error live in `DigitInts.Int.FromInt`, because a Dafny constructor cannot fail.
- DigitInts.Int.constructor: does not state that the digit nodes are fresh, only that the list object is.
- DigitInts.Int.Value: uses unbounded integers. The 32-bit `int` accumulator and the `long` power of ten, which can overflow on the step after the last digit, are not modelled.
- The `Node` getters and setters (lines 28-43) are written as direct field accesses.
- The `T(0)` default argument of the `Node` constructor (line 20) is C++-specific and is not modelled.
- The dynamic exception specification `throw(std::range_error)` is not modelled; failures are `Result` values.
- The ghost sequences `nodes` and `contents`, and the ghost parameter of `ReverseRecursiveFrom`, are proof devices. They have no counterpart in the source.
