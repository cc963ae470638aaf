# ft_containers in Dafny

A model of the core of ft_containers, a re-implementation of several C++98
standard containers in namespace `ft`:

- **`RBTree`** (`include/rbtree.hpp`): a red-black tree whose `RBNode`s are
  linked by parent, left and right pointers.
  - It supports insertion only: a binary-search descent (`binaryInsert`), left
    and right rotations, and the bottom-up repair `fixTree`.
  - The nodes live in an arena: a sequence of node records, with indices as
    pointers and -1 as null.
  - A ghost abstract tree records what the arena stores, and carries the
    invariants:
    - search-tree order;
    - links consistent in both directions;
    - no red node with a red child;
    - equal black height on every path;
    - a black root.
- **`vector`** (`include/vector.hpp`): a class over an `array<T>` buffer, with
  the fields `_size` and `_capacity` updated in place.
  - The exceptions `length_error` and `out_of_range` become `Outcome` and
    `Result` values.
  - The allocator's `max_size()` becomes the constant `maxSize`.
  - Every operation is specified by a function on the element sequence
    (`Fill`, `InsertAt`, `RemoveRange`, `Resized`).
- **`set` and `map`** (`include/set.hpp`, `include/map.hpp`): ordered adapters
  that keep their own `_size` next to a tree.
  - The members they call on the tree (`find`, `remove`, `root`, `clear`) do
    not exist in `include/rbtree.hpp`. They are modelled by an abstract search
    tree `Bst` (module `SearchTrees`) that promises only its effect on the
    stored keys and values.
  - `lower_bound` and `upper_bound` are the source's descent loops over that
    tree, each proved against a reference function on the iteration order.
  - Iterators are `End` or `At(key)`.
- **`stack`** (`include/stack.hpp`): a LIFO adapter over the vector.
- **Algorithm helpers** (`include/ft_algorithm.hpp`): `equal`,
  `lexicographical_compare`, `min`, `swap`, and `pair` with `make_pair` and
  six comparison operators. `include/algorithm.hpp` repeats `min`, `swap` and
  `lexicographical_compare` word for word, and one Dafny member models each
  pair of copies.

Elements and keys are `int`, since the source compares them with the
element type's own `<` and `==`. The map's mapped type is generic, and its
`T()` is the constant `initial` fixed at construction. Sizes are unbounded
`nat`s.

## Model

| member | source | states |
|---|---|---|
| `Algorithms.Equal` | include/ft_algorithm.hpp:9-17 | true exactly when both ranges have the same length and agree at every position |
| `Algorithms.LexicographicalCompare` | include/ft_algorithm.hpp:110-122 | the loop's answer is `LexLess`: an exhausted first range is less exactly when the second is not; otherwise a smaller head decides, and equal heads move on |
| `Algorithms.LexFirstMismatch` | include/algorithm.hpp:22-23 | at the first position where the ranges differ, the result is whether the first range's element is the smaller |
| `Algorithms.LexPrefix` | include/algorithm.hpp:18-30 | a proper prefix is less than the longer range, and no range is less than its own prefix, so equal ranges compare false |
| `Algorithms.LexIrreflexive` | include/ft_algorithm.hpp:120-121 | no range is less than itself, because both ranges run out together |
| `Algorithms.LexTrichotomy` | include/ft_algorithm.hpp:111-122 | equal ranges are not less in either direction; of two different ranges exactly one is less than the other |
| `Algorithms.LexTransitive` | include/ft_algorithm.hpp:113-118 | the order is transitive |
| `Algorithms.Min` | include/ft_algorithm.hpp:98-101 | the result is at most both arguments and is one of them (`b` on ties) |
| `Algorithms.Swap` | include/algorithm.hpp:11-16 | the two locations exchange their values |
| `Algorithms.MakePair` | include/ft_algorithm.hpp:146-149 | `first` is the first argument and `second` the second |
| `Algorithms.PairNe` | include/ft_algorithm.hpp:151-159 | `!=` holds exactly when the firsts differ: `==` compares `first` only |
| `Algorithms.PairLt` | include/ft_algorithm.hpp:161-164 | `<` is the lexicographic order on (`first`, `second`) |
| `Algorithms.PairLe` | include/ft_algorithm.hpp:166-169 | `<=` holds exactly when `<` holds or the pairs are identical |
| `Algorithms.PairGt` | include/ft_algorithm.hpp:171-174 | `>` holds exactly when neither `<` holds nor the pairs are identical |
| `Algorithms.PairGe` | include/ft_algorithm.hpp:176-179 | `>=` holds exactly when `>` holds or the pairs are identical |
| `Algorithms.PairTrichotomy` | include/ft_algorithm.hpp:162-163 | `<` is a strict total order: identical pairs are not less in either direction, and of two different pairs exactly one is less |
| `Algorithms.PairOrderByKey` | include/ft_algorithm.hpp:152-163 | between pairs that `==` tells apart, `<` is decided by `first` alone |
| `Algorithms.PairEqIgnoresSecond` | include/ft_algorithm.hpp:152-154 | (1, 1) `==` (1, 2) although (1, 1) `<` (1, 2), and (1, 2) `<=` (1, 1) fails |
| `Vectors.RemoveInsertAt` | include/vector.hpp:364-430 | erasing the range that an insertion at `i` created restores the old elements |
| `Vectors.ResizedBack` | include/vector.hpp:286-300 | growing with one value and shrinking back restores the elements |
| `Vectors.Vector.constructor` | include/vector.hpp:146-150 | an empty vector with capacity 0 |
| `Vectors.Vector.Filled` | include/vector.hpp:152-159 | `n` copies of `val`, capacity `n` |
| `Vectors.Vector.FromRange` | include/vector.hpp:162-168 | the elements of the range, with capacity equal to its length |
| `Vectors.Vector.Copy` | include/vector.hpp:170-172 | the other's elements and bound, with capacity equal to the other's size |
| `Vectors.Vector.CopyAssign` | include/vector.hpp:174-177 | the elements become the other's; capacity becomes the larger of the old capacity and the other's size |
| `Vectors.Vector.Clear` | include/vector.hpp:184-188 | no elements; buffer and capacity unchanged |
| `Vectors.Vector.AssignRange` | include/vector.hpp:190-210 | the elements become the range; capacity is the larger of the old capacity and the range's length |
| `Vectors.Vector.AssignFill` | include/vector.hpp:212-228 | the elements become `n` copies of `val`; capacity is the larger of the old capacity and `n` |
| `Vectors.Vector.Reserve` | include/vector.hpp:234-248 | `length_error` exactly when `n > max_size()`; capacity becomes `n` only when that succeeds and `n` exceeds it; the elements never change |
| `Vectors.Vector.Size` | include/vector.hpp:282-284 | the number of elements |
| `Vectors.Vector.Resize` | include/vector.hpp:286-300 | on success the elements are the old ones cut or padded with `val` to `n`; when `reserve` throws, the shrinking step has already happened |
| `Vectors.Vector.Capacity` | include/vector.hpp:302-304 | never less than the number of elements |
| `Vectors.Vector.Empty` | include/vector.hpp:306-308 | true exactly when there are no elements |
| `Vectors.Vector.Get` | include/vector.hpp:310-318 | element `n` of an in-range index |
| `Vectors.Vector.At` | include/vector.hpp:320-330 | `out_of_range` exactly when `n >= size()`, otherwise element `n` |
| `Vectors.Vector.Front` | include/vector.hpp:332-338 | the first element |
| `Vectors.Vector.Back` | include/vector.hpp:340-346 | the last element |
| `Vectors.Vector.PushBack` | include/vector.hpp:348-352 | `val` is appended; capacity grows to exactly `size + 1` when the buffer is full; `length_error` past `max_size()` |
| `Vectors.Vector.PopBack` | include/vector.hpp:354-356 | drops the last element; on an empty vector `_size - 1` wraps to `SIZE_MAX`, so `reserve` throws `length_error` (with `max_size()` below `SIZE_MAX`) and nothing changes |
| `Vectors.Vector.Insert` | include/vector.hpp:358-362 | `val` is inserted at `pos`, and the index returned is `pos`; `length_error` exactly when size + 1 > max_size; a full buffer grows to exactly size + 1 |
| `Vectors.Vector.InsertFill` | include/vector.hpp:364-377 | the elements become the old ones with `n` copies of `val` spliced in at `pos` |
| `Vectors.WriteFill` | include/vector.hpp:371-374 | the two copy loops write the splice of the fill into the old elements |
| `Vectors.Vector.InsertRange` | include/vector.hpp:379-399 | the elements become the old ones with the range spliced in at `pos`; `length_error` exactly when size + n > max_size; a buffer too small grows to exactly size + n |
| `Vectors.WriteRange` | include/vector.hpp:394-398 | the two copy loops write the splice of the range into the old elements |
| `Vectors.Vector.Erase` | include/vector.hpp:401-412 | the element at `pos` is removed, the tail shifts left in place, and `pos` is returned |
| `Vectors.Vector.EraseRange` | include/vector.hpp:414-430 | `[first, last)` is removed, the tail shifts left, and `first` is returned |
| `Vectors.Vector.Swap` | include/vector.hpp:432-436 | the two vectors exchange elements and capacities |
| `Vectors.VectorEq` | include/vector.hpp:450-459 | true exactly when the element sequences are equal |
| `Vectors.VectorNe` | include/vector.hpp:461-464 | true exactly when the element sequences differ |
| `Vectors.VectorLt` | include/vector.hpp:466-469 | the lexicographic order on the elements |
| `Vectors.VectorLe` | include/vector.hpp:471-474 | lexicographically less, or equal |
| `Vectors.VectorGt` | include/vector.hpp:476-479 | neither less nor equal |
| `Vectors.VectorGe` | include/vector.hpp:481-484 | the other is less, or the two are equal |
| `Stacks.Stack.constructor` | include/stack.hpp:22 | the container is a fresh copy of `cont` |
| `Stacks.Stack.Assign` | include/stack.hpp:26-29 | the elements become the other's |
| `Stacks.Stack.Top` | include/stack.hpp:31-37 | the last element of the container |
| `Stacks.Stack.Empty` | include/stack.hpp:39-41 | true exactly when `size()` is 0 and when there are no elements |
| `Stacks.Stack.Size` | include/stack.hpp:43-45 | the number of elements |
| `Stacks.Stack.Push` | include/stack.hpp:47-49 | `value` is appended, so it becomes `top()` and `size()` grows by one; `length_error` passes through |
| `Stacks.Stack.Pop` | include/stack.hpp:51-53 | drops the top and `size()` shrinks by one; fails exactly when the stack is empty or the container's `resize` bound is exceeded, and an empty stack reports `length_error` and is unchanged |
| `Stacks.Stack.PushThenPop` | include/stack.hpp:47-53 | a successful `push` followed by `pop` restores the contents |
| `Stacks.StackEq` | include/stack.hpp:56-59 | `==` on the containers: equal element sequences |
| `Stacks.StackNe` | include/stack.hpp:61-64 | different element sequences |
| `Stacks.StackLt` | include/stack.hpp:66-69 | lexicographically less from the bottom |
| `Stacks.StackLe` | include/stack.hpp:71-74 | less or equal |
| `Stacks.StackGt` | include/stack.hpp:76-79 | the other is lexicographically less |
| `Stacks.StackGe` | include/stack.hpp:81-84 | not less |
| `SearchTrees.Find` | include/set.hpp:124 | the tree's `find`: a value exactly when the key is stored |
| `SearchTrees.Insert` | include/set.hpp:127 | the tree's `insert`: the result is a search tree holding the old keys plus `k` (one more key exactly when `k` was absent), `k` maps to `v`, and every other key keeps its value |
| `SearchTrees.Remove` | include/set.hpp:262 | the tree's `remove`: the result is a search tree holding the old keys minus `k` |
| `SearchTrees.SortedSameElements` | include/set.hpp:302-305 | two strictly increasing sequences are equal exactly when they hold the same elements |
| `SearchTrees.FirstAtLeastLeast` | include/set.hpp:151-156 | the reference lower bound is the least element not less than the key, or `End` when every element is less |
| `SearchTrees.FirstAboveLeast` | include/set.hpp:201-206 | the reference upper bound is the least element greater than the key, or `End` when none is |
| `SearchTrees.FirstAtLeastAbsent` | include/set.hpp:143-145 | for an absent key, lower and upper bound coincide |
| `SearchTrees.LowerBound` | include/set.hpp:157-173 | the descent over a non-empty search tree returns the reference lower bound of its iteration order |
| `SearchTrees.UpperBound` | include/set.hpp:207-224 | the descent returns the reference upper bound |
| `OrderedSets.OrderedSet.constructor` | include/set.hpp:50-53 | an empty set |
| `OrderedSets.OrderedSet.FromRange` | include/set.hpp:61-69 | holds exactly the elements of the range |
| `OrderedSets.OrderedSet.Copy` | include/set.hpp:71-77 | holds the other's elements |
| `OrderedSets.OrderedSet.Assign` | include/set.hpp:83-92 | from another set: its elements; from itself: empty |
| `OrderedSets.OrderedSet.AssignChecked` | include/set.hpp:83-92 | with a self-assignment check: the other's elements in every case |
| `OrderedSets.OrderedSet.Clear` | include/set.hpp:110-115 | empty, and `_size` is 0 |
| `OrderedSets.OrderedSet.Empty` | include/set.hpp:117 | true exactly when there are no elements |
| `OrderedSets.OrderedSet.Size` | include/set.hpp:119 | `_size` equals the number of elements |
| `OrderedSets.OrderedSet.Insert` | include/set.hpp:123-130 | returns `(value, false)` when present; otherwise `value` is added, `_size` grows by one, and the flag is true |
| `OrderedSets.OrderedSet.InsertHint` | include/set.hpp:132-135 | ignores the hint and returns the element's iterator |
| `OrderedSets.OrderedSet.InsertRange` | include/set.hpp:137-141 | the elements become the old ones plus those of the range |
| `OrderedSets.OrderedSet.Find` | include/set.hpp:253-259 | `At(key)` when present, `End` otherwise |
| `OrderedSets.OrderedSet.LowerBound` | include/set.hpp:151-174 | `End` for an empty set; otherwise the least element not less than the key, or `End` if there is none |
| `OrderedSets.OrderedSet.UpperBound` | include/set.hpp:201-225 | the least element greater than the key, or `End` |
| `OrderedSets.OrderedSet.EqualRange` | include/set.hpp:143-149 | (lower bound, upper bound); starts at the key when present, and is empty when the key is absent |
| `OrderedSets.OrderedSet.Erase` | include/set.hpp:261-264 | the element at `pos` is removed and `_size` drops by one |
| `OrderedSets.OrderedSet.EraseKey` | include/set.hpp:266-274 | returns 1 and removes the key when present; returns 0 and changes nothing otherwise |
| `OrderedSets.OrderedSet.Count` | include/set.hpp:284-290 | the full scan counts 1 when the key is present and 0 otherwise |
| `OrderedSets.SetEq` | include/set.hpp:302-305 | `equal` over the iteration orders holds exactly when both sets hold the same keys |
| `OrderedSets.SetNe` | include/set.hpp:307-310 | some key is in one set and not the other |
| `OrderedSets.SetLt` | include/set.hpp:312-315 | lexicographic order on the iteration orders |
| `OrderedSets.SetLe` | include/set.hpp:317-320 | less, or equal |
| `OrderedSets.SetGt` | include/set.hpp:322-325 | neither less nor equal |
| `OrderedSets.SetGe` | include/set.hpp:327-330 | the other is less, or equal |
| `OrderedSets.SelfAssignExample` | include/set.hpp:84-90 | assigning the set {1} to itself leaves it empty |
| `OrderedMaps.ValueCompareByKey` | include/map.hpp:30-41 | `value_compare` is a strict weak order whose incomparable entries are exactly those with the same key |
| `OrderedMaps.FirstValue` | include/map.hpp:150-154 | a key has a first value in a range exactly when it occurs in the range |
| `OrderedMaps.FirstValueSnoc` | include/map.hpp:152-153 | appending an entry sets the first value only of a key not seen before |
| `OrderedMaps.OrderedMap.constructor` | include/map.hpp:61-64 | an empty map |
| `OrderedMaps.OrderedMap.FromRangeAsWritten` | include/map.hpp:71-79 | over a tree whose insert replaces an equal key's value, the keys are those of the range, but `_size` is the length of the range |
| `OrderedMaps.OrderedMap.FromRange` | include/map.hpp:71-79 | with the size kept by `insert`: a valid map with the range's keys, each holding its first value |
| `OrderedMaps.OrderedMap.AssignAsWritten` | include/map.hpp:87-97 | the target is left empty whatever the other holds |
| `OrderedMaps.OrderedMap.Assign` | include/map.hpp:87-97 | copying the entries: the keys and values become the other's |
| `OrderedMaps.OrderedMap.Index` | include/map.hpp:114-121 | a present key's value with nothing changed; an absent key is inserted with `T()`, which is returned, and `_size` grows by one |
| `OrderedMaps.OrderedMap.Clear` | include/map.hpp:129-132 | empty, and `_size` is 0 |
| `OrderedMaps.OrderedMap.Empty` | include/map.hpp:134 | true exactly when there are no entries |
| `OrderedMaps.OrderedMap.Size` | include/map.hpp:135 | `_size` equals the number of entries |
| `OrderedMaps.OrderedMap.Insert` | include/map.hpp:138-145 | `(key, false)` with the tree unchanged (no overwrite) when present; otherwise the entry is added and `_size` grows by one |
| `OrderedMaps.OrderedMap.InsertHint` | include/map.hpp:146-149 | ignores the hint; inserts as `insert` does |
| `OrderedMaps.OrderedMap.InsertRange` | include/map.hpp:150-154 | new keys take the value of their first occurrence in the range; existing keys keep theirs |
| `OrderedMaps.OrderedMap.EqualRange` | include/map.hpp:156-161 | (lower bound, upper bound); starts at the key when present and is empty otherwise |
| `OrderedMaps.OrderedMap.LowerBound` | include/map.hpp:163-188 | the entry with the least key not less than the query, or `End` (also for an empty map) |
| `OrderedMaps.OrderedMap.UpperBound` | include/map.hpp:216-242 | the entry with the least key greater than the query, or `End` |
| `OrderedMaps.RangeOvercountExample` | include/map.hpp:75-78 | the range [(1, 10), (1, 20)] leaves `_size` at 2 over the single key 1 |
| `OrderedMaps.AssignDropsExample` | include/map.hpp:88-95 | assigning a map holding key 1 leaves the target with no keys |
| `RBNodes.NewNode` | include/rbtree.hpp:22 | a new node is red, with null parent, left and right |
| `RBNodes.GetSibling` | include/rbtree.hpp:41-45 | null or a node of the arena, and null at the root |
| `RBNodes.GetUncle` | include/rbtree.hpp:47-50 | null or a node of the arena, and null at the root |
| `RBNodes.GetGrandParent` | include/rbtree.hpp:52-55 | null or a node of the arena, and null at the root |
| `RBNodes.NavigationAgrees` | include/rbtree.hpp:36-45 | in a stored tree, `isRoot`, `isLeft` and `isRight` tell the node's position (so `isLeft` and `isRight` never both hold), and `getSibling` and `getGrandParent` return the nodes the tree has there |
| `RBNodes.UncleAgrees` | include/rbtree.hpp:47-50 | `getUncle` is the parent's sibling: null when the node or its parent is the root |
| `RBNodes.RotateLeftRep` | include/rbtree.hpp:152-170 | the links the left rotation writes store the rotated tree, including a new root |
| `RBNodes.RotateRightRep` | include/rbtree.hpp:172-190 | the links the right rotation writes store the rotated tree |
| `RBNodes.BinaryInsertLink` | include/rbtree.hpp:106-107 | linking the new node into the slot reached, with its parent set, stores the tree with the new leaf there |
| `RBSpec.RotateLeftKeeps` | include/rbtree.hpp:152-170 | a left rotation keeps the in-order key sequence and the node set of the whole tree |
| `RBSpec.RotateRightKeeps` | include/rbtree.hpp:172-190 | a right rotation keeps the in-order key sequence and the node set |
| `RBSpec.BstInsertFresh` | include/rbtree.hpp:89-108 | descending with `<` and linking a fresh key as a leaf keeps the tree sorted and adds exactly that key |
| `RBSpec.BstInsertDuplicate` | include/rbtree.hpp:95-106 | with a key already present, the new leaf takes the matched node's slot and every key below it leaves the tree |
| `RBSpec.DuplicateInsertDropsKeys` | include/rbtree.hpp:95-106 | inserting 2 again into the tree 1, 2, 3 leaves only the key 2 |
| `RBSpec.FixupAtRoot` | include/rbtree.hpp:113-115 | case 1: blackening the root repairs the tree |
| `RBSpec.FixupBlackParent` | include/rbtree.hpp:118 | a black parent leaves nothing to repair |
| `RBSpec.FixupRecolor` | include/rbtree.hpp:120-125 | red uncle: recolouring moves the only violation to the grandparent |
| `RBSpec.FixupZigZagLeft` | include/rbtree.hpp:130-133 | a zig-zag rotated left at the parent leaves the repair invariant one level down |
| `RBSpec.FixupZigZagRight` | include/rbtree.hpp:135-138 | the mirror image |
| `RBSpec.FixupRotateRight` | include/rbtree.hpp:141-145 | left-left with a black uncle: recolour and rotate the grandparent right, giving a red-black tree |
| `RBSpec.FixupRotateLeft` | include/rbtree.hpp:141-147 | right-right: recolour and rotate the grandparent left, giving a red-black tree |
| `RBTrees.RBTree.constructor` | include/rbtree.hpp:194 | an empty tree with a null root |
| `RBTrees.RBTree.SetParent` | include/rbtree.hpp:25 | only that node's parent link changes |
| `RBTrees.RBTree.SetLeft` | include/rbtree.hpp:26 | only that node's left link changes |
| `RBTrees.RBTree.SetRight` | include/rbtree.hpp:27 | only that node's right link changes |
| `RBTrees.RBTree.SetColor` | include/rbtree.hpp:28 | the node is repainted and the tree stays linked with the same keys |
| `RBTrees.RBTree.SetData` | include/rbtree.hpp:29 | only that node's data changes |
| `RBTrees.RBTree.CreateNode` | include/rbtree.hpp:85-87 | a new red node without links, not yet part of the tree |
| `RBTrees.RBTree.BinaryInsert` | include/rbtree.hpp:89-108 | the tree becomes the `<`-descent insertion of the new leaf; when the key is present, the matched node's subtree is cut off and the new node's parent link points at the detached node |
| `RBTrees.RBTree.BinaryInsertOrReplace` | include/rbtree.hpp:89-108 | with a key present, the tree is unchanged; otherwise the new leaf is linked at the slot reached |
| `RBTrees.RBTree.RotateLeft` | include/rbtree.hpp:152-170 | the tree stays linked, becomes the left rotation at `x`, and keeps its keys |
| `RBTrees.RBTree.RotateRight` | include/rbtree.hpp:172-190 | the tree stays linked, becomes the right rotation at `x`, and keeps its keys |
| `RBTrees.RBTree.FixTree` | include/rbtree.hpp:110-150 | from a red node whose only possible violation is a red parent, the tree becomes red-black with the same keys |
| `RBTrees.RBTree.FixBlackUncle` | include/rbtree.hpp:127-148 | cases 4 and 5: with a red parent and a black or null uncle, the tree becomes red-black with the same keys |
| `RBTrees.RBTree.Insert` | include/rbtree.hpp:197-201 | inserting a fresh key gives a red-black search tree holding exactly one more key |
| `RBTrees.RBTree.InsertOrReplace` | include/rbtree.hpp:197-201 | with the replace behaviour: a red-black search tree whose key set is the old one plus the key |

## Left out

- `RBTree::print_tree` and `_print_tree`: console output.
- The allocators: `allocate`, `construct`, `destroy`, `deallocate`, `get_allocator`, `max_size`. The vector's `max_size()` is the parameter `maxSize`.
- The iterator classes, `reverse_iterator`, and the `enable_if`/`is_integral` overload selection. Vector iterators are indices; set and map iterators are `End` or `At(key)`.
- `begin`, `end`, `rbegin`, `rend`, `key_comp` and `value_comp`.
- The test harness and `src/main.cpp`.
- The tree's `find`, `remove`, `clear`, `root`, `begin` and `end` are absent from `include/rbtree.hpp`. `SearchTrees.Bst` stands in for them. Its insert replaces the value of an equal key, as `RBTrees.RBTree.InsertOrReplace` does.
- `map::at` (include/map.hpp:103-112) returns a node pointer where `T&` is due, so it is ill-formed.
- Writing through the reference that `operator[]` returns is not modelled.
- `set::erase(first, last)` and `set::swap` are not modelled. They are built from `erase(key)`, the copy constructor and `operator=`, which are.
- `pair`'s constructors and its `operator=` are not modelled: the datatype `Pair` has value semantics.
- `pair`'s `==` compares `first` only. This differs from ISO/IEC 14882:2003 section 20.2.2, which compares both members. It is modelled as written and not listed as a finding, because `map` relies on it: the tree orders entries by key through it.
- Vectors.Vector.Get: an index past the end makes `operator[]` dereference `end()`, which is undefined behaviour, so the model requires an in-range index. `Front`, `Back` and `Stacks.Stack.Top` likewise require a non-empty container.
- Vectors.Vector.Erase: the standard requires a dereferenceable position. As written, `erase(end())` drops the last element and wraps `_size` when the vector is empty. The model requires `pos < size`.
- Vectors.Vector.constructor: `size_type` is unbounded except where the source relies on wrap-around. That happens once: `pop_back` on an empty vector computes `_size - 1` as `SIZE_MAX`. For it, the model assumes `maxSize < SIZE_MAX`. `std::allocator<T>` guarantees this only when `sizeof(T) > 1`: its `max_size()` is `SIZE_MAX / sizeof(T)`. When `max_size() == SIZE_MAX`, `pop_back` on an empty vector passes the `n > max_size()` test in `reserve` and reaches `allocate(SIZE_MAX)`, which fails with `bad_alloc` rather than `length_error`; the model does not cover that case.
- Default arguments are passed explicitly: `vector(n, val = value_type())` (`Vectors.Vector.Filled`), `resize(n, val = value_type())` (`Vectors.Vector.Resize`) and `stack(cont = Container())` (`Stacks.Stack.constructor`) take the value as an ordinary parameter.
- The vector's temporary copies (`vector tmp(*this)` in `insert` and `erase`) are modelled as snapshots of the element sequence, not as second vectors.
- OrderedSets.OrderedSet.Erase: the standard requires a dereferenceable iterator, so the model requires `pos` to name a key of the set. As written, `erase(end())` would hand a null node to the tree.
- OrderedMaps.OrderedMap.FromRangeAsWritten: its tree is `SearchTrees.Bst`, whose insert replaces the value of an equal key. `map(first, last)` is the only path in `set` and `map` that hands a repeated key to `RBTree::insert` without a `find` first. With include/rbtree.hpp as written, a repeated key whose node has children also cuts that subtree off (the first finding): the range [(2, a), (1, b), (3, c), (2, d)] leaves only key 2 with `_size` 4. The member states the key set of the replacing tree.
- RBTrees.RBTree.Insert: requires the key to be absent. The source's duplicate path is modelled by `RBTrees.RBTree.BinaryInsert` and reported under Findings.
- `RBTrees.RBTree.FixTree`: cases 4 and 5 are moved into the helper `FixBlackUncle`. It performs the same reads, rotations and recolourings.

## Findings

| source | as written | input that shows it | evidently intended | confidence | as-written member | corrected member |
|---|---|---|---|---|---|---|
| include/rbtree.hpp:95-106 | an equal key overwrites the matched node's data, then still stores the new node in the slot that holds the matched node, so the matched node and its subtree leave the tree | inserting 2 into the tree with root 2 and children 1 and 3 leaves only the key 2; the new node's parent link still points at the detached node, so `fixTree` reads that node (black) as the parent and the new root stays red: the result is not even red-black | replace the data in place and do not link the new node | high, not executed | `RBSpec.DuplicateInsertDropsKeys` | `RBTrees.RBTree.InsertOrReplace` |
| include/map.hpp:75-78 | the range constructor adds 1 to `_size` for every element, including repeated keys; it also calls `RBTree::insert` directly, so with the tree as written a repeated key whose node has children cuts that subtree off (the first finding) | the range [(1, 10), (1, 20)] gives `size()` 2 with one entry | count only the entries `insert` adds | high, not executed | `OrderedMaps.RangeOvercountExample` | `OrderedMaps.OrderedMap.FromRange` |
| include/map.hpp:87-97 | `operator=` builds a fresh empty tree and copies only the comparator and allocator | assigning a map that holds key 1 leaves the target empty | copy the other's entries | high, not executed | `OrderedMaps.AssignDropsExample` | `OrderedMaps.OrderedMap.Assign` |
| include/set.hpp:83-92 | `operator=` destroys its own tree before inserting `other`'s elements, so self-assignment inserts from an already emptied set | `s = s` with s holding 1 leaves s empty | skip the work when `&other == this` | high, not executed | `OrderedSets.SelfAssignExample` | `OrderedSets.OrderedSet.AssignChecked` |
