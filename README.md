# Work3 collections: sparse matrix, simple list, simple stack

This project models the generic collections of the Work3 program and proves
what they promise.

- **Sparse matrix.** `SparseMatrix<T>` is a write-once 3D grid with bounds `maxX × maxY × maxZ`.
  - It stores only the cells written so far, in a dictionary keyed by the text `"x_y_z"`.
  - An unwritten in-range cell reads as the "empty item" of an injected policy (`ISparseMatrixCheckEmpty<T>`).
  - The figure policy (`FigureSparseMatrixCheckEmpty`) uses `null`.
  - Rendering shows each cell's text, or the placeholder `" - "` when the policy calls the value empty.
- **Simple list.** `SimpleList<T>` is a singly-linked list with `first`, `last` and `Count`. It has:
  - O(1) `Add` at the tail;
  - positional access that walks the chain (`GetItem`, `Get`), with an "Out of range!" error;
  - forward enumeration;
  - an in-place Hoare quicksort (`Sort`) that reaches positions by walking and exchanges node data (`Swap`).
- **Simple stack.** `SimpleStack<T>` pushes at the list's tail. It pops by walking to the next-to-last item and unlinking the tail. Popping an empty stack returns the element type's default value.

Modules:

- `Wrappers` (wrappers.dfy): `Result` and `Outcome`, which stand for the C# exceptions.
- `DictKeys` (dict_key.dfy): the `"x_y_z"` key, a decoder for it, and the proof that distinct cells get distinct keys.
- `SparseMatrices` (sparse_matrix.dfy): the emptiness policy and the matrix class.
- `Ordering` (ordering.dfy): `CompareTo`, plus sortedness and range permutation facts that the quicksort proof is built from.
- `SimpleLists` (simple_list.dfy): the list item and list classes.
- `SimpleStacks` (simple_stack.dfy): the stack class, plus sequence functions that state LIFO order.

The list's ghost `Nodes`, `Contents` and `Repr` fields are abstract state. `Valid()` ties them to the real links:
- `first`/`last` are the ends of the chain;
- `last.next` is null;
- `count` is the chain's length;
- the items are distinct.

`Add`, `Swap` and `Pop` state the new `Contents` exactly. `Exchange`, the partition steps and the sort state two things:
- `Contents` is a rearrangement of the old values within [low, high] and unchanged elsewhere;
- how the values in that range now split around the pivot, or that they are sorted.

## Model

| member | source | states |
|---|---|---|
| SparseMatrices.FigureCheckEmpty | Program.cs:305-309 | the figure policy's empty item is `null`, and its own test calls that item empty |
| SparseMatrices.SparseMatrix.constructor | Program.cs:214-220 | stores the three bounds and the policy; the dictionary starts empty and the key invariant holds |
| SparseMatrices.SparseMatrix.CheckBounds | Program.cs:227-235 | passes exactly when 0 <= x < maxX, 0 <= y < maxY and 0 <= z < maxZ; otherwise reports the first offending axis (x before y before z) and its value |
| SparseMatrices.SparseMatrix.Set | Program.cs:256-261 | an out-of-range write fails as CheckBounds does; a second write to a cell fails with a duplicate-key error and changes nothing; a first write makes the cell read as the value, adds exactly one entry, and leaves every other cell as it was; every dictionary key remains the key of an in-range cell |
| SparseMatrices.SparseMatrix.Get | Program.cs:262-270 | an out-of-range read fails as CheckBounds does; an in-range read returns the stored value, or the policy's empty item when the cell was never written |
| SparseMatrices.SparseMatrix.RenderRow | Program.cs:283-296 | one row holds maxX cell texts, column by column: the value's text, or the placeholder when the policy calls the value empty |
| SparseMatrices.SparseMatrix.RenderLayer | Program.cs:280-297 | one layer holds maxY rendered rows, top to bottom |
| SparseMatrices.SparseMatrix.Render | Program.cs:277-299 | ToString's grid is maxZ layers of rendered rows; with a lawful policy, every unwritten cell shows the placeholder |
| SparseMatrices.FigureCellRendered | Program.cs:290-293 | in a figure matrix (FigureSparseMatrixCheckEmpty policy), a rendered cell shows the stored figure's text when the cell holds a figure, and `" - "` when the cell was never written or holds null |
| DictKeys.NatToString | Program.cs:245 | the decimal text of a non-negative number is non-empty and all digits |
| DictKeys.IntToString | Program.cs:245 | the decimal text of a coordinate is non-empty, contains no '_', and starts with '-' exactly when the coordinate is negative |
| DictKeys.ParseIntToString | Program.cs:245 | reading a coordinate's decimal text back gives the coordinate |
| DictKeys.SplitJoined | Program.cs:245 | splitting `a + "_" + b` at its first '_' gives back `a` and `b` when `a` contains no '_' |
| DictKeys.DictKey | Program.cs:243-246 | the key of cell (x, y, z) is the decimal texts of x, y and z joined by '_'; ParseDictKey and DictKeyInjective state what it guarantees |
| DictKeys.ParseDictKey | Program.cs:243-246 | the key of (x, y, z) decodes back to (x, y, z) |
| DictKeys.DictKeyInjective | Program.cs:243-246 | two cells have the same key exactly when they are the same cell |
| SimpleLists.Node.constructor | Program.cs:334 | a new item holds the given value and links to nothing |
| SimpleLists.SimpleList.constructor | Program.cs:343-346 | a new list has no first or last item and is empty |
| SimpleLists.SimpleList.Add | Program.cs:361-376 | appends the value at the tail: contents grow by exactly that value, the old items stay in order, an empty list's first and last become the new item, and otherwise first is unchanged |
| SimpleLists.SimpleList.GetItem | Program.cs:383-396 | fails exactly when num < 0 or num >= Count; otherwise returns the item num steps from first, holding the num-th value |
| SimpleLists.SimpleList.Get | Program.cs:403 | fails exactly when the position is out of range; otherwise returns the value at that position |
| SimpleLists.SimpleList.Enumerate | Program.cs:409-418 | enumeration yields exactly the list's values, from first to last |
| SimpleLists.SimpleList.Swap | Program.cs:456-463 | exchanges the values at positions i and j and changes no link |
| SimpleLists.SimpleList.ScanUp | Program.cs:437 | stops at the first position from `from` on whose value is not below the pivot; every value it passed is below the pivot |
| SimpleLists.SimpleList.ScanDown | Program.cs:438 | stops at the first position from `from` down whose value is not above the pivot; every value it passed is above the pivot |
| SimpleLists.SimpleList.Exchange | Program.cs:439-444 | swapping the two stopping values rearranges only [low, high] and extends both partitioned sides by one position |
| SimpleLists.SimpleList.PartitionPass | Program.cs:437-444 | one pass of the do-loop rearranges only [low, high]; the cursors move toward each other, and they do so strictly whenever a value stops each scan; left of i nothing is above the pivot and right of j nothing is below it |
| SimpleLists.SimpleList.Partition | Program.cs:432-445 | after the do-loop, j < i, both [low, j] and [i, high] are shorter than [low, high], the values are a rearrangement within [low, high], and the sides are split around the pivot |
| SimpleLists.SimpleList.SortRange | Program.cs:430-449 | Sort(low, high) leaves [low, high] sorted by CompareTo, a permutation of what it held, with every other position and every link unchanged |
| SimpleLists.SimpleList.Sort | Program.cs:423 | sorts the whole list: the result is sorted and is a permutation of the old contents (an empty list is left as it is; see Findings) |
| SimpleLists.SimpleList.SortAsWritten | Program.cs:423 | Sort() as written fails exactly on an empty list, and otherwise sorts as Sort does |
| SimpleLists.HalfTowardZero | Program.cs:434 | C#'s `/ 2` on `int` rounds toward zero |
| SimpleLists.PivotPosition | Program.cs:434 | the pivot position of a non-empty range [low, high] lies inside it |
| SimpleLists.EmptyRangePivot | Program.cs:423 | for an empty list, Sort() asks for the pivot at position (0 + -1) / 2 = 0 |
| Ordering.CompareTo | Program.cs:39-48 | the comparison is -1, 0 or 1; it is negative exactly when the first metric is smaller, and zero exactly when the metrics are equal |
| Ordering.SwapPermutes | Program.cs:456-463 | exchanging two positions inside [lo, hi] is a rearrangement within [lo, hi] |
| Ordering.PermutationTransitive | Program.cs:435-445 | rearrangements within [lo, hi] compose |
| Ordering.PermutationWiden | Program.cs:447-448 | a rearrangement within a sub-range is a rearrangement within any range containing it |
| Ordering.PermutationWhole | Program.cs:423 | a rearrangement within the whole index range preserves the multiset of values |
| Ordering.PermutationKeeps | Program.cs:447-448 | a rearrangement within [lo, hi] keeps every property that held of all values in [lo, hi] |
| Ordering.SortedUnchanged | Program.cs:447-448 | a sorted range stays sorted when the positions around it change |
| Ordering.PartitionSorted | Program.cs:445-448 | when the sides of a partition are sorted, the whole range is sorted |
| Ordering.QuicksortStep | Program.cs:445-448 | a partition followed by sorting [lo, j] and [i, hi] is a sorted rearrangement of [lo, hi] |
| Ordering.ExchangeStep | Program.cs:439-444 | swapping the values at i and j keeps the permutation and extends both sides of the pivot split |
| SimpleStacks.SimpleStack.constructor | Program.cs:479 | a new stack is an empty list |
| SimpleStacks.SimpleStack.Push | Program.cs:485 | pushes the value at the list's tail |
| SimpleStacks.SimpleStack.Pop | Program.cs:491-511 | an empty stack returns the default value and stays empty; otherwise Pop returns the newest value, drops it, and decrements Count, keeping the list valid |
| SimpleStacks.PopResult | Program.cs:491-511 | one pop undoes the push of the newest value (what is left plus the popped value is the old contents); on an empty stack it yields the default value and leaves the stack empty |
| SimpleStacks.PopMany | Program.cs:491-511 | n successive pops yield exactly n values, one per pop, defaults included |
| SimpleStacks.PopManyLeaves | Program.cs:491-511 | n pops leave all but the n newest values, or an empty stack when n exceeds the size |
| SimpleStacks.Reverse | Program.cs:491-511 | the reversal has the same length and holds position k's value at position length-1-k |
| SimpleStacks.PopsUndoPushes | Program.cs:485-511 | popping as many times as values were pushed yields them newest first and restores the earlier stack |
| SimpleStacks.PopsOnEmpty | Program.cs:493-495 | every pop of an empty stack yields the default value and leaves the stack empty |
| SimpleStacks.PopManyAppend | Program.cs:491-511 | n + m pops are n pops followed by m pops |
| SimpleStacks.LifoOrder | Program.cs:479-511 | pushing v1..vn onto an empty stack and popping n + extra times yields vn..v1, then the default value extra times, and ends empty |

## Left out

- The `Figure` hierarchy (Rectangle, Square, Circle, their `Area` and `ToString`) is not part of this model. The sort methods take the element ordering as a parameter: a real-valued metric (`key`). CompareTo compares by that metric, as Figure.CompareTo compares areas. Floating-point behaviour (NaN, rounding of `double`) is not modelled.
- The constraint `where T : IComparable` on `SimpleList<T>` and `SimpleStack<T>` is not modelled: the classes put no constraint on `T`, and only Sort needs an ordering.
- `Main`, the `Collections` demo, `IPrint` and all console output are not part of this model.
- SparseMatrices.SparseMatrix.Render: yields the grid of cell texts, not the exact ToString text. The "Part number k" headers, the brackets and the tab separators are left out, and so is the value's own ToString, which is a parameter (`show`).
- Exception message texts ("x = … is out of range!", "Out of range!") are reduced to the error values `OutOfRange(axis, value)`, `DuplicateKey(key)` and `ListError.OutOfRange`. A failing call returns the error instead of throwing.
- `SparseMatrix<T>`'s constructor accepts a null `CheckEmptyParam`. A read of an unwritten cell and ToString would then throw NullReferenceException. The model's policy (`EmptyPolicy`) is a value and cannot be null, so that failure is not modelled.
- `Dictionary.Add`'s duplicate-key exception is modelled as `DuplicateKey`. The dictionary is a `map`. Its hashing and ordering are not modelled.
- SimpleLists.SimpleList.Enumerate: returns all values at once. The lazy `yield` enumerator, its behaviour when the list changes during enumeration, and the non-generic `IEnumerable.GetEnumerator` are not modelled.
- `Count` is an unbounded integer. The 32-bit overflow of `int` after 2^31 - 1 additions is not modelled. `Int32.ToString` is modelled for all integers.
- The body of `Sort(int low, int high)` is split into SortRange, Partition, PartitionPass, ScanUp, ScanDown and Exchange. Within Sort(low, high), the order of the `Get` and `Swap` calls is the source's order.
- SimpleLists.SimpleList.SortAsWritten: reads the pivot of the whole list once to exhibit the empty-list failure, and `Partition` then reads it again. The source reads it once. A read does not change the list.
- SimpleLists.PivotPosition: `low + high` is an unbounded integer. In the source it is a 32-bit `int`, and it can overflow in a recursive call once the list holds more than 2^30 items. The pivot position would then be negative, and `Get` would throw "Out of range!". That overflow is not modelled.
- `SimpleStack<T>` inherits from `SimpleList<T>` in the source. Here it holds its list in a field (`items`), and Push and Pop work on that list's fields directly.
- SimpleStacks.SimpleStack.Pop: `default(T)` is passed in by the caller. The popped item stays in the ghost footprint `Repr`, but no longer in `Nodes` or `Contents`.
- Garbage collection and object identity beyond the list's own items are not modelled.

## Findings

| source | as written | input that shows it | evidently intended | confidence | as-written member | corrected member |
|---|---|---|---|---|---|---|
| Program.cs:423, Program.cs:434 | `Sort()` calls `Sort(0, Count - 1)`, which reads the pivot at `(0 + -1) / 2`, position 0 in C#, before it checks the range | `Sort()` on an empty list: `Get(0)` throws "Out of range!" | sorting an empty list does nothing | high; not executed | SimpleLists.SimpleList.SortAsWritten | SimpleLists.SimpleList.Sort |
