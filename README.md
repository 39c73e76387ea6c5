# gotemplate, modelled in Dafny

gotemplate is a Go code generator that instantiates generic "template"
packages. A template package declares stub types or functions for its
formal parameters and carries one `// template type Name(A, B)` comment.
The generator:

- reads that package;
- removes the stubs;
- renames every other top-level name after the instance;
- replaces each formal parameter throughout the syntax tree by the
  actual argument;
- writes the result out.

The repository also ships the template packages themselves: a red-black
tree map, a set, an introsort and a binary heap.

This project models both parts and proves what they promise.

- `template.dfy` (module `Template`) covers template.go:
  - name mangling (`addMapping`);
  - the directive lookup and arity check (`findTemplateDefinition`,
    `ensureIdentifiers`);
  - the pruning of stub declarations and the recording of names;
  - the construction of the name→replacement mapping;
  - the rewrite loop over the mappings.

  The comment lines reach the model already matched against the
  directive pattern and parsed (`CommentLine`, `Call`). A file's
  declarations are a closed `Decl` datatype.
- `replace.dfy` (module `Replace`) covers replace.go: the reflective tree
  walker `apply`/`rewriteVal`/`set` and the position-stamping copier
  `subst`.
  - A syntax tree is a closed `Node` datatype: identifiers, slices,
    structs, interface slots, back-links (`*ast.Object`/`*ast.Scope`),
    positions and opaque leaves.
  - Each step is a function, and the loops of the Go code are methods
    proved equal to those functions.
  - Lemmas relate the walk to a plain reference substitution
    (`Replaced`).
- `rbtree.dfy` (module `RBTree`) and `treemap.dfy` (module `TreeMap`)
  cover treemap/treemap.go.
  - The tree is a datatype. A Go node together with its parent chain is
    a zipper: a focus and the frames up to `endNode.left`.
  - `insertFixup`, `removeNode`, the rotations, `mostLeft`/`mostRight`
    and `successor`/`predecessor` are methods and functions on zippers.
  - The `TreeMap` class keeps `root`, `beginNode` and `count` as fields.
    Its invariant `Valid()` says: the tree is a search tree, it is
    red-black with a black root, `count` is its size, and `beginNode` is
    its first key.
  - Every operation is proved against a sorted list of entries (`Put`,
    `Remove`, `Lookup`, `LowerIndex`, `UpperIndex`).
  - Iterators are classes whose `node` field is a handle: `Null`, `End`,
    or the key of a node.
- `set.dfy` (module `Set`) covers set/set.go. The class holds the Go map
  as a Dafny `set`.
- `sort.dfy` (module `Sort`) covers sort/sort.go, in place on an `array`.
  - Every routine is proved to sort, or to keep, its range as a
    permutation.
  - It covers insertion sort, heap sort with `siftDown`, median of three,
    `swapRange`, the Bentley–McIlroy three-way partition `doPivot`,
    `quickSort` and `Sort`.
- `heap.dfy` (module `Heap`) covers heap/heap.go: a class holding the
  slice as a `seq`, with `Init`, `Push`, `Pop`, `Remove`, `Fix`, `up` and
  `down`.
- `order.dfy` (module `Order`) holds the comparator's requirement.
  - The templates' `Less` is a parameter (or a `const` field) of type
    `(T, T) -> bool`.
  - It must be a strict weak order, as Go's sort and heap packages ask.
  - In the tree map, two keys neither of which is less than the other
    are one key, as the Go code's two-sided `Less` test treats them.
- `fatal.dfy` (module `Fatal`) holds the error type: a call to `fatalf`,
  or a Go panic the model reaches, is an `Err`/`Fail` result naming the
  error.

## Model

| member | source | states |
|---|---|---|
| Set.Set.NewSizedSet | set/set.go:17-21 | a new set is empty, whatever the capacity hint |
| Set.Set.NewSet | set/set.go:24-26 | a new set is empty |
| Set.Set.Len | set/set.go:29-31 | the length is the number of distinct elements |
| Set.Set.Contains | set/set.go:34-37 | true exactly when the element is in the set |
| Set.Set.Add | set/set.go:42-45 | the set becomes the old set plus the element (no change if present); the receiver is returned |
| Set.Set.AddList | set/set.go:50-55 | the set gains exactly the listed elements; the receiver is returned |
| Set.Set.Discard | set/set.go:62-65 | the element is absent afterwards and nothing else changes; the receiver is returned |
| Set.Set.Remove | set/set.go:70-76 | reports whether the element was present; it is absent afterwards and nothing else changes |
| Set.Set.Pop | set/set.go:81-87 | returns its argument and whether it was present; it is absent afterwards |
| Set.Set.AsList | set/set.go:90-98 | a list of `Len` entries holding each element exactly once |
| Set.Set.Clear | set/set.go:101-104 | the set is empty; the receiver is returned |
| Set.Set.Copy | set/set.go:107-113 | a distinct new set with the same elements |
| Set.Set.Difference | set/set.go:117-125 | a new set equal to s − other; both operands unchanged |
| Set.Set.DifferenceUpdate | set/set.go:129-135 | the receiver becomes s − other; other unchanged (unless it is the receiver) |
| Set.Set.Intersection | set/set.go:139-152 | a new set equal to s ∩ other; both operands unchanged |
| Set.Set.IntersectionUpdate | set/set.go:157-164 | the receiver becomes s ∩ other; other unchanged (unless it is the receiver) |
| Set.Set.Union | set/set.go:168-177 | a new set equal to s ∪ other; both operands unchanged |
| Set.Set.Update | set/set.go:181-186 | the receiver becomes s ∪ other; other unchanged (unless it is the receiver) |
| Set.Set.IsSuperset | set/set.go:189-203 | other ⊆ s, and when strict also \|other\| < \|s\| |
| Set.Set.IsSubset | set/set.go:206-220 | s ⊆ other, and when strict also \|s\| < \|other\| |
| Set.Set.IsDisjoint | set/set.go:223-230 | true exactly when the two sets have no common element |
| Set.Set.SymmetricDifference | set/set.go:234-241 | a new set equal to (s − other) ∪ (other − s) |
| Set.Set.SymmetricDifferenceUpdate | set/set.go:246-250 | the receiver becomes (s − other) ∪ (other − s); other unchanged |
| Heap.Parent | heap/heap.go:100 | for j > 0 the parent index p satisfies 0 <= p < j and j is 2p+1 or 2p+2; for j <= 0 it is the quotient truncated toward zero, as Go divides; p == j exactly for the root and for -1 |
| Heap.Swap | heap/heap.go:66 | exchanging two entries changes only those two and keeps the multiset |
| Heap.HeapIsOrdered | heap/heap.go:11-14 | the heap invariant, stated per parent/child pair, is the per-child form used by the loops |
| Heap.HeapMin | heap/heap.go:5-9 | no element of a heap is less than the root |
| Heap.DownThenUp | heap/heap.go:82-83 | after `down`, only the edge from i to its parent can be out of order, which is what `up` repairs |
| Heap.Heap.constructor | heap/heap.go:35-36 | a heap value over a given slice and comparator |
| Heap.Heap.Init | heap/heap.go:43-49 | any contents become a heap, as a permutation of the old ones |
| Heap.Heap.Push | heap/heap.go:54-57 | the length grows by one, x joins the multiset, and the invariant is kept |
| Heap.Heap.Pop | heap/heap.go:63-71 | returns the old h[0], which no element is less than; the length drops by one; the rest stays a heap |
| Heap.Heap.Remove | heap/heap.go:76-87 | returns the old h[i]; the length drops by one; the rest stays a heap |
| Heap.Heap.Truncate | heap/heap.go:69-70 | cutting the last element off an ordered prefix leaves a heap of the others |
| Heap.Heap.Fix | heap/heap.go:93-108 | after h[i] changed in a heap, the invariant is restored and the multiset kept; outside the slice nothing changes, and it panics exactly when `up` indexes out of range (every i < -1, and every i > 0 past the end) |
| Heap.Heap.Up | heap/heap.go:98-108 | moves the element up until the whole prefix is ordered; only exchanges, and nothing from n on is touched |
| Heap.Heap.Down | heap/heap.go:110-127 | moves the element down within h[..n]; only exchanges, only indices below n are touched, and the subtree below i is ordered |
| Sort.Swap | sort/sort.go:20-22 | the array is its old contents with i and j exchanged |
| Sort.Min | sort/sort.go:24-29 | the smaller of the two arguments |
| Sort.IsSorted | sort/sort.go:206-214 | true exactly when no i in 1..n-1 has Less(data[i], data[i-1]) |
| Sort.AdjacentSortedIsSorted | sort/sort.go:205-214 | no adjacent pair out of order is the same as every pair in order |
| Sort.InsertionSort | sort/sort.go:32-38 | data[a:b] is sorted, is a permutation of its old contents, and nothing outside changes |
| Sort.InsertDown | sort/sort.go:34-36 | inserting data[i] into the sorted data[a:i] gives a sorted permutation of data[a:i+1] |
| Sort.Quot | sort/sort.go:66 | Go's `/` truncates toward zero: the remainder x − q·y is smaller than y in size and has the sign of x (so (hi−1)/2 is 0, not −1, for hi = 0) |
| Sort.SiftDown | sort/sort.go:42-58 | restores the max-heap on data[first+lo, first+hi) as a permutation |
| Sort.HeapSort | sort/sort.go:60-75 | data[a:b] is sorted and a permutation of its old contents |
| Sort.BuildHeap | sort/sort.go:65-68 | the first loop of heapSort builds a max-heap on data[a:b] as a permutation |
| Sort.PopRound | sort/sort.go:71-74 | one round of the second loop moves the maximum to the sorted tail and keeps the rest a max-heap |
| Sort.CondSwapOrders | sort/sort.go:86-94 | after one conditional exchange the two positions are in order |
| Sort.Median3Moves | sort/sort.go:81-96 | medianOfThree permutes only positions a, b and c |
| Sort.Median3Sorts | sort/sort.go:81-96 | afterwards data[b] <= data[a] <= data[c] |
| Sort.MedianOfThree | sort/sort.go:81-96 | the array is changed exactly as the three conditional exchanges say |
| Sort.SwapRange | sort/sort.go:98-102 | for non-overlapping ranges data[a+i] and data[b+i] are exchanged for every i < n; nothing else changes; the multiset is kept |
| Sort.ChoosePivot | sort/sort.go:105-113 | the pivot choice (ninther above 40 elements, then median of three) only permutes data[lo:hi] |
| Sort.ScanUp | sort/sort.go:128-138 | the upward scan keeps the five-block invariant of sort.go:115-121 and stops at an element greater than the pivot |
| Sort.ScanDown | sort/sort.go:139-149 | the downward scan keeps the five-block invariant and stops above an element less than the pivot |
| Sort.Gather | sort/sort.go:159-165 | the two swapRange calls move the level blocks into the middle, giving the three-way partition |
| Sort.DoPivot | sort/sort.go:104-166 | lo <= midlo < midhi <= hi; data[lo:midlo] is less than the pivot, data[midlo:midhi] level with it, data[midhi:hi] greater; a permutation |
| Sort.PartitionOrder | sort/sort.go:175-184 | the three blocks are in order and the middle block is already sorted, so only the outer two need sorting |
| Sort.QuickSort | sort/sort.go:168-189 | data[a:b] is sorted and a permutation, with the heapSort fallback at depth 0 and insertion sort at length 7 or less |
| Sort.BitLenBounds | sort/sort.go:198-200 | the halving loop's count k satisfies 2^(k-1) <= n < 2^k |
| Sort.MaxDepth | sort/sort.go:196-201 | maxDepth is twice the bit length of n |
| Sort.Sort | sort/sort.go:194-203 | the whole slice is sorted and a permutation of its old contents |
| RBTree.Entries | treemap/treemap.go:39-45 | a tree has no entries exactly when it is nil |
| RBTree.PlugEntries | treemap/treemap.go:39-45 | the entries of the whole tree are those before the node, the node's subtree, then those after it |
| RBTree.PlugRB | treemap/treemap.go:294-340 | a subtree that fits its place completes to a red-black tree with a black root |
| RBTree.UnplugRB | treemap/treemap.go:343-469 | every subtree of a red-black tree is red-black at its height and fits its place |
| RBTree.RotateLeftTree | treemap/treemap.go:262-276 | a left rotation keeps the in-order entries |
| RBTree.RotateRightTree | treemap/treemap.go:278-292 | a right rotation keeps the in-order entries |
| RBTree.RotateLeft | treemap/treemap.go:262-276 | rotating at a node keeps the whole tree's entries; the node moves down one level keeping its colour |
| RBTree.RotateRight | treemap/treemap.go:278-292 | the mirror of RotateLeft |
| RBTree.RecolorStep | treemap/treemap.go:300-305 | the red-uncle case (and its mirror at 320-325): recolouring moves the violation two levels up and keeps the entries |
| RBTree.RotateStepLeft | treemap/treemap.go:306-316 | the black-uncle case on a left parent: the rotations end the climb with the entries kept |
| RBTree.RotateStepRight | treemap/treemap.go:326-336 | the mirror case on a right parent |
| RBTree.InsertFixup | treemap/treemap.go:294-340 | after a red leaf is inserted, the tree is red-black with a black root and the same entries |
| RBTree.IndexEntry | treemap/treemap.go:39-45 | a node's in-order index holds its own key and value |
| RBTree.MostLeft | treemap/treemap.go:228-233 | reaches the node with no left child at the first index of the subtree |
| RBTree.MostRight | treemap/treemap.go:235-240 | reaches the node with no right child at the last index of the subtree |
| RBTree.Successor | treemap/treemap.go:242-250 | the node at the next index, or the end node after the last |
| RBTree.Predecessor | treemap/treemap.go:252-260 | the node at the previous index, or nil before the first |
| RBTree.PredecessorOfEnd | treemap/treemap.go:252-260 | from the end node: the last node, or nil for an empty tree |
| RBTree.RedSiblingLeft | treemap/treemap.go:396-404 | the red-sibling case turns into a black-sibling case with the entries kept |
| RBTree.RedSiblingRight | treemap/treemap.go:431-439 | the mirror case |
| RBTree.BlackNephewsLeft | treemap/treemap.go:405-416 | both nephews black: recolour and move the deficit up, or finish at a red node |
| RBTree.BlackNephewsRight | treemap/treemap.go:440-451 | the mirror case |
| RBTree.NearNephewLeft | treemap/treemap.go:418-423 | a red near nephew is rotated to the far side with the entries kept |
| RBTree.NearNephewRight | treemap/treemap.go:453-458 | the mirror case |
| RBTree.FarNephewLeft | treemap/treemap.go:424-428 | a red far nephew: the last rotation makes the tree red-black again |
| RBTree.FarNephewRight | treemap/treemap.go:459-463 | the mirror case |
| RBTree.SpliceEntries | treemap/treemap.go:344-389 | moving y into z's place and splicing out y's old node removes exactly z's entry |
| RBTree.SpliceRB | treemap/treemap.go:371-393 | after the splice: a red node removed leaves a red-black tree; a black one leaves a red-black tree once its child is painted black, or a tree one black short at an empty hole |
| RBTree.RemoveNode | treemap/treemap.go:343-469 | the entries are those of the old tree without z's, and the tree is red-black with a black root |
| RBTree.RemoveFixup | treemap/treemap.go:394-466 | the fix-up loop ends with a red-black tree and the same entries |
| RBTree.FixupLeft | treemap/treemap.go:395-429 | one round with the short side on the left: finishes, or moves the deficit strictly up |
| RBTree.FixupRight | treemap/treemap.go:430-465 | the mirror round with the short side on the right |
| TreeMap.LowerIndexSplits | treemap/treemap.go:145-167 | LowerIndex splits the sorted entries into keys less than k and keys not less than k |
| TreeMap.UpperIndexSplits | treemap/treemap.go:171-193 | UpperIndex splits the sorted entries into keys not greater than k and keys greater than k |
| TreeMap.Lookup | treemap/treemap.go:124-130 | a value is found exactly when a key equivalent to k is present |
| TreeMap.PutSpec | treemap/treemap.go:65-94 | Put keeps the entries sorted; afterwards k maps to v and every other key maps as before |
| TreeMap.RemoveSpec | treemap/treemap.go:98-112 | Remove keeps the entries sorted; afterwards k is absent and every other key maps as before |
| TreeMap.Put | treemap/treemap.go:65-94 | the size grows by one exactly when the key was absent |
| TreeMap.Remove | treemap/treemap.go:98-112 | the size drops by one exactly when the key was present |
| TreeMap.FoundAt | treemap/treemap.go:213-226 | where the search stops at an equivalent key, that key is in the map with that node's value |
| TreeMap.MissingAt | treemap/treemap.go:71-86 | where the search falls off the tree, the key is absent and belongs exactly there |
| TreeMap.OverwriteSpec | treemap/treemap.go:73-76 | overwriting the value in place is Put on the entries and keeps the tree red-black |
| TreeMap.InsertSpec | treemap/treemap.go:78-93 | hanging a red leaf where the search ended is Put on the entries, and beginNode moves only when the new key is the least |
| TreeMap.DeleteSpec | treemap/treemap.go:98-112 | removing the node found is Remove on the entries, and beginNode moves to the successor only when it was the one removed |
| TreeMap.KeyAt | treemap/treemap.go:213-226 | a node's key has its own index as its lower bound |
| TreeMap.LowerBoundAfter | treemap/treemap.go:145-167 | where the lower-bound descent falls off, the entries from the bound on are those after the path |
| TreeMap.LowerBoundHere | treemap/treemap.go:145-167 | where the descent meets an equivalent key, that node is the bound |
| TreeMap.UpperBoundAfter | treemap/treemap.go:171-193 | the same for the upper bound |
| TreeMap.UpperBoundHere | treemap/treemap.go:171-193 | the same for the upper bound at a node |
| TreeMap.First | treemap/treemap.go:199 | the end handle for no entries, else the first key |
| TreeMap.Last | treemap/treemap.go:205-211 | the nil handle for no entries, else the last key |
| TreeMap.NextIsGreater | treemap/treemap.go:242-250 | consecutive positions hold strictly increasing keys, so forward iteration is strictly increasing |
| TreeMap.HandleAt | treemap/treemap.go:474-477 | a node's handle refers to it and its position is the node's index |
| TreeMap.TreeMap.New | treemap/treemap.go:54-57 | an empty valid map: count 0, nil root, beginNode the end node |
| TreeMap.TreeMap.Len | treemap/treemap.go:61 | the number of entries |
| TreeMap.TreeMap.FindNode | treemap/treemap.go:213-226 | nil exactly when no equivalent key is present; otherwise the node holding it and its value |
| TreeMap.TreeMap.Get | treemap/treemap.go:124-130 | (v, true) exactly when the key maps to v; otherwise (end value, false) |
| TreeMap.TreeMap.Contains | treemap/treemap.go:134 | true exactly when an equivalent key is present |
| TreeMap.TreeMap.Set | treemap/treemap.go:65-94 | the entries become Put(old, key, value); count grows only for a new key; the map stays valid |
| TreeMap.TreeMap.Del | treemap/treemap.go:98-112 | the entries become Remove(old, key); count drops only for a present key; the map stays valid |
| TreeMap.TreeMap.LowerBound | treemap/treemap.go:145-167 | an iterator at the first key not less than k, or at the end |
| TreeMap.TreeMap.UpperBound | treemap/treemap.go:171-193 | an iterator at the first key greater than k, or at the end |
| TreeMap.TreeMap.Range | treemap/treemap.go:139-141 | the pair LowerBound(from), UpperBound(to) |
| TreeMap.TreeMap.Iterator | treemap/treemap.go:199 | an iterator at position 0 (the least key), or at the end of an empty map |
| TreeMap.TreeMap.Reverse | treemap/treemap.go:205-211 | a reverse iterator at the last position (the greatest key), or before the start |
| TreeMap.TreeMap.Clear | treemap/treemap.go:116-120 | the map is empty: count 0, nil root, beginNode the end node |
| TreeMap.ForwardIterator.constructor | treemap/treemap.go:474-477 | an iterator over a map at a node |
| TreeMap.ForwardIterator.Valid | treemap/treemap.go:481 | true exactly when the position is before the end |
| TreeMap.ForwardIterator.Next | treemap/treemap.go:485-490 | panics exactly at the end; otherwise moves one position forward |
| TreeMap.ForwardIterator.Prev | treemap/treemap.go:494-499 | panics exactly at the first position (leaving nil); otherwise moves one position back |
| TreeMap.ForwardIterator.Key | treemap/treemap.go:502 | panics exactly at nil; otherwise the key at the position, or the end node's key |
| TreeMap.ForwardIterator.Value | treemap/treemap.go:505 | panics exactly at nil; otherwise the value at the position, or the end node's value |
| TreeMap.ReverseIterator.constructor | treemap/treemap.go:510-513 | a reverse iterator over a map at a node |
| TreeMap.ReverseIterator.Valid | treemap/treemap.go:517 | true exactly when the position is not before the start |
| TreeMap.ReverseIterator.Next | treemap/treemap.go:521-526 | panics exactly before the start; otherwise moves one position back |
| TreeMap.ReverseIterator.Prev | treemap/treemap.go:530-539 | panics exactly when it would reach the end; otherwise moves one position forward (from before the start, to the first key) |
| TreeMap.ReverseIterator.Key | treemap/treemap.go:542 | panics exactly at nil (before the start); otherwise the key at the position |
| TreeMap.ReverseIterator.Value | treemap/treemap.go:545 | panics exactly at nil (before the start); otherwise the value at the position |
| Replace.SetSlot | replace.go:44-55 | nothing happens on a slot that cannot be set or for an invalid value; an interface slot takes any value; another slot takes a value of its own kind and fails fatally otherwise |
| Replace.SubstKind | replace.go:131-162 | a copy has the pattern's kind |
| Replace.SubstNoLinks | replace.go:111-121 | a copy carries no back-link |
| Replace.SubstPositions | replace.go:123-129 | every valid position of a copy is the new one; invalid ones stay invalid |
| Replace.SubstSkeleton | replace.go:131-162 | stamped with a valid position, a copy has the pattern's names, kinds and values, with valid positions exactly where the pattern had them |
| Replace.SubstTwice | replace.go:123-129 | copying a copy: the last valid position wins |
| Replace.SubstIdentAgain | replace.go:33 | restamping a copy of an identifier pattern changes nothing |
| Replace.SubstMentions | replace.go:131-162 | a copy names exactly the identifiers its pattern names |
| Replace.SubstWellFormed | replace.go:154-159 | a copy of a well-formed pattern is well-formed |
| Replace.RewriteIsReplaced | replace.go:25-36 | the walk succeeds exactly when no identifier slot would receive a non-identifier, and then it is the reference substitution |
| Replace.ApplyEachIsReplaced | replace.go:86-96 | walking a slice's or struct's slots rewrites each one by the reference substitution, or fails exactly as above |
| Replace.ApplyEachKinds | replace.go:86-96 | the walked slots keep their number and their kinds |
| Replace.ReplacedKind | replace.go:86-101 | anything but a matching identifier keeps its kind |
| Replace.ReplacedNoLinks | replace.go:74-84 | after the rewrite no back-link is left |
| Replace.ReplacedUnmentioned | replace.go:74-101 | a tree that never names the identifier only loses its back-links |
| Replace.ReplacedMentions | replace.go:32-33 | other names survive, and the identifier is gone unless the replacement names it |
| Replace.ReplacedMentionsOnly | replace.go:32-33 | every name afterwards was another name of the tree or a name of the replacement |
| Replace.ReplacedWellFormed | replace.go:97-99 | the rewrite keeps interface slots holding concrete values |
| Replace.ApplyVal | replace.go:69-102 | the in-place walk computes Apply |
| Replace.ApplySlots | replace.go:86-96 | the loop over slots computes ApplyEach, stopping at the first failure |
| Replace.RewriteSlot | replace.go:88-90 | one `set(e, f(e))` step |
| Replace.RewriteVal | replace.go:25-36 | children first, then a matching identifier becomes a stamped copy of the replacement |
| Replace.RewriteFile | replace.go:20-38 | the file's slots are rewritten; for well-formed input the result is the reference substitution with no back-links, and it fails exactly on a type clash |
| Template.MappedName | template.go:56-78 | the mapped name is non-empty, and not exported when the instance name is not |
| Template.MappedNameAppends | template.go:58-62 | a name without the template name gets the capitalised instance name appended |
| Template.MappedNameReplacesFirst | template.go:63-70 | only the first occurrence is replaced: verbatim at index 0, capitalised elsewhere |
| Template.MappedNameCasing | template.go:72-76 | an exported instance name leaves the casing alone; an unexported one lowers only the first letter of an exported candidate |
| Template.MappedNameTemplateExample | template.go:56-78 | Set → MySet for instance MySet |
| Template.MappedNameInnerExample | template.go:56-78 | NewSet → NewMySet |
| Template.MappedNameSuffixExample | template.go:56-78 | UtilityFunc1 → UtilityFunc1MySet |
| Template.MappedNamePrivateExample | template.go:72-76 | NewSet → newMySet for instance mySet |
| Template.MappedNamePrivateSuffixExample | template.go:72-76 | AVar1 → aVar1MySet for instance mySet |
| Template.MappedNameFunctionExample | template.go:63-70 | TTone → Minone for template TT, instance Min |
| Template.EnsureIdentifiers | template.go:133-145 | the names in input order and of the same length, or a fatal error exactly when some expression is not an identifier |
| Template.ArityErrorAsWritten | template.go:124 | the message as written prints the supplied count as the expected one |
| Template.ArityMessageSwapped | template.go:124 | for differing counts the message as written misstates both |
| Template.DefinitionArity | template.go:123-125 | with one well-formed directive, the lookup fails exactly when the counts differ, and reports the template's count as expected |
| Template.DefinitionOpens | template.go:107-122 | the first directive decides a parse failure; a second directive is fatal |
| Template.RemoveIndices | template.go:222-226 | the backwards loop of appends removes exactly the listed indices, keeping order |
| Template.RemoveValues | template.go:225 | the values at the removed indices go too; an index past the end removes nothing |
| Template.ValuelessStubPanics | template.go:225 | a stub `var A T` without values makes the slice expression panic |
| Template.RemoveValuesAsWrittenInRange | template.go:222-226 | where every index is in range, the code as written removes exactly the listed values |
| Template.PruneAllStopsAt | template.go:269-270 | an unknown declaration is fatal whatever follows it |
| Template.PruneDeclNames | template.go:207-268 | pruning a declaration leaves exactly its names that are not formal parameters |
| Template.PruneRemovesExactlyFormals | template.go:197-279 | every var/const/type/free-function name is recorded, and the kept declarations bind exactly the non-formal ones |
| Template.PruneKeepsUntouched | template.go:204-261 | imports, other declarations and methods are kept as they are |
| Template.PruneSpecAligned | template.go:222-226 | a spec with one value per name keeps one value per name, and no formal is left |
| Template.BindMeaning | template.go:282-284 | the formal parameters map to the actual arguments (the last binding wins) and the rest of the map is kept |
| Template.MangleMeaning | template.go:286-295 | each recorded name gets its addMapping entry unless already mapped; the template's own name is always remapped |
| Template.MappingsMeaning | template.go:281-298 | formals map to actuals, every other recorded name to its mangled name, and nothing else is mapped |
| Template.FileNode | template.go:279 | the file with the kept declarations |
| Template.Renamed | template.go:307 | only the package name changes |
| Template.OutputName | template.go:310 | gotemplate_<Name>.go |
| Template.RewriteAllShape | template.go:302-304 | rewriting keeps the file's shape |
| Template.RewriteAllRemovesMapped | template.go:302-304 | when no replacement names a mapped name, the instance names no mapped name, keeps every other name, adds only the replacements' names and has no back-links |
| Template.RewriteAllPrefixErr | template.go:302-304 | the first fatal rewrite ends the loop |
| Template.MapOrder | template.go:302 | some listing of the mapping's keys, each once |
| Template.Template.constructor | template.go:43-53 | a template with the instance name, actual arguments and package, and no mappings yet |
| Template.Template.IsTemplateArgument | template.go:177-184 | true exactly when the name is a formal parameter |
| Template.Template.AddMapping | template.go:56-78 | the mapping gains the name → new identifier with the mangled name |
| Template.Template.FindTemplateDefinition | template.go:103-127 | the fields hold the template name and formals exactly when the lookup succeeds; otherwise the lookup's fatal error |
| Template.Template.TakeDirective | template.go:110-117 | at a directive line: fatal if a template is already named, if the text does not parse or if a formal is not an identifier, and then exactly the lookup's error; otherwise the fields take the new name and formals |
| Template.Template.ScanGroup | template.go:108-118 | one comment group of the lookup loop |
| Template.Template.PruneValueSpec | template.go:212-230 | one spec pruned, with all its names recorded |
| Template.Template.PruneValueDecl | template.go:207-237 | a var/const declaration pruned, empty specs dropped, every name recorded |
| Template.Template.PruneSpecs | template.go:211-231 | each spec pruned as PruneSpec says, all names recorded in order, and exactly the indices of the specs left without names collected in ascending order |
| Template.Template.PruneSpecStep | template.go:212-230 | one spec: pruned in place, its names recorded, its index collected exactly when no name is left |
| Template.Template.PruneTypeDecl | template.go:238-253 | a type declaration pruned, every name recorded |
| Template.Template.Prune | template.go:197-279 | the declaration loop computes PruneAll |
| Template.Template.MakeMappings | template.go:281-298 | the mapping loops build Mangle(Bind(...)) and fail exactly when the template name was never declared |
| Template.Template.BindArgs | template.go:282-284 | the first loop maps the formals to the actual arguments: Bind of the old mapping |
| Template.Template.MangleRecorded | template.go:286-295 | the second loop computes Mangle of the mapping, and reports whether the template name was recorded |
| Template.Template.MangleOne | template.go:288-293 | one recorded name: the template name is always remapped, any other name only when not yet mapped |
| Template.Template.RewriteMappings | template.go:301-310 | every mapping is applied once, in some order of the keys, then the package is renamed |
| Template.Template.Parse | template.go:187-313 | the whole pipeline: lookup, pruning, mappings, rewrite, with the first fatal error as the result |

## Left out

- File system, package resolution and output: `findPackageName`,
  `instantiate`, `parseFile` and `outputFile`. These are disk I/O. The
  package name and output file name are parameters or results.
- Go's parser, printer and regular expressions, which are foreign
  libraries. A comment line arrives as `Plain` or as an already parsed
  `Directive`, and `parseTemplateAndArgs` is that parse.
- The text of fatal messages: only the kind of error and its counts are
  modelled, the arity counts in the corrected order described below. Logging (`debugf`, `logf`) has no effect and is left out.
- `ast.NewCommentMap` and its `Filter` in `rewriteFile`, because they are
  library calls. Comments are not part of the model's syntax tree.
- Reflection (`reflect.Value`, `CanSet`, `Indirect`) is replaced by the
  closed `Node` datatype. Every field of a go/ast node is exported, so
  inside the walk every slot is settable.
- Template.FileNode: an `*ast.File` is only its package name and its
  declarations. The walk of replace.go also visits `File.Doc`, `Scope`,
  `Imports`, `Unresolved` and `Comments`, and these fields are not in the
  model. The consequence: when a formal parameter has no stub, its uses
  land in `File.Unresolved`. If the actual argument is not an identifier
  (say `*Foo`), Go's walk sets one of those `*ast.Ident` slots, and the
  recovered panic becomes the fatal "Failure while setting value". The
  model's Parse succeeds on that input.
- The walk in replace.go mutates shared tree nodes in place. The model
  computes a new tree value, so aliasing between tree nodes is not
  modelled.
- Template.MapOrder: Go iterates a map in an unspecified order. The model
  picks some order of the keys and proves `RewriteAllRemovesMapped` for
  every order. When a replacement names another mapped name, the result
  can depend on the order. The model states nothing for that case.
- Template.Template.Parse: a formal parameter without a stub declaration
  is not reported. Only a missing declaration of the template name itself
  is fatal (template.go:296-298). For such a formal with a non-identifier
  actual argument, Go fails while setting an `ast.File.Unresolved` slot;
  the model does not, for the reason under Template.FileNode.
- Template.Template.FindTemplateDefinition, Template.Template.PruneValueSpec
  and Template.Template.Parse carry the intended behaviour of the two
  "## Findings" rows, not the code as written. The arity error reports
  the template's count as expected, and a stub without values loses only
  its name. The code as written is modelled by Template.ArityErrorAsWritten
  and Template.ValuelessStubPanics.
- Template.MappedName: identifiers are taken to be ASCII. Go's
  `ast.IsExported` asks `unicode.IsUpper` of the first rune, while
  `strings.ToUpper(t.Name[:1])` and `strings.ToLower(replacementName[:1])`
  slice one byte. The model's `IsExported`, `ToUpper` and `ToLower` know
  only the letters A-Z. So "a mapped name is not exported when the
  instance name is not" is proved for ASCII identifiers only. An instance
  name such as `Éx` is exported in Go but not in the model.
- Template.MappedNameCasing: the casing rule is stated over the same
  ASCII-only `IsExported`. It does not cover Go's Unicode notion of an
  exported name.
- Template.Template.Parse: `newIsPublic` is the ASCII-only `IsExported`
  of the instance name (template.go:190). For the reason above, it
  differs from Go for an instance name that starts with a non-ASCII
  letter.
- Template.BindMeaning: for a formal parameter listed twice, only the
  last binding is stated, as in the Go loop.
- The tree map's nodes are values: a node plus its path to the root (a
  zipper) stands for a node and its parent pointers. The rotations and
  fix-ups compute new tree values instead of rewiring pointers, so the
  model does not capture node identity, in-place rewiring or the
  back-pointer consistency of tree_invariants_test.go. What it proves is
  the red-black invariant on the tree value.
- Iterators hold a handle: `Null`, `End`, or the key of a node. Keys are
  unique in the map, and `Del` keeps a surviving node's key, so a key
  identifies a node while it is in the map. An iterator to a deleted
  node is not modelled.
- The end node's zero key and value are parameters of `New` (`endKey`,
  `endValue`). `Get` of a missing key and `Key`/`Value` at the end
  return them.
- A panic of an iterator is a returned `panicked` flag. The state after
  a panic is what the Go statement before the panic left.
- Some of these panics are nil dereferences, not the explicit "out of
  bound iteration" panic. The model reports them as panics too:
  - TreeMap.ForwardIterator.Next: from a nil node, which only a panicked
    `Prev` leaves, `successor(nil)` dereferences nil.
  - TreeMap.ReverseIterator.Prev: from the end node, `successor` follows
    the end node's nil parent (treemap.go:532).
  - TreeMap.ForwardIterator.Key and its `Value`, and the same two methods
    of TreeMap.ReverseIterator: a nil node is dereferenced
    (treemap.go:502, 505, 542, 545).
- RBTree.RemoveFixup, RBTree.FixupLeft and RBTree.FixupRight split the
  single fix-up loop of `removeNode` into one method per round.
  Sort.BuildHeap and Sort.PopRound split `heapSort`'s loops the same
  way. Sort.ScanUp, Sort.ScanDown, Sort.Gather and Sort.ChoosePivot
  split `doPivot`.
- Heap.Heap.Pop and Heap.Heap.Remove require a non-empty heap and an
  index in range. Go panics with an index out of range otherwise.
- Heap.Heap.Fix takes the old value of h[i] as a ghost parameter to state
  that h was a heap before the change.
- Heap.Heap.Down: the overflow guard `j1 < 0` cannot trigger with
  unbounded integers and is not modelled.
- Sort and heap templates take `Less` as a parameter, required to be a
  strict weak order, instead of a package-level function over `int`.
- Set.Set.AsList: Go's map iteration order is unspecified. The model
  states the list's contents and length, not its order.
- The repository's generated instances of these templates (a `float64`
  sort, an older set) are not modelled separately.
- replace_test.go's `A`→`int` example is covered by the general lemmas
  Replace.ReplacedMentions and Replace.ReplacedMentionsOnly rather than
  by a concrete tree.

## Findings

| source | as written | input that shows it | evidently intended | confidence | as-written member | corrected member |
|---|---|---|---|---|---|---|
| template.go:124 | the "expecting %d but %d supplied" message passes `len(t.Args)` first and `len(t.templateArgs)` second, so the counts swap places | a template `Set(A)` instantiated with two arguments reports "expecting 2 but 1 supplied" | the template's own count is the one expected | not executed | Template.ArityMessageSwapped | Template.DefinitionArity |
| template.go:225 | `v.Values[p+1:]` is sliced for every removed name, even when the spec has no values | the stub `var A T`, with no values, slices an empty slice at 1 and panics | a spec without values loses only the name | not executed | Template.ValuelessStubPanics | Template.RemoveValues |
