# Files store of tree-vue3, in Dafny

The tree-vue3 application keeps one client-side store, `useFilesStore`
(`src/stores/files.ts`). It holds `treeData`, an ordered top-level sequence of tree
nodes. Each node has a `name`. A directory also has a `children` list, which may be
empty. A file has no such list. The store offers three operations:

- the `treeDataEmpty` getter;
- the `remove(index)` action, which is `treeData.splice(index, 1)`;
- the `change(index, newItem)` action, which is `treeData[index] = newItem`.

`files_store.dfy` holds a single module, `FilesStore`:

- `TreeNode` is a datatype. `children` is an `Option<seq<TreeNode>>`, so an empty
  directory (`Some([])`) is different from a file (`None`).
- `InitialTree` is the sample tree that every new store starts with.
- `Removed` and `Assigned` are pure functions. They give the top-level sequence
  after a one-element `splice` and after an indexed assignment.
- `SpliceStart` is the index normalisation that `splice` performs. A negative
  index counts from the end and is clamped at 0. An index past the end is clamped
  to the length.
- The class `Store` has the one mutable field `treeData`. Its methods `Remove` and
  `Change` modify only that field. Each one's postcondition states the new value
  of `treeData` in terms of the old value.
- `RemoveEach` is a run of `remove` calls, applied in order. The lemmas about it
  cover emptying the store one entry at a time.

## Model

| member | source | states |
|---|---|---|
| FilesStore.InitialTree | src/stores/files.ts:6-22 | the fixture has three top-level entries "Dir 1", "Dir 2", "File 2", in that order; the first two are directories and the last is a file; "Dir 2-1" is a directory with an empty children list and is not a file, unlike "File 2-2" |
| FilesStore.Store.constructor | src/stores/files.ts:4-24 | a new store holds the fixture, so `treeDataEmpty` is initially false |
| FilesStore.Store.TreeDataEmpty | src/stores/files.ts:26-28 | the getter is true exactly when `treeData` has no entries |
| FilesStore.SpliceStart | src/stores/files.ts:32 | the position `splice` starts from always lies between 0 and the length, inclusive |
| FilesStore.Removed | src/stores/files.ts:31-33 | the result is one entry shorter exactly when the sequence is non-empty and the index is below its length. An index in range deletes that entry: `s[..i] + s[i+1..]`. An index from -len to -1 deletes at `len + i`. An index below -len deletes the first entry. An index at or past the end changes nothing |
| FilesStore.RemoveKeepsOrder | src/stores/files.ts:32 | when an entry is deleted, the entries before it keep their positions and the entries after it move down by one, so relative order is preserved; the remaining entries are the old ones minus the deleted one, as a multiset |
| FilesStore.Store.Remove | src/stores/files.ts:31-33 | `treeData` becomes `Removed(old treeData, index)`, and no other state changes |
| FilesStore.Assigned | src/stores/files.ts:35-37 | for `0 <= i <= len`, the result holds `newItem` at `i`, and every other old index keeps its entry, nested children included; the length stays the same for `i < len` and grows by one for `i == len`, which appends |
| FilesStore.Store.Change | src/stores/files.ts:35-37 | `treeData` becomes `Assigned(old treeData, index, newItem)`, and no other state changes |
| FilesStore.RemoveEach | src/stores/files.ts:31-33 | each `remove` call takes at most one entry, so after n calls the length has dropped by at most n and has not grown |
| FilesStore.RemoveEmptiesIff | src/stores/files.ts:26-33 | `remove` leaves the sequence empty if and only if it was already empty, or it held one entry and the index was below 1 |
| FilesStore.ChangeToSameIsNoOp | src/stores/files.ts:35-37 | writing an entry back to its own index leaves the sequence unchanged |
| FilesStore.ChangeLastWriteWins | src/stores/files.ts:35-37 | after two `change` calls at the same index, only the second one's effect is visible |
| FilesStore.ChangeThenRemoveSameIndex | src/stores/files.ts:31-37 | changing an entry and then removing it has the same effect as removing it, so nothing else is disturbed |
| FilesStore.AppendThenRemoveRestores | src/stores/files.ts:31-37 | appending with `change(len, x)` is undone by `remove(len)` and by `remove(-1)` |
| FilesStore.RemoveEachInRange | src/stores/files.ts:31-33 | a run of `remove` calls, each with an index below the current length (negative indices included), removes exactly one entry per call; as many such calls as there are entries empty the store |
| FilesStore.FixtureRemoveAll | src/stores/files.ts:6-33 | on the fixture, removing at 2, 1, 0 in turn, or at 0 three times, leaves the store empty |
| FilesStore.FixtureRemoveAndChange | src/stores/files.ts:6-37 | on the fixture, `remove(1)` leaves ["Dir 1", "File 2"] in that order; `remove(99)` changes nothing; `change(2, File 2 renamed)` renames position 2 and leaves positions 0 and 1 as they were |

## Left out

- The Pinia machinery (`defineStore`, reactivity, the store id `"files"`) is left out. It is framework plumbing and has no behaviour of its own.
- The optional chaining in `treeDataEmpty` is left out. It guards against a missing `treeData`, and the state initializer never produces one, so `treeData` is always present in the model.
- FilesStore.Store.Change: its precondition `0 <= index <= |treeData|` rules out two cases. An index past the end would make JavaScript build a sparse array with holes. A negative index would set a non-index property. Neither has a counterpart in a sequence.
- Indices are modelled as mathematical integers. JavaScript's truncation of non-integer numbers and its coercion of NaN are left out.
- `newItem` is typed `never` in the source. The model gives it the type `TreeNode`.
- `splice` returns the deleted elements, and `remove` throws that array away. The model therefore returns nothing.
