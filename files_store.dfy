/** The "files" store of the tree view: an ordered top-level sequence of
    tree nodes (files and directories), an emptiness getter, and two
    actions that mutate the top-level sequence in place: `remove`, which
    is a one-element `splice`, and `change`, which is an indexed assignment.
 */
module FilesStore {

  datatype Option<T> = None | Some(value: T)

  /** A named entry. A present `children` list, even an empty one, makes
      the node a directory; an absent one makes it a file. */
  datatype TreeNode = TreeNode(name: string, children: Option<seq<TreeNode>>)
  {
    predicate IsDirectory() { children.Some? }
    predicate IsFile() { children.None? }
  }

  function Dir(name: string, children: seq<TreeNode>): TreeNode {
    TreeNode(name, Some(children))
  }

  function File(name: string): TreeNode {
    TreeNode(name, None)
  }

  /** The sample tree every new store starts with. */
  function InitialTree(): (t: seq<TreeNode>)
    ensures |t| == 3
    ensures t[0].name == "Dir 1" && t[1].name == "Dir 2" && t[2].name == "File 2"
    ensures t[0].IsDirectory() && t[1].IsDirectory() && t[2].IsFile()
    ensures t[1].children == Some([Dir("Dir 2-1", []), File("File 2-2")])
    // "Dir 2-1" is an empty directory, which is not the same as a file
    ensures t[1].children.value[0].IsDirectory() && t[1].children.value[0].children == Some([])
    ensures t[1].children.value[1].IsFile()
    ensures t[1].children.value[0] != File("Dir 2-1")
  {
    [
      Dir("Dir 1", [
        Dir("Dir 1-1", [File("File 1-1-1")]),
        File("File 1-2")
      ]),
      Dir("Dir 2", [Dir("Dir 2-1", []), File("File 2-2")]),
      File("File 2")
    ]
  }

  /** Where `splice(index, 1)` starts on an array of length `len`: a negative
      index counts from the end and is clamped at 0, an index past the end is
      clamped to the length. */
  function SpliceStart(len: nat, index: int): (k: nat)
    ensures k <= len
  {
    if index < 0 then
      (if len + index < 0 then 0 else len + index)
    else if index < len then index
    else len
  }

  /** The top-level sequence after `splice(index, 1)`. */
  function Removed(s: seq<TreeNode>, index: int): (r: seq<TreeNode>)
    // one entry goes exactly when there is one and the index is below the length
    ensures |r| == if s != [] && index < |s| then |s| - 1 else |s|
    ensures 0 <= index < |s| ==> r == s[..index] + s[index + 1..]
    ensures -|s| <= index < 0 ==> r == s[..|s| + index] + s[|s| + index + 1..]
    ensures index < -|s| && s != [] ==> r == s[1..]
    ensures index >= |s| ==> r == s
  {
    var k := SpliceStart(|s|, index);
    if k < |s| then s[..k] + s[k + 1..] else s
  }

  /** `remove` keeps the survivors in their relative order: those before the
      deleted position stay put, those after it move down by one, and the
      entries are the old ones less the deleted one. */
  lemma RemoveKeepsOrder(s: seq<TreeNode>, index: int)
    requires SpliceStart(|s|, index) < |s|
    ensures var k, r := SpliceStart(|s|, index), Removed(s, index);
      (forall j :: 0 <= j < k ==> r[j] == s[j]) &&
      (forall j :: k <= j < |r| ==> r[j] == s[j + 1]) &&
      multiset(r) + multiset{s[k]} == multiset(s)
  {
    var k := SpliceStart(|s|, index);
    assert s == s[..k] + [s[k]] + s[k + 1..];
  }

  /** The top-level sequence after `treeData[index] = newItem`, for an index
      that is an existing position or the position just past the end. */
  function Assigned(s: seq<TreeNode>, index: int, newItem: TreeNode): (r: seq<TreeNode>)
    requires 0 <= index <= |s|
    ensures |r| == if index < |s| then |s| else |s| + 1
    ensures r[index] == newItem
    ensures forall j :: 0 <= j < |s| && j != index ==> r[j] == s[j]
  {
    if index < |s| then s[index := newItem] else s + [newItem]
  }

  /** A run of `remove` calls, applied in order. */
  function RemoveEach(s: seq<TreeNode>, indices: seq<int>): (r: seq<TreeNode>)
    ensures |s| - |indices| <= |r| <= |s|
    decreases |indices|
  {
    if indices == [] then s
    else RemoveEach(Removed(s, indices[0]), indices[1..])
  }

  /** `remove` empties the sequence exactly when it holds at most one entry
      and, if it holds one, the index does not lie past the end. */
  lemma RemoveEmptiesIff(s: seq<TreeNode>, index: int)
    ensures Removed(s, index) == [] <==> (s == [] || (|s| == 1 && index < 1))
  {
  }

  /** Replacing an entry with itself changes nothing. */
  lemma ChangeToSameIsNoOp(s: seq<TreeNode>, index: int)
    requires 0 <= index < |s|
    ensures Assigned(s, index, s[index]) == s
  {
  }

  /** Of two `change` calls at the same index, the later one wins. */
  lemma ChangeLastWriteWins(s: seq<TreeNode>, index: int, x: TreeNode, y: TreeNode)
    requires 0 <= index <= |s|
    ensures Assigned(Assigned(s, index, x), index, y) == Assigned(s, index, y)
  {
  }

  /** Changing an entry and then removing it is the same as removing it. */
  lemma ChangeThenRemoveSameIndex(s: seq<TreeNode>, index: int, x: TreeNode)
    requires 0 <= index < |s|
    ensures Removed(Assigned(s, index, x), index) == Removed(s, index)
  {
  }

  /** Appending with `change(|treeData|, x)` is undone by `remove` of the
      last position, whether named by its index or by -1. */
  lemma AppendThenRemoveRestores(s: seq<TreeNode>, x: TreeNode)
    ensures Removed(Assigned(s, |s|, x), |s|) == s
    ensures Removed(Assigned(s, |s|, x), -1) == s
  {
  }

  /** A run of `remove` calls, each with an index below the length the
      sequence has at that moment (negative ones included), takes one entry
      per call; as many such calls as there are entries empty the store. */
  lemma {:induction false} RemoveEachInRange(s: seq<TreeNode>, indices: seq<int>)
    requires |indices| <= |s|
    requires forall c :: 0 <= c < |indices| ==> indices[c] < |s| - c
    ensures |RemoveEach(s, indices)| == |s| - |indices|
    ensures |indices| == |s| ==> RemoveEach(s, indices) == []
  {
    if indices != [] {
      var t := Removed(s, indices[0]);
      assert |t| == |s| - 1;
      forall c | 0 <= c < |indices[1..]|
        ensures indices[1..][c] < |t| - c
      {
        assert indices[1..][c] == indices[c + 1];
      }
      RemoveEachInRange(t, indices[1..]);
    }
  }

  /** Removing the fixture's entries at indices 2, 1, 0, or three times at
      index 0, leaves the store empty. */
  lemma FixtureRemoveAll()
    ensures RemoveEach(InitialTree(), [2, 1, 0]) == []
    ensures RemoveEach(InitialTree(), [0, 0, 0]) == []
  {
  }

  /** On the fixture, removing at 1 keeps "Dir 1" and "File 2" in that
      order, removing at 99 changes nothing, and renaming the entry at 2
      leaves the others alone. */
  lemma FixtureRemoveAndChange()
    ensures Removed(InitialTree(), 1) == [InitialTree()[0], InitialTree()[2]]
    ensures Removed(InitialTree(), 99) == InitialTree()
    ensures var t := Assigned(InitialTree(), 2, File("File 2 renamed"));
      t[2].name == "File 2 renamed" && t[..2] == InitialTree()[..2]
  {
  }

  /** The store itself: `treeData` is the only state, updated in place. */
  class Store {
    var treeData: seq<TreeNode>

    constructor ()
      ensures treeData == InitialTree()
      ensures !TreeDataEmpty()
    {
      treeData := InitialTree();
    }

    function TreeDataEmpty(): (empty: bool)
      reads this
      ensures empty <==> treeData == []
    {
      !(|treeData| > 0)
    }

    method Remove(index: int)
      modifies this
      ensures treeData == Removed(old(treeData), index)
    {
      var len := |treeData|;
      var start := if index < 0 then (if len + index < 0 then 0 else len + index)
                   else if index < len then index
                   else len;
      if start < len {
        treeData := treeData[..start] + treeData[start + 1..];
      }
    }

    method Change(index: int, newItem: TreeNode)
      requires 0 <= index <= |treeData|
      modifies this
      ensures treeData == Assigned(old(treeData), index, newItem)
    {
      if index < |treeData| {
        treeData := treeData[index := newItem];
      } else {
        treeData := treeData + [newItem];
      }
    }
  }
}
