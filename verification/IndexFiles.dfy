// Index files: what it means for the pages of a file to hold a B+ tree, and how
// descents and scans move through it.
module IndexFiles {
  import opened Results
  import opened ByteCodec
  import opened Pages
  import opened BufferPool
  import opened PageManager
  import opened TreeModel
  import opened TreeContents
  import opened NodeCodec
  import opened TreeStore
  import opened TreeSteps

  // ---- index files ----

  // Every page of the file decodes to a node.
  ghost predicate Decodes(view: seq<Page>, store: seq<Node>) {
    && |view| == |store|
    && forall i | 0 <= i < |view| :: DecodeNode(view[i]) == Ok(store[i])
  }

  ghost predicate Holds(view: seq<Page>, root: nat, store: seq<Node>, t: Tree, height: nat) {
    Decodes(view, store) && Represents(store, root, t, height)
  }

  ghost predicate HoldsTree(view: seq<Page>, root: nat, t: Tree) {
    exists store, height :: Holds(view, root, store, t, height)
  }

  // The file is a well-formed index with the given root page.
  ghost predicate TreeFile(view: seq<Page>, root: nat) {
    exists t :: HoldsTree(view, root, t)
  }

  // The entries of an index file, in key order.
  ghost function FileEntries(view: seq<Page>, root: nat): seq<Entry>
    requires TreeFile(view, root)
  {
    var t :| HoldsTree(view, root, t);
    Entries(t)
  }

  lemma SameTree(view: seq<Page>, root: nat, t: Tree, u: Tree)
    requires HoldsTree(view, root, t) && HoldsTree(view, root, u)
    ensures t == u
  {
    hide DecodeNode, WfRoot, UsesExactly, Linked, Rep;
    var store, height :| Holds(view, root, store, t, height);
    var store', height' :| Holds(view, root, store', u, height');
    SameStore(view, store, store');
    RepUnique(store, t, u, INVALID_ID, INVALID_ID);
  }

  lemma SameStore(view: seq<Page>, a: seq<Node>, b: seq<Node>)
    requires Decodes(view, a) && Decodes(view, b)
    ensures a == b
  {
    hide DecodeNode;
    forall i | 0 <= i < |a| ensures a[i] == b[i] {
      assert DecodeNode(view[i]) == Ok(a[i]) && DecodeNode(view[i]) == Ok(b[i]);
    }
  }

  // A file represents at most one tree.
  lemma FileEntriesUnique(view: seq<Page>, root: nat, store: seq<Node>, t: Tree, height: nat)
    requires Holds(view, root, store, t, height)
    ensures TreeFile(view, root) && FileEntries(view, root) == Entries(t)
  {
    hide Holds;
    assert HoldsTree(view, root, t);
    forall u | HoldsTree(view, root, u) ensures u == t {
      SameTree(view, root, t, u);
    }
  }

  lemma EntriesAscend(view: seq<Page>, root: nat)
    requires TreeFile(view, root)
    ensures Ascending(FileEntries(view, root))
  {
    var t :| HoldsTree(view, root, t);
    var store, height :| Holds(view, root, store, t, height);
    FileEntriesUnique(view, root, store, t, height);
    WfEntries(t, height, KEY_MIN, KEY_SUP, true);
  }

  // ---- where a descent stands ----

  // A node of the tree whose key range contains key, with the path to it.
  ghost predicate At(store: seq<Node>, tree: Tree, path: Path, t: Tree, height: nat, key: Int64) {
    && Plug(path, t) == tree
    && PathWf(path, height)
    && Wf(t, height, PathLow(path), PathHigh(path), path.Top?)
    && PathLow(path) <= key < PathHigh(path)
    && RepPath(store, path, t.id)
    && Rep(store, t, PathParent(path))
  }

  lemma HereFacts(store: seq<Node>, tree: Tree, path: Path, t: Tree, height: nat, key: Int64)
    requires At(store, tree, path, t, height, key)
    ensures t.id < |store| && store[t.id].parent == PathParent(path)
    ensures t.Leaf? ==> height == 0 && store[t.id].LeafNode? && store[t.id].entries == t.entries
    ensures t.Inner? ==> height > 0 && store[t.id].InnerNode? && store[t.id].keys == t.keys
    ensures t.Inner? ==> |t.kids| == |t.keys| + 1 && store[t.id].children == KidIds(t.kids)
  {
  }

  // Child i of an inner node, when its range has the key.
  lemma StepDown(store: seq<Node>, tree: Tree, path: Path, t: Tree, height: nat, key: Int64, i: nat)
    requires At(store, tree, path, t, height, key) && t.Inner? && i < |t.kids|
    requires |t.kids| == |t.keys| + 1
    requires Low(t.keys, PathLow(path), i) <= key < High(t.keys, PathHigh(path), i)
    ensures height > 0 && At(store, tree, Down(path, t, i), t.kids[i], height - 1, key)
  {
    DownPlugs(path, t, i);
    DownWf(path, t, height, i);
    DownRep(store, path, t, i);
    hide Wf, PathWf, Rep, RepPath, PathLow, PathHigh, Low, High;
  }

  lemma ChosenChild(t: Tree, height: nat, lo: int, hi: int, root: bool, key: Int64)
    requires t.Inner? && Wf(t, height, lo, hi, root) && lo <= key < hi
    ensures var i := UpperBound(t.keys, key);
      i < |t.kids| == |t.keys| + 1 && Low(t.keys, lo, i) <= key < High(t.keys, hi, i)
  {
    ChildRange(t.keys, lo, hi, key);
  }

  // Looking a key up in its leaf is looking it up in the whole tree.
  lemma FoundInLeaf(store: seq<Node>, tree: Tree, path: Path, t: Tree, height: nat, key: Int64)
    requires At(store, tree, path, t, height, key) && t.Leaf?
    ensures Lookup(Entries(tree), key) == Lookup(t.entries, key)
  {
    HereFacts(store, tree, path, t, height, key);
    InsertedTreeEntries(path, t, Entry(key, Rid(0, 0)), 0);
  }

  // ---- which nodes may be written ----

  ghost predicate AllNodesOk(store: seq<Node>) {
    forall i | 0 <= i < |store| :: NodeOk(store[i])
  }

  lemma DecodedNodesOk(view: seq<Page>, store: seq<Node>)
    requires Decodes(view, store)
    ensures AllNodesOk(store)
  {
    forall i | 0 <= i < |store| ensures NodeOk(store[i]) {
      DecodedOk(view[i]);
    }
  }

  lemma LeafNodeOk(es: seq<Entry>, parent: Word64, next: Word64)
    requires Ascending(es) && |es| <= MAX_ENTRIES && forall e | e in es :: RidValid(e.rid)
    ensures NodeOk(LeafNode(parent, next, es))
  {
    forall i | 0 <= i < |es| ensures RidValid(es[i].rid) {
      assert es[i] in es;
    }
  }

  // ---- order of a scan ----

  lemma {:induction false} LeavesStored(store: seq<Node>, t: Tree, parent: nat)
    requires Rep(store, t, parent)
    ensures forall i | 0 <= i < |Leaves(t)| :: LeafStored(store, Leaves(t)[i])
    decreases t, 0
  {
    if t.Inner? {
      hide Rep;
      LeavesStoredAmong(store, t, parent, 0);
      assert t.kids[0..] == t.kids;
    }
  }

  ghost predicate LeafStored(store: seq<Node>, leaf: Tree) {
    leaf.Leaf? && leaf.id < |store| && store[leaf.id].LeafNode? && store[leaf.id].entries == leaf.entries
  }

  lemma {:induction false} LeavesStoredAmong(store: seq<Node>, t: Tree, parent: nat, i: nat)
    requires t.Inner? && Rep(store, t, parent) && i <= |t.kids|
    ensures forall j | 0 <= j < |LeavesAll(t.kids[i..])| :: LeafStored(store, LeavesAll(t.kids[i..])[j])
    decreases t, 0, |t.kids| - i
  {
    if i < |t.kids| {
      assert t.kids[i..][0] == t.kids[i] && t.kids[i..][1..] == t.kids[i + 1..];
      LeavesStored(store, t.kids[i], t.id);
      LeavesStoredAmong(store, t, parent, i + 1);
    }
  }

  lemma {:induction false} LeafMultiplicity(t: Tree, x: nat)
    ensures multiset(KidIds(Leaves(t)))[x] <= Uses(t, x)
    decreases t, 0
  {
    if t.Leaf? {
      assert KidIds(Leaves(t)) == [t.id];
    } else {
      LeafMultiplicityAmong(t.kids, x);
    }
  }

  lemma {:induction false} LeafMultiplicityAmong(kids: seq<Tree>, x: nat)
    ensures multiset(KidIds(LeavesAll(kids)))[x] <= UsesAll(kids, x)
    decreases kids, 1
  {
    if kids == [] {
      assert KidIds(LeavesAll(kids)) == [];
    } else {
      KidIdsAppend(Leaves(kids[0]), LeavesAll(kids[1..]));
      LeafMultiplicity(kids[0], x);
      LeafMultiplicityAmong(kids[1..], x);
    }
  }

  // A tree has no more leaves than its file has pages.
  lemma LeafCount(t: Tree, n: nat)
    requires UsesExactly(t, n)
    ensures |Leaves(t)| <= n
  {
    var ids := KidIds(Leaves(t));
    forall i, j | 0 <= i < j < |ids| ensures ids[i] != ids[j] {
      LeafMultiplicity(t, ids[i]);
      assert Uses(t, ids[i]) == (if ids[i] < n then 1 else 0);
      assert ids == ids[..j] + [ids[j]] + ids[j + 1..];
      assert ids[i] in ids[..j];
    }
    forall x | x in ids ensures x < n {
      LeafUsed(t, x);
      assert Uses(t, x) == (if x < n then 1 else 0);
    }
    FullList(ids, n);
  }

  // The page ids of a tree's nodes.
  ghost function Ids(t: Tree): multiset<nat>
    decreases t, 0
  {
    multiset{t.id} + (if t.Leaf? then multiset{} else IdsAll(t.kids))
  }

  ghost function IdsAll(ts: seq<Tree>): multiset<nat>
    decreases ts, 1
  {
    if ts == [] then multiset{} else Ids(ts[0]) + IdsAll(ts[1..])
  }

  lemma {:induction false} IdsCount(t: Tree, x: nat)
    ensures |Ids(t)| == NodeCount(t) && Ids(t)[x] == Uses(t, x)
    decreases t, 0
  {
    if t.Inner? {
      IdsCountAll(t.kids, x);
    }
  }

  lemma {:induction false} IdsCountAll(ts: seq<Tree>, x: nat)
    ensures |IdsAll(ts)| == NodeCountAll(ts) && IdsAll(ts)[x] == UsesAll(ts, x)
    decreases ts, 1
  {
    if ts != [] {
      IdsCount(ts[0], x);
      IdsCountAll(ts[1..], x);
    }
  }

  ghost function FirstIds(n: nat): multiset<nat> {
    if n == 0 then multiset{} else FirstIds(n - 1) + multiset{n - 1}
  }

  lemma {:induction false} FirstIdsExact(n: nat, x: nat)
    ensures |FirstIds(n)| == n && FirstIds(n)[x] == (if x < n then 1 else 0)
  {
    if n > 0 {
      FirstIdsExact(n - 1, x);
    }
  }

  // A tree that uses every page once has as many nodes as there are pages.
  lemma PagesAreNodes(t: Tree, n: nat)
    requires UsesExactly(t, n)
    ensures NodeCount(t) == n
  {
    hide Uses, Ids, FirstIds;
    forall x: nat ensures Ids(t)[x] == FirstIds(n)[x] {
      IdsCount(t, x);
      FirstIdsExact(n, x);
      assert Uses(t, x) == (if x < n then 1 else 0);
    }
    assert Ids(t) == FirstIds(n);
    IdsCount(t, 0);
    FirstIdsExact(n, 0);
  }

  // An index file of more than one page has at least two entries per page.
  lemma PagesFew(store: seq<Node>, root: nat, t: Tree, height: nat)
    requires Represents(store, root, t, height)
    ensures |store| == 1 || 2 * |store| <= |Entries(t)|
  {
    hide Rep, Linked, WfRoot, UsesExactly, NodeCount, Entries;
    PagesAreNodes(t, |store|);
    NodesFew(t, height);
  }

  // An insertion at a leaf takes at most one page more than the file has.
  lemma PagesNeeded(store: seq<Node>, root: nat, tree: Tree, height: nat, path: Path, t: Tree)
    requires Represents(store, root, tree, height) && Plug(path, t) == tree
    ensures Allocated(path) <= |store|
  {
    hide Rep, Linked, WfRoot, UsesExactly, NodeCount, Plug, Allocated;
    PagesAreNodes(tree, |store|);
    DepthBelowCount(path, t);
    AllocatedFew(path);
    assert NodeCount(t) > 0 by { NodePositive(t); }
  }

  lemma NodePositive(t: Tree)
    ensures NodeCount(t) > 0
  {
  }
}
