// The persistent B+ tree: searches, scans and insertions over the pages of one
// index file. Every page access takes one guard and releases it before the next,
// so a pool with a single frame is enough.
module BPlusTrees {
  import opened Results
  import opened ByteCodec
  import opened Pages
  import opened BufferPool
  import opened PageManager
  import opened TreeModel
  import opened TreeContents
  import opened NodeCodec
  import opened TreeStore
  import opened TreeSteps
  import opened IndexFiles

  class BPlusTree {
    var pool: BufferPoolManager
    var rootPageId: Word64
    ghost var store: seq<Node>
    ghost var tree: Tree
    ghost var height: nat

    // Every page of the file decodes to the node that the model has for it.
    ghost predicate InSync()
      reads this, pool
    {
      Idle(pool) && Decodes(pool.View(), store)
    }

    ghost predicate Valid()
      reads this, pool
    {
      InSync() && Represents(store, rootPageId, tree, height)
    }

    ghost function Contents(): map<Int64, Rid>
      reads this
    {
      MapOf(Entries(tree))
    }

    constructor Over(pool: BufferPoolManager, rootPageId: Word64, ghost store: seq<Node>, ghost tree: Tree, ghost height: nat)
      ensures this.pool == pool && this.rootPageId == rootPageId
      ensures this.store == store && this.tree == tree && this.height == height
    {
      this.pool, this.rootPageId := pool, rootPageId;
      this.store, this.tree, this.height := store, tree, height;
    }

    // ---- node access ----

    method ReadNode(id: Word64) returns (r: Result<Node>)
      requires InSync()
      modifies pool
      ensures InSync() && pool.View() == old(pool.View()) && |pool.frames| == old(|pool.frames|)
      ensures r == if id < |store| then Ok(store[id])
                   else if id == INVALID_ID then Err(InvalidArgument) else Err(OutOfRange)
    {
      hide StateOk, ViewOf, OrderOf, Strip, HeaderOk, DecodeNode;
      r := FetchNode(pool, id);
    }

    method WriteNode(id: Word64, node: Node) returns (r: Result<()>)
      requires InSync()
      modifies this, pool
      ensures unchanged(`pool) && unchanged(`rootPageId) && unchanged(`tree) && unchanged(`height)
      ensures InSync() && |pool.frames| == old(|pool.frames|)
      ensures r.Ok? <==> id < |old(store)| && NodeOk(node)
      ensures store == if r.Ok? then old(store)[id := node] else old(store)
    {
      hide StateOk, ViewOf, OrderOf, DecodeNode, NodeOk;
      r := ReplaceNode(pool, id, node);
      if r.Ok? {
        store := store[id := node];
      }
    }

    method CreateNode(node: Node) returns (r: Result<Word64>)
      requires InSync() && NodeOk(node)
      modifies this, pool
      ensures unchanged(`pool) && unchanged(`rootPageId) && unchanged(`tree) && unchanged(`height)
      ensures InSync() && |pool.frames| == old(|pool.frames|)
      ensures r.Ok? ==> r.value == old(|store|) <= MAX_DISK_ID && store == old(store) + [node]
      ensures r.Err? ==> r.error == OutOfRange && store == old(store) && |store| == MAX_DISK_ID + 1
    {
      hide StateOk, ViewOf, OrderOf, Strip, HeaderOk, DecodeNode, NodeOk;
      r := AppendNode(pool, node);
      if r.Ok? {
        store := store + [node];
      }
    }

    // ---- splits on their way up ----

    method SetParent(id: Word64, parent: Word64) returns (r: Result<()>)
      requires InSync()
      modifies this, pool
      ensures unchanged(`pool) && unchanged(`rootPageId) && unchanged(`tree) && unchanged(`height)
      ensures InSync() && |pool.frames| == old(|pool.frames|)
      ensures r.Ok? <==> id < |old(store)|
      ensures store == if r.Ok? then old(store)[id := WithParent(old(store)[id], parent)] else old(store)
    {
      DecodedNodesOk(pool.View(), store);
      hide Decodes;
      var read := ReadNode(id);
      if read.Err? {
        return Forward(read);
      }
      r := WriteNode(id, WithParent(read.value, parent));
    }

    // The loop that hands the children of a new page their new parent id.
    method AdoptChildren(children: seq<Word64>, parent: Word64) returns (r: Result<()>)
      requires InSync() && forall c | c in children :: c < |store|
      modifies this, pool
      ensures unchanged(`pool) && unchanged(`rootPageId) && unchanged(`tree) && unchanged(`height)
      ensures InSync() && |pool.frames| == old(|pool.frames|)
      ensures r == Ok(()) && store == Reparented(old(store), children, parent)
    {
      hide Decodes, Idle, Reparented;
      ghost var base := store;
      ReparentNone(store, children, parent);
      for j := 0 to |children|
        invariant unchanged(`pool) && unchanged(`rootPageId) && unchanged(`tree) && unchanged(`height)
        invariant InSync() && |pool.frames| == old(|pool.frames|)
        invariant |store| == |base| && store == Reparented(base, children[..j], parent)
      {
        assert children[j] in children;
        ReparentOneMore(base, children, j, parent);
        r := SetParent(children[j], parent);
        if r.Err? {
          return;
        }
      }
      assert children[..|children|] == children;
      return Ok(());
    }

    // A new page takes the upper half of an over-full node, the old page keeps
    // the lower half, and the children that moved are told.
    method SplitNode(id: Word64, parent: Word64, keys: seq<Int64>, children: seq<Word64>) returns (r: Result<Word64>)
      requires InSync() && id < |store|
      requires |keys| == MAX_KEYS + 1 && |children| == |keys| + 1 && AscendingKeys(keys)
      requires forall c | c in children :: c < |store| && c != INVALID_ID
      modifies this, pool
      ensures unchanged(`pool) && unchanged(`rootPageId) && unchanged(`tree) && unchanged(`height)
      ensures InSync() && |pool.frames| == old(|pool.frames|)
      ensures r.Ok? ==>
        var s, n := |keys| / 2, old(|store|);
        var lower := InnerNode(parent, keys[..s], children[..s + 1]);
        var upper := InnerNode(parent, keys[s + 1..], children[s + 1..]);
        && r.value == n <= MAX_DISK_ID
        && store == Reparented((old(store) + [upper])[id := lower], upper.children, n)
      ensures r.Err? ==> r.error == OutOfRange && store == old(store) && |store| == MAX_DISK_ID + 1
    {
      hide Decodes, Idle, NodeOk, Reparented, AscendingKeys;
      var s := |keys| / 2;
      var upper := InnerNode(parent, keys[s + 1..], children[s + 1..]);
      var lower := InnerNode(parent, keys[..s], children[..s + 1]);
      HalvesOk(keys, children, parent);
      var created := CreateNode(upper);
      if created.Err? {
        return created;
      }
      var written := WriteNode(id, lower);
      if written.Err? {
        return Forward(written);
      }
      assert forall c | c in upper.children :: c in children;
      var adopted := AdoptChildren(upper.children, created.value);
      if adopted.Err? {
        return Forward(adopted);
      }
      return created;
    }

    method GrowNewRoot(left: Word64, sep: Int64, right: Word64, ghost l: Tree, ghost r: Tree) returns (res: Result<()>)
      requires InSync() && |store| <= MAX_DISK_ID + 1
      requires Pending(store, Top, l, r) && l.id == left && r.id == right
      modifies this, pool
      ensures unchanged(`pool) && unchanged(`tree) && unchanged(`height)
      ensures InSync() && |pool.frames| == old(|pool.frames|)
      ensures res.Ok? ==>
        var grown := Propagate(Top, l, sep, r, old(|store|));
        && Rep(store, grown, INVALID_ID) && rootPageId == grown.id
        && |store| == old(|store|) + 1 && LinksKept(old(store), store)
      ensures res.Err? ==> res.error == OutOfRange && |store| == MAX_DISK_ID + 1
      ensures res.Ok? <==> |old(store)| <= MAX_DISK_ID
    {
      hide Decodes, Idle, Rep, Pending, NodeOk, LinksKept, Propagate;
      PendingIds(store, l, r);
      var ids := [left, right];
      NewRootOk(sep, ids);
      var created := CreateNode(InnerNode(INVALID_ID, [sep], ids));
      if created.Err? {
        return Forward(created);
      }
      var first := SetParent(left, created.value);
      if first.Err? {
        return first;
      }
      var second := SetParent(right, created.value);
      if second.Err? {
        return second;
      }
      GrowFacts(old(store), sep, l, r, store);
      rootPageId := created.value;
      return Ok(());
    }

    // Links the right half of a split into the parent of the left half, splitting
    // ancestors and growing a new root as needed. The result is the tree that
    // Propagate describes; the only failure is a file at its maximal page count.
    method InsertIntoParent(left: Word64, sep: Int64, right: Word64, parent: Word64,
                            ghost path: Path, ghost l: Tree, ghost r: Tree, ghost h: nat)
      returns (res: Result<()>)
      requires InSync() && |store| <= MAX_DISK_ID + 1
      requires Pending(store, path, l, r) && l.id == left && r.id == right && parent == PathParent(path)
      requires PathWf(path, h) && PathLow(path) < sep < PathHigh(path)
      requires Wf(l, h, PathLow(path), sep, false) && Wf(r, h, sep, PathHigh(path), false)
      requires Shaped(path) && rootPageId == PlugId(path, left)
      modifies this, pool
      ensures unchanged(`pool) && unchanged(`tree) && unchanged(`height)
      ensures InSync() && |pool.frames| == old(|pool.frames|)
      ensures res.Ok? ==>
        var grown := Propagate(path, l, sep, r, old(|store|));
        && Rep(store, grown, INVALID_ID) && rootPageId == grown.id
        && |store| == old(|store|) + Allocated(path)
        && LinksKept(old(store), store)
      ensures res.Err? ==> res.error == OutOfRange && |store| == MAX_DISK_ID + 1
      ensures res.Ok? <==> |old(store)| + Allocated(path) <= MAX_DISK_ID + 1
      decreases path
    {
      hide Decodes, Rep, RepPath, Wf, PathWf, PathLow, PathHigh, Pending, Idle, StateOk, ViewOf, OrderOf, NodeOk;
      hide Reparented, Propagate, LinksKept, KidIds, AscendingKeys, CutLeft, CutRight, Allocated, PlugId, DecodeNode;
      PathFacts(store, path, l, r, h);
      ghost var n := |store|;
      if parent == INVALID_ID {
        res := GrowNewRoot(left, sep, right, l, r);
        return;
      }

      var read := ReadNode(parent);
      if read.Err? {
        return Forward(read);
      }
      var node := read.value;
      ParentPage(store, path, l, sep, r);
      if node.LeafNode? {
        return Err(Corruption);
      }
      var childIndex := Find(node.children, left);
      if childIndex == |node.children| {
        return Err(Corruption);
      }
      var keys := node.keys[..childIndex] + [sep] + node.keys[childIndex..];
      var children := node.children[..childIndex + 1] + [right] + node.children[childIndex + 1..];
      ParentFacts(store, path, l, sep, r, h, children);
      if |keys| <= MAX_KEYS {
        res := WriteNode(parent, InnerNode(node.parent, keys, children));
        WidenFacts(old(store), store, path, l, sep, r);
        return;
      }

      PropagateLevel(path, l, sep, r, n);
      AllocatedLevel(path);
      var splitIndex := |keys| / 2;
      var split := SplitNode(parent, node.parent, keys, children);
      if split.Err? {
        return Forward(split);
      }
      ghost var kids, linked := path.leftKids + [l, r] + path.rightKids, store;
      SplitFacts(old(store), path, l, sep, r, h,
        InnerNode(node.parent, keys[..splitIndex], children[..splitIndex + 1]),
        InnerNode(node.parent, keys[splitIndex + 1..], children[splitIndex + 1..]));
      res := InsertIntoParent(parent, keys[splitIndex], split.value, node.parent, path.up,
        CutLeft(path.id, keys, kids), CutRight(n, keys, kids), h + 1);
      if res.Ok? {
        LinksTransitive(old(store), linked, store);
      }
    }

    // ---- public operations ----

    // A new page with an empty leaf, behind whatever the file has; in an empty
    // file it is the empty tree.
    static method Create(pool: BufferPoolManager) returns (r: Result<BPlusTree>)
      requires Idle(pool)
      modifies pool
      ensures Idle(pool) && |pool.frames| == old(|pool.frames|)
      ensures r.Ok? <==> |old(pool.View())| <= MAX_DISK_ID
      ensures r.Ok? ==>
        && fresh(r.value) && r.value.pool == pool && r.value.rootPageId == |old(pool.View())|
        && NodeAppended(old(pool.View()), pool.View(), LeafNode(INVALID_ID, INVALID_ID, []))
      ensures r.Ok? && old(pool.View()) == [] ==> r.value.Valid() && Entries(r.value.tree) == []
      ensures r.Err? ==> r.error == OutOfRange && pool.View() == old(pool.View())
    {
      hide StateOk, ViewOf, OrderOf, DecodeNode;
      ghost var leaf := LeafNode(INVALID_ID, INVALID_ID, []);
      var created := AppendNode(pool, LeafNode(INVALID_ID, INVALID_ID, []));
      if created.Err? {
        return Forward(created);
      }
      NewTree([leaf]);
      var made := new BPlusTree.Over(pool, created.value, [leaf], Leaf(0, []), 0);
      return Ok(made);
    }

    // Opening checks that the given page is a node without a parent. An index
    // file has exactly one, its current root.
    static method Open(pool: BufferPoolManager, rootPageId: Word64, ghost current: nat) returns (r: Result<BPlusTree>)
      requires Idle(pool)
      modifies pool
      ensures Idle(pool) && pool.View() == old(pool.View()) && |pool.frames| == old(|pool.frames|)
      ensures var view := pool.View();
        if rootPageId == INVALID_ID then r == Err(InvalidArgument)
        else if rootPageId >= |view| then r == Err(OutOfRange)
        else if DecodeNode(view[rootPageId]).Err? then r == Err(DecodeNode(view[rootPageId]).error)
        else if DecodeNode(view[rootPageId]).value.parent != INVALID_ID then r == Err(Corruption)
        else r.Ok? && fresh(r.value) && r.value.pool == pool && r.value.rootPageId == rootPageId
      ensures TreeFile(pool.View(), current) ==>
        && (r.Ok? <==> rootPageId == current)
        && (r.Ok? ==> r.value.Valid() && Entries(r.value.tree) == FileEntries(pool.View(), current))
    {
      hide StateOk, ViewOf, OrderOf, DecodeNode, Represents, FileEntries;
      ghost var store: seq<Node>, t: Tree, height: nat := [], Leaf(0, []), 0;
      if TreeFile(pool.View(), current) {
        t :| HoldsTree(pool.View(), current, t);
        store, height :| Holds(pool.View(), current, store, t, height);
        FileEntriesUnique(pool.View(), current, store, t, height);
        SizeFacts(pool.Now());
        RootStored(store, current, t, height);
        OnlyRoot(store, current, t, height);
      }
      if rootPageId == INVALID_ID {
        return Err(InvalidArgument);
      }
      var root := FetchNode(pool, rootPageId);
      if root.Err? {
        return Forward(root);
      }
      if root.value.parent != INVALID_ID {
        return Err(Corruption);
      }
      var handle := new BPlusTree.Over(pool, rootPageId, store, t, height);
      return Ok(handle);
    }

    // A search finds exactly the keys of the tree's map.
    method Search(key: Int64) returns (r: Result<Rid>)
      requires Valid()
      modifies pool
      ensures Valid() && pool.View() == old(pool.View()) && |pool.frames| == old(|pool.frames|)
      ensures r == if key in Contents() then Ok(Contents()[key]) else Err(NotFound)
    {
      hide Decodes, At, PathWf, Wf, Rep, RepPath, Represents, Plug;
      var current := rootPageId;
      ghost var path, t, h := Top, tree, height;
      StartHere(store, rootPageId, tree, height, key);
      while true
        invariant Valid() && pool.View() == old(pool.View()) && |pool.frames| == old(|pool.frames|)
        invariant At(store, tree, path, t, h, key) && t.id == current
        decreases h
      {
        var read := ReadNode(current);
        HereFacts(store, tree, path, t, h, key);
        if read.Err? {
          return Forward(read);
        }
        var node := read.value;
        if node.InnerNode? {
          var childIndex := UpperBound(node.keys, key);
          ChooseAt(store, tree, path, t, h, key);
          current := node.children[childIndex];
          path, t, h := Down(path, t, childIndex), t.kids[childIndex], h - 1;
          continue;
        }
        var position := LowerBound(node.entries, key);
        FoundInTree(store, rootPageId, tree, height, path, t, h, key);
        if position == |node.entries| || node.entries[position].key != key {
          return Err(NotFound);
        }
        return Ok(node.entries[position].rid);
      }
    }

    // A scan along the leaf links returns every entry once, in key order. The
    // cycle guard on the number of visited leaves never fires.
    method ScanAll() returns (r: Result<seq<Entry>>)
      requires Valid()
      modifies pool
      ensures Valid() && pool.View() == old(pool.View()) && |pool.frames| == old(|pool.frames|)
      ensures r == Ok(Entries(tree))
    {
      hide DecodeNode, At, PathWf, Wf, Rep, RepPath, Represents, Plug, PathLow, PathHigh, Leaves, Flat, LeavesBefore;
      var current := rootPageId;
      ghost var path, t, h := Top, tree, height;
      ScanStart(store, rootPageId, tree, height);
      while true
        invariant Valid() && pool.View() == old(pool.View()) && |pool.frames| == old(|pool.frames|)
        invariant At(store, tree, path, t, h, KEY_MIN) && t.id == current && LeavesBefore(path) == []
        decreases h
      {
        var read := ReadNode(current);
        HereFacts(store, tree, path, t, h, KEY_MIN);
        if read.Err? {
          return Forward(read);
        }
        if read.value.LeafNode? {
          break;
        }
        ScanDown(store, tree, path, t, h);
        current := read.value.children[0];
        path, t, h := Down(path, t, 0), t.kids[0], h - 1;
      }

      var pageCount := |pool.disk|;
      ghost var leaves := Leaves(tree);
      ScanLeaves(store, rootPageId, tree, height, path, t, h);
      var entries: seq<Entry> := [];
      var visited := 0;
      while current != INVALID_ID
        invariant Valid() && pool.View() == old(pool.View()) && |pool.frames| == old(|pool.frames|)
        invariant visited <= |leaves| && |leaves| <= |store|
        invariant current == if visited < |leaves| then leaves[visited].id else INVALID_ID
        invariant entries == Flat(leaves[..visited])
        decreases |leaves| - visited
      {
        SizeFacts(pool.Now());
        LeafPage(store, rootPageId, tree, height, visited);
        if visited >= pageCount {
          return Err(Corruption);
        }
        var read := ReadNode(current);
        if read.Err? {
          return Forward(read);
        }
        if read.value.InnerNode? {
          return Err(Corruption);
        }
        FlatMore(leaves, visited);
        entries := entries + read.value.entries;
        current := read.value.next;
        visited := visited + 1;
      }
      if visited < |leaves| {
        SizeFacts(pool.Now());
        LeafPage(store, rootPageId, tree, height, visited);
      }
      assert leaves[..|leaves|] == leaves;
      EntriesAreFlat(tree);
      return Ok(entries);
    }

    // Insertion adds one association or, for a key that is there already, changes
    // nothing. The only other failures are an invalid record id and a file that
    // has reached its maximal page count, which takes as many entries as that.
    // The file grows by one page for every node that is split, and one for a new
    // root.
    method Insert(key: Int64, rid: Rid) returns (r: Result<()>)
      requires Valid()
      modifies this, pool
      ensures unchanged(`pool) && Idle(pool) && |pool.frames| == old(|pool.frames|)
      ensures r.Ok? ==> Valid() && Contents() == old(Contents())[key := rid]
      ensures r.Ok? ==> Entries(tree) == Inserted(old(Entries(tree)), Entry(key, rid))
      ensures r == Err(InvalidArgument) <==> !RidValid(rid)
      ensures r == Err(AlreadyExists) <==> RidValid(rid) && key in old(Contents())
      ensures r == Err(InvalidArgument) || r == Err(AlreadyExists) ==>
        unchanged(this) && Valid() && pool.View() == old(pool.View())
      ensures r.Err? && r.error != InvalidArgument && r.error != AlreadyExists ==>
        && r.error == OutOfRange && InSync() && |store| == MAX_DISK_ID + 1
        && |old(Entries(tree))| > MAX_DISK_ID
      ensures r.Ok? ==> |store| == |old(store)| + Growth(old(tree), key)
      ensures r.Ok? <==>
        && RidValid(rid) && key !in old(Contents())
        && |old(store)| + Growth(old(tree), key) <= 0x10_0000_0000_0000
    {
      hide Decodes, At, PathWf, Wf, Rep, RepPath, Represents, Plug, RidValid, Inserted, NodeOk, Uses, Growth;
      if !RidValid(rid) {
        return Err(InvalidArgument);
      }
      var current := rootPageId;
      ghost var path, t, h := Top, tree, height;
      StartHere(store, rootPageId, tree, height, key);
      while true
        invariant Valid() && pool.View() == old(pool.View()) && |pool.frames| == old(|pool.frames|)
        invariant unchanged(this)
        invariant At(store, tree, path, t, h, key) && t.id == current
        decreases h
      {
        var read := ReadNode(current);
        HereFacts(store, tree, path, t, h, key);
        if read.Err? {
          return Forward(read);
        }
        var node := read.value;
        if node.InnerNode? {
          var childIndex := UpperBound(node.keys, key);
          ChooseAt(store, tree, path, t, h, key);
          current := node.children[childIndex];
          path, t, h := Down(path, t, childIndex), t.kids[childIndex], h - 1;
          continue;
        }
        FoundInTree(store, rootPageId, tree, height, path, t, h, key);
        PagesFew(store, rootPageId, tree, height);
        r := InsertIntoLeaf(current, node, key, rid, path, t);
        return;
      }
    }

    // The part of Insert that follows the descent.
    method InsertIntoLeaf(id: Word64, node: Node, key: Int64, rid: Rid, ghost path: Path, ghost t: Tree)
      returns (r: Result<()>)
      requires Valid() && RidValid(rid)
      requires At(store, tree, path, t, 0, key) && t.Leaf? && t.id == id < |store| && node == store[id]
      requires node.LeafNode? && node.entries == t.entries
      requires key in Contents() <==> Lookup(node.entries, key).Some?
      modifies this, pool
      ensures unchanged(`pool) && Idle(pool) && |pool.frames| == old(|pool.frames|)
      ensures r.Ok? ==> Valid() && Contents() == old(Contents())[key := rid]
      ensures r.Ok? ==> Entries(tree) == Inserted(old(Entries(tree)), Entry(key, rid))
      ensures r == Err(AlreadyExists) <==> key in old(Contents())
      ensures r == Err(AlreadyExists) ==> unchanged(this) && Valid() && pool.View() == old(pool.View())
      ensures r.Err? && r.error != AlreadyExists ==>
        && r.error == OutOfRange && InSync() && |store| == MAX_DISK_ID + 1
        && 2 * |old(store)| > MAX_DISK_ID
      ensures r.Ok? ==> |store| == |old(store)| + Growth(old(tree), key)
      ensures r.Ok? <==> key !in old(Contents()) && |old(store)| + Growth(old(tree), key) <= 0x10_0000_0000_0000
    {
      hide Decodes, At, PathWf, Wf, Rep, RepPath, Represents, Plug, RidValid, NodeOk, Uses, Propagate, InsertedTree, Growth;
      var position := LowerBound(node.entries, key);
      if position < |node.entries| && node.entries[position].key == key {
        return Err(AlreadyExists);
      }
      var entries := node.entries[..position] + [Entry(key, rid)] + node.entries[position..];
      GrowthAtLeaf(store, tree, path, t, key);
      SizeFacts(pool.Now());
      StoreSize(pool.View(), store);
      ghost var e, n := Entry(key, rid), |store|;
      LeafFacts(pool.View(), store, tree, path, t, e);
      if |entries| <= MAX_ENTRIES {
        r := WriteNode(id, LeafNode(node.parent, node.next, entries));
        if r.Ok? {
          tree, height := InsertedTree(path, t, e, n), HeightOfInserted(path, t);
          LeafWritten(old(store), store, rootPageId, old(tree), old(height), path, t, e);
        }
        return;
      }

      LeafOnPath(store, tree, path, t, key);
      PagesNeeded(store, rootPageId, tree, height, path, t);
      var splitIndex := |entries| / 2;
      var rightNode := LeafNode(node.parent, node.next, entries[splitIndex..]);
      var created := CreateNode(rightNode);
      if created.Err? {
        return Forward(created);
      }
      var leftNode := LeafNode(node.parent, created.value, entries[..splitIndex]);
      var written := WriteNode(id, leftNode);
      if written.Err? {
        return written;
      }
      ghost var l, right := Leaf(id, entries[..splitIndex]), Leaf(n, entries[splitIndex..]);
      LeafSplit(old(store), store, rootPageId, old(tree), old(height), path, t, e, leftNode, rightNode);
      ghost var linked := store;
      r := InsertIntoParent(id, entries[splitIndex].key, created.value, node.parent, path, l, right, 0);
      if r.Ok? {
        tree, height := InsertedTree(path, t, e, n), HeightOfInserted(path, t);
        LeafSplitDone(linked, store, rootPageId, old(store), old(rootPageId), old(tree), old(height), path, t, e);
      }
    }
  }

  // The file has one more page, which decodes to the node.
  ghost predicate NodeAppended(was: seq<Page>, now: seq<Page>, node: Node) {
    |now| == |was| + 1 && now[..|was|] == was && DecodeNode(now[|was|]) == Ok(node)
  }

  ghost predicate NodeReplaced(was: seq<Page>, now: seq<Page>, id: nat, node: Node) {
    && id < |was| == |now| && DecodeNode(now[id]) == Ok(node)
    && forall i | 0 <= i < |was| && i != id :: now[i] == was[i]
  }

  // What a page of the file decodes to.
  method FetchNode(pool: BufferPoolManager, id: Word64) returns (r: Result<Node>)
    requires Idle(pool)
    modifies pool
    ensures Idle(pool) && pool.View() == old(pool.View()) && |pool.frames| == old(|pool.frames|)
    ensures r == if id < |pool.View()| then DecodeNode(pool.View()[id])
                 else if id == INVALID_ID then Err(InvalidArgument) else Err(OutOfRange)
  {
    hide StateOk, ViewOf, OrderOf, Strip, HeaderOk, DecodeNode;
    IdleFacts(pool.Now());
    SizeFacts(pool.Now());
    assert pool.frames[0].pins == 0;
    var fetched := pool.FetchPage(id);
    if fetched.Err? {
      return Forward(fetched);
    }
    var guard := fetched.value;
    var page := guard.Read();
    var node := DecodeNode(page);
    StripIdempotent(page);
    DecodeStripped(page, pool.View()[id]);
    var released := guard.Release();
    assert pool.live == map[];
    if released.Err? {
      return Forward(released);
    }
    return node;
  }

  // Overwrites a page that decodes to a node.
  method ReplaceNode(pool: BufferPoolManager, id: Word64, node: Node) returns (r: Result<()>)
    requires Idle(pool) && (id < |pool.View()| ==> DecodeNode(pool.View()[id]).Ok?)
    modifies pool
    ensures Idle(pool) && |pool.frames| == old(|pool.frames|)
    ensures r.Ok? <==> id < |old(pool.View())| && NodeOk(node)
    ensures r.Ok? ==> NodeReplaced(old(pool.View()), pool.View(), id, node)
    ensures r.Err? ==> pool.View() == old(pool.View())
  {
    hide StateOk, ViewOf, OrderOf, Strip, HeaderOk, DecodeNode, EncodeNode, NodeOk;
    IdleFacts(pool.Now());
    SizeFacts(pool.Now());
    assert pool.frames[0].pins == 0;
    var fetched := pool.FetchPage(id);
    if fetched.Err? {
      return Forward(fetched);
    }
    var guard := fetched.value;
    var page := guard.Read();
    ghost var view := pool.View();
    StripIdempotent(page);
    DecodeStripped(page, view[id]);
    var encoded := EncodeNode(page, node);
    EncodeFacts(page, id, node);
    guard.Write(if encoded.Ok? then encoded.value else page);
    assert pool.live.Keys == {guard};
    r := guard.Release();
    assert pool.live == map[];
    if encoded.Err? {
      assert pool.View() == view;
      return Forward(encoded);
    }
  }

  method AppendNode(pool: BufferPoolManager, node: Node) returns (r: Result<Word64>)
    requires Idle(pool) && NodeOk(node)
    modifies pool
    ensures Idle(pool) && |pool.frames| == old(|pool.frames|)
    ensures r.Ok? ==> r.value == |old(pool.View())| <= MAX_DISK_ID && NodeAppended(old(pool.View()), pool.View(), node)
    ensures r.Err? ==>
      r.error == OutOfRange && pool.View() == old(pool.View()) && |pool.View()| == MAX_DISK_ID + 1
  {
    hide StateOk, ViewOf, OrderOf, Strip, HeaderOk, DecodeNode, EncodeNode, NodeOk, Pages.Create;
    IdleFacts(pool.Now());
    SizeFacts(pool.Now());
    assert pool.frames[0].pins == 0;
    var made := pool.NewPage(Index);
    if made.Err? {
      return Forward(made);
    }
    var guard := made.value;
    var id := guard.pageId;
    var page := guard.Read();
    NewIndexPage(page, id);
    var encoded := EncodeNode(page, node);
    EncodeFacts(page, id, node);
    guard.Write(if encoded.Ok? then encoded.value else page);
    assert pool.live.Keys == {guard};
    var released := guard.Release();
    assert pool.live == map[];
    if encoded.Err? {
      return Forward(encoded);
    }
    if released.Err? {
      return Forward(released);
    }
    return Ok(id);
  }

  // Of all pages of an index file only the root decodes to a node without a parent.
  lemma OnlyRoot(store: seq<Node>, root: nat, t: Tree, height: nat)
    requires Represents(store, root, t, height) && |store| <= INVALID_ID
    ensures forall x: nat | x < |store| :: store[x].parent == INVALID_ID <==> x == root
  {
    forall x: nat | x < |store| ensures store[x].parent == INVALID_ID <==> x == root {
      OnlyRootLacksParent(store, root, t, height, x);
    }
  }

  lemma EncodeFacts(page: Page, id: Word64, node: Node)
    requires HeaderOk(page, id) && (TypeOf(page) == Index || DecodeNode(page).Ok?)
    ensures EncodeNode(page, node).Ok? <==> NodeOk(node)
    ensures EncodeNode(page, node).Ok? ==>
      var q := EncodeNode(page, node).value;
      HeaderOk(q, id) && DecodeNode(Strip(q)) == Ok(node)
  {
    hide HeaderOk, EncodePayload, NodeOk;
    if NodeOk(node) {
      NodeRoundTrip(page, node, id);
      var q := EncodeNode(page, node).value;
      StripIdempotent(q);
      DecodeStripped(q, Strip(q));
    }
  }

  lemma NewIndexPage(page: Page, id: Word64)
    requires id != INVALID_ID && Strip(page) == Strip(Create(Index, id).value)
    ensures TypeOf(page) == Index
  {
    hide Strip, TypeOf, HeaderOk;
    CreateWellFormed(Index, id);
    SameHeader(page, Create(Index, id).value);
  }

  // ---- the steps of InsertIntoParent ----

  lemma PathFacts(store: seq<Node>, path: Path, l: Tree, r: Tree, h: nat)
    requires Pending(store, path, l, r) && PathWf(path, h) && |store| <= MAX_DISK_ID + 1
    ensures l.id < |store| && r.id < |store|
    ensures path.Step? ==> path.id < |store| && PathParent(path) == path.id
    ensures path.Top? ==> PathParent(path) == INVALID_ID && Allocated(path) == 1
  {
    hide PathWf, Uses, PathUses;
  }

  lemma PendingIds(store: seq<Node>, l: Tree, r: Tree)
    requires Pending(store, Top, l, r) && |store| <= MAX_DISK_ID + 1
    ensures l.id < |store| && r.id < |store|
  {
  }

  lemma NewRootOk(sep: Int64, ids: seq<Word64>)
    requires |ids| == 2 && forall c | c in ids :: c != INVALID_ID
    ensures NodeOk(InnerNode(INVALID_ID, [sep], ids))
  {
  }

  lemma ReparentTwo(store: seq<Node>, a: Word64, b: Word64, parent: Word64)
    requires a < |store| && b < |store|
    ensures var once := store[a := WithParent(store[a], parent)];
      Reparented(store, [a, b], parent) == once[b := WithParent(once[b], parent)]
  {
    hide Reparented;
    var ids := [a, b];
    assert ids[..0] == [] && ids[..1] == [a] && ids[..2] == ids;
    ReparentNone(store, ids, parent);
    ReparentOneMore(store, ids, 0, parent);
    ReparentOneMore(store, ids, 1, parent);
  }

  lemma GrowFacts(before: seq<Node>, sep: Int64, l: Tree, r: Tree, after: seq<Node>)
    requires Pending(before, Top, l, r) && |before| <= MAX_DISK_ID && l.id < |before| && r.id < |before|
    requires var n := |before|;
      var s1 := before + [InnerNode(INVALID_ID, [sep], [l.id, r.id])];
      var s2 := s1[l.id := WithParent(s1[l.id], n)];
      after == s2[r.id := WithParent(s2[r.id], n)]
    ensures var grown := Propagate(Top, l, sep, r, |before|);
      && Rep(after, grown, INVALID_ID) && grown.id == |before| && LinksKept(before, after)
      && |after| == |before| + 1
  {
    hide Rep, Pending, Reparented, LinksKept, WithParent;
    GrowRoot(before, sep, l, r);
    ReparentTwo(before + [InnerNode(INVALID_ID, [sep], [l.id, r.id])], l.id, r.id, |before|);
  }

  lemma ReparentNone(store: seq<Node>, ids: seq<Word64>, parent: Word64)
    ensures Reparented(store, ids[..0], parent) == store
  {
  }

  lemma ParentFacts(store: seq<Node>, path: Path, l: Tree, sep: Int64, r: Tree, h: nat, children: seq<Word64>)
    requires path.Step? && Shaped(path) && Pending(store, path, l, r) && |store| <= MAX_DISK_ID + 1
    requires PathWf(path, h) && PathLow(path) < sep < PathHigh(path)
    requires children == KidIds(path.leftKids + [l, r] + path.rightKids)
    ensures var keys := path.leftKeys + [sep] + path.rightKeys;
      && |children| == |keys| + 1 && |keys| <= MAX_KEYS + 1 && AscendingKeys(keys)
      && (forall parent: Word64 :: |keys| <= MAX_KEYS ==> NodeOk(InnerNode(parent, keys, children)))
    ensures forall c | c in children :: c < |store| && c != INVALID_ID
  {
    hide Wf, Rep, RepPath, PathUses, Uses, PathLow, PathHigh, NodeOk;
    var keys := path.leftKeys + [sep] + path.rightKeys;
    Assemble(store, path, l, sep, r);
    KidIdsStored(store, path.up, path.id, keys, path.leftKids + [l, r] + path.rightKids);
    KeysWithSeparator(path, sep, h);
    forall parent: Word64 | |keys| <= MAX_KEYS ensures NodeOk(InnerNode(parent, keys, children)) {
      InnerNodeOk(parent, keys, children);
    }
  }

  lemma WidenFacts(before: seq<Node>, after: seq<Node>, path: Path, l: Tree, sep: Int64, r: Tree)
    requires path.Step? && Shaped(path) && Pending(before, path, l, r) && l.id < |before| <= MAX_DISK_ID + 1
    requires |path.leftKeys| + |path.rightKeys| < MAX_KEYS
    requires path.id < |before| == |after| && before[path.id].InnerNode? && after[path.id].InnerNode?
    requires after[path.id].parent == before[path.id].parent
    requires after[path.id].keys == path.leftKeys + [sep] + path.rightKeys
    requires after[path.id].children == KidIds(path.leftKids + [l, r] + path.rightKids)
    requires forall x | 0 <= x < |before| && x != path.id :: after[x] == before[x]
    ensures var grown := Propagate(path, l, sep, r, |before|);
      && Rep(after, grown, INVALID_ID) && grown.id == PlugId(path, l.id) && LinksKept(before, after)
    ensures Allocated(path) == 0
  {
    hide Wf, Rep, RepPath, PathUses, Uses, Propagate, Plug;
    var keys, kids := path.leftKeys + [sep] + path.rightKeys, path.leftKids + [l, r] + path.rightKids;
    ParentPage(before, path, l, sep, r);
    Assemble(before, path, l, sep, r);
    WriteParent(before, after, path.up, path.id, keys, kids);
    PropagateLevel(path, l, sep, r, |before|);
    PlugIdExact(path.up, Inner(path.id, keys, kids));
  }

  lemma PartValid(ids: seq<Word64>, lo: nat, hi: nat)
    requires lo <= hi <= |ids| && forall c | c in ids :: c != INVALID_ID
    ensures forall c | c in ids[lo..hi] :: c != INVALID_ID
  {
    var part := ids[lo..hi];
    forall i | 0 <= i < |part| ensures part[i] != INVALID_ID {
      assert part[i] == ids[lo + i] && ids[lo + i] in ids;
    }
  }

  lemma HalvesOk(keys: seq<Int64>, children: seq<Word64>, parent: Word64)
    requires |keys| == MAX_KEYS + 1 && |children| == |keys| + 1 && AscendingKeys(keys)
    requires forall c | c in children :: c != INVALID_ID
    ensures var s := |keys| / 2;
      && NodeOk(InnerNode(parent, keys[..s], children[..s + 1]))
      && NodeOk(InnerNode(parent, keys[s + 1..], children[s + 1..]))
  {
    hide NodeOk;
    var s := |keys| / 2;
    PartValid(children, 0, s + 1);
    PartValid(children, s + 1, |children|);
    assert children[0..s + 1] == children[..s + 1] && children[s + 1..|children|] == children[s + 1..];
    assert AscendingKeys(keys[..s]) && AscendingKeys(keys[s + 1..]);
    InnerNodeOk(parent, keys[..s], children[..s + 1]);
    InnerNodeOk(parent, keys[s + 1..], children[s + 1..]);
  }

  lemma SplitFacts(before: seq<Node>, path: Path, l: Tree, sep: Int64, r: Tree, h: nat, left: Node, right: Node)
    requires path.Step? && Shaped(path) && Pending(before, path, l, r) && l.id < |before| <= MAX_DISK_ID
    requires PathWf(path, h) && PathLow(path) < sep < PathHigh(path)
    requires Wf(l, h, PathLow(path), sep, false) && Wf(r, h, sep, PathHigh(path), false)
    requires path.id < |before| && before[path.id].InnerNode? && left.InnerNode? && right.InnerNode?
    requires left.parent == right.parent == before[path.id].parent
    requires var keys, kids := path.leftKeys + [sep] + path.rightKeys, path.leftKids + [l, r] + path.rightKids;
      && |keys| == MAX_KEYS + 1
      && left.keys == keys[..|keys| / 2] && left.children == KidIds(kids)[..|keys| / 2 + 1]
      && right.keys == keys[|keys| / 2 + 1..] && right.children == KidIds(kids)[|keys| / 2 + 1..]
    ensures var keys, kids := path.leftKeys + [sep] + path.rightKeys, path.leftKids + [l, r] + path.rightKids;
      var a, b := CutLeft(path.id, keys, kids), CutRight(|before|, keys, kids);
      var after := Reparented((before + [right])[path.id := left], right.children, |before|);
      && Pending(after, path.up, a, b) && LinksKept(before, after)
      && a.id == path.id && b.id == |before|
      && PathLow(path.up) < keys[|keys| / 2] < PathHigh(path.up)
      && Wf(a, h + 1, PathLow(path.up), keys[|keys| / 2], false)
      && Wf(b, h + 1, keys[|keys| / 2], PathHigh(path.up), false)
    ensures PathWf(path.up, h + 1) && Shaped(path.up) && before[path.id].parent == PathParent(path.up)
    ensures Allocated(path) == 1 + Allocated(path.up) && PlugId(path, l.id) == PlugId(path.up, path.id)
  {
    hide Wf, Rep, RepPath, PathUses, Uses, PathLow, PathHigh;
    var keys, kids := path.leftKeys + [sep] + path.rightKeys, path.leftKids + [l, r] + path.rightKids;
    ParentPage(before, path, l, sep, r);
    Assemble(before, path, l, sep, r);
    SplitParent(before, path.up, path.id, keys, kids, left, right);
    CutWf(path, l, sep, r, |before|, h);
  }

  lemma LinksTransitive(a: seq<Node>, b: seq<Node>, c: seq<Node>)
    requires LinksKept(a, b) && LinksKept(b, c)
    ensures LinksKept(a, c)
  {
  }

  // ---- the steps of the public operations ----

  lemma NewTree(store: seq<Node>)
    requires store == [LeafNode(INVALID_ID, INVALID_ID, [])]
    ensures Represents(store, 0, Leaf(0, []), 0) && Entries(Leaf(0, [])) == []
  {
    LeafEntries(0, []);
    assert KidIds(Leaves(Leaf(0, []))) == [0];
  }

  lemma RootStored(store: seq<Node>, root: nat, t: Tree, height: nat)
    requires Represents(store, root, t, height)
    ensures root < |store|
  {
  }

  lemma StartHere(store: seq<Node>, root: nat, tree: Tree, height: nat, key: Int64)
    requires Represents(store, root, tree, height)
    ensures At(store, tree, Top, tree, height, key) && tree.id == root
  {
  }

  lemma ChooseAt(store: seq<Node>, tree: Tree, path: Path, t: Tree, h: nat, key: Int64)
    requires At(store, tree, path, t, h, key) && t.Inner?
    ensures var i := UpperBound(t.keys, key);
      i < |t.kids| == |t.keys| + 1 && h > 0 && At(store, tree, Down(path, t, i), t.kids[i], h - 1, key)
  {
    hide PathWf, Rep, RepPath, Plug;
    ChosenChild(t, h, PathLow(path), PathHigh(path), path.Top?, key);
    hide At, Wf;
    StepDown(store, tree, path, t, h, key, UpperBound(t.keys, key));
  }

  lemma FoundInTree(store: seq<Node>, root: nat, tree: Tree, height: nat, path: Path, t: Tree, h: nat, key: Int64)
    requires Represents(store, root, tree, height) && At(store, tree, path, t, h, key) && t.Leaf?
    ensures h == 0 && Lookup(t.entries, key) == Lookup(Entries(tree), key)
    ensures key in MapOf(Entries(tree)) <==> Lookup(t.entries, key).Some?
    ensures key in MapOf(Entries(tree)) ==> Lookup(t.entries, key) == Some(MapOf(Entries(tree))[key])
  {
    HereFacts(store, tree, path, t, h, key);
    FoundInLeaf(store, tree, path, t, h, key);
    WfEntries(tree, height, KEY_MIN, KEY_SUP, true);
    MapExact(Entries(tree));
  }

  lemma HalfLeavesOk(es: seq<Entry>, parent: Word64, next: Word64)
    requires |es| == MAX_ENTRIES + 1 && Ascending(es) && forall x | x in es :: RidValid(x.rid)
    ensures NodeOk(LeafNode(parent, next, es[..|es| / 2])) && NodeOk(LeafNode(parent, next, es[|es| / 2..]))
  {
    hide RidValid, NodeOk;
    forall x | x in es[..|es| / 2] || x in es[|es| / 2..] ensures x in es {}
    LeafNodeOk(es[..|es| / 2], parent, next);
    LeafNodeOk(es[|es| / 2..], parent, next);
  }

  lemma LeafRidsValid(view: seq<Page>, store: seq<Node>, id: nat)
    requires Decodes(view, store) && id < |store| && store[id].LeafNode?
    ensures forall x | x in store[id].entries :: RidValid(x.rid)
  {
    DecodedNodesOk(view, store);
    assert NodeOk(store[id]);
  }

  // What an insertion needs to know about its leaf.
  lemma LeafFacts(view: seq<Page>, store: seq<Node>, tree: Tree, path: Path, t: Tree, e: Entry)
    requires Decodes(view, store)
    requires At(store, tree, path, t, 0, e.key) && t.Leaf? && RidValid(e.rid) && Lookup(t.entries, e.key).None?
    ensures Shaped(path)
    ensures var es := Inserted(t.entries, e);
      && |es| == |t.entries| + 1 <= MAX_ENTRIES + 1
      && (forall parent: Word64, next: Word64 | |es| <= MAX_ENTRIES :: NodeOk(LeafNode(parent, next, es)))
      && (forall parent: Word64, next: Word64 | |es| > MAX_ENTRIES ::
            && NodeOk(LeafNode(parent, next, es[..|es| / 2]))
            && NodeOk(LeafNode(parent, next, es[|es| / 2..])))
  {
    hide Decodes, NodeOk, RidValid, Rep, RepPath, PathWf;
    var es := Inserted(t.entries, e);
    HereFacts(store, tree, path, t, 0, e.key);
    LeafRidsValid(view, store, t.id);
    WfShaped(path, 0);
    InsertedAscending(t.entries, e);
    forall x | x in es ensures RidValid(x.rid) {}
    forall parent: Word64, next: Word64 | |es| <= MAX_ENTRIES ensures NodeOk(LeafNode(parent, next, es)) {
      LeafNodeOk(es, parent, next);
    }
    forall parent: Word64, next: Word64 | |es| > MAX_ENTRIES
      ensures NodeOk(LeafNode(parent, next, es[..|es| / 2])) && NodeOk(LeafNode(parent, next, es[|es| / 2..]))
    {
      HalfLeavesOk(es, parent, next);
    }
  }

  lemma ScanStart(store: seq<Node>, root: nat, tree: Tree, height: nat)
    requires Represents(store, root, tree, height)
    ensures At(store, tree, Top, tree, height, KEY_MIN) && tree.id == root && LeavesBefore(Top) == []
  {
  }

  // The first child has the least key in its range and nothing on its left.
  lemma ScanDown(store: seq<Node>, tree: Tree, path: Path, t: Tree, h: nat)
    requires At(store, tree, path, t, h, KEY_MIN) && t.Inner? && LeavesBefore(path) == []
    ensures |t.kids| > 0 && h > 0 && At(store, tree, Down(path, t, 0), t.kids[0], h - 1, KEY_MIN)
    ensures LeavesBefore(Down(path, t, 0)) == []
  {
    hide Rep, RepPath, Plug;
    PathRange(path, h);
    assert t.keys[0] in t.keys;
    StepDown(store, tree, path, t, h, KEY_MIN, 0);
  }

  lemma ScanLeaves(store: seq<Node>, root: nat, tree: Tree, height: nat, path: Path, t: Tree, h: nat)
    requires Represents(store, root, tree, height)
    requires At(store, tree, path, t, h, KEY_MIN) && t.Leaf? && LeavesBefore(path) == []
    ensures var leaves := Leaves(tree);
      0 < |leaves| <= |store| && leaves[0].id == t.id && Flat(leaves[..0]) == []
  {
    hide Rep, RepPath, PathWf;
    PlugLeaves(path, t);
    LeafCount(tree, |store|);
  }

  lemma LeafPage(store: seq<Node>, root: nat, tree: Tree, height: nat, i: nat)
    requires Represents(store, root, tree, height) && i < |Leaves(tree)|
    ensures var leaves := Leaves(tree);
      && leaves[i].Leaf? && leaves[i].id < |store| && store[leaves[i].id].LeafNode?
      && store[leaves[i].id].entries == leaves[i].entries
      && store[leaves[i].id].next == (if i + 1 < |leaves| then leaves[i + 1].id else INVALID_ID)
  {
    hide WfRoot, UsesExactly;
    LeavesStored(store, tree, INVALID_ID);
    assert LeafStored(store, Leaves(tree)[i]);
    assert LinkedAt(store, KidIds(Leaves(tree)), i);
  }

  lemma EntriesAreFlat(t: Tree)
    ensures Entries(t) == Flat(Leaves(t))
  {
  }

  lemma FlatMore(leaves: seq<Tree>, i: nat)
    requires i < |leaves| && leaves[i].Leaf?
    ensures Flat(leaves[..i + 1]) == Flat(leaves[..i]) + leaves[i].entries
  {
    var leaf := leaves[i];
    LeafEntries(leaf.id, leaf.entries);
    assert leaf == Leaf(leaf.id, leaf.entries) && Leaves(leaf) == [leaf];
    assert Flat([leaf]) == leaf.entries;
    assert leaves[..i + 1] == leaves[..i] + [leaf];
    FlatAppend(leaves[..i], [leaf]);
  }

  // What the insertion does to the abstract map.
  lemma StoreSize(view: seq<Page>, store: seq<Node>)
    requires Decodes(view, store)
    ensures |store| == |view|
  {
  }

  lemma GrowthAtLeaf(store: seq<Node>, tree: Tree, path: Path, t: Tree, key: Int64)
    requires At(store, tree, path, t, 0, key) && t.Leaf?
    ensures Growth(tree, key) == if |t.entries| == 8 then 1 + Allocated(path) else 0
  {
    hide Wf, RepPath, Rep, Plug, PathWf;
    GrowthAlong(path, t, 0, key);
  }

  lemma LeafOnPath(store: seq<Node>, tree: Tree, path: Path, t: Tree, key: Int64)
    requires At(store, tree, path, t, 0, key)
    ensures Plug(path, t) == tree
  {
  }

  lemma InsertedContents(tree: Tree, height: nat, path: Path, t: Tree, e: Entry, next: nat)
    requires WfRoot(tree, height) && Plug(path, t) == tree && t.Leaf? && PathWf(path, 0)
    requires PathLow(path) <= e.key < PathHigh(path) && Lookup(t.entries, e.key).None?
    ensures Shaped(path)
    ensures Entries(InsertedTree(path, t, e, next)) == Inserted(Entries(tree), e)
    ensures MapOf(Entries(InsertedTree(path, t, e, next))) == MapOf(Entries(tree))[e.key := e.rid]
  {
    hide InsertedTree, PathWf, PathLow, PathHigh, Plug, Lookup, Inserted;
    InsertedTreeEntries(path, t, e, next);
    WfEntries(tree, height, KEY_MIN, KEY_SUP, true);
    InsertedMap(Entries(tree), e);
  }

  lemma LeafWritten(before: seq<Node>, after: seq<Node>, root: nat, tree: Tree, height: nat, path: Path, t: Tree, e: Entry)
    requires Represents(before, root, tree, height) && At(before, tree, path, t, 0, e.key) && t.Leaf?
    requires Lookup(t.entries, e.key).None? && |t.entries| < MAX_ENTRIES
    requires |after| == |before| && t.id < |before| && before[t.id].LeafNode?
    requires after == before[t.id := LeafNode(before[t.id].parent, before[t.id].next, Inserted(t.entries, e))]
    ensures Shaped(path)
    ensures var grown := InsertedTree(path, t, e, |before|);
      && Represents(after, root, grown, HeightOfInserted(path, t))
      && Entries(grown) == Inserted(Entries(tree), e)
      && MapOf(Entries(grown)) == MapOf(Entries(tree))[e.key := e.rid]
  {
    var es := Inserted(t.entries, e);
    InsertedContents(tree, height, path, t, e, |before|);
    InsertedTreeWf(path, t, e, |before|);
    WriteLeaf(before, after, path, t, es);
    PlugIdExact(path, t);
    PlugIdExact(path, Leaf(t.id, es));
    PlugLeaves(path, t);
    PlugLeaves(path, Leaf(t.id, es));
    SameLeafIds(LeavesBefore(path), t, Leaf(t.id, es), LeavesAfter(path));
    LinkedFrame(before, after, KidIds(Leaves(tree)));
    InsertedTreeUses(path, t, e, |before|);
  }

  lemma SameLeafIds(a: seq<Tree>, t: Tree, u: Tree, b: seq<Tree>)
    requires t.Leaf? && u.Leaf? && t.id == u.id
    ensures KidIds(a + Leaves(t) + b) == KidIds(a + Leaves(u) + b)
  {
  }

  lemma LeafSplit(before: seq<Node>, after: seq<Node>, root: nat, tree: Tree, height: nat, path: Path, t: Tree, e: Entry,
                  left: Node, right: Node)
    requires Represents(before, root, tree, height) && At(before, tree, path, t, 0, e.key) && t.Leaf?
    requires Lookup(t.entries, e.key).None? && |t.entries| == MAX_ENTRIES
    requires t.id < |before| && before[t.id].LeafNode? && left.LeafNode? && right.LeafNode?
    requires left.parent == right.parent == before[t.id].parent
    requires left.next == |before| && right.next == before[t.id].next
    requires after == (before + [right])[t.id := left]
    requires var es := Inserted(t.entries, e); left.entries == es[..|es| / 2] && right.entries == es[|es| / 2..]
    ensures var es := Inserted(t.entries, e);
      var sep, l, r := es[|es| / 2].key, Leaf(t.id, left.entries), Leaf(|before|, right.entries);
      && Pending(after, path, l, r)
      && Linked(after, KidIds(LeavesBefore(path) + (Leaves(l) + Leaves(r)) + LeavesAfter(path)))
      && PathLow(path) < sep < PathHigh(path)
      && Wf(l, 0, PathLow(path), sep, false) && Wf(r, 0, sep, PathHigh(path), false)
    ensures PathWf(path, 0) && Shaped(path) && root == PlugId(path, t.id) && before[t.id].parent == PathParent(path)
  {
    var es := Inserted(t.entries, e);
    HereFacts(before, tree, path, t, 0, e.key);
    SplitLeaf(before, path, t, left, right);
    PlugIdExact(path, t);
    WfShaped(path, 0);
    InsertedAscending(t.entries, e);
    hide Rep, RepPath, Pending, Linked, PathUses, Uses, Leaves, LeavesBefore, LeavesAfter;
    assert Within(es, PathLow(path), PathHigh(path));
    LeafHalvesWf(t.id, |before|, es, PathLow(path), PathHigh(path));
  }

  lemma LeafSplitDone(linked: seq<Node>, after: seq<Node>, root': nat, before: seq<Node>, root: nat, tree: Tree, height: nat,
                      path: Path, t: Tree, e: Entry)
    requires Represents(before, root, tree, height) && At(before, tree, path, t, 0, e.key) && t.Leaf?
    requires Lookup(t.entries, e.key).None? && |t.entries| == MAX_ENTRIES && |linked| == |before| + 1
    requires LinksKept(linked, after) && Shaped(path)
    requires var es := Inserted(t.entries, e);
      var l, r := Leaf(t.id, es[..|es| / 2]), Leaf(|before|, es[|es| / 2..]);
      var grown := Propagate(path, l, es[|es| / 2].key, r, |linked|);
      && Linked(linked, KidIds(LeavesBefore(path) + (Leaves(l) + Leaves(r)) + LeavesAfter(path)))
      && Rep(after, grown, INVALID_ID) && root' == grown.id
      && |after| == |linked| + Allocated(path)
    ensures var grown := InsertedTree(path, t, e, |before|);
      && Represents(after, root', grown, HeightOfInserted(path, t))
      && Entries(grown) == Inserted(Entries(tree), e)
      && MapOf(Entries(grown)) == MapOf(Entries(tree))[e.key := e.rid]
  {
    hide Rep, RepPath, Linked, Uses, Wf, PathWf, Propagate, Plug, Leaves, LeavesBefore, LeavesAfter, Inserted, Lookup;
    hide UsesExactly, WfRoot, InsertedTree, HeightOfInserted, PagesAdded, LinksKept, Allocated, PathLow, PathHigh, Shaped;
    hide MapOf, Entries, RepPath;
    var es := Inserted(t.entries, e);
    var l, r := Leaf(t.id, es[..|es| / 2]), Leaf(|before|, es[|es| / 2..]);
    InsertedTreeSplit(path, t, e, |before|);
    InsertedContents(tree, height, path, t, e, |before|);
    InsertedTreeWf(path, t, e, |before|);
    InsertedTreeUses(path, t, e, |before|);
    PropagateLeaves(path, l, es[|es| / 2].key, r, |linked|);
    LinkedFrame(linked, after, KidIds(LeavesBefore(path) + (Leaves(l) + Leaves(r)) + LeavesAfter(path)));
  }

  lemma InsertedTreeSplit(path: Path, t: Tree, e: Entry, next: nat)
    requires t.Leaf? && |t.entries| == MAX_ENTRIES && Shaped(path)
    ensures |Inserted(t.entries, e)| == MAX_ENTRIES + 1
    ensures var es := Inserted(t.entries, e);
      InsertedTree(path, t, e, next) ==
        Propagate(path, Leaf(t.id, es[..|es| / 2]), es[|es| / 2].key, Leaf(next, es[|es| / 2..]), next + 1)
    ensures PagesAdded(path, t) == 1 + Allocated(path)
  {
    hide Propagate, Allocated;
  }
}
