// The page writes of an insertion, one group at a time: what the index file
// represents while a split is on its way up, and after each group of writes.
module TreeSteps {
  import opened Results
  import opened ByteCodec
  import opened Pages
  import opened TreeModel
  import opened TreeContents
  import opened NodeCodec
  import opened TreeStore

  // A split waiting for its parent: the parent still lists only left, both
  // halves already name it as their parent, and every page is in use once.
  ghost predicate Pending(store: seq<Node>, path: Path, left: Tree, right: Tree) {
    && RepPath(store, path, left.id)
    && Rep(store, left, PathParent(path))
    && Rep(store, right, PathParent(path))
    && forall x: nat :: PathUses(path, x) + Uses(left, x) + Uses(right, x) == (if x < |store| then 1 else 0)
  }

  // A node whose children are in place, together with the ancestors above it,
  // using every page once. What the node's own page says is left open.
  ghost predicate Assembled(store: seq<Node>, up: Path, id: nat, keys: seq<Int64>, kids: seq<Tree>) {
    && |kids| == |keys| + 1
    && id < |store|
    && RepPath(store, up, id)
    && (forall i | 0 <= i < |kids| :: Rep(store, kids[i], id))
    && forall x: nat ::
         PathUses(up, x) + (if id == x then 1 else 0) + UsesAll(kids, x) == (if x < |store| then 1 else 0)
  }

  lemma {:induction false} UsesTwoKids(kids: seq<Tree>, i: nat, j: nat, x: nat)
    requires i < j < |kids|
    ensures Uses(kids[i], x) + Uses(kids[j], x) <= UsesAll(kids, x)
  {
    if i == 0 {
      UsesKid(kids[1..], j - 1, x);
    } else {
      UsesTwoKids(kids[1..], i - 1, j - 1, x);
    }
  }

  // Two different children share no page, and none has the node's own page.
  lemma KidsApart(store: seq<Node>, up: Path, id: nat, keys: seq<Int64>, kids: seq<Tree>, i: nat, x: nat)
    requires Assembled(store, up, id, keys, kids) && i < |kids| && Uses(kids[i], x) > 0
    ensures x < |store| && x != id && PathUses(up, x) == 0 && Uses(kids[i], x) == 1
    ensures forall j | 0 <= j < |kids| && j != i :: Uses(kids[j], x) == 0
  {
    hide Rep, RepPath;
    UsesKid(kids, i, x);
    assert PathUses(up, x) + (if id == x then 1 else 0) + UsesAll(kids, x) == (if x < |store| then 1 else 0);
    forall j | 0 <= j < |kids| && j != i ensures Uses(kids[j], x) == 0 {
      if i < j {
        UsesTwoKids(kids, i, j, x);
      } else {
        UsesTwoKids(kids, j, i, x);
      }
    }
  }

  lemma PathApart(store: seq<Node>, up: Path, id: nat, keys: seq<Int64>, kids: seq<Tree>, x: nat)
    requires Assembled(store, up, id, keys, kids) && PathUses(up, x) > 0
    ensures x < |store| && x != id
    ensures forall i | 0 <= i < |kids| :: Uses(kids[i], x) == 0
  {
    hide Rep, RepPath;
    assert PathUses(up, x) + (if id == x then 1 else 0) + UsesAll(kids, x) == (if x < |store| then 1 else 0);
    forall i | 0 <= i < |kids| ensures Uses(kids[i], x) == 0 {
      UsesKid(kids, i, x);
    }
  }

  // The parent with the new child among its children.
  lemma Assemble(store: seq<Node>, path: Path, left: Tree, sep: Int64, right: Tree)
    requires path.Step? && Shaped(path) && Pending(store, path, left, right)
    ensures Assembled(store, path.up, path.id, path.leftKeys + [sep] + path.rightKeys,
                      path.leftKids + [left, right] + path.rightKids)
  {
    var kids := path.leftKids + [left, right] + path.rightKids;
    forall i | 0 <= i < |kids| ensures Rep(store, kids[i], path.id) {
      if i >= |path.leftKids| + 2 {
        assert kids[i] == path.rightKids[i - |path.leftKids| - 2];
      }
    }
    forall x: nat
      ensures PathUses(path.up, x) + (if path.id == x then 1 else 0) + UsesAll(kids, x) == (if x < |store| then 1 else 0)
    {
      assert PathUses(path, x) + Uses(left, x) + Uses(right, x) == (if x < |store| then 1 else 0);
      UsesAround(path.leftKids, [left, right], path.rightKids, x);
      assert [left, right][1..] == [right] && UsesAll([right][1..], x) == 0;
    }
  }

  // Writing the parent's page when it has room completes the tree.
  lemma WriteParent(store: seq<Node>, after: seq<Node>, up: Path, id: nat, keys: seq<Int64>, kids: seq<Tree>)
    requires Assembled(store, up, id, keys, kids) && store[id].InnerNode?
    requires |after| == |store| && after[id].InnerNode? && after[id].parent == PathParent(up)
    requires after[id].keys == keys && after[id].children == KidIds(kids)
    requires forall x | 0 <= x < |store| && x != id :: after[x] == store[x]
    ensures Rep(after, Plug(up, Inner(id, keys, kids)), INVALID_ID)
    ensures LinksKept(store, after)
  {
    forall i | 0 <= i < |kids| ensures Rep(after, kids[i], id) {
      forall x: nat | x < |store| && Uses(kids[i], x) > 0 ensures after[x] == store[x] {
        KidsApart(store, up, id, keys, kids, i, x);
      }
      RepFrame(store, after, kids[i], id);
    }
    forall x: nat | x < |store| && PathUses(up, x) > 0 ensures after[x] == store[x] {
      PathApart(store, up, id, keys, kids, x);
    }
    RepPathFrame(store, after, up, id);
    PlugRep(after, up, Inner(id, keys, kids));
  }

  // Splitting a full parent: a new page takes the upper half, the parent keeps
  // the lower half, and the children that moved get their new parent id.
  ghost function SplitStore(store: seq<Node>, id: nat, left: Node, right: Node): seq<Node>
    requires id < |store| && |store| < INVALID_ID && right.InnerNode?
  {
    Reparented((store + [right])[id := left], right.children, |store|)
  }

  lemma SplitParent(store: seq<Node>, up: Path, id: nat, keys: seq<Int64>, kids: seq<Tree>, left: Node, right: Node)
    requires Assembled(store, up, id, keys, kids) && keys != [] && |store| < INVALID_ID && store[id].InnerNode?
    requires left.InnerNode? && left.parent == PathParent(up)
    requires left.keys == keys[..|keys| / 2] && left.children == KidIds(kids)[..|keys| / 2 + 1]
    requires right.InnerNode? && right.parent == PathParent(up)
    requires right.keys == keys[|keys| / 2 + 1..] && right.children == KidIds(kids)[|keys| / 2 + 1..]
    ensures Pending(SplitStore(store, id, left, right), up, CutLeft(id, keys, kids), CutRight(|store|, keys, kids))
    ensures LinksKept(store, SplitStore(store, id, left, right))
  {
    hide Rep, RepPath;
    var n, after := |store|, SplitStore(store, id, left, right);
    var l, r := CutLeft(id, keys, kids), CutRight(n, keys, kids);
    SplitUp(store, up, id, keys, kids, left, right);
    SplitLeftRep(store, up, id, keys, kids, left, right);
    SplitRightRep(store, up, id, keys, kids, left, right);
    SplitKeepsLinks(store, id, left, right);
    forall x: nat
      ensures PathUses(up, x) + Uses(l, x) + Uses(r, x) == (if x < |after| then 1 else 0)
    {
      CutUses(id, n, keys, kids, x);
      assert PathUses(up, x) + (if id == x then 1 else 0) + UsesAll(kids, x) == (if x < n then 1 else 0);
    }
  }

  lemma SplitKeepsLinks(store: seq<Node>, id: nat, left: Node, right: Node)
    requires id < |store| && |store| < INVALID_ID && right.InnerNode? && store[id].InnerNode?
    ensures LinksKept(store, SplitStore(store, id, left, right))
  {
  }

  // Which pages a parent split leaves alone.
  lemma SplitKeeps(store: seq<Node>, up: Path, id: nat, keys: seq<Int64>, kids: seq<Tree>, left: Node, right: Node, x: nat)
    requires Assembled(store, up, id, keys, kids) && keys != [] && |store| < INVALID_ID
    requires right.InnerNode? && right.children == KidIds(kids)[|keys| / 2 + 1..]
    requires x < |store| && x != id && forall i | |keys| / 2 + 1 <= i < |kids| :: kids[i].id != x
    ensures SplitStore(store, id, left, right)[x] == store[x]
  {
    hide Rep, RepPath;
    MovedIds(kids, |keys| / 2 + 1, x);
  }

  lemma MovedIds(kids: seq<Tree>, h: nat, x: nat)
    requires h <= |kids|
    ensures x in KidIds(kids)[h..] <==> exists i: nat :: h <= i < |kids| && kids[i].id == x
  {
    var ids := KidIds(kids)[h..];
    if i: nat :| h <= i < |kids| && kids[i].id == x {
      assert ids[i - h] == x;
    }
    if x in ids {
      var j :| 0 <= j < |ids| && ids[j] == x;
      assert kids[h + j].id == x;
    }
  }

  lemma SplitUp(store: seq<Node>, up: Path, id: nat, keys: seq<Int64>, kids: seq<Tree>, left: Node, right: Node)
    requires Assembled(store, up, id, keys, kids) && keys != [] && |store| < INVALID_ID
    requires right.InnerNode? && right.children == KidIds(kids)[|keys| / 2 + 1..]
    ensures RepPath(SplitStore(store, id, left, right), up, id)
  {
    var after := SplitStore(store, id, left, right);
    forall x: nat | x < |store| && PathUses(up, x) > 0 ensures after[x] == store[x] {
      PathApart(store, up, id, keys, kids, x);
      forall i | 0 <= i < |kids| ensures kids[i].id != x {
        assert Uses(kids[i], x) == 0;
      }
      SplitKeeps(store, up, id, keys, kids, left, right, x);
    }
    RepPathFrame(store, after, up, id);
  }

  lemma SplitLeftRep(store: seq<Node>, up: Path, id: nat, keys: seq<Int64>, kids: seq<Tree>, left: Node, right: Node)
    requires Assembled(store, up, id, keys, kids) && keys != [] && |store| < INVALID_ID
    requires left.InnerNode? && left.parent == PathParent(up)
    requires left.keys == keys[..|keys| / 2] && left.children == KidIds(kids)[..|keys| / 2 + 1]
    requires right.InnerNode? && right.children == KidIds(kids)[|keys| / 2 + 1..]
    ensures Rep(SplitStore(store, id, left, right), CutLeft(id, keys, kids), PathParent(up))
  {
    var after, h := SplitStore(store, id, left, right), |keys| / 2 + 1;
    forall i | 0 <= i < h ensures Rep(after, kids[i], id) {
      forall x: nat | x < |store| && Uses(kids[i], x) > 0 ensures after[x] == store[x] {
        KidsApart(store, up, id, keys, kids, i, x);
        forall j | h <= j < |kids| ensures kids[j].id != x {
          assert Uses(kids[j], x) == 0;
        }
        SplitKeeps(store, up, id, keys, kids, left, right, x);
      }
      RepFrame(store, after, kids[i], id);
    }
    NotOwnKid(store, up, id, keys, kids);
    assert KidIds(kids[..h]) == KidIds(kids)[..h];
    MovedIds(kids, h, id);
    assert after[id] == left;
  }

  lemma NotOwnKid(store: seq<Node>, up: Path, id: nat, keys: seq<Int64>, kids: seq<Tree>)
    requires Assembled(store, up, id, keys, kids)
    ensures forall i | 0 <= i < |kids| :: kids[i].id != id && kids[i].id < |store|
  {
    forall i | 0 <= i < |kids| ensures kids[i].id != id && kids[i].id < |store| {
      KidsApart(store, up, id, keys, kids, i, kids[i].id);
    }
  }

  lemma RootUsed(t: Tree)
    ensures Uses(t, t.id) > 0
  {
  }

  lemma AssembledKid(store: seq<Node>, up: Path, id: nat, keys: seq<Int64>, kids: seq<Tree>, i: nat)
    requires Assembled(store, up, id, keys, kids) && i < |kids|
    ensures |kids| == |keys| + 1 && id < |store| && Rep(store, kids[i], id)
  {
  }

  // A child that moves: untouched by the page writes, then given its new parent.
  lemma MovedChild(store: seq<Node>, up: Path, id: nat, keys: seq<Int64>, kids: seq<Tree>, left: Node, right: Node, i: nat)
    requires Assembled(store, up, id, keys, kids) && keys != [] && |store| < INVALID_ID
    requires right.InnerNode? && right.children == KidIds(kids)[|keys| / 2 + 1..]
    requires |keys| / 2 + 1 <= i < |kids|
    ensures Rep(SplitStore(store, id, left, right), kids[i], |store|)
  {
    hide RepPath, PathUses, UsesAll, Uses, Rep, Assembled, Reparented;
    var n, h := |store|, |keys| / 2 + 1;
    AssembledKid(store, up, id, keys, kids, i);
    var middle := (store + [right])[id := left];
    RootUsed(kids[i]);
    forall x: nat | x < |store| && Uses(kids[i], x) > 0 ensures middle[x] == store[x] {
      KidsApart(store, up, id, keys, kids, i, x);
    }
    RepFrame(store, middle, kids[i], id);
    assert right.children[i - h] == kids[i].id;
    KidsApart(store, up, id, keys, kids, i, kids[i].id);
    forall x: nat | Uses(kids[i], x) > 0 && x != kids[i].id ensures x !in right.children {
      KidsApart(store, up, id, keys, kids, i, x);
      MovedIds(kids, h, x);
      forall j | 0 <= j < |kids| ensures kids[j].id != x {
        RootUsed(kids[j]);
      }
    }
    ReparentRep(middle, kids[i], id, right.children, n);
  }

  lemma SplitRightRep(store: seq<Node>, up: Path, id: nat, keys: seq<Int64>, kids: seq<Tree>, left: Node, right: Node)
    requires Assembled(store, up, id, keys, kids) && keys != [] && |store| < INVALID_ID
    requires right.InnerNode? && right.parent == PathParent(up)
    requires right.keys == keys[|keys| / 2 + 1..] && right.children == KidIds(kids)[|keys| / 2 + 1..]
    ensures Rep(SplitStore(store, id, left, right), CutRight(|store|, keys, kids), PathParent(up))
  {
    var n, h := |store|, |keys| / 2 + 1;
    var after := SplitStore(store, id, left, right);
    NotOwnKid(store, up, id, keys, kids);
    assert KidIds(kids[h..]) == KidIds(kids)[h..];
    forall i | h <= i < |kids| ensures Rep(after, kids[i], n) {
      MovedChild(store, up, id, keys, kids, left, right, i);
    }
    MovedIds(kids, h, n);
    assert after[n] == right;
  }

  // Growing a new root over the two halves of the old one.
  ghost function RootStore(store: seq<Node>, sep: Int64, left: Word64, right: Word64): seq<Node>
    requires |store| < INVALID_ID
  {
    Reparented(store + [InnerNode(INVALID_ID, [sep], [left, right])], [left, right], |store|)
  }

  lemma GrowRoot(store: seq<Node>, sep: Int64, left: Tree, right: Tree)
    requires Pending(store, Top, left, right) && |store| < INVALID_ID
    ensures left.id < |store| && right.id < |store|
    ensures var after := RootStore(store, sep, left.id, right.id);
      Rep(after, Inner(|store|, [sep], [left, right]), INVALID_ID) && LinksKept(store, after)
  {
    var n, ids := |store|, [left.id as Word64, right.id as Word64];
    var middle := store + [InnerNode(INVALID_ID, [sep], ids)];
    var kids := [left, right];
    assert KidIds(kids) == ids;
    forall x: nat ensures Uses(left, x) + Uses(right, x) == (if x < n then 1 else 0) {
      assert PathUses(Top, x) + Uses(left, x) + Uses(right, x) == (if x < |store| then 1 else 0);
    }
    assert Uses(left, left.id) > 0 && Uses(right, right.id) > 0;
    assert left.id != right.id && Uses(left, right.id) == 0 && Uses(right, left.id) == 0;
    RepFrame(store, middle, left, INVALID_ID);
    RepFrame(store, middle, right, INVALID_ID);
    ReparentRep(middle, left, INVALID_ID, ids, n);
    ReparentRep(middle, right, INVALID_ID, ids, n);
  }

  // A leaf with room takes the entry.
  lemma WriteLeaf(store: seq<Node>, after: seq<Node>, path: Path, leaf: Tree, es: seq<Entry>)
    requires leaf.Leaf? && RepPath(store, path, leaf.id) && Rep(store, leaf, PathParent(path))
    requires UsesExactly(Plug(path, leaf), |store|)
    requires |after| == |store| && after[leaf.id].LeafNode? && after[leaf.id].entries == es
    requires after[leaf.id].parent == store[leaf.id].parent && after[leaf.id].next == store[leaf.id].next
    requires forall x | 0 <= x < |store| && x != leaf.id :: after[x] == store[x]
    ensures Rep(after, Plug(path, Leaf(leaf.id, es)), INVALID_ID) && LinksKept(store, after)
  {
    PathAvoidsLeaf(path, leaf, |store|);
    RepPathFrame(store, after, path, leaf.id);
    PlugRep(after, path, Leaf(leaf.id, es));
  }

  lemma PathAvoidsLeaf(path: Path, leaf: Tree, n: nat)
    requires leaf.Leaf? && UsesExactly(Plug(path, leaf), n)
    ensures PathUses(path, leaf.id) == 0
    ensures forall x: nat :: PathUses(path, x) + (if x == leaf.id then 1 else 0) == (if x < n then 1 else 0)
  {
    forall x: nat ensures PathUses(path, x) + (if x == leaf.id then 1 else 0) == (if x < n then 1 else 0) {
      PlugUses(path, leaf, x);
      assert Uses(Plug(path, leaf), x) == (if x < n then 1 else 0);
    }
  }

  // A full leaf becomes two linked leaves, with the split now pending.
  lemma SplitLeaf(store: seq<Node>, path: Path, leaf: Tree, left: Node, right: Node)
    requires leaf.Leaf? && RepPath(store, path, leaf.id) && Rep(store, leaf, PathParent(path))
    requires UsesExactly(Plug(path, leaf), |store|) && Linked(store, KidIds(Leaves(Plug(path, leaf))))
    requires left.LeafNode? && right.LeafNode?
    requires left.parent == right.parent == store[leaf.id].parent
    requires left.next == |store| && right.next == store[leaf.id].next
    ensures var after := (store + [right])[leaf.id := left];
      var l, r := Leaf(leaf.id, left.entries), Leaf(|store|, right.entries);
      && Pending(after, path, l, r)
      && Linked(after, KidIds(LeavesBefore(path) + (Leaves(l) + Leaves(r)) + LeavesAfter(path)))
  {
    var after := (store + [right])[leaf.id := left];
    var l, r := Leaf(leaf.id, left.entries), Leaf(|store|, right.entries);
    PathAvoidsLeaf(path, leaf, |store|);
    RepPathFrame(store, after, path, leaf.id);
    SplitLinks(store, path, leaf, left, right);
  }

  lemma SplitLinks(store: seq<Node>, path: Path, leaf: Tree, left: Node, right: Node)
    requires leaf.Leaf? && PathUses(path, leaf.id) == 0 && Linked(store, KidIds(Leaves(Plug(path, leaf))))
    requires leaf.id < |store| && store[leaf.id].LeafNode? && left.LeafNode? && right.LeafNode?
    requires left.next == |store| && right.next == store[leaf.id].next
    ensures var l, r := Leaf(leaf.id, left.entries), Leaf(|store|, right.entries);
      Linked((store + [right])[leaf.id := left], KidIds(LeavesBefore(path) + (Leaves(l) + Leaves(r)) + LeavesAfter(path)))
  {
    hide PathUses;
    var after := (store + [right])[leaf.id := left];
    var l, r := Leaf(leaf.id, left.entries), Leaf(|store|, right.entries);
    var a, b := LeavesBefore(path), LeavesAfter(path);
    PlugLeaves(path, leaf);
    KidIdsAppend(a + [leaf], b);
    KidIdsAppend(a, [leaf]);
    KidIdsAppend(a + [l, r], b);
    KidIdsAppend(a, [l, r]);
    assert KidIds([leaf]) == [leaf.id] && KidIds([l, r]) == [leaf.id, |store|];
    assert Leaves(l) + Leaves(r) == [l, r];
    if leaf.id in KidIds(a) || leaf.id in KidIds(b) {
      PathLeafUsed(path, leaf.id);
    }
    LinkedSplit(store, after, KidIds(a), leaf.id, |store|, KidIds(b));
  }

  // std::find on the parent's children.
  function Find(s: seq<Word64>, x: Word64): (i: nat)
    ensures i <= |s|
  {
    if s == [] || s[0] == x then 0 else 1 + Find(s[1..], x)
  }

  lemma {:induction false} FindAt(a: seq<Word64>, x: Word64, b: seq<Word64>)
    requires x !in a
    ensures Find(a + [x] + b, x) == |a|
  {
    if a == [] {
      assert a + [x] + b == [x] + b;
    } else {
      assert (a + [x] + b)[1..] == a[1..] + [x] + b;
      FindAt(a[1..], x, b);
    }
  }

  // The parent lists the left half exactly once, where the path says.
  lemma FindLeft(store: seq<Node>, path: Path, left: Tree, right: Tree)
    requires path.Step? && Pending(store, path, left, right) && left.id < INVALID_ID
    ensures path.id < |store| && store[path.id].InnerNode?
    ensures Find(store[path.id].children, left.id) == |path.leftKids| < |store[path.id].children|
  {
    assert PathUses(path, left.id) + Uses(left, left.id) + Uses(right, left.id) == (if left.id < |store| then 1 else 0);
    assert left.id !in KidIds(path.leftKids) by {
      if left.id in KidIds(path.leftKids) {
        var i :| 0 <= i < |path.leftKids| && path.leftKids[i].id == left.id;
        UsesKid(path.leftKids, i, left.id);
      }
    }
    var children := store[path.id].children;
    var k := |path.leftKids|;
    assert children[..k] == KidIds(path.leftKids) && children[k] == left.id;
    assert children == children[..k] + [children[k]] + children[k + 1..];
    FindAt(children[..k], children[k], children[k + 1..]);
  }

  // ---- what InsertIntoParent finds in the parent's page ----

  lemma ParentPage(store: seq<Node>, path: Path, left: Tree, sep: Int64, right: Tree)
    requires path.Step? && Shaped(path) && Pending(store, path, left, right) && left.id < INVALID_ID
    ensures path.id < |store| && store[path.id].InnerNode?
    ensures var node, k := store[path.id], |path.leftKids|;
      && node.parent == PathParent(path.up)
      && k <= |node.keys| && k < |node.children|
      && Find(node.children, left.id) == k
      && node.keys[..k] + [sep] + node.keys[k..] == path.leftKeys + [sep] + path.rightKeys
      && node.children[..k + 1] + [right.id] + node.children[k + 1..] ==
           KidIds(path.leftKids + [left, right] + path.rightKids)
  {
    FindLeft(store, path, left, right);
    var node, k := store[path.id], |path.leftKids|;
    var a, b := KidIds(path.leftKids), KidIds(path.rightKids);
    KidIdsAppend(path.leftKids + [left, right], path.rightKids);
    KidIdsAppend(path.leftKids, [left, right]);
    assert KidIds([left, right]) == [left.id, right.id];
    hide Rep, RepPath, PathUses, Uses;
    assert node.keys[..k] == path.leftKeys && node.keys[k..] == path.rightKeys;
    assert node.children[..k + 1] == a + [left.id] && node.children[k + 1..] == b;
    assert a + [left.id] + [right.id] == a + [left.id, right.id];
  }

  lemma InnerNodeOk(parent: Word64, keys: seq<Int64>, children: seq<Word64>)
    requires AscendingKeys(keys) && |keys| <= MAX_KEYS && |children| == |keys| + 1
    requires forall c | c in children :: c != INVALID_ID
    ensures NodeOk(InnerNode(parent, keys, children))
  {
  }

  // The ids of children in place are page ids of the file.
  lemma KidIdsStored(store: seq<Node>, up: Path, id: nat, keys: seq<Int64>, kids: seq<Tree>)
    requires Assembled(store, up, id, keys, kids)
    ensures forall c | c in KidIds(kids) :: c < |store|
  {
    NotOwnKid(store, up, id, keys, kids);
  }

  function PlugId(path: Path, id: nat): nat {
    match path
    case Top => id
    case Step(top, _, _, _, _, up) => PlugId(up, top)
  }

  lemma {:induction false} PlugIdExact(path: Path, t: Tree)
    ensures Plug(path, t).id == PlugId(path, t.id)
  {
    if path.Step? {
      PlugIdExact(path.up, Inner(path.id, path.leftKeys + path.rightKeys, path.leftKids + [t] + path.rightKids));
    }
  }
}
