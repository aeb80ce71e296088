// How the pages of an index file represent a tree: every node in the page of
// its id, parent ids inverse to child lists, and leaves linked from left to right.
module TreeStore {
  import opened Results
  import opened ByteCodec
  import opened Pages
  import opened TreeModel
  import opened TreeContents
  import opened NodeCodec

  ghost function KidIds(kids: seq<Tree>): (ids: seq<nat>)
    ensures |ids| == |kids|
  {
    seq(|kids|, i requires 0 <= i < |kids| => kids[i].id)
  }

  // The pages hold tree t, whose root has the given parent.
  ghost predicate Rep(store: seq<Node>, t: Tree, parent: nat) {
    && t.id < |store|
    && store[t.id].parent == parent
    && match t
       case Leaf(id, es) => store[id].LeafNode? && store[id].entries == es
       case Inner(id, keys, kids) =>
         && store[id].InnerNode?
         && store[id].keys == keys
         && store[id].children == KidIds(kids)
         && forall i | 0 <= i < |kids| :: Rep(store, kids[i], id)
  }

  ghost function PathParent(path: Path): nat {
    if path.Top? then INVALID_ID else path.id
  }

  // The pages hold everything around the node with id hole.
  ghost predicate RepPath(store: seq<Node>, path: Path, hole: nat) {
    match path
    case Top => true
    case Step(id, lk, lc, rk, rc, up) =>
      && id < |store|
      && store[id].InnerNode?
      && store[id].parent == PathParent(up)
      && store[id].keys == lk + rk
      && store[id].children == KidIds(lc) + [hole] + KidIds(rc)
      && (forall i | 0 <= i < |lc| :: Rep(store, lc[i], id))
      && (forall i | 0 <= i < |rc| :: Rep(store, rc[i], id))
      && RepPath(store, up, id)
  }

  // Leaves linked in the given order, the last one ending the chain.
  ghost predicate Linked(store: seq<Node>, ids: seq<nat>) {
    forall i | 0 <= i < |ids| :: LinkedAt(store, ids, i)
  }

  ghost predicate LinkedAt(store: seq<Node>, ids: seq<nat>, i: nat)
    requires i < |ids|
  {
    && ids[i] < |store|
    && store[ids[i]].LeafNode?
    && store[ids[i]].next == (if i + 1 < |ids| then ids[i + 1] else INVALID_ID)
  }

  // The whole-tree invariant of an index file.
  ghost predicate Represents(store: seq<Node>, root: nat, t: Tree, height: nat) {
    && t.id == root
    && Rep(store, t, INVALID_ID)
    && WfRoot(t, height)
    && UsesExactly(t, |store|)
    && Linked(store, KidIds(Leaves(t)))
  }

  // ---- what does not change when other pages do ----

  lemma {:induction false} UsesKid(kids: seq<Tree>, i: nat, x: nat)
    requires i < |kids|
    ensures Uses(kids[i], x) <= UsesAll(kids, x)
  {
    if i > 0 {
      UsesKid(kids[1..], i - 1, x);
    }
  }

  lemma {:induction false} RepFrame(store: seq<Node>, after: seq<Node>, t: Tree, parent: nat)
    requires Rep(store, t, parent) && |store| <= |after|
    requires forall x: nat | x < |store| && Uses(t, x) > 0 :: after[x] == store[x]
    ensures Rep(after, t, parent)
    decreases t
  {
    assert Uses(t, t.id) > 0;
    if t.Inner? {
      forall i | 0 <= i < |t.kids| ensures Rep(after, t.kids[i], t.id) {
        forall x: nat | x < |store| && Uses(t.kids[i], x) > 0 ensures after[x] == store[x] {
          UsesKid(t.kids, i, x);
        }
        RepFrame(store, after, t.kids[i], t.id);
      }
    }
  }

  lemma {:induction false} RepPathFrame(store: seq<Node>, after: seq<Node>, path: Path, hole: nat)
    requires RepPath(store, path, hole) && |store| <= |after|
    requires forall x: nat | x < |store| && PathUses(path, x) > 0 :: after[x] == store[x]
    ensures RepPath(after, path, hole)
  {
    if path.Step? {
      assert PathUses(path, path.id) > 0;
      forall i | 0 <= i < |path.leftKids| ensures Rep(after, path.leftKids[i], path.id) {
        forall x: nat | x < |store| && Uses(path.leftKids[i], x) > 0 ensures after[x] == store[x] {
          UsesKid(path.leftKids, i, x);
        }
        RepFrame(store, after, path.leftKids[i], path.id);
      }
      forall i | 0 <= i < |path.rightKids| ensures Rep(after, path.rightKids[i], path.id) {
        forall x: nat | x < |store| && Uses(path.rightKids[i], x) > 0 ensures after[x] == store[x] {
          UsesKid(path.rightKids, i, x);
        }
        RepFrame(store, after, path.rightKids[i], path.id);
      }
      RepPathFrame(store, after, path.up, path.id);
    }
  }

  lemma {:induction false} RepUsesStored(store: seq<Node>, t: Tree, parent: nat, x: nat)
    requires Rep(store, t, parent) && Uses(t, x) > 0
    ensures x < |store|
    ensures x != t.id ==> store[x].parent < |store|
    decreases t, 0
  {
    if x != t.id {
      RepUsesAmong(store, t, parent, x, 0);
      assert t.kids[0..] == t.kids;
    }
  }

  lemma {:induction false} RepUsesAmong(store: seq<Node>, t: Tree, parent: nat, x: nat, i: nat)
    requires t.Inner? && Rep(store, t, parent) && i <= |t.kids| && UsesAll(t.kids[i..], x) > 0
    ensures x < |store| && store[x].parent < |store|
    decreases t, 0, |t.kids| - i
  {
    assert t.kids[i..][1..] == t.kids[i + 1..] && t.kids[i..][0] == t.kids[i];
    if Uses(t.kids[i], x) > 0 {
      RepUsesStored(store, t.kids[i], t.id, x);
    } else {
      RepUsesAmong(store, t, parent, x, i + 1);
    }
  }

  // ---- moving along a path ----

  lemma KidIdsAppend(a: seq<Tree>, b: seq<Tree>)
    ensures KidIds(a + b) == KidIds(a) + KidIds(b)
  {
  }

  lemma {:induction false} PlugRep(store: seq<Node>, path: Path, t: Tree)
    requires RepPath(store, path, t.id) && Rep(store, t, PathParent(path))
    ensures Rep(store, Plug(path, t), INVALID_ID)
  {
    match path
    case Top =>
    case Step(id, lk, lc, rk, rc, up) =>
      NodeRep(store, path, t);
      PlugRep(store, up, Inner(id, lk + rk, lc + [t] + rc));
  }

  lemma NodeRep(store: seq<Node>, path: Path, t: Tree)
    requires path.Step? && RepPath(store, path, t.id) && Rep(store, t, path.id)
    ensures Rep(store, Inner(path.id, path.leftKeys + path.rightKeys, path.leftKids + [t] + path.rightKids), PathParent(path.up))
  {
    var kids := path.leftKids + [t] + path.rightKids;
    KidIdsAppend(path.leftKids + [t], path.rightKids);
    KidIdsAppend(path.leftKids, [t]);
    assert KidIds([t]) == [t.id];
    forall i | 0 <= i < |kids| ensures Rep(store, kids[i], path.id) {
      if i > |path.leftKids| {
        assert kids[i] == path.rightKids[i - |path.leftKids| - 1];
      }
    }
  }

  lemma DownRep(store: seq<Node>, path: Path, t: Tree, i: nat)
    requires t.Inner? && |t.kids| == |t.keys| + 1 && i < |t.kids|
    requires RepPath(store, path, t.id) && Rep(store, t, PathParent(path))
    ensures RepPath(store, Down(path, t, i), t.kids[i].id)
    ensures Rep(store, t.kids[i], t.id) && store[t.id].children[i] == t.kids[i].id
  {
    assert t.keys == t.keys[..i] + t.keys[i..];
    assert KidIds(t.kids) == KidIds(t.kids[..i]) + [t.kids[i].id] + KidIds(t.kids[i + 1..]);
  }

  // ---- links ----

  // Every leaf stays a leaf with the same successor.
  ghost predicate LinksKept(store: seq<Node>, after: seq<Node>) {
    && |store| <= |after|
    && forall x | 0 <= x < |store| && store[x].LeafNode? :: after[x].LeafNode? && after[x].next == store[x].next
  }

  lemma LinkedFrame(store: seq<Node>, after: seq<Node>, ids: seq<nat>)
    requires Linked(store, ids) && LinksKept(store, after)
    ensures Linked(after, ids)
  {
    forall i | 0 <= i < |ids| ensures LinkedAt(after, ids, i) {
      assert LinkedAt(store, ids, i);
    }
  }

  // A new leaf n enters the chain right after leaf l.
  lemma LinkedSplit(store: seq<Node>, after: seq<Node>, a: seq<nat>, l: nat, n: nat, b: seq<nat>)
    requires Linked(store, a + [l] + b) && l !in a && l !in b
    requires n == |store| && |after| == |store| + 1 && l < |store| && store[l].LeafNode?
    requires after[l].LeafNode? && after[l].next == n
    requires after[n].LeafNode? && after[n].next == store[l].next
    requires forall x: nat | x < |store| && x != l :: after[x] == store[x]
    ensures Linked(after, a + [l, n] + b)
  {
    var ids, ids' := a + [l] + b, a + [l, n] + b;
    forall i | 0 <= i < |ids'| ensures LinkedAt(after, ids', i) {
      if i < |a| {
        assert LinkedAt(store, ids, i) && ids[i] == ids'[i] && ids[i + 1] == ids'[i + 1];
        assert ids'[i] in a;
      } else if i == |a| + 1 {
        assert LinkedAt(store, ids, |a|);
        assert i + 1 < |ids'| ==> ids'[i + 1] == ids[i];
      } else if i > |a| + 1 {
        assert LinkedAt(store, ids, i - 1) && ids[i - 1] == ids'[i];
        assert ids'[i] == b[i - |a| - 2] && ids'[i] in b;
        assert i + 1 < |ids'| ==> ids'[i + 1] == ids[i];
      }
    }
  }

  lemma {:induction false} LeafUsed(t: Tree, x: nat)
    requires x in KidIds(Leaves(t))
    ensures Uses(t, x) > 0
    decreases t, 0
  {
    if t.Inner? {
      LeafUsedAmong(t.kids, x);
    }
  }

  lemma {:induction false} LeafUsedAmong(kids: seq<Tree>, x: nat)
    requires x in KidIds(LeavesAll(kids))
    ensures UsesAll(kids, x) > 0
    decreases kids, 1
  {
    KidIdsAppend(Leaves(kids[0]), LeavesAll(kids[1..]));
    if x in KidIds(Leaves(kids[0])) {
      LeafUsed(kids[0], x);
    } else {
      LeafUsedAmong(kids[1..], x);
    }
  }

  lemma {:induction false} PathLeafUsed(path: Path, x: nat)
    requires x in KidIds(LeavesBefore(path)) || x in KidIds(LeavesAfter(path))
    ensures PathUses(path, x) > 0
  {
    if path.Step? {
      KidIdsAppend(LeavesBefore(path.up), LeavesAll(path.leftKids));
      KidIdsAppend(LeavesAll(path.rightKids), LeavesAfter(path.up));
      if x in KidIds(LeavesAll(path.leftKids)) {
        LeafUsedAmong(path.leftKids, x);
      } else if x in KidIds(LeavesAll(path.rightKids)) {
        LeafUsedAmong(path.rightKids, x);
      } else {
        PathLeafUsed(path.up, x);
      }
    }
  }

  // ---- new parents ----

  function WithParent(node: Node, parent: Word64): Node {
    match node
    case LeafNode(_, next, entries) => LeafNode(parent, next, entries)
    case InnerNode(_, keys, children) => InnerNode(parent, keys, children)
  }

  function Reparented(store: seq<Node>, ids: seq<Word64>, parent: Word64): (after: seq<Node>)
    ensures |after| == |store|
  {
    seq(|store|, x requires 0 <= x < |store| => if x in ids then WithParent(store[x], parent) else store[x])
  }

  lemma ReparentOneMore(store: seq<Node>, ids: seq<Word64>, n: nat, parent: Word64)
    requires n < |ids| && ids[n] < |store|
    ensures var before := Reparented(store, ids[..n], parent);
      Reparented(store, ids[..n + 1], parent) == before[ids[n] := WithParent(before[ids[n]], parent)]
  {
    assert ids[..n + 1] == ids[..n] + [ids[n]];
  }

  lemma ReparentRep(store: seq<Node>, t: Tree, parent: nat, ids: seq<Word64>, parent': Word64)
    requires Rep(store, t, parent) && t.id in ids && Uses(t, t.id) == 1
    requires forall x: nat | Uses(t, x) > 0 && x != t.id :: x !in ids
    ensures Rep(Reparented(store, ids, parent'), t, parent')
  {
    var after := Reparented(store, ids, parent');
    if t.Inner? {
      forall i | 0 <= i < |t.kids| ensures Rep(after, t.kids[i], t.id) {
        forall x: nat | x < |store| && Uses(t.kids[i], x) > 0 ensures after[x] == store[x] {
          UsesKid(t.kids, i, x);
        }
        RepFrame(store, after, t.kids[i], t.id);
      }
    }
  }

  // ---- one representation per file ----

  lemma {:induction false} RepUnique(store: seq<Node>, t: Tree, u: Tree, p: nat, q: nat)
    requires Rep(store, t, p) && Rep(store, u, q) && t.id == u.id
    ensures t == u
    decreases t
  {
    if t.Inner? {
      assert |t.kids| == |u.kids|;
      forall i | 0 <= i < |t.kids| ensures t.kids[i] == u.kids[i] {
        assert KidIds(t.kids)[i] == KidIds(u.kids)[i];
        RepUnique(store, t.kids[i], u.kids[i], t.id, u.id);
      }
    }
  }

  // A node lacks a parent exactly if it is the root.
  lemma OnlyRootLacksParent(store: seq<Node>, root: nat, t: Tree, height: nat, x: nat)
    requires Represents(store, root, t, height) && x < |store| <= INVALID_ID
    ensures store[x].parent == INVALID_ID <==> x == root
  {
    assert Uses(t, x) == 1;
    RepUsesStored(store, t, INVALID_ID, x);
  }
}
