// What a well-formed tree contains: its entries in key order, how a search and
// an insertion at one leaf relate to the whole, and how large a tree must be.
module TreeContents {
  import opened Results
  import opened ByteCodec
  import opened TreeModel

  // ---- order ----

  lemma AscendingAppend(a: seq<Entry>, b: seq<Entry>, lo: int, mid: int, hi: int)
    requires Ascending(a) && Ascending(b) && Within(a, lo, mid) && Within(b, mid, hi) && lo <= mid <= hi
    ensures Ascending(a + b) && Within(a + b, lo, hi)
  {
    forall i, j | 0 <= i < j < |a + b| ensures (a + b)[i].key < (a + b)[j].key {
      if i < |a| <= j {
        assert a[i] in a && b[j - |a|] in b;
      }
    }
    forall e | e in a + b ensures lo <= e.key < hi {
      assert e in a || e in b;
    }
  }

  lemma LeafEntries(id: nat, es: seq<Entry>)
    ensures Entries(Leaf(id, es)) == es
  {
    assert Flat([Leaf(id, es)][1..]) == [];
  }

  // The entries of a well-formed tree are strictly ascending and in its range.
  lemma {:induction false} WfEntries(t: Tree, height: nat, lo: int, hi: int, root: bool)
    requires Wf(t, height, lo, hi, root) && lo <= hi
    ensures Ascending(Entries(t)) && Within(Entries(t), lo, hi)
    decreases t, 0
  {
    match t
    case Leaf(_, entries) =>
      LeafEntries(t.id, entries);
    case Inner(_, keys, kids) =>
      hide Ascending, Within;
      RunEntries(t, height, lo, hi, root, 0);
      assert kids[0..] == kids;
  }

  // The same for the children from number i on.
  lemma {:induction false} RunEntries(t: Tree, height: nat, lo: int, hi: int, root: bool, i: nat)
    requires t.Inner? && Wf(t, height, lo, hi, root) && lo <= hi && i <= |t.kids|
    ensures |t.kids| == |t.keys| + 1
    ensures var es := Flat(LeavesAll(t.kids[i..]));
      Ascending(es) && Within(es, if i == |t.kids| then hi else Low(t.keys, lo, i), hi)
    decreases t, 0, |t.kids| - i
  {
    hide Ascending, Within, Leaves, LeavesAll, Flat;
    var keys, kids := t.keys, t.kids;
    if i < |kids| {
      var a, b := Low(keys, lo, i), High(keys, hi, i);
      RangeOrdered(keys, lo, hi, i);
      WfEntries(kids[i], height - 1, a, b, false);
      RunEntries(t, height, lo, hi, root, i + 1);
      FirstOfRun(kids, i);
      AscendingAppend(Entries(kids[i]), Flat(LeavesAll(kids[i + 1..])), a, b, hi);
    } else {
      NoEntries(lo, hi);
      assert kids[i..] == [];
    }
  }

  lemma FirstOfRun(kids: seq<Tree>, i: nat)
    requires i < |kids|
    ensures Flat(LeavesAll(kids[i..])) == Entries(kids[i]) + Flat(LeavesAll(kids[i + 1..]))
  {
    assert kids[i..][0] == kids[i] && kids[i..][1..] == kids[i + 1..];
    FlatAppend(Leaves(kids[i]), LeavesAll(kids[i + 1..]));
  }

  lemma NoEntries(lo: int, hi: int)
    ensures Flat(LeavesAll([])) == [] && Ascending(Flat(LeavesAll([]))) && Within(Flat(LeavesAll([])), hi, hi)
  {
  }

  lemma RangeOrdered(keys: seq<Int64>, lo: int, hi: int, i: nat)
    requires AscendingKeys(keys) && (forall k | k in keys :: lo < k < hi) && i <= |keys| && lo <= hi
    ensures lo <= Low(keys, lo, i) <= High(keys, hi, i) <= hi
  {
    if i > 0 { assert keys[i - 1] in keys; }
    if i < |keys| { assert keys[i] in keys; }
  }

  // ---- a tree around one of its leaves ----

  function EntriesBefore(path: Path): seq<Entry> {
    Flat(LeavesBefore(path))
  }

  function EntriesAfter(path: Path): seq<Entry> {
    Flat(LeavesAfter(path))
  }

  // Everything left of a path is below its range.
  lemma {:induction false} BeforeBelow(path: Path, height: nat)
    requires PathWf(path, height)
    ensures forall e | e in EntriesBefore(path) :: e.key < PathLow(path)
  {
    if path.Step? {
      var lk, lc, up := path.leftKeys, path.leftKids, path.up;
      BeforeBelow(up, height + 1);
      PathRange(up, height + 1);
      FlatAppend(LeavesBefore(up), LeavesAll(lc));
      forall e | e in EntriesBefore(path) ensures e.key < PathLow(path) {
        if e in Flat(LeavesAll(lc)) {
          var i := KidOfEntry(lc, e);
          KidInRange(path, height, i, e);
        } else if lk != [] {
          assert lk[|lk| - 1] in lk;
        }
      }
    }
  }

  lemma KidInRange(path: Path, height: nat, i: nat, e: Entry)
    requires path.Step? && PathWf(path, height) && i < |path.leftKids| && e in Entries(path.leftKids[i])
    ensures e.key < PathLow(path)
  {
    var lk := path.leftKeys;
    assert lk[i] in lk;
    if i > 0 {
      assert lk[i - 1] in lk;
      assert (lk + path.rightKeys)[i - 1] < (lk + path.rightKeys)[i];
    }
    WfEntries(path.leftKids[i], height, Low(lk, PathLow(path.up), i), lk[i], false);
    if i < |lk| - 1 {
      assert (lk + path.rightKeys)[i] < (lk + path.rightKeys)[|lk| - 1];
    }
  }

  // Everything right of a path is above its range.
  lemma {:induction false} AfterAbove(path: Path, height: nat)
    requires PathWf(path, height)
    ensures forall e | e in EntriesAfter(path) :: PathHigh(path) <= e.key
  {
    if path.Step? {
      var rk, rc, up := path.rightKeys, path.rightKids, path.up;
      AfterAbove(up, height + 1);
      PathRange(up, height + 1);
      FlatAppend(LeavesAll(rc), LeavesAfter(up));
      forall e | e in EntriesAfter(path) ensures PathHigh(path) <= e.key {
        if e in Flat(LeavesAll(rc)) {
          var i := KidOfEntry(rc, e);
          RightKidInRange(path, height, i, e);
        } else if rk != [] {
          assert rk[0] in rk;
        }
      }
    }
  }

  lemma RightKidInRange(path: Path, height: nat, i: nat, e: Entry)
    requires path.Step? && PathWf(path, height) && i < |path.rightKids| && e in Entries(path.rightKids[i])
    ensures PathHigh(path) <= e.key
  {
    var lk, rk := path.leftKeys, path.rightKeys;
    assert rk[i] in rk && (lk + rk)[|lk| + i] == rk[i];
    if i + 1 < |rk| {
      assert rk[i + 1] in rk && (lk + rk)[|lk| + i + 1] == rk[i + 1];
    }
    WfEntries(path.rightKids[i], height, rk[i], High(rk, PathHigh(path.up), i + 1), false);
    if i > 0 {
      assert (lk + rk)[|lk|] == rk[0];
    }
  }

  lemma {:induction false} KidOfEntry(kids: seq<Tree>, e: Entry) returns (i: nat)
    requires e in Flat(LeavesAll(kids))
    ensures i < |kids| && e in Entries(kids[i])
  {
    FlatAppend(Leaves(kids[0]), LeavesAll(kids[1..]));
    if e in Entries(kids[0]) {
      i := 0;
    } else {
      var j := KidOfEntry(kids[1..], e);
      i := j + 1;
    }
  }

  lemma PlugEntries(path: Path, t: Tree)
    ensures Entries(Plug(path, t)) == EntriesBefore(path) + Entries(t) + EntriesAfter(path)
  {
    PlugLeaves(path, t);
    FlatAppend(LeavesBefore(path) + Leaves(t), LeavesAfter(path));
    FlatAppend(LeavesBefore(path), Leaves(t));
  }

  lemma {:induction false} LowerBoundMiddle(a: seq<Entry>, b: seq<Entry>, c: seq<Entry>, key: Int64)
    requires (forall e | e in a :: e.key < key) && (forall e | e in c :: key < e.key)
    ensures LowerBound(a + b + c, key) == |a| + LowerBound(b, key)
  {
    if a != [] {
      LowerBoundMiddle(a[1..], b, c, key);
      assert (a + b + c)[1..] == a[1..] + b + c;
      assert a[0] in a;
    } else {
      assert a + b + c == b + c;
      LowerBoundLeft(b, c, key);
    }
  }

  lemma {:induction false} LowerBoundLeft(b: seq<Entry>, c: seq<Entry>, key: Int64)
    requires forall e | e in c :: key < e.key
    ensures LowerBound(b + c, key) == LowerBound(b, key)
  {
    if b != [] {
      LowerBoundLeft(b[1..], c, key);
      assert (b + c)[1..] == b[1..] + c;
    } else if c != [] {
      assert c[0] in c;
    }
  }

  // A key in the range of a node is found in the tree iff it is found there.
  lemma LookupMiddle(a: seq<Entry>, b: seq<Entry>, c: seq<Entry>, key: Int64)
    requires (forall e | e in a :: e.key < key) && (forall e | e in c :: key < e.key)
    ensures Lookup(a + b + c, key) == Lookup(b, key)
  {
    LowerBoundMiddle(a, b, c, key);
    var n := LowerBound(b, key);
    if n == |b| && c != [] {
      assert (a + b + c)[|a| + n] == c[0] && c[0] in c;
    }
  }

  lemma InsertedMiddle(a: seq<Entry>, b: seq<Entry>, c: seq<Entry>, e: Entry)
    requires (forall x | x in a :: x.key < e.key) && (forall x | x in c :: e.key < x.key)
    ensures Inserted(a + b + c, e) == a + Inserted(b, e) + c
  {
    LowerBoundMiddle(a, b, c, e.key);
  }

  // The child that upper_bound picks has the key in its range.
  lemma ChildRange(keys: seq<Int64>, lo: int, hi: int, key: Int64)
    requires AscendingKeys(keys) && lo <= key < hi
    ensures var i := UpperBound(keys, key);
      Low(keys, lo, i) <= key < High(keys, hi, i)
  {
    UpperBoundSplits(keys, key);
  }

  // ---- insertion ----

  // The tree after e has been inserted at the leaf at the end of a path.
  function InsertedTree(path: Path, leaf: Tree, e: Entry, next: nat): Tree
    requires leaf.Leaf? && Shaped(path)
  {
    var es := Inserted(leaf.entries, e);
    var s := |es| / 2;
    if |es| <= MAX_ENTRIES then Plug(path, Leaf(leaf.id, es))
    else Propagate(path, Leaf(leaf.id, es[..s]), es[s].key, Leaf(next, es[s..]), next + 1)
  }

  function HeightOfInserted(path: Path, leaf: Tree): nat
    requires leaf.Leaf?
  {
    if |leaf.entries| < MAX_ENTRIES then HeightOfRoot(path, 0) else HeightAfter(path, 0)
  }

  lemma LeafHalvesWf(id: nat, next: nat, es: seq<Entry>, lo: int, hi: int)
    requires |es| == MAX_ENTRIES + 1 && Ascending(es) && Within(es, lo, hi)
    ensures var s := |es| / 2;
      && lo < es[s].key < hi
      && Wf(Leaf(id, es[..s]), 0, lo, es[s].key, false)
      && Wf(Leaf(next, es[s..]), 0, es[s].key, hi, false)
  {
    var s := |es| / 2;
    assert es[0] in es && es[s] in es && es[0].key < es[s].key;
    forall e | e in es[..s] ensures lo <= e.key < es[s].key {
      assert e in es;
    }
    forall e | e in es[s..] ensures es[s].key <= e.key < hi {
      assert e in es;
    }
  }

  // Inserting keeps every node sorted, bounded and full enough, and all leaves
  // at one depth.
  lemma InsertedTreeWf(path: Path, leaf: Tree, e: Entry, next: nat)
    requires leaf.Leaf? && PathWf(path, 0) && Wf(leaf, 0, PathLow(path), PathHigh(path), path.Top?)
    requires PathLow(path) <= e.key < PathHigh(path) && Lookup(leaf.entries, e.key).None?
    ensures Shaped(path) && WfRoot(InsertedTree(path, leaf, e, next), HeightOfInserted(path, leaf))
  {
    WfShaped(path, 0);
    var es := Inserted(leaf.entries, e);
    var s := |es| / 2;
    InsertedAscending(leaf.entries, e);
    assert Within(es, PathLow(path), PathHigh(path));
    if |es| <= MAX_ENTRIES {
      PlugWf(path, Leaf(leaf.id, es), 0);
    } else {
      LeafHalvesWf(leaf.id, next, es, PathLow(path), PathHigh(path));
      hide Wf, PathWf, Propagate, Inserted;
      PropagateWf(path, Leaf(leaf.id, es[..s]), es[s].key, Leaf(next, es[s..]), next + 1, 0);
    }
  }

  // The path's neighbours leave room for exactly the keys of its range.
  lemma AroundLeaf(path: Path, es: seq<Entry>, e: Entry)
    requires PathWf(path, 0) && PathLow(path) <= e.key < PathHigh(path)
    ensures var a, c := EntriesBefore(path), EntriesAfter(path);
      Inserted(a + es + c, e) == a + Inserted(es, e) + c && Lookup(a + es + c, e.key) == Lookup(es, e.key)
  {
    BeforeBelow(path, 0);
    AfterAbove(path, 0);
    hide PathWf, Inserted, Lookup, EntriesBefore, EntriesAfter;
    InsertedAbove(EntriesBefore(path), es, EntriesAfter(path), e, PathLow(path), PathHigh(path));
  }

  lemma PlugLeafEntries(path: Path, id: nat, es: seq<Entry>)
    ensures Entries(Plug(path, Leaf(id, es))) == EntriesBefore(path) + es + EntriesAfter(path)
  {
    PlugEntries(path, Leaf(id, es));
    LeafEntries(id, es);
  }

  lemma SplitLeafEntries(path: Path, id: nat, next: nat, es: seq<Entry>)
    requires Shaped(path) && es != []
    ensures var s := |es| / 2;
      Entries(Propagate(path, Leaf(id, es[..s]), es[s].key, Leaf(next, es[s..]), next + 1)) ==
        EntriesBefore(path) + es + EntriesAfter(path)
  {
    var s := |es| / 2;
    var l, r := Leaf(id, es[..s]), Leaf(next, es[s..]);
    LeafEntries(id, es[..s]);
    LeafEntries(next, es[s..]);
    PropagateLeaves(path, l, es[s].key, r, next + 1);
    FlatThree(LeavesBefore(path), Leaves(l), Leaves(r), LeavesAfter(path));
    assert es[..s] + es[s..] == es;
  }

  // Inserting at the leaf is inserting into the ordered list of all entries.
  lemma InsertedTreeEntries(path: Path, leaf: Tree, e: Entry, next: nat)
    requires leaf.Leaf? && PathWf(path, 0) && PathLow(path) <= e.key < PathHigh(path)
    ensures Shaped(path)
    ensures Entries(InsertedTree(path, leaf, e, next)) == Inserted(Entries(Plug(path, leaf)), e)
    ensures Lookup(Entries(Plug(path, leaf)), e.key) == Lookup(leaf.entries, e.key)
  {
    WfShaped(path, 0);
    var es := Inserted(leaf.entries, e);
    AroundLeaf(path, leaf.entries, e);
    PlugLeafEntries(path, leaf.id, leaf.entries);
    PlugLeafEntries(path, leaf.id, es);
    SplitLeafEntries(path, leaf.id, next, es);
    hide PathWf, Inserted, Lookup, EntriesBefore, EntriesAfter, Plug, Propagate, Entries;
  }

  lemma FlatThree(a: seq<Tree>, b: seq<Tree>, c: seq<Tree>, d: seq<Tree>)
    ensures Flat(a + (b + c) + d) == Flat(a) + (Flat(b) + Flat(c)) + Flat(d)
  {
    FlatAppend(a + (b + c), d);
    FlatAppend(a, b + c);
    FlatAppend(b, c);
  }

  lemma InsertedAbove(a: seq<Entry>, b: seq<Entry>, c: seq<Entry>, e: Entry, lo: int, hi: int)
    requires (forall x | x in a :: x.key < lo) && (forall x | x in c :: hi <= x.key) && lo <= e.key < hi
    ensures Inserted(a + b + c, e) == a + Inserted(b, e) + c
    ensures Lookup(a + b + c, e.key) == Lookup(b, e.key)
  {
    InsertedMiddle(a, b, c, e);
    LookupMiddle(a, b, c, e.key);
  }

  function PagesAdded(path: Path, leaf: Tree): nat
    requires leaf.Leaf?
  {
    if |leaf.entries| < MAX_ENTRIES then 0 else 1 + Allocated(path)
  }

  // The pages of the tree are the old ones and the allocated ones.
  lemma InsertedTreeUses(path: Path, leaf: Tree, e: Entry, next: nat)
    requires leaf.Leaf? && Shaped(path) && UsesExactly(Plug(path, leaf), next)
    ensures UsesExactly(InsertedTree(path, leaf, e, next), next + PagesAdded(path, leaf))
  {
    var es := Inserted(leaf.entries, e);
    var s, n := |es| / 2, next + PagesAdded(path, leaf);
    forall x: nat ensures Uses(InsertedTree(path, leaf, e, next), x) == (if x < n then 1 else 0) {
      PlugUses(path, leaf, x);
      assert Uses(Plug(path, leaf), x) == (if x < next then 1 else 0);
      if |es| <= MAX_ENTRIES {
        PlugUses(path, Leaf(leaf.id, es), x);
      } else {
        PropagateUses(path, Leaf(leaf.id, es[..s]), es[s].key, Leaf(next, es[s..]), next + 1, x);
      }
    }
  }

  // ---- size ----

  function Pow5(n: nat): nat {
    if n == 0 then 1 else 5 * Pow5(n - 1)
  }

  // A node that is not the root, height levels up, has 4 * 5^height entries or more.
  lemma {:induction false} NodeSize(t: Tree, height: nat, lo: int, hi: int)
    requires Wf(t, height, lo, hi, false)
    ensures |Entries(t)| >= 4 * Pow5(height)
    decreases t, 0
  {
    match t
    case Leaf(id, entries) =>
      LeafEntries(id, entries);
    case Inner(_, keys, kids) =>
      RunSize(kids, height - 1, keys, lo, hi);
      assert |kids| * (4 * Pow5(height - 1)) >= 5 * (4 * Pow5(height - 1));
  }

  lemma {:induction false} RunSize(kids: seq<Tree>, height: nat, keys: seq<Int64>, lo: int, hi: int)
    requires |kids| == |keys| + 1 && KidsWf(keys, kids, height, lo, hi)
    ensures |Flat(LeavesAll(kids))| >= |kids| * (4 * Pow5(height))
    decreases kids, 1
  {
    hide Wf, Flat, Leaves, Pow5;
    NodeSize(kids[0], height, Low(keys, lo, 0), High(keys, hi, 0));
    FlatAppend(Leaves(kids[0]), LeavesAll(kids[1..]));
    if keys != [] {
      TailWf(kids, height, keys, lo, hi);
      RunSize(kids[1..], height, keys[1..], keys[0], hi);
      Distribute(|kids|, 4 * Pow5(height));
    }
  }

  lemma Distribute(n: nat, unit: nat)
    requires n > 0
    ensures (n - 1) * unit + unit == n * unit
  {
  }

  lemma TailWf(kids: seq<Tree>, height: nat, keys: seq<Int64>, lo: int, hi: int)
    requires |kids| == |keys| + 1 && keys != [] && KidsWf(keys, kids, height, lo, hi)
    ensures KidsWf(keys[1..], kids[1..], height, keys[0], hi)
  {
    hide Wf;
    forall i | 0 <= i < |kids[1..]|
      ensures Wf(kids[1..][i], height, Low(keys[1..], keys[0], i), High(keys[1..], hi, i), false)
    {
      assert kids[1..][i] == kids[i + 1];
      assert Low(keys[1..], keys[0], i) == Low(keys, lo, i + 1) && High(keys[1..], hi, i) == High(keys, hi, i + 1);
    }
  }

  // A tree with height >= 1 internal levels has at least 8 * 5^(height-1) entries.
  lemma TreeSize(t: Tree, height: nat)
    requires WfRoot(t, height) && height > 0
    ensures |Entries(t)| >= 8 * Pow5(height - 1)
  {
    RunSize(t.kids, height - 1, t.keys, KEY_MIN, KEY_SUP);
    assert |t.kids| * (4 * Pow5(height - 1)) >= 2 * (4 * Pow5(height - 1));
  }

  // ---- how many nodes ----

  function NodeCount(t: Tree): nat
    decreases t, 0
  {
    if t.Leaf? then 1 else 1 + NodeCountAll(t.kids)
  }

  function NodeCountAll(ts: seq<Tree>): nat
    decreases ts, 1
  {
    if ts == [] then 0 else NodeCount(ts[0]) + NodeCountAll(ts[1..])
  }

  lemma {:induction false} NodeCountAppend(a: seq<Tree>, b: seq<Tree>)
    ensures NodeCountAll(a + b) == NodeCountAll(a) + NodeCountAll(b)
  {
    if a == [] {
      assert a + b == b;
    } else {
      assert (a + b)[1..] == a[1..] + b;
      NodeCountAppend(a[1..], b);
    }
  }

  // Below the root there are more than twice as many entries as nodes.
  lemma {:induction false} NodesBelow(t: Tree, height: nat, lo: int, hi: int)
    requires Wf(t, height, lo, hi, false)
    ensures 2 * NodeCount(t) < |Entries(t)|
    decreases t, 0
  {
    match t
    case Leaf(id, entries) =>
      LeafEntries(id, entries);
    case Inner(_, keys, kids) =>
      NodesAmong(kids, height - 1, keys, lo, hi);
  }

  lemma {:induction false} NodesAmong(kids: seq<Tree>, height: nat, keys: seq<Int64>, lo: int, hi: int)
    requires |kids| == |keys| + 1 && KidsWf(keys, kids, height, lo, hi)
    ensures 2 * NodeCountAll(kids) + |kids| <= |Flat(LeavesAll(kids))|
    decreases kids, 1
  {
    hide Wf, Flat, Leaves;
    NodesBelow(kids[0], height, Low(keys, lo, 0), High(keys, hi, 0));
    FlatAppend(Leaves(kids[0]), LeavesAll(kids[1..]));
    if keys != [] {
      TailWf(kids, height, keys, lo, hi);
      NodesAmong(kids[1..], height, keys[1..], keys[0], hi);
    } else {
      assert kids[1..] == [];
    }
  }

  // A tree of more than one node has at least twice as many entries as nodes.
  lemma NodesFew(t: Tree, height: nat)
    requires WfRoot(t, height)
    ensures NodeCount(t) == 1 || 2 * NodeCount(t) <= |Entries(t)|
  {
    if t.Inner? {
      NodesAmong(t.kids, height - 1, t.keys, KEY_MIN, KEY_SUP);
    }
  }

  function Depth(path: Path): nat {
    if path.Top? then 0 else 1 + Depth(path.up)
  }

  // Every node on the path is a node of the tree.
  lemma {:induction false} DepthBelowCount(path: Path, t: Tree)
    ensures Depth(path) + NodeCount(t) <= NodeCount(Plug(path, t))
  {
    match path
    case Top =>
    case Step(id, lk, lc, rk, rc, up) =>
      var node := Inner(id, lk + rk, lc + [t] + rc);
      NodeCountAppend(lc + [t], rc);
      NodeCountAppend(lc, [t]);
      assert [t][1..] == [];
      DepthBelowCount(up, node);
  }

  // A cascade of splits allocates at most one page per level and a root.
  lemma {:induction false} AllocatedFew(path: Path)
    ensures Allocated(path) <= Depth(path) + 1
  {
    if path.Step? {
      AllocatedFew(path.up);
    }
  }

  // ---- how a tree grows ----

  // Whether an insertion of the key splits the node: a leaf that has eight
  // entries, or an inner node with eight keys whose child on the way is split.
  function Splits(t: Tree, key: Int64): bool {
    match t
    case Leaf(_, entries) => |entries| == 8
    case Inner(_, keys, kids) =>
      var i := UpperBound(keys, key);
      i < |kids| && |keys| == 8 && Splits(kids[i], key)
  }

  // The pages it adds below a node and beside it.
  function Added(t: Tree, key: Int64): nat {
    (if Splits(t, key) then 1 else 0) +
    match t
    case Leaf(_, _) => 0
    case Inner(_, keys, kids) =>
      var i := UpperBound(keys, key);
      if i < |kids| then Added(kids[i], key) else 0
  }

  // The pages that an insertion of the key adds to a whole tree: one for every
  // node that is split, and a new root when the root is.
  function Growth(t: Tree, key: Int64): nat {
    Added(t, key) + if Splits(t, key) then 1 else 0
  }

  lemma OnTheWay(path: Path, height: nat, key: Int64)
    requires path.Step? && PathWf(path, height) && PathLow(path) <= key < PathHigh(path)
    ensures UpperBound(path.leftKeys + path.rightKeys, key) == |path.leftKeys|
    ensures |path.leftKids| == |path.leftKeys|
    ensures PathLow(path.up) <= key < PathHigh(path.up)
  {
    var keys, n := path.leftKeys + path.rightKeys, |path.leftKeys|;
    UpperBoundSplits(keys, key);
    assert n > 0 ==> keys[n - 1] == path.leftKeys[n - 1] && path.leftKeys[n - 1] in path.leftKeys;
    assert path.rightKeys != [] ==> keys[n] == path.rightKeys[0] && path.rightKeys[0] in path.rightKeys;
  }

  // What a cascade of splits allocates is the growth of the tree.
  lemma {:induction false} GrowthAlong(path: Path, t: Tree, height: nat, key: Int64)
    requires PathWf(path, height) && PathLow(path) <= key < PathHigh(path)
    ensures Growth(Plug(path, t), key) == Added(t, key) + if Splits(t, key) then Allocated(path) else 0
    decreases path
  {
    if path.Step? {
      hide PathWf, PathLow, PathHigh, UpperBound, Plug;
      UpWf(path, height);
      OnTheWay(path, height, key);
      var node := Inner(path.id, path.leftKeys + path.rightKeys, path.leftKids + [t] + path.rightKids);
      assert node.kids[|path.leftKeys|] == t;
      GrowthAlong(path.up, node, height + 1, key);
      PlugUp(path, t);
    }
  }

  lemma PlugUp(path: Path, t: Tree)
    requires path.Step?
    ensures Plug(path, t) ==
      Plug(path.up, Inner(path.id, path.leftKeys + path.rightKeys, path.leftKids + [t] + path.rightKids))
  {
  }
}
