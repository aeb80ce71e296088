// The shape of a B+ tree, apart from how it is laid out in pages: what a
// well-formed tree is, what it contains, and what propagating a split upwards
// through the ancestors of a node does to both.
module TreeModel {
  import opened Results
  import opened ByteCodec

  const MAX_ENTRIES: nat := 8
  const MAX_KEYS: nat := 8
  const MIN_FILL: nat := 4
  const KEY_MIN: int := -0x8000_0000_0000_0000
  const KEY_SUP: int := 0x8000_0000_0000_0000

  datatype Rid = Rid(page: nat, slot: nat)

  datatype Entry = Entry(key: Int64, rid: Rid)

  datatype Tree =
    | Leaf(id: nat, entries: seq<Entry>)
    | Inner(id: nat, keys: seq<Int64>, kids: seq<Tree>)

  // ---- ordered entries ----

  ghost predicate Ascending(es: seq<Entry>) {
    forall i, j | 0 <= i < j < |es| :: es[i].key < es[j].key
  }

  ghost predicate AscendingKeys(keys: seq<Int64>) {
    forall i, j | 0 <= i < j < |keys| :: keys[i] < keys[j]
  }

  ghost predicate Within(es: seq<Entry>, lo: int, hi: int) {
    forall e | e in es :: lo <= e.key < hi
  }

  // std::lower_bound on entries: how many keys come before key.
  function LowerBound(es: seq<Entry>, key: Int64): (n: nat)
    ensures n <= |es|
  {
    if es == [] || es[0].key >= key then 0 else 1 + LowerBound(es[1..], key)
  }

  // std::upper_bound on separators: how many keys are at most key.
  function UpperBound(keys: seq<Int64>, key: Int64): (n: nat)
    ensures n <= |keys|
  {
    if keys == [] || keys[0] > key then 0 else 1 + UpperBound(keys[1..], key)
  }

  lemma {:induction false} LowerBoundSplits(es: seq<Entry>, key: Int64)
    requires Ascending(es)
    ensures var n := LowerBound(es, key);
      && (forall i | 0 <= i < n :: es[i].key < key)
      && (forall i | n <= i < |es| :: key <= es[i].key)
  {
    if es != [] && es[0].key < key {
      LowerBoundSplits(es[1..], key);
      var n := LowerBound(es, key);
      forall i | 0 <= i < n ensures es[i].key < key {
        if i > 0 { assert es[i] == es[1..][i - 1]; }
      }
      forall i | n <= i < |es| ensures key <= es[i].key {
        assert es[i] == es[1..][i - 1];
      }
    }
  }

  lemma {:induction false} UpperBoundSplits(keys: seq<Int64>, key: Int64)
    requires AscendingKeys(keys)
    ensures var n := UpperBound(keys, key);
      && (forall i | 0 <= i < n :: keys[i] <= key)
      && (forall i | n <= i < |keys| :: key < keys[i])
  {
    if keys != [] && keys[0] <= key {
      UpperBoundSplits(keys[1..], key);
      var n := UpperBound(keys, key);
      forall i | 0 <= i < n ensures keys[i] <= key {
        if i > 0 { assert keys[i] == keys[1..][i - 1]; }
      }
      forall i | n <= i < |keys| ensures key < keys[i] {
        assert keys[i] == keys[1..][i - 1];
      }
    }
  }

  function Lookup(es: seq<Entry>, key: Int64): Option<Rid> {
    var n := LowerBound(es, key);
    if n < |es| && es[n].key == key then Some(es[n].rid) else None
  }

  function Inserted(es: seq<Entry>, e: Entry): seq<Entry> {
    var n := LowerBound(es, e.key);
    es[..n] + [e] + es[n..]
  }

  // The map that a list of entries stands for.
  ghost function MapOf(es: seq<Entry>): map<Int64, Rid> {
    map e | e in es && Lookup(es, e.key).Some? :: e.key := Lookup(es, e.key).value
  }

  lemma LookupExact(es: seq<Entry>, key: Int64)
    requires Ascending(es)
    ensures Lookup(es, key).Some? ==> Entry(key, Lookup(es, key).value) in es
    ensures forall rid :: Entry(key, rid) in es ==> Lookup(es, key) == Some(rid)
  {
    LowerBoundSplits(es, key);
    forall rid | Entry(key, rid) in es ensures Lookup(es, key) == Some(rid) {
      var i :| 0 <= i < |es| && es[i] == Entry(key, rid);
      var n := LowerBound(es, key);
      assert n <= i;
    }
  }

  // The map has exactly the entries' keys, each with its own record id.
  lemma MapExact(es: seq<Entry>)
    requires Ascending(es)
    ensures forall key, rid :: key in MapOf(es) && MapOf(es)[key] == rid <==> Entry(key, rid) in es
    ensures forall key :: key in MapOf(es) <==> Lookup(es, key).Some?
    ensures forall key | key in MapOf(es) :: Lookup(es, key) == Some(MapOf(es)[key])
  {
    forall key: Int64
      ensures Lookup(es, key).Some? ==> Entry(key, Lookup(es, key).value) in es
      ensures forall rid :: Entry(key, rid) in es ==> Lookup(es, key) == Some(rid)
    {
      LookupExact(es, key);
    }
    forall e | e in es ensures e.key in MapOf(es) && MapOf(es)[e.key] == e.rid {
      assert e == Entry(e.key, e.rid);
    }
  }

  lemma InsertedAscending(es: seq<Entry>, e: Entry)
    requires Ascending(es) && Lookup(es, e.key).None?
    ensures Ascending(Inserted(es, e))
    ensures forall x :: x in Inserted(es, e) <==> x in es || x == e
  {
    LowerBoundSplits(es, e.key);
    var n := LowerBound(es, e.key);
    assert es == es[..n] + es[n..];
    forall i | n <= i < |es| ensures e.key < es[i].key {
      if i > n { assert es[n].key < es[i].key; }
    }
  }

  lemma InsertedMap(es: seq<Entry>, e: Entry)
    requires Ascending(es) && Lookup(es, e.key).None?
    ensures MapOf(Inserted(es, e)) == MapOf(es)[e.key := e.rid]
  {
    InsertedAscending(es, e);
    MapExact(es);
    MapExact(Inserted(es, e));
    hide Inserted, Lookup, Ascending, MapOf;
    SameAssociations(MapOf(Inserted(es, e)), MapOf(es)[e.key := e.rid], es, Inserted(es, e), e);
  }

  lemma SameAssociations(after: map<Int64, Rid>, expected: map<Int64, Rid>, es: seq<Entry>, es': seq<Entry>, e: Entry)
    requires forall x :: x in es' <==> x in es || x == e
    requires forall key, rid :: key in after && after[key] == rid <==> Entry(key, rid) in es'
    requires forall key, rid :: key in expected && expected[key] == rid <==>
      if key == e.key then rid == e.rid else Entry(key, rid) in es
    requires forall rid :: Entry(e.key, rid) !in es
    ensures after == expected
  {
    forall key ensures key in after <==> key in expected {
      if key in after {
        assert Entry(key, after[key]) in es';
        assert key in expected && expected[key] == after[key];
      }
      if key in expected {
        assert Entry(key, expected[key]) in es';
        assert key in after && after[key] == expected[key];
      }
    }
    forall key | key in after ensures after[key] == expected[key] {
      assert Entry(key, after[key]) in es';
    }
  }

  // ---- what a tree contains ----

  function Leaves(t: Tree): seq<Tree>
    decreases t, 0
  {
    match t
    case Leaf(_, _) => [t]
    case Inner(_, _, kids) => LeavesAll(kids)
  }

  function LeavesAll(ts: seq<Tree>): seq<Tree>
    decreases ts, 1
  {
    if ts == [] then [] else Leaves(ts[0]) + LeavesAll(ts[1..])
  }

  function Flat(leaves: seq<Tree>): seq<Entry> {
    if leaves == [] then []
    else (if leaves[0].Leaf? then leaves[0].entries else []) + Flat(leaves[1..])
  }

  // All entries, in leaf order.
  function Entries(t: Tree): seq<Entry> {
    Flat(Leaves(t))
  }

  // How many nodes of a tree have the page id x.
  ghost function Uses(t: Tree, x: nat): nat
    decreases t, 0
  {
    (if t.id == x then 1 else 0) + (if t.Leaf? then 0 else UsesAll(t.kids, x))
  }

  ghost function UsesAll(ts: seq<Tree>, x: nat): nat
    decreases ts, 1
  {
    if ts == [] then 0 else Uses(ts[0], x) + UsesAll(ts[1..], x)
  }

  // The tree uses the pages 0 .. n-1, each exactly once.
  ghost predicate UsesExactly(t: Tree, n: nat) {
    forall x: nat :: Uses(t, x) == (if x < n then 1 else 0)
  }

  lemma {:induction false} LeavesAllAppend(a: seq<Tree>, b: seq<Tree>)
    ensures LeavesAll(a + b) == LeavesAll(a) + LeavesAll(b)
  {
    if a == [] {
      assert a + b == b;
    } else {
      assert (a + b)[1..] == a[1..] + b;
      LeavesAllAppend(a[1..], b);
    }
  }

  lemma {:induction false} UsesAllAppend(a: seq<Tree>, b: seq<Tree>, x: nat)
    ensures UsesAll(a + b, x) == UsesAll(a, x) + UsesAll(b, x)
  {
    if a == [] {
      assert a + b == b;
    } else {
      assert (a + b)[1..] == a[1..] + b;
      UsesAllAppend(a[1..], b, x);
    }
  }

  lemma {:induction false} FlatAppend(a: seq<Tree>, b: seq<Tree>)
    ensures Flat(a + b) == Flat(a) + Flat(b)
  {
    if a == [] {
      assert a + b == b;
    } else {
      assert (a + b)[1..] == a[1..] + b;
      FlatAppend(a[1..], b);
    }
  }

  lemma LeavesAllOne(t: Tree)
    ensures LeavesAll([t]) == Leaves(t)
  {
    assert LeavesAll([t][1..]) == [];
  }

  // ---- well-formed trees ----

  // The key range of child i of a node whose own range is [lo, hi).
  function Low(keys: seq<Int64>, lo: int, i: nat): int
    requires i <= |keys|
  {
    if i == 0 then lo else keys[i - 1]
  }

  function High(keys: seq<Int64>, hi: int, i: nat): int
    requires i <= |keys|
  {
    if i == |keys| then hi else keys[i]
  }

  // Every node sorted and within its range, separators bounding the children,
  // all leaves at one depth, and every node but the root at least half full.
  ghost predicate Wf(t: Tree, height: nat, lo: int, hi: int, root: bool) {
    match t
    case Leaf(_, entries) =>
      && height == 0
      && Ascending(entries)
      && |entries| <= MAX_ENTRIES
      && (root || MIN_FILL <= |entries|)
      && Within(entries, lo, hi)
    case Inner(_, keys, kids) =>
      && height > 0
      && |kids| == |keys| + 1
      && AscendingKeys(keys)
      && (if root then 1 else MIN_FILL) <= |keys| <= MAX_KEYS
      && (forall k | k in keys :: lo < k < hi)
      && forall i | 0 <= i < |kids| :: Wf(kids[i], height - 1, Low(keys, lo, i), High(keys, hi, i), false)
  }

  ghost predicate KidsWf(keys: seq<Int64>, kids: seq<Tree>, height: nat, lo: int, hi: int)
    requires |kids| == |keys| + 1
  {
    forall i | 0 <= i < |kids| :: Wf(kids[i], height, Low(keys, lo, i), High(keys, hi, i), false)
  }

  ghost predicate WfRoot(t: Tree, height: nat) {
    Wf(t, height, KEY_MIN, KEY_SUP, true)
  }

  // ---- a tree seen from one of its nodes ----

  // The ancestors of a node: for each of them the separators and children on
  // either side of the path.
  datatype Path =
    | Top
    | Step(id: nat, leftKeys: seq<Int64>, leftKids: seq<Tree>,
           rightKeys: seq<Int64>, rightKids: seq<Tree>, up: Path)

  // One separator to each sibling, the way a path through a node leaves them.
  predicate Shaped(path: Path) {
    match path
    case Top => true
    case Step(_, lk, lc, rk, rc, up) => |lk| == |lc| && |rk| == |rc| && Shaped(up)
  }

  function Plug(path: Path, t: Tree): Tree
    decreases path
  {
    match path
    case Top => t
    case Step(id, lk, lc, rk, rc, up) => Plug(up, Inner(id, lk + rk, lc + [t] + rc))
  }

  function PathLow(path: Path): int {
    match path
    case Top => KEY_MIN
    case Step(_, lk, _, _, _, up) => if lk == [] then PathLow(up) else lk[|lk| - 1]
  }

  function PathHigh(path: Path): int {
    match path
    case Top => KEY_SUP
    case Step(_, _, _, rk, _, up) => if rk == [] then PathHigh(up) else rk[0]
  }

  // Everything around a node of the given height is well-formed.
  ghost predicate PathWf(path: Path, height: nat) {
    match path
    case Top => true
    case Step(_, lk, lc, rk, rc, up) =>
      && |lk| == |lc| && |rk| == |rc|
      && (if up.Top? then 1 else MIN_FILL) <= |lk| + |rk| <= MAX_KEYS
      && AscendingKeys(lk + rk)
      && (forall k | k in lk :: PathLow(up) < k < PathHigh(up))
      && (forall k | k in rk :: PathLow(up) < k < PathHigh(up))
      && (forall i | 0 <= i < |lc| :: Wf(lc[i], height, Low(lk, PathLow(up), i), lk[i], false))
      && (forall i | 0 <= i < |rc| :: Wf(rc[i], height, rk[i], High(rk, PathHigh(up), i + 1), false))
      && PathWf(up, height + 1)
  }

  lemma {:induction false} WfShaped(path: Path, height: nat)
    requires PathWf(path, height)
    ensures Shaped(path)
  {
    if path.Step? {
      WfShaped(path.up, height + 1);
    }
  }

  function LeavesBefore(path: Path): seq<Tree> {
    match path
    case Top => []
    case Step(_, _, lc, _, _, up) => LeavesBefore(up) + LeavesAll(lc)
  }

  function LeavesAfter(path: Path): seq<Tree> {
    match path
    case Top => []
    case Step(_, _, _, _, rc, up) => LeavesAll(rc) + LeavesAfter(up)
  }

  ghost function PathUses(path: Path, x: nat): nat {
    match path
    case Top => 0
    case Step(id, _, lc, _, rc, up) =>
      (if id == x then 1 else 0) + UsesAll(lc, x) + UsesAll(rc, x) + PathUses(up, x)
  }

  // The children of a node around a run of them.
  lemma LeavesAround(before: seq<Tree>, middle: seq<Tree>, after: seq<Tree>)
    ensures LeavesAll(before + middle + after) == LeavesAll(before) + LeavesAll(middle) + LeavesAll(after)
  {
    LeavesAllAppend(before + middle, after);
    LeavesAllAppend(before, middle);
  }

  lemma UsesAround(before: seq<Tree>, middle: seq<Tree>, after: seq<Tree>, x: nat)
    ensures UsesAll(before + middle + after, x) == UsesAll(before, x) + UsesAll(middle, x) + UsesAll(after, x)
  {
    UsesAllAppend(before + middle, after, x);
    UsesAllAppend(before, middle, x);
  }

  lemma Regroup<T>(a: seq<T>, b: seq<T>, c: seq<T>, d: seq<T>, e: seq<T>)
    ensures a + (b + c + d) + e == (a + b) + c + (d + e)
  {
  }

  lemma {:induction false} PlugLeaves(path: Path, t: Tree)
    ensures Leaves(Plug(path, t)) == LeavesBefore(path) + Leaves(t) + LeavesAfter(path)
  {
    match path
    case Top =>
    case Step(id, lk, lc, rk, rc, up) =>
      var node := Inner(id, lk + rk, lc + [t] + rc);
      PlugLeaves(up, node);
      LeavesAround(lc, [t], rc);
      LeavesAllOne(t);
      Regroup(LeavesBefore(up), LeavesAll(lc), Leaves(t), LeavesAll(rc), LeavesAfter(up));
  }

  lemma {:induction false} PlugUses(path: Path, t: Tree, x: nat)
    ensures Uses(Plug(path, t), x) == PathUses(path, x) + Uses(t, x)
  {
    match path
    case Top =>
    case Step(id, lk, lc, rk, rc, up) =>
      PlugUses(up, Inner(id, lk + rk, lc + [t] + rc), x);
      UsesAround(lc, [t], rc, x);
      assert UsesAll([t][1..], x) == 0;
  }

  // Going down to child i of the node at the end of a path.
  function Down(path: Path, t: Tree, i: nat): Path
    requires t.Inner? && i < |t.kids| && |t.kids| == |t.keys| + 1
  {
    Step(t.id, t.keys[..i], t.kids[..i], t.keys[i..], t.kids[i + 1..], path)
  }

  lemma DownPlugs(path: Path, t: Tree, i: nat)
    requires t.Inner? && i < |t.kids| && |t.kids| == |t.keys| + 1
    ensures Plug(Down(path, t, i), t.kids[i]) == Plug(path, t)
  {
    assert t.keys == t.keys[..i] + t.keys[i..];
    assert t.kids == t.kids[..i] + [t.kids[i]] + t.kids[i + 1..];
  }

  // Well-formedness goes down with the path, and the range narrows to the
  // child's own.
  lemma DownWf(path: Path, t: Tree, height: nat, i: nat)
    requires t.Inner? && Wf(t, height, PathLow(path), PathHigh(path), path.Top?)
    requires PathWf(path, height) && i < |t.kids|
    ensures PathWf(Down(path, t, i), height - 1)
    ensures PathLow(Down(path, t, i)) == Low(t.keys, PathLow(path), i)
    ensures PathHigh(Down(path, t, i)) == High(t.keys, PathHigh(path), i)
    ensures Wf(t.kids[i], height - 1, PathLow(Down(path, t, i)), PathHigh(Down(path, t, i)), false)
  {
    var lo, hi := PathLow(path), PathHigh(path);
    var lk, lc, rk, rc := t.keys[..i], t.kids[..i], t.keys[i..], t.kids[i + 1..];
    assert t.keys == lk + rk;
    SiblingsWf(t.keys, t.kids, height - 1, lo, hi, i);
    forall k | k in lk ensures lo < k < hi {
      assert k in t.keys;
    }
    forall k | k in rk ensures lo < k < hi {
      assert k in t.keys;
    }
  }

  lemma SiblingsWf(keys: seq<Int64>, kids: seq<Tree>, height: nat, lo: int, hi: int, i: nat)
    requires |kids| == |keys| + 1 && i < |kids| && KidsWf(keys, kids, height, lo, hi)
    ensures var lk, lc := keys[..i], kids[..i];
      forall j | 0 <= j < |lc| :: Wf(lc[j], height, Low(lk, lo, j), lk[j], false)
    ensures var rk, rc := keys[i..], kids[i + 1..];
      forall j | 0 <= j < |rc| :: Wf(rc[j], height, rk[j], High(rk, hi, j + 1), false)
  {
    var lk, lc, rk, rc := keys[..i], kids[..i], keys[i..], kids[i + 1..];
    hide Wf;
    forall j | 0 <= j < |lc| ensures Wf(lc[j], height, Low(lk, lo, j), lk[j], false) {
      assert lc[j] == kids[j] && Low(lk, lo, j) == Low(keys, lo, j) && lk[j] == High(keys, hi, j);
    }
    forall j | 0 <= j < |rc| ensures Wf(rc[j], height, rk[j], High(rk, hi, j + 1), false) {
      assert rc[j] == kids[i + 1 + j] && rk[j] == Low(keys, lo, i + 1 + j);
      assert High(rk, hi, j + 1) == High(keys, hi, i + 1 + j);
    }
  }

  // ---- splitting upwards ----

  // The node at the end of the path has become two: left with everything below
  // sep, right with the rest. New pages take the ids from fresh on.
  function Propagate(path: Path, left: Tree, sep: Int64, right: Tree, next: nat): Tree
    requires Shaped(path)
    decreases path
  {
    match path
    case Top => Inner(next, [sep], [left, right])
    case Step(id, lk, lc, rk, rc, up) =>
      var keys, kids := lk + [sep] + rk, lc + [left, right] + rc;
      if |keys| <= MAX_KEYS then Plug(up, Inner(id, keys, kids))
      else
        Propagate(up, CutLeft(id, keys, kids), keys[|keys| / 2], CutRight(next, keys, kids), next + 1)
  }

  // How many pages that allocates.
  function Allocated(path: Path): nat {
    match path
    case Top => 1
    case Step(_, lk, _, rk, _, up) => if |lk| + |rk| + 1 <= MAX_KEYS then 0 else 1 + Allocated(up)
  }

  // The height of the result, for a path to a node of the given height.
  function HeightAfter(path: Path, height: nat): nat {
    match path
    case Top => height + 1
    case Step(_, lk, _, rk, _, up) =>
      if |lk| + |rk| + 1 <= MAX_KEYS then HeightOfRoot(up, height + 1) else HeightAfter(up, height + 1)
  }

  function HeightOfRoot(path: Path, height: nat): nat {
    match path
    case Top => height
    case Step(_, _, _, _, _, up) => HeightOfRoot(up, height + 1)
  }

  lemma {:induction false} PlugWf(path: Path, t: Tree, height: nat)
    requires PathWf(path, height) && Wf(t, height, PathLow(path), PathHigh(path), path.Top?)
    ensures WfRoot(Plug(path, t), HeightOfRoot(path, height))
  {
    match path
    case Top =>
    case Step(id, lk, lc, rk, rc, up) =>
      var keys, kids := lk + rk, lc + [t] + rc;
      OneKidWf(path, t, height);
      PlugWf(up, Inner(id, keys, kids), height + 1);
  }

  lemma OneKidWf(path: Path, t: Tree, height: nat)
    requires path.Step? && PathWf(path, height) && Wf(t, height, PathLow(path), PathHigh(path), false)
    ensures var keys, kids := path.leftKeys + path.rightKeys, path.leftKids + [t] + path.rightKids;
      |kids| == |keys| + 1 && KidsWf(keys, kids, height, PathLow(path.up), PathHigh(path.up))
  {
    var lk, lc, rk, rc := path.leftKeys, path.leftKids, path.rightKeys, path.rightKids;
    var lo, hi := PathLow(path.up), PathHigh(path.up);
    var keys, kids := lk + rk, lc + [t] + rc;
    forall i | 0 <= i < |kids| ensures Wf(kids[i], height, Low(keys, lo, i), High(keys, hi, i), false) {
      if i < |lc| {
        assert kids[i] == lc[i];
      } else if i > |lc| {
        var j := i - |lc| - 1;
        assert kids[i] == rc[j];
        assert Low(keys, lo, i) == rk[j];
        assert High(keys, hi, i) == High(rk, hi, j + 1);
      }
    }
  }

  lemma TwoKidsWf(path: Path, left: Tree, sep: Int64, right: Tree, height: nat)
    requires path.Step? && PathWf(path, height)
    requires Wf(left, height, PathLow(path), sep, false) && Wf(right, height, sep, PathHigh(path), false)
    ensures var keys, kids := path.leftKeys + [sep] + path.rightKeys, path.leftKids + [left, right] + path.rightKids;
      |kids| == |keys| + 1 && KidsWf(keys, kids, height, PathLow(path.up), PathHigh(path.up))
  {
    var lk, lc, rk, rc := path.leftKeys, path.leftKids, path.rightKeys, path.rightKids;
    var lo, hi := PathLow(path.up), PathHigh(path.up);
    var keys, kids := lk + [sep] + rk, lc + [left, right] + rc;
    forall i | 0 <= i < |kids| ensures Wf(kids[i], height, Low(keys, lo, i), High(keys, hi, i), false) {
      if i < |lc| {
        assert kids[i] == lc[i];
      } else if i == |lc| {
        assert kids[i] == left;
      } else if i == |lc| + 1 {
        assert kids[i] == right;
      } else {
        var j := i - |lc| - 2;
        assert kids[i] == rc[j];
        assert Low(keys, lo, i) == rk[j];
        assert High(keys, hi, i) == High(rk, hi, j + 1);
      }
    }
  }

  lemma AscendingAround(a: seq<Int64>, sep: Int64, b: seq<Int64>)
    requires AscendingKeys(a + b)
    requires a != [] ==> a[|a| - 1] < sep
    requires b != [] ==> sep < b[0]
    ensures AscendingKeys(a + [sep] + b)
  {
    var ab := a + b;
    forall i | 0 <= i < |a| ensures a[i] < sep {
      assert ab[i] == a[i] && ab[|a| - 1] == a[|a| - 1];
    }
    forall j | 0 <= j < |b| ensures sep < b[j] {
      assert ab[|a| + j] == b[j] && ab[|a|] == b[0];
    }
    var keys := a + [sep] + b;
    forall i, j | 0 <= i < j < |keys| ensures keys[i] < keys[j] {
      if i != |a| && j != |a| {
        assert keys[i] == ab[if i < |a| then i else i - 1];
        assert keys[j] == ab[if j < |a| then j else j - 1];
      }
    }
  }

  // The separators with the new one among them.
  lemma KeysWithSeparator(path: Path, sep: Int64, height: nat)
    requires path.Step? && PathWf(path, height) && PathLow(path) < sep < PathHigh(path)
    ensures AscendingKeys(path.leftKeys + [sep] + path.rightKeys)
    ensures forall k | k in path.leftKeys + [sep] + path.rightKeys :: PathLow(path.up) < k < PathHigh(path.up)
  {
    var lk, rk := path.leftKeys, path.rightKeys;
    AscendingAround(lk, sep, rk);
    hide Wf, AscendingKeys;
    if lk != [] { assert lk[|lk| - 1] in lk; }
    if rk != [] { assert rk[0] in rk; }
  }

  lemma {:induction false} PathRange(path: Path, height: nat)
    requires PathWf(path, height)
    ensures KEY_MIN <= PathLow(path) && PathHigh(path) <= KEY_SUP
  {
    if path.Step? {
      PathRange(path.up, height + 1);
      if path.leftKeys != [] { assert path.leftKeys[|path.leftKeys| - 1] in path.leftKeys; }
      if path.rightKeys != [] { assert path.rightKeys[0] in path.rightKeys; }
    }
  }

  // The two halves of an over-full node are well-formed on either side of the
  // promoted separator.
  lemma HalvesWf(id: nat, next: nat, keys: seq<Int64>, kids: seq<Tree>, height: nat, lo: int, hi: int)
    requires |keys| == MAX_KEYS + 1 && |kids| == |keys| + 1
    requires AscendingKeys(keys) && (forall k | k in keys :: lo < k < hi)
    requires KidsWf(keys, kids, height, lo, hi)
    ensures Wf(CutLeft(id, keys, kids), height + 1, lo, keys[|keys| / 2], false)
    ensures Wf(CutRight(next, keys, kids), height + 1, keys[|keys| / 2], hi, false)
  {
    var s := |keys| / 2;
    var a, b := keys[..s], keys[s + 1..];
    forall i | 0 <= i < s + 1 ensures Wf(kids[..s + 1][i], height, Low(a, lo, i), High(a, keys[s], i), false) {
      assert kids[..s + 1][i] == kids[i];
      assert Low(a, lo, i) == Low(keys, lo, i) && High(a, keys[s], i) == High(keys, hi, i);
    }
    forall i | 0 <= i < |kids| - s - 1 ensures Wf(kids[s + 1..][i], height, Low(b, keys[s], i), High(b, hi, i), false) {
      assert kids[s + 1..][i] == kids[s + 1 + i];
      assert Low(b, keys[s], i) == Low(keys, lo, s + 1 + i) && High(b, hi, i) == High(keys, hi, s + 1 + i);
    }
    forall k | k in a ensures lo < k < keys[s] {
      var i :| 0 <= i < s && a[i] == k;
      assert keys[i] == k && keys[i] in keys && keys[s] in keys;
    }
    forall k | k in b ensures keys[s] < k < hi {
      var i :| 0 <= i < |b| && b[i] == k;
      assert keys[s + 1 + i] == k && keys[s + 1 + i] in keys;
    }
  }

  // The node that takes in the new child, when it has room.
  lemma WidenedWf(path: Path, left: Tree, sep: Int64, right: Tree, height: nat)
    requires path.Step? && PathWf(path, height) && PathLow(path) < sep < PathHigh(path)
    requires Wf(left, height, PathLow(path), sep, false) && Wf(right, height, sep, PathHigh(path), false)
    requires |path.leftKeys| + |path.rightKeys| < MAX_KEYS
    ensures Wf(Inner(path.id, path.leftKeys + [sep] + path.rightKeys, path.leftKids + [left, right] + path.rightKids),
               height + 1, PathLow(path.up), PathHigh(path.up), path.up.Top?)
  {
    TwoKidsWf(path, left, sep, right, height);
    KeysWithSeparator(path, sep, height);
    hide AscendingKeys;
  }

  // The node that has become too full, cut in two.
  function CutLeft(id: nat, keys: seq<Int64>, kids: seq<Tree>): Tree
    requires |kids| == |keys| + 1
  {
    Inner(id, keys[..|keys| / 2], kids[..|keys| / 2 + 1])
  }

  function CutRight(id: nat, keys: seq<Int64>, kids: seq<Tree>): Tree
    requires |kids| == |keys| + 1 && keys != []
  {
    Inner(id, keys[|keys| / 2 + 1..], kids[|keys| / 2 + 1..])
  }

  lemma CutWf(path: Path, left: Tree, sep: Int64, right: Tree, next: nat, height: nat)
    requires path.Step? && PathWf(path, height) && PathLow(path) < sep < PathHigh(path)
    requires Wf(left, height, PathLow(path), sep, false) && Wf(right, height, sep, PathHigh(path), false)
    requires |path.leftKeys| + |path.rightKeys| == MAX_KEYS
    ensures var keys, kids := path.leftKeys + [sep] + path.rightKeys, path.leftKids + [left, right] + path.rightKids;
      var middle := keys[|keys| / 2];
      && |kids| == |keys| + 1
      && PathLow(path.up) < middle < PathHigh(path.up)
      && Wf(CutLeft(path.id, keys, kids), height + 1, PathLow(path.up), middle, false)
      && Wf(CutRight(next, keys, kids), height + 1, middle, PathHigh(path.up), false)
  {
    var keys, kids := path.leftKeys + [sep] + path.rightKeys, path.leftKids + [left, right] + path.rightKids;
    TwoKidsWf(path, left, sep, right, height);
    KeysWithSeparator(path, sep, height);
    HalvesWf(path.id, next, keys, kids, height, PathLow(path.up), PathHigh(path.up));
    assert keys[|keys| / 2] in keys;
  }

  lemma CutLeaves(id: nat, next: nat, keys: seq<Int64>, kids: seq<Tree>)
    requires |kids| == |keys| + 1 && keys != []
    ensures Leaves(CutLeft(id, keys, kids)) + Leaves(CutRight(next, keys, kids)) == LeavesAll(kids)
  {
    var s := |keys| / 2;
    assert kids == kids[..s + 1] + kids[s + 1..];
    LeavesAllAppend(kids[..s + 1], kids[s + 1..]);
  }

  lemma CutUses(id: nat, next: nat, keys: seq<Int64>, kids: seq<Tree>, x: nat)
    requires |kids| == |keys| + 1 && keys != []
    ensures Uses(CutLeft(id, keys, kids), x) + Uses(CutRight(next, keys, kids), x) ==
      UsesAll(kids, x) + (if id == x then 1 else 0) + (if next == x then 1 else 0)
  {
    var s := |keys| / 2;
    assert kids == kids[..s + 1] + kids[s + 1..];
    UsesAllAppend(kids[..s + 1], kids[s + 1..], x);
  }

  // One level of a cascade.
  lemma PropagateLevel(path: Path, left: Tree, sep: Int64, right: Tree, next: nat)
    requires path.Step? && Shaped(path)
    ensures var keys, kids := path.leftKeys + [sep] + path.rightKeys, path.leftKids + [left, right] + path.rightKids;
      Propagate(path, left, sep, right, next) ==
        if |keys| <= MAX_KEYS then Plug(path.up, Inner(path.id, keys, kids))
        else Propagate(path.up, CutLeft(path.id, keys, kids), keys[|keys| / 2], CutRight(next, keys, kids), next + 1)
  {
  }

  lemma AllocatedLevel(path: Path)
    requires path.Step?
    ensures Allocated(path) ==
      if |path.leftKeys| + |path.rightKeys| < MAX_KEYS then 0 else 1 + Allocated(path.up)
  {
  }

  lemma HeightLevel(path: Path, height: nat)
    requires path.Step?
    ensures HeightAfter(path, height) ==
      if |path.leftKeys| + |path.rightKeys| < MAX_KEYS then HeightOfRoot(path.up, height + 1)
      else HeightAfter(path.up, height + 1)
  {
  }

  lemma NewRootWf(left: Tree, sep: Int64, right: Tree, next: nat, height: nat)
    requires KEY_MIN < sep < KEY_SUP
    requires Wf(left, height, KEY_MIN, sep, false) && Wf(right, height, sep, KEY_SUP, false)
    ensures WfRoot(Inner(next, [sep], [left, right]), height + 1)
  {
    var kids := [left, right];
    assert kids[0] == left && kids[1] == right;
  }

  // The whole-tree invariant survives every cascade of splits.
  lemma {:induction false} PropagateWf(path: Path, left: Tree, sep: Int64, right: Tree, next: nat, height: nat)
    requires PathWf(path, height) && PathLow(path) < sep < PathHigh(path)
    requires Wf(left, height, PathLow(path), sep, false) && Wf(right, height, sep, PathHigh(path), false)
    ensures Shaped(path) && WfRoot(Propagate(path, left, sep, right, next), HeightAfter(path, height))
    decreases path, 1
  {
    hide Wf;
    WfShaped(path, height);
    if path.Top? {
      NewRootWf(left, sep, right, next, height);
    } else {
      hide *;
      PropagateStepWf(path, left, sep, right, next, height);
    }
  }

  lemma UpWf(path: Path, height: nat)
    requires path.Step? && PathWf(path, height)
    ensures PathWf(path.up, height + 1) && |path.leftKeys| + |path.rightKeys| <= MAX_KEYS
  {
    hide Wf;
  }

  lemma {:induction false} PropagateStepWf(path: Path, left: Tree, sep: Int64, right: Tree, next: nat, height: nat)
    requires path.Step? && Shaped(path) && PathWf(path, height) && PathLow(path) < sep < PathHigh(path)
    requires Wf(left, height, PathLow(path), sep, false) && Wf(right, height, sep, PathHigh(path), false)
    ensures WfRoot(Propagate(path, left, sep, right, next), HeightAfter(path, height))
    decreases path, 0
  {
    hide Wf, Propagate, PathWf, PathLow, PathHigh, HeightAfter, HeightOfRoot, Plug, WfRoot, CutLeft, CutRight;
    var up, id := path.up, path.id;
    var keys, kids := path.leftKeys + [sep] + path.rightKeys, path.leftKids + [left, right] + path.rightKids;
    UpWf(path, height);
    PropagateLevel(path, left, sep, right, next);
    HeightLevel(path, height);
    if |keys| <= MAX_KEYS {
      WidenedWf(path, left, sep, right, height);
      PlugWf(up, Inner(id, keys, kids), height + 1);
    } else {
      CutWf(path, left, sep, right, next, height);
      PropagateWf(up, CutLeft(id, keys, kids), keys[|keys| / 2], CutRight(next, keys, kids), next + 1, height + 1);
    }
  }

  lemma Siblings(left: Tree, right: Tree)
    ensures LeavesAll([left, right]) == Leaves(left) + Leaves(right)
  {
    assert [left] + [right] == [left, right];
    LeavesAllAppend([left], [right]);
    LeavesAllOne(left);
    LeavesAllOne(right);
  }

  // Splits neither lose, repeat nor reorder leaves.
  lemma {:induction false} PropagateLeaves(path: Path, left: Tree, sep: Int64, right: Tree, next: nat)
    requires Shaped(path)
    ensures Leaves(Propagate(path, left, sep, right, next)) ==
      LeavesBefore(path) + (Leaves(left) + Leaves(right)) + LeavesAfter(path)
    decreases path
  {
    Siblings(left, right);
    match path
    case Top =>
    case Step(id, lk, lc, rk, rc, up) =>
      var keys, kids := lk + [sep] + rk, lc + [left, right] + rc;
      LeavesAround(lc, [left, right], rc);
      Regroup(LeavesBefore(up), LeavesAll(lc), Leaves(left) + Leaves(right), LeavesAll(rc), LeavesAfter(up));
      assert Leaves(Inner(id, keys, kids)) == LeavesAll(kids);
      hide LeavesAll;
      if |keys| <= MAX_KEYS {
        PlugLeaves(up, Inner(id, keys, kids));
      } else {
        CutLeaves(id, next, keys, kids);
        PropagateLeaves(up, CutLeft(id, keys, kids), keys[|keys| / 2], CutRight(next, keys, kids), next + 1);
      }
  }

  // Splits use each page they allocate exactly once and let go of none.
  lemma {:induction false} PropagateUses(path: Path, left: Tree, sep: Int64, right: Tree, next: nat, x: nat)
    requires Shaped(path)
    ensures Uses(Propagate(path, left, sep, right, next), x) ==
      PathUses(path, x) + Uses(left, x) + Uses(right, x) + (if next <= x < next + Allocated(path) then 1 else 0)
    decreases path
  {
    assert [left, right][1..] == [right];
    assert UsesAll([right][1..], x) == 0;
    assert UsesAll([left, right], x) == Uses(left, x) + Uses(right, x);
    if path.Step? {
      var keys, kids := path.leftKeys + [sep] + path.rightKeys, path.leftKids + [left, right] + path.rightKids;
      UsesAround(path.leftKids, [left, right], path.rightKids, x);
      PropagateLevel(path, left, sep, right, next);
      hide Propagate;
      if |keys| <= MAX_KEYS {
        PlugUses(path.up, Inner(path.id, keys, kids), x);
      } else {
        CutUses(path.id, next, keys, kids, x);
        PropagateUses(path.up, CutLeft(path.id, keys, kids), keys[|keys| / 2], CutRight(next, keys, kids), next + 1, x);
      }
    }
  }
}
