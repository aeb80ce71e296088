// Maps that are walked in ascending key order.
module OrderedMaps {
  import opened ByteCodec

  ghost predicate Increasing(ids: seq<Word64>) {
    forall i, j | 0 <= i < j < |ids| :: ids[i] < ids[j]
  }

  ghost predicate KeysOf<V>(m: map<Word64, V>, ids: seq<Word64>) {
    Increasing(ids) && forall id :: id in ids <==> id in m
  }

  predicate IsLeast(s: set<Word64>, x: Word64) {
    x in s && forall y | y in s :: x <= y
  }

  lemma {:induction false} HasLeast(s: set<Word64>) returns (x: Word64)
    requires s != {}
    ensures IsLeast(s, x)
  {
    var a :| a in s;
    var rest := s - {a};
    x := a;
    if rest != {} {
      var b := HasLeast(rest);
      x := if a <= b then a else b;
    }
    forall y | y in s ensures x <= y {
      assert y == a || y in rest;
    }
  }

  // The keys of a map in the order of iteration.
  method KeysInOrder<V>(m: map<Word64, V>) returns (ids: seq<Word64>)
    ensures KeysOf(m, ids)
  {
    var rest := m.Keys;
    ids := [];
    while rest != {}
      invariant rest <= m.Keys && Increasing(ids) && AllBelow(ids, rest)
      invariant forall id :: id in m <==> id in ids || id in rest
      decreases |rest|
    {
      ghost var witnessed := HasLeast(rest);
      var least :| least in rest && IsLeast(rest, least);
      MoveOver(m.Keys, ids, rest, least);
      ids := ids + [least];
      rest := rest - {least};
    }
  }

  ghost predicate AllBelow(ids: seq<Word64>, rest: set<Word64>) {
    forall i, x | 0 <= i < |ids| && x in rest :: ids[i] < x
  }

  lemma MoveOver(keys: set<Word64>, ids: seq<Word64>, rest: set<Word64>, x: Word64)
    requires IsLeast(rest, x) && Increasing(ids) && AllBelow(ids, rest)
    requires forall id :: id in keys <==> id in ids || id in rest
    ensures Increasing(ids + [x]) && AllBelow(ids + [x], rest - {x})
    ensures forall id :: id in keys <==> id in ids + [x] || id in rest - {x}
  {
  }

  // There is one such order.
  lemma {:induction false} OneOrder(a: seq<Word64>, b: seq<Word64>)
    requires Increasing(a) && Increasing(b) && forall id :: id in a <==> id in b
    ensures a == b
  {
    if b != [] {
      SameFirst(b, a);
    }
    if a != [] {
      SameFirst(a, b);
      forall id ensures id in a[1..] <==> id in b[1..] {
        SplitMember(a, id);
        SplitMember(b, id);
      }
      OneOrder(a[1..], b[1..]);
      assert a == [a[0]] + a[1..] && b == [b[0]] + b[1..];
    }
  }

  lemma SameFirst(a: seq<Word64>, b: seq<Word64>)
    requires Increasing(a) && Increasing(b) && a != [] && forall id :: id in a <==> id in b
    ensures b != [] && a[0] == b[0]
  {
    assert a[0] in a;
    var i :| 0 <= i < |b| && b[i] == a[0];
    assert b[0] in b;
    var j :| 0 <= j < |a| && a[j] == b[0];
  }

  lemma SplitMember(a: seq<Word64>, id: Word64)
    requires a != [] && Increasing(a)
    ensures id in a[1..] <==> id in a && id != a[0]
  {
    assert a == [a[0]] + a[1..];
  }
}
