/**
  lib/mongo-comparator.js: whether two snapshots of a collection hold the same documents, and
  which collections an action left unchanged. The action is given as the contents of every
  collection before it and after it.
 */
module Comparator {
  import opened Results
  import opened Documents
  import opened Sequences

  /** areSameArrays: equal lengths, and each document of `a` is what `b` finds under its `_id`. */
  function AreSameArrays(a: seq<Doc>, b: seq<Doc>): (same: bool) {
    |a| == |b| && forall i | 0 <= i < |a| :: FindById(b, a[i].id) == Some(a[i])
  }

  /** Position `j` of `b` holds `d`, and no earlier document of `b` has `d`'s `_id`. */
  ghost predicate FirstMatchAt(b: seq<Doc>, d: Doc, j: int) {
    0 <= j < |b| && b[j] == d && forall k | 0 <= k < j :: b[k].id != d.id
  }

  /** The first document of `b` with `d`'s `_id` exists and equals `d`. */
  ghost predicate FirstMatchIs(b: seq<Doc>, d: Doc) {
    exists j :: FirstMatchAt(b, d, j)
  }

  /**
    The rule in positions: equal lengths, and for every document of `a` the first document of
    `b` with its `_id` exists and equals it.
   */
  lemma SameArraysRule(a: seq<Doc>, b: seq<Doc>)
    ensures AreSameArrays(a, b) <==> |a| == |b| && forall i | 0 <= i < |a| :: FirstMatchIs(b, a[i])
  {
    forall i | 0 <= i < |a| ensures FindById(b, a[i].id) == Some(a[i]) <==> FirstMatchIs(b, a[i]) {
      FindByIdFirst(b, a[i].id);
      if FirstMatchIs(b, a[i]) {
        var j :| FirstMatchAt(b, a[i], j);
        FindByIdAt(b, j);
      }
      if FindById(b, a[i].id) == Some(a[i]) {
        var j :| 0 <= j < |b| && b[j] == a[i] && forall k | 0 <= k < j :: b[k].id != a[i].id;
        assert FirstMatchAt(b, a[i], j);
      }
    }
  }

  /** Snapshots whose lengths differ are never the same: an insert or a delete is always seen. */
  lemma LengthChangeDetected(a: seq<Doc>, d: Doc)
    ensures !AreSameArrays(a, a + [d]) && !AreSameArrays(a + [d], a)
  {
    assert |a + [d]| != |a|;
  }

  /** With unique ids on both sides, two snapshots are the same exactly when they hold the same documents. */
  lemma SameIffSameDocuments(a: seq<Doc>, b: seq<Doc>)
    requires UniqueIds(a) && UniqueIds(b)
    ensures AreSameArrays(a, b) <==> multiset(a) == multiset(b)
  {
    if AreSameArrays(a, b) {
      assert forall i | 0 <= i < |a| :: a[i] in b;
      CoveringIsPermutation(a, b);
    }
    if multiset(a) == multiset(b) {
      assert |a| == |b| by {
        assert |multiset(a)| == |multiset(b)|;
      }
      forall i | 0 <= i < |a| ensures FindById(b, a[i].id) == Some(a[i]) {
        assert a[i] in multiset(b);
        FindUnique(b, a[i]);
      }
    }
  }

  /** A sequence of documents with distinct ids, all found in an equally long `b`, is a permutation of `b`. */
  lemma {:induction false} CoveringIsPermutation(a: seq<Doc>, b: seq<Doc>)
    requires UniqueIds(a) && |a| == |b| && forall i | 0 <= i < |a| :: a[i] in b
    ensures multiset(a) == multiset(b)
  {
    if a != [] {
      var x := a[0];
      var j :| 0 <= j < |b| && b[j] == x;
      var rest := b[..j] + b[j + 1..];
      RemoveAt(b, j);
      forall i | 0 <= i < |a| - 1 ensures a[1..][i] in rest {
        assert a[1..][i] == a[i + 1] && a[i + 1].id != x.id;
      }
      CoveringIsPermutation(a[1..], rest);
      assert a == [x] + a[1..];
    }
  }

  /** Taking out the element at `j` takes one copy of it out of the multiset and keeps every other element. */
  lemma RemoveAt<T>(b: seq<T>, j: nat)
    requires j < |b|
    ensures multiset(b) == multiset(b[..j] + b[j + 1..]) + multiset{b[j]}
    ensures forall y | y in b && y != b[j] :: y in b[..j] + b[j + 1..]
  {
    assert b == b[..j] + [b[j]] + b[j + 1..];
    forall y | y in b && y != b[j] ensures y in b[..j] + b[j + 1..] {
      var m :| 0 <= m < |b| && b[m] == y;
      if m < j { assert (b[..j] + b[j + 1..])[m] == y; } else { assert (b[..j] + b[j + 1..])[m - 1] == y; }
    }
  }

  /** With unique ids, a snapshot is the same as itself, so an action that does nothing is never reported. */
  lemma Reflexive(a: seq<Doc>)
    requires UniqueIds(a)
    ensures AreSameArrays(a, a)
  {
    forall i | 0 <= i < |a| ensures FindById(a, a[i].id) == Some(a[i]) {
      FindUnique(a, a[i]);
    }
  }

  /** With unique ids, reordering the second snapshot does not change the verdict. */
  lemma OrderIndependent(a: seq<Doc>, b: seq<Doc>, b': seq<Doc>)
    requires UniqueIds(b) && UniqueIds(b') && multiset(b) == multiset(b')
    ensures AreSameArrays(a, b) == AreSameArrays(a, b')
  {
    assert |b| == |b'| by {
      assert |multiset(b)| == |multiset(b')|;
    }
    forall i | 0 <= i < |a| ensures FindById(b, a[i].id) == Some(a[i]) <==> FindById(b', a[i].id) == Some(a[i]) {
      FindUniqueIff(b, a[i]);
      FindUniqueIff(b', a[i]);
      assert a[i] in b <==> a[i] in multiset(b);
      assert a[i] in b' <==> a[i] in multiset(b');
    }
  }

  /** With unique ids, changing a field of one document, under the same `_id`, is seen in both directions. */
  lemma FieldUpdateDetected(a: seq<Doc>, i: nat, d: Doc)
    requires UniqueIds(a) && i < |a| && d.id == a[i].id && d != a[i]
    ensures !AreSameArrays(a, a[i := d]) && !AreSameArrays(a[i := d], a)
  {
    var u := a[i := d];
    assert UniqueIds(u) by {
      forall m, n | 0 <= m < n < |u| ensures u[m].id != u[n].id {
        assert u[m].id == a[m].id && u[n].id == a[n].id;
      }
    }
    assert u[i] == d;
    FindUnique(u, d);
    FindUnique(a, a[i]);
  }

  /** Without unique ids the rule can be fooled: a repeated document hides a missing one. */
  lemma RepeatHidesMissing()
    ensures var x := Doc(1, map[]);
      var y := Doc(2, map[]);
      AreSameArrays([x, x], [x, y]) && multiset([x, x]) != multiset([x, y])
  {
    var x := Doc(1, map[]);
    var y := Doc(2, map[]);
    assert [x, y][0] == x;
    assert multiset([x, x])[y] == 0;
  }

  // ---------------------------------------------------------------------------------------
  // compareCollectionsAfterAction

  /** The keys of a JS Map set in the order of `s`: each element at its first occurrence. */
  function Dedup<T(==)>(s: seq<T>): (r: seq<T>)
    ensures forall i | 0 <= i < |s| :: s[i] in r
    ensures forall i | 0 <= i < |r| :: r[i] in s
  {
    if s == [] then []
    else
      var d := Dedup(s[..|s| - 1]);
      if s[|s| - 1] in d then d else d + [s[|s| - 1]]
  }

  /** Deduplicating one more element adds it at the end, unless it was already there. */
  lemma DedupStep<T>(s: seq<T>, x: T)
    ensures Dedup(s + [x]) == if x in s then Dedup(s) else Dedup(s) + [x]
  {
    assert (s + [x])[..|s|] == s;
    var d := Dedup(s);
    if x in d {
      var i :| 0 <= i < |d| && d[i] == x;
    }
  }

  /** `x` is `y` with some elements left out, the rest in their order. */
  ghost predicate Subsequence<T>(x: seq<T>, y: seq<T>)
    decreases |y|
  {
    x == [] ||
    (y != [] &&
      ((x[|x| - 1] == y[|y| - 1] && Subsequence(x[..|x| - 1], y[..|y| - 1])) ||
       Subsequence(x, y[..|y| - 1])))
  }

  /** The Map keys are exactly the given elements. */
  lemma DedupMembers<T>(s: seq<T>)
    ensures forall x :: x in Dedup(s) <==> x in s
  {
    forall x | x in Dedup(s) ensures x in s {
      var i :| 0 <= i < |Dedup(s)| && Dedup(s)[i] == x;
    }
  }

  /** The Map keys hold every element once, in first-occurrence order. */
  lemma {:induction false} DedupKeepsFirst<T>(s: seq<T>)
    ensures Distinct(Dedup(s)) && Subsequence(Dedup(s), s)
  {
    if s != [] {
      var init := s[..|s| - 1];
      var d := Dedup(init);
      var x := s[|s| - 1];
      DedupKeepsFirst(init);
      if x in d {
        SubsequenceExtend(d, init, x);
        assert s == init + [x];
      } else {
        var r := d + [x];
        assert r[..|r| - 1] == d && s[..|s| - 1] == init;
        assert Distinct(r) by {
          forall i, j | 0 <= i < j < |r| ensures r[i] != r[j] {
            if j == |r| - 1 { assert r[i] == d[i]; }
          }
        }
      }
    }
  }

  /** `a` occurs in `s` before any occurrence of `b`. */
  ghost predicate FirstBefore<T>(s: seq<T>, a: T, b: T) {
    exists p | 0 <= p < |s| :: s[p] == a && b !in s[..p]
  }

  /** The Map keys keep first-occurrence order: of two keys, the earlier one occurs first in `s`. */
  lemma {:induction false} DedupFirstOrder<T>(s: seq<T>)
    ensures forall i, j | 0 <= i < j < |Dedup(s)| :: FirstBefore(s, Dedup(s)[i], Dedup(s)[j])
  {
    if s != [] {
      var init := s[..|s| - 1];
      var x := s[|s| - 1];
      assert s == init + [x];
      DedupFirstOrder(init);
      DedupStep(init, x);
      var d := Dedup(init);
      forall i, j | 0 <= i < j < |Dedup(s)| ensures FirstBefore(s, Dedup(s)[i], Dedup(s)[j]) {
        assert Dedup(s)[i] == d[i];
        if j < |d| {
          assert Dedup(s)[j] == d[j];
          assert FirstBefore(init, d[i], d[j]);
          var p :| 0 <= p < |init| && init[p] == d[i] && d[j] !in init[..p];
          assert s[p] == d[i] && s[..p] == init[..p];
        } else {
          assert Dedup(s)[j] == x && x !in init;
          var p :| 0 <= p < |init| && init[p] == d[i];
          assert s[p] == d[i] && s[..p] == init[..p];
        }
      }
    }
  }

  /** A list without repeats is its own set of Map keys. */
  lemma {:induction false} DedupOfDistinct<T>(s: seq<T>)
    requires Distinct(s)
    ensures Dedup(s) == s
  {
    if s != [] {
      var init := s[..|s| - 1];
      assert Distinct(init);
      DedupOfDistinct(init);
      assert s[|s| - 1] !in init;
      assert s == init + [s[|s| - 1]];
    }
  }

  /** The `forEach` over the before-snapshot: each collection pushed to `same` or to `differ`. */
  function Classify<C>(keys: seq<C>, before: C -> seq<Doc>, after: C -> seq<Doc>): (r: (seq<C>, seq<C>)) {
    if keys == [] then ([], [])
    else
      var (same, differ) := Classify(keys[..|keys| - 1], before, after);
      var c := keys[|keys| - 1];
      if AreSameArrays(before(c), after(c)) then (same + [c], differ) else (same, differ + [c])
  }

  /** compareCollectionsAfterAction, as a function of the contents before and after the action. */
  function Compare<C(==)>(collections: seq<C>, before: C -> seq<Doc>, after: C -> seq<Doc>): (r: (seq<C>, seq<C>)) {
    Classify(Dedup(collections), before, after)
  }

  /** `same` and `differ` split the keys: every key lands in exactly the list its verdict names. */
  lemma {:induction false} ClassifySplits<C>(keys: seq<C>, before: C -> seq<Doc>, after: C -> seq<Doc>)
    ensures var (same, differ) := Classify(keys, before, after);
      (forall c :: c in keys <==> c in same || c in differ) &&
      (forall c | c in same :: AreSameArrays(before(c), after(c))) &&
      (forall c | c in differ :: !AreSameArrays(before(c), after(c)))
  {
    if keys != [] {
      var init := keys[..|keys| - 1];
      ClassifySplits(init, before, after);
      assert keys == init + [keys[|keys| - 1]];
    }
  }

  /** Each of `same` and `differ` keeps the order of the keys. */
  lemma {:induction false} ClassifyKeepsOrder<C>(keys: seq<C>, before: C -> seq<Doc>, after: C -> seq<Doc>)
    ensures var (same, differ) := Classify(keys, before, after);
      Subsequence(same, keys) && Subsequence(differ, keys)
  {
    if keys != [] {
      var init := keys[..|keys| - 1];
      ClassifyKeepsOrder(init, before, after);
      var (same, differ) := Classify(keys, before, after);
      var c := keys[|keys| - 1];
      assert keys == init + [c];
      if AreSameArrays(before(c), after(c)) {
        assert same[..|same| - 1] == Classify(init, before, after).0;
        SubsequenceExtend(differ, init, c);
      } else {
        assert differ[..|differ| - 1] == Classify(init, before, after).1;
        SubsequenceExtend(same, init, c);
      }
    }
  }

  /** A subsequence of `y` is a subsequence of `y` extended. */
  lemma SubsequenceExtend<T>(x: seq<T>, y: seq<T>, c: T)
    requires Subsequence(x, y)
    ensures Subsequence(x, y + [c])
  {
    assert (y + [c])[..|y|] == y;
  }

  /**
    The same/differ partition of compareCollectionsAfterAction: a collection is in one of the
    two lists exactly when it was given, never in both, each list has no repeats and keeps the
    order in which the collections were first given.
   */
  lemma ComparePartition<C>(collections: seq<C>, before: C -> seq<Doc>, after: C -> seq<Doc>)
    ensures var (same, differ) := Compare(collections, before, after);
      (forall c :: c in collections <==> c in same || c in differ) &&
      (forall c | c in same :: c !in differ && AreSameArrays(before(c), after(c))) &&
      (forall c | c in differ :: !AreSameArrays(before(c), after(c))) &&
      Distinct(same) && Distinct(differ) &&
      Subsequence(same, Dedup(collections)) && Subsequence(differ, Dedup(collections))
  {
    var keys := Dedup(collections);
    DedupKeepsFirst(collections);
    DedupMembers(collections);
    ClassifySplits(keys, before, after);
    ClassifyKeepsOrder(keys, before, after);
    var (same, differ) := Compare(collections, before, after);
    SubsequenceDistinct(same, keys);
    SubsequenceDistinct(differ, keys);
  }

  /** A subsequence of a list without repeats has none either. */
  lemma {:induction false} SubsequenceDistinct<T>(x: seq<T>, y: seq<T>)
    requires Subsequence(x, y) && Distinct(y)
    ensures Distinct(x) && forall v | v in x :: v in y
    decreases |y|
  {
    if x != [] {
      var yi := y[..|y| - 1];
      assert Distinct(yi);
      if x[|x| - 1] == y[|y| - 1] && Subsequence(x[..|x| - 1], yi) {
        var xi := x[..|x| - 1];
        SubsequenceDistinct(xi, yi);
        assert y[|y| - 1] !in yi;
        assert x == xi + [x[|x| - 1]];
      } else {
        SubsequenceDistinct(x, yi);
      }
    }
  }

  /** An action that changes nothing leaves every collection, once each and in order, in `same`. */
  lemma NoActionAllSame<C>(collections: seq<C>, contents: C -> seq<Doc>)
    requires forall c | c in collections :: UniqueIds(contents(c))
    ensures Compare(collections, contents, contents) == (Dedup(collections), [])
  {
    var keys := Dedup(collections);
    forall c | c in keys ensures AreSameArrays(contents(c), contents(c)) {
      Reflexive(contents(c));
    }
    ClassifyAllSame(keys, contents, contents);
  }

  /** When every key's verdict is "same", Classify puts every key in `same`. */
  lemma {:induction false} ClassifyAllSame<C>(keys: seq<C>, before: C -> seq<Doc>, after: C -> seq<Doc>)
    requires forall c | c in keys :: AreSameArrays(before(c), after(c))
    ensures Classify(keys, before, after) == (keys, [])
  {
    if keys != [] {
      ClassifyAllSame(keys[..|keys| - 1], before, after);
      assert keys == keys[..|keys| - 1] + [keys[|keys| - 1]];
    }
  }

  /**
    An action that changes one collection `u` in a way the rule sees, and no other, makes `u`
    the only entry of `differ`; all other collections are `same`.
   */
  lemma OneCollectionChanged<C>(collections: seq<C>, before: C -> seq<Doc>, after: C -> seq<Doc>, u: C)
    requires u in collections && !AreSameArrays(before(u), after(u))
    requires forall c | c in collections && c != u :: after(c) == before(c) && UniqueIds(before(c))
    ensures var (same, differ) := Compare(collections, before, after);
      differ == [u] && forall c :: c in same <==> c in collections && c != u
  {
    var keys := Dedup(collections);
    DedupMembers(collections);
    DedupKeepsFirst(collections);
    forall c | c in keys && c != u ensures AreSameArrays(before(c), after(c)) {
      Reflexive(before(c));
    }
    ComparePartition(collections, before, after);
    ClassifyOneDiffers(keys, before, after, u);
  }

  /** When `u` is the one key without the "same" verdict, `differ` is exactly `[u]`. */
  lemma {:induction false} ClassifyOneDiffers<C>(keys: seq<C>, before: C -> seq<Doc>, after: C -> seq<Doc>, u: C)
    requires Distinct(keys) && u in keys && !AreSameArrays(before(u), after(u))
    requires forall c | c in keys && c != u :: AreSameArrays(before(c), after(c))
    ensures Classify(keys, before, after).1 == [u]
  {
    var init := keys[..|keys| - 1];
    var c := keys[|keys| - 1];
    assert keys == init + [c];
    assert Distinct(init);
    if c == u {
      assert u !in init;
      ClassifyAllSame(init, before, after);
    } else {
      ClassifyOneDiffers(init, before, after, u);
    }
  }

  /** The Map dumpCollections builds: each collection set to its documents, in listing order. */
  function Snapshot<C>(collections: seq<C>, contents: C -> seq<Doc>): (snapshot: map<C, seq<Doc>>) {
    if collections == [] then map[]
    else
      var last := collections[|collections| - 1];
      Snapshot(collections[..|collections| - 1], contents)[last := contents(last)]
  }

  /** The Map has an entry for exactly the listed collections, each holding that collection's documents. */
  lemma {:induction false} SnapshotEntries<C>(collections: seq<C>, contents: C -> seq<Doc>)
    ensures forall c :: c in Snapshot(collections, contents) <==> c in collections
    ensures forall c | c in Snapshot(collections, contents) :: Snapshot(collections, contents)[c] == contents(c)
  {
    if collections != [] {
      var init := collections[..|collections| - 1];
      SnapshotEntries(init, contents);
      assert collections == init + [collections[|collections| - 1]];
    }
  }

  /** The Map has an entry for a collection exactly when it is listed. */
  lemma {:induction false} SnapshotHas<C>(collections: seq<C>, contents: C -> seq<Doc>, c: C)
    ensures c in Snapshot(collections, contents) <==> c in collections
  {
    if collections != [] {
      var init := collections[..|collections| - 1];
      SnapshotHas(init, contents, c);
      assert collections == init + [collections[|collections| - 1]];
    }
  }

  /** Listing one more collection sets its entry in the Map. */
  lemma SnapshotStep<C>(collections: seq<C>, contents: C -> seq<Doc>, c: C)
    ensures Snapshot(collections + [c], contents) == Snapshot(collections, contents)[c := contents(c)]
  {
    assert (collections + [c])[..|collections|] == collections;
  }

  /** dumpCollections: the Map from each collection to its documents, and the Map's key order. */
  method DumpCollections<C(==)>(collections: seq<C>, contents: C -> seq<Doc>)
    returns (keys: seq<C>, snapshot: map<C, seq<Doc>>)
    ensures keys == Dedup(collections)
    ensures forall c :: c in snapshot <==> c in collections
    ensures forall c | c in snapshot :: snapshot[c] == contents(c)
  {
    keys, snapshot := [], map[];
    for i := 0 to |collections|
      invariant keys == Dedup(collections[..i])
      invariant snapshot == Snapshot(collections[..i], contents)
    {
      var c := collections[i];
      ghost var prefix := collections[..i];
      assert collections[..i + 1] == prefix + [c];
      DedupStep(prefix, c);
      SnapshotStep(prefix, contents, c);
      SnapshotHas(prefix, contents, c);
      if c !in snapshot {
        keys := keys + [c];
      }
      snapshot := snapshot[c := contents(c)];
    }
    assert collections[..|collections|] == collections;
    SnapshotEntries(collections, contents);
  }

  /** compareCollectionsAfterAction: dump, act, dump again, and sort each collection into `same` or `differ`. */
  method CompareCollectionsAfterAction<C(==)>(collections: seq<C>, contentsBefore: C -> seq<Doc>, contentsAfter: C -> seq<Doc>)
    returns (same: seq<C>, differ: seq<C>)
    ensures (same, differ) == Compare(collections, contentsBefore, contentsAfter)
  {
    var keys, before := DumpCollections(collections, contentsBefore);
    var _, after := DumpCollections(collections, contentsAfter);
    same, differ := [], [];
    for i := 0 to |keys|
      invariant (same, differ) == Classify(keys[..i], contentsBefore, contentsAfter)
    {
      var c := keys[i];
      assert c in collections;
      assert before[c] == contentsBefore(c) && after[c] == contentsAfter(c);
      ghost var prefix := keys[..i + 1];
      assert prefix[..i] == keys[..i] && prefix[i] == c;
      if AreSameArrays(before[c], after[c]) {
        same := same + [c];
      } else {
        differ := differ + [c];
      }
    }
    assert keys[..|keys|] == keys;
  }
}
