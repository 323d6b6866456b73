/** Sorting neighbours by their depth strings. */
module Entries {
  import opened Options
  import opened Sequences
  import opened DepthStrings
  import opened Peeling

  /** A neighbour and the string its depth_string field points to. */
  datatype Entry = Entry(region: nat, depthString: Option<Chars>)

  /** The comparison handed to qsort: heavy strings first, missing strings last. */
  function DepthStringCmp(a: Option<Chars>, b: Option<Chars>): int {
    if a.None? then (if b.None? then 0 else 1)
    else if b.None? then -1
    else -Compare(a.value, b.value)
  }

  ghost predicate Ordered(es: seq<Entry>) {
    forall i, j | 0 <= i < j < |es| :: DepthStringCmp(es[i].depthString, es[j].depthString) <= 0
  }

  lemma CmpTransitive(a: Option<Chars>, b: Option<Chars>, c: Option<Chars>)
    requires DepthStringCmp(a, b) <= 0 && DepthStringCmp(b, c) <= 0
    ensures DepthStringCmp(a, c) <= 0
  {
    if a.Some? && b.Some? && c.Some? { CompareTransitive(a.value, b.value, c.value); }
  }

  lemma CmpTotal(a: Option<Chars>, b: Option<Chars>)
    ensures DepthStringCmp(a, b) > 0 ==> DepthStringCmp(b, a) <= 0
  {
    if a.Some? && b.Some? { CompareAntisymmetric(a.value, b.value); }
  }

  /** Stands in for qsort: some permutation in the order of the comparison. */
  method SortEntries(es: seq<Entry>) returns (sorted: seq<Entry>)
    ensures Ordered(sorted) && multiset(sorted) == multiset(es) && |sorted| == |es|
  {
    hide DepthStringCmp;
    sorted := [];
    var i := 0;
    assert es[..0] == [];
    while i < |es|
      invariant i <= |es| && Ordered(sorted) && multiset(sorted) == multiset(es[..i]) && |sorted| == i
    {
      var k := Position(sorted, es[i]);
      PutInOrder(sorted, es[i], k);
      PutIn(sorted, es[i], k);
      assert es[..i + 1] == es[..i] + [es[i]];
      sorted := sorted[..k] + [es[i]] + sorted[k..];
      i := i + 1;
    }
    assert es[..i] == es;
  }

  /** Where the entry belongs: behind the last entry that is not lighter. */
  method Position(sorted: seq<Entry>, e: Entry) returns (k: nat)
    ensures k <= |sorted|
    ensures k > 0 ==> DepthStringCmp(sorted[k - 1].depthString, e.depthString) <= 0
    ensures forall j | k <= j < |sorted| :: DepthStringCmp(sorted[j].depthString, e.depthString) > 0
  {
    k := |sorted|;
    while k > 0 && DepthStringCmp(sorted[k - 1].depthString, e.depthString) > 0
      invariant k <= |sorted|
      invariant forall j | k <= j < |sorted| :: DepthStringCmp(sorted[j].depthString, e.depthString) > 0
    {
      k := k - 1;
    }
  }

  lemma PutIn(es: seq<Entry>, e: Entry, k: nat)
    requires k <= |es|
    ensures multiset(es[..k] + [e] + es[k..]) == multiset(es) + multiset{e}
  {
    assert es == es[..k] + es[k..];
  }

  lemma PutInOrder(es: seq<Entry>, e: Entry, k: nat)
    requires Ordered(es) && k <= |es|
    requires k > 0 ==> DepthStringCmp(es[k - 1].depthString, e.depthString) <= 0
    requires forall j | k <= j < |es| :: DepthStringCmp(es[j].depthString, e.depthString) > 0
    ensures Ordered(es[..k] + [e] + es[k..])
  {
    hide DepthStringCmp;
    var out := es[..k] + [e] + es[k..];
    forall i, j | 0 <= i < j < |out| ensures DepthStringCmp(out[i].depthString, out[j].depthString) <= 0 {
      if j == k {
        if i < k - 1 { CmpTransitive(es[i].depthString, es[k - 1].depthString, e.depthString); }
      } else if i == k {
        CmpTotal(es[j - 1].depthString, e.depthString);
      } else {
        assert out[i] == es[if i < k then i else i - 1] && out[j] == es[if j < k then j else j - 1];
      }
    }
  }

  function RegionsOf(es: seq<Entry>): seq<nat> {
    if es == [] then [] else [es[0].region] + RegionsOf(es[1..])
  }

  function SomesOf(e: Entry): seq<Chars> {
    if e.depthString.Some? then [e.depthString.value] else []
  }

  /** The strings that are there, in order. */
  function Somes(es: seq<Entry>): seq<Chars> {
    if es == [] then []
    else SomesOf(es[0]) + Somes(es[1..])
  }

  lemma {:induction false} SomesSnoc(es: seq<Entry>, e: Entry)
    ensures Somes(es + [e]) == Somes(es) + SomesOf(e)
    ensures RegionsOf(es + [e]) == RegionsOf(es) + [e.region]
  {
    hide SomesOf;
    AppendTail(es, [e]);
    if es == [] {
      assert [e][1..] == [];
    } else {
      SomesSnoc(es[1..], e);
    }
  }

  lemma SomesCons(es: seq<Entry>)
    ensures es == [] ==> Somes(es) == [] && RegionsOf(es) == []
    ensures es != [] ==>
              Somes(es) == SomesOf(es[0]) + Somes(es[1..]) && RegionsOf(es) == [es[0].region] + RegionsOf(es[1..])
  {
  }

  lemma {:induction false} SomesAppend(a: seq<Entry>, b: seq<Entry>)
    ensures Somes(a + b) == Somes(a) + Somes(b) && RegionsOf(a + b) == RegionsOf(a) + RegionsOf(b)
  {
    hide Somes, SomesOf, RegionsOf;
    AppendTail(a, b);
    SomesCons(a);
    if a != [] {
      SomesCons(a + b);
      SomesAppend(a[1..], b);
      Associates(SomesOf(a[0]), Somes(a[1..]), Somes(b));
      Associates([a[0].region], RegionsOf(a[1..]), RegionsOf(b));
    } else {
      AppendTail([], Somes(b));
      AppendTail([], RegionsOf(b));
    }
  }

  lemma SomesSplit(es: seq<Entry>, j: nat)
    requires j < |es|
    ensures multiset(Somes(es)) == multiset(Somes(Without(es, j))) + multiset(SomesOf(es[j]))
    ensures multiset(RegionsOf(es)) == multiset(RegionsOf(Without(es, j))) + multiset{es[j].region}
  {
    SomesParts(es, j);
    hide *;
    Middle(Somes(es[..j]), SomesOf(es[j]), Somes(es[j + 1..]));
    Middle(RegionsOf(es[..j]), [es[j].region], RegionsOf(es[j + 1..]));
  }

  lemma SomesParts(es: seq<Entry>, j: nat)
    requires j < |es|
    ensures Somes(es) == Somes(es[..j]) + SomesOf(es[j]) + Somes(es[j + 1..])
    ensures Somes(Without(es, j)) == Somes(es[..j]) + Somes(es[j + 1..])
    ensures RegionsOf(es) == RegionsOf(es[..j]) + [es[j].region] + RegionsOf(es[j + 1..])
    ensures RegionsOf(Without(es, j)) == RegionsOf(es[..j]) + RegionsOf(es[j + 1..])
  {
    hide *;
    SplitAt(es, j);
    SomesAppend(es[..j] + [es[j]], es[j + 1..]);
    SomesSnoc(es[..j], es[j]);
    SomesAppend(es[..j], es[j + 1..]);
  }

  lemma Middle<T>(x: seq<T>, y: seq<T>, z: seq<T>)
    ensures multiset(x + y + z) == multiset(x + z) + multiset(y)
  {
  }

  /** Reordering entries keeps their regions and strings. */
  lemma {:induction false} SomesPermuted(es: seq<Entry>, fs: seq<Entry>)
    requires multiset(es) == multiset(fs)
    ensures multiset(Somes(es)) == multiset(Somes(fs)) && multiset(RegionsOf(es)) == multiset(RegionsOf(fs))
    decreases |es|
  {
    if es == [] {
      assert |multiset(fs)| == |fs|;
    } else {
      assert es[0] in multiset(fs);
      var j :| 0 <= j < |fs| && fs[j] == es[0];
      HeadCut(es);
      WithoutMultiset(fs, j);
      SomesPermuted(es[1..], Without(fs, j));
      SomesSplit(fs, j);
    }
  }

  lemma {:induction false} SomesHeavy(es: seq<Entry>)
    requires Ordered(es)
    ensures LeftHeavy(Somes(es))
    ensures forall s | s in Somes(es) :: exists i | 0 <= i < |es| :: es[i].depthString == Some(s)
  {
    if es == [] {
    } else {
      var rest := es[1..];
      assert forall i | 0 <= i < |rest| :: rest[i] == es[i + 1];
      SomesHeavy(rest);
      var ss := Somes(rest);
      if es[0].depthString.Some? {
        forall j | 0 <= j < |ss| ensures Compare(es[0].depthString.value, ss[j]) >= 0 {
          assert ss[j] in ss;
          var i :| 0 <= i < |rest| && rest[i].depthString == Some(ss[j]);
          assert DepthStringCmp(es[0].depthString, es[i + 1].depthString) <= 0;
        }
      }
    }
  }

  /** What the sorted entries spell does not depend on their order before. */
  lemma SortedConcat(es: seq<Entry>, sorted: seq<Entry>, ss: seq<Chars>)
    requires Ordered(sorted) && multiset(sorted) == multiset(es) && multiset(Somes(es)) == multiset(ss)
    ensures Concat(Somes(sorted)) == Concat(Sorted(ss))
  {
    SomesPermuted(sorted, es);
    SomesHeavy(sorted);
    SortedSorts(ss);
    LeftHeavyUnique(Somes(sorted), Sorted(ss));
  }

  // ----- the strings of the children

  ghost function KidStrings(tr: Trace, ks: seq<nat>, depth: nat): seq<Chars>
    requires HasTrees(tr, ks)
  {
    Strings(Trees(tr, ks), depth)
  }

  lemma KidStringsSnoc(tr: Trace, ks: seq<nat>, c: nat, depth: nat)
    requires HasTrees(tr, ks) && c in tr.tree
    ensures HasTrees(tr, ks + [c])
    ensures KidStrings(tr, ks + [c], depth) == KidStrings(tr, ks, depth) + [DepthString(tr.tree[c], depth)]
  {
    var ts := Trees(tr, ks);
    assert Trees(tr, ks + [c]) == ts + [tr.tree[c]];
    var a, b := Strings(ts + [tr.tree[c]], depth), Strings(ts, depth) + [DepthString(tr.tree[c], depth)];
    forall i | 0 <= i < |a| ensures a[i] == b[i] {
      StringsAt(ts + [tr.tree[c]], depth, i);
      if i < |ts| { StringsAt(ts, depth, i); }
    }
  }

  lemma {:induction false} KidsSnoc(list: seq<nat>, c: nat, p: Option<nat>)
    ensures Kids(list + [c], p) == Kids(list, p) + if Some(c) == p then [] else [c]
  {
    if list == [] {
      assert [] + [c] == [c] && [c][1..] == [];
    } else {
      KidsSnoc(list[1..], c, p);
      assert (list + [c])[0] == list[0] && (list + [c])[1..] == list[1..] + [c];
      Associates(if Some(list[0]) == p then [] else [list[0]], Kids(list[1..], p), if Some(c) == p then [] else [c]);
    }
  }

  lemma {:induction false} KidsCounts(list: seq<nat>, p: Option<nat>)
    ensures forall c :: multiset(Kids(list, p))[c] == if Some(c) == p then 0 else multiset(list)[c]
  {
    if list == [] {
    } else {
      KidsCounts(list[1..], p);
      assert list == [list[0]] + list[1..];
    }
  }

  lemma KidsPermuted(a: seq<nat>, b: seq<nat>, p: Option<nat>)
    requires multiset(a) == multiset(b)
    ensures multiset(Kids(a, p)) == multiset(Kids(b, p))
  {
    KidsCounts(a, p);
    KidsCounts(b, p);
  }

  lemma {:induction false} KidStringsPermuted(tr: Trace, a: seq<nat>, b: seq<nat>, depth: nat)
    requires HasTrees(tr, a) && HasTrees(tr, b) && multiset(a) == multiset(b)
    ensures multiset(KidStrings(tr, a, depth)) == multiset(KidStrings(tr, b, depth))
    decreases |a|
  {
    if a == [] {
      assert |multiset(b)| == |b|;
    } else {
      assert a[0] in multiset(b);
      var j :| 0 <= j < |b| && b[j] == a[0];
      HeadCut(a);
      WithoutMultiset(b, j);
      TreesWithout(tr, a, 0);
      TreesWithout(tr, b, j);
      assert Without(a, 0) == a[1..];
      hide HasTrees, Without, Trees;
      KidStringsPermuted(tr, a[1..], Without(b, j), depth);
      StringsExchanged(Trees(tr, a), Trees(tr, b), depth, 0, j);
    }
  }

  lemma TreesWithout(tr: Trace, ks: seq<nat>, i: nat)
    requires HasTrees(tr, ks) && i < |ks|
    ensures HasTrees(tr, Without(ks, i)) && Trees(tr, Without(ks, i)) == Without(Trees(tr, ks), i)
    ensures Trees(tr, ks)[i] == tr.tree[ks[i]]
  {
  }
}
