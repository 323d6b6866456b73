/** The table of known trees, treeidmap.cpp. */
module TreeIdMaps {
  import opened DepthStrings
  import opened Sequences

  const INVALID_TREE_ID: int := -1
  const WHITE_PREFIX: nat := 119  // 'w'
  const BLACK_PREFIX: nat := 98   // 'b'

  /** m is the largest depth in the string, whose first character is the colour. */
  ghost predicate IsMaximumDepth(s: Chars, m: int) {
    && 0 <= m && (forall i | 1 <= i < |s| :: s[i] - ZERO <= m)
    && (m == 0 || exists i | 1 <= i < |s| :: s[i] - ZERO == m)
  }

  lemma MaximumDepthUnique(s: Chars, m: int, n: int)
    requires IsMaximumDepth(s, m) && IsMaximumDepth(s, n)
    ensures m == n
  {
  }

  method FindMaximumTreeDepth(s: Chars) returns (m: int)
    ensures IsMaximumDepth(s, m)
  {
    m := 0;
    var i := 1;
    while i < |s|
      invariant 1 <= i && (i <= |s| || i == 1)
      invariant 0 <= m && forall j | 1 <= j < i && j < |s| :: s[j] - ZERO <= m
      invariant m == 0 || exists j | 1 <= j < i && j < |s| :: s[j] - ZERO == m
    {
      var d := s[i] - ZERO;
      if d > m {
        m := d;
      }
      i := i + 1;
    }
  }

  /** The index of the first occurrence of s. */
  ghost predicate IsFirst(trees: seq<Chars>, s: Chars, j: int) {
    && 0 <= j < |trees| && trees[j] == s
    && forall k | 0 <= k < j :: trees[k] != s
  }

  /** A colour prefix is prepended to strings of a tree file that have none. */
  function WithPrefix(s: Chars): Chars {
    if s != [] && (s[0] == WHITE_PREFIX || s[0] == BLACK_PREFIX) then s else [WHITE_PREFIX] + s
  }

  /** The table that the words of a tree file spell. */
  ghost function TreesOf(words: seq<Chars>): seq<Chars> {
    if words == [] then []
    else
      var last := words[|words| - 1];
      TreesOf(words[..|words| - 1]) + if last == [] then [] else [WithPrefix(last)]
  }

  lemma {:induction false} TreesHavePrefixes(words: seq<Chars>)
    ensures forall s | s in TreesOf(words) :: s != [] && (s[0] == WHITE_PREFIX || s[0] == BLACK_PREFIX)
    ensures |TreesOf(words)| <= |words|
  {
    if words == [] {
    } else {
      TreesHavePrefixes(words[..|words| - 1]);
    }
  }

  /** The words that are not empty. */
  ghost function NonEmpty(words: seq<Chars>): seq<Chars> {
    if words == [] then []
    else (if words[0] == [] then [] else [words[0]]) + NonEmpty(words[1..])
  }

  lemma {:induction false} NonEmptySnoc(words: seq<Chars>, w: Chars)
    ensures NonEmpty(words + [w]) == NonEmpty(words) + if w == [] then [] else [w]
  {
    AppendTail(words, [w]);
    if words == [] {
      assert [w][1..] == [];
    } else {
      NonEmptySnoc(words[1..], w);
    }
  }

  /** The table has one string for every word that is not empty, in their order: the word itself
      if it begins with 'w' or 'b', otherwise the word behind a 'w'. */
  lemma {:induction false} TreesFromWords(words: seq<Chars>)
    ensures |TreesOf(words)| == |NonEmpty(words)|
    ensures forall i | 0 <= i < |TreesOf(words)| ::
              var word := NonEmpty(words)[i];
              word != [] && TreesOf(words)[i] == if word[0] == 119 || word[0] == 98 then word else [119] + word
  {
    if words == [] {
    } else {
      var init, last := words[..|words| - 1], words[|words| - 1];
      assert words == init + [last];
      TreesFromWords(init);
      NonEmptySnoc(init, last);
    }
  }

  ghost predicate HasIds(ids: map<Chars, int>, trees: seq<Chars>) {
    && (forall s :: s in ids <==> s in trees)
    && (forall s | s in ids :: IsFirst(trees, s, ids[s]))
  }

  /** The window just covers the node counts of the table. */
  ghost predicate CoversCounts(lo: int, hi: int, trees: seq<Chars>) {
    && (forall s | s in trees :: lo <= |s| - 1 <= hi)
    && (lo == 0x7FFF || exists s | s in trees :: |s| - 1 == lo)
    && (hi == 0 || exists s | s in trees :: |s| - 1 == hi)
  }

  /** The window just covers the depths of the table. */
  ghost predicate CoversDepths(lo: int, hi: int, trees: seq<Chars>) {
    && (forall s, m | s in trees && IsMaximumDepth(s, m) :: lo <= m <= hi)
    && (lo == 0x7FFF || exists s | s in trees :: IsMaximumDepth(s, lo))
    && (hi == 0 || exists s | s in trees :: IsMaximumDepth(s, hi))
  }

  lemma IdsAdded(ids: map<Chars, int>, trees: seq<Chars>, s: Chars)
    requires HasIds(ids, trees)
    ensures HasIds(if s in ids then ids else ids[s := |trees|], trees + [s])
  {
    var after := trees + [s];
    assert forall x :: x in after <==> x in trees || x == s;
    assert after[|trees|] == s;
    forall x | x in ids ensures IsFirst(after, x, ids[x]) {
      assert IsFirst(trees, x, ids[x]);
    }
  }

  lemma CountAdded(lo: int, hi: int, lo': int, hi': int, trees: seq<Chars>, s: Chars)
    requires CoversCounts(lo, hi, trees)
    requires lo' == if |s| - 1 < lo then |s| - 1 else lo
    requires hi' == if |s| - 1 > hi then |s| - 1 else hi
    ensures CoversCounts(lo', hi', trees + [s])
  {
    var after := trees + [s];
    assert s in after;
    assert forall x | x in trees :: x in after;
  }

  lemma DepthAdded(lo: int, hi: int, lo': int, hi': int, trees: seq<Chars>, s: Chars, depth: int)
    requires CoversDepths(lo, hi, trees) && IsMaximumDepth(s, depth)
    requires lo' == if depth < lo then depth else lo
    requires hi' == if depth > hi then depth else hi
    ensures CoversDepths(lo', hi', trees + [s])
  {
    var after := trees + [s];
    assert s in after;
    assert forall x | x in trees :: x in after;
    forall m | IsMaximumDepth(s, m) ensures m == depth {
      MaximumDepthUnique(s, m, depth);
    }
  }

  lemma DistinctTrees(ids: map<Chars, int>, trees: seq<Chars>)
    requires HasIds(ids, trees)
    ensures |ids| == |set s | s in trees|
  {
    assert ids.Keys == set s | s in trees;
    assert |ids| == |ids.Keys|;
  }

  lemma IdsKnown(ids: map<Chars, int>, trees: seq<Chars>, s: Chars)
    requires HasIds(ids, trees) && s in ids
    ensures s in trees
  {
  }

  lemma KnownAdded(lo: int, hi: int, ld: int, hd: int, trees: seq<Chars>, s: Chars)
    requires CoversCounts(lo, hi, trees) && CoversDepths(ld, hd, trees) && s in trees
    ensures CoversCounts(lo, hi, trees + [s]) && CoversDepths(ld, hd, trees + [s])
  {
    assert forall x :: x in trees + [s] <==> x in trees;
  }

  lemma EmptyTable()
    ensures HasIds(map[], []) && CoversCounts(0x7FFF, 0, []) && CoversDepths(0x7FFF, 0, [])
  {
  }

  class TreeIdMap {
    var ids: map<Chars, int>
    var treeCount: nat
    var minNodeCount: int
    var maxNodeCount: int
    var minDepth: int
    var maxDepth: int
    var maxAdjacencies: int

    /** Every string of the table has its first index, and the windows just cover the
        node counts and depths of the table. */
    ghost predicate Holds(trees: seq<Chars>)
      reads this
    {
      && HasIds(ids, trees)
      && CoversCounts(minNodeCount, maxNodeCount, trees)
      && CoversDepths(minDepth, maxDepth, trees)
    }

    /** Builds the table; an id is the position in the list, also after duplicates. */
    constructor (trees: seq<Chars>)
      ensures Holds(trees) && maxAdjacencies == maxNodeCount && treeCount == |set s | s in trees|
    {
      hide HasIds, CoversCounts, CoversDepths;
      EmptyTable();
      ids := map[];
      minNodeCount, maxNodeCount := 0x7FFF, 0;
      minDepth, maxDepth := 0x7FFF, 0;
      maxAdjacencies, treeCount := 0, 0;
      new;
      var id := 0;
      assert trees[..0] == [];
      while id < |trees|
        invariant id <= |trees| && Holds(trees[..id])
      {
        assert trees[..id + 1] == trees[..id] + [trees[id]];
        Add(trees[id], id, trees[..id]);
        id := id + 1;
      }
      assert trees[..id] == trees;
      maxAdjacencies := maxNodeCount;
      treeCount := |ids|;
      DistinctTrees(ids, trees);
    }

    /** Builds the table from the words of a tree file; ids count the words that are not empty. */
    constructor FromFile(words: seq<Chars>)
      ensures Holds(TreesOf(words)) && maxAdjacencies == maxNodeCount && treeCount == |set s | s in TreesOf(words)|
    {
      hide HasIds, CoversCounts, CoversDepths;
      EmptyTable();
      ids := map[];
      minNodeCount, maxNodeCount := 0x7FFF, 0;
      minDepth, maxDepth := 0x7FFF, 0;
      maxAdjacencies, treeCount := 0, 0;
      new;
      var id := 0;
      var i := 0;
      assert words[..0] == [];
      while i < |words|
        invariant 0 <= i <= |words| && Holds(TreesOf(words[..i])) && id == |TreesOf(words[..i])|
      {
        assert words[..i + 1][..i] == words[..i];
        if words[i] != [] {
          Add(WithPrefix(words[i]), id, TreesOf(words[..i]));
          id := id + 1;
        } else {
          assert TreesOf(words[..i]) + [] == TreesOf(words[..i]);
        }
        i := i + 1;
      }
      assert words[..i] == words;
      maxAdjacencies := maxNodeCount;
      treeCount := |ids|;
      DistinctTrees(ids, TreesOf(words));
    }

    /** Inserts the string s at position id, unless the table has it already. */
    method Add(s: Chars, id: nat, ghost before: seq<Chars>)
      requires Holds(before) && id == |before|
      modifies this
      ensures Holds(before + [s])
    {
      hide HasIds, CoversCounts, CoversDepths;
      IdsAdded(ids, before, s);
      if s !in ids {
        ids := ids[s := id];
        var count := |s| - 1;
        ghost var lo, hi, ld, hd := minNodeCount, maxNodeCount, minDepth, maxDepth;
        if count < minNodeCount {
          minNodeCount := count;
        }
        if count > maxNodeCount {
          maxNodeCount := count;
        }
        CountAdded(lo, hi, minNodeCount, maxNodeCount, before, s);
        var depth := FindMaximumTreeDepth(s);
        if depth < minDepth {
          minDepth := depth;
        }
        if depth > maxDepth {
          maxDepth := depth;
        }
        DepthAdded(ld, hd, minDepth, maxDepth, before, s, depth);
      } else {
        IdsKnown(ids, before, s);
        KnownAdded(minNodeCount, maxNodeCount, minDepth, maxDepth, before, s);
      }
    }

    /** The id of a coloured depth string, or INVALID_TREE_ID. */
    method TreestringToId(s: Chars, ghost trees: seq<Chars>) returns (id: int)
      requires Holds(trees)
      ensures s in trees ==> IsFirst(trees, s, id)
      ensures s !in trees ==> id == INVALID_TREE_ID
    {
      if s in ids {
        id := ids[s];
      } else {
        id := INVALID_TREE_ID;
      }
    }
  }

  // ----- the strings of trees

  lemma {:induction false} ConcatLength(ss: seq<Chars>, rr: seq<Chars>)
    requires multiset(ss) == multiset(rr)
    ensures |Concat(ss)| == |Concat(rr)|
  {
    if ss == [] {
      assert |multiset(rr)| == |rr|;
    } else {
      assert ss[0] in multiset(rr);
      var j :| 0 <= j < |rr| && rr[j] == ss[0];
      HeadCut(ss);
      WithoutMultiset(rr, j);
      ConcatLength(ss[1..], Without(rr, j));
      ConcatSplit(rr, j);
    }
  }

  lemma {:induction false} ConcatSplit(ss: seq<Chars>, j: nat)
    requires j < |ss|
    ensures |Concat(ss)| == |ss[j]| + |Concat(Without(ss, j))|
  {
    if j == 0 {
      assert Without(ss, 0) == ss[1..];
    } else {
      assert Without(ss, j) == [ss[0]] + Without(ss[1..], j - 1);
      ConcatSplit(ss[1..], j - 1);
    }
  }

  /** A depth string has one character for every node. */
  lemma {:induction false} DepthStringLength(t: Tree, depth: nat)
    ensures |DepthString(t, depth)| == Size(t)
    decreases t, 1
  {
    var ss := Strings(t.children, depth + 1);
    SortedSorts(ss);
    ConcatLength(ss, Sorted(ss));
    StringsLength(t.children, depth + 1);
  }

  lemma {:induction false} StringsLength(ts: seq<Tree>, depth: nat)
    ensures |Concat(Strings(ts, depth))| == SizeOf(ts)
    decreases ts, 0
  {
    if ts == [] {
    } else {
      DepthStringLength(ts[0], depth);
      StringsLength(ts[1..], depth);
    }
  }

  /** m is the largest character. */
  ghost predicate IsTop(s: Chars, m: nat) {
    m in s && forall c | c in s :: c <= m
  }

  lemma {:induction false} ConcatMembers(ss: seq<Chars>)
    ensures forall c :: c in Concat(ss) <==> exists s | s in ss :: c in s
  {
    if ss == [] {
    } else {
      ConcatMembers(ss[1..]);
      assert ss == [ss[0]] + ss[1..];
      forall c ensures c in Concat(ss) <==> exists s | s in ss :: c in s {
        if c in ss[0] { assert ss[0] in ss; }
        if s :| s in ss[1..] && c in s { assert s in ss; }
      }
    }
  }

  lemma SortedMembers(ss: seq<Chars>)
    ensures forall c :: c in Concat(Sorted(ss)) <==> exists s | s in ss :: c in s
  {
    SortedSorts(ss);
    ConcatMembers(Sorted(ss));
    forall s ensures s in Sorted(ss) <==> s in ss {
      assert s in multiset(Sorted(ss)) <==> s in multiset(ss);
    }
  }

  /** The largest character of a depth string is that of the deepest level. */
  lemma {:induction false} DepthStringTop(t: Tree, depth: nat)
    ensures IsTop(DepthString(t, depth), ZERO + depth + Height(t))
    decreases t, 1
  {
    hide Sorted, Concat, Strings;
    var ss := Strings(t.children, depth + 1);
    SortedMembers(ss);
    StringsTop(t.children, depth + 1);
    var rest := Concat(Sorted(ss));
    assert DepthString(t, depth) == [ZERO + depth] + rest;
    if t.children != [] {
      var s :| s in ss && ZERO + depth + 1 + HeightOf(t.children) - 1 in s;
      assert ZERO + depth + Height(t) in rest;
    }
  }

  lemma {:induction false} StringsTop(ts: seq<Tree>, depth: nat)
    ensures forall s, c | s in Strings(ts, depth) && c in s :: c + 1 <= ZERO + depth + HeightOf(ts)
    ensures ts != [] ==> exists s | s in Strings(ts, depth) :: ZERO + depth + HeightOf(ts) - 1 in s
    decreases ts, 0
  {
    if ts != [] {
      var ss := Strings(ts, depth);
      assert ss == [ss[0]] + Strings(ts[1..], depth);
      DepthStringTop(ts[0], depth);
      StringsTop(ts[1..], depth);
      if Height(ts[0]) + 1 > HeightOf(ts[1..]) {
        assert ss[0] in ss;
      } else if ts[1..] != [] {
        var s :| s in Strings(ts[1..], depth) && ZERO + depth + HeightOf(ts[1..]) - 1 in s;
        assert s in ss;
      }
    }
  }

  /** The coloured depth string of a tree: what the recogniser looks up. */
  ghost function Coloured(colour: nat, t: Tree): Chars {
    [if colour != 0 then WHITE_PREFIX else BLACK_PREFIX] + DepthString(t, 0)
  }

  /** The string of a tree begins with 'b' or 'w' and a '0'. */
  lemma ColouredInNumbers(colour: nat, t: Tree)
    ensures |Coloured(colour, t)| >= 2 && Coloured(colour, t)[1] == 48
    ensures Coloured(colour, t)[0] == if colour == 0 then 98 else 119
  {
  }

  lemma ColouredMeasures(colour: nat, t: Tree)
    ensures |Coloured(colour, t)| == Size(t) + 1
    ensures IsMaximumDepth(Coloured(colour, t), Height(t))
  {
    DepthStringLength(t, 0);
    DepthStringTop(t, 0);
    var s := Coloured(colour, t);
    assert s[1..] == DepthString(t, 0);
    forall i | 1 <= i < |s| ensures s[i] - ZERO <= Height(t) {
      assert s[i] == DepthString(t, 0)[i - 1];
      assert s[i] in DepthString(t, 0);
    }
    var k :| 0 <= k < |DepthString(t, 0)| && DepthString(t, 0)[k] == ZERO + Height(t);
    assert s[k + 1] - ZERO == Height(t);
  }
}
