/** Left-heavy depth strings: a canonical form of unordered rooted trees. */
module DepthStrings {
  import opened Sequences

  datatype Tree = Node(children: seq<Tree>)

  /** A character string without its terminating zero. */
  type Chars = seq<nat>

  const ZERO: nat := 48  // '0'

  ghost function Size(t: Tree): nat
    decreases t, 1
  {
    1 + SizeOf(t.children)
  }

  ghost function SizeOf(ts: seq<Tree>): nat
    decreases ts, 0
  {
    if ts == [] then 0 else Size(ts[0]) + SizeOf(ts[1..])
  }

  /** The length of the longest path from the root to a leaf. */
  ghost function Height(t: Tree): nat
    decreases t, 1
  {
    HeightOf(t.children)
  }

  ghost function HeightOf(ts: seq<Tree>): nat
    decreases ts, 0
  {
    if ts == [] then 0
    else
      var h, k := Height(ts[0]) + 1, HeightOf(ts[1..]);
      if h > k then h else k
  }

  // ----- unordered trees

  /** The trees are equal up to the order of the children of their nodes. */
  ghost predicate Isomorphic(t: Tree, u: Tree)
    decreases t, 1
  {
    Matched(t.children, u.children)
  }

  /** The trees of the two lists can be paired off so that partners are isomorphic. */
  ghost predicate Matched(ts: seq<Tree>, us: seq<Tree>)
    decreases ts, 0
  {
    if ts == [] then us == []
    else exists j | 0 <= j < |us| :: Isomorphic(ts[0], us[j]) && Matched(ts[1..], Without(us, j))
  }

  // ----- strings in the order of strcmp

  /** The sign of strcmp. */
  function Compare(s: Chars, t: Chars): (c: int)
    ensures -1 <= c <= 1
    ensures c == 0 <==> s == t
  {
    if s == [] && t == [] then 0
    else if s == [] then -1
    else if t == [] then 1
    else if s[0] < t[0] then -1
    else if s[0] > t[0] then 1
    else
      assert s == [s[0]] + s[1..] && t == [t[0]] + t[1..];
      Compare(s[1..], t[1..])
  }

  lemma {:induction false} CompareAntisymmetric(s: Chars, t: Chars)
    ensures Compare(s, t) == -Compare(t, s)
  {
    if s == [] || t == [] || s[0] != t[0] {
    } else {
      CompareAntisymmetric(s[1..], t[1..]);
    }
  }

  lemma {:induction false} CompareTransitive(s: Chars, t: Chars, u: Chars)
    requires Compare(s, t) >= 0 && Compare(t, u) >= 0
    ensures Compare(s, u) >= 0
  {
    if s == [] || t == [] || u == [] || s[0] != t[0] || t[0] != u[0] {
    } else {
      CompareTransitive(s[1..], t[1..], u[1..]);
    }
  }

  /** s comes before t in the dictionary: at the first place where they differ s ends, or has the
      smaller character. */
  ghost predicate Precedes(s: Chars, t: Chars) {
    exists k | 0 <= k <= |s| && k <= |t| :: s[..k] == t[..k] && (k == |s| < |t| || (k < |s| && k < |t| && s[k] < t[k]))
  }

  lemma CompareIsDictionary(s: Chars, t: Chars)
    ensures Compare(s, t) < 0 <==> Precedes(s, t)
    ensures Compare(s, t) > 0 <==> Precedes(t, s)
  {
    CompareAntisymmetric(s, t);
    if Compare(s, t) < 0 { CompareFinds(s, t); }
    if Compare(t, s) < 0 { CompareFinds(t, s); }
    if Precedes(s, t) { CompareRespects(s, t); }
    if Precedes(t, s) { CompareRespects(t, s); }
  }

  lemma {:induction false} CompareFinds(s: Chars, t: Chars)
    requires Compare(s, t) < 0
    ensures Precedes(s, t)
  {
    if s == [] || s[0] < t[0] {
      assert s[..0] == t[..0];
    } else {
      CompareFinds(s[1..], t[1..]);
      var k :| && 0 <= k <= |s[1..]| && k <= |t[1..]| && s[1..][..k] == t[1..][..k]
               && (k == |s[1..]| < |t[1..]| || (k < |s[1..]| && k < |t[1..]| && s[1..][k] < t[1..][k]));
      assert s[..k + 1] == [s[0]] + s[1..][..k] && t[..k + 1] == [t[0]] + t[1..][..k];
    }
  }

  lemma {:induction false} CompareRespects(s: Chars, t: Chars)
    requires Precedes(s, t)
    ensures Compare(s, t) < 0
  {
    var k :| && 0 <= k <= |s| && k <= |t| && s[..k] == t[..k]
             && (k == |s| < |t| || (k < |s| && k < |t| && s[k] < t[k]));
    if k == 0 {
    } else {
      assert s[..k][0] == t[..k][0];
      assert s[1..][..k - 1] == s[..k][1..] && t[1..][..k - 1] == t[..k][1..];
      CompareRespects(s[1..], t[1..]);
    }
  }

  /** Heaviest string first. */
  ghost predicate LeftHeavy(ss: seq<Chars>) {
    forall i, j | 0 <= i < j < |ss| :: Compare(ss[i], ss[j]) >= 0
  }

  lemma HeaviestAgree(a: seq<Chars>, b: seq<Chars>)
    requires LeftHeavy(a) && LeftHeavy(b) && multiset(a) == multiset(b) && a != [] && b != []
    ensures a[0] == b[0]
  {
    hide Compare;
    assert a[0] in multiset(b) && b[0] in multiset(a);
    var i :| 0 <= i < |b| && b[i] == a[0];
    var j :| 0 <= j < |a| && a[j] == b[0];
    assert i == 0 || Compare(b[0], b[i]) >= 0;
    assert j == 0 || Compare(a[0], a[j]) >= 0;
    CompareAntisymmetric(a[0], b[0]);
    CompareZero(a[0], b[0]);
  }

  lemma CompareZero(s: Chars, t: Chars)
    requires Compare(s, t) == 0
    ensures s == t
  {
  }

  /** A left-heavy list is determined by the strings in it. */
  lemma {:induction false} LeftHeavyUnique(a: seq<Chars>, b: seq<Chars>)
    requires LeftHeavy(a) && LeftHeavy(b) && multiset(a) == multiset(b)
    ensures a == b
  {
    hide Compare;
    assert |multiset(a)| == |a| && |multiset(b)| == |b|;
    if a == [] {
    } else {
      HeaviestAgree(a, b);
      TailHeavy(a);
      TailHeavy(b);
      hide LeftHeavy;
      HeadCut(a);
      HeadCut(b);
      LeftHeavyUnique(a[1..], b[1..]);
      assert a == [a[0]] + a[1..] && b == [b[0]] + b[1..];
    }
  }

  lemma TailHeavy(s: seq<Chars>)
    requires LeftHeavy(s) && s != []
    ensures LeftHeavy(s[1..])
  {
    hide Compare;
  }

  function Insert(s: Chars, ss: seq<Chars>): seq<Chars> {
    if ss == [] || Compare(s, ss[0]) >= 0 then [s] + ss else [ss[0]] + Insert(s, ss[1..])
  }

  function Sorted(ss: seq<Chars>): seq<Chars> {
    if ss == [] then [] else Insert(ss[0], Sorted(ss[1..]))
  }

  lemma {:induction false} InsertKeeps(s: Chars, ss: seq<Chars>)
    requires LeftHeavy(ss)
    ensures LeftHeavy(Insert(s, ss)) && multiset(Insert(s, ss)) == multiset(ss) + multiset{s}
  {
    hide Compare;
    if ss == [] {
    } else if Compare(s, ss[0]) >= 0 {
      forall j | 0 <= j < |ss| ensures Compare(s, ss[j]) >= 0 {
        if j > 0 { CompareTransitive(s, ss[0], ss[j]); }
      }
      HeadHeavy(s, ss);
    } else {
      InsertKeeps(s, ss[1..]);
      CompareAntisymmetric(s, ss[0]);
      var rest := Insert(s, ss[1..]);
      assert ss == [ss[0]] + ss[1..];
      RestBelow(ss[0], s, ss[1..], rest);
      HeadHeavy(ss[0], rest);
    }
  }

  lemma RestBelow(x: Chars, s: Chars, tail: seq<Chars>, rest: seq<Chars>)
    requires multiset(rest) == multiset(tail) + multiset{s}
    requires Compare(x, s) >= 0 && forall y | y in tail :: Compare(x, y) >= 0
    ensures forall j | 0 <= j < |rest| :: Compare(x, rest[j]) >= 0
  {
    hide Compare;
    forall j | 0 <= j < |rest| ensures Compare(x, rest[j]) >= 0 {
      assert rest[j] in multiset(rest);
      assert rest[j] == s || rest[j] in tail;
    }
  }

  lemma HeadHeavy(s: Chars, ss: seq<Chars>)
    requires LeftHeavy(ss) && forall j | 0 <= j < |ss| :: Compare(s, ss[j]) >= 0
    ensures LeftHeavy([s] + ss)
  {
    hide Compare;
    var out := [s] + ss;
    forall i, j | 0 <= i < j < |out| ensures Compare(out[i], out[j]) >= 0 {
      assert out[j] == ss[j - 1];
      if i > 0 { assert out[i] == ss[i - 1]; }
    }
  }

  lemma {:induction false} SortedSorts(ss: seq<Chars>)
    ensures LeftHeavy(Sorted(ss)) && multiset(Sorted(ss)) == multiset(ss)
  {
    if ss == [] {
    } else {
      SortedSorts(ss[1..]);
      hide LeftHeavy, Insert, Compare;
      InsertKeeps(ss[0], Sorted(ss[1..]));
      HeadCut(ss);
    }
  }

  function Concat(ss: seq<Chars>): Chars {
    if ss == [] then [] else ss[0] + Concat(ss[1..])
  }

  // ----- depth strings

  /** The string of a node at the given depth: its depth as a character, followed by the
      strings of its children, heaviest first. */
  ghost function DepthString(t: Tree, depth: nat): Chars
    decreases t, 1
  {
    [ZERO + depth] + Concat(Sorted(Strings(t.children, depth + 1)))
  }

  ghost function Strings(ts: seq<Tree>, depth: nat): (ss: seq<Chars>)
    ensures |ss| == |ts|
    decreases ts, 0
  {
    if ts == [] then [] else [DepthString(ts[0], depth)] + Strings(ts[1..], depth)
  }

  lemma {:induction false} StringsAt(ts: seq<Tree>, depth: nat, i: nat)
    requires i < |ts|
    ensures Strings(ts, depth)[i] == DepthString(ts[i], depth)
  {
    if i == 0 {
    } else {
      StringsAt(ts[1..], depth, i - 1);
    }
  }

  /** Strings that begin with the character c and continue with larger ones only. */
  ghost predicate Blocks(ss: seq<Chars>, c: nat) {
    forall i | 0 <= i < |ss| :: ss[i] != [] && ss[i][0] == c && forall k | 0 < k < |ss[i]| :: ss[i][k] > c
  }

  lemma {:induction false} ConcatAbove(ss: seq<Chars>, c: nat)
    requires Blocks(ss, c)
    ensures forall k | 0 <= k < |Concat(ss)| :: Concat(ss)[k] >= c
    ensures ss != [] ==> Concat(ss) != [] && Concat(ss)[0] == c
  {
    if ss == [] {
    } else {
      ConcatAbove(ss[1..], c);
    }
  }

  lemma {:induction false} SortedBlocks(ss: seq<Chars>, c: nat)
    requires Blocks(ss, c)
    ensures Blocks(Sorted(ss), c)
  {
    SortedSorts(ss);
    forall i | 0 <= i < |Sorted(ss)|
      ensures Sorted(ss)[i] in ss
    {
      assert Sorted(ss)[i] in multiset(Sorted(ss));
    }
  }

  lemma {:induction false} StringBlock(t: Tree, depth: nat)
    ensures Blocks([DepthString(t, depth)], ZERO + depth)
    decreases t, 1
  {
    StringBlocks(t.children, depth + 1);
    SortedBlocks(Strings(t.children, depth + 1), ZERO + depth + 1);
    ConcatAbove(Sorted(Strings(t.children, depth + 1)), ZERO + depth + 1);
  }

  lemma {:induction false} StringBlocks(ts: seq<Tree>, depth: nat)
    ensures Blocks(Strings(ts, depth), ZERO + depth)
    decreases ts, 0
  {
    if ts == [] {
    } else {
      StringBlock(ts[0], depth);
      StringBlocks(ts[1..], depth);
      assert Blocks([DepthString(ts[0], depth)], ZERO + depth);
      assert [DepthString(ts[0], depth)][0] == DepthString(ts[0], depth);
    }
  }

  /** A concatenation of blocks can be cut in one way only. */
  lemma {:induction false} ConcatInjective(a: seq<Chars>, b: seq<Chars>, c: nat)
    requires Blocks(a, c) && Blocks(b, c) && Concat(a) == Concat(b)
    ensures a == b
  {
    if a == [] || b == [] {
      ConcatAbove(a, c);
      ConcatAbove(b, c);
    } else {
      SameFirstBlock(a, b, c);
      assert Concat(a)[|a[0]|..] == Concat(a[1..]) && Concat(b)[|b[0]|..] == Concat(b[1..]);
      assert Concat(a)[..|a[0]|] == a[0] && Concat(b)[..|b[0]|] == b[0];
      ConcatInjective(a[1..], b[1..], c);
    }
  }

  lemma SameFirstBlock(a: seq<Chars>, b: seq<Chars>, c: nat)
    requires Blocks(a, c) && Blocks(b, c) && Concat(a) == Concat(b) && a != [] && b != []
    ensures |a[0]| == |b[0]|
  {
    if |a[0]| < |b[0]| {
      BlockEnds(a, b, c);
    } else if |b[0]| < |a[0]| {
      BlockEnds(b, a, c);
    }
  }

  lemma BlockEnds(a: seq<Chars>, b: seq<Chars>, c: nat)
    requires Blocks(a, c) && Blocks(b, c) && a != [] && b != [] && |a[0]| < |b[0]|
    ensures Concat(a) != Concat(b)
  {
    var n := |a[0]|;
    ConcatAbove(a[1..], c);
    assert Concat(b)[n] == b[0][n] > c;
    assert Concat(a)[n..] == Concat(a[1..]);
  }

  // ----- the canonical form

  lemma StringsWithout(us: seq<Tree>, depth: nat, j: nat)
    requires j < |us|
    ensures Strings(Without(us, j), depth) == Without(Strings(us, depth), j)
  {
    var rest := Without(us, j);
    forall i | 0 <= i < |rest| ensures Strings(rest, depth)[i] == Without(Strings(us, depth), j)[i] {
      StringsAt(rest, depth, i);
      StringsAt(us, depth, if i < j then i else i + 1);
    }
  }

  lemma SameStringsSplit(x: Chars, rest: seq<Chars>, rr: seq<Chars>)
    ensures multiset([x] + rest) == multiset(rr)
            <==> exists j | 0 <= j < |rr| :: rr[j] == x && multiset(rest) == multiset(Without(rr, j))
  {
    hide Without;
    assert multiset([x] + rest) == multiset{x} + multiset(rest);
    forall j | 0 <= j < |rr| && rr[j] == x
      ensures multiset([x] + rest) == multiset(rr) <==> multiset(rest) == multiset(Without(rr, j))
    {
      WithoutMultiset(rr, j);
      assert x in multiset(rr);
      assert multiset(rr) == multiset{x} + multiset(Without(rr, j));
      assert multiset{x} + multiset(rest) - multiset{x} == multiset(rest);
    }
    if multiset([x] + rest) == multiset(rr) {
      assert x in multiset(rr);
      var j :| 0 <= j < |rr| && rr[j] == x;
    }
  }

  /** Two lists of trees can be matched exactly when they have the same strings. */
  lemma {:induction false} MatchedStrings(ts: seq<Tree>, us: seq<Tree>, depth: nat)
    ensures Matched(ts, us) <==> multiset(Strings(ts, depth)) == multiset(Strings(us, depth))
    decreases ts, 0
  {
    var rr := Strings(us, depth);
    if ts == [] {
      assert |multiset(rr)| == |us|;
    } else {
      var x, rest := DepthString(ts[0], depth), Strings(ts[1..], depth);
      SameStringsSplit(x, rest, rr);
      forall j | 0 <= j < |us|
        ensures Isomorphic(ts[0], us[j]) && Matched(ts[1..], Without(us, j))
                <==> rr[j] == x && multiset(rest) == multiset(Without(rr, j))
      {
        StringsAt(us, depth, j);
        CanonicalForm(ts[0], us[j], depth);
        MatchedStrings(ts[1..], Without(us, j), depth);
        StringsWithout(us, depth, j);
      }
    }
  }

  /** The depth string is a complete invariant: equal exactly for isomorphic trees. */
  lemma {:induction false} CanonicalForm(t: Tree, u: Tree, depth: nat)
    ensures Isomorphic(t, u) <==> DepthString(t, depth) == DepthString(u, depth)
    decreases t, 1
  {
    var ss, rr := Strings(t.children, depth + 1), Strings(u.children, depth + 1);
    MatchedStrings(t.children, u.children, depth + 1);
    SortedSorts(ss);
    SortedSorts(rr);
    if multiset(ss) == multiset(rr) {
      LeftHeavyUnique(Sorted(ss), Sorted(rr));
    }
    if DepthString(t, depth) == DepthString(u, depth) {
      assert DepthString(t, depth)[1..] == Concat(Sorted(ss));
      assert DepthString(u, depth)[1..] == Concat(Sorted(rr));
      StringBlocks(t.children, depth + 1);
      StringBlocks(u.children, depth + 1);
      SortedBlocks(ss, ZERO + depth + 1);
      SortedBlocks(rr, ZERO + depth + 1);
      ConcatInjective(Sorted(ss), Sorted(rr), ZERO + depth + 1);
    }
  }

  // ----- the greatest spelling

  ghost predicate SameTrees(us: seq<Tree>, ts: seq<Tree>) { multiset(us) == multiset(ts) }

  /** s writes down the tree: the depth of its root as a character, followed by what writes down
      its children, in any order. */
  ghost predicate Spells(t: Tree, depth: nat, s: Chars)
    decreases t, 1
  {
    exists us, ss :: SpelledBy(t, depth, us, ss) && s == [ZERO + depth] + Concat(ss)
  }

  ghost predicate SpelledBy(t: Tree, depth: nat, us: seq<Tree>, ss: seq<Chars>)
    decreases t, 0
  {
    && SameTrees(us, t.children) && |ss| == |us|
    && forall i | 0 <= i < |us| :: us[i] in t.children && Spells(us[i], depth + 1, ss[i])
  }

  /** A heavier block outweighs whatever blocks follow. */
  lemma {:induction false} BlockOutweighs(x: Chars, y: Chars, xs: Chars, ys: Chars, c: nat)
    requires Compare(x, y) > 0 && (forall k | |y| <= k < |x| :: x[k] > c) && (ys == [] || ys[0] == c)
    ensures Compare(x + xs, y + ys) > 0
  {
    AppendTail(x, xs);
    AppendTail(y, ys);
    if y == [] || x[0] != y[0] {
    } else {
      BlockOutweighs(x[1..], y[1..], xs, ys, c);
    }
  }

  lemma {:induction false} CompareAfter(x: Chars, xs: Chars, ys: Chars)
    ensures Compare(x + xs, x + ys) == Compare(xs, ys)
  {
    AppendTail(x, xs);
    AppendTail(x, ys);
    if x == [] {
    } else {
      CompareAfter(x[1..], xs, ys);
    }
  }

  /** Comparing the first blocks, and the others if these are equal. */
  lemma ConcatByBlocks(a: seq<Chars>, b: seq<Chars>, c: nat)
    requires Blocks(a, c) && Blocks(b, c) && a != [] && b != [] && Compare(a[0], b[0]) >= 0
    requires a[0] == b[0] ==> Compare(Concat(a[1..]), Concat(b[1..])) >= 0
    ensures Compare(Concat(a), Concat(b)) >= 0
  {
    hide Compare;
    if a[0] == b[0] {
      hide Blocks;
      CompareAfter(a[0], Concat(a[1..]), Concat(b[1..]));
    } else {
      BlocksTail(b, c);
      ConcatAbove(b[1..], c);
      hide Concat;
      BlockOutweighs(a[0], b[0], Concat(a[1..]), Concat(b[1..]), c);
    }
  }

  lemma BlocksTail(ss: seq<Chars>, c: nat)
    requires Blocks(ss, c) && ss != []
    ensures Blocks(ss[1..], c)
  {
  }

  /** Heaviest first gives the greatest concatenation. */
  lemma {:induction false} HeaviestFirst(a: seq<Chars>, b: seq<Chars>, c: nat)
    requires LeftHeavy(a) && Blocks(a, c) && multiset(a) == multiset(b)
    ensures Compare(Concat(a), Concat(b)) >= 0
    decreases |a|
  {
    hide Compare;
    assert |multiset(a)| == |a| && |multiset(b)| == |b|;
    if a == [] {
      CompareEqual(Concat(a));
    } else {
      forall i | 0 <= i < |b| ensures b[i] in a { assert b[i] in multiset(a); }
      var j :| 0 <= j < |a| && a[j] == b[0];
      if j == 0 { CompareEqual(a[0]); }
      if a[0] == b[0] {
        TailHeavy(a);
        BlocksTail(a, c);
        HeadCut(a);
        HeadCut(b);
        hide LeftHeavy, Blocks, Concat;
        HeaviestFirst(a[1..], b[1..], c);
      }
      ConcatByBlocks(a, b, c);
    }
  }

  lemma CompareEqual(s: Chars)
    ensures Compare(s, s) == 0
  {
  }

  /** Heavier blocks give a greater concatenation. */
  lemma {:induction false} HeavierBlocks(a: seq<Chars>, b: seq<Chars>, c: nat)
    requires Blocks(a, c) && Blocks(b, c) && |a| == |b| && forall i | 0 <= i < |a| :: Compare(a[i], b[i]) >= 0
    ensures Compare(Concat(a), Concat(b)) >= 0
  {
    if a == [] {
    } else {
      HeavierBlocks(a[1..], b[1..], c);
      ConcatByBlocks(a, b, c);
    }
  }

  lemma StringsExchanged(a: seq<Tree>, b: seq<Tree>, depth: nat, i: nat, j: nat)
    requires i < |a| && j < |b| && a[i] == b[j]
    requires multiset(Strings(Without(a, i), depth)) == multiset(Strings(Without(b, j), depth))
    ensures multiset(Strings(a, depth)) == multiset(Strings(b, depth))
  {
    hide DepthString;
    StringsWithout(a, depth, i);
    StringsWithout(b, depth, j);
    StringsAt(a, depth, i);
    StringsAt(b, depth, j);
    hide Strings, Without;
    WithoutMultiset(Strings(a, depth), i);
    WithoutMultiset(Strings(b, depth), j);
    SameWithout(Strings(a, depth), Strings(b, depth), i, j);
  }

  lemma {:induction false} StringsReordered(a: seq<Tree>, b: seq<Tree>, depth: nat)
    requires SameTrees(a, b)
    ensures multiset(Strings(a, depth)) == multiset(Strings(b, depth))
    decreases |a|
  {
    if a == [] {
      assert |multiset(b)| == |b|;
    } else {
      assert a[0] in multiset(b);
      var j :| 0 <= j < |b| && b[j] == a[0];
      HeadCut(a);
      WithoutMultiset(b, j);
      assert Without(a, 0) == a[1..];
      StringsReordered(a[1..], Without(b, j), depth);
      StringsExchanged(a, b, depth, 0, j);
    }
  }

  lemma {:induction false} DepthStringSpells(t: Tree, depth: nat)
    ensures Spells(t, depth, DepthString(t, depth))
    decreases t
  {
    var ss := Strings(t.children, depth + 1);
    SortedSorts(ss);
    var us := PermutedAlike(t.children, ss, Sorted(ss));
    hide Sorted, Strings;
    forall i | 0 <= i < |us| ensures us[i] in t.children && Spells(us[i], depth + 1, Sorted(ss)[i]) {
      assert Paired(t.children, ss, us[i], Sorted(ss)[i]);
      var j :| 0 <= j < |ss| && t.children[j] == us[i] && ss[j] == Sorted(ss)[i];
      StringsAt(t.children, depth + 1, j);
      DepthStringSpells(t.children[j], depth + 1);
    }
    assert SpelledBy(t, depth, us, Sorted(ss));
  }

  /** The characters behind the first are larger. */
  lemma {:induction false} SpellingBlock(t: Tree, depth: nat, s: Chars)
    requires Spells(t, depth, s)
    ensures Blocks([s], ZERO + depth)
    decreases t, 1
  {
    var us, ss :| SpelledBy(t, depth, us, ss) && s == [ZERO + depth] + Concat(ss);
    hide Spells, SpelledBy, Blocks;
    SpelledBlocks(t, depth, us, ss);
    ConcatAbove(ss, ZERO + depth + 1);
    HeadBlock(ZERO + depth, Concat(ss));
  }

  lemma HeadBlock(c: nat, s: Chars)
    requires forall k | 0 <= k < |s| :: s[k] >= c + 1
    ensures Blocks([[c] + s], c)
  {
  }

  lemma {:induction false} SpelledBlocks(t: Tree, depth: nat, us: seq<Tree>, ss: seq<Chars>)
    requires SpelledBy(t, depth, us, ss)
    ensures Blocks(ss, ZERO + depth + 1)
    decreases t, 0
  {
    hide Spells;
    forall i | 0 <= i < |us| ensures Blocks([ss[i]], ZERO + depth + 1) && [ss[i]][0] == ss[i] {
      SpellingBlock(us[i], depth + 1, ss[i]);
    }
  }

  lemma {:induction false} SpellingBelow(t: Tree, depth: nat, s: Chars)
    requires Spells(t, depth, s)
    ensures Compare(DepthString(t, depth), s) >= 0
    decreases t, 1
  {
    var us, ss :| SpelledBy(t, depth, us, ss) && s == [ZERO + depth] + Concat(ss);
    hide Spells, SpelledBy, Compare, Blocks, Strings, Sorted, Concat;
    SpelledBlocks(t, depth, us, ss);
    SpelledBelow(t, depth, us, ss);
    BestConcat(t.children, us, ss, depth + 1);
    CompareAfter([ZERO + depth], Concat(Sorted(Strings(t.children, depth + 1))), Concat(ss));
  }

  lemma {:induction false} SpelledBelow(t: Tree, depth: nat, us: seq<Tree>, ss: seq<Chars>)
    requires SpelledBy(t, depth, us, ss)
    ensures SameTrees(us, t.children) && |ss| == |us|
    ensures forall i | 0 <= i < |us| :: Compare(Strings(us, depth + 1)[i], ss[i]) >= 0
    decreases t, 0
  {
    hide Spells, Compare, Strings, DepthString;
    forall i | 0 <= i < |us| ensures Compare(Strings(us, depth + 1)[i], ss[i]) >= 0 {
      SpellingBelow(us[i], depth + 1, ss[i]);
      StringsAt(us, depth + 1, i);
    }
  }

  lemma BestConcat(ts: seq<Tree>, us: seq<Tree>, ss: seq<Chars>, depth: nat)
    requires SameTrees(us, ts) && |ss| == |us| && Blocks(ss, ZERO + depth)
    requires forall i | 0 <= i < |us| :: Compare(Strings(us, depth)[i], ss[i]) >= 0
    ensures Compare(Concat(Sorted(Strings(ts, depth))), Concat(ss)) >= 0
  {
    var c, best := ZERO + depth, Sorted(Strings(ts, depth));
    hide Compare, Blocks, Strings, Sorted, Concat;
    StringBlocks(us, depth);
    HeavierBlocks(Strings(us, depth), ss, c);
    StringBlocks(ts, depth);
    SortedBlocks(Strings(ts, depth), c);
    SortedSorts(Strings(ts, depth));
    StringsReordered(us, ts, depth);
    HeaviestFirst(best, Strings(us, depth), c);
    CompareTransitive(Concat(best), Concat(Strings(us, depth)), Concat(ss));
  }

  /** Of all ways to write down the tree s comes last in the dictionary. */
  ghost predicate IsGreatest(t: Tree, depth: nat, s: Chars) {
    Spells(t, depth, s) && forall x | Spells(t, depth, x) && x != s :: Precedes(x, s)
  }

  /** The depth string is the greatest way to write down the tree. */
  lemma DepthStringIsGreatest(t: Tree, depth: nat, s: Chars)
    ensures s == DepthString(t, depth) <==> IsGreatest(t, depth, s)
  {
    var best := DepthString(t, depth);
    DepthStringSpells(t, depth);
    hide Spells, Precedes, DepthString;
    forall x | Spells(t, depth, x) && x != best ensures Precedes(x, best) {
      SpellingBelow(t, depth, x);
      CompareIsDictionary(best, x);
    }
    if IsGreatest(t, depth, s) && s != best {
      CompareIsDictionary(s, best);
      CompareIsDictionary(best, s);
      assert false;
    }
  }

  /** A root with a leaf and a child that has one leaf is written "0121". */
  lemma LeftHeavyExample()
    ensures DepthString(Node([Node([]), Node([Node([])])]), 0) == [48, 49, 50, 49]
  {
    var leaf, fork := Node([]), Node([Node([])]);
    LeafString(2);
    LeafString(1);
    assert Strings([leaf], 2) == [[50]] + Strings([], 2);
    assert DepthString(fork, 1) == [49, 50];
    assert Strings([leaf, fork], 1) == [[49]] + Strings([fork], 1);
    assert Strings([fork], 1) == [[49, 50]] + Strings([], 1);
    SortedPair([49], [49, 50]);
  }

  lemma LeafString(depth: nat)
    ensures DepthString(Node([]), depth) == [48 + depth]
  {
  }

  lemma SortedPair(s: Chars, t: Chars)
    ensures Sorted([s, t]) == if Compare(s, t) >= 0 then [s, t] else [t, s]
  {
    assert [s, t][1..] == [t] && [t][1..] == [];
    assert Sorted([t]) == Insert(t, Sorted([])) == [t];
    assert Insert(t, []) == [t] + [];
    if Compare(s, t) < 0 { assert Insert(s, [t][1..]) == [s]; }
  }
}
