/** Ids of symbol sequences, fidtrack120.c, for sequences of any length. */
module SymbolSequences {
  import opened Sequences

  ghost predicate IsPermutation(s: seq<int>) {
    && (forall i | 0 <= i < |s| :: 0 <= s[i] < |s|)
    && (forall i, j | 0 <= i < j < |s| :: s[i] != s[j])
  }

  method HasAllSymbolsOnce(sequence: seq<int>) returns (all: bool)
    ensures all <==> IsPermutation(sequence)
  {
    var present := new bool[|sequence|](_ => false);
    var i := 0;
    while i < |sequence|
      invariant 0 <= i <= |sequence|
      invariant forall j | 0 <= j < i :: 0 <= sequence[j] < |sequence|
      invariant forall j, k | 0 <= j < k < i :: sequence[j] != sequence[k]
      invariant forall x | 0 <= x < |sequence| :: present[x] <==> x in sequence[..i]
    {
      var symbol := sequence[i];
      if symbol < 0 || symbol >= |sequence| {
        return false;
      } else if present[symbol] {
        var j :| 0 <= j < i && sequence[..i][j] == symbol;
        return false;
      } else {
        present[symbol] := true;
      }
      assert sequence[..i + 1] == sequence[..i] + [symbol];
      i := i + 1;
    }
    all := true;
  }

  // ----- ranks

  function Factorial(n: nat): (f: nat)
    ensures f >= 1
  {
    if n == 0 then 1 else n * Factorial(n - 1)
  }

  /** How many entries are smaller than x. */
  ghost function CountLess(s: seq<int>, x: int): nat {
    if s == [] then 0 else (if s[0] < x then 1 else 0) + CountLess(s[1..], x)
  }

  /** The place of s among the orders of its entries. */
  ghost function Rank(s: seq<int>): nat {
    if s == [] then 0 else CountLess(s[1..], s[0]) * Factorial(|s| - 1) + Rank(s[1..])
  }

  ghost predicate LexLess(a: seq<int>, b: seq<int>) {
    a != [] && b != [] && (a[0] < b[0] || (a[0] == b[0] && LexLess(a[1..], b[1..])))
  }

  /** At the first place where they differ a has the smaller entry. */
  lemma {:induction false} LexLessAt(a: seq<int>, b: seq<int>)
    ensures LexLess(a, b) <==> exists k | 0 <= k < |a| && k < |b| :: a[..k] == b[..k] && a[k] < b[k]
  {
    if a == [] || b == [] {
    } else {
      LexLessAt(a[1..], b[1..]);
      if a[0] < b[0] {
        assert a[..0] == b[..0];
      } else if LexLess(a, b) {
        var k :| 0 <= k < |a[1..]| && k < |b[1..]| && a[1..][..k] == b[1..][..k] && a[1..][k] < b[1..][k];
        assert a[..k + 1] == [a[0]] + a[1..][..k] && b[..k + 1] == [b[0]] + b[1..][..k];
      }
      if k :| 0 <= k < |a| && k < |b| && a[..k] == b[..k] && a[k] < b[k] {
        if k > 0 {
          assert a[0] == a[..k][0] && b[0] == b[..k][0];
          assert a[1..][..k - 1] == a[..k][1..] && b[1..][..k - 1] == b[..k][1..];
        }
      }
    }
  }

  lemma {:induction false} CountBound(s: seq<int>, x: int)
    ensures CountLess(s, x) <= |s|
  {
    if s == [] {
    } else {
      CountBound(s[1..], x);
    }
  }

  lemma {:induction false} CountMore(s: seq<int>, x: int, y: int)
    requires x < y
    ensures CountLess(s, x) + multiset(s)[x] <= CountLess(s, y)
  {
    if s == [] {
    } else {
      CountMore(s[1..], x, y);
      assert s == [s[0]] + s[1..];
    }
  }

  lemma {:induction false} CountNext(s: seq<int>, x: int)
    ensures CountLess(s, x + 1) == CountLess(s, x) + multiset(s)[x]
  {
    if s == [] {
    } else {
      CountNext(s[1..], x);
      assert s == [s[0]] + s[1..];
    }
  }

  lemma {:induction false} CountWithout(s: seq<int>, j: nat, x: int)
    requires j < |s|
    ensures CountLess(s, x) == CountLess(Without(s, j), x) + if s[j] < x then 1 else 0
  {
    if j == 0 {
      assert Without(s, 0) == s[1..];
    } else {
      CountWithout(s[1..], j - 1, x);
      assert Without(s, j) == [s[0]] + Without(s[1..], j - 1);
    }
  }

  /** The count does not depend on the order. */
  lemma {:induction false} CountPermuted(a: seq<int>, b: seq<int>, x: int)
    requires multiset(a) == multiset(b)
    ensures CountLess(a, x) == CountLess(b, x)
    decreases |a|
  {
    if a == [] {
      assert |multiset(b)| == |b|;
    } else {
      assert a[0] in multiset(b);
      var j :| 0 <= j < |b| && b[j] == a[0];
      HeadCut(a);
      WithoutMultiset(b, j);
      CountPermuted(a[1..], Without(b, j), x);
      CountWithout(b, j, x);
    }
  }

  lemma MulLess(c: int, d: int, f: int)
    requires c < d && f >= 0
    ensures c * f + f <= d * f
  {
    var e := d - c - 1;
    assert e * f >= 0;
    assert d * f == (c + 1 + e) * f == c * f + f + e * f;
  }

  lemma {:induction false} RankBound(s: seq<int>)
    ensures Rank(s) < Factorial(|s|)
  {
    if s == [] {
    } else {
      RankBound(s[1..]);
      CountBound(s[1..], s[0]);
      MulLess(CountLess(s[1..], s[0]), |s|, Factorial(|s| - 1));
    }
  }

  /** Ranks increase strictly in lexicographic order. */
  lemma {:induction false} RankMonotone(a: seq<int>, b: seq<int>)
    requires multiset(a) == multiset(b) && LexLess(a, b)
    ensures Rank(a) < Rank(b)
  {
    hide Factorial;
    assert |multiset(a)| == |a| && |multiset(b)| == |b|;
    if a[0] < b[0] {
      HeadRanks(a, b);
    } else {
      HeadCut(a);
      HeadCut(b);
      RankMonotone(a[1..], b[1..]);
      CountPermuted(a[1..], b[1..], a[0]);
    }
  }

  lemma HeadRanks(a: seq<int>, b: seq<int>)
    requires multiset(a) == multiset(b) && a != [] && |a| == |b| && a[0] < b[0]
    ensures Rank(a) < Rank(b)
  {
    hide Factorial;
    CountPermuted(a, b, b[0]);
    CountMore(a, a[0], b[0]);
    assert a[0] in multiset(a);
    RankBound(a[1..]);
    MulLess(CountLess(a[1..], a[0]), CountLess(b[1..], b[0]), Factorial(|a| - 1));
  }

  lemma {:induction false} LexTotal(a: seq<int>, b: seq<int>)
    requires |a| == |b|
    ensures a == b || LexLess(a, b) || LexLess(b, a)
  {
    if a == [] {
    } else {
      LexTotal(a[1..], b[1..]);
      assert a == [a[0]] + a[1..] && b == [b[0]] + b[1..];
    }
  }

  ghost predicate Ascending(s: seq<int>) {
    forall i, j | 0 <= i < j < |s| :: s[i] < s[j]
  }

  lemma {:induction false} CountAscending(s: seq<int>, k: nat)
    requires Ascending(s) && k < |s|
    ensures CountLess(s, s[k]) == k
  {
    assert forall i | 0 <= i < |s[1..]| :: s[1..][i] == s[i + 1];
    if k == 0 {
      NoneLess(s, s[0]);
    } else {
      CountAscending(s[1..], k - 1);
    }
  }

  lemma {:induction false} NoneLess(s: seq<int>, x: int)
    requires forall i | 0 <= i < |s| :: s[i] >= x
    ensures CountLess(s, x) == 0
  {
    if s == [] {
    } else {
      assert forall i | 0 <= i < |s[1..]| :: s[1..][i] == s[i + 1];
      NoneLess(s[1..], x);
    }
  }

  /** Every number below the factorial is the rank of some order of the entries. */
  lemma {:induction false} Unrank(pool: seq<int>, id: nat) returns (s: seq<int>)
    requires Ascending(pool) && id < Factorial(|pool|)
    ensures multiset(s) == multiset(pool) && Rank(s) == id
    decreases |pool|
  {
    if pool == [] {
      s := [];
    } else {
      var f := Factorial(|pool| - 1);
      var k, r := Quotient(id, |pool|, f);
      var t := Unrank(Without(pool, k), r);
      s := [pool[k]] + t;
      FirstPlaced(pool, k, t);
    }
  }

  /** Placing the k-th smallest entry first. */
  lemma FirstPlaced(pool: seq<int>, k: nat, t: seq<int>)
    requires Ascending(pool) && k < |pool| && multiset(t) == multiset(Without(pool, k))
    ensures var s := [pool[k]] + t;
            multiset(s) == multiset(pool) && Rank(s) == k * Factorial(|pool| - 1) + Rank(t)
  {
    hide Factorial, Ascending;
    WithoutMultiset(pool, k);
    assert multiset([pool[k]] + t) == multiset(pool);
    assert |multiset(t)| == |t| && |multiset(Without(pool, k))| == |pool| - 1;
    CountPermuted(t, Without(pool, k), pool[k]);
    CountWithout(pool, k, pool[k]);
    CountAscending(pool, k);
    RankCons(pool[k], t);
  }

  lemma RankCons(x: int, t: seq<int>)
    ensures Rank([x] + t) == CountLess(t, x) * Factorial(|t|) + Rank(t)
  {
    assert ([x] + t)[1..] == t;
  }

  lemma Quotient(id: nat, n: nat, f: nat) returns (k: nat, r: nat)
    requires id < n * f && f >= 1
    ensures id == k * f + r && r < f && k < n
  {
    k, r := id / f, id % f;
    QuotientBound(id, n, f, k, r);
  }

  lemma QuotientBound(id: nat, n: nat, f: nat, k: nat, r: nat)
    requires id < n * f && id == k * f + r && f >= 1
    ensures k < n
  {
    if k >= n {
      MulMonotone(n, k, f);
      assert false;
    }
  }

  lemma MulMonotone(a: nat, b: nat, f: nat)
    requires a <= b
    ensures a * f <= b * f
  {
  }

  // ----- ids

  lemma PermutationCounts(s: seq<int>, k: nat)
    requires IsPermutation(s) && k < |s|
    ensures multiset(s)[k] == 1
  {
    var ns: seq<nat> := s;
    AllPresent(ns, |s|, k);
    DistinctCounted(s, k);
  }

  lemma {:induction false} PermutationCountLess(s: seq<int>, k: nat)
    requires IsPermutation(s) && k <= |s|
    ensures CountLess(s, k) == k
    decreases k
  {
    if k == 0 {
      NoneLess(s, 0);
    } else {
      PermutationCountLess(s, k - 1);
      PermutationCounts(s, k - 1);
      CountNext(s, k - 1);
    }
  }

  /** The id of a sequence that begins with 0: mapping[k] is always the number of unused
      symbols below symbol k + 1. */
  method IdFromSymbolSequence(sequence: seq<int>) returns (id: int)
    requires sequence != [] && sequence[0] == 0 && IsPermutation(sequence)
    ensures id == Rank(sequence[1..])
  {
    var t := sequence[1..];
    var length := |t|;
    var mapping := new int[length](k => k);
    forall k | 0 <= k < length ensures mapping[k] == CountLess(t, k + 1) {
      PermutationCountLess(sequence, k + 1);
    }
    id := 0;
    var i := 0;
    assert t[0..] == t;
    RankEmpty();
    hide Rank, CountLess, Factorial, IsPermutation;
    while i < length
      invariant 0 <= i <= length
      invariant id + Rank(t[i..]) == Rank(t)
      invariant forall k | 0 <= k < length :: mapping[k] == CountLess(t[i..], k + 1)
    {
      var symbol := t[i];
      SymbolInRange(sequence, i + 1);
      RankNext(t, i);
      id := id + mapping[symbol - 1] * Factorial(length - 1 - i);
      DropSymbol(mapping, symbol);
      i := i + 1;
    }
    assert t[length..] == [];
  }

  /** The numbers above a used symbol move down. */
  method DropSymbol(mapping: array<int>, symbol: nat)
    requires symbol <= mapping.Length
    modifies mapping
    ensures forall k | 0 <= k < mapping.Length :: mapping[k] == old(mapping[k]) - if symbol <= k then 1 else 0
  {
    var j := symbol;
    while j < mapping.Length
      invariant symbol <= j <= mapping.Length
      invariant forall k | 0 <= k < mapping.Length :: mapping[k] == old(mapping[k]) - if symbol <= k < j then 1 else 0
    {
      mapping[j] := mapping[j] - 1;
      j := j + 1;
    }
  }

  lemma SymbolInRange(s: seq<int>, i: nat)
    requires s != [] && s[0] == 0 && IsPermutation(s) && 0 < i < |s|
    ensures 1 <= s[i] < |s|
  {
    assert s[i] != s[0];
  }

  lemma RankEmpty()
    ensures Rank([]) == 0
  {
  }

  /** The first symbol counts the smaller ones behind it, and is gone then. */
  lemma RankNext(t: seq<int>, i: nat)
    requires i < |t|
    ensures Rank(t[i..]) == CountLess(t[i..], t[i]) * Factorial(|t| - 1 - i) + Rank(t[i + 1..])
    ensures forall x :: CountLess(t[i..], x) == (if t[i] < x then 1 else 0) + CountLess(t[i + 1..], x)
  {
    assert t[i..][1..] == t[i + 1..] && t[i..][0] == t[i];
    assert CountLess(t[i..], t[i]) == CountLess(t[i + 1..], t[i]);
  }

  lemma TailsPermuted(a: seq<int>, b: seq<int>)
    requires |a| == |b| > 0 && a[0] == b[0] == 0 && IsPermutation(a) && IsPermutation(b)
    ensures multiset(a[1..]) == multiset(b[1..])
  {
    hide IsPermutation;
    assert a == [0] + a[1..] && b == [0] + b[1..];
    PermutationsAgree(a, b);
    assert multiset(a[1..]) == multiset(a) - multiset{0} && multiset(b[1..]) == multiset(b) - multiset{0};
  }

  lemma PermutationsAgree(a: seq<int>, b: seq<int>)
    requires |a| == |b| && IsPermutation(a) && IsPermutation(b)
    ensures multiset(a) == multiset(b)
  {
    forall k: int ensures multiset(a)[k] == multiset(b)[k] {
      if 0 <= k < |a| {
        PermutationCounts(a, k);
        PermutationCounts(b, k);
      } else {
        assert k !in a && k !in b;
      }
    }
  }

  /** Different sequences have different ids, in lexicographic order and below the factorial. */
  lemma IdsOrdered(a: seq<int>, b: seq<int>)
    requires |a| == |b| > 0 && a[0] == b[0] == 0 && IsPermutation(a) && IsPermutation(b)
    ensures LexLess(a, b) <==> Rank(a[1..]) < Rank(b[1..])
    ensures a == b <==> Rank(a[1..]) == Rank(b[1..])
    ensures Rank(a[1..]) < Factorial(|a| - 1)
  {
    TailsPermuted(a, b);
    RankBound(a[1..]);
    LexTotal(a, b);
    if LexLess(a, b) { RankMonotone(a[1..], b[1..]); }
    if LexLess(b, a) { RankMonotone(b[1..], a[1..]); }
  }

  /** Every id below the factorial belongs to a sequence. */
  lemma IdsComplete(n: nat, id: nat) returns (s: seq<int>)
    requires n > 0 && id < Factorial(n - 1)
    ensures |s| == n && s[0] == 0 && IsPermutation(s) && Rank(s[1..]) == id
  {
    var pool := seq(n - 1, i => i + 1);
    var t := Unrank(pool, id);
    s := [0] + t;
    assert |multiset(t)| == |t| && |multiset(pool)| == |pool|;
    assert s[1..] == t;
    forall i | 0 <= i < |t| ensures 1 <= t[i] < n {
      assert t[i] in multiset(t) && t[i] in multiset(pool);
    }
    forall i, j | 0 <= i < j < |t| ensures t[i] != t[j] {
      if t[i] == t[j] {
        TwiceCounted(t, i, j);
        DistinctCounted(pool, t[i]);
        assert false;
      }
    }
  }
}
