/** Facts about sequences, their multisets, and sets. */
module Sequences {
  /** The sequence without its element at position j. */
  function Without<T>(s: seq<T>, j: nat): seq<T>
    requires j < |s|
  {
    s[..j] + s[j + 1..]
  }

  /** A part of a part. */
  lemma SubSlice<T>(s: seq<T>, lo: nat, hi: nat, i: nat, j: nat)
    requires lo <= hi <= |s| && i <= j <= hi - lo
    ensures s[lo..hi][i..j] == s[lo + i..lo + j]
  {
    var a, b := s[lo..hi][i..j], s[lo + i..lo + j];
    assert |a| == |b| && forall k | 0 <= k < |a| :: a[k] == s[lo + i + k] == b[k];
  }

  lemma SubRest<T>(s: seq<T>, n: nat, i: nat, j: nat)
    requires n <= |s| && i <= j <= |s| - n
    ensures s[n..][i..j] == s[n + i..n + j]
  {
    assert s[n..] == s[n..|s|];
    SubSlice(s, n, |s|, i, j);
  }

  lemma SplitAt<T>(s: seq<T>, j: nat)
    requires j < |s|
    ensures s == s[..j] + [s[j]] + s[j + 1..] && Without(s, j) == s[..j] + s[j + 1..]
  {
  }

  lemma AppendTail<T>(a: seq<T>, b: seq<T>)
    ensures a == [] ==> a + b == b
    ensures a != [] ==> a + b != [] && (a + b)[0] == a[0] && (a + b)[1..] == a[1..] + b
  {
  }

  lemma Associates<T>(x: seq<T>, y: seq<T>, z: seq<T>)
    ensures (x + y) + z == x + (y + z)
  {
  }

  lemma HeadCut<T>(s: seq<T>)
    requires s != []
    ensures multiset(s[1..]) == multiset(s) - multiset{s[0]}
  {
    assert s == [s[0]] + s[1..];
  }

  lemma WithoutMultiset<T>(s: seq<T>, j: nat)
    requires j < |s|
    ensures multiset(Without(s, j)) == multiset(s) - multiset{s[j]}
  {
    assert s == s[..j] + [s[j]] + s[j + 1..];
  }

  lemma SameWithout<T>(s: seq<T>, t: seq<T>, i: nat, j: nat)
    requires i < |s| && j < |t| && s[i] == t[j] && multiset(Without(s, i)) == multiset(Without(t, j))
    ensures multiset(s) == multiset(t)
  {
    WithoutMultiset(s, i);
    WithoutMultiset(t, j);
    assert multiset(s) == multiset(Without(s, i)) + multiset{s[i]};
    assert multiset(t) == multiset(Without(t, j)) + multiset{t[j]};
  }

  ghost predicate Distinct<T>(s: seq<T>) {
    forall i, j | 0 <= i < j < |s| :: s[i] != s[j]
  }

  lemma TwiceCounted<T>(s: seq<T>, i: nat, j: nat)
    requires i < j < |s| && s[i] == s[j]
    ensures multiset(s)[s[i]] >= 2
  {
    WithoutMultiset(s, j);
    assert Without(s, j)[i] == s[i];
    assert s[i] in multiset(Without(s, j));
  }

  lemma {:induction false} DistinctCounted<T>(s: seq<T>, x: T)
    requires Distinct(s)
    ensures multiset(s)[x] == if x in s then 1 else 0
  {
    if s == [] {
    } else {
      assert s == [s[0]] + s[1..];
      assert forall i | 0 <= i < |s[1..]| :: s[1..][i] == s[i + 1];
      DistinctCounted(s[1..], x);
    }
  }

  /** Distinct lists of the same elements are permutations of each other. */
  lemma DistinctAlike<T(!new)>(s: seq<T>, t: seq<T>)
    requires Distinct(s) && Distinct(t) && forall x :: x in s <==> x in t
    ensures multiset(s) == multiset(t)
  {
    forall x ensures multiset(s)[x] == multiset(t)[x] {
      DistinctCounted(s, x);
      DistinctCounted(t, x);
    }
  }

  /** There are at most n distinct numbers below n. */
  lemma {:induction false} OrderBound(order: seq<nat>, n: nat)
    requires forall i, j | 0 <= i < j < |order| :: order[i] != order[j]
    requires forall r | r in order :: r < n
    ensures |order| <= n
    decreases n
  {
    if order != [] {
      assert order[0] in order;
      var rest := order[1..];
      var last := n - 1;
      var moved := seq(|rest|, i requires 0 <= i < |rest| => if rest[i] == last then order[0] else rest[i]);
      forall r | r in moved ensures r < last {
        var i :| 0 <= i < |moved| && moved[i] == r;
        assert rest[i] in order && order[0] in order && rest[i] == order[i + 1];
      }
      forall i, j | 0 <= i < j < |moved| ensures moved[i] != moved[j] {
        assert rest[i] == order[i + 1] && rest[j] == order[j + 1];
      }
      OrderBound(moved, last);
    }
  }

  /** n distinct numbers below n are all of them. */
  lemma AllPresent(order: seq<nat>, n: nat, k: nat)
    requires |order| == n && k < n
    requires forall i, j | 0 <= i < j < |order| :: order[i] != order[j]
    requires forall r | r in order :: r < n
    ensures k in order
  {
    if k !in order {
      OrderBound(order + [k], n);
      assert false;
    }
  }

  lemma {:induction false} SmallerSet<T>(a: set<T>, b: set<T>)
    requires a <= b
    ensures |a| <= |b|
  {
    if a == {} {
    } else {
      var x :| x in a;
      SmallerSet(a - {x}, b - {x});
    }
  }

  lemma {:induction false} InjectedSet<S, T>(a: set<S>, b: set<T>, f: S -> T)
    requires forall x | x in a :: f(x) in b
    requires forall x, y | x in a && y in a && f(x) == f(y) :: x == y
    ensures |a| <= |b|
  {
    if a == {} {
    } else {
      var x :| x in a;
      InjectedSet(a - {x}, b - {f(x)}, f);
    }
  }

  /** x and y stand at the same place of two parallel sequences. */
  ghost predicate Paired<S(!new), T(!new)>(xs: seq<S>, ys: seq<T>, x: S, y: T)
    requires |xs| == |ys|
  {
    exists j | 0 <= j < |xs| :: xs[j] == x && ys[j] == y
  }

  lemma PairedWithout<S(!new), T(!new)>(xs: seq<S>, ys: seq<T>, j: nat, x: S, y: T)
    requires |xs| == |ys| && j < |xs| && Paired(Without(xs, j), Without(ys, j), x, y)
    ensures Paired(xs, ys, x, y)
  {
    var k :| 0 <= k < |xs| - 1 && Without(xs, j)[k] == x && Without(ys, j)[k] == y;
    var n := if k < j then k else k + 1;
    assert xs[n] == x && ys[n] == y;
  }

  /** What is done to one of two parallel sequences can be done to the other. */
  lemma {:induction false} PermutedAlike<S(!new), T(!new)>(xs: seq<S>, ys: seq<T>, zs: seq<T>) returns (us: seq<S>)
    requires |xs| == |ys| && multiset(zs) == multiset(ys)
    ensures |us| == |zs| && multiset(us) == multiset(xs)
    ensures forall i | 0 <= i < |us| :: Paired(xs, ys, us[i], zs[i])
    decreases |zs|
  {
    assert |multiset(zs)| == |zs| && |multiset(ys)| == |ys|;
    if zs == [] {
      us := [];
    } else {
      assert zs[0] in multiset(ys);
      var j :| 0 <= j < |ys| && ys[j] == zs[0];
      HeadCut(zs);
      WithoutMultiset(ys, j);
      WithoutMultiset(xs, j);
      var rest := PermutedAlike(Without(xs, j), Without(ys, j), zs[1..]);
      hide Paired;
      us := [xs[j]] + rest;
      assert multiset(xs) == multiset{xs[j]} + multiset(Without(xs, j));
      PairedCons(xs, ys, zs, rest, j);
    }
  }

  lemma PairedCons<S(!new), T(!new)>(xs: seq<S>, ys: seq<T>, zs: seq<T>, rest: seq<S>, j: nat)
    requires |xs| == |ys| && j < |ys| && |zs| == |rest| + 1 && ys[j] == zs[0]
    requires forall i | 0 <= i < |rest| :: Paired(Without(xs, j), Without(ys, j), rest[i], zs[1..][i])
    ensures forall i | 0 <= i < |zs| :: Paired(xs, ys, ([xs[j]] + rest)[i], zs[i])
  {
    hide Without;
    forall i | 0 <= i < |zs| ensures Paired(xs, ys, ([xs[j]] + rest)[i], zs[i]) {
      if i > 0 { PairedWithout(xs, ys, j, rest[i - 1], zs[1..][i - 1]); }
    }
  }
}
