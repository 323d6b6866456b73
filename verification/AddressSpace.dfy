/** The address space of WOscContainer.cpp: containers that list containers and methods under
    names, aliases included, and the dispatch of an address pattern to the methods it names. */
module AddressSpaces {
  import opened CallbackLists
  import opened PatternMatching

  const NUL: char := '\0'

  datatype Entry<T> = Entry(target: T, name: string, isAlias: bool)

  datatype Outcome =
    Done | NotDispatchingFromRoot | InvalidAddressNoSlash | RootAlias | RecursiveAlias | ParentPointerNull

  // ----- zero-terminated strings in a buffer

  /** The zero-terminated string that begins at position start. */
  function CString(b: seq<char>, start: nat): string
    requires start <= |b|
  {
    b[start..start + Find(b[start..], NUL)]
  }

  ghost predicate Terminated(b: seq<char>, start: nat) {
    start <= |b| && NUL in b[start..]
  }

  /** The parts between the slashes. */
  ghost function Split(s: string): (parts: seq<string>)
    ensures parts != []
    decreases |s|
  {
    var k := Find(s, '/');
    if k == |s| then [s] else [s[..k]] + Split(s[k + 1..])
  }

  /** No c between the two positions. */
  ghost predicate Lacks(b: seq<char>, lo: nat, hi: nat, c: char)
    requires lo <= hi <= |b|
  {
    forall i | lo <= i < hi :: b[i] != c
  }

  lemma LacksSlice(b: seq<char>, lo: nat, hi: nat, c: char)
    requires lo <= hi <= |b|
    ensures Lacks(b, lo, hi, c) <==> c !in b[lo..hi]
  {
    if c !in b[lo..hi] {
      assert forall i | lo <= i < hi :: b[i] == b[lo..hi][i - lo];
    }
  }

  lemma CStringAt(b: seq<char>, start: nat, k: nat)
    requires start <= k < |b| && b[k] == NUL && Lacks(b, start, k, NUL)
    ensures CString(b, start) == b[start..k] && Terminated(b, start)
  {
    LacksSlice(b, start, k, NUL);
    assert b[start..][..k - start] == b[start..k];
    assert b[start..][k - start] == NUL;
    FindUnique(b[start..], NUL, k - start);
  }

  lemma TerminatedAt(b: seq<char>, start: nat) returns (k: nat)
    requires Terminated(b, start)
    ensures start <= k < |b| && b[k] == NUL && Lacks(b, start, k, NUL) && CString(b, start) == b[start..k]
  {
    k := start + Find(b[start..], NUL);
    assert b[start..][..k - start] == b[start..k];
    LacksSlice(b, start, k, NUL);
  }

  /** The string ends at the first character with the code 0. */
  lemma CStringInNumbers(b: seq<char>, start: nat)
    requires Terminated(b, start)
    ensures var k := start + |CString(b, start)|;
            k < |b| && b[k] as int == 0 && (forall i | start <= i < k :: b[i] as int != 0)
            && CString(b, start) == b[start..k]
  {
    var k := TerminatedAt(b, start);
  }

  lemma LastPart(b: seq<char>, start: nat, k: nat)
    requires start <= k < |b| && b[k] == NUL && Lacks(b, start, k, '/') && Lacks(b, start, k, NUL)
    ensures Split(CString(b, start)) == [b[start..k]] && CString(b, start) == b[start..k]
  {
    CStringAt(b, start, k);
    LacksSlice(b, start, k, '/');
    assert Find(b[start..k], '/') == k - start;
  }

  /** Cutting at the first slash separates the first part from the others. */
  lemma CutAt(b: seq<char>, start: nat, k: nat)
    requires start <= k < |b| && b[k] == '/' && Lacks(b, start, k, '/') && Lacks(b, start, k, NUL)
             && Terminated(b, start)
    ensures var cut := b[k := NUL];
            && CString(cut, start) == b[start..k] && Terminated(cut, k + 1)
            && Split(CString(b, start)) == [b[start..k]] + Split(CString(cut, k + 1))
  {
    var e := TerminatedAt(b, start);
    hide CString, Split, Find, Terminated;
    CutStrings(b, start, k, e);
    LacksSlice(b, start, k, '/');
    SplitSlice(b, start, k, e);
  }

  lemma CutStrings(b: seq<char>, start: nat, k: nat, e: nat)
    requires start <= k < |b| && start <= e < |b| && b[e] == NUL && b[k] == '/'
    requires Lacks(b, start, e, NUL) && Lacks(b, start, k, NUL)
    ensures k < e
    ensures var cut := b[k := NUL];
            CString(cut, start) == b[start..k] && Terminated(cut, k + 1) && CString(cut, k + 1) == b[k + 1..e]
  {
    hide CString, Terminated;
    var cut := b[k := NUL];
    CStringAt(cut, start, k);
    assert cut[start..k] == b[start..k];
    CStringAt(cut, k + 1, e);
    assert cut[k + 1..e] == b[k + 1..e];
  }

  lemma SplitSlice(b: seq<char>, start: nat, k: nat, e: nat)
    requires start <= k < e < |b| && b[k] == '/' && '/' !in b[start..k]
    ensures Split(b[start..e]) == [b[start..k]] + Split(b[k + 1..e])
  {
    hide Split;
    var s := b[start..e];
    assert s[..k - start] == b[start..k] && s[k - start + 1..] == b[k + 1..e];
    SplitAt(s, k - start);
  }

  lemma SplitAt(s: string, k: nat)
    requires k < |s| && s[k] == '/' && '/' !in s[..k]
    ensures Split(s) == [s[..k]] + Split(s[k + 1..])
  {
    FindUnique(s, '/', k);
  }

  /** The parts with slashes between them. */
  ghost function Join(parts: seq<string>): string {
    if parts == [] then [] else if |parts| == 1 then parts[0] else parts[0] + "/" + Join(parts[1..])
  }

  /** Splitting leaves no slash in any part, and the parts joined by slashes give the string back. */
  lemma {:induction false} SplitJoins(s: string)
    ensures Join(Split(s)) == s && forall part | part in Split(s) :: '/' !in part
    decreases |s|
  {
    var k := Find(s, '/');
    if k < |s| {
      SplitJoins(s[k + 1..]);
      var parts := Split(s);
      assert parts == [s[..k]] + Split(s[k + 1..]) && parts[1..] == Split(s[k + 1..]);
      assert s == s[..k] + "/" + s[k + 1..];
    } else {
      assert Split(s) == [s];
    }
  }

  // ----- the paths of an address pattern

  ghost predicate Closed(space: set<Container>)
    reads space
  {
    forall c, i | c in space && 0 <= i < |c.containerEntries| :: c.containerEntries[i].target in space
  }

  /** A path: a container entry for every part but the last and a method entry for the last,
      each matched by its part. */
  ghost predicate IsPath(space: set<Container>, c: Container, parts: seq<string>, path: seq<nat>)
    requires c in space && Closed(space)
    reads space
    decreases |parts|
  {
    && parts != [] && |path| == |parts|
    && if |parts| == 1 then
         path[0] < |c.methodEntries| && Accepts(parts[0], c.methodEntries[path[0]].name)
       else
         && path[0] < |c.containerEntries| && Accepts(parts[0], c.containerEntries[path[0]].name)
         && IsPath(space, c.containerEntries[path[0]].target, parts[1..], path[1..])
  }

  /** The method at the end of the path. */
  ghost function Target(space: set<Container>, c: Container, parts: seq<string>, path: seq<nat>): Method
    requires c in space && Closed(space) && IsPath(space, c, parts, path)
    reads space
    decreases |parts|
  {
    if |parts| == 1 then c.methodEntries[path[0]].target
    else Target(space, c.containerEntries[path[0]].target, parts[1..], path[1..])
  }

  /** Later entries first. */
  ghost predicate LexBefore(a: seq<nat>, b: seq<nat>) {
    a != [] && b != [] && (a[0] > b[0] || (a[0] == b[0] && LexBefore(a[1..], b[1..])))
  }

  ghost predicate Descending(ps: seq<seq<nat>>) {
    forall i, j | 0 <= i < j < |ps| :: LexBefore(ps[i], ps[j])
  }

  /** The list has exactly the paths whose first index is at least n, and out their methods. */
  ghost predicate OnePerPath(space: set<Container>, c: Container, parts: seq<string>, n: int, ps: seq<seq<nat>>,
                             out: seq<Method?>)
    requires c in space && Closed(space)
    reads space
  {
    && (forall i | 0 <= i < |ps| :: IsPath(space, c, parts, ps[i]) && ps[i][0] >= n)
    && (forall p | IsPath(space, c, parts, p) && p[0] >= n :: p in ps)
    && Descending(ps) && |out| == |ps|
    && forall i | 0 <= i < |ps| :: out[i] == Target(space, c, parts, ps[i])
  }

  /** The callbacks for an address pattern: one for every path. */
  ghost predicate Dispatched(space: set<Container>, c: Container, parts: seq<string>, out: seq<Method?>)
    requires c in space && Closed(space)
    reads space
  {
    exists ps :: OnePerPath(space, c, parts, 0, ps, out)
  }

  lemma NoPaths(space: set<Container>, c: Container, parts: seq<string>, n: nat)
    requires c in space && Closed(space) && parts != []
    requires n >= if |parts| == 1 then |c.methodEntries| else |c.containerEntries|
    ensures OnePerPath(space, c, parts, n, [], [])
  {
  }

  lemma MethodSkipped(space: set<Container>, c: Container, parts: seq<string>, n: nat, ps: seq<seq<nat>>,
                      out: seq<Method?>)
    requires c in space && Closed(space) && |parts| == 1 && n < |c.methodEntries|
    requires OnePerPath(space, c, parts, n + 1, ps, out) && !Accepts(parts[0], c.methodEntries[n].name)
    ensures OnePerPath(space, c, parts, n, ps, out)
  {
    hide Accepts;
  }

  lemma MethodFound(space: set<Container>, c: Container, parts: seq<string>, n: nat, ps: seq<seq<nat>>,
                    out: seq<Method?>)
    requires c in space && Closed(space) && |parts| == 1 && n < |c.methodEntries|
    requires OnePerPath(space, c, parts, n + 1, ps, out) && Accepts(parts[0], c.methodEntries[n].name)
    ensures OnePerPath(space, c, parts, n, ps + [[n]], out + [c.methodEntries[n].target])
  {
    hide Accepts;
    var qs := ps + [[n]];
    assert IsPath(space, c, parts, [n]);
    forall p | IsPath(space, c, parts, p) && p[0] >= n ensures p in qs {
      if p[0] == n {
        assert p == [n] == qs[|ps|];
      } else {
        assert p in ps;
      }
    }
  }

  lemma ContainerSkipped(space: set<Container>, c: Container, parts: seq<string>, n: nat, ps: seq<seq<nat>>,
                         out: seq<Method?>)
    requires c in space && Closed(space) && |parts| > 1 && n < |c.containerEntries|
    requires OnePerPath(space, c, parts, n + 1, ps, out) && !Accepts(parts[0], c.containerEntries[n].name)
    ensures OnePerPath(space, c, parts, n, ps, out)
  {
    hide Accepts;
  }

  ghost function Prefixed(n: nat, ps: seq<seq<nat>>): seq<seq<nat>> {
    seq(|ps|, i requires 0 <= i < |ps| => [n] + ps[i])
  }

  lemma ContainerFound(space: set<Container>, c: Container, parts: seq<string>, n: nat, ps: seq<seq<nat>>,
                       out: seq<Method?>, ps2: seq<seq<nat>>, out2: seq<Method?>)
    requires c in space && Closed(space) && |parts| > 1 && n < |c.containerEntries|
    requires OnePerPath(space, c, parts, n + 1, ps, out) && Accepts(parts[0], c.containerEntries[n].name)
    requires OnePerPath(space, c.containerEntries[n].target, parts[1..], 0, ps2, out2)
    ensures OnePerPath(space, c, parts, n, ps + Prefixed(n, ps2), out + out2)
  {
    PrefixedDescending(n, ps, ps2);
    PrefixedComplete(space, c, parts, n, ps, out, ps2, out2);
    PrefixedPaths(space, c, parts, n, ps2, out2);
    hide IsPath, Target, Accepts, LexBefore, Descending;
    var qs, more := ps + Prefixed(n, ps2), out + out2;
    forall i | 0 <= i < |qs|
      ensures IsPath(space, c, parts, qs[i]) && qs[i] != [] && qs[i][0] >= n
              && more[i] == Target(space, c, parts, qs[i])
    {
      if i < |ps| {
        assert qs[i] == ps[i] && more[i] == out[i];
      } else {
        assert qs[i] == Prefixed(n, ps2)[i - |ps|] && more[i] == out2[i - |ps|];
      }
    }
  }

  lemma PrefixedPaths(space: set<Container>, c: Container, parts: seq<string>, n: nat, ps: seq<seq<nat>>,
                      out: seq<Method?>)
    requires c in space && Closed(space) && |parts| > 1 && n < |c.containerEntries|
    requires Accepts(parts[0], c.containerEntries[n].name)
    requires OnePerPath(space, c.containerEntries[n].target, parts[1..], 0, ps, out)
    ensures forall i | 0 <= i < |ps| ::
              IsPath(space, c, parts, Prefixed(n, ps)[i]) && Target(space, c, parts, Prefixed(n, ps)[i]) == out[i]
              && Prefixed(n, ps)[i][0] == n
  {
    hide Accepts, LexBefore, Descending;
    forall i | 0 <= i < |ps|
      ensures IsPath(space, c, parts, [n] + ps[i]) && Target(space, c, parts, [n] + ps[i]) == out[i]
    {
      PrefixedPath(space, c, parts, n, ps[i]);
    }
  }

  lemma PrefixedPath(space: set<Container>, c: Container, parts: seq<string>, n: nat, path: seq<nat>)
    requires c in space && Closed(space) && |parts| > 1 && n < |c.containerEntries|
    requires Accepts(parts[0], c.containerEntries[n].name)
    requires IsPath(space, c.containerEntries[n].target, parts[1..], path)
    ensures IsPath(space, c, parts, [n] + path)
    ensures Target(space, c, parts, [n] + path) == Target(space, c.containerEntries[n].target, parts[1..], path)
  {
    hide Accepts;
    assert ([n] + path)[1..] == path;
  }

  lemma PrefixedComplete(space: set<Container>, c: Container, parts: seq<string>, n: nat, ps: seq<seq<nat>>,
                         out: seq<Method?>, ps2: seq<seq<nat>>, out2: seq<Method?>)
    requires c in space && Closed(space) && |parts| > 1 && n < |c.containerEntries|
    requires OnePerPath(space, c, parts, n + 1, ps, out)
    requires OnePerPath(space, c.containerEntries[n].target, parts[1..], 0, ps2, out2)
    ensures forall p | IsPath(space, c, parts, p) && p[0] >= n :: p in ps + Prefixed(n, ps2)
  {
    hide Accepts, LexBefore, Target;
    var qs := ps + Prefixed(n, ps2);
    forall p | IsPath(space, c, parts, p) && p[0] >= n ensures p in qs {
      if p[0] == n {
        assert IsPath(space, c.containerEntries[n].target, parts[1..], p[1..]);
        var i :| 0 <= i < |ps2| && ps2[i] == p[1..];
        assert p == [n] + ps2[i] == qs[|ps| + i];
      } else {
        assert p in ps;
      }
    }
  }

  lemma PrefixedDescending(n: nat, ps: seq<seq<nat>>, ps2: seq<seq<nat>>)
    requires Descending(ps) && Descending(ps2)
    requires forall i | 0 <= i < |ps| :: ps[i] != [] && ps[i][0] > n
    ensures Descending(ps + Prefixed(n, ps2))
  {
    var qs := ps + Prefixed(n, ps2);
    forall i, j | 0 <= i < j < |qs| ensures LexBefore(qs[i], qs[j]) {
      if i >= |ps| {
        assert qs[i][1..] == ps2[i - |ps|] && qs[j][1..] == ps2[j - |ps|];
      }
    }
  }

  // ----- the order leaves no choice

  lemma {:induction false} LexAsymmetric(a: seq<nat>, b: seq<nat>)
    requires LexBefore(a, b)
    ensures !LexBefore(b, a) && a != b
  {
    if a[0] != b[0] {
    } else {
      LexAsymmetric(a[1..], b[1..]);
    }
  }

  /** At the first place where two paths part the earlier one takes the later entry. */
  lemma {:induction false} LaterEntryFirst(a: seq<nat>, b: seq<nat>)
    requires LexBefore(a, b)
    ensures exists k | 0 <= k < |a| && k < |b| :: a[..k] == b[..k] && a[k] > b[k]
  {
    if a[0] > b[0] {
      assert a[..0] == b[..0];
    } else {
      LaterEntryFirst(a[1..], b[1..]);
      var k :| 0 <= k < |a[1..]| && k < |b[1..]| && a[1..][..k] == b[1..][..k] && a[1..][k] > b[1..][k];
      assert a[..k + 1] == [a[0]] + a[1..][..k] && b[..k + 1] == [b[0]] + b[1..][..k];
    }
  }

  lemma {:induction false} DescendingUnique(ps: seq<seq<nat>>, qs: seq<seq<nat>>)
    requires Descending(ps) && Descending(qs) && forall p :: p in ps <==> p in qs
    ensures ps == qs
  {
    if ps == [] {
      assert forall i | 0 <= i < |qs| :: qs[i] in qs;
    } else {
      assert ps[0] in qs;
      HeadsAgree(ps, qs);
      forall p ensures p in ps[1..] <==> p in qs[1..] {
        TailHas(ps, p);
        TailHas(qs, p);
      }
      DescendingUnique(ps[1..], qs[1..]);
      assert ps == [ps[0]] + ps[1..] && qs == [qs[0]] + qs[1..];
    }
  }

  lemma HeadsAgree(ps: seq<seq<nat>>, qs: seq<seq<nat>>)
    requires Descending(ps) && Descending(qs) && ps != [] && qs != [] && ps[0] in qs && qs[0] in ps
    ensures ps[0] == qs[0]
  {
    var i :| 0 <= i < |qs| && qs[i] == ps[0];
    var j :| 0 <= j < |ps| && ps[j] == qs[0];
    if i > 0 && j > 0 {
      LexAsymmetric(ps[0], qs[0]);
      assert false;
    }
  }

  lemma TailHas(ps: seq<seq<nat>>, p: seq<nat>)
    requires Descending(ps) && ps != []
    ensures p in ps[1..] <==> p in ps && p != ps[0]
  {
    if p in ps[1..] {
      var i :| 0 <= i < |ps[1..]| && ps[1..][i] == p;
      assert LexBefore(ps[0], ps[i + 1]);
      LexAsymmetric(ps[0], p);
    }
  }

  /** The callbacks and their order are determined by the address space and the pattern. */
  lemma DispatchedUnique(space: set<Container>, c: Container, parts: seq<string>, a: seq<Method?>, b: seq<Method?>)
    requires c in space && Closed(space)
    requires Dispatched(space, c, parts, a) && Dispatched(space, c, parts, b)
    ensures a == b
  {
    hide IsPath, Target;
    var ps :| OnePerPath(space, c, parts, 0, ps, a);
    var qs :| OnePerPath(space, c, parts, 0, qs, b);
    DescendingUnique(ps, qs);
  }

  // ----- containers

  class Container {
    const parent: Container?
    var containerEntries: seq<Entry<Container>>
    var methodEntries: seq<Entry<Method>>

    /** A root. */
    constructor ()
      ensures parent == null && containerEntries == [] && methodEntries == []
    {
      parent := null;
      containerEntries, methodEntries := [], [];
    }

    /** A child enters itself into the list of its parent. */
    constructor Child(parent: Container, name: string)
      modifies parent`containerEntries
      ensures this.parent == parent && containerEntries == [] && methodEntries == []
      ensures parent.containerEntries == old(parent.containerEntries) + [Entry(this, name, false)]
    {
      this.parent := parent;
      containerEntries, methodEntries := [], [];
      new;
      parent.AddContainer(this, name, false);
    }

    method AddContainer(container: Container, name: string, isAlias: bool)
      modifies this`containerEntries
      ensures containerEntries == old(containerEntries) + [Entry(container, name, isAlias)]
    {
      containerEntries := containerEntries + [Entry(container, name, isAlias)];
    }

    method AddMethod(method_: Method, name: string, isAlias: bool)
      modifies this`methodEntries
      ensures methodEntries == old(methodEntries) + [Entry(method_, name, isAlias)]
    {
      methodEntries := methodEntries + [Entry(method_, name, isAlias)];
    }

    method AddContainerAlias(parent: Container?, alias: string) returns (outcome: Outcome)
      modifies if parent == null then {} else {parent}
      ensures outcome == if this.parent == null then RootAlias else if parent == this then RecursiveAlias
                         else if parent == null then ParentPointerNull else Done
      ensures parent != null ==> parent.containerEntries == old(parent.containerEntries)
                                  + if outcome == Done then [Entry(this, alias, true)] else []
      ensures parent != null ==> parent.methodEntries == old(parent.methodEntries)
    {
      if this.parent == null { return RootAlias; }
      if parent == this { return RecursiveAlias; }
      if parent == null { return ParentPointerNull; }
      parent.AddContainer(this, alias, true);
      outcome := Done;
    }

    /** Appends the methods that the address names.  The leading slash is skipped. */
    method DispatchMessage(methods: CallbackList, address: array<char>, ghost space: set<Container>)
      returns (outcome: Outcome)
      requires this in space && Closed(space) && methods.Valid() && Terminated(address[..], 0)
      modifies methods, methods.methods, address
      ensures methods.Valid() && address[..] == old(address[..])
      ensures outcome == if parent != null then NotDispatchingFromRoot
                         else if address[0] != '/' then InvalidAddressNoSlash else Done
      ensures outcome != Done ==> methods.Contents() == old(methods.Contents())
      ensures outcome == Done ==>
                exists out :: methods.Contents() == old(methods.Contents()) + out
                              && Dispatched(space, this, Split(CString(address[..], 1)), out)
    {
      hide *;
      hide CallbackList.Valid;
      if parent != null { return NotDispatchingFromRoot; }
      ghost var k := TerminatedAt(address[..], 0);
      if address[0] != '/' { return InvalidAddressNoSlash; }
      AfterSlash(address[..], k);
      ghost var ps, out := DispatchSubMessage(methods, address, 1, space);
      DispatchedIntro(space, this, Split(CString(address[..], 1)), ps, out);
      outcome := Done;
    }

    lemma AfterSlash(b: seq<char>, k: nat)
      requires k < |b| && b[k] == NUL && b[0] == '/'
      ensures Terminated(b, 1)
    {
      assert b[1..][k - 1] == NUL;
    }

    lemma DispatchedIntro(space: set<Container>, c: Container, parts: seq<string>, ps: seq<seq<nat>>, out: seq<Method?>)
      requires c in space && Closed(space) && OnePerPath(space, c, parts, 0, ps, out)
      ensures Dispatched(space, c, parts, out)
    {
    }

    /** Finds the next slash or the end. */
    method NextSlashOrNull(pattern: array<char>, start: nat) returns (k: nat)
      requires Terminated(pattern[..], start)
      ensures start <= k < pattern.Length && (pattern[k] == '/' || pattern[k] == NUL)
      ensures Lacks(pattern[..], start, k, '/') && Lacks(pattern[..], start, k, NUL)
    {
      ghost var e := TerminatedAt(pattern[..], start);
      k := start;
      while pattern[k] != '/' && pattern[k] != NUL
        invariant start <= k <= e && Lacks(pattern[..], start, k, '/') && Lacks(pattern[..], start, k, NUL)
        decreases e - k
      {
        k := k + 1;
      }
    }

    /** Matches the first part of the pattern against the entries, the last entry first, and
        goes on in the containers that match.  While it does so the slash behind the part is
        overwritten by a zero. */
    method DispatchSubMessage(methods: CallbackList, pattern: array<char>, start: nat, ghost space: set<Container>)
      returns (ghost ps: seq<seq<nat>>, ghost out: seq<Method?>)
      requires this in space && methods.Valid() && Terminated(pattern[..], start)
      requires Closed(space)
      modifies methods, methods.methods, pattern
      ensures methods.Valid() && (methods.methods == old(methods.methods) || fresh(methods.methods))
      ensures pattern[..] == old(pattern[..])
      ensures methods.Contents() == old(methods.Contents()) + out
      ensures OnePerPath(space, this, Split(CString(pattern[..], start)), 0, ps, out)
      decreases pattern.Length - start, 1
    {
      hide *;
      hide CallbackList.Valid;
      var nextSlash := NextSlashOrNull(pattern, start);
      ghost var b := pattern[..];
      TerminatedStart(b, start);
      if pattern[nextSlash] == NUL {
        LastPart(b, start, nextSlash);
        ps, out := MatchMethods(methods, pattern, start, space);
      } else {
        CutAt(b, start, nextSlash);
        pattern[nextSlash] := NUL;
        assert pattern[..] == b[nextSlash := NUL];
        ps, out := MatchContainers(methods, pattern, start, nextSlash + 1, space);
        pattern[nextSlash] := '/';
        assert pattern[..] == b;
      }
    }

    lemma TerminatedStart(b: seq<char>, start: nat)
      requires Terminated(b, start)
      ensures start <= |b|
    {
    }

    method MatchMethods(methods: CallbackList, pattern: array<char>, start: nat, ghost space: set<Container>)
      returns (ghost ps: seq<seq<nat>>, ghost out: seq<Method?>)
      requires this in space && methods.Valid() && start <= pattern.Length
      requires Closed(space)
      modifies methods, methods.methods
      ensures methods.Valid() && (methods.methods == old(methods.methods) || fresh(methods.methods))
      ensures methods.Contents() == old(methods.Contents()) + out
      ensures OnePerPath(space, this, [CString(pattern[..], start)], 0, ps, out)
      decreases pattern.Length - start, 0
    {
      hide *;
      hide CallbackList.Valid, CallbackList.Contents;
      ghost var parts := [CString(pattern[..], start)];
      ps, out := [], [];
      NoPaths(space, this, parts, |methodEntries|);
      var i := |methodEntries|;
      while i > 0
        invariant 0 <= i <= |methodEntries|
        invariant methods.Valid() && (methods.methods == old(methods.methods) || fresh(methods.methods))
        invariant methods.Contents() == old(methods.Contents()) + out
        invariant OnePerPath(space, this, parts, i, ps, out)
      {
        i := i - 1;
        var matches := PatternMatch(CString(pattern[..], start), methodEntries[i].name);
        if matches {
          MethodFound(space, this, parts, i, ps, out);
          methods.Append(methodEntries[i].target);
          ps, out := ps + [[i]], out + [methodEntries[i].target];
        } else {
          MethodSkipped(space, this, parts, i, ps, out);
        }
      }
    }

    method MatchContainers(methods: CallbackList, pattern: array<char>, start: nat, rest: nat,
                           ghost space: set<Container>)
      returns (ghost ps: seq<seq<nat>>, ghost out: seq<Method?>)
      requires this in space && methods.Valid() && start < rest && Terminated(pattern[..], rest)
               && rest <= pattern.Length
      requires Closed(space)
      modifies methods, methods.methods, pattern
      ensures methods.Valid() && (methods.methods == old(methods.methods) || fresh(methods.methods))
      ensures pattern[..] == old(pattern[..])
      ensures methods.Contents() == old(methods.Contents()) + out
      ensures OnePerPath(space, this, [CString(pattern[..], start)] + Split(CString(pattern[..], rest)), 0, ps, out)
      decreases pattern.Length - start, 0
    {
      hide *;
      hide CallbackList.Valid, CallbackList.Contents;
      ghost var b := pattern[..];
      ghost var parts := [CString(b, start)] + Split(CString(b, rest));
      assert parts[1..] == Split(CString(b, rest));
      ps, out := [], [];
      NoPaths(space, this, parts, |containerEntries|);
      var i := |containerEntries|;
      while i > 0
        invariant 0 <= i <= |containerEntries|
        invariant methods.Valid() && (methods.methods == old(methods.methods) || fresh(methods.methods))
        invariant pattern[..] == b
        invariant methods.Contents() == old(methods.Contents()) + out
        invariant OnePerPath(space, this, parts, i, ps, out)
      {
        i := i - 1;
        var matches := PatternMatch(CString(pattern[..], start), containerEntries[i].name);
        if matches {
          ClosedAt(space, i);
          ghost var ps2, out2 := containerEntries[i].target.DispatchSubMessage(methods, pattern, rest, space);
          ContainerFound(space, this, parts, i, ps, out, ps2, out2);
          ps, out := ps + Prefixed(i, ps2), out + out2;
        } else {
          ContainerSkipped(space, this, parts, i, ps, out);
        }
      }
    }

    lemma ClosedAt(space: set<Container>, i: nat)
      requires this in space && Closed(space) && i < |containerEntries|
      ensures containerEntries[i].target in space
    {
    }
  }
}
