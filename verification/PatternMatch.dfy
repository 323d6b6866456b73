/** The wildcard matcher of WOscPatternMatch.cpp.  A string is its characters without the
    terminating zero. */
module PatternMatching {
  /** The position of the first c, or the length. */
  function Find(s: string, c: char): (k: nat)
    ensures k <= |s| && c !in s[..k] && (k < |s| ==> s[k] == c)
  {
    if s == "" || s[0] == c then 0 else
      var k := 1 + Find(s[1..], c);
      assert s[..k] == [s[0]] + s[1..][..k - 1];
      k
  }

  lemma FindUnique(s: string, c: char, k: nat)
    requires k < |s| && s[k] == c && c !in s[..k]
    ensures Find(s, c) == k
  {
    var j := Find(s, c);
    assert forall i | 0 <= i < k :: s[..k][i] != c;
    assert forall i | 0 <= i < j :: s[..j][i] != c;
  }

  // ----- bracket sets

  /** The scan over a bracket set stops at position i for c: it stands there, or a range that
      has c begins there. */
  predicate StopsAt(p: string, i: nat, c: char)
    requires i < |p|
  {
    p[i] == c || (i + 2 < |p| && p[i + 1] == '-' && p[i] <= c <= p[i + 2])
  }

  /** The set spelt between the two positions has c. */
  ghost predicate Chooses(p: string, lo: nat, hi: nat, c: char)
    requires hi <= |p|
  {
    exists i: nat | lo <= i < hi :: StopsAt(p, i, c)
  }

  predicate IsNegated(p: string) {
    |p| > 1 && p[1] == '!'
  }

  /** The scan begins at the opening bracket itself, or at the exclamation mark. */
  function SetStart(p: string): nat {
    if IsNegated(p) then 1 else 0
  }

  // ----- lists of alternatives

  ghost function Alternatives(body: string): (alts: seq<string>)
    ensures alts != []
    decreases |body|
  {
    var k := Find(body, ',');
    if k == |body| then [body] else [body[..k]] + Alternatives(body[k + 1..])
  }

  function Last<T>(s: seq<T>): T
    requires s != []
  {
    s[|s| - 1]
  }

  // ----- what the matcher accepts

  ghost predicate Accepts(p: string, t: string)
    decreases |p| + |t|, 0
  {
    if p == "" then t == "" || (t[0] == '*' && Accepts(p, t[1..]))
    else if t == "" then p[0] == '*' && Accepts(p[1..], t)
    else if t[0] == '*' then Accepts(p, t[1..]) || Accepts(p[1..], t)
    else if t[0] == '?' then Accepts(p[1..], t[1..])
    else match p[0]
      case '?' => Accepts(p[1..], t[1..])
      case '*' => Accepts(p[1..], t) || Accepts(p, t[1..])
      case ']' => false
      case '}' => false
      case '[' =>
        var e := Find(p, ']');
        e < |p| && Chooses(p, SetStart(p), e, t[0]) != IsNegated(p) && Accepts(p[e + 1..], t[1..])
      case '{' =>
        var e := Find(p, '}');
        e < |p| && OneAccepted(Alternatives(p[1..e]), p[e + 1..], t)
      case '\\' => |p| > 1 && p[1] == t[0] && Accepts(p[2..], t[1..])
      case _ => p[0] == t[0] && Accepts(p[1..], t[1..])
  }

  /** Some alternative is a prefix and the rest matches behind it, or the last alternative is
      not a prefix and the rest matches the whole. */
  ghost predicate OneAccepted(alts: seq<string>, rest: string, t: string)
    requires alts != []
    decreases |rest| + |t|, 1
  {
    || (exists j | 0 <= j < |alts| && alts[j] <= t :: Accepts(rest, t[|alts[j]|..]))
    || (!(Last(alts) <= t) && Accepts(rest, t))
  }

  // ----- the matcher

  method PatternMatch(pattern: string, test: string) returns (matches: bool)
    ensures matches == Accepts(pattern, test)
    decreases |pattern| + |test|, 1
  {
    hide Chooses, OneAccepted, Alternatives, Find;
    if pattern == "" {
      if test == "" { return true; }
      if test[0] == '*' {
        matches := PatternMatch(pattern, test[1..]);
        return;
      }
      return false;
    }
    if test == "" {
      if pattern[0] == '*' {
        matches := PatternMatch(pattern[1..], test);
        return;
      }
      return false;
    }
    if test[0] == '*' {
      matches := PatternMatch(pattern, test[1..]);
      if !matches {
        matches := PatternMatch(pattern[1..], test);
      }
      return;
    }
    if test[0] == '?' {
      matches := PatternMatch(pattern[1..], test[1..]);
      return;
    }
    match pattern[0] {
      case '?' => matches := PatternMatch(pattern[1..], test[1..]);
      case '*' =>
        matches := PatternMatch(pattern[1..], test);
        if !matches {
          matches := PatternMatch(pattern, test[1..]);
        }
      case ']' => matches := false;
      case '}' => matches := false;
      case '[' => matches := MatchBrackets(pattern, test);
      case '{' => matches := MatchList(pattern, test);
      case '\\' =>
        if |pattern| == 1 || pattern[1] != test[0] { return false; }
        matches := PatternMatch(pattern[2..], test[1..]);
      case _ =>
        if pattern[0] != test[0] { return false; }
        matches := PatternMatch(pattern[1..], test[1..]);
    }
  }

  method MatchBrackets(pattern: string, test: string) returns (matches: bool)
    requires pattern != "" && pattern[0] == '[' && test != ""
    ensures matches == (Find(pattern, ']') < |pattern|
                        && Chooses(pattern, SetStart(pattern), Find(pattern, ']'), test[0]) != IsNegated(pattern)
                        && Accepts(pattern[Find(pattern, ']') + 1..], test[1..]))
    decreases |pattern| + |test|, 0
  {
    hide Find, Accepts;
    var negated := false;
    var p := 0;
    if |pattern| == 1 { return false; }
    if pattern[1] == '!' {
      negated := true;
      p := 1;
    }
    ghost var start := p;
    var chosen := false;
    while p < |pattern| && pattern[p] != ']' && !chosen
      invariant start <= p <= |pattern| && ']' !in pattern[..p]
      invariant chosen ==> p < |pattern| && pattern[p] != ']' && StopsAt(pattern, p, test[0])
      invariant forall i: nat | start <= i < p :: !StopsAt(pattern, i, test[0])
      decreases |pattern| - p, if chosen then 0 else 1
    {
      if p + 2 < |pattern| && pattern[p + 1] == '-' && pattern[p] <= test[0] <= pattern[p + 2] {
        chosen := true;
      } else if pattern[p] == test[0] {
        chosen := true;
      } else {
        assert pattern[..p + 1] == pattern[..p] + [pattern[p]];
        p := p + 1;
      }
    }
    if p == |pattern| { return false; }
    ghost var q := p;
    if chosen == negated {
      ScanChooses(pattern, start, q, test[0], chosen);
      return false;
    }
    while p < |pattern| && pattern[p] != ']'
      invariant q <= p <= |pattern| && ']' !in pattern[..p]
    {
      assert pattern[..p + 1] == pattern[..p] + [pattern[p]];
      p := p + 1;
    }
    if p == |pattern| { return false; }
    FindUnique(pattern, ']', p);
    ScanChooses(pattern, start, q, test[0], chosen);
    matches := PatternMatch(pattern[p + 1..], test[1..]);
  }

  /** Where the scan stopped tells whether the set has the character. */
  lemma ScanChooses(p: string, start: nat, q: nat, c: char, chosen: bool)
    requires start <= q < |p| && ']' !in p[..q] && (p[q] == ']' <==> !chosen)
    requires chosen ==> StopsAt(p, q, c)
    requires forall i: nat | start <= i < q :: !StopsAt(p, i, c)
    ensures Find(p, ']') < |p| ==> (Chooses(p, start, Find(p, ']'), c) <==> chosen)
  {
    hide StopsAt;
    var e := Find(p, ']');
    if e < |p| {
      assert forall i | 0 <= i < q :: p[..q][i] != ']';
      if !chosen { FindUnique(p, ']', q); }
    }
  }

  method MatchList(pattern: string, test: string) returns (matches: bool)
    requires pattern != "" && pattern[0] == '{' && test != ""
    ensures matches == (Find(pattern, '}') < |pattern|
                        && OneAccepted(Alternatives(pattern[1..Find(pattern, '}')]),
                                       pattern[Find(pattern, '}') + 1..], test))
    decreases |pattern| + |test|, 0
  {
    hide Accepts, OneAccepted, Alternatives, Find;
    var e := 0;
    while e < |pattern| && pattern[e] != '}'
      invariant e <= |pattern| && '}' !in pattern[..e]
    {
      assert pattern[..e + 1] == pattern[..e] + [pattern[e]];
      e := e + 1;
    }
    if e == |pattern| { return false; }
    FindUnique(pattern, '}', e);
    var rest := pattern[e + 1..];
    var i, tp := 1, 0;
    ghost var a := 1;
    ghost var all := Alternatives(pattern[1..e]);
    while true
      invariant 1 <= a <= i <= e && tp <= |test|
      invariant Trying(pattern, a, i, e, test, tp)
      invariant OneAccepted(all, rest, test) == OneAccepted(Alternatives(pattern[a..e]), rest, test)
      decreases e - i
    {
      if pattern[i] == ',' {
        matches := PatternMatch(rest, test[tp..]);
        NextAlternative(pattern, a, i, e, rest, test, tp);
        if matches { return; }
        tp := 0;
        i := i + 1;
        a := i;
      } else if i == e {
        LastAlternative(pattern, a, e, rest, test, tp);
        matches := PatternMatch(rest, test[tp..]);
        return;
      } else if tp < |test| && pattern[i] == test[tp] {
        TryingOn(pattern, a, i, e, test, tp);
        i := i + 1;
        tp := tp + 1;
      } else {
        ghost var was := i;
        i := SkipAlternative(pattern, a, i, e);
        Mismatch(pattern, a, was, i, e, rest, test, tp);
        tp := 0;
        if pattern[i] == ',' {
          i := i + 1;
          a := i;
        }
      }
    }
  }

  /** To the end of the alternative. */
  method SkipAlternative(pattern: string, ghost a: nat, i: nat, e: nat) returns (j: nat)
    requires a <= i < e < |pattern| && pattern[i] != ',' && ',' !in pattern[a..i]
    ensures i < j <= e && ',' !in pattern[a..j] && (j < e ==> pattern[j] == ',')
  {
    j := i;
    while j < e && pattern[j] != ','
      invariant i <= j <= e && ',' !in pattern[a..j]
      invariant j == i ==> pattern[j] != ',' && j < e
    {
      assert pattern[a..j + 1] == pattern[a..j] + [pattern[j]];
      j := j + 1;
    }
  }

  /** The alternative that begins at a agrees with the name up to position i of the pattern and
      tp of the name, or it is the last one and has been given up. */
  ghost predicate Trying(p: string, a: nat, i: nat, e: nat, t: string, tp: nat)
    requires a <= i <= e <= |p| && tp <= |t|
  {
    ',' !in p[a..i] && (p[a..i] == t[..tp] || (i == e && tp == 0 && !(p[a..e] <= t)))
  }

  lemma TryingOn(p: string, a: nat, i: nat, e: nat, t: string, tp: nat)
    requires a <= i < e <= |p| && tp < |t| && p[i] == t[tp] && p[i] != ',' && Trying(p, a, i, e, t, tp)
    ensures Trying(p, a, i + 1, e, t, tp + 1)
  {
    assert p[a..i + 1] == p[a..i] + [p[i]];
    assert t[..tp + 1] == t[..tp] + [t[tp]];
  }

  lemma NextAlternative(p: string, a: nat, i: nat, e: nat, rest: string, t: string, tp: nat)
    requires a <= i <= e < |p| && p[e] == '}' && p[i] == ',' && tp <= |t| && Trying(p, a, i, e, t, tp)
    ensures i < e
    ensures OneAccepted(Alternatives(p[a..e]), rest, t)
            <==> Accepts(rest, t[tp..]) || OneAccepted(Alternatives(p[i + 1..e]), rest, t)
    ensures Trying(p, i + 1, i + 1, e, t, 0)
  {
    assert p[a..e][..i - a] == p[a..i] && p[a..e][i - a + 1..] == p[i + 1..e];
    ListNext(p[a..e], i - a, rest, t);
    assert p[a..i] <= t && |p[a..i]| == tp;
  }

  lemma LastAlternative(p: string, a: nat, e: nat, rest: string, t: string, tp: nat)
    requires a <= e < |p| && tp <= |t| && Trying(p, a, e, e, t, tp)
    ensures OneAccepted(Alternatives(p[a..e]), rest, t) <==> Accepts(rest, t[tp..])
  {
    ListLast(p[a..e], rest, t);
    assert t[0..] == t;
    if p[a..e] == t[..tp] { assert p[a..e] <= t; }
  }

  lemma Mismatch(p: string, a: nat, i: nat, j: nat, e: nat, rest: string, t: string, tp: nat)
    requires a <= i < j <= e < |p| && p[e] == '}' && tp <= |t| && Trying(p, a, i, e, t, tp)
    requires tp < |t| ==> p[i] != t[tp]
    requires ',' !in p[a..j] && (j < e ==> p[j] == ',')
    ensures if p[j] == ',' then
              j < e && Trying(p, j + 1, j + 1, e, t, 0)
              && OneAccepted(Alternatives(p[a..e]), rest, t) == OneAccepted(Alternatives(p[j + 1..e]), rest, t)
            else Trying(p, a, j, e, t, 0)
  {
    hide OneAccepted, Alternatives;
    assert p[a..i] == t[..tp];
    assert p[a..j][i - a] == p[i];
    assert !(p[a..j] <= t);
    if j < e {
      assert p[a..e][..j - a] == p[a..j] && p[a..e][j - a + 1..] == p[j + 1..e];
      ListNext(p[a..e], j - a, rest, t);
    }
  }

  /** The first alternative, and the others. */
  lemma ListNext(body: string, k: nat, rest: string, t: string)
    requires k < |body| && body[k] == ',' && ',' !in body[..k]
    ensures OneAccepted(Alternatives(body), rest, t)
            <==> (body[..k] <= t && Accepts(rest, t[k..])) || OneAccepted(Alternatives(body[k + 1..]), rest, t)
  {
    FindUnique(body, ',', k);
    var first, others := body[..k], Alternatives(body[k + 1..]);
    hide Accepts;
    assert Alternatives(body) == [first] + others;
    assert Last([first] + others) == Last(others);
    forall j | 0 <= j < |others| ensures others[j] == ([first] + others)[j + 1] {}
    assert ([first] + others)[0] == first;
  }

  lemma ListLast(body: string, rest: string, t: string)
    requires ',' !in body
    ensures OneAccepted(Alternatives(body), rest, t)
            <==> if body <= t then Accepts(rest, t[|body|..]) else Accepts(rest, t)
  {
    assert Find(body, ',') == |body|;
    hide Accepts;
    assert Alternatives(body) == [body];
    assert [body][0] == body;
  }
}
