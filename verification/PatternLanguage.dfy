/** The language of a pattern: which names the matcher accepts, independently of how it
    searches. */
module PatternLanguage {
  import opened PatternMatching

  datatype Token =
    | Any
    | One
    | Literal(c: char)
    | OneOf(members: string, negated: bool)
    | Choice(alternatives: seq<string>)
    | Never

  ghost function Tokens(p: string): seq<Token>
    decreases |p|
  {
    if p == "" then []
    else match p[0]
      case '?' => [One] + Tokens(p[1..])
      case '*' => [Any] + Tokens(p[1..])
      case ']' => [Never]
      case '}' => [Never]
      case '[' =>
        var e := Find(p, ']');
        if e == |p| then [Never] else [OneOf(p[SetStart(p)..e + 1], IsNegated(p))] + Tokens(p[e + 1..])
      case '{' =>
        var e := Find(p, '}');
        if e == |p| then [Never] else [Choice(Alternatives(p[1..e]))] + Tokens(p[e + 1..])
      case '\\' => if |p| == 1 then [Never] else [Literal(p[1])] + Tokens(p[2..])
      case _ => [Literal(p[0])] + Tokens(p[1..])
  }

  /** The token covers the first k characters of the name w.  A list is read as coded: it
      never matches at the end of the name, and it matches nothing at all if its last
      alternative is no prefix. */
  ghost predicate Covers(token: Token, w: string, k: nat)
    requires k <= |w|
  {
    match token
    case Any => true
    case One => k == 1
    case Literal(c) => k == 1 && w[0] == c
    case OneOf(m, negated) => k == 1 && m != "" && Chooses(m, 0, |m| - 1, w[0]) != negated
    case Choice(alts) => w != "" && (w[..k] in alts || (k == 0 && alts != [] && !(Last(alts) <= w)))
    case Never => false
  }

  /** The name can be cut into pieces that are covered by the tokens one after the other. */
  ghost predicate InLanguage(ts: seq<Token>, w: string)
    decreases |ts|
  {
    if ts == [] then w == ""
    else exists k: nat | k <= |w| :: Covers(ts[0], w, k) && InLanguage(ts[1..], w[k..])
  }

  ghost predicate Plain(t: string) {
    forall c | c in t :: c != '*' && c != '?'
  }

  lemma PlainTail(t: string, k: nat)
    requires Plain(t) && k <= |t|
    ensures Plain(t[k..])
  {
    assert forall c | c in t[k..] :: c in t;
  }

  /** A token that covers exactly one character. */
  lemma OneStep(token: Token, ts: seq<Token>, w: string)
    requires token.One? || token.Literal? || token.OneOf?
    ensures InLanguage([token] + ts, w) <==> w != "" && Covers(token, w, 1) && InLanguage(ts, w[1..])
  {
    assert ([token] + ts)[1..] == ts;
  }

  lemma AnyAnywhere(ts: seq<Token>, w: string)
    ensures InLanguage([Any] + ts, w) <==> exists k: nat | k <= |w| :: InLanguage(ts, w[k..])
  {
    assert ([Any] + ts)[1..] == ts;
    if InLanguage([Any] + ts, w) {
      var k: nat :| k <= |w| && Covers(Any, w, k) && InLanguage(ts, w[k..]);
    }
    if k: nat :| k <= |w| && InLanguage(ts, w[k..]) {
      assert Covers(Any, w, k);
    }
  }

  lemma AnyStep(ts: seq<Token>, w: string)
    ensures InLanguage([Any] + ts, w) <==> InLanguage(ts, w) || (w != "" && InLanguage([Any] + ts, w[1..]))
  {
    hide InLanguage;
    AnyAnywhere(ts, w);
    assert w[0..] == w;
    if w != "" {
      AnyAnywhere(ts, w[1..]);
      forall k: nat | k < |w| ensures w[1..][k..] == w[k + 1..] {}
      if InLanguage([Any] + ts, w) {
        var k: nat :| k <= |w| && InLanguage(ts, w[k..]);
        if k > 0 { assert w[1..][k - 1..] == w[k..]; }
      }
    }
  }

  lemma EmptyLanguage(w: string)
    ensures InLanguage([], w) <==> w == ""
  {
  }

  lemma NeverStep(ts: seq<Token>, w: string)
    ensures !InLanguage([Never] + ts, w) && (ts == [] ==> !InLanguage([Never], w))
  {
  }

  lemma SetStep(p: string, e: nat, c: char)
    requires p != "" && p[0] == '[' && e < |p| && Find(p, ']') == e
    ensures var m := p[SetStart(p)..e + 1];
            Chooses(p, SetStart(p), e, c) <==> Chooses(m, 0, |m| - 1, c)
  {
    var lo := SetStart(p);
    var m := p[lo..e + 1];
    forall i: nat | lo <= i < e ensures StopsAt(p, i, c) <==> StopsAt(m, i - lo, c) {
      assert m[i - lo] == p[i] && m[i - lo + 1] == p[i + 1];
      if i + 1 < e { assert m[i - lo + 2] == p[i + 2]; }
    }
    if Chooses(m, 0, |m| - 1, c) {
      var i: nat :| i < |m| - 1 && StopsAt(m, i, c);
      assert StopsAt(p, i + lo, c);
    }
    if Chooses(p, lo, e, c) {
      var i: nat :| lo <= i < e && StopsAt(p, i, c);
      assert StopsAt(m, i - lo, c);
    }
  }

  lemma ChoiceStep(alts: seq<string>, rest: string, t: string)
    requires alts != []
    requires forall k: nat | k <= |t| :: Accepts(rest, t[k..]) <==> InLanguage(Tokens(rest), t[k..])
    ensures InLanguage([Choice(alts)] + Tokens(rest), t) <==> t != "" && OneAccepted(alts, rest, t)
  {
    hide Accepts, Tokens;
    var ts := [Choice(alts)] + Tokens(rest);
    assert ts[1..] == Tokens(rest);
    assert t[0..] == t;
    if InLanguage(ts, t) {
      var k: nat :| k <= |t| && Covers(ts[0], t, k) && InLanguage(ts[1..], t[k..]);
      if t[..k] in alts {
        var j :| 0 <= j < |alts| && alts[j] == t[..k];
        assert alts[j] <= t && Accepts(rest, t[|alts[j]|..]);
      }
    }
    if t != "" && OneAccepted(alts, rest, t) {
      if !(Last(alts) <= t) && Accepts(rest, t) {
        assert Covers(ts[0], t, 0);
      } else {
        var j :| 0 <= j < |alts| && alts[j] <= t && Accepts(rest, t[|alts[j]|..]);
        assert t[..|alts[j]|] == alts[j];
        assert Covers(ts[0], t, |alts[j]|);
      }
    }
  }

  /** For names without wildcards the matcher accepts exactly the language of the pattern. */
  lemma {:induction false} AcceptsTheLanguage(p: string, t: string)
    requires Plain(t)
    ensures Accepts(p, t) <==> InLanguage(Tokens(p), t)
    decreases |p| + |t|
  {
    EmptyLanguage(t);
    hide InLanguage, Find, Chooses, StopsAt, Alternatives, OneAccepted;
    if t != "" { assert t[0] in t; }
    if p == "" {
    } else {
      match p[0] {
        case '*' =>
          AnyStep(Tokens(p[1..]), t);
          AcceptsTheLanguage(p[1..], t);
          if t != "" {
            PlainTail(t, 1);
            AcceptsTheLanguage(p, t[1..]);
          }
        case '?' =>
          OneStep(One, Tokens(p[1..]), t);
          AcceptsTail(p[1..], t, |p| + |t|);
        case '[' => AcceptsSet(p, t);
        case '{' => AcceptsChoice(p, t);
        case ']' => NeverStep([], t);
        case '}' => NeverStep([], t);
        case '\\' =>
          if |p| == 1 {
            NeverStep([], t);
          } else {
            OneStep(Literal(p[1]), Tokens(p[2..]), t);
            AcceptsTail(p[2..], t, |p| + |t|);
          }
        case _ =>
          OneStep(Literal(p[0]), Tokens(p[1..]), t);
          AcceptsTail(p[1..], t, |p| + |t|);
      }
    }
  }

  lemma {:induction false} AcceptsSet(p: string, t: string)
    requires Plain(t) && p != "" && p[0] == '['
    ensures Accepts(p, t) <==> InLanguage(Tokens(p), t)
    decreases |p| + |t|, 1
  {
    hide Accepts, InLanguage, Find, Chooses, StopsAt, Tokens;
    var e := Find(p, ']');
    SetTokens(p);
    if t != "" { assert t[0] in t; }
    SetAccepts(p, t);
    if e == |p| {
      NeverStep([], t);
    } else {
      OneStep(OneOf(p[SetStart(p)..e + 1], IsNegated(p)), Tokens(p[e + 1..]), t);
      AcceptsTail(p[e + 1..], t, |p| + |t|);
      if t != "" { SetStep(p, e, t[0]); }
    }
  }

  lemma SetTokens(p: string)
    requires p != "" && p[0] == '['
    ensures var e := Find(p, ']');
            Tokens(p) == if e == |p| then [Never]
                         else [OneOf(p[SetStart(p)..e + 1], IsNegated(p))] + Tokens(p[e + 1..])
  {
    hide Find, Alternatives, SetStart, IsNegated;
  }

  lemma SetAccepts(p: string, t: string)
    requires p != "" && p[0] == '[' && (t != "" ==> t[0] != '*' && t[0] != '?')
    ensures var e := Find(p, ']');
            Accepts(p, t)
            <==> t != "" && e < |p| && Chooses(p, SetStart(p), e, t[0]) != IsNegated(p) && Accepts(p[e + 1..], t[1..])
  {
    hide Find, Chooses;
  }

  lemma {:induction false} AcceptsChoice(p: string, t: string)
    requires Plain(t) && p != "" && p[0] == '{'
    ensures Accepts(p, t) <==> InLanguage(Tokens(p), t)
    decreases |p| + |t|, 1
  {
    hide Accepts, InLanguage, Find, Alternatives, OneAccepted, Tokens;
    var e := Find(p, '}');
    ListTokens(p);
    if t == "" {
      ListAtEnd(p);
    } else {
      assert t[0] in t;
      AcceptsList(p, t);
    }
    if e == |p| {
      NeverStep([], t);
    } else {
      AcceptsTails(p[e + 1..], t, |p| + |t|);
      ChoiceStep(Alternatives(p[1..e]), p[e + 1..], t);
    }
  }

  lemma ListAtEnd(p: string)
    requires p != "" && p[0] == '{'
    ensures !Accepts(p, "")
  {
  }

  lemma ListTokens(p: string)
    requires p != "" && p[0] == '{'
    ensures var e := Find(p, '}');
            Tokens(p) == if e == |p| then [Never] else [Choice(Alternatives(p[1..e]))] + Tokens(p[e + 1..])
  {
    hide Find, Alternatives;
  }

  lemma {:induction false} AcceptsTail(p: string, t: string, n: nat)
    requires Plain(t) && |p| + |t| < n
    ensures t != "" ==> (Accepts(p, t[1..]) <==> InLanguage(Tokens(p), t[1..]))
    decreases n, 0
  {
    if t != "" {
      PlainTail(t, 1);
      AcceptsTheLanguage(p, t[1..]);
    }
  }

  lemma {:induction false} AcceptsTails(p: string, t: string, n: nat)
    requires Plain(t) && |p| + |t| < n
    ensures forall k: nat | k <= |t| :: Accepts(p, t[k..]) <==> InLanguage(Tokens(p), t[k..])
    decreases n, 0
  {
    forall k: nat | k <= |t| ensures Accepts(p, t[k..]) <==> InLanguage(Tokens(p), t[k..]) {
      PlainTail(t, k);
      AcceptsTheLanguage(p, t[k..]);
    }
  }

  // ----- names with wildcards

  function NameTokens(t: string): seq<Token> {
    if t == "" then []
    else [if t[0] == '*' then Any else if t[0] == '?' then One else Literal(t[0])] + NameTokens(t[1..])
  }

  /** Without special characters, that is. */
  ghost predicate Ordinary(p: string) {
    forall c | c in p :: c !in "?*[]{}\\"
  }

  lemma OrdinaryHead(p: string)
    requires Ordinary(p) && p != ""
    ensures p[0] !in "?*[]{}\\" && Ordinary(p[1..])
    ensures p[0] != '?' && p[0] != '*' && p[0] != '[' && p[0] != ']' && p[0] != '{' && p[0] != '}' && p[0] != '\\'
  {
    assert p[0] in p;
    assert "?*[]{}\\"[0] == '?' && "?*[]{}\\"[1] == '*' && "?*[]{}\\"[2] == '[' && "?*[]{}\\"[3] == ']';
    assert "?*[]{}\\"[4] == '{' && "?*[]{}\\"[5] == '}' && "?*[]{}\\"[6] == '\\';
  }

  /** The roles change for names with wildcards: an address without special characters is
      accepted exactly if it lies in the language of the name. */
  lemma {:induction false} WildcardNames(p: string, t: string)
    requires Ordinary(p)
    ensures Accepts(p, t) <==> InLanguage(NameTokens(t), p)
    decreases |p| + |t|
  {
    if p != "" { OrdinaryHead(p); }
    if t != "" {
      if t[0] == '*' {
        AnyStep(NameTokens(t[1..]), p);
        WildcardNames(p, t[1..]);
        if p != "" { WildcardNames(p[1..], t); }
      } else {
        var token := if t[0] == '?' then One else Literal(t[0]);
        OneStep(token, NameTokens(t[1..]), p);
        if p != "" { WildcardNames(p[1..], t[1..]); }
      }
    }
  }

  // ----- a single list between ordinary texts

  lemma {:induction false} OrdinaryPrefix(pre: string, p: string, t: string)
    requires Ordinary(pre) && Plain(t)
    ensures Accepts(pre + p, t) <==> pre <= t && Accepts(p, t[|pre|..])
  {
    if pre == "" {
      assert pre + p == p && t[0..] == t;
    } else {
      OrdinaryHead(pre);
      assert (pre + p)[1..] == pre[1..] + p && (pre + p)[0] == pre[0];
      if t != "" {
        assert t[0] in t;
        PlainTail(t, 1);
        OrdinaryPrefix(pre[1..], p, t[1..]);
        if pre <= t { assert t[1..][|pre| - 1..] == t[|pre|..]; }
        assert pre <= t <==> pre[0] == t[0] && pre[1..] <= t[1..] by {
          if pre[0] == t[0] && pre[1..] <= t[1..] {
            assert pre == [pre[0]] + pre[1..] && t == [t[0]] + t[1..];
          }
        }
        if pre[0] == t[0] && pre[1..] <= t[1..] { assert t[1..][|pre| - 1..] == t[|pre|..]; }
      }
    }
  }

  lemma OrdinaryWhole(p: string, t: string)
    requires Ordinary(p) && Plain(t)
    ensures Accepts(p, t) <==> p == t
  {
    assert p + "" == p;
    OrdinaryPrefix(p, "", t);
    if p <= t && t[|p|..] != "" { assert t[|p|..][0] in t; }
  }

  /** A list between ordinary text: when the matcher accepts. */
  lemma ListPattern(pre: string, body: string, post: string, t: string)
    requires Ordinary(pre) && Ordinary(post) && '}' !in body && Plain(t)
    ensures Accepts(pre + "{" + body + "}" + post, t)
            <==> || (t == pre + post && post != "" && !(Last(Alternatives(body)) <= post))
                 || (t != pre && exists j | 0 <= j < |Alternatives(body)| :: t == pre + Alternatives(body)[j] + post)
  {
    hide Accepts, Alternatives, Find;
    var list := "{" + body + "}" + post;
    var alts := Alternatives(body);
    assert pre + "{" + body + "}" + post == pre + list;
    OrdinaryPrefix(pre, list, t);
    if pre <= t {
      var v := t[|pre|..];
      assert t == pre + v;
      assert list[|body| + 1] == '}' && list[..|body| + 1] == "{" + body;
      FindUnique(list, '}', |body| + 1);
      assert list[1..|body| + 1] == body && list[|body| + 2..] == post;
      PlainTail(t, |pre|);
      BehindPrefixes(alts, post, v);
      OrdinaryWhole(post, v);
      ListAccepts(list, alts, post, v);
      forall j | 0 <= j < |alts| ensures t == pre + alts[j] + post <==> v == alts[j] + post {
        SamePrefix(pre, v, alts[j] + post);
        assert pre + alts[j] + post == pre + (alts[j] + post);
      }
      SamePrefix(pre, v, post);
    }
  }

  lemma SamePrefix(pre: string, v: string, w: string)
    ensures pre + v == pre + w <==> v == w
  {
    assert (pre + v)[|pre|..] == v && (pre + w)[|pre|..] == w;
  }

  lemma BehindPrefixes(alts: seq<string>, post: string, v: string)
    requires Ordinary(post) && Plain(v)
    ensures forall j | 0 <= j < |alts| && alts[j] <= v :: Accepts(post, v[|alts[j]|..]) <==> v == alts[j] + post
  {
    hide Accepts;
    forall j | 0 <= j < |alts| && alts[j] <= v ensures Accepts(post, v[|alts[j]|..]) <==> v == alts[j] + post {
      assert v == alts[j] + v[|alts[j]|..];
      PlainTail(v, |alts[j]|);
      OrdinaryWhole(post, v[|alts[j]|..]);
      SamePrefix(alts[j], v[|alts[j]|..], post);
    }
  }

  lemma ListAccepts(list: string, alts: seq<string>, post: string, v: string)
    requires list != "" && list[0] == '{' && Plain(v) && alts != []
    requires Find(list, '}') < |list| && alts == Alternatives(list[1..Find(list, '}')])
             && post == list[Find(list, '}') + 1..]
    requires forall j | 0 <= j < |alts| && alts[j] <= v :: Accepts(post, v[|alts[j]|..]) <==> v == alts[j] + post
    requires Accepts(post, v) <==> post == v
    ensures Accepts(list, v) <==> v != "" && ((v == post && !(Last(alts) <= post))
                                              || exists j | 0 <= j < |alts| :: v == alts[j] + post)
  {
    if v != "" {
      assert v[0] in v;
      AcceptsList(list, v);
      hide Accepts, Find, Alternatives;
      forall j | 0 <= j < |alts| && v == alts[j] + post ensures alts[j] <= v {}
    }
  }

  lemma AcceptsList(list: string, v: string)
    requires list != "" && list[0] == '{' && v != "" && v[0] != '*' && v[0] != '?'
    ensures Accepts(list, v) <==>
              Find(list, '}') < |list|
              && OneAccepted(Alternatives(list[1..Find(list, '}')]), list[Find(list, '}') + 1..], v)
  {
    hide Find, OneAccepted, Alternatives;
  }
}
