/** What a pattern means in OpenSound Control 1.0, section "OSC Message Dispatching and Pattern
    Matching", and exactly where the matcher differs. */
module OscPatterns {
  import opened PatternMatching
  import opened PatternLanguage

  // ----- the protocol

  /** Two characters with a minus sign between them are a range, and a minus sign at the end
      has no special meaning. */
  ghost predicate OscMember(body: string, c: char) {
    if body == "" then false
    else if |body| >= 3 && body[1] == '-' then body[0] <= c <= body[2] || OscMember(body[3..], c)
    else body[0] == c || OscMember(body[1..], c)
  }

  /** The characters between the mark of a set and its closing bracket. */
  function Body(members: string): string {
    if |members| < 2 then "" else members[1..|members| - 1]
  }

  /** The pieces of a pattern: a backslash is a character like others.  Patterns with a
      bracket or brace left open or closed in vain are not patterns of the protocol; they
      match nothing. */
  ghost function OscTokens(p: string): seq<Token>
    decreases |p|
  {
    if p == "" then []
    else if p[0] == '[' then
      var e := Find(p, ']');
      if e == |p| then [Never] else [OneOf(p[SetStart(p)..e + 1], IsNegated(p))] + OscTokens(p[e + 1..])
    else if p[0] == '{' then
      var e := Find(p, '}');
      if e == |p| then [Never] else [Choice(Alternatives(p[1..e]))] + OscTokens(p[e + 1..])
    else if p[0] == ']' || p[0] == '}' then [Never]
    else [if p[0] == '?' then One else if p[0] == '*' then Any else Literal(p[0])] + OscTokens(p[1..])
  }

  /** A set covers one of its members, or one of the other characters, and a list covers
      exactly its alternatives. */
  ghost predicate CoversInOsc(token: Token, w: string, k: nat)
    requires k <= |w|
  {
    match token
    case Any => true
    case One => k == 1
    case Literal(c) => k == 1 && w[0] == c
    case OneOf(m, negated) => k == 1 && m != "" && OscMember(Body(m), w[0]) != negated
    case Choice(alts) => w[..k] in alts
    case Never => false
  }

  ghost predicate InOscLanguage(ts: seq<Token>, w: string)
    decreases |ts|
  {
    if ts == [] then w == ""
    else exists k: nat | k <= |w| :: CoversInOsc(ts[0], w, k) && InOscLanguage(ts[1..], w[k..])
  }

  ghost predicate OscMatches(p: string, t: string) { InOscLanguage(OscTokens(p), t) }

  // ----- backslashes

  lemma SetCutInOsc(p: string)
    requires p != "" && p[0] == '['
    ensures var e := Find(p, ']');
            OscTokens(p) == if e == |p| then [Never]
                            else [OneOf(p[SetStart(p)..e + 1], IsNegated(p))] + OscTokens(p[e + 1..])
  {
    hide Find;
  }

  lemma ListCutInOsc(p: string)
    requires p != "" && p[0] == '{'
    ensures var e := Find(p, '}');
            OscTokens(p) == if e == |p| then [Never] else [Choice(Alternatives(p[1..e]))] + OscTokens(p[e + 1..])
  {
    hide Find, Alternatives;
  }

  lemma CharacterCut(p: string)
    requires p != "" && p[0] != '\\' && p[0] != '[' && p[0] != '{' && p[0] != ']' && p[0] != '}'
    ensures var token := if p[0] == '?' then One else if p[0] == '*' then Any else Literal(p[0]);
            Tokens(p) == [token] + Tokens(p[1..]) && OscTokens(p) == [token] + OscTokens(p[1..])
  {
    hide Find, Alternatives;
  }

  lemma StrayCut(p: string)
    requires p != "" && (p[0] == ']' || p[0] == '}')
    ensures Tokens(p) == [Never] == OscTokens(p)
  {
    hide Find, Alternatives;
  }

  /** Other characters than backslashes are cut alike. */
  lemma CutAlike(p: string) returns (stuck: bool, token: Token, rest: string)
    requires p != "" && p[0] != '\\'
    ensures stuck ==> Tokens(p) == [Never] == OscTokens(p)
    ensures !stuck ==>
              |rest| < |p| && Tokens(p) == [token] + Tokens(rest) && OscTokens(p) == [token] + OscTokens(rest)
  {
    hide Find, Alternatives, Tokens, OscTokens;
    stuck, token, rest := false, Never, "";
    if p[0] == '[' {
      SetTokens(p);
      SetCutInOsc(p);
      var e := Find(p, ']');
      if e == |p| { return true, Never, ""; }
      token, rest := OneOf(p[SetStart(p)..e + 1], IsNegated(p)), p[e + 1..];
    } else if p[0] == '{' {
      ListTokens(p);
      ListCutInOsc(p);
      var e := Find(p, '}');
      if e == |p| { return true, Never, ""; }
      token, rest := Choice(Alternatives(p[1..e])), p[e + 1..];
    } else if p[0] == ']' || p[0] == '}' {
      StrayCut(p);
      stuck := true;
    } else {
      CharacterCut(p);
      token, rest := if p[0] == '?' then One else if p[0] == '*' then Any else Literal(p[0]), p[1..];
    }
  }

  lemma BackslashStands(p: string)
    requires p != "" && p[0] == '\\'
    ensures Literal('\\') in OscTokens(p)
  {
    assert OscTokens(p)[0] == Literal('\\');
  }

  /** Only backslashes are cut differently by the matcher. */
  lemma {:induction false} SameTokens(p: string)
    requires Literal('\\') !in OscTokens(p)
    ensures Tokens(p) == OscTokens(p)
    decreases |p|
  {
    if p == "" {
    } else {
      hide Tokens, OscTokens;
      if p[0] == '\\' { BackslashStands(p); }
      var stuck, token, rest := CutAlike(p);
      if !stuck {
        assert forall x | x in OscTokens(rest) :: x in OscTokens(p);
        SameTokens(rest);
      }
    }
  }

  // ----- sets

  /** Names without wildcards bring only such characters to a set. */
  predicate PlainChar(c: char) { c != '*' && c != '?' }

  /** The scan of a set, from its mark to its closing bracket, has c. */
  ghost predicate ScanHas(members: string, c: char) {
    members != "" && Chooses(members, 0, |members| - 1, c)
  }

  /** A range as the scan sees it: any three characters of the string with a minus sign in the
      middle. */
  ghost predicate RangeAt(s: string, i: nat, c: char) {
    i + 2 < |s| && s[i + 1] == '-' && s[i] <= c <= s[i + 2]
  }

  ghost predicate InRange(s: string, c: char) {
    exists i: nat :: RangeAt(s, i, c)
  }

  lemma {:induction false} OscMemberSeen(body: string, c: char)
    requires OscMember(body, c)
    ensures c in body || InRange(body, c)
  {
    if |body| >= 3 && body[1] == '-' {
      if body[0] <= c <= body[2] {
        assert RangeAt(body, 0, c);
      } else {
        OscMemberSeen(body[3..], c);
        RangeInTail(body, 3, c);
      }
    } else if body[0] != c {
      OscMemberSeen(body[1..], c);
      RangeInTail(body, 1, c);
    }
  }

  lemma RangeInTail(s: string, n: nat, c: char)
    requires n <= |s|
    ensures InRange(s[n..], c) ==> InRange(s, c)
    ensures c in s[n..] ==> c in s
  {
    if InRange(s[n..], c) {
      var i: nat :| RangeAt(s[n..], i, c);
      assert RangeAt(s, n + i, c);
    }
  }

  /** What the scan takes for members: the mark, the characters of the body, and what lies in
      any range of the whole string. */
  lemma ScannedMembers(m: string, c: char)
    requires |m| >= 2
    ensures ScanHas(m, c) <==> c == m[0] || c in Body(m) || InRange(m, c)
  {
    var body := Body(m);
    assert forall i | 0 <= i < |body| :: m[i + 1] == body[i];
    if ScanHas(m, c) {
      var i: nat :| i < |m| - 1 && StopsAt(m, i, c);
      if m[i] != c {
        assert RangeAt(m, i, c);
      } else if i > 0 {
        assert body[i - 1] == m[i - 1 + 1];
      }
    }
    if c == m[0] { assert StopsAt(m, 0, c); }
    if c in body {
      var i :| 0 <= i < |body| && body[i] == c;
      assert StopsAt(m, i + 1, c);
    }
    if InRange(m, c) {
      var i: nat :| RangeAt(m, i, c);
      assert StopsAt(m, i, c);
    }
  }

  /** The scan misses no member of the protocol. */
  lemma MembersAreScanned(m: string, c: char)
    requires OscMember(Body(m), c)
    ensures ScanHas(m, c)
  {
    OscMemberSeen(Body(m), c);
    if InRange(Body(m), c) {
      var i: nat :| RangeAt(Body(m), i, c);
      assert RangeAt(m, i + 1, c);
    }
    hide ScanHas, OscMember, InRange;
    ScannedMembers(m, c);
  }

  /** The mark, every character of the body and every range of the scanned string are members
      by the protocol. */
  ghost predicate SetAsOsc(m: string) {
    |m| < 2
    || (&& (PlainChar(m[0]) ==> OscMember(Body(m), m[0]))
        && (forall i: nat | i < |Body(m)| && PlainChar(Body(m)[i]) :: OscMember(Body(m), Body(m)[i]))
        && (forall i: nat, c | RangeAt(m, i, c) && PlainChar(c) :: OscMember(Body(m), c)))
  }

  /** Exactly then the scan finds the members of the protocol and no others. */
  lemma SetAsOscMeans(m: string)
    ensures SetAsOsc(m) <==> forall c | PlainChar(c) :: ScanHas(m, c) <==> OscMember(Body(m), c)
  {
    hide OscMember;
    if |m| < 2 {
      NoMembers();
    } else {
      forall c ensures ScanHas(m, c) <==> c == m[0] || c in Body(m) || InRange(m, c) { ScannedMembers(m, c); }
      hide ScanHas, Body;
      forall c | OscMember(Body(m), c) ensures ScanHas(m, c) { MembersAreScanned(m, c); }
      if forall c | PlainChar(c) :: ScanHas(m, c) <==> OscMember(Body(m), c) {
        forall i: nat, c | RangeAt(m, i, c) && PlainChar(c) ensures OscMember(Body(m), c) {
          assert InRange(m, c);
        }
      }
    }
  }

  lemma NoMembers()
    ensures forall c :: !OscMember("", c)
  {
  }

  /** A set of the pattern as it is written. */
  function Written(body: string, negated: bool): string {
    "[" + (if negated then "!" else "") + body + "]"
  }

  /** The string that the scan of a set goes over: it begins with the opening bracket itself,
      or with the exclamation mark, and a range may end with the closing bracket. */
  function Scanned(body: string, negated: bool): string {
    (if negated then "!" else "[") + body + "]"
  }

  lemma SetCut(body: string, negated: bool, rest: string)
    requires ']' !in body && (!negated ==> body == "" || body[0] != '!')
    ensures var p := Written(body, negated) + rest;
            && Find(p, ']') == |body| + (if negated then 2 else 1) && IsNegated(p) == negated
            && p[SetStart(p)..Find(p, ']') + 1] == Scanned(body, negated)
            && p[Find(p, ']') + 1..] == rest && Body(Scanned(body, negated)) == body
  {
    var p, s, lo := Written(body, negated) + rest, Scanned(body, negated), if negated then 1 else 0;
    var e := lo + |s| - 1;
    assert p == p[..lo] + s + rest;
    assert p[..e] == p[..lo] + s[..|s| - 1] && p[e] == ']';
    FindUnique(p, ']', e);
  }

  /** The members of any set of a pattern. */
  lemma SetMembers(body: string, negated: bool, rest: string, c: char)
    requires ']' !in body && (!negated ==> body == "" || body[0] != '!')
    ensures var p := Written(body, negated) + rest;
            Chooses(p, SetStart(p), Find(p, ']'), c)
            <==> c == (if negated then '!' else '[') || c in body || InRange(Scanned(body, negated), c)
  {
    var p := Written(body, negated) + rest;
    SetCut(body, negated, rest);
    ScannedMembers(Scanned(body, negated), c);
    SetStep(p, Find(p, ']'), c);
  }

  /** A set of a pattern has every member of the protocol, and it treats every character of the
      names as the protocol does if and only if its mark, the characters of its body and the
      ranges of the scanned string are members by the protocol. */
  lemma SetMeetsOsc(body: string, negated: bool, rest: string)
    requires ']' !in body && (!negated ==> body == "" || body[0] != '!')
    ensures var p := Written(body, negated) + rest;
            && (forall c | OscMember(body, c) :: Chooses(p, SetStart(p), Find(p, ']'), c))
            && ((forall c | PlainChar(c) :: Chooses(p, SetStart(p), Find(p, ']'), c) <==> OscMember(body, c))
                <==> SetAsOsc(Scanned(body, negated)))
  {
    var p, m := Written(body, negated) + rest, Scanned(body, negated);
    SetCut(body, negated, rest);
    SetAsOscMeans(m);
    hide SetAsOsc, OscMember;
    forall c
      ensures Chooses(p, SetStart(p), Find(p, ']'), c) <==> ScanHas(m, c)
      ensures OscMember(body, c) ==> ScanHas(m, c)
    {
      SetStep(p, Find(p, ']'), c);
      if OscMember(body, c) { MembersAreScanned(m, c); }
    }
  }

  // ----- patterns whose lists and sets are harmless

  /** Only stars and lists with an empty alternative can do without a character. */
  predicate TakesOne(token: Token) {
    !token.Any? && (token.Choice? ==> "" !in token.alternatives)
  }

  /** Some token takes a character of its own. */
  ghost predicate Demands(ts: seq<Token>) {
    exists i | 0 <= i < |ts| :: TakesOne(ts[i])
  }

  /** Behind every list with an empty alternative something is demanded. */
  ghost predicate EmptyOnesFollowed(ts: seq<Token>) {
    forall i | 0 <= i < |ts| && ts[i].Choice? && "" in ts[i].alternatives :: Demands(ts[i + 1..])
  }

  /** Every list has an empty alternative, unless the pattern ends with it. */
  ghost predicate EmptyBeforeLast(ts: seq<Token>) {
    forall i | 0 <= i < |ts| - 1 && ts[i].Choice? :: "" in ts[i].alternatives
  }

  ghost predicate PlainSetsAsOsc(ts: seq<Token>) {
    forall i | 0 <= i < |ts| && ts[i].OneOf? && !ts[i].negated :: SetAsOsc(ts[i].members)
  }

  ghost predicate NegatedSetsAsOsc(ts: seq<Token>) {
    forall i | 0 <= i < |ts| && ts[i].OneOf? && ts[i].negated :: SetAsOsc(ts[i].members)
  }

  lemma Tails(ts: seq<Token>)
    requires ts != []
    ensures EmptyOnesFollowed(ts) ==> EmptyOnesFollowed(ts[1..])
    ensures EmptyBeforeLast(ts) ==> EmptyBeforeLast(ts[1..])
    ensures PlainSetsAsOsc(ts) ==> PlainSetsAsOsc(ts[1..])
    ensures NegatedSetsAsOsc(ts) ==> NegatedSetsAsOsc(ts[1..])
  {
    hide SetAsOsc;
    assert forall i | 0 <= i < |ts| - 1 :: ts[1..][i] == ts[i + 1] && ts[1..][i + 1..] == ts[i + 1 + 1..];
  }

  lemma Rest(w: string, k: nat)
    requires k <= |w| && Plain(w)
    ensures Plain(w[k..]) && (k < |w| ==> PlainChar(w[0]))
  {
    PlainTail(w, k);
    if w != "" { assert w[0] in w; }
  }

  lemma DemandsCons(ts: seq<Token>)
    requires ts != []
    ensures Demands(ts) <==> TakesOne(ts[0]) || Demands(ts[1..])
  {
    if i :| 0 <= i < |ts| && TakesOne(ts[i]) && i > 0 { assert TakesOne(ts[1..][i - 1]); }
    if i :| 0 <= i < |ts[1..]| && TakesOne(ts[1..][i]) { assert TakesOne(ts[i + 1]); }
  }

  /** Something is demanded exactly if the end of a name is not covered. */
  lemma {:induction false} DemandsMore(ts: seq<Token>)
    ensures Demands(ts) <==> !InOscLanguage(ts, "")
  {
    if ts == [] {
    } else {
      DemandsMore(ts[1..]);
      DemandsCons(ts);
      assert ""[0..] == "" && ""[..0] == "";
      assert CoversInOsc(ts[0], "", 0) <==> !TakesOne(ts[0]);
    }
  }

  /** A piece of the protocol is one of the matcher, unless an empty alternative meets the end
      of the name or a negated set has too many members. */
  lemma OscPieceCovers(token: Token, w: string, k: nat)
    requires k <= |w| && Plain(w) && CoversInOsc(token, w, k)
    requires token.Choice? ==> w != ""
    requires token.OneOf? && token.negated ==> SetAsOsc(token.members)
    ensures Covers(token, w, k)
  {
    hide OscMember, SetAsOsc;
    if token.OneOf? {
      Rest(w, 0);
      if token.negated { SetAsOscMeans(token.members); }
      if OscMember(Body(token.members), w[0]) { MembersAreScanned(token.members, w[0]); }
    }
  }

  /** A piece of the matcher is one of the protocol, unless a list is skipped or a plain set has
      too many members. */
  lemma PieceCoversInOsc(token: Token, w: string, k: nat)
    requires k <= |w| && Plain(w) && Covers(token, w, k)
    requires token.Choice? && k == 0 ==> "" in token.alternatives
    requires token.OneOf? && !token.negated ==> SetAsOsc(token.members)
    ensures CoversInOsc(token, w, k)
  {
    hide OscMember, SetAsOsc;
    if token.OneOf? {
      Rest(w, 0);
      if !token.negated { SetAsOscMeans(token.members); }
      if OscMember(Body(token.members), w[0]) { MembersAreScanned(token.members, w[0]); }
    }
  }

  /** If something is demanded behind every list with an empty alternative and negated sets are
      those of the protocol, then every name of the protocol's language is accepted. */
  lemma {:induction false} OscIsAccepted(ts: seq<Token>, w: string)
    requires EmptyOnesFollowed(ts) && NegatedSetsAsOsc(ts) && Plain(w) && InOscLanguage(ts, w)
    ensures InLanguage(ts, w)
  {
    hide CoversInOsc, Covers, SetAsOsc;
    if ts == [] {
    } else {
      var k: nat :| k <= |w| && CoversInOsc(ts[0], w, k) && InOscLanguage(ts[1..], w[k..]);
      Tails(ts);
      Rest(w, k);
      OscIsAccepted(ts[1..], w[k..]);
      if w == "" && ts[0].Choice? { EndNotCovered(ts, w, k); }
      OscPieceCovers(ts[0], w, k);
    }
  }

  lemma EndNotCovered(ts: seq<Token>, w: string, k: nat)
    requires ts != [] && ts[0].Choice? && EmptyOnesFollowed(ts) && k <= |w|
    requires CoversInOsc(ts[0], w, k) && InOscLanguage(ts[1..], w[k..])
    ensures w != ""
  {
    DemandsMore(ts[1..]);
    assert "" in ts[0].alternatives ==> Demands(ts[0 + 1..]);
    if w == "" { assert false; }
  }

  /** If every list but the last token has an empty alternative and plain sets are those of the
      protocol, then only names of the protocol's language are accepted. */
  lemma {:induction false} AcceptedIsOsc(ts: seq<Token>, w: string)
    requires EmptyBeforeLast(ts) && PlainSetsAsOsc(ts) && Plain(w) && InLanguage(ts, w)
    ensures InOscLanguage(ts, w)
  {
    hide CoversInOsc, SetAsOsc;
    if ts == [] {
    } else {
      var k: nat :| k <= |w| && Covers(ts[0], w, k) && InLanguage(ts[1..], w[k..]);
      Tails(ts);
      Rest(w, k);
      AcceptedIsOsc(ts[1..], w[k..]);
      PieceCoversInOsc(ts[0], w, k);
    }
  }

  // ----- shortest names

  ghost function Shortest(alts: seq<string>): (s: string)
    requires alts != []
    ensures s in alts && forall a | a in alts :: |s| <= |a|
  {
    if |alts| == 1 then alts[0]
    else
      var s := Shortest(alts[1..]);
      assert alts == [alts[0]] + alts[1..];
      if |alts[0]| <= |s| then alts[0] else s
  }

  /** Some plain text is a piece of the token in the protocol; of the alternatives of a list the
      shortest one. */
  ghost predicate CanCover(token: Token) {
    match token
    case Any => true
    case One => true
    case Literal(c) => PlainChar(c)
    case OneOf(m, negated) => m != "" && exists c | PlainChar(c) :: OscMember(Body(m), c) != negated
    case Choice(alts) => alts != [] && Plain(Shortest(alts))
    case Never => false
  }

  ghost predicate AllCanCover(ts: seq<Token>) {
    forall i | 0 <= i < |ts| :: CanCover(ts[i])
  }

  ghost function MinLength(token: Token): nat {
    if token.Any? then 0
    else if token.Choice? then (if token.alternatives == [] then 0 else |Shortest(token.alternatives)|)
    else 1
  }

  ghost function MinTotal(ts: seq<Token>): nat {
    if ts == [] then 0 else MinLength(ts[0]) + MinTotal(ts[1..])
  }

  ghost function Piece(token: Token): (s: string)
    requires CanCover(token)
    ensures Plain(s) && |s| == MinLength(token)
  {
    match token
    case Any => ""
    case One => "a"
    case Literal(c) => [c]
    case OneOf(m, negated) => var c :| PlainChar(c) && OscMember(Body(m), c) != negated; [c]
    case Choice(alts) => Shortest(alts)
  }

  lemma PieceFits(token: Token, rest: string)
    requires CanCover(token)
    ensures CoversInOsc(token, Piece(token) + rest, MinLength(token))
  {
    hide OscMember;
    var s := Piece(token);
    assert (s + rest)[..|s|] == s;
  }

  /** A shortest name of the protocol's language. */
  ghost function Word(ts: seq<Token>): (w: string)
    requires AllCanCover(ts)
    ensures Plain(w) && |w| == MinTotal(ts)
  {
    if ts == [] then "" else Piece(ts[0]) + Word(ts[1..])
  }

  /** The same with x for the piece of token i. */
  ghost function WordWith(ts: seq<Token>, i: nat, x: string): (w: string)
    requires AllCanCover(ts) && i < |ts| && Plain(x)
    ensures Plain(w) && |w| == MinTotal(ts) - MinLength(ts[i]) + |x|
  {
    if i == 0 then x + Word(ts[1..]) else Piece(ts[0]) + WordWith(ts[1..], i - 1, x)
  }

  lemma WithCut(ts: seq<Token>, i: nat, x: string)
    requires AllCanCover(ts) && 0 < i < |ts| && Plain(x)
    ensures AllCanCover(ts[1..]) && CanCover(ts[0])
    ensures ts[1..][i - 1] == ts[i] && ts[1..][i - 1 + 1..] == ts[i + 1..]
    ensures WordWith(ts, i, x) == Piece(ts[0]) + WordWith(ts[1..], i - 1, x)
  {
    hide CanCover;
  }

  lemma WithAtOnce(ts: seq<Token>, x: string)
    requires AllCanCover(ts) && ts != [] && Plain(x)
    ensures AllCanCover(ts[1..]) && WordWith(ts, 0, x) == x + Word(ts[1..])
  {
    hide CanCover;
  }

  lemma {:induction false} OscAtLeast(ts: seq<Token>, w: string)
    requires InOscLanguage(ts, w)
    ensures |w| >= MinTotal(ts)
  {
    if ts == [] {
    } else {
      var k: nat :| k <= |w| && CoversInOsc(ts[0], w, k) && InOscLanguage(ts[1..], w[k..]);
      OscAtLeast(ts[1..], w[k..]);
    }
  }

  lemma {:induction false} AcceptedAtLeast(ts: seq<Token>, w: string)
    requires EmptyBeforeLast(ts) && InLanguage(ts, w)
    ensures |w| >= MinTotal(ts)
  {
    if ts == [] {
    } else {
      var k: nat :| k <= |w| && Covers(ts[0], w, k) && InLanguage(ts[1..], w[k..]);
      Tails(ts);
      AcceptedAtLeast(ts[1..], w[k..]);
    }
  }

  /** In a shortest name every token has to make do with a shortest piece. */
  lemma OscPeel(ts: seq<Token>, x: string, u: string)
    requires ts != [] && |x| == MinLength(ts[0]) && |u| == MinTotal(ts[1..]) && InOscLanguage(ts, x + u)
    ensures CoversInOsc(ts[0], x + u, |x|) && InOscLanguage(ts[1..], u)
  {
    var w := x + u;
    var k: nat :| k <= |w| && CoversInOsc(ts[0], w, k) && InOscLanguage(ts[1..], w[k..]);
    OscAtLeast(ts[1..], w[k..]);
    assert k == |x| && w[|x|..] == u;
  }

  lemma AcceptedPeel(ts: seq<Token>, x: string, u: string)
    requires ts != [] && |x| == MinLength(ts[0]) && |u| == MinTotal(ts[1..]) && InLanguage(ts, x + u)
    requires EmptyBeforeLast(ts)
    ensures Covers(ts[0], x + u, |x|) && InLanguage(ts[1..], u)
  {
    var w := x + u;
    var k: nat :| k <= |w| && Covers(ts[0], w, k) && InLanguage(ts[1..], w[k..]);
    Tails(ts);
    AcceptedAtLeast(ts[1..], w[k..]);
    assert k == |x| && w[|x|..] == u;
  }

  lemma OscStep(ts: seq<Token>, x: string, u: string)
    requires ts != [] && CoversInOsc(ts[0], x + u, |x|) && InOscLanguage(ts[1..], u)
    ensures InOscLanguage(ts, x + u)
  {
    assert (x + u)[|x|..] == u;
  }

  lemma AcceptedStep(ts: seq<Token>, x: string, u: string)
    requires ts != [] && Covers(ts[0], x + u, |x|) && InLanguage(ts[1..], u)
    ensures InLanguage(ts, x + u)
  {
    assert (x + u)[|x|..] == u;
  }

  lemma {:induction false} WordMatches(ts: seq<Token>)
    requires AllCanCover(ts)
    ensures InOscLanguage(ts, Word(ts))
  {
    hide CoversInOsc, CanCover;
    if ts == [] {
    } else {
      WordMatches(ts[1..]);
      PieceFits(ts[0], Word(ts[1..]));
      OscStep(ts, Piece(ts[0]), Word(ts[1..]));
    }
  }

  /** With x covered by token i the name is in the protocol's language. */
  lemma {:induction false} WithMatches(ts: seq<Token>, i: nat, x: string)
    requires AllCanCover(ts) && i < |ts| && Plain(x)
    requires CoversInOsc(ts[i], x + Word(ts[i + 1..]), |x|)
    ensures InOscLanguage(ts, WordWith(ts, i, x))
    decreases i
  {
    hide CoversInOsc, AllCanCover, CanCover, InOscLanguage, WordWith, Word, MinLength, MinTotal;
    if i == 0 {
      WithAtOnce(ts, x);
      WordMatches(ts[1..]);
      OscStep(ts, x, Word(ts[1..]));
    } else {
      WithCut(ts, i, x);
      WithMatches(ts[1..], i - 1, x);
      PieceFits(ts[0], WordWith(ts[1..], i - 1, x));
      OscStep(ts, Piece(ts[0]), WordWith(ts[1..], i - 1, x));
    }
  }

  /** If it is, and x is not too long, then the token covers x. */
  lemma {:induction false} WithTaken(ts: seq<Token>, i: nat, x: string)
    requires AllCanCover(ts) && i < |ts| && Plain(x) && |x| == MinLength(ts[i])
    requires InOscLanguage(ts, WordWith(ts, i, x))
    ensures CoversInOsc(ts[i], x + Word(ts[i + 1..]), |x|)
    decreases i
  {
    hide CoversInOsc, AllCanCover, CanCover, InOscLanguage, WordWith, Word, MinLength;
    if i == 0 {
      WithAtOnce(ts, x);
      OscPeel(ts, x, Word(ts[1..]));
    } else {
      WithCut(ts, i, x);
      OscPeel(ts, Piece(ts[0]), WordWith(ts[1..], i - 1, x));
      WithTaken(ts[1..], i - 1, x);
    }
  }

  lemma {:induction false} WithTakenByMatcher(ts: seq<Token>, i: nat, x: string)
    requires AllCanCover(ts) && i < |ts| && Plain(x) && |x| == MinLength(ts[i]) && EmptyBeforeLast(ts)
    requires InLanguage(ts, WordWith(ts, i, x))
    ensures Covers(ts[i], x + Word(ts[i + 1..]), |x|)
    decreases i
  {
    hide Covers, AllCanCover, CanCover, InLanguage, WordWith, Word, MinLength;
    if i == 0 {
      WithAtOnce(ts, x);
      AcceptedPeel(ts, x, Word(ts[1..]));
    } else {
      WithCut(ts, i, x);
      AcceptedPeel(ts, Piece(ts[0]), WordWith(ts[1..], i - 1, x));
      Tails(ts);
      WithTakenByMatcher(ts[1..], i - 1, x);
    }
  }

  /** If the matcher covers x with token i, then it accepts the name. */
  lemma {:induction false} WithAccepted(ts: seq<Token>, i: nat, x: string)
    requires AllCanCover(ts) && i < |ts| && Plain(x) && NegatedSetsAsOsc(ts) && EmptyOnesFollowed(ts[i + 1..])
    requires Covers(ts[i], x + Word(ts[i + 1..]), |x|) && x + Word(ts[i + 1..]) != ""
    ensures InLanguage(ts, WordWith(ts, i, x)) && WordWith(ts, i, x) != ""
    decreases i
  {
    hide Covers, CoversInOsc, AllCanCover, CanCover, SetAsOsc, InLanguage, InOscLanguage, WordWith, Word, MinLength;
    hide EmptyOnesFollowed, MinTotal;
    Tails(ts);
    assert ts[0].OneOf? && ts[0].negated ==> SetAsOsc(ts[0].members);
    hide NegatedSetsAsOsc;
    if i == 0 {
      WithAtOnce(ts, x);
      WordMatches(ts[1..]);
      OscIsAccepted(ts[1..], Word(ts[1..]));
      AcceptedStep(ts, x, Word(ts[1..]));
    } else {
      WithCut(ts, i, x);
      WithAccepted(ts[1..], i - 1, x);
      PieceFits(ts[0], WordWith(ts[1..], i - 1, x));
      OscPieceCovers(ts[0], WordWith(ts, i, x), MinLength(ts[0]));
      AcceptedStep(ts, Piece(ts[0]), WordWith(ts[1..], i - 1, x));
    }
  }

  // ----- exactly when the languages agree

  lemma {:induction false} NothingDemanded(ts: seq<Token>)
    requires !Demands(ts)
    ensures MinTotal(ts) == 0
  {
    if ts == [] {
    } else {
      DemandsCons(ts);
      NothingDemanded(ts[1..]);
    }
  }

  lemma {:induction false} SomethingDemanded(ts: seq<Token>)
    requires Demands(ts) && AllCanCover(ts)
    ensures MinTotal(ts) > 0
  {
    DemandsCons(ts);
    if TakesOne(ts[0]) {
    } else {
      SomethingDemanded(ts[1..]);
    }
  }

  /** If the matcher accepts the shortest name, every empty alternative is followed. */
  lemma {:induction false} ShortestAccepted(ts: seq<Token>)
    requires AllCanCover(ts) && EmptyBeforeLast(ts) && InLanguage(ts, Word(ts))
    ensures EmptyOnesFollowed(ts)
  {
    hide CanCover, InLanguage;
    if ts == [] {
    } else {
      AcceptedPeel(ts, Piece(ts[0]), Word(ts[1..]));
      Tails(ts);
      ShortestAccepted(ts[1..]);
      if !Demands(ts[1..]) { NothingDemanded(ts[1..]); }
      forall i | 0 <= i < |ts| && ts[i].Choice? && "" in ts[i].alternatives ensures Demands(ts[i + 1..]) {
        if i > 0 { assert ts[1..][i - 1] == ts[i] && ts[1..][i - 1 + 1..] == ts[i + 1..]; }
      }
    }
  }

  /** Of token sequences whose lists all have an empty alternative, but for one at the end, the
      matcher accepts the whole language of the protocol if and only if something is demanded
      behind every empty alternative and negated sets are those of the protocol. */
  lemma IncludedExactly(ts: seq<Token>)
    requires AllCanCover(ts) && EmptyBeforeLast(ts)
    ensures (forall w | Plain(w) && InOscLanguage(ts, w) :: InLanguage(ts, w))
            <==> EmptyOnesFollowed(ts) && NegatedSetsAsOsc(ts)
  {
    hide CanCover, InLanguage, InOscLanguage, SetAsOsc, OscMember, ScanHas, Body;
    if EmptyOnesFollowed(ts) && NegatedSetsAsOsc(ts) {
      forall w | Plain(w) && InOscLanguage(ts, w) ensures InLanguage(ts, w) { OscIsAccepted(ts, w); }
    }
    if forall w | Plain(w) && InOscLanguage(ts, w) :: InLanguage(ts, w) {
      WordMatches(ts);
      ShortestAccepted(ts);
      forall i | 0 <= i < |ts| && ts[i].OneOf? && ts[i].negated ensures SetAsOsc(ts[i].members) {
        NegatedIsExact(ts, i);
      }
    }
  }

  lemma NegatedIsExact(ts: seq<Token>, i: nat)
    requires AllCanCover(ts) && EmptyBeforeLast(ts) && i < |ts| && ts[i].OneOf? && ts[i].negated
    requires forall w | Plain(w) && InOscLanguage(ts, w) :: InLanguage(ts, w)
    ensures SetAsOsc(ts[i].members)
  {
    hide InLanguage, InOscLanguage, SetAsOsc, OscMember;
    var m := ts[i].members;
    SetAsOscMeans(m);
    assert CanCover(ts[i]);
    forall c | PlainChar(c) ensures ScanHas(m, c) <==> OscMember(Body(m), c) {
      if OscMember(Body(m), c) {
        MembersAreScanned(m, c);
      } else {
        WithMatches(ts, i, [c]);
        WithTakenByMatcher(ts, i, [c]);
      }
    }
  }

  /** And the languages are the same if and only if, in addition, plain sets are those of the
      protocol. */
  lemma SameExactly(ts: seq<Token>)
    requires AllCanCover(ts) && EmptyBeforeLast(ts)
    ensures (forall w | Plain(w) :: InLanguage(ts, w) <==> InOscLanguage(ts, w))
            <==> EmptyOnesFollowed(ts) && NegatedSetsAsOsc(ts) && PlainSetsAsOsc(ts)
  {
    hide CanCover, InLanguage, InOscLanguage, SetAsOsc;
    IncludedExactly(ts);
    if EmptyOnesFollowed(ts) && NegatedSetsAsOsc(ts) && PlainSetsAsOsc(ts) {
      forall w | Plain(w) && InLanguage(ts, w) ensures InOscLanguage(ts, w) { AcceptedIsOsc(ts, w); }
    }
    if forall w | Plain(w) :: InLanguage(ts, w) <==> InOscLanguage(ts, w) {
      forall i | 0 <= i < |ts| && ts[i].OneOf? && !ts[i].negated ensures SetAsOsc(ts[i].members) {
        PlainIsExact(ts, i);
      }
    }
  }

  lemma PlainIsExact(ts: seq<Token>, i: nat)
    requires AllCanCover(ts) && EmptyOnesFollowed(ts) && NegatedSetsAsOsc(ts)
    requires i < |ts| && ts[i].OneOf? && !ts[i].negated
    requires forall w | Plain(w) && InLanguage(ts, w) :: InOscLanguage(ts, w)
    ensures SetAsOsc(ts[i].members)
  {
    hide InLanguage, InOscLanguage, SetAsOsc, OscMember;
    var m := ts[i].members;
    SetAsOscMeans(m);
    assert CanCover(ts[i]);
    FollowedBehind(ts, i + 1);
    forall c | PlainChar(c) ensures ScanHas(m, c) <==> OscMember(Body(m), c) {
      if OscMember(Body(m), c) {
        MembersAreScanned(m, c);
      } else if ScanHas(m, c) {
        WithAccepted(ts, i, [c]);
        WithTaken(ts, i, [c]);
      }
    }
  }

  lemma FollowedBehind(ts: seq<Token>, n: nat)
    requires EmptyOnesFollowed(ts) && n <= |ts|
    ensures EmptyOnesFollowed(ts[n..])
  {
    assert forall i | 0 <= i < |ts| - n :: ts[n..][i] == ts[n + i] && ts[n..][i + 1..] == ts[n + i + 1..];
  }

  /** A list without an empty alternative that does not end the pattern is skipped, against the
      protocol, when its last alternative is no prefix of the shortest name of what follows. */
  lemma SkippedListDeviates(ts: seq<Token>, i: nat)
    requires AllCanCover(ts) && NegatedSetsAsOsc(ts) && i < |ts| && ts[i].Choice? && "" !in ts[i].alternatives
    requires Demands(ts[i + 1..]) && EmptyOnesFollowed(ts[i + 1..])
    requires !(Last(ts[i].alternatives) <= Word(ts[i + 1..]))
    ensures exists w :: Plain(w) && InLanguage(ts, w) && !InOscLanguage(ts, w)
  {
    hide InLanguage, InOscLanguage, SetAsOsc;
    assert CanCover(ts[i]);
    SomethingDemanded(ts[i + 1..]);
    WithAccepted(ts, i, "");
    var w := WordWith(ts, i, "");
    if InOscLanguage(ts, w) { OscAtLeast(ts, w); }
    assert Plain(w) && InLanguage(ts, w) && !InOscLanguage(ts, w);
  }

  // ----- the matcher

  /** For any pattern in which no backslash stands for itself, and any name without wildcards:
      the two inclusions, and agreement when both conditions hold. */
  lemma MatcherMeetsOsc(p: string, t: string)
    requires Plain(t) && Literal('\\') !in OscTokens(p)
    ensures var ts := OscTokens(p);
            && (EmptyOnesFollowed(ts) && NegatedSetsAsOsc(ts) && OscMatches(p, t) ==> Accepts(p, t))
            && (EmptyBeforeLast(ts) && PlainSetsAsOsc(ts) && Accepts(p, t) ==> OscMatches(p, t))
  {
    hide Accepts, Tokens, OscTokens, EmptyOnesFollowed, EmptyBeforeLast, NegatedSetsAsOsc, PlainSetsAsOsc;
    hide InLanguage, InOscLanguage;
    var ts := OscTokens(p);
    SameTokens(p);
    AcceptsTheLanguage(p, t);
    if EmptyOnesFollowed(ts) && NegatedSetsAsOsc(ts) && OscMatches(p, t) { OscIsAccepted(ts, t); }
    if EmptyBeforeLast(ts) && PlainSetsAsOsc(ts) && Accepts(p, t) { AcceptedIsOsc(ts, t); }
  }

  /** For patterns whose pieces can all cover something and in which every list but one at the
      end has an empty alternative, exactly when the matcher misses no name of the protocol, and
      exactly when it accepts the names of the protocol and no others. */
  lemma MatcherIsOscExactly(p: string)
    requires Literal('\\') !in OscTokens(p) && AllCanCover(OscTokens(p)) && EmptyBeforeLast(OscTokens(p))
    ensures var ts := OscTokens(p);
            && ((forall t | Plain(t) && OscMatches(p, t) :: Accepts(p, t))
                <==> EmptyOnesFollowed(ts) && NegatedSetsAsOsc(ts))
            && ((forall t | Plain(t) :: Accepts(p, t) <==> OscMatches(p, t))
                <==> EmptyOnesFollowed(ts) && NegatedSetsAsOsc(ts) && PlainSetsAsOsc(ts))
  {
    hide Accepts, Tokens, OscTokens, EmptyOnesFollowed, EmptyBeforeLast, NegatedSetsAsOsc, PlainSetsAsOsc;
    hide InLanguage, InOscLanguage, AllCanCover;
    SameTokens(p);
    IncludedExactly(OscTokens(p));
    SameExactly(OscTokens(p));
    forall t | Plain(t) ensures Accepts(p, t) <==> InLanguage(OscTokens(p), t) { AcceptsTheLanguage(p, t); }
  }

  /** In particular, patterns without lists, sets and backslashes are read as the protocol reads
      them. */
  lemma SimplePatternsAsOsc(p: string, t: string)
    requires Plain(t) && forall x | x in OscTokens(p) :: !x.Choice? && !x.OneOf? && x != Literal('\\')
    ensures Accepts(p, t) <==> OscMatches(p, t)
  {
    hide Accepts, OscMatches;
    MatcherMeetsOsc(p, t);
  }

  // ----- names where it differs

  lemma {:induction false} OrdinaryInOsc(pre: string, p: string, t: string)
    requires Ordinary(pre)
    ensures OscMatches(pre + p, t) <==> pre <= t && OscMatches(p, t[|pre|..])
  {
    if pre == "" {
      assert pre + p == p && t[0..] == t;
    } else {
      OrdinaryHead(pre);
      assert (pre + p)[1..] == pre[1..] + p && (pre + p)[0] == pre[0];
      FirstCharacter(pre + p, t);
      hide OscMatches;
      if t != "" {
        OrdinaryInOsc(pre[1..], p, t[1..]);
        PrefixTail(pre, t);
      }
    }
  }

  lemma PrefixTail(pre: string, t: string)
    requires pre != "" && t != ""
    ensures pre <= t <==> pre[0] == t[0] && pre[1..] <= t[1..]
    ensures pre <= t ==> t[1..][|pre| - 1..] == t[|pre|..]
  {
    if pre[0] == t[0] && pre[1..] <= t[1..] {
      assert pre == [pre[0]] + pre[1..] && t == [t[0]] + t[1..];
    }
  }

  lemma FirstCharacter(p: string, t: string)
    requires p != "" && p[0] != '?' && p[0] != '*' && p[0] != '[' && p[0] != ']' && p[0] != '{' && p[0] != '}'
    ensures OscMatches(p, t) <==> t != "" && p[0] == t[0] && OscMatches(p[1..], t[1..])
  {
    var ts := OscTokens(p);
    assert ts == [Literal(p[0])] + OscTokens(p[1..]) && ts[1..] == OscTokens(p[1..]);
    if t != "" && p[0] == t[0] && OscMatches(p[1..], t[1..]) { assert CoversInOsc(ts[0], t, 1); }
  }

  lemma OrdinaryWholeInOsc(p: string, t: string)
    requires Ordinary(p)
    ensures OscMatches(p, t) <==> p == t
  {
    assert p + "" == p;
    OrdinaryInOsc(p, "", t);
    if p <= t && t[|p|..] == "" { assert t == p + t[|p|..]; }
  }

  lemma ListCut(body: string, post: string)
    requires '}' !in body
    ensures var p := "{" + body + "}" + post;
            OscTokens(p) == [Choice(Alternatives(body))] + OscTokens(post)
  {
    hide Alternatives, OscTokens;
    var p, e := "{" + body + "}" + post, |body| + 1;
    assert p[e] == '}' && p[..e] == "{" + body;
    FindUnique(p, '}', e);
    ListCutInOsc(p);
    assert p[1..e] == body && p[e + 1..] == post;
  }

  lemma ChoiceFirst(alts: seq<string>, ts: seq<Token>, v: string)
    ensures InOscLanguage([Choice(alts)] + ts, v)
            <==> exists j | 0 <= j < |alts| && alts[j] <= v :: InOscLanguage(ts, v[|alts[j]|..])
  {
    var all := [Choice(alts)] + ts;
    assert all[1..] == ts;
    if InOscLanguage(all, v) {
      var k: nat :| k <= |v| && CoversInOsc(all[0], v, k) && InOscLanguage(all[1..], v[k..]);
      var j :| 0 <= j < |alts| && alts[j] == v[..k];
      assert alts[j] <= v;
    }
    if j :| 0 <= j < |alts| && alts[j] <= v && InOscLanguage(ts, v[|alts[j]|..]) {
      assert v[..|alts[j]|] == alts[j];
      assert CoversInOsc(all[0], v, |alts[j]|);
    }
  }

  /** The protocol's reading of a list between ordinary texts. */
  lemma ListInOsc(pre: string, body: string, post: string, t: string)
    requires Ordinary(pre) && Ordinary(post) && '}' !in body
    ensures var alts := Alternatives(body);
            OscMatches(pre + "{" + body + "}" + post, t)
            <==> exists j | 0 <= j < |alts| :: t == pre + alts[j] + post
  {
    hide OscTokens, Alternatives, InOscLanguage, Ordinary;
    var p, alts := "{" + body + "}" + post, Alternatives(body);
    assert pre + "{" + body + "}" + post == pre + p;
    ListCut(body, post);
    OrdinaryInOsc(pre, p, t);
    if pre <= t {
      ChoiceFirst(alts, OscTokens(post), t[|pre|..]);
      forall j | 0 <= j < |alts|
        ensures alts[j] <= t[|pre|..] && OscMatches(post, t[|pre|..][|alts[j]|..]) <==> t == pre + alts[j] + post
      {
        Behind(pre, alts[j], post, t);
      }
    }
  }

  lemma Behind(pre: string, a: string, post: string, t: string)
    requires Ordinary(post) && pre <= t
    ensures a <= t[|pre|..] && OscMatches(post, t[|pre|..][|a|..]) <==> t == pre + a + post
  {
    hide OscMatches;
    var v := t[|pre|..];
    assert t == pre + v;
    if a <= v {
      assert v == a + v[|a|..];
      OrdinaryWholeInOsc(post, v[|a|..]);
    }
    if t == pre + a + post { assert v == a + post && v[|a|..] == post; }
  }

  /** Exactly when a list between ordinary texts is read as the protocol reads it. */
  lemma ListPatternMeetsOsc(pre: string, body: string, post: string, t: string)
    requires Ordinary(pre) && Ordinary(post) && '}' !in body && Plain(t)
    ensures var p, alts := pre + "{" + body + "}" + post, Alternatives(body);
            (Accepts(p, t) <==> OscMatches(p, t))
            <==> !(t == pre + post && (if post == "" then "" in alts else "" !in alts && !(Last(alts) <= post)))
  {
    hide Accepts, OscMatches;
    var alts := Alternatives(body);
    ListPattern(pre, body, post, t);
    ListInOsc(pre, body, post, t);
    forall j | 0 <= j < |alts| && t == pre + alts[j] + post && t == pre + post ensures alts[j] == "" {
      assert |pre + alts[j] + post| == |pre + post|;
    }
    forall j | 0 <= j < |alts| && t == pre + alts[j] + post && t == pre ensures alts[j] == "" && post == "" {
      assert |pre + alts[j] + post| == |pre|;
    }
    if "" in alts {
      var j :| 0 <= j < |alts| && alts[j] == "";
      assert pre + alts[j] + post == pre + post;
    }
  }

  /** A single alternative that fails is skipped as a whole, against the protocol. */
  lemma FailingAlternativeSkipped(body: string, post: string)
    requires Ordinary(post) && Plain(post) && post != "" && ',' !in body && '}' !in body && !(body <= post)
    ensures var p := "{" + body + "}" + post; Accepts(p, post) && !OscMatches(p, post)
  {
    var p := "{" + body + "}" + post;
    assert p == "" + "{" + body + "}" + post && post == "" + post;
    assert Find(body, ',') == |body| && Alternatives(body) == [body];
    hide Accepts, OscMatches, Alternatives;
    ListPattern("", body, post, post);
    ListInOsc("", body, post, post);
    assert "" + body + post != post by { assert |"" + body + post| == |body| + |post|; }
  }

  /** An empty alternative does not match at the end of a name, against the protocol. */
  lemma EmptyAlternativeMissed(body: string)
    requires body != "" && body[0] == ',' && '}' !in body
    ensures var p := "{" + body + "}"; !Accepts(p, "") && OscMatches(p, "")
  {
    var p, alts := "{" + body + "}", Alternatives(body);
    assert p == "" + "{" + body + "}" + "";
    FindUnique(body, ',', 0);
    assert alts[0] == "";
    hide Accepts, OscMatches, Alternatives;
    ListPattern("", body, "", "");
    assert "" in alts;
    ListPatternMeetsOsc("", body, "", "");
  }

  lemma OneOfAlone(m: string, negated: bool, c: char)
    requires m != ""
    ensures InOscLanguage([OneOf(m, negated)] + [], [c]) <==> OscMember(Body(m), c) != negated
  {
    hide OscMember;
    var ts := [OneOf(m, negated)] + [];
    assert ts[1..] == [] && [c][1..] == "";
    if OscMember(Body(m), c) != negated { assert CoversInOsc(ts[0], [c], 1) && InOscLanguage(ts[1..], [c][1..]); }
  }

  /** A set alone against a single character. */
  lemma SingleSet(body: string, negated: bool, c: char)
    requires ']' !in body && (!negated ==> body == "" || body[0] != '!') && PlainChar(c)
    ensures var p := Written(body, negated);
            && (Accepts(p, [c]) <==> ScanHas(Scanned(body, negated), c) != negated)
            && (OscMatches(p, [c]) <==> OscMember(body, c) != negated)
  {
    var p, m := Written(body, negated), Scanned(body, negated);
    NothingLeft();
    hide Accepts, OscTokens, OscMember, Chooses, InOscLanguage, Find;
    assert p == p + "" && [c][1..] == "";
    SetCut(body, negated, "");
    SetStep(p, Find(p, ']'), c);
    SetAccepts(p, [c]);
    SetCutInOsc(p);
    OneOfAlone(m, negated, c);
  }

  lemma NothingLeft()
    ensures Accepts("", "") && OscTokens("") == []
  {
  }

  /** A set that does not name its own mark: a plain one accepts the opening bracket, against the
      protocol, and a negated one refuses the exclamation mark, against the protocol. */
  lemma MarkDeviates(body: string, negated: bool)
    requires ']' !in body && (!negated ==> body == "" || body[0] != '!')
    requires !OscMember(body, if negated then '!' else '[')
    ensures var p, mark := Written(body, negated), if negated then "!" else "[";
            Accepts(p, mark) == !negated && OscMatches(p, mark) == negated
  {
    hide Accepts, OscMatches, OscMember;
    var mark := if negated then '!' else '[';
    SingleSet(body, negated, mark);
    ScannedMembers(Scanned(body, negated), mark);
  }

  /** So do [a] and [!a]. */
  lemma SetsDeviate()
    ensures Accepts("[a]", "[") && !OscMatches("[a]", "[")
    ensures !Accepts("[!a]", "!") && OscMatches("[!a]", "!")
  {
    hide Accepts, OscMatches;
    assert "a"[1..] == "" && !OscMember("a", '[') && !OscMember("a", '!');
    assert Written("a", false) == "[a]" && Written("a", true) == "[!a]";
    MarkDeviates("a", false);
    MarkDeviates("a", true);
  }

  /** A range has its minus sign as a further member, and a minus sign at the end makes a range
      that reaches to the closing bracket. */
  lemma RangesDeviate()
    ensures Accepts("[a-c]", "-") && !OscMatches("[a-c]", "-")
    ensures Accepts("[A-]", "B") && !OscMatches("[A-]", "B")
  {
    hide Accepts, OscMatches, OscMember, ScanHas, InRange;
    NotMembers();
    assert Written("a-c", false) == Scanned("a-c", false) == "[a-c]";
    assert Written("A-", false) == Scanned("A-", false) == "[A-]";
    SingleSet("a-c", false, '-');
    SingleSet("A-", false, 'B');
    ScannedMembers("[a-c]", '-');
    ScannedMembers("[A-]", 'B');
    assert Body("[a-c]")[1] == '-';
    AtTheEnd();
  }

  lemma NotMembers()
    ensures !OscMember("a-c", '-') && !OscMember("A-", 'B')
  {
    assert "a-c"[3..] == "";
    assert "A-"[1..] == "-" && "-"[1..] == "";
  }

  lemma AtTheEnd()
    ensures InRange("[A-]", 'B')
  {
    assert RangeAt("[A-]", 1, 'B');
  }

  /** A backslash stands for itself in the protocol; the matcher drops it. */
  lemma BackslashDropped(pre: string, c: char, post: string)
    requires Ordinary(pre) && Ordinary([c]) && Ordinary(post)
    ensures var p, t := pre + "\\" + [c] + post, pre + [c] + post; Accepts(p, t) && !OscMatches(p, t)
  {
    var q, v := "\\" + [c] + post, [c] + post;
    var t := pre + v;
    assert pre + "\\" + [c] + post == pre + q && pre + [c] + post == t && t[|pre|..] == v;
    OrdinaryHead([c]);
    OrdinaryIsPlain(pre, v, c, post);
    EscapedFirst(q, v, c, post);
    hide Accepts, OscMatches, Ordinary;
    OrdinaryPrefix(pre, q, t);
    OrdinaryWhole(post, post);
    OrdinaryInOsc(pre, q, t);
    FirstCharacter(q, v);
  }

  lemma EscapedFirst(q: string, v: string, c: char, post: string)
    requires q == "\\" + [c] + post && v == [c] + post && PlainChar(c)
    ensures Accepts(q, v) <==> Accepts(post, post)
  {
    assert q[2..] == post && v[1..] == post && q[1] == c;
    hide Find, Chooses, OneAccepted, Alternatives;
  }

  lemma OrdinaryIsPlain(pre: string, v: string, c: char, post: string)
    requires Ordinary(pre) && Ordinary([c]) && Ordinary(post) && v == [c] + post
    ensures Plain(pre + v) && Plain(post)
  {
    assert "?*[]{}\\"[0] == '?' && "?*[]{}\\"[1] == '*' && c in [c];
  }
}
