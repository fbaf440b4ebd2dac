// The search scope filter: SQL `LIKE ... ESCAPE '\'` patterns built from a username and an agent id
// (memory/indexer.rs).
module LikeScope {
  const ESC: char := '\\'

  // ---------------------------------------------------------------------------
  // LIKE
  // ---------------------------------------------------------------------------

  /** How the database compares two characters. */
  type CharEq = (char, char) -> bool

  /** SQL `LIKE` with `%`, `_` and the escape character; a pattern ending in the escape matches nothing. */
  predicate Like(p: string, t: string, eq: CharEq)
    decreases |p|, |t|
  {
    if p == [] then t == []
    else if p[0] == '%' then Like(p[1..], t, eq) || (t != [] && Like(p, t[1..], eq))
    else if p[0] == '_' then t != [] && Like(p[1..], t[1..], eq)
    else if p[0] == ESC then |p| >= 2 && t != [] && eq(p[1], t[0]) && Like(p[2..], t[1..], eq)
    else t != [] && eq(p[0], t[0]) && Like(p[1..], t[1..], eq)
  }

  function Lower(c: char): char {
    if 'A' <= c <= 'Z' then (c as int + 32) as char else c
  }

  /** SQLite's default `LIKE` folds ASCII letters. */
  predicate FoldEq(a: char, b: char) {
    Lower(a) == Lower(b)
  }

  /** Two characters are taken for equal exactly if they are, or are the two cases of one ASCII letter. */
  lemma FoldEqIff(a: char, b: char)
    ensures FoldEq(a, b) <==> || a == b || ('A' <= a <= 'Z' && b as int == a as int + 32)
                              || ('A' <= b <= 'Z' && a as int == b as int + 32)
  {}

  /** Character-by-character agreement of a whole string with the start of another. */
  predicate PrefixEq(u: string, t: string, eq: CharEq) {
    |u| <= |t| && forall i | 0 <= i < |u| :: eq(u[i], t[i])
  }

  // ---------------------------------------------------------------------------
  // Escaping
  // ---------------------------------------------------------------------------

  /** Replaces every character `c` of `s` by `to`, as `str::replace` does. */
  function Replace(s: string, c: char, to: string): string {
    if s == [] then [] else ReplaceOne(s[0], c, to) + Replace(s[1..], c, to)
  }

  function ReplaceOne(x: char, c: char, to: string): string {
    if x == c then to else [x]
  }

  /** The three replacements, in the order the code makes them. */
  function LikeEscape(s: string): string {
    Replace(Replace(Replace(s, ESC, [ESC, ESC]), '%', [ESC, '%']), '_', [ESC, '_'])
  }

  predicate Special(c: char) {
    c == ESC || c == '%' || c == '_'
  }

  function EscapeOne(c: char): string {
    if Special(c) then [ESC, c] else [c]
  }

  /** Reference: every special character gets one escape before it. */
  function EscapeEach(s: string): string {
    if s == [] then [] else EscapeOne(s[0]) + EscapeEach(s[1..])
  }

  lemma Assoc(a: string, b: string, c: string)
    ensures a + (b + c) == (a + b) + c
  {}

  lemma {:induction false} ReplaceAppend(a: string, b: string, c: char, to: string)
    ensures Replace(a + b, c, to) == Replace(a, c, to) + Replace(b, c, to)
  {
    var s := a + b;
    if a == [] {
      assert s == b;
    } else {
      ReplaceAppend(a[1..], b, c, to);
      assert s[0] == a[0] && s[1..] == a[1..] + b;
      Assoc(ReplaceOne(a[0], c, to), Replace(a[1..], c, to), Replace(b, c, to));
    }
  }

  lemma ReplaceSingle(x: char, c: char, to: string)
    ensures Replace([x], c, to) == ReplaceOne(x, c, to)
  {
    assert [x][1..] == [];
  }

  lemma ReplacePair(x: char, y: char, c: char, to: string)
    ensures Replace([x, y], c, to) == ReplaceOne(x, c, to) + ReplaceOne(y, c, to)
  {
    assert [x, y] == [x] + [y];
    ReplaceAppend([x], [y], c, to);
    ReplaceSingle(x, c, to);
    ReplaceSingle(y, c, to);
  }

  lemma EscapeChar(c: char)
    ensures LikeEscape([c]) == EscapeOne(c)
  {
    ReplaceSingle(c, ESC, [ESC, ESC]);
    ReplaceSingle(c, '%', [ESC, '%']);
    ReplaceSingle(c, '_', [ESC, '_']);
    ReplacePair(ESC, c, '%', [ESC, '%']);
    ReplacePair(ESC, c, '_', [ESC, '_']);
  }

  lemma LikeEscapeAppend(a: string, b: string)
    ensures LikeEscape(a + b) == LikeEscape(a) + LikeEscape(b)
  {
    var a1, b1 := Replace(a, ESC, [ESC, ESC]), Replace(b, ESC, [ESC, ESC]);
    var a2, b2 := Replace(a1, '%', [ESC, '%']), Replace(b1, '%', [ESC, '%']);
    ReplaceAppend(a, b, ESC, [ESC, ESC]);
    ReplaceAppend(a1, b1, '%', [ESC, '%']);
    ReplaceAppend(a2, b2, '_', [ESC, '_']);
  }

  /** Three passes over the whole string escape each special character exactly once. */
  lemma {:induction false} EscapeIsPerCharacter(s: string)
    ensures LikeEscape(s) == EscapeEach(s)
  {
    if s != [] {
      EscapeIsPerCharacter(s[1..]);
      EscapeChar(s[0]);
      LikeEscapeAppend([s[0]], s[1..]);
      assert s == [s[0]] + s[1..];
    }
  }

  lemma {:induction false} EscapedMatches(u: string, rest: string, t: string, eq: CharEq)
    ensures Like(EscapeEach(u) + rest, t, eq) <==> PrefixEq(u, t, eq) && Like(rest, t[|u|..], eq)
  {
    var p := EscapeEach(u) + rest;
    if u == [] {
      assert p == rest && t[0..] == t;
    } else {
      var tail := EscapeEach(u[1..]) + rest;
      if Special(u[0]) {
        assert p[0] == ESC && p[1] == u[0] && p[2..] == tail;
      } else {
        assert p[0] == u[0] && p[1..] == tail;
      }
      if t != [] {
        EscapedMatches(u[1..], rest, t[1..], eq);
        PrefixEqCons(u, t, eq);
        if |u| <= |t| { assert t[1..][|u| - 1..] == t[|u|..]; }
      }
    }
  }

  lemma PrefixEqCons(u: string, t: string, eq: CharEq)
    requires u != [] && t != []
    ensures PrefixEq(u, t, eq) <==> eq(u[0], t[0]) && PrefixEq(u[1..], t[1..], eq)
  {
    if eq(u[0], t[0]) && PrefixEq(u[1..], t[1..], eq) {
      forall i | 0 <= i < |u|
        ensures eq(u[i], t[i])
      {
        if i > 0 { assert u[1..][i - 1] == u[i] && t[1..][i - 1] == t[i]; }
      }
    }
  }

  /** Agreement with the start of a string where `_` agrees with any character. */
  predicate WildPrefixEq(u: string, t: string, eq: CharEq) {
    |u| <= |t| && forall i | 0 <= i < |u| :: u[i] == '_' || eq(u[i], t[i])
  }

  /** What a name without `%` and the escape would match if it were not escaped: any character in place of `_`. */
  lemma {:induction false} UnescapedMatches(u: string, rest: string, t: string, eq: CharEq)
    requires '%' !in u && ESC !in u
    ensures Like(u + rest, t, eq) <==> WildPrefixEq(u, t, eq) && Like(rest, t[|u|..], eq)
  {
    var p := u + rest;
    if u == [] {
      assert p == rest && t[0..] == t;
    } else {
      assert p[0] == u[0] && p[1..] == u[1..] + rest;
      if t != [] {
        UnescapedMatches(u[1..], rest, t[1..], eq);
        WildPrefixCons(u, t, eq);
        if |u| <= |t| { assert t[1..][|u| - 1..] == t[|u|..]; }
      }
    }
  }

  lemma WildPrefixCons(u: string, t: string, eq: CharEq)
    requires u != [] && t != []
    ensures WildPrefixEq(u, t, eq) <==> (u[0] == '_' || eq(u[0], t[0])) && WildPrefixEq(u[1..], t[1..], eq)
  {
    if (u[0] == '_' || eq(u[0], t[0])) && WildPrefixEq(u[1..], t[1..], eq) {
      forall i | 0 <= i < |u|
        ensures u[i] == '_' || eq(u[i], t[i])
      {
        if i > 0 { assert u[1..][i - 1] == u[i] && t[1..][i - 1] == t[i]; }
      }
    }
  }

  lemma {:induction false} PercentMatchesAll(t: string, eq: CharEq)
    ensures Like(['%'], t, eq)
    decreases |t|
  {
    if t != [] { PercentMatchesAll(t[1..], eq); }
  }

  // ---------------------------------------------------------------------------
  // Scopes
  // ---------------------------------------------------------------------------

  datatype Scope = All | User | Agent

  function ScopePattern(scope: Scope, username: string, agentId: string): string {
    match scope
    case All => ['%']
    case User => LikeEscape(username) + ['/', '%']
    case Agent => LikeEscape(username) + ['/'] + agentId + ['/', '%']
  }

  predicate InScope(scope: Scope, username: string, agentId: string, path: string, eq: CharEq) {
    Like(ScopePattern(scope, username, agentId), path, eq)
  }

  predicate Plain(s: string) {
    forall i | 0 <= i < |s| :: !Special(s[i])
  }

  lemma {:induction false} PlainEscape(s: string)
    requires Plain(s)
    ensures EscapeEach(s) == s
  {
    if s != [] {
      PlainEscape(s[1..]);
      assert s == [s[0]] + s[1..];
    }
  }

  lemma {:induction false} EscapeAppend(a: string, b: string)
    ensures EscapeEach(a + b) == EscapeEach(a) + EscapeEach(b)
  {
    var s := a + b;
    if a == [] {
      assert s == b;
    } else {
      EscapeAppend(a[1..], b);
      assert s[0] == a[0] && s[1..] == a[1..] + b;
      Assoc(EscapeOne(a[0]), EscapeEach(a[1..]), EscapeEach(b));
    }
  }

  /** An escaped prefix followed by `%` matches exactly the paths that start with the prefix. */
  lemma PrefixPattern(prefix: string, path: string, eq: CharEq)
    ensures Like(EscapeEach(prefix) + ['%'], path, eq) <==> PrefixEq(prefix, path, eq)
  {
    EscapedMatches(prefix, ['%'], path, eq);
    if |prefix| <= |path| { PercentMatchesAll(path[|prefix|..], eq); }
  }

  /** Whatever characters a username contains, user scope is the prefix test for `username/`. */
  lemma UserScopeIsPrefix(username: string, agentId: string, path: string, eq: CharEq)
    ensures InScope(User, username, agentId, path, eq) <==> PrefixEq(username + ['/'], path, eq)
  {
    EscapeIsPerCharacter(username);
    EscapeAppend(username, ['/']);
    PlainEscape(['/']);
    PrefixPattern(username + ['/'], path, eq);
    assert ScopePattern(User, username, agentId) == EscapeEach(username + ['/']) + ['%'];
  }

  /** Agent ids are put in the pattern unescaped; UUIDs contain nothing special, and then the
      pattern is the prefix test for `username/agent/`. */
  lemma AgentScopeIsPrefix(username: string, agentId: string, path: string, eq: CharEq)
    requires Plain(agentId)
    ensures InScope(Agent, username, agentId, path, eq)
            <==> PrefixEq(username + ['/'] + agentId + ['/'], path, eq)
  {
    var tail := ['/'] + agentId + ['/'];
    EscapeIsPerCharacter(username);
    EscapeAppend(username, tail);
    PlainEscape(tail);
    PrefixPattern(username + tail, path, eq);
    Assoc(username, ['/'], agentId);
    Assoc(username, ['/'] + agentId, ['/']);
    AgentPattern(LikeEscape(username), agentId);
  }

  lemma AgentPattern(u: string, agentId: string)
    ensures (u + (['/'] + agentId + ['/'])) + ['%'] == u + ['/'] + agentId + ['/', '%']
  {}

  /** Why the escape is there: without it a username would also find every user whose name differs only where it has
      `_`, which usernames may contain. */
  lemma UnescapedFindsOthers(u: string, path: string, eq: CharEq)
    requires '%' !in u && ESC !in u
    ensures Like(u + ['/', '%'], path, eq) <==> WildPrefixEq(u + ['/'], path, eq)
  {
    UnescapedMatches(u + ['/'], ['%'], path, eq);
    assert u + ['/'] + ['%'] == u + ['/', '%'];
    if |u| + 1 <= |path| { PercentMatchesAll(path[|u| + 1..], eq); }
  }

  lemma AllScopeIsEverything(username: string, agentId: string, path: string, eq: CharEq)
    ensures InScope(All, username, agentId, path, eq)
  {
    PercentMatchesAll(path, eq);
  }

  /** Same length and pairwise equal to the database. */
  predicate SameTo(u: string, v: string, eq: CharEq) {
    |u| == |v| && PrefixEq(u, v, eq)
  }

  lemma DifferentLengths(u: string, v: string, rest: string)
    requires '/' !in u && '/' !in v && |u| != |v|
    ensures !PrefixEq(u + ['/'], v + ['/'] + rest, FoldEq)
  {
    var path, prefix := v + ['/'] + rest, u + ['/'];
    var k := if |u| < |v| then |u| else |v|;
    assert prefix[k] == (if |u| < |v| then '/' else u[k]) && path[k] == (if |u| < |v| then v[k] else '/');
    assert !FoldEq(prefix[k], path[k]);
  }

  /** User scope for `u` finds the files of another user `v` exactly when the database takes the two
      names for the same one. */
  lemma UserScopeIsolation(u: string, v: string, agentId: string, rest: string)
    requires '/' !in u && '/' !in v
    ensures InScope(User, u, agentId, v + ['/'] + rest, FoldEq) <==> SameTo(u, v, FoldEq)
  {
    var path, prefix := v + ['/'] + rest, u + ['/'];
    UserScopeIsPrefix(u, agentId, path, FoldEq);
    if |u| != |v| {
      DifferentLengths(u, v, rest);
    } else {
      assert forall i | 0 <= i < |u| :: prefix[i] == u[i] && path[i] == v[i];
      assert prefix[|u|] == path[|u|];
    }
  }

  /** The usernames whose files are found from `u` are only `u` itself exactly when no other
      username differs from it in letter case alone. */
  lemma ScopeIsPrivateIff(u: string, users: set<string>, agentId: string, rest: string)
    requires '/' !in u && forall v | v in users :: '/' !in v
    ensures (forall v | v in users && InScope(User, u, agentId, v + ['/'] + rest, FoldEq) :: v == u)
            <==> (forall v | v in users && SameTo(u, v, FoldEq) :: v == u)
  {
    forall v | v in users
      ensures InScope(User, u, agentId, v + ['/'] + rest, FoldEq) <==> SameTo(u, v, FoldEq)
    {
      UserScopeIsolation(u, v, agentId, rest);
    }
  }

  /** The case that breaks it: two accounts `bob` and `Bob`. */
  lemma CaseVariantIsFound(agentId: string, rest: string)
    ensures InScope(User, "bob", agentId, "Bob" + ['/'] + rest, FoldEq)
  {
    UserScopeIsolation("bob", "Bob", agentId, rest);
  }
}
