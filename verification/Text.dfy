/** Character strings as the C library treats them: ASCII case folding, strstr,
    and the strtok_r token lists that the bridge manager edits. */
module Text {
  /** DMSB_DELIM: a one-character delimiter set. */
  const DELIM: char := ' '

  function LowerChar(c: char): char {
    if 'A' <= c <= 'Z' then (c as int + 32) as char else c
  }

  function Lower(s: string): (r: string)
    ensures |r| == |s|
  {
    seq(|s|, i requires 0 <= i < |s| => LowerChar(s[i]))
  }

  /** strcasecmp(a, b) == 0 */
  predicate SameText(a: string, b: string) {
    Lower(a) == Lower(b)
  }

  predicate OccursAt(hay: string, needle: string, i: nat) {
    i + |needle| <= |hay| && hay[i..i + |needle|] == needle
  }

  /** strstr(hay, needle) != NULL */
  predicate Contains(hay: string, needle: string) {
    exists i :: 0 <= i <= |hay| && OccursAt(hay, needle, i)
  }

  /** A string that strtok_r can return. */
  predicate Word(s: string) {
    s != "" && DELIM !in s
  }

  // ---------------------------------------------------------------- tokens

  /** Length of the longest prefix without a delimiter. */
  function WordLen(s: string): (n: nat)
    ensures n <= |s| && DELIM !in s[..n]
    ensures n < |s| ==> s[n] == DELIM
  {
    if s == "" || s[0] == DELIM then 0 else 1 + WordLen(s[1..])
  }

  /** The tokens that a complete strtok_r loop over s yields, in order. */
  function Tokens(s: string): seq<string> {
    if s == "" then []
    else if s[0] == DELIM then Tokens(s[1..])
    else [s[..WordLen(s)]] + Tokens(s[WordLen(s)..])
  }

  ghost predicate Matches(ts: seq<string>, token: string) {
    exists i :: 0 <= i < |ts| && SameText(ts[i], token)
  }

  ghost predicate HasToken(s: string, token: string) {
    Matches(Tokens(s), token)
  }

  /** The tokens of a list, read as a set of case-folded names. */
  ghost function TokenSet(s: string): set<string> {
    Folded(Tokens(s))
  }

  ghost function Folded(ts: seq<string>): set<string> {
    set i | 0 <= i < |ts| :: Lower(ts[i])
  }

  ghost predicate Distinct(ts: seq<string>) {
    forall i, j :: 0 <= i < j < |ts| ==> !SameText(ts[i], ts[j])
  }

  /** The order-preserving removal of every match of a token. */
  function Without(ts: seq<string>, token: string): seq<string> {
    if ts == [] then []
    else
      var last := ts[|ts| - 1];
      Without(ts[..|ts| - 1], token) + (if SameText(last, token) then [] else [last])
  }

  /** The text that the rebuild loop leaves: a delimiter before every token. */
  function Joined(ts: seq<string>): string {
    if ts == [] then "" else Joined(ts[..|ts| - 1]) + [DELIM] + ts[|ts| - 1]
  }

  function Appended(s: string, token: string): string {
    if s == "" then token else s + [DELIM] + token
  }

  function Removed(s: string, token: string): string {
    Joined(Without(Tokens(s), token))
  }

  lemma {:induction false} WordLenDelimiter(w: string, rest: string)
    requires DELIM !in w
    ensures WordLen(w + [DELIM] + rest) == |w|
    ensures WordLen(w) == |w|
  {
    var s := w + [DELIM] + rest;
    if w == "" {
      assert s[0] == DELIM;
    } else {
      assert s[1..] == w[1..] + [DELIM] + rest;
      WordLenDelimiter(w[1..], rest);
    }
  }

  /** Splitting a list at a delimiter splits its tokens. */
  lemma {:induction false} TokensConcat(a: string, b: string)
    ensures Tokens(a + [DELIM] + b) == Tokens(a) + Tokens(b)
    decreases |a|
  {
    var s := a + [DELIM] + b;
    if a == "" {
      assert s[0] == DELIM && s[1..] == b;
    } else if a[0] == DELIM {
      assert s[1..] == a[1..] + [DELIM] + b;
      TokensConcat(a[1..], b);
    } else {
      FirstWord(a, b);
      TokensConcat(a[WordLen(a)..], b);
    }
  }

  /** A list that starts with a word keeps that word when another list is put behind it. */
  lemma FirstWord(a: string, b: string)
    requires a != "" && a[0] != DELIM
    ensures var s, n := a + [DELIM] + b, WordLen(a);
      0 < n == WordLen(s) && s[..n] == a[..n] && s[n..] == a[n..] + [DELIM] + b
  {
    var n := WordLen(a);
    assert n > 0;
    hide WordLen;
    var w, t := a[..n], a[n..] + [DELIM] + b;
    assert a + [DELIM] + b == w + t;
    WordBefore(w, t);
  }

  lemma WordBefore(w: string, t: string)
    requires DELIM !in w && t != "" && t[0] == DELIM
    ensures WordLen(w + t) == |w| && (w + t)[..|w|] == w && (w + t)[|w|..] == t
  {
    assert w + t == w + [DELIM] + t[1..];
    WordLenDelimiter(w, t[1..]);
  }

  lemma {:induction false} TokensAreWords(s: string)
    ensures forall t :: t in Tokens(s) ==> Word(t)
    decreases |s|
  {
    if s != "" {
      TokensAreWords(if s[0] == DELIM then s[1..] else s[WordLen(s)..]);
    }
  }

  lemma TokensOfWord(w: string)
    requires Word(w)
    ensures Tokens(w) == [w]
  {
    WordLenDelimiter(w, "");
    assert w[..|w|] == w && w[|w|..] == "";
  }

  lemma {:induction false} TokensOfJoined(ts: seq<string>)
    requires forall i :: 0 <= i < |ts| ==> Word(ts[i])
    ensures Tokens(Joined(ts)) == ts
  {
    if ts != [] {
      var front, last := ts[..|ts| - 1], ts[|ts| - 1];
      TokensOfJoined(front);
      TokensOfWord(last);
      TokensConcat(Joined(front), last);
      assert ts == front + [last];
    }
  }

  lemma {:induction false} WithoutMembers(ts: seq<string>, token: string)
    ensures forall x :: x in Without(ts, token) <==> x in ts && !SameText(x, token)
  {
    if ts != [] {
      WithoutMembers(ts[..|ts| - 1], token);
      assert ts == ts[..|ts| - 1] + [ts[|ts| - 1]];
    }
  }

  lemma WithoutSnoc(ts: seq<string>, t: string, token: string)
    ensures Without(ts + [t], token) == Without(ts, token) + (if SameText(t, token) then [] else [t])
  {
    assert (ts + [t])[..|ts|] == ts;
  }

  /** Nothing to remove: the list is unchanged. */
  lemma {:induction false} WithoutFresh(ts: seq<string>, token: string)
    requires forall i :: 0 <= i < |ts| ==> !SameText(ts[i], token)
    ensures Without(ts, token) == ts
  {
    if ts != [] {
      WithoutFresh(ts[..|ts| - 1], token);
      assert ts == ts[..|ts| - 1] + [ts[|ts| - 1]];
    }
  }

  /** Appending a token appends exactly one token, also to blank lists such as " ". */
  lemma AppendedTokens(s: string, token: string)
    requires Word(token)
    ensures Tokens(Appended(s, token)) == Tokens(s) + [token]
  {
    TokensOfWord(token);
    if s != "" {
      TokensConcat(s, token);
    }
  }

  /** Removing a token filters the token list. */
  lemma RemovedTokens(s: string, token: string)
    ensures Tokens(Removed(s, token)) == Without(Tokens(s), token)
  {
    var ts := Without(Tokens(s), token);
    WithoutMembers(Tokens(s), token);
    TokensAreWords(s);
    forall i | 0 <= i < |ts| ensures Word(ts[i]) {
      assert ts[i] in ts;
    }
    TokensOfJoined(ts);
  }

  lemma FoldIsMember(ts: seq<string>, token: string)
    ensures Matches(ts, token) <==> Lower(token) in Folded(ts)
  {
  }

  /** The effect of both edits on the set of case-folded names. */
  lemma AppendOnTokenSet(s: string, token: string)
    requires Word(token)
    ensures TokenSet(Appended(s, token)) == TokenSet(s) + {Lower(token)}
  {
    AppendedTokens(s, token);
    FoldedSnoc(Tokens(s), token);
  }

  lemma FoldedSnoc(ts: seq<string>, t: string)
    ensures Folded(ts + [t]) == Folded(ts) + {Lower(t)}
  {
    var us := ts + [t];
    assert us[|ts|] == t;
    assert forall i :: 0 <= i < |ts| ==> us[i] == ts[i];
  }

  lemma {:induction false} FoldedWithout(ts: seq<string>, token: string)
    ensures Folded(Without(ts, token)) == Folded(ts) - {Lower(token)}
  {
    if ts != [] {
      var front, last := ts[..|ts| - 1], ts[|ts| - 1];
      FoldedWithout(front, token);
      assert ts == front + [last];
      FoldedSnoc(front, last);
      if SameText(last, token) {
        assert Without(front, token) + [] == Without(front, token);
      } else {
        FoldedSnoc(Without(front, token), last);
      }
    }
  }

  lemma RemoveOnTokenSet(s: string, token: string)
    ensures TokenSet(Removed(s, token)) == TokenSet(s) - {Lower(token)}
  {
    RemovedTokens(s, token);
    FoldedWithout(Tokens(s), token);
  }

  /** Deleting a freshly added token gives the old token list back. */
  lemma RemoveUndoesAppend(s: string, token: string)
    requires Word(token) && !HasToken(s, token)
    ensures Tokens(Removed(Appended(s, token), token)) == Tokens(s)
  {
    AppendedTokens(s, token);
    RemovedTokens(Appended(s, token), token);
    WithoutSnoc(Tokens(s), token, token);
    WithoutFresh(Tokens(s), token);
  }

  lemma {:induction false} WithoutDistinct(ts: seq<string>, token: string)
    requires Distinct(ts)
    ensures Distinct(Without(ts, token))
  {
    if ts != [] {
      var n := |ts| - 1;
      var us := Without(ts[..n], token);
      WithoutDistinct(ts[..n], token);
      WithoutMembers(ts[..n], token);
      forall i | 0 <= i < |us| ensures !SameText(us[i], ts[n]) {
        assert us[i] in us;
        var k :| 0 <= k < n && ts[..n][k] == us[i];
      }
    }
  }

  /** Both edits keep a list free of case-insensitive duplicates. */
  lemma EditsKeepDistinct(s: string, token: string)
    requires Distinct(Tokens(s))
    ensures Word(token) && !HasToken(s, token) ==> Distinct(Tokens(Appended(s, token)))
    ensures Distinct(Tokens(Removed(s, token)))
  {
    if Word(token) && !HasToken(s, token) {
      AppendedTokens(s, token);
    }
    RemovedTokens(s, token);
    WithoutDistinct(Tokens(s), token);
  }

  // ---------------------------------------------------------------- what the functions say of a text

  /** Two texts are the same up to the case of the 26 letters. */
  lemma SameTextIff(a: string, b: string)
    ensures SameText(a, b) <==> |a| == |b| && forall i :: 0 <= i < |a| ==>
      a[i] == b[i] || ('A' <= a[i] <= 'Z' && b[i] as int == a[i] as int + 32)
      || ('A' <= b[i] <= 'Z' && a[i] as int == b[i] as int + 32)
  {
    assert |Lower(a)| == |a| && |Lower(b)| == |b|;
    assert forall i :: 0 <= i < |a| ==> Lower(a)[i] == LowerChar(a[i]);
    assert forall i :: 0 <= i < |b| ==> Lower(b)[i] == LowerChar(b[i]);
  }

  /** Token k is the run of the text at position at[k], runs are separated by blanks, and there
      is nothing but blanks outside them. */
  ghost predicate AreRuns(ts: seq<string>, s: string, at: seq<nat>) {
    |at| == |ts| && (forall k :: 0 <= k < |ts| ==> IsRun(ts[k], s, at[k])) &&
    (forall k :: 0 <= k < |ts| - 1 ==> at[k] + |ts[k]| < at[k + 1]) &&
    (forall i :: 0 <= i < |s| && s[i] != ' ' ==> InRun(ts, at, i))
  }

  predicate IsRun(t: string, s: string, at: nat) {
    t != "" && ' ' !in t && at + |t| <= |s| && s[at..at + |t|] == t
  }

  predicate InRun(ts: seq<string>, at: seq<nat>, i: nat)
    requires |at| == |ts|
  {
    exists k :: 0 <= k < |at| && at[k] <= i < at[k] + |ts[k]|
  }

  /** The tokens are the maximal runs of characters other than blanks, in their order. */
  lemma {:induction false} TokensAreRuns(s: string) returns (at: seq<nat>)
    ensures AreRuns(Tokens(s), s, at)
    decreases |s|
  {
    if s == "" {
      at := [];
    } else if s[0] == DELIM {
      var rest := TokensAreRuns(s[1..]);
      at := RunsBehind(Tokens(s[1..]), s, 1, rest);
    } else {
      var n := WordLen(s);
      var rest := TokensAreRuns(s[n..]);
      var moved := RunsBehind(Tokens(s[n..]), s, n, rest);
      at := [0] + moved;
      RunInFront(s[..n], Tokens(s[n..]), s, moved);
    }
  }

  /** The runs of what follows the first n characters. */
  lemma RunsBehind(ts: seq<string>, s: string, n: nat, rest: seq<nat>) returns (at: seq<nat>)
    requires n <= |s| && AreRuns(ts, s[n..], rest)
    ensures |at| == |ts| && (forall k :: 0 <= k < |ts| ==> at[k] == rest[k] + n && IsRun(ts[k], s, at[k]))
    ensures forall k :: 0 <= k < |ts| - 1 ==> at[k] + |ts[k]| < at[k + 1]
    ensures forall i :: n <= i < |s| && s[i] != ' ' ==> InRun(ts, at, i)
    ensures (forall i :: 0 <= i < n ==> s[i] == ' ') ==> AreRuns(ts, s, at)
  {
    at := seq(|rest|, k requires 0 <= k < |rest| => rest[k] + n);
    forall k | 0 <= k < |ts| ensures IsRun(ts[k], s, at[k]) {
      assert IsRun(ts[k], s[n..], rest[k]);
      assert s[n..][rest[k]..rest[k] + |ts[k]|] == s[at[k]..at[k] + |ts[k]|];
    }
    forall i | n <= i < |s| && s[i] != ' ' ensures InRun(ts, at, i) {
      assert s[n..][i - n] != ' ' && InRun(ts, rest, i - n);
      var k :| 0 <= k < |rest| && rest[k] <= i - n < rest[k] + |ts[k]|;
      assert at[k] <= i < at[k] + |ts[k]|;
    }
  }

  lemma RunInFront(t: string, ts: seq<string>, s: string, moved: seq<nat>)
    requires t != "" && ' ' !in t && |t| <= |s| && s[..|t|] == t && (|t| < |s| ==> s[|t|] == ' ')
    requires |moved| == |ts| && (forall k :: 0 <= k < |ts| ==> |t| <= moved[k] && IsRun(ts[k], s, moved[k]))
    requires forall k :: 0 <= k < |ts| - 1 ==> moved[k] + |ts[k]| < moved[k + 1]
    requires forall i :: |t| <= i < |s| && s[i] != ' ' ==> InRun(ts, moved, i)
    ensures AreRuns([t] + ts, s, [0] + moved)
  {
    var us, at := [t] + ts, [0] + moved;
    if ts != [] {
      assert s[moved[0]] == s[moved[0]..moved[0] + |ts[0]|][0] == ts[0][0];
    }
    forall k | 0 <= k < |us| ensures IsRun(us[k], s, at[k]) {
      assert k > 0 ==> us[k] == ts[k - 1] && at[k] == moved[k - 1];
    }
    forall k | 0 <= k < |us| - 1 ensures at[k] + |us[k]| < at[k + 1] {
      assert k > 0 ==> moved[k - 1] + |ts[k - 1]| < moved[k];
    }
    forall i | 0 <= i < |s| && s[i] != ' ' ensures InRun(us, at, i) {
      if i < |t| {
        assert at[0] <= i < at[0] + |us[0]|;
      } else {
        InRunBehind(t, ts, moved, i);
      }
    }
  }

  lemma InRunBehind(t: string, ts: seq<string>, moved: seq<nat>, i: nat)
    requires |moved| == |ts| && InRun(ts, moved, i)
    ensures InRun([t] + ts, [0] + moved, i)
  {
    var us, at := [t] + ts, [0] + moved;
    var k :| 0 <= k < |moved| && moved[k] <= i < moved[k] + |ts[k]|;
    assert at[k + 1] == moved[k] && us[k + 1] == ts[k];
  }

  // ---------------------------------------------------------------- strtok loops

  /** One strtok_r call on the text that is left: skip delimiters, then cut one token. */
  method NextToken(s: string) returns (found: bool, token: string, rest: string)
    ensures !found ==> Tokens(s) == []
    ensures found ==> Tokens(s) == [token] + Tokens(rest) && |rest| < |s|
  {
    rest := s;
    while rest != "" && rest[0] == DELIM
      invariant Tokens(rest) == Tokens(s)
      invariant |rest| <= |s|
      decreases |rest|
    {
      rest := rest[1..];
    }
    if rest == "" {
      return false, "", "";
    }
    var i := 0;
    while i < |rest| && rest[i] != DELIM
      invariant i <= |rest| && i <= WordLen(rest)
    {
      WordLenPast(rest, i);
      i := i + 1;
    }
    return true, rest[..i], rest[i..];
  }

  lemma {:induction false} WordLenPast(s: string, i: nat)
    requires i < |s| && i <= WordLen(s) && s[i] != DELIM
    ensures i < WordLen(s)
  {
  }

  lemma Shift<T>(seen: seq<T>, t: T, rest: seq<T>)
    ensures seen + ([t] + rest) == (seen + [t]) + rest
  {
  }

  /** _COSA_AddToken: refuses a token that is there, otherwise appends it. */
  method AddToken(token: string, list: string) returns (ok: bool, out: string)
    ensures ok <==> !HasToken(list, token)
    ensures out == if ok then Appended(list, token) else list
  {
    if list != "" {
      var found, result, rest := NextToken(list);
      ghost var seen := [];
      while found
        invariant Tokens(list) == seen + (if found then [result] + Tokens(rest) else [])
        invariant !Matches(seen, token)
        decreases found, |rest|
      {
        MatchesSnoc(seen, result, token);
        if SameText(result, token) {
          assert Tokens(list)[|seen|] == result;
          return false, list;
        }
        Shift(seen, result, Tokens(rest));
        seen := seen + [result];
        found, result, rest := NextToken(rest);
      }
      assert seen + [] == seen;
      return true, list + [DELIM] + token;
    }
    return true, token;
  }

  /** _COSA_DelToken: rebuilds the list without the token; fails when it is absent. */
  method DelToken(token: string, list: string) returns (ok: bool, out: string)
    ensures ok <==> HasToken(list, token)
    ensures ok ==> out == Removed(list, token)
  {
    ok, out := false, "";
    var found, result, rest := NextToken(list);
    ghost var seen := [];
    while found
      invariant Tokens(list) == seen + (if found then [result] + Tokens(rest) else [])
      invariant ok <==> Matches(seen, token)
      invariant out == Joined(Without(seen, token))
      decreases found, |rest|
    {
      RebuildStep(seen, result, token);
      MatchesSnoc(seen, result, token);
      if SameText(result, token) {
        ok := true;
      } else {
        out := out + ([DELIM] + result);
      }
      Shift(seen, result, Tokens(rest));
      seen := seen + [result];
      found, result, rest := NextToken(rest);
    }
    assert seen + [] == seen;
  }

  lemma MatchesSnoc(seen: seq<string>, t: string, token: string)
    ensures Matches(seen + [t], token) <==> Matches(seen, token) || SameText(t, token)
  {
    var ts := seen + [t];
    assert ts[|seen|] == t;
    assert forall i :: 0 <= i < |seen| ==> ts[i] == seen[i];
  }

  lemma JoinedSnoc(ts: seq<string>, t: string)
    ensures Joined(ts + [t]) == Joined(ts) + ([DELIM] + t)
  {
    assert (ts + [t])[..|ts|] == ts;
    assert Joined(ts) + [DELIM] + t == Joined(ts) + ([DELIM] + t);
  }

  lemma RebuildStep(seen: seq<string>, t: string, token: string)
    ensures SameText(t, token) ==> Joined(Without(seen + [t], token)) == Joined(Without(seen, token))
    ensures !SameText(t, token) ==>
              Joined(Without(seen + [t], token)) == Joined(Without(seen, token)) + ([DELIM] + t)
  {
    WithoutSnoc(seen, t, token);
    if SameText(t, token) {
      assert Without(seen, token) + [] == Without(seen, token);
    } else {
      JoinedSnoc(Without(seen, token), t);
    }
  }
}
