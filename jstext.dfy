/** The JavaScript string operations the dashboard's parsing relies on:
    `trim`, `toLowerCase`, `includes`, `split` with the four separators it uses,
    and `Array.prototype.join`. Strings are sequences of Unicode scalar values, not
    of UTF-16 code units as in JavaScript, so lengths can differ from JavaScript's
    and lone surrogates cannot be written. Every separator and white-space character
    here is a single code unit of the Basic Multilingual Plane, so `trim` and `split`
    cut in the same places either way. */
module JsText {

  /** The characters `\s` matches in a regular expression and `trim` removes:
      WhiteSpace and LineTerminator of ECMA-262. */
  predicate IsSpace(c: char) {
    var u := c as int;
    u == 0x09 || u == 0x0A || u == 0x0B || u == 0x0C || u == 0x0D || u == 0x20
    || u == 0xA0 || u == 0x1680 || (0x2000 <= u <= 0x200A) || u == 0x2028 || u == 0x2029
    || u == 0x202F || u == 0x205F || u == 0x3000 || u == 0xFEFF
  }

  function TrimStart(s: string): (r: string)
    ensures |r| <= |s| && r == s[|s| - |r|..]
    ensures forall i :: 0 <= i < |s| - |r| ==> IsSpace(s[i])
    ensures r == [] || !IsSpace(r[0])
    decreases |s|
  {
    if s != [] && IsSpace(s[0]) then TrimStart(s[1..]) else s
  }

  function TrimEnd(s: string): (r: string)
    ensures |r| <= |s| && r == s[..|r|]
    ensures forall i :: |r| <= i < |s| ==> IsSpace(s[i])
    ensures r == [] || !IsSpace(r[|r| - 1])
    decreases |s|
  {
    if s != [] && IsSpace(s[|s| - 1]) then TrimEnd(s[..|s| - 1]) else s
  }

  /** `s.trim()`: the infix of `s` left after removing white space at both ends. */
  function Trim(s: string): (r: string)
    ensures r == [] || (!IsSpace(r[0]) && !IsSpace(r[|r| - 1]))
    ensures (forall i :: 0 <= i < |s| ==> IsSpace(s[i])) <==> r == []
    ensures exists i :: 0 <= i <= |s| - |r| && SpaceAround(s, i, r)
  {
    TrimInfix(s);
    TrimBlank(s, |s| - |TrimStart(s)|, TrimEnd(TrimStart(s)));
    TrimEnd(TrimStart(s))
  }

  /** `r` is `s[i..i + |r|]`, and only white space comes before and after it in `s`. */
  predicate SpaceAround(s: string, i: nat, r: string) {
    i + |r| <= |s| && r == s[i..i + |r|]
    && (forall k :: 0 <= k < i ==> IsSpace(s[k]))
    && (forall k :: i + |r| <= k < |s| ==> IsSpace(s[k]))
  }

  lemma TrimInfix(s: string)
    ensures SpaceAround(s, |s| - |TrimStart(s)|, TrimEnd(TrimStart(s)))
  {
    var t := TrimStart(s);
    InfixOfSuffix(s, |s| - |t|, t, TrimEnd(t));
  }

  /** A prefix `r` of the suffix `t == s[i..]`, with white space before `t` and after
      `r`, is an infix of `s` with only white space around it. */
  lemma InfixOfSuffix(s: string, i: nat, t: string, r: string)
    requires i <= |s| && t == s[i..] && |r| <= |t| && r == t[..|r|]
    requires forall k :: 0 <= k < i ==> IsSpace(s[k])
    requires forall k :: |r| <= k < |t| ==> IsSpace(t[k])
    ensures SpaceAround(s, i, r)
  {
    forall k | i + |r| <= k < |s|
      ensures IsSpace(s[k])
    {
      assert s[k] == t[k - i];
    }
  }

  /** An infix with only white space around it, not starting with white space, is
      empty exactly when the whole text is white space. */
  lemma TrimBlank(s: string, i: nat, r: string)
    requires SpaceAround(s, i, r)
    requires r == [] || !IsSpace(r[0])
    ensures (forall k :: 0 <= k < |s| ==> IsSpace(s[k])) <==> r == []
  {
    if r != [] {
      assert s[i] == r[0];
    }
  }

  /** Text whose ends are not white space is left as it is. */
  lemma TrimUnchanged(s: string)
    requires s == [] || (!IsSpace(s[0]) && !IsSpace(s[|s| - 1]))
    ensures Trim(s) == s
  {
    assert TrimStart(s) == s;
  }

  /** `toLowerCase` on the ASCII letters. The header names compared against are
      ASCII, and no other character lower-cases to exactly one of their letters, so this
      decides the header comparison as the full Unicode mapping does. */
  function LowerChar(c: char): char {
    if 'A' <= c <= 'Z' then (c as int + 32) as char else c
  }

  function Lower(s: string): (r: string)
    ensures |r| == |s|
  {
    seq(|s|, i requires 0 <= i < |s| => LowerChar(s[i]))
  }

  /** The separators passed to `split`. */
  datatype Separator =
    | Comma            // the string ","
    | SpaceRun         // the regular expression /\s+/
    | SpaceOrCommaRun  // the regular expression /[\s,]+/
    | LineBreak        // the regular expression /\r?\n/

  /** The characters a run separator is made of (none for the other two). */
  predicate InRun(c: char, sep: Separator) {
    match sep
    case SpaceRun => IsSpace(c)
    case SpaceOrCommaRun => IsSpace(c) || c == ','
    case _ => false
  }

  predicate IsRun(sep: Separator) {
    sep.SpaceRun? || sep.SpaceOrCommaRun?
  }

  /** Whether the separator matches at position `j` of `s`. */
  predicate MatchesAt(s: string, j: nat, sep: Separator)
    requires j < |s|
  {
    match sep
    case Comma => s[j] == ','
    case LineBreak => s[j] == '\n' || (s[j] == '\r' && j + 1 < |s| && s[j + 1] == '\n')
    case _ => InRun(s[j], sep)
  }

  /** End of the run of separator characters that starts at `j`. */
  function RunEnd(s: string, j: nat, sep: Separator): (e: nat)
    requires j <= |s|
    ensures j <= e <= |s|
    ensures forall i :: j <= i < e ==> InRun(s[i], sep)
    ensures e < |s| ==> !InRun(s[e], sep)
    decreases |s| - j
  {
    if j < |s| && InRun(s[j], sep) then RunEnd(s, j + 1, sep) else j
  }

  /** End of the separator's match at `q`. Matching is greedy: a run is taken
      whole, and "\r\n" is preferred to a bare "\n" that follows it. */
  function MatchEnd(s: string, q: nat, sep: Separator): (e: nat)
    requires q < |s| && MatchesAt(s, q, sep)
    ensures q < e <= |s|
  {
    match sep
    case Comma => q + 1
    case LineBreak => if s[q] == '\n' then q + 1 else q + 2
    case _ => RunEnd(s, q, sep)
  }

  /** The leftmost position at or after `p` where the separator matches, or `|s|`. */
  function NextMatch(s: string, p: nat, sep: Separator): (q: nat)
    requires p <= |s|
    ensures p <= q <= |s|
    ensures q < |s| ==> MatchesAt(s, q, sep)
    ensures forall j :: p <= j < q ==> !MatchesAt(s, j, sep)
    decreases |s| - p
  {
    if p == |s| || MatchesAt(s, p, sep) then p else NextMatch(s, p + 1, sep)
  }

  /** The pieces of `s[p..]`: the string-splitting algorithm of ECMA-262 (section
      22.2.6.14 for a regular expression, 22.1.3.23 for a string) with its
      positions `p` and `q`, specialised to separators that never match the empty
      string. The text after the last match is the last piece. */
  function SplitFrom(s: string, p: nat, sep: Separator): (parts: seq<string>)
    requires p <= |s|
    ensures |parts| >= 1
    decreases |s| - p
  {
    var q := NextMatch(s, p, sep);
    if q == |s| then [s[p..]]
    else [s[p..q]] + SplitFrom(s, MatchEnd(s, q, sep), sep)
  }

  /** `s.split(sep)`. */
  function Split(s: string, sep: Separator): (parts: seq<string>)
    ensures |parts| >= 1
  {
    SplitFrom(s, 0, sep)
  }

  /** `parts.join(glue)`. */
  function Join(parts: seq<string>, glue: string): string {
    if |parts| == 0 then []
    else if |parts| == 1 then parts[0]
    else parts[0] + glue + Join(parts[1..], glue)
  }

  /** Splitting from position `p` is splitting the text that starts there: the
      separators look at nothing before their match. */
  lemma {:induction false} SplitFromSuffix(s: string, p: nat, k: nat, sep: Separator)
    requires k <= p <= |s|
    ensures SplitFrom(s, p, sep) == SplitFrom(s[k..], p - k, sep)
    decreases |s| - p
  {
    var q := NextMatch(s, p, sep);
    if q < |s| {
      SplitFromSuffix(s, MatchEnd(s, q, sep), k, sep);
      SuffixMatchStep(s, p, k, sep);
    } else {
      SuffixLastPiece(s, p, k, sep);
    }
  }

  /** The step of `SplitFromSuffix`: the same match cuts the same first piece. */
  lemma SuffixMatchStep(s: string, p: nat, k: nat, sep: Separator)
    requires k <= p <= |s| && NextMatch(s, p, sep) < |s|
    requires var e := MatchEnd(s, NextMatch(s, p, sep), sep);
      SplitFrom(s, e, sep) == SplitFrom(s[k..], e - k, sep)
    ensures SplitFrom(s, p, sep) == SplitFrom(s[k..], p - k, sep)
  {
    var q := NextMatch(s, p, sep);
    NextMatchSuffix(s, p, k, sep);
    MatchEndSuffix(s, q, k, sep);
    SplitFromMatch(s, p, sep);
    SplitFromMatch(s[k..], p - k, sep);
    SliceOfSuffix(s, k, p, q);
  }

  /** The base case of `SplitFromSuffix`: no match is left on either side. */
  lemma SuffixLastPiece(s: string, p: nat, k: nat, sep: Separator)
    requires k <= p <= |s| && NextMatch(s, p, sep) == |s|
    ensures SplitFrom(s, p, sep) == SplitFrom(s[k..], p - k, sep)
  {
    NextMatchSuffix(s, p, k, sep);
    SplitFromNoMatch(s, p, sep);
    SplitFromNoMatch(s[k..], p - k, sep);
    SliceOfSuffix(s, k, p, |s|);
  }

  /** A match ends the first piece; splitting goes on after it. */
  lemma SplitFromMatch(s: string, p: nat, sep: Separator)
    requires p <= |s| && NextMatch(s, p, sep) < |s|
    ensures SplitFrom(s, p, sep) ==
      [s[p..NextMatch(s, p, sep)]] + SplitFrom(s, MatchEnd(s, NextMatch(s, p, sep), sep), sep)
  {
  }

  /** Without a further match the rest of the text is the last piece. */
  lemma SplitFromNoMatch(s: string, p: nat, sep: Separator)
    requires p <= |s| && NextMatch(s, p, sep) == |s|
    ensures SplitFrom(s, p, sep) == [s[p..]]
  {
  }

  lemma SliceOfSuffix(s: string, k: nat, a: nat, b: nat)
    requires k <= a <= b <= |s|
    ensures s[a..b] == s[k..][a - k..b - k]
  {
  }

  lemma MatchesAtSuffix(s: string, j: nat, k: nat, sep: Separator)
    requires k <= j < |s|
    ensures MatchesAt(s, j, sep) == MatchesAt(s[k..], j - k, sep)
  {
    assert s[k..][j - k] == s[j];
    if j + 1 < |s| { assert s[k..][j - k + 1] == s[j + 1]; }
  }

  lemma NextMatchSuffix(s: string, p: nat, k: nat, sep: Separator)
    requires k <= p <= |s|
    ensures NextMatch(s[k..], p - k, sep) == NextMatch(s, p, sep) - k
  {
    var q := NextMatch(s, p, sep);
    forall j | p - k <= j < q - k ensures !MatchesAt(s[k..], j, sep) {
      MatchesAtSuffix(s, j + k, k, sep);
    }
    if q < |s| {
      MatchesAtSuffix(s, q, k, sep);
    }
    NextMatchIs(s[k..], p - k, q - k, sep);
  }

  lemma MatchEndSuffix(s: string, q: nat, k: nat, sep: Separator)
    requires k <= q < |s| && MatchesAt(s, q, sep)
    ensures MatchesAt(s[k..], q - k, sep)
    ensures MatchEnd(s[k..], q - k, sep) == MatchEnd(s, q, sep) - k
  {
    MatchesAtSuffix(s, q, k, sep);
    if IsRun(sep) {
      RunEndSuffix(s, q, k, sep);
    } else {
      assert s[k..][q - k] == s[q];
    }
  }

  /** The first match at or after `p` is the one the search finds. */
  lemma NextMatchIs(s: string, p: nat, q: nat, sep: Separator)
    requires p <= q <= |s|
    requires q < |s| ==> MatchesAt(s, q, sep)
    requires forall j :: p <= j < q ==> !MatchesAt(s, j, sep)
    ensures NextMatch(s, p, sep) == q
  {
  }

  lemma {:induction false} RunEndSuffix(s: string, j: nat, k: nat, sep: Separator)
    requires k <= j <= |s|
    ensures RunEnd(s, j, sep) - k == RunEnd(s[k..], j - k, sep)
    decreases |s| - j
  {
    if j < |s| {
      assert s[k..][j - k] == s[j];
      RunEndSuffix(s, j + 1, k, sep);
    }
  }

  /** No piece holds a character of the run separator `sep`. */
  predicate FreeOf(parts: seq<string>, sep: Separator) {
    forall k, i :: 0 <= k < |parts| && 0 <= i < |parts[k]| ==> !InRun(parts[k][i], sep)
  }

  /** Every piece but the first and the last is non-empty. */
  predicate InteriorNonEmpty(parts: seq<string>) {
    forall k :: 0 < k < |parts| - 1 ==> parts[k] != []
  }

  /** Splitting on a run separator: no piece holds a separator character and only
      the first and the last piece can be empty. */
  lemma SplitRunPieces(s: string, p: nat, sep: Separator)
    requires IsRun(sep) && p <= |s|
    ensures FreeOf(SplitFrom(s, p, sep), sep)
    ensures InteriorNonEmpty(SplitFrom(s, p, sep))
  {
    SplitRunFree(s, p, sep);
    SplitRunInterior(s, p, sep);
  }

  /** Before the next match there is no separator character. */
  lemma FirstPieceFree(s: string, p: nat, sep: Separator)
    requires IsRun(sep) && p <= |s|
    ensures forall i :: p <= i < NextMatch(s, p, sep) ==> !InRun(s[i], sep)
  {
    var q := NextMatch(s, p, sep);
    forall i | p <= i < q ensures !InRun(s[i], sep) {
      assert !MatchesAt(s, i, sep);
    }
  }

  lemma {:induction false} SplitRunFree(s: string, p: nat, sep: Separator)
    requires IsRun(sep) && p <= |s|
    ensures FreeOf(SplitFrom(s, p, sep), sep)
    decreases |s| - p
  {
    var q := NextMatch(s, p, sep);
    FirstPieceFree(s, p, sep);
    if q < |s| {
      var e := MatchEnd(s, q, sep);
      SplitRunFree(s, e, sep);
      var rest := SplitFrom(s, e, sep);
      var parts := [s[p..q]] + rest;
      assert SplitFrom(s, p, sep) == parts;
      forall k, i | 0 <= k < |parts| && 0 <= i < |parts[k]| ensures !InRun(parts[k][i], sep) {
        if k == 0 {
          assert parts[0][i] == s[p + i];
        } else {
          assert parts[k] == rest[k - 1];
        }
      }
    } else {
      var parts := [s[p..]];
      assert SplitFrom(s, p, sep) == parts;
      forall k, i | 0 <= k < |parts| && 0 <= i < |parts[k]| ensures !InRun(parts[k][i], sep) {
        assert parts[k][i] == s[p + i];
      }
    }
  }

  lemma {:induction false} SplitRunInterior(s: string, p: nat, sep: Separator)
    requires IsRun(sep) && p <= |s|
    ensures InteriorNonEmpty(SplitFrom(s, p, sep))
    decreases |s| - p
  {
    var q := NextMatch(s, p, sep);
    if q < |s| {
      var e := MatchEnd(s, q, sep);
      SplitRunInterior(s, e, sep);
      var rest := SplitFrom(s, e, sep);
      var parts := [s[p..q]] + rest;
      assert SplitFrom(s, p, sep) == parts;
      if |rest| > 1 {
        assert !MatchesAt(s, e, sep);
        assert rest[0] != [];
      }
      forall k | 0 < k < |parts| - 1 ensures parts[k] != [] {
        assert parts[k] == rest[k - 1];
      }
    }
  }

  /** The first piece is empty exactly when the text starts with a separator
      character (or nothing is left). */
  lemma SplitFirstPiece(s: string, p: nat, sep: Separator)
    requires IsRun(sep) && p <= |s|
    ensures SplitFrom(s, p, sep)[0] == [] <==> p == |s| || InRun(s[p], sep)
  {
    var q := NextMatch(s, p, sep);
    if q < |s| {
      assert SplitFrom(s, p, sep)[0] == s[p..q];
    } else {
      assert SplitFrom(s, p, sep)[0] == s[p..];
    }
  }

  /** The last piece is empty exactly when the text ends with a separator character
      (or nothing is left). */
  lemma {:induction false} SplitLastPiece(s: string, p: nat, sep: Separator)
    requires IsRun(sep) && p <= |s|
    ensures SplitFrom(s, p, sep)[|SplitFrom(s, p, sep)| - 1] == [] <==> p == |s| || InRun(s[|s| - 1], sep)
    decreases |s| - p
  {
    var q := NextMatch(s, p, sep);
    if q < |s| {
      var e := MatchEnd(s, q, sep);
      SplitLastPiece(s, e, sep);
      var rest := SplitFrom(s, e, sep);
      assert SplitFrom(s, p, sep) == [s[p..q]] + rest;
      assert InRun(s[e - 1], sep);
    } else if p < |s| {
      assert !MatchesAt(s, |s| - 1, sep);
      assert SplitFrom(s, p, sep) == [s[p..]];
    }
  }

  /** The pieces of a "," join of separator-free, non-empty pieces come back whole
      when the text is split on runs of white space and commas. */
  lemma {:induction false} SplitJoinRoundTrip(ts: seq<string>)
    requires |ts| >= 1
    requires forall k :: 0 <= k < |ts| ==> IsBareToken(ts[k])
    ensures Split(Join(ts, ","), SpaceOrCommaRun) == ts
    decreases |ts|
  {
    if |ts| == 1 {
      NoSeparator(ts[0], SpaceOrCommaRun);
    } else {
      SplitJoinRoundTrip(ts[1..]);
      JoinStep(ts);
    }
  }

  /** The step of `SplitJoinRoundTrip`: the first piece and its comma come off whole. */
  lemma JoinStep(ts: seq<string>)
    requires |ts| >= 2
    requires forall k :: 0 <= k < |ts| ==> IsBareToken(ts[k])
    requires Split(Join(ts[1..], ","), SpaceOrCommaRun) == ts[1..]
    ensures Split(Join(ts, ","), SpaceOrCommaRun) == ts
  {
    var rest := Join(ts[1..], ",");
    JoinHead(ts[1..], ",");
    assert Join(ts, ",") == ts[0] + "," + rest;
    SplitAfterToken(ts[0], rest);
    assert ts == [ts[0]] + ts[1..];
  }

  /** A bare token, a comma, and text that does not start with a separator character:
      the token is the first piece and splitting goes on with that text. */
  lemma SplitAfterToken(t: string, rest: string)
    requires IsBareToken(t) && rest != [] && !InRun(rest[0], SpaceOrCommaRun)
    ensures Split(t + "," + rest, SpaceOrCommaRun) == [t] + Split(rest, SpaceOrCommaRun)
  {
    var sep := SpaceOrCommaRun;
    var s := t + "," + rest;
    assert NextMatch(s, 0, sep) == |t| by {
      assert forall j :: 0 <= j < |t| ==> s[j] == t[j];
      assert MatchesAt(s, |t|, sep);
    }
    assert MatchEnd(s, |t|, sep) == |t| + 1 by {
      assert s[|t| + 1] == rest[0];
      assert RunEnd(s, |t| + 1, sep) == |t| + 1;
    }
    SplitFromMatch(s, 0, sep);
    SplitFromSuffix(s, |t| + 1, |t| + 1, sep);
    assert s[|t| + 1..] == rest;
    assert s[0..|t|] == t;
  }

  lemma JoinHead(ts: seq<string>, glue: string)
    requires |ts| >= 1 && ts[0] != []
    ensures |Join(ts, glue)| > 0 && Join(ts, glue)[0] == ts[0][0]
  {
  }

  /** Non-empty text with no white space and no comma: a single token of the price
      text box. */
  predicate IsBareToken(t: string) {
    t != [] && forall i :: 0 <= i < |t| ==> !InRun(t[i], SpaceOrCommaRun)
  }

  /** A character at which a match of `sep` can begin. */
  predicate MayStartMatch(c: char, sep: Separator) {
    match sep
    case Comma => c == ','
    case LineBreak => c == '\n' || c == '\r'
    case _ => InRun(c, sep)
  }

  /** Text up to the first separator is the first piece (for "," and line breaks). */
  lemma SplitAt(a: string, b: string, sep: Separator)
    requires sep.Comma? || sep.LineBreak?
    requires forall i :: 0 <= i < |a| ==> !MayStartMatch(a[i], sep)
    ensures Split(a + [if sep.Comma? then ',' else '\n'] + b, sep) == [a] + Split(b, sep)
  {
    var s := a + [if sep.Comma? then ',' else '\n'] + b;
    assert forall j :: 0 <= j < |a| ==> s[j] == a[j];
    assert MatchesAt(s, |a|, sep);
    assert NextMatch(s, 0, sep) == |a|;
    SplitFromSuffix(s, |a| + 1, |a| + 1, sep);
    assert s[|a| + 1..] == b;
    assert s[0..|a|] == a;
  }

  /** Text without a separator is one piece. */
  lemma NoSeparator(s: string, sep: Separator)
    requires forall i :: 0 <= i < |s| ==> !MayStartMatch(s[i], sep)
    ensures Split(s, sep) == [s]
  {
    assert NextMatch(s, 0, sep) == |s|;
  }
}
