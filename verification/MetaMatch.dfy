/** The pattern language of MetaMatch, stated without reference to any matching procedure. */
module Globs {
  import opened CStrings

  const STAR: CHAR16 := '*' as int
  const QUERY: CHAR16 := '?' as int
  const OPEN: CHAR16 := '[' as int
  const CLOSE: CHAR16 := ']' as int
  const DASH: CHAR16 := '-' as int

  datatype Token = Literal(c: CHAR16) | AnyOne | AnyRun | OneOf(body: seq<CHAR16>)

  /** The character c is named by the class body: on its own, or by a dash at t, whose range runs from
      the character before the dash (0 when there is none) to the one after it. */
  predicate InClass(c: CHAR16, body: seq<CHAR16>) {
    exists t :: 0 <= t < |body| && NamedAt(c, body, t)
  }

  predicate NamedAt(c: CHAR16, body: seq<CHAR16>, t: nat)
    requires t < |body|
  {
    if body[t] != DASH then c == body[t]
    else t + 1 < |body| && (LowEnd(body, t) <= c <= body[t + 1] || c == body[t + 1])
  }

  function LowEnd(body: seq<CHAR16>, t: nat): CHAR16
    requires t < |body|
  {
    if t == 0 then 0 else body[t - 1]
  }

  predicate Fits(token: Token, piece: seq<CHAR16>) {
    match token
    case Literal(c) => piece == [c]
    case AnyOne => |piece| == 1
    case AnyRun => true
    case OneOf(body) => |piece| == 1 && InClass(piece[0], body)
  }

  function Concat(pieces: seq<seq<CHAR16>>): seq<CHAR16> {
    if pieces == [] then [] else pieces[0] + Concat(pieces[1..])
  }

  /** s can be cut into consecutive pieces, one for every token, that fit. */
  ghost predicate InLanguage(s: seq<CHAR16>, tokens: seq<Token>) {
    exists pieces: seq<seq<CHAR16>> :: Cut(s, tokens, pieces)
  }

  ghost predicate Cut(s: seq<CHAR16>, tokens: seq<Token>, pieces: seq<seq<CHAR16>>) {
    && |pieces| == |tokens|
    && Concat(pieces) == s
    && forall i :: 0 <= i < |tokens| ==> Fits(tokens[i], pieces[i])
  }

  /** The index of the first ']' at or after i, or |p| when there is none. */
  function ClassEnd(p: seq<CHAR16>, i: nat): (e: nat)
    requires i <= |p|
    ensures i <= e <= |p| && (e < |p| ==> p[e] == CLOSE)
    ensures forall k :: i <= k < e ==> p[k] != CLOSE
    decreases |p| - i
  {
    if i == |p| || p[i] == CLOSE then i else ClassEnd(p, i + 1)
  }

  /** From position j of the pattern on, every '[' that opens a class has a later ']'. */
  predicate Closed(p: seq<CHAR16>, j: nat := 0)
    requires j <= |p|
    decreases |p| - j
  {
    if j == |p| then true
    else if p[j] == OPEN then
      var e := ClassEnd(p, j + 1);
      e < |p| && Closed(p, e + 1)
    else Closed(p, j + 1)
  }

  function Parse(p: seq<CHAR16>, j: nat := 0): seq<Token>
    requires j <= |p| && Closed(p, j)
    decreases |p| - j
  {
    if j == |p| then []
    else if p[j] == STAR then [AnyRun] + Parse(p, j + 1)
    else if p[j] == QUERY then [AnyOne] + Parse(p, j + 1)
    else if p[j] == OPEN then
      var e := ClassEnd(p, j + 1);
      [OneOf(p[j + 1..e])] + Parse(p, e + 1)
    else [Literal(p[j])] + Parse(p, j + 1)
  }

  // ----- How the language unfolds from the left -----

  lemma EmptyPattern(s: seq<CHAR16>)
    ensures InLanguage(s, []) <==> s == []
  {
    assert s == [] ==> Cut(s, [], []);
  }

  lemma FirstPiece(s: seq<CHAR16>, token: Token, rest: seq<Token>)
    ensures InLanguage(s, [token] + rest)
       <==> exists k :: 0 <= k <= |s| && Fits(token, s[..k]) && InLanguage(s[k..], rest)
  {
    var tokens := [token] + rest;
    if InLanguage(s, tokens) {
      var pieces :| Cut(s, tokens, pieces);
      var k := |pieces[0]|;
      assert s == pieces[0] + Concat(pieces[1..]);
      assert s[..k] == pieces[0] && s[k..] == Concat(pieces[1..]);
      forall i | 0 <= i < |rest|
        ensures Fits(rest[i], pieces[1..][i])
      {
        assert Fits(tokens[i + 1], pieces[i + 1]);
      }
      assert Cut(s[k..], rest, pieces[1..]);
    }
    if k :| 0 <= k <= |s| && Fits(token, s[..k]) && InLanguage(s[k..], rest) {
      var pieces :| Cut(s[k..], rest, pieces);
      var all := [s[..k]] + pieces;
      assert all[1..] == pieces;
      assert s[..k] + s[k..] == s;
      assert Cut(s, tokens, all);
    }
  }

  /** A token that takes exactly one character. */
  lemma OneCharacter(s: seq<CHAR16>, token: Token, rest: seq<Token>)
    requires !token.AnyRun?
    ensures InLanguage(s, [token] + rest) <==> s != [] && Fits(token, s[..1]) && InLanguage(s[1..], rest)
  {
    FirstPiece(s, token, rest);
  }

  /** '*' is the empty run, or one character and '*' again. */
  lemma Star(s: seq<CHAR16>, rest: seq<Token>)
    ensures InLanguage(s, [AnyRun] + rest)
       <==> InLanguage(s, rest) || (s != [] && InLanguage(s[1..], [AnyRun] + rest))
  {
    FirstPiece(s, AnyRun, rest);
    assert s[0..] == s;
    if s != [] {
      FirstPiece(s[1..], AnyRun, rest);
      if k :| 0 <= k <= |s| && InLanguage(s[k..], rest) && k > 0 {
        assert s[1..][k - 1..] == s[k..];
        assert Fits(AnyRun, s[1..][..k - 1]);
      }
      if k :| 0 <= k <= |s[1..]| && Fits(AnyRun, s[1..][..k]) && InLanguage(s[1..][k..], rest) {
        assert s[1..][k..] == s[k + 1..];
        assert Fits(AnyRun, s[..k + 1]);
      }
    }
  }

  // ----- What familiar patterns mean -----

  predicate Ordinary(c: CHAR16) {
    c != STAR && c != QUERY && c != OPEN
  }

  /** A pattern of ordinary characters matches itself only. */
  lemma {:induction false} PlainPattern(s: seq<CHAR16>, p: seq<CHAR16>, j: nat := 0)
    requires j <= |p| && forall k :: j <= k < |p| ==> Ordinary(p[k])
    ensures Closed(p, j) && (InLanguage(s, Parse(p, j)) <==> s == p[j..])
    decreases |p| - j
  {
    if j == |p| {
      EmptyPattern(s);
    } else {
      PlainPattern(if s == [] then [] else s[1..], p, j + 1);
      OneCharacter(s, Literal(p[j]), Parse(p, j + 1));
      assert p[j..] == [p[j]] + p[j + 1..];
      assert s != [] ==> s == s[..1] + s[1..];
    }
  }

  /** So many question marks match every string of that length. */
  lemma {:induction false} QueryPattern(s: seq<CHAR16>, p: seq<CHAR16>, j: nat := 0)
    requires j <= |p| && forall k :: j <= k < |p| ==> p[k] == QUERY
    ensures Closed(p, j) && (InLanguage(s, Parse(p, j)) <==> |s| == |p| - j)
    decreases |p| - j
  {
    if j == |p| {
      EmptyPattern(s);
    } else {
      QueryPattern(if s == [] then [] else s[1..], p, j + 1);
      OneCharacter(s, AnyOne, Parse(p, j + 1));
    }
  }

  /** A star in front of ordinary characters: every string that ends with them. */
  lemma EndingPattern(s: seq<CHAR16>, p: seq<CHAR16>)
    requires p != [] && p[0] == STAR && forall k :: 1 <= k < |p| ==> Ordinary(p[k])
    ensures Closed(p)
    ensures InLanguage(s, Parse(p)) <==> |p| - 1 <= |s| && s[|s| - (|p| - 1)..] == p[1..]
  {
    PlainPattern([], p, 1);
    FirstPiece(s, AnyRun, Parse(p, 1));
    forall k | 0 <= k <= |s|
      ensures InLanguage(s[k..], Parse(p, 1)) <==> s[k..] == p[1..]
    {
      PlainPattern(s[k..], p, 1);
    }
    if |p| - 1 <= |s| && s[|s| - (|p| - 1)..] == p[1..] {
      assert Fits(AnyRun, s[..|s| - (|p| - 1)]);
    }
  }

  /** A class without a dash names its characters. */
  lemma ListClass(c: CHAR16, body: seq<CHAR16>)
    requires DASH !in body
    ensures InClass(c, body) <==> c in body
  {
    if t :| 0 <= t < |body| && body[t] == c {
      assert NamedAt(c, body, t);
    }
  }

  /** A class that is one range names the characters from its low end to its high end, and the two ends even if the
      range is empty. */
  lemma RangeClass(c: CHAR16, low: CHAR16, high: CHAR16)
    requires low != DASH && high != DASH
    ensures InClass(c, [low, DASH, high]) <==> low <= c <= high || c == low || c == high
  {
    var body := [low, DASH, high];
    assert NamedAt(c, body, 0) == (c == low) && NamedAt(c, body, 2) == (c == high);
    assert NamedAt(c, body, 1) == (low <= c <= high || c == high);
  }

  /** A range without a low end begins at 0, and one without a high end names its low end only. */
  lemma OpenRange(c: CHAR16, end: CHAR16)
    requires end != DASH
    ensures InClass(c, [DASH, end]) <==> 0 <= c <= end
    ensures InClass(c, [end, DASH]) <==> c == end
  {
    assert NamedAt(c, [DASH, end], 0) == (0 <= c <= end || c == end);
    assert NamedAt(c, [end, DASH], 0) == (c == end);
  }
}

/** The backtracking matcher. */
module MetaMatcher {
  import opened CStrings
  import opened Globs

  /** The rest of the string belongs to the language of the rest of the pattern. */
  ghost predicate Owed(s: Text, i: nat, p: Text, j: nat)
    requires i <= |s| && j <= |p| && Closed(p, j)
  {
    InLanguage(s[i..], Parse(p, j))
  }

  lemma WholeString(s: Text, p: Text)
    requires Closed(p)
    ensures Owed(s, 0, p, 0) <==> InLanguage(s, Parse(p))
  {
    assert s[0..] == s;
  }

  lemma StepEnd(s: Text, i: nat, p: Text)
    requires i <= |s|
    ensures Owed(s, i, p, |p|) <==> i == |s|
  {
    EmptyPattern(s[i..]);
  }

  /** A token for one character, parsed at j with the pattern going on at next. */
  lemma StepOne(s: Text, i: nat, p: Text, j: nat, token: Token, next: nat)
    requires i <= |s| && j < next <= |p| && Closed(p, j) && Closed(p, next)
    requires !token.AnyRun? && Parse(p, j) == [token] + Parse(p, next)
    ensures Owed(s, i, p, j) <==> i < |s| && Fits(token, [s[i]]) && Owed(s, i + 1, p, next)
  {
    OneCharacter(s[i..], token, Parse(p, next));
    if i < |s| {
      assert s[i..][1..] == s[i + 1..] && s[i..][..1] == [s[i]];
    }
  }

  lemma StepPlain(s: Text, i: nat, p: Text, j: nat)
    requires i <= |s| && j < |p| && Closed(p, j) && p[j] != STAR && p[j] != OPEN
    ensures Closed(p, j + 1)
    ensures Owed(s, i, p, j) <==> i < |s| && (p[j] == QUERY || s[i] == p[j]) && Owed(s, i + 1, p, j + 1)
  {
    StepOne(s, i, p, j, if p[j] == QUERY then AnyOne else Literal(p[j]), j + 1);
  }

  lemma StepClass(s: Text, i: nat, p: Text, j: nat, end: nat)
    requires i <= |s| && j < |p| && Closed(p, j) && p[j] == OPEN && end == ClassEnd(p, j + 1)
    ensures end < |p| && Closed(p, end + 1)
    ensures Owed(s, i, p, j) <==> i < |s| && InClass(s[i], p[j + 1..end]) && Owed(s, i + 1, p, end + 1)
  {
    StepOne(s, i, p, j, OneOf(p[j + 1..end]), end + 1);
  }

  lemma StepStar(s: Text, i: nat, p: Text, j: nat)
    requires i <= |s| && j < |p| && Closed(p, j) && p[j] == STAR
    ensures Owed(s, i, p, j) <==> Owed(s, i, p, j + 1) || (i < |s| && Owed(s, i + 1, p, j))
  {
    Star(s[i..], Parse(p, j + 1));
    if i < |s| {
      assert s[i..][1..] == s[i + 1..];
    }
  }

  /** The scan of one class body p[from..end] for c; when it stops at a match, `next` is where the
      source's pattern pointer stands. */
  method ScanClass(p: Text, from: nat, c: CHAR16, ghost end: nat) returns (found: bool, next: nat)
    requires from <= |p| && end == ClassEnd(p, from) && end < |p|
    ensures found <==> InClass(c, p[from..end])
    ensures found ==> next == end + 1
  {
    ghost var body := p[from..end];
    var pattern := from;
    var l: CHAR16 := 0;
    var ch := At(p, pattern);
    pattern := pattern + 1;
    while ch != 0
      invariant from < pattern <= end + 1 && ch == p[pattern - 1]
      invariant pattern <= end ==> body[pattern - 1 - from] == ch
      invariant pattern <= end && ch == DASH ==> l == LowEnd(body, pattern - 1 - from)
      invariant forall t :: 0 <= t < pattern - 1 - from ==> !NamedAt(c, body, t)
      decreases |p| - pattern
    {
      ghost var t := pattern - 1 - from;
      if ch == CLOSE {
        return false, 0;
      }
      if ch == DASH {
        ch := At(p, pattern);
        if ch == 0 || ch == CLOSE {
          return false, 0;
        }
        if l <= c <= ch {
          assert NamedAt(c, body, t);
          break;
        }
      }
      l := ch;
      if c == ch {
        assert NamedAt(c, body, t);
        break;
      }
      ch := At(p, pattern);
      pattern := pattern + 1;
    }
    while ch != 0 && ch != CLOSE
      invariant from < pattern <= end + 1
      invariant ch != CLOSE ==> pattern <= end
      invariant ch == CLOSE ==> pattern == end + 1
      invariant ch != 0
      decreases |p| - pattern
    {
      ch := At(p, pattern);
      pattern := pattern + 1;
    }
    return true, pattern;
  }

  /** The '*' case: the rest of the pattern is tried at every suffix, the empty one last. */
  method MatchRun(s: Text, start: nat, p: Text, j: nat) returns (matched: bool)
    requires start <= |s| && j < |p| && Closed(p, j) && p[j] == STAR
    ensures matched <==> Owed(s, start, p, j)
    decreases |p| - j, 0
  {
    var i := start;
    while At(s, i) != 0
      invariant start <= i <= |s|
      invariant Owed(s, i, p, j) <==> Owed(s, start, p, j)
      decreases |s| - i
    {
      StepStar(s, i, p, j);
      var rest := MetaMatch(s, i, p, j + 1);
      if rest {
        return true;
      }
      i := i + 1;
    }
    StepStar(s, i, p, j);
    matched := MetaMatch(s, i, p, j + 1);
  }

  method MetaMatch(s: Text, start: nat, p: Text, from: nat) returns (matched: bool)
    requires start <= |s| && from <= |p| && Closed(p, from)
    ensures matched <==> Owed(s, start, p, from)
    decreases |p| - from, 1
  {
    var i, j := start, from;
    while true
      invariant start <= i <= |s| && from <= j <= |p| && Closed(p, j)
      invariant Owed(s, i, p, j) <==> Owed(s, start, p, from)
      decreases |p| - j
    {
      var ch := At(p, j);
      if ch == 0 {
        StepEnd(s, i, p);
        return At(s, i) == 0;
      } else if ch == STAR {
        matched := MatchRun(s, i, p, j);
        return;
      } else if ch == QUERY {
        StepPlain(s, i, p, j);
        if At(s, i) == 0 {
          return false;
        }
        i, j := i + 1, j + 1;
      } else if ch == OPEN {
        ghost var end := ClassEnd(p, j + 1);
        StepClass(s, i, p, j, end);
        var c := At(s, i);
        if c == 0 {
          return false;
        }
        var found, next := ScanClass(p, j + 1, c, end);
        if !found {
          return false;
        }
        i, j := i + 1, next;
      } else {
        StepPlain(s, i, p, j);
        if At(s, i) != ch {
          return false;
        }
        i, j := i + 1, j + 1;
      }
    }
  }
}
