/** Facts about sequences that the other modules share. */
module Sequences {
  lemma Slices<T>(s: seq<T>, from: int, to: int, a: int, b: int)
    requires 0 <= from <= to <= |s| && 0 <= a <= b <= to - from
    ensures s[from..to][a..b] == s[from + a..from + b]
  {
    var t := s[from..to];
    var x, y := t[a..b], s[from + a..from + b];
    assert forall k | 0 <= k < |x| :: x[k] == t[a + k] == s[from + a + k] == y[k];
  }

  lemma SplitAt<T>(s: seq<T>, k: nat)
    requires k <= |s|
    ensures s == s[..k] + s[k..]
  {
  }

  lemma Consecutive<T>(s: seq<T>, a: nat, b: nat, c: nat)
    requires a <= b <= c <= |s|
    ensures s[a..b] + s[b..c] == s[a..c]
  {
  }

  lemma OneMore<T>(s: seq<T>, i: nat)
    requires i < |s|
    ensures s[..i + 1] == s[..i] + [s[i]]
  {
  }

  lemma All<T>(s: seq<T>)
    ensures s[..|s|] == s
  {
  }

  lemma Associate<T>(a: seq<T>, b: seq<T>, c: seq<T>)
    ensures a + (b + c) == a + b + c
  {
  }
}
