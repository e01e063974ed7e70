/** The rooted, ordered, labelled trees whose Euler tour is a given string, as a set and as a number. */
module EulerTrees {
  import opened CStrings

  datatype Tree = Vertex(letter: CHAR16, children: seq<Tree>)

  /** The tour of a vertex: its label, then every child's tour followed by the label again. */
  function Tour(t: Tree): (s: seq<CHAR16>)
    ensures |s| > 0 && s[0] == t.letter
    decreases t, 1
  {
    [t.letter] + ChildTours(t.letter, t.children)
  }

  function ChildTours(letter: CHAR16, children: seq<Tree>): seq<CHAR16>
    decreases children, 0
  {
    if children == [] then []
    else Tour(children[0]) + [letter] + ChildTours(letter, children[1..])
  }

  /** A vertex with one more child in front; every tree other than a leaf is one, in one way only. */
  function Graft(child: Tree, rest: Tree): Tree {
    Vertex(rest.letter, [child] + rest.children)
  }

  lemma TourOfGraft(child: Tree, rest: Tree)
    ensures Tour(Graft(child, rest)) == [rest.letter] + Tour(child) + Tour(rest)
  {
    var g := Graft(child, rest);
    assert g.children[0] == child && g.children[1..] == rest.children;
  }

  /** All trees whose tour is s, assembled from the tours of the first child and of what remains. */
  function Trees(s: seq<CHAR16>): set<Tree>
    decreases |s|, 1, 0
  {
    if |s| == 0 then {}
    else if |s| == 1 then {Vertex(s[0], [])}
    else TreesUpTo(s, |s|)
  }

  /** The trees of s whose first child's tour ends before position n. */
  function TreesUpTo(s: seq<CHAR16>, n: nat): set<Tree>
    requires 1 <= n <= |s|
    decreases |s|, 0, n
  {
    if n == 1 then {}
    else TreesUpTo(s, n - 1) + (if s[n - 1] == s[0] then Grafts(Trees(s[1..n - 1]), Trees(s[n - 1..])) else {})
  }

  function Grafts(firsts: set<Tree>, rests: set<Tree>): set<Tree> {
    set c, t | c in firsts && t in rests :: Graft(c, t)
  }

  // ----- The set is exactly the trees with that tour -----

  lemma {:induction false} TreesAreTours(s: seq<CHAR16>, t: Tree)
    ensures t in Trees(s) <==> Tour(t) == s
    decreases |s|, 1, 0
  {
    if |s| == 0 {
    } else if t.children == [] {
      assert Tour(t) == [t.letter];
      if |s| == 1 {
        assert s == [s[0]];
      } else {
        TreesUpToAreTours(s, |s|, t);
      }
    } else {
      var c, r := t.children[0], Vertex(t.letter, t.children[1..]);
      assert t == Graft(c, r);
      TourOfGraft(c, r);
      if |s| > 1 {
        TreesUpToAreTours(s, |s|, t);
      }
    }
  }

  lemma {:induction false} TreesUpToAreTours(s: seq<CHAR16>, n: nat, t: Tree)
    requires |s| >= 2 && 1 <= n <= |s|
    ensures t in TreesUpTo(s, n) <==> Tour(t) == s && t.children != [] && |Tour(t.children[0])| < n - 1
    decreases |s|, 0, n
  {
    if n == 1 {
    } else {
      TreesUpToAreTours(s, n - 1, t);
      if t.children != [] {
        var c, r := t.children[0], Vertex(t.letter, t.children[1..]);
        assert t == Graft(c, r);
        TourOfGraft(c, r);
        TreesAreTours(s[1..n - 1], c);
        TreesAreTours(s[n - 1..], r);
        if Tour(t) == s && |Tour(c)| == n - 2 {
          assert s[1..n - 1] == Tour(c) && s[n - 1..] == Tour(r);
          assert t in Grafts(Trees(s[1..n - 1]), Trees(s[n - 1..]));
        }
        if s[n - 1] == s[0] && t in Grafts(Trees(s[1..n - 1]), Trees(s[n - 1..])) {
          var c', r' :| c' in Trees(s[1..n - 1]) && r' in Trees(s[n - 1..]) && t == Graft(c', r');
          assert c' == t.children[0] == c;
          assert r'.children == t.children[1..];
          assert r' == r;
          assert s == [s[0]] + s[1..n - 1] + s[n - 1..];
        }
      }
    }
  }

  // ----- Counting -----

  lemma GraftIsInjective(c: Tree, r: Tree, c': Tree, r': Tree)
    requires Graft(c, r) == Graft(c', r')
    ensures c == c' && r == r'
  {
    assert Graft(c, r).children[0] == Graft(c', r').children[0];
    assert r.children == Graft(c, r).children[1..] == Graft(c', r').children[1..] == r'.children;
  }

  lemma {:induction false} GraftsCount(firsts: set<Tree>, rests: set<Tree>)
    ensures |Grafts(firsts, rests)| == |firsts| * |rests|
  {
    if firsts == {} {
      assert Grafts(firsts, rests) == {};
    } else {
      var c :| c in firsts;
      var others := firsts - {c};
      GraftsCount(others, rests);
      OneGraftsCount(c, rests);
      GraftsSplit(firsts, c, rests);
      assert |firsts| * |rests| == |others| * |rests| + |rests|;
    }
  }

  lemma GraftsSplit(firsts: set<Tree>, c: Tree, rests: set<Tree>)
    requires c in firsts
    ensures |Grafts(firsts, rests)| == |Grafts(firsts - {c}, rests)| + |Grafts({c}, rests)|
  {
    var others, one := Grafts(firsts - {c}, rests), Grafts({c}, rests);
    forall t | t in others
      ensures t !in one
    {
      var c', r' :| c' in firsts - {c} && r' in rests && t == Graft(c', r');
      assert t.children[0] == c';
    }
    assert Grafts(firsts, rests) == others + one;
  }

  lemma {:induction false} OneGraftsCount(c: Tree, rests: set<Tree>)
    ensures |Grafts({c}, rests)| == |rests|
  {
    if rests == {} {
      assert Grafts({c}, rests) == {};
    } else {
      var r :| r in rests;
      var others := rests - {r};
      OneGraftsCount(c, others);
      forall t | t in Grafts({c}, others)
        ensures t != Graft(c, r)
      {
        var r' :| r' in others && t == Graft(c, r');
        if t == Graft(c, r) {
          GraftIsInjective(c, r, c, r');
        }
      }
      assert Grafts({c}, rests) == Grafts({c}, others) + {Graft(c, r)};
    }
  }

  /** One more split position adds the product of the two counts: the trees it adds are new. */
  lemma TreesUpToCount(s: seq<CHAR16>, n: nat)
    requires |s| >= 2 && 2 <= n <= |s|
    ensures |TreesUpTo(s, n)| == |TreesUpTo(s, n - 1)|
                                 + (if s[n - 1] == s[0] then |Trees(s[1..n - 1])| * |Trees(s[n - 1..])| else 0)
  {
    var added := Grafts(Trees(s[1..n - 1]), Trees(s[n - 1..]));
    GraftsCount(Trees(s[1..n - 1]), Trees(s[n - 1..]));
    if s[n - 1] == s[0] {
      forall t | t in added
        ensures t !in TreesUpTo(s, n - 1)
      {
        var c, r :| c in Trees(s[1..n - 1]) && r in Trees(s[n - 1..]) && t == Graft(c, r);
        TreesAreTours(s[1..n - 1], c);
        assert t.children[0] == c;
        TreesUpToAreTours(s, n - 1, t);
      }
      assert TreesUpTo(s, n) == TreesUpTo(s, n - 1) + added;
      assert TreesUpTo(s, n - 1) !! added;
    }
  }

  /** The number of trees with tour s, however that set is presented. */
  lemma CountIsTheNumberOfTrees(s: seq<CHAR16>, all: set<Tree>)
    requires forall t :: t in all <==> Tour(t) == s
    ensures |all| == |Trees(s)|
  {
    forall t
      ensures t in all <==> t in Trees(s)
    {
      TreesAreTours(s, t);
    }
    assert all == Trees(s);
  }
}

/** The memoised interval recurrence that counts those trees modulo 10^9. */
module Pyramids {
  import opened CStrings
  import opened EulerTrees
  import opened Sequences

  newtype int32 = x: int | -0x8000_0000 <= x < 0x8000_0000
  // The recurrence is computed in this type, so the verifier refuses any step that leaves 64 bits.
  newtype ll_t = x: int | -0x8000_0000_0000_0000 <= x < 0x8000_0000_0000_0000

  const MAX_LENGTH := 400
  const MODULUS := 1_000_000_000

  type Residue = x: ll_t | 0 <= x < 1_000_000_000

  type Interval = (int, int)

  const NO_CELL: Interval := (-1, -1)

  /** What F owes its caller for the interval [l, r] of s; r == l - 1 is the empty string. */
  ghost function Count(s: seq<CHAR16>, l: int, r: int): nat
    requires 0 <= l <= r + 1 <= |s|
  {
    |Trees(s[l..r + 1])|
  }

  ghost predicate StrictlyEncloses(outer: Interval, l: int, r: int) {
    outer.0 <= l && r <= outer.1 && outer != (l, r)
  }

  lemma NoSplit(s: seq<CHAR16>, l: int, r: int, i: int)
    requires 0 <= l < i <= r < |s| && s[i] != s[l]
    ensures Partial(s, l, r, i + 1) == Partial(s, l, r, i)
  {
    NextSplit(s, l, r, i);
  }

  lemma ProductFits(a: int, b: int)
    requires 0 <= a <= 999_999_999 && 0 <= b <= 999_999_999
    ensures 0 <= a * b <= 999_999_999 * 999_999_999
  {
    assert 0 <= a * b <= a * 999_999_999;
  }

  lemma AddProductModulo(x: nat, a: nat, b: nat)
    ensures (x % MODULUS + (a % MODULUS) * (b % MODULUS)) % MODULUS == (x + a * b) % MODULUS
  {
    var qa, qb, qx := a / MODULUS, b / MODULUS, x / MODULUS;
    var ra, rb := a % MODULUS, b % MODULUS;
    var k := qa * b + ra * qb;
    calc {
      a * b;
      (qa * MODULUS + ra) * b;
      qa * MODULUS * b + ra * (qb * MODULUS + rb);
      k * MODULUS + ra * rb;
    }
    assert x + a * b == (x % MODULUS + ra * rb) + (qx + k) * MODULUS;
    ModuloDropsMultiple(x % MODULUS + ra * rb, qx + k);
  }

  lemma ModuloDropsMultiple(y: nat, k: nat)
    ensures (y + k * MODULUS) % MODULUS == y % MODULUS
  {
  }

  /** The trees of [l, r] whose root is visited again before position i of s. */
  ghost function Partial(s: seq<CHAR16>, l: int, r: int, i: int): nat
    requires 0 <= l <= r + 1 <= |s|
  {
    |set t | t in Trees(s[l..r + 1]) && t.children != [] && |Tour(t.children[0])| < i - l - 1|
  }

  lemma PartialIsTreesUpTo(s: seq<CHAR16>, l: int, r: int, i: int)
    requires 0 <= l < r < |s| && l < i <= r + 1
    ensures Partial(s, l, r, i) == |TreesUpTo(s[l..r + 1], i - l)|
  {
    var t := s[l..r + 1];
    forall tree
      ensures tree in TreesUpTo(t, i - l) <==>
              tree in Trees(t) && tree.children != [] && |Tour(tree.children[0])| < i - l - 1
    {
      TreesAreTours(t, tree);
      TreesUpToAreTours(t, i - l, tree);
    }
    assert TreesUpTo(t, i - l)
        == set tree | tree in Trees(t) && tree.children != [] && |Tour(tree.children[0])| < i - l - 1;
  }

  lemma OneLetter(s: seq<CHAR16>, l: int)
    requires 0 <= l < |s|
    ensures Count(s, l, l) == 1
  {
    assert |s[l..l + 1]| == 1;
  }

  lemma PartialStartsAndEnds(s: seq<CHAR16>, l: int, r: int)
    requires 0 <= l <= r + 1 <= |s| && l != r
    ensures Partial(s, l, r, l + 1) == 0
    ensures Partial(s, l, r, if l < r then r + 1 else l + 1) == Count(s, l, r)
  {
    if l < r {
      PartialIsTreesUpTo(s, l, r, l + 1);
      PartialIsTreesUpTo(s, l, r, r + 1);
    } else {
      assert s[l..r + 1] == [];
    }
  }

  /** The update of F's loop at a position where the root's letter recurs; every step fits in 64 bits. */
  method AddProduct(sum: Residue, first: Residue, rest: Residue,
                    ghost s: seq<CHAR16>, ghost l: int, ghost r: int, ghost i: int)
    returns (next: Residue)
    requires 0 <= l < i <= r < |s| && s[i] == s[l]
    requires sum as int == Partial(s, l, r, i) % MODULUS
    requires first as int == Count(s, l + 1, i - 1) % MODULUS && rest as int == Count(s, i, r) % MODULUS
    ensures next as int == Partial(s, l, r, i + 1) % MODULUS
  {
    ProductFits(first as int, rest as int);
    NextSplit(s, l, r, i);
    AddProductModulo(Partial(s, l, r, i), Count(s, l + 1, i - 1), Count(s, i, r));
    next := (sum + first * rest) % 1_000_000_000;
  }

  lemma NextSplit(s: seq<CHAR16>, l: int, r: int, i: int)
    requires 0 <= l < i <= r < |s|
    ensures Partial(s, l, r, i + 1)
         == Partial(s, l, r, i) + if s[i] == s[l] then Count(s, l + 1, i - 1) * Count(s, i, r) else 0
  {
    var t, n := s[l..r + 1], i - l;
    PartialIsTreesUpTo(s, l, r, i);
    PartialIsTreesUpTo(s, l, r, i + 1);
    SplitStrings(s, l, r, i);
    TreesUpToCount(t, n + 1);
  }

  lemma SplitStrings(s: seq<CHAR16>, l: int, r: int, i: int)
    requires 0 <= l < i <= r < |s|
    ensures var t, n := s[l..r + 1], i - l;
      && t[0] == s[l] && t[n] == s[i] && t[1..n] == s[l + 1..i] && t[n..] == s[i..r + 1]
  {
    var t, n := s[l..r + 1], i - l;
    Slices(s, l, r + 1, 1, n);
    Slices(s, l, r + 1, n, |t|);
    assert t[n..] == t[n..|t|];
  }

  lemma AllTours(s: seq<CHAR16>)
    ensures forall t :: t in Trees(s) <==> Tour(t) == s
    ensures s != [] ==> Count(s, 0, |s| - 1) == |Trees(s)|
  {
    assert s[0..|s|] == s;
    forall t
      ensures t in Trees(s) <==> Tour(t) == s
    {
      TreesAreTours(s, t);
    }
  }

  class Solver {
    var S: seq<CHAR16>
    const P: array2<int32>
    const R: array2<Residue>
    var MarkNum: int32

    ghost predicate Shape()
      reads this
    {
      P.Length0 == P.Length1 == R.Length0 == R.Length1 == MAX_LENGTH && |S| < MAX_LENGTH
    }

    /** Between queries no cell carries a stamp from the future. */
    ghost predicate Valid()
      reads this, P
    {
      && Shape() && MarkNum >= 0
      && forall l, r :: 0 <= l < MAX_LENGTH && 0 <= r < MAX_LENGTH ==> P[l, r] <= MarkNum
    }

    /** During a query: a cell with the current stamp holds the right value for the current string,
        or belongs to a call still open, whose interval strictly encloses [lo, hi]. */
    ghost predicate Memo(lo: int, hi: int)
      reads this, P, R
    {
      && Valid()
      && forall l, r :: 0 <= l < MAX_LENGTH && 0 <= r < MAX_LENGTH && P[l, r] == MarkNum ==>
           Finished(l, r) || StrictlyEncloses((l, r), lo, hi)
    }

    ghost predicate Finished(l: int, r: int)
      requires 0 <= l < R.Length0 && 0 <= r < R.Length1
      reads this, R
    {
      l <= r + 1 <= |S| && R[l, r] as int == Count(S, l, r) % MODULUS
    }

    constructor ()
      ensures Valid() && MarkNum == 0 && S == []
      ensures fresh(P) && fresh(R)
    {
      S := [];
      P := new int32[MAX_LENGTH, MAX_LENGTH]((_, _) => 0);
      R := new Residue[MAX_LENGTH, MAX_LENGTH]((_, _) => 0);
      MarkNum := 0;
    }

    /** All cells but the given one: a stamped cell is untouched, and one stamped since is finished. */
    twostate predicate Kept(but: Interval)
      requires Shape() && old(Shape())
      reads this, P, R
    {
      forall a, b :: 0 <= a < MAX_LENGTH && 0 <= b < MAX_LENGTH && (a, b) != but ==>
        if old(P[a, b]) == MarkNum then P[a, b] == MarkNum && R[a, b] == old(R[a, b])
        else P[a, b] == MarkNum ==> Finished(a, b)
    }

    /** The call for [l, r] has tried the splits before i; its own cell is stamped and half filled. */
    ghost predicate Filling(l: int, r: int, i: int)
      requires 0 <= l <= r + 1 <= |S|
      reads this, P, R
    {
      && Valid() && 0 <= l < |S| && 0 <= r < |S|
      && P[l, r] == MarkNum && R[l, r] as int == Partial(S, l, r, i) % MODULUS
      && forall a, b :: 0 <= a < MAX_LENGTH && 0 <= b < MAX_LENGTH && P[a, b] == MarkNum ==>
           Finished(a, b) || StrictlyEncloses((a, b), l, r) || (a, b) == (l, r)
    }

    /** F never reads a half-filled cell, never touches a stamped one again, and leaves every cell that
        it stamps finished. */
    method F(l: int, r: int) returns (f: Residue)
      requires Memo(l, r)
      requires 0 <= l <= r + 1 && l < |S| && 0 <= r < |S|
      modifies P, R
      ensures Valid() && f as int == Count(S, l, r) % MODULUS && Kept(NO_CELL)
      decreases r - l + 1, 1
    {
      if l == r {
        OneLetter(S, l);
        return 1;
      }
      if P[l, r] == MarkNum {
        return R[l, r];
      }
      P[l, r], R[l, r] := MarkNum, 0;
      PartialStartsAndEnds(S, l, r);
      var i := l + 1;
      while i <= r
        invariant l + 1 <= i <= if l < r then r + 1 else l + 1
        invariant Filling(l, r, i) && Kept((l, r))
      {
        TrySplit(l, r, i);
        i := i + 1;
      }
      return R[l, r];
    }

    /** One turn of the loop of F. */
    method TrySplit(l: int, r: int, i: int)
      requires 0 <= l < i <= r < |S| && Filling(l, r, i)
      modifies P, R
      ensures Filling(l, r, i + 1) && Kept((l, r))
      decreases r - l + 1, 0
    {
      if S[i] == S[l] {
        var first := F(l + 1, i - 1);
        var rest := F(i, r);
        var next := AddProduct(R[l, r], first, rest, S, l, r, i);
        R[l, r] := next;
      } else {
        NoSplit(S, l, r, i);
      }
    }

    /** One turn of the program's loop: the empty line ends it, any other is answered. */
    method Query(text: seq<CHAR16>) returns (answered: bool, f: Residue)
      requires Valid() && |text| < MAX_LENGTH && MarkNum < 0x7fff_ffff
      modifies this, P, R
      ensures Valid() && S == text && answered == (text != [])
      ensures MarkNum == old(MarkNum) + if text == [] then 0 else 1
      ensures answered ==> Answers(text, f)
    {
      S := text;
      if |S| == 0 {
        return false, 0;
      }
      MarkNum := MarkNum + 1;
      f := F(0, |S| - 1);
      answered := true;
      AllTours(text);
    }

    /** The program's loop over the lines that are entered, up to the first empty one. */
    method Session(lines: seq<seq<CHAR16>>) returns (answers: seq<Residue>)
      requires Valid() && (forall i :: 0 <= i < |lines| ==> |lines[i]| < MAX_LENGTH)
      requires MarkNum as int + |lines| <= 0x7fff_ffff
      modifies this, P, R
      ensures Valid() && |answers| <= |lines|
      ensures |answers| == |lines| || lines[|answers|] == []
      ensures forall i :: 0 <= i < |answers| ==> lines[i] != [] && Answers(lines[i], answers[i])
    {
      answers := [];
      for i := 0 to |lines|
        invariant Valid() && |answers| == i && MarkNum as int + |lines| - i <= 0x7fff_ffff
        invariant forall k :: 0 <= k < i ==> lines[k] != [] && Answers(lines[k], answers[k])
      {
        var answered, f := Query(lines[i]);
        if !answered {
          break;
        }
        answers := answers + [f];
      }
    }
  }

  /** f is the number of trees whose tour is the line, modulo 10^9. */
  ghost predicate Answers(line: seq<CHAR16>, f: Residue) {
    (forall t :: t in Trees(line) <==> Tour(t) == line) && f as int == |Trees(line)| % MODULUS
  }
}
