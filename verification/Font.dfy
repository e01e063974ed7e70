/** How a strip image is cut into glyphs: the box around its ink, the column ranges of the glyphs, and
    which glyph each character gets. */
module StripCutting {
  import opened Arithmetic
  import opened CStrings
  import opened Screens
  import opened Scaling

  /** The colour of the corner pixel is the background. */
  function Background(p: Picture): Pixel
    requires p.Valid() && p.w > 0 && p.h > 0
  {
    p.Get(0, 0)
  }

  predicate Ink(p: Picture, x: nat, y: nat)
    requires p.Valid() && x < p.w && y < p.h
  {
    p.Get(x, y) != Background(p)
  }

  ghost predicate InkColumn(p: Picture, x: nat)
    requires p.Valid()
  {
    x < p.w && exists y: nat :: y < p.h && Ink(p, x, y)
  }

  ghost predicate InkRow(p: Picture, y: nat)
    requires p.Valid()
  {
    y < p.h && exists x: nat :: x < p.w && Ink(p, x, y)
  }

  ghost predicate HasInk(p: Picture)
    requires p.Valid()
  {
    exists x: nat :: InkColumn(p, x)
  }

  /** Columns left to right and rows top to bottom, the ends excluded. */
  datatype Box = Box(left: nat, right: nat, top: nat, bottom: nat)

  /** All ink is inside, and each of the four sides touches some. */
  ghost predicate IsBox(p: Picture, b: Box)
    requires p.Valid()
  {
    && b.left < b.right <= p.w && b.top < b.bottom <= p.h
    && (forall x: nat, y: nat :: x < p.w && y < p.h && Ink(p, x, y) ==> b.left <= x < b.right && b.top <= y < b.bottom)
    && InkColumn(p, b.left) && InkColumn(p, b.right - 1) && InkRow(p, b.top) && InkRow(p, b.bottom - 1)
  }

  lemma BoxIsUnique(p: Picture, a: Box, b: Box)
    requires p.Valid() && IsBox(p, a) && IsBox(p, b)
    ensures a == b
  {
  }

  /** Columns from to to, the end excluded. */
  datatype Span = Span(from: nat, to: nat)

  // ----- The column scan, on the columns' ink alone -----

  /** Which of the first n columns have ink. */
  ghost function ColumnsUpTo(p: Picture, n: nat): (ink: seq<bool>)
    requires p.Valid()
    ensures |ink| == n && forall x {:trigger InkColumn(p, x)} :: 0 <= x < n ==> ink[x] == InkColumn(p, x)
  {
    if n == 0 then [] else ColumnsUpTo(p, n - 1) + [InkColumn(p, n - 1)]
  }

  ghost function Columns(p: Picture): (ink: seq<bool>)
    requires p.Valid()
    ensures |ink| == p.w && forall x {:trigger InkColumn(p, x)} :: 0 <= x < p.w ==> ink[x] == InkColumn(p, x)
  {
    ColumnsUpTo(p, p.w)
  }

  /** Scanning from column j, the next glyph starts at the first column with ink; it ends at the first blank
      column more than least columns after that, or at right. */
  predicate IsNext(ink: seq<bool>, j: nat, right: nat, least: nat, g: Span) {
    && j <= g.from < g.to <= right <= |ink|
    && (forall x :: j <= x < g.from ==> !ink[x]) && ink[g.from]
    && (forall x :: g.from + least < x < g.to ==> ink[x])
    && (g.to < right ==> g.from + least < g.to && !ink[g.to])
  }

  /** Where the scan stands after k glyphs: the column after a glyph is skipped. */
  function After(spans: seq<Span>, j: nat, k: nat): nat
    requires k <= |spans|
  {
    if k == 0 then j else spans[k - 1].to + 1
  }

  /** The spans are those of the glyphs from column j on, one after the other. */
  predicate Scanned(ink: seq<bool>, j: nat, right: nat, least: nat, spans: seq<Span>) {
    forall i {:trigger After(spans, j, i)} :: 0 <= i < |spans| ==>
      IsNext(ink, After(spans, j, i), right, least, spans[i])
  }

  /** The scan stops when its n characters are used up or the right edge is reached. */
  predicate Stopped(j: nat, right: nat, n: nat, spans: seq<Span>) {
    |spans| == n || (|spans| < n && After(spans, j, |spans|) >= right)
  }

  lemma ScannedOneMore(ink: seq<bool>, j: nat, right: nat, least: nat, spans: seq<Span>, g: Span)
    requires Scanned(ink, j, right, least, spans) && IsNext(ink, After(spans, j, |spans|), right, least, g)
    ensures Scanned(ink, j, right, least, spans + [g]) && After(spans + [g], j, |spans| + 1) == g.to + 1
  {
    var all := spans + [g];
    forall i | 0 <= i < |all|
      ensures IsNext(ink, After(all, j, i), right, least, all[i])
    {
      assert After(all, j, i) == After(spans, j, i);
    }
  }

  lemma OneNext(ink: seq<bool>, j: nat, right: nat, least: nat, g: Span, h: Span)
    requires IsNext(ink, j, right, least, g) && IsNext(ink, j, right, least, h)
    ensures g == h
  {
  }

  lemma {:induction false} SamePrefix(ink: seq<bool>, j: nat, right: nat, least: nat,
                                      s: seq<Span>, t: seq<Span>, k: nat)
    requires k <= |s| && k <= |t| && Scanned(ink, j, right, least, s) && Scanned(ink, j, right, least, t)
    ensures s[..k] == t[..k]
  {
    if k > 0 {
      SamePrefix(ink, j, right, least, s, t, k - 1);
      assert k > 1 ==> s[k - 2] == s[..k - 1][k - 2] == t[..k - 1][k - 2] == t[k - 2];
      assert After(s, j, k - 1) == After(t, j, k - 1);
      OneNext(ink, After(s, j, k - 1), right, least, s[k - 1], t[k - 1]);
    }
  }

  lemma NotShorter(ink: seq<bool>, j: nat, right: nat, least: nat, n: nat, s: seq<Span>, t: seq<Span>)
    requires Scanned(ink, j, right, least, s) && Stopped(j, right, n, s)
    requires Scanned(ink, j, right, least, t) && |t| <= n
    ensures |t| <= |s| && t == s[..|t|]
  {
    var k := if |s| < |t| then |s| else |t|;
    SamePrefix(ink, j, right, least, s, t, k);
    assert k > 0 ==> s[k - 1] == s[..k][k - 1] == t[..k][k - 1] == t[k - 1];
    if k < |t| {
      NotAtTheEdge(ink, j, right, least, t, k);
    }
  }

  lemma NotAtTheEdge(ink: seq<bool>, j: nat, right: nat, least: nat, spans: seq<Span>, i: nat)
    requires Scanned(ink, j, right, least, spans) && i < |spans|
    ensures After(spans, j, i) < right
  {
  }

  /** The ink decides the spans. */
  lemma ScanIsUnique(ink: seq<bool>, j: nat, right: nat, least: nat, n: nat, s: seq<Span>, t: seq<Span>)
    requires Scanned(ink, j, right, least, s) && Stopped(j, right, n, s)
    requires Scanned(ink, j, right, least, t) && Stopped(j, right, n, t)
    ensures s == t
  {
    NotShorter(ink, j, right, least, n, s, t);
    NotShorter(ink, j, right, least, n, t, s);
  }

  /** The spans run from left to right with at least one column between any two of them. */
  lemma {:induction false} SpansAreApart(ink: seq<bool>, j: nat, right: nat, least: nat, spans: seq<Span>,
                                         i: nat, k: nat)
    requires Scanned(ink, j, right, least, spans) && i < k < |spans|
    ensures j <= spans[i].from < spans[i].to < spans[k].from < spans[k].to <= right
    decreases k
  {
    assert IsNext(ink, After(spans, j, k), right, least, spans[k]);
    assert IsNext(ink, After(spans, j, i), right, least, spans[i]);
    if i > 0 {
      SpansAreApart(ink, j, right, least, spans, i - 1, i);
    }
    if i < k - 1 {
      SpansAreApart(ink, j, right, least, spans, i, k - 1);
    }
  }

  predicate Covered(spans: seq<Span>, k: nat, x: nat)
    requires k <= |spans|
  {
    exists i :: 0 <= i < k && spans[i].from <= x < spans[i].to
  }

  /** A column with ink is in one of the first k spans exactly when the scan has passed it. */
  lemma {:induction false} InkIsCovered(ink: seq<bool>, j: nat, right: nat, least: nat, spans: seq<Span>,
                                        k: nat, x: nat)
    requires Scanned(ink, j, right, least, spans) && k <= |spans| && j <= x < right <= |ink| && ink[x]
    ensures Covered(spans, k, x) <==> x < After(spans, j, k)
  {
    if k > 0 {
      InkIsCovered(ink, j, right, least, spans, k - 1, x);
      assert IsNext(ink, After(spans, j, k - 1), right, least, spans[k - 1]);
      assert Covered(spans, k, x) <==> Covered(spans, k - 1, x) || spans[k - 1].from <= x < spans[k - 1].to;
    }
  }

  /** Every column with ink is in a span exactly when the last span ends at the right edge. */
  lemma AllInkIsCovered(ink: seq<bool>, j: nat, right: nat, least: nat, spans: seq<Span>)
    requires Scanned(ink, j, right, least, spans) && j < right <= |ink| && ink[right - 1]
    ensures (forall x :: j <= x < right && ink[x] ==> Covered(spans, |spans|, x)) <==>
            spans != [] && spans[|spans| - 1].to == right
  {
    forall x | j <= x < right && ink[x]
      ensures Covered(spans, |spans|, x) <==> x < After(spans, j, |spans|)
    {
      InkIsCovered(ink, j, right, least, spans, |spans|, x);
    }
    PastTheEdge(ink, j, right, least, spans);
  }

  lemma PastTheEdge(ink: seq<bool>, j: nat, right: nat, least: nat, spans: seq<Span>)
    requires Scanned(ink, j, right, least, spans) && j < right <= |ink| && ink[right - 1]
    ensures After(spans, j, |spans|) >= right <==> spans != [] && spans[|spans| - 1].to == right
  {
    if spans != [] {
      assert IsNext(ink, After(spans, j, |spans| - 1), right, least, spans[|spans| - 1]);
    }
  }

  /** The glyph's own picture: the columns of the span in the rows of the box, with the background masked out. */
  function Cut(p: Picture, b: Box, g: Span): (q: Picture)
    requires p.Valid() && g.from <= g.to <= p.w && b.top <= b.bottom <= p.h && p.w > 0 && p.h > 0
    ensures q.Valid() && q.w == g.to - g.from && q.h == b.bottom - b.top
  {
    var w, h := g.to - g.from, b.bottom - b.top;
    Picture(w, h, seq(w * h, k requires 0 <= k < w * h => CutPixel(p, g.from, b.top, w, h, k)), true, Background(p))
  }

  /** Pixel k of the w x h part of the picture at (x, y). */
  function CutPixel(p: Picture, x: nat, y: nat, w: nat, h: nat, k: nat): Pixel
    requires p.Valid() && x + w <= p.w && y + h <= p.h && k < w * h
  {
    RowAndColumn(k, w, h);
    p.Get(x + k % w, y + k / w)
  }

  lemma CutShows(p: Picture, b: Box, g: Span, x: nat, y: nat)
    requires p.Valid() && g.from <= g.to <= p.w && b.top <= b.bottom <= p.h && p.w > 0 && p.h > 0
    requires x < g.to - g.from && y < b.bottom - b.top
    ensures Cut(p, b, g).Get(x, y) == p.Get(g.from + x, b.top + y)
  {
    var w, h := g.to - g.from, b.bottom - b.top;
    ColumnAndRow(x, y, w, h);
    assert Cut(p, b, g).pixels[Scaling.At(x, y, w)] == CutPixel(p, g.from, b.top, w, h, Scaling.At(x, y, w));
  }

  // ----- Pasting the glyphs back -----

  /** Left of column j the canvas shows the strip, from there on the background. */
  ghost predicate ShowsLeftOf(p: Picture, canvas: Picture, j: nat)
    requires p.Valid() && p.w > 0 && p.h > 0
  {
    && canvas.Valid() && canvas.w == p.w && canvas.h == p.h
    && forall x: nat, y: nat :: x < p.w && y < p.h ==>
         canvas.Get(x, y) == if x < j then p.Get(x, y) else Background(p)
  }

  /** Each stage is the one before it with the next glyph drawn at its place. */
  ghost predicate Pasted(p: Picture, b: Box, spans: seq<Span>, stages: seq<Picture>)
    requires p.Valid() && IsBox(p, b)
  {
    && |stages| == |spans| + 1
    && (forall i :: 0 <= i < |stages| ==> stages[i].Valid())
    && forall i :: 0 <= i < |spans| ==>
         spans[i].from <= spans[i].to <= p.w
         && IsDrawn(stages[i], Cut(p, b, spans[i]), spans[i].from, b.top, stages[i + 1])
  }

  lemma OnePasted(p: Picture, b: Box, j: nat, g: Span, canvas: Picture, next: Picture)
    requires p.Valid() && IsBox(p, b) && ShowsLeftOf(p, canvas, j) && next.Valid()
    requires j <= g.from < g.to <= b.right
    requires forall x :: j <= x <= g.to && !(g.from <= x < g.to) ==> !InkColumn(p, x)
    requires IsDrawn(canvas, Cut(p, b, g), g.from, b.top, next)
    ensures ShowsLeftOf(p, next, g.to + 1)
  {
    forall x: nat, y: nat | x < p.w && y < p.h
      ensures next.Get(x, y) == if x < g.to + 1 then p.Get(x, y) else Background(p)
    {
      if g.from <= x < g.to && b.top <= y < b.bottom {
        CutShows(p, b, g, x - g.from, y - b.top);
      } else if j <= x <= g.to {
        NotInk(p, b, x, y);
      }
    }
  }

  lemma NotInk(p: Picture, b: Box, x: nat, y: nat)
    requires p.Valid() && IsBox(p, b) && x < p.w && y < p.h
    requires !InkColumn(p, x) || x < b.left || b.right <= x || y < b.top || b.bottom <= y
    ensures !Ink(p, x, y)
  {
  }

  lemma BlankAround(p: Picture, b: Box, j: nat, least: nat, g: Span)
    requires p.Valid() && IsBox(p, b) && IsNext(Columns(p), j, b.right, least, g)
    ensures forall x :: j <= x <= g.to && !(g.from <= x < g.to) ==> !InkColumn(p, x)
  {
  }

  lemma {:induction false} PastedSoFar(p: Picture, b: Box, least: nat, spans: seq<Span>, stages: seq<Picture>, k: nat)
    requires p.Valid() && IsBox(p, b) && Scanned(Columns(p), b.left, b.right, least, spans)
    requires Pasted(p, b, spans, stages) && ShowsLeftOf(p, stages[0], b.left) && k <= |spans|
    ensures ShowsLeftOf(p, stages[k], After(spans, b.left, k))
  {
    if k > 0 {
      var j, g := After(spans, b.left, k - 1), spans[k - 1];
      PastedSoFar(p, b, least, spans, stages, k - 1);
      assert IsNext(Columns(p), j, b.right, least, g);
      BlankAround(p, b, j, least, g);
      OnePasted(p, b, j, g, stages[k - 1], stages[k]);
    }
  }

  lemma WholeIfPastTheEdge(p: Picture, b: Box, stop: nat, canvas: Picture)
    requires p.Valid() && IsBox(p, b) && ShowsLeftOf(p, canvas, stop)
    ensures canvas.pixels == p.pixels <==> b.right <= stop
  {
    if b.right <= stop {
      forall x: nat, y: nat | x < p.w && y < p.h && b.right <= x
        ensures p.Get(x, y) == Background(p)
      {
        NotInk(p, b, x, y);
      }
      SamePixels(canvas, p);
    } else {
      var y: nat :| y < p.h && Ink(p, b.right - 1, y);
      assert canvas.Get(b.right - 1, y) != p.Get(b.right - 1, y);
    }
  }

  /** Pasting the glyphs back on an empty canvas restores the strip exactly when the last glyph ends at the
      right edge of the ink. */
  lemma PastingRestores(p: Picture, b: Box, least: nat, spans: seq<Span>, stages: seq<Picture>)
    requires p.Valid() && IsBox(p, b) && Scanned(Columns(p), b.left, b.right, least, spans)
    requires Pasted(p, b, spans, stages) && ShowsLeftOf(p, stages[0], 0)
    ensures stages[|stages| - 1].pixels == p.pixels <==> spans != [] && spans[|spans| - 1].to == b.right
  {
    forall x: nat, y: nat | x < p.w && y < p.h && x < b.left
      ensures p.Get(x, y) == Background(p)
    {
      NotInk(p, b, x, y);
    }
    PastedSoFar(p, b, least, spans, stages, |spans|);
    PastTheEdge(Columns(p), b.left, b.right, least, spans);
    WholeIfPastTheEdge(p, b, After(spans, b.left, |spans|), stages[|stages| - 1]);
  }

  // ----- Which glyph each character gets -----

  /** The pictures are those of the spans, in order. */
  ghost predicate AreCuts(p: Picture, b: Box, spans: seq<Span>, pics: seq<Picture>)
    requires p.Valid() && IsBox(p, b)
  {
    && |pics| == |spans|
    && forall i :: 0 <= i < |spans| ==> spans[i].from <= spans[i].to <= p.w && pics[i] == Cut(p, b, spans[i])
  }

  /** The distance d is more than a third of the average width of so many characters in the box. */
  predicate Far(b: Box, count: nat, d: nat)
    requires b.left <= b.right
  {
    3 * count * d > b.right - b.left
  }

  /** The scan with its first k glyphs cut out stands at column j. */
  ghost predicate GlyphsUpTo(p: Picture, b: Box, least: nat, k: nat, j: nat, spans: seq<Span>, pics: seq<Picture>)
    requires p.Valid() && IsBox(p, b)
  {
    && |spans| == k && j == After(spans, b.left, k)
    && Scanned(Columns(p), b.left, b.right, least, spans) && AreCuts(p, b, spans, pics)
  }

  lemma GlyphsOneMore(p: Picture, b: Box, least: nat, k: nat, spans: seq<Span>, pics: seq<Picture>, g: Span)
    requires p.Valid() && IsBox(p, b) && GlyphsUpTo(p, b, least, k, After(spans, b.left, |spans|), spans, pics)
    requires IsNext(Columns(p), After(spans, b.left, |spans|), b.right, least, g)
    ensures GlyphsUpTo(p, b, least, k + 1, g.to + 1, spans + [g], pics + [Cut(p, b, g)])
  {
    ScannedOneMore(Columns(p), b.left, b.right, least, spans, g);
  }

  /** A third of the average width, rounded down: the greatest distance that is not more than it. */
  function LeastWidth(b: Box, count: nat): (least: nat)
    requires count > 0 && b.left <= b.right
    ensures !Far(b, count, least) && Far(b, count, least + 1)
  {
    ThirdOfAverage(b.right - b.left, count);
    (b.right - b.left) / count / 3
  }

  lemma ThirdOfAverage(w: nat, count: nat)
    requires count > 0
    ensures var least := w / count / 3;
      3 * count * least <= w < 3 * count * (least + 1)
  {
    var average, least := w / count, w / count / 3;
    Division(w, count);
    Product(3 * least, average, count);
    Product(average + 1, 3 * (least + 1), count);
    assert 3 * count * least == 3 * least * count && 3 * count * (least + 1) == 3 * (least + 1) * count;
  }

  lemma FarIsMore(b: Box, count: nat, d: nat)
    requires count > 0 && b.left <= b.right
    ensures Far(b, count, d) <==> d > LeastWidth(b, count)
  {
    var least := LeastWidth(b, count);
    if d <= least {
      Product(d, least, 3 * count);
    } else {
      Product(least + 1, d, 3 * count);
    }
  }

  /** The first glyph at or after column j: from its first column with ink to the first blank one that is more than
      a third of the average width further on; nearer blank columns are part of it. */
  predicate IsGlyph(ink: seq<bool>, b: Box, count: nat, j: nat, g: Span)
    requires b.left <= b.right
  {
    && j <= g.from < g.to <= b.right <= |ink|
    && (forall x :: j <= x < g.from ==> !ink[x]) && ink[g.from]
    && (forall x :: g.from < x < g.to && Far(b, count, x - g.from) ==> ink[x])
    && (g.to < b.right ==> Far(b, count, g.to - g.from) && !ink[g.to])
  }

  /** The spans of a strip with so many characters: glyph after glyph, the column behind each left out, until the
      characters or the columns are used up. */
  ghost predicate AreStripSpans(p: Picture, b: Box, count: nat, spans: seq<Span>)
    requires p.Valid() && IsBox(p, b) && count > 0
  {
    && Stopped(b.left, b.right, count, spans)
    && forall i :: 0 <= i < |spans| ==> IsGlyph(Columns(p), b, count, After(spans, b.left, i), spans[i])
  }

  /** That is the scan with a third of the average width as the least one. */
  lemma StripSpans(p: Picture, b: Box, count: nat, spans: seq<Span>)
    requires p.Valid() && IsBox(p, b) && count > 0 && Stopped(b.left, b.right, count, spans)
    ensures AreStripSpans(p, b, count, spans) <==> Scanned(Columns(p), b.left, b.right, LeastWidth(b, count), spans)
  {
    forall i | 0 <= i < |spans|
      ensures IsGlyph(Columns(p), b, count, After(spans, b.left, i), spans[i])
         <==> IsNext(Columns(p), After(spans, b.left, i), b.right, LeastWidth(b, count), spans[i])
    {
      NextIsGlyph(Columns(p), b, count, After(spans, b.left, i), spans[i]);
    }
  }

  lemma NextIsGlyph(ink: seq<bool>, b: Box, count: nat, j: nat, g: Span)
    requires count > 0 && b.left <= b.right
    ensures IsGlyph(ink, b, count, j, g) <==> IsNext(ink, j, b.right, LeastWidth(b, count), g)
  {
    forall d: nat
      ensures Far(b, count, d) <==> d > LeastWidth(b, count)
    {
      FarIsMore(b, count, d);
    }
  }

  function LastIndex(s: seq<CHAR16>, c: CHAR16): (k: nat)
    requires c in s
    ensures k < |s| && s[k] == c && forall i :: k < i < |s| ==> s[i] != c
  {
    if s[|s| - 1] == c then |s| - 1 else LastIndex(s[..|s| - 1], c)
  }

  lemma LastIndexOneMore(s: seq<CHAR16>, c: CHAR16, d: CHAR16)
    ensures d in s + [c] <==> d == c || d in s
    ensures d == c ==> LastIndex(s + [c], d) == |s|
    ensures d != c && d in s ==> LastIndex(s + [c], d) == LastIndex(s, d)
  {
    assert (s + [c])[|s|] == c && (s + [c])[..|s|] == s;
  }
}

/** The font: glyph pictures in a two-level trie, by the low byte and then the high byte of the character. */
module Fonts {
  import opened CStrings
  import opened Screens
  import opened Sequences
  import opened StripCutting

  /** What the unsigned variable startscan holds until a column with ink is found. */
  const NOT_STARTED: nat := 0xFFFF_FFFF

  class LFontHolder {
    var Bitmap: LScreen?
    const Trie: array<LFontHolder?>

    constructor ()
      ensures Bitmap == null && fresh(Trie) && Trie.Length == 256
      ensures forall i :: 0 <= i < 256 ==> Trie[i] == null
    {
      Bitmap := null;
      Trie := new LFontHolder?[256](_ => null);
    }
  }

  /** The bitmap last stored for c. */
  ghost function LastStored(chars: seq<CHAR16>, bitmaps: seq<LScreen>, c: CHAR16): LScreen?
    requires |chars| == |bitmaps|
  {
    if c in chars then bitmaps[LastIndex(chars, c)] else null
  }

  lemma LastStoredOneMore(chars: seq<CHAR16>, bitmaps: seq<LScreen>, c: CHAR16, bitmap: LScreen, d: CHAR16)
    requires |chars| == |bitmaps|
    ensures LastStored(chars + [c], bitmaps + [bitmap], d) == if d == c then bitmap else LastStored(chars, bitmaps, d)
  {
    LastIndexOneMore(chars, c, d);
  }

  /** Pixel (x, y) comes before (j, i) when the rows are read one after the other. */
  predicate Before(x: nat, y: nat, j: nat, i: nat) {
    y < i || (y == i && x < j)
  }

  /** The bounds hold for the pixels read so far, and each of them is met once there is ink. */
  ghost predicate Encloses(p: Picture, i: nat, j: nat, found: bool,
                           minWidth: nat, maxWidth: nat, minHeight: nat, maxHeight: nat)
    requires p.Valid()
  {
    && (forall x: nat, y: nat :: x < p.w && y < p.h && Before(x, y, j, i) && Ink(p, x, y) ==>
          found && minWidth <= x <= maxWidth && minHeight <= y <= maxHeight)
    && (found ==> InkColumn(p, minWidth) && InkColumn(p, maxWidth) && InkRow(p, minHeight) && InkRow(p, maxHeight))
    && (!found ==> minWidth == p.w && maxWidth == 0 && minHeight == p.h && maxHeight == 0)
  }

  function Min(a: nat, b: nat): nat { if a < b then a else b }

  function Max(a: nat, b: nat): nat { if a > b then a else b }

  lemma EnclosesOneMore(p: Picture, i: nat, j: nat, found: bool, minW: nat, maxW: nat, minH: nat, maxH: nat)
    requires p.Valid() && i < p.h && j < p.w && Encloses(p, i, j, found, minW, maxW, minH, maxH)
    ensures if Ink(p, j, i) then Encloses(p, i, j + 1, true, Min(minW, j), Max(maxW, j), Min(minH, i), Max(maxH, i))
            else Encloses(p, i, j + 1, found, minW, maxW, minH, maxH)
  {
    assert Ink(p, j, i) ==> InkColumn(p, j) && InkRow(p, i);
  }

  lemma EnclosesNextRow(p: Picture, i: nat, found: bool, minW: nat, maxW: nat, minH: nat, maxH: nat)
    requires p.Valid() && i < p.h && Encloses(p, i, p.w, found, minW, maxW, minH, maxH)
    ensures Encloses(p, i + 1, 0, found, minW, maxW, minH, maxH)
  {
  }

  lemma EnclosesAll(p: Picture, found: bool, minW: nat, maxW: nat, minH: nat, maxH: nat)
    requires p.Valid() && HasInk(p) && Encloses(p, p.h, 0, found, minW, maxW, minH, maxH)
    ensures IsBox(p, Box(minW, maxW + 1, minH, maxH + 1))
  {
    assert forall x: nat, y: nat :: x < p.w && y < p.h && Ink(p, x, y) ==> Before(x, y, 0, p.h);
  }

  /** The first loops of LoadBitmap: the box around the ink. */
  method Enclose(bitmap: LScreen, EmptyColor: Pixel) returns (box: Box)
    requires bitmap.Valid() && HasInk(bitmap.Shot()) && EmptyColor == Background(bitmap.Shot())
    ensures IsBox(bitmap.Shot(), box)
  {
    ghost var p := bitmap.Shot();
    var minWidth: nat, maxWidth: nat := bitmap.W, 0;
    var minHeight: nat, maxHeight: nat := bitmap.H, 0;
    ghost var found := false;
    for i := 0 to bitmap.H
      invariant Encloses(p, i, 0, found, minWidth, maxWidth, minHeight, maxHeight)
    {
      for j := 0 to bitmap.W
        invariant Encloses(p, i, j, found, minWidth, maxWidth, minHeight, maxHeight)
      {
        EnclosesOneMore(p, i, j, found, minWidth, maxWidth, minHeight, maxHeight);
        bitmap.GetBufferIsGet(j, i);
        if bitmap.GetBuffer(j, i) != EmptyColor {
          minWidth := Min(minWidth, j);
          maxWidth := Max(maxWidth, j);
          minHeight := Min(minHeight, i);
          maxHeight := Max(maxHeight, i);
          found := true;
        }
      }
      EnclosesNextRow(p, i, found, minWidth, maxWidth, minHeight, maxHeight);
    }
    EnclosesAll(p, found, minWidth, maxWidth, minHeight, maxHeight);
    maxWidth := maxWidth + 1;
    maxHeight := maxHeight + 1;
    return Box(minWidth, maxWidth, minHeight, maxHeight);
  }

  /** The scan of one column. */
  method ScanColumn(bitmap: LScreen, j: nat, box: Box, EmptyColor: Pixel, scanline: array<bool>)
    returns (pscanned: bool)
    requires bitmap.Valid() && IsBox(bitmap.Shot(), box) && EmptyColor == Background(bitmap.Shot())
    requires j < box.right && scanline.Length == box.bottom - box.top
    modifies scanline
    ensures pscanned <==> InkColumn(bitmap.Shot(), j)
  {
    ghost var p := bitmap.Shot();
    pscanned := false;
    for i := box.top to box.bottom
      invariant bitmap.Shot() == p
      invariant pscanned ==> InkColumn(p, j)
      invariant !pscanned ==> forall y: nat :: box.top <= y < i ==> !Ink(p, j, y)
    {
      bitmap.GetBufferIsGet(j, i);
      assert Ink(p, j, i) <==> bitmap.GetBuffer(j, i) != EmptyColor;
      scanline[i - box.top] := bitmap.GetBuffer(j, i) != EmptyColor;
      pscanned := pscanned || scanline[i - box.top];
    }
  }

  /** The inner loop of LoadBitmap: from column start on, where the next glyph starts and ends. */
  method ScanGlyph(bitmap: LScreen, start: nat, box: Box, minCharWidth: nat, EmptyColor: Pixel, scanline: array<bool>)
    returns (startscan: nat, j: nat)
    requires bitmap.Valid() && bitmap.W < NOT_STARTED
    requires IsBox(bitmap.Shot(), box) && EmptyColor == Background(bitmap.Shot())
    requires start < box.right && scanline.Length == box.bottom - box.top
    modifies scanline
    ensures startscan != NOT_STARTED
    ensures IsNext(Columns(bitmap.Shot()), start, box.right, minCharWidth, Span(startscan, j))
  {
    ghost var p := bitmap.Shot();
    ghost var ink := Columns(p);
    var scanned := true;
    startscan := NOT_STARTED;
    j := start;
    while j < box.right
      invariant start <= j <= box.right && scanned && bitmap.Shot() == p
      invariant startscan == NOT_STARTED ==> forall x :: start <= x < j ==> !ink[x]
      invariant startscan != NOT_STARTED ==>
        && start <= startscan < j && ink[startscan]
        && (forall x :: start <= x < startscan ==> !ink[x])
        && (forall x :: startscan + minCharWidth < x < j ==> ink[x])
    {
      var pscanned := ScanColumn(bitmap, j, box, EmptyColor, scanline);
      if pscanned && startscan == NOT_STARTED {
        startscan := j;
      }
      if startscan != NOT_STARTED {
        if j - startscan > minCharWidth {
          scanned := scanned && pscanned;
        }
        if j - startscan > minCharWidth && !scanned {
          break;
        }
      }
      j := j + 1;
    }
  }

  /** The columns left of x are copied, and column x down to row y. */
  ghost predicate CopiedUpTo(p: Picture, b: Box, g: Span, q: Picture, x: nat, y: nat)
    requires p.Valid() && IsBox(p, b) && g.from <= g.to <= b.right
  {
    && q.Valid() && q == Cut(p, b, g).(pixels := q.pixels)
    && forall u: nat, v: nat :: u < q.w && v < q.h && (u + g.from < x || (u + g.from == x && v + b.top < y)) ==>
         q.Get(u, v) == p.Get(u + g.from, v + b.top)
  }

  lemma CopiedOneMore(p: Picture, b: Box, g: Span, q: Picture, x: nat, y: nat, next: Picture)
    requires p.Valid() && IsBox(p, b) && g.from <= x < g.to <= b.right && b.top <= y < b.bottom
    requires CopiedUpTo(p, b, g, q, x, y) && next.Valid() && Changed(q, x - g.from, y - b.top, p.Get(x, y), next)
    ensures CopiedUpTo(p, b, g, next, x, y + 1)
  {
  }

  lemma CopiedNextColumn(p: Picture, b: Box, g: Span, q: Picture, x: nat)
    requires p.Valid() && IsBox(p, b) && g.from <= x < g.to <= b.right && CopiedUpTo(p, b, g, q, x, b.bottom)
    ensures CopiedUpTo(p, b, g, q, x + 1, b.top)
  {
  }

  lemma SameAsCut(p: Picture, b: Box, g: Span, q: Picture)
    requires p.Valid() && IsBox(p, b) && g.from <= g.to <= b.right && CopiedUpTo(p, b, g, q, g.to, b.top)
    ensures q == Cut(p, b, g)
  {
    forall u: nat, v: nat | u < q.w && v < q.h
      ensures q.Get(u, v) == Cut(p, b, g).Get(u, v)
    {
      CutShows(p, b, g, u, v);
    }
    SamePixels(q, Cut(p, b, g));
  }

  /** The glyph's own bitmap, copied column by column. */
  method CopyGlyph(bitmap: LScreen, box: Box, span: Span, EmptyColor: Pixel) returns (CharBitmap: LScreen)
    requires bitmap.Valid() && IsBox(bitmap.Shot(), box) && EmptyColor == Background(bitmap.Shot())
    requires span.from <= span.to <= box.right
    ensures fresh(CharBitmap) && fresh(CharBitmap.Buffer) && CharBitmap.Valid()
    ensures CharBitmap.Shot() == Cut(bitmap.Shot(), box, span)
  {
    ghost var p := bitmap.Shot();
    CharBitmap := new LScreen(0, 0, span.to - span.from, box.bottom - box.top);
    CharBitmap.HasMask := true;
    CharBitmap.EmptyColor := EmptyColor;
    for x := span.from to span.to
      modifies CharBitmap.Buffer
      invariant CharBitmap.Valid() && bitmap.Shot() == p
      invariant CopiedUpTo(p, box, span, CharBitmap.Shot(), x, box.top)
    {
      for y := box.top to box.bottom
        modifies CharBitmap.Buffer
        invariant CharBitmap.Valid() && bitmap.Shot() == p
        invariant CopiedUpTo(p, box, span, CharBitmap.Shot(), x, y)
      {
        bitmap.GetBufferIsGet(x, y);
        ghost var before := CharBitmap.Shot();
        CharBitmap.SetCell(x - span.from, y - box.top, bitmap.GetBuffer(x, y));
        CopiedOneMore(p, box, span, before, x, y, CharBitmap.Shot());
      }
      CopiedNextColumn(p, box, span, CharBitmap.Shot(), x);
    }
    SameAsCut(p, box, span, CharBitmap.Shot());
  }

  /** The next glyph from column start on; there always is one. */
  method CutGlyph(bitmap: LScreen, start: nat, box: Box, minCharWidth: nat, EmptyColor: Pixel, scanline: array<bool>)
    returns (CharBitmap: LScreen?, j: nat, ghost g: Span)
    requires bitmap.Valid() && bitmap.W < NOT_STARTED
    requires IsBox(bitmap.Shot(), box) && EmptyColor == Background(bitmap.Shot())
    requires start < box.right && scanline.Length == box.bottom - box.top
    modifies scanline
    ensures CharBitmap != null && fresh(CharBitmap) && fresh(CharBitmap.Buffer) && CharBitmap.Valid()
    ensures IsNext(Columns(bitmap.Shot()), start, box.right, minCharWidth, g) && j == g.to
    ensures CharBitmap.Shot() == Cut(bitmap.Shot(), box, g)
  {
    var startscan;
    startscan, j := ScanGlyph(bitmap, start, box, minCharWidth, EmptyColor, scanline);
    g := Span(startscan, j);
    CharBitmap := null;
    if startscan != NOT_STARTED {
      CharBitmap := CopyGlyph(bitmap, box, Span(startscan, j), EmptyColor);
    }
  }

  /** Where a node of the trie hangs. */
  datatype Place = Root | Low(low: nat) | High(low: nat, high: nat)

  class LFont {
    const FontHolder: LFontHolder
    var CharHeight: nat
    var FontEmptyColor: Pixel
    ghost var Nodes: map<LFontHolder, Place>

    // Every glyph ever stored, in order: its character, its bitmap and what the bitmap shows.
    ghost var Chars: seq<CHAR16>
    ghost var Bitmaps: seq<LScreen>
    ghost var Pictures: seq<Picture>

    /** Every node hangs in one place only. */
    ghost predicate IsTrie()
      reads `Nodes, Nodes.Keys, set n | n in Nodes :: n.Trie
    {
      && FontHolder in Nodes && Nodes[FontHolder] == Root
      && (forall n :: n in Nodes ==> n.Trie.Length == 256)
      && (forall n, m :: n in Nodes && m in Nodes && n != m ==> n.Trie != m.Trie)
      && (forall i :: 0 <= i < 256 && FontHolder.Trie[i] != null ==>
            && FontHolder.Trie[i] in Nodes && Nodes[FontHolder.Trie[i]] == Low(i)
            && forall k :: 0 <= k < 256 && FontHolder.Trie[i].Trie[k] != null ==>
                 FontHolder.Trie[i].Trie[k] in Nodes && Nodes[FontHolder.Trie[i].Trie[k]] == High(i, k))
    }

    /** The bitmap that hangs under the two bytes of c. */
    ghost function Lookup(c: CHAR16): LScreen?
      requires IsTrie()
      reads `Nodes, Nodes.Keys, set n | n in Nodes :: n.Trie
    {
      var low := FontHolder.Trie[c % 256];
      if low == null then null
      else
        var high := low.Trie[c / 256];
        if high == null then null else high.Bitmap
    }

    /** The bitmaps still show what they showed when they were stored. */
    ghost predicate Intact()
      reads `Bitmaps, `Pictures, Bitmaps, set b | b in Bitmaps :: b.Buffer
    {
      && |Bitmaps| == |Pictures|
      && forall i :: 0 <= i < |Bitmaps| ==> Bitmaps[i].Valid() && Bitmaps[i].Shot() == Pictures[i]
    }

    ghost predicate Valid()
      reads this, Nodes.Keys, set n | n in Nodes :: n.Trie
      reads Bitmaps, set b | b in Bitmaps :: b.Buffer
    {
      && IsTrie() && Intact() && |Chars| == |Bitmaps|
      && forall c: CHAR16 :: Lookup(c) == LastStored(Chars, Bitmaps, c)
    }

    constructor ()
      ensures Valid() && Chars == [] && Pictures == [] && CharHeight == 0
      ensures Nodes.Keys == {FontHolder} && fresh(FontHolder) && fresh(FontHolder.Trie)
    {
      FontHolder := new LFontHolder();
      CharHeight, FontEmptyColor := 0, 0xFFFFFF;
      Chars, Bitmaps, Pictures := [], [], [];
      new;
      Nodes := map[FontHolder := Root];
    }

    method GetCharBitmap(Char: CHAR16) returns (bitmap: LScreen?)
      requires Valid()
      ensures bitmap == null <==> Char !in Chars
      ensures bitmap != null ==> bitmap.Valid() && bitmap.Shot() == Pictures[LastIndex(Chars, Char)]
    {
      assert Lookup(Char) == LastStored(Chars, Bitmaps, Char);
      if FontHolder.Trie[Char % 256] == null {
        return null;
      }
      if FontHolder.Trie[Char % 256].Trie[Char / 256] == null {
        return null;
      }
      return FontHolder.Trie[Char % 256].Trie[Char / 256].Bitmap;
    }

    method AddLow(low: nat)
      requires IsTrie() && low < 256 && FontHolder.Trie[low] == null
      modifies this`Nodes, FontHolder.Trie
      ensures IsTrie() && FontHolder.Trie[low] != null
      ensures forall c: CHAR16 :: Lookup(c) == old(Lookup(c))
      ensures Nodes.Keys == old(Nodes.Keys) + {FontHolder.Trie[low]} && fresh(FontHolder.Trie[low])
      ensures fresh(FontHolder.Trie[low].Trie)
    {
      var node := new LFontHolder();
      FontHolder.Trie[low] := node;
      Nodes := Nodes[node := Low(low)];
    }

    method AddHigh(low: nat, high: nat)
      requires IsTrie() && low < 256 && high < 256
      requires FontHolder.Trie[low] != null && FontHolder.Trie[low].Trie[high] == null
      modifies this`Nodes, FontHolder.Trie[low].Trie
      ensures IsTrie() && FontHolder.Trie[low] == old(FontHolder.Trie[low]) && FontHolder.Trie[low].Trie[high] != null
      ensures forall c: CHAR16 :: Lookup(c) == old(Lookup(c))
      ensures Nodes.Keys == old(Nodes.Keys) + {FontHolder.Trie[low].Trie[high]}
      ensures fresh(FontHolder.Trie[low].Trie[high]) && fresh(FontHolder.Trie[low].Trie[high].Trie)
    {
      var node := new LFontHolder();
      FontHolder.Trie[low].Trie[high] := node;
      Nodes := Nodes[node := High(low, high)];
    }

    method SetHigh(c: CHAR16, bitmap: LScreen)
      requires IsTrie() && FontHolder.Trie[c % 256] != null && FontHolder.Trie[c % 256].Trie[c / 256] != null
      modifies FontHolder.Trie[c % 256].Trie[c / 256]
      ensures IsTrie() && forall d: CHAR16 :: Lookup(d) == if d == c then bitmap else old(Lookup(d))
    {
      FontHolder.Trie[c % 256].Trie[c / 256].Bitmap := bitmap;
      forall d: CHAR16
        ensures Lookup(d) == if d == c then bitmap else old(Lookup(d))
      {
        var low := FontHolder.Trie[d % 256];
        if low != null && low.Trie[d / 256] != null {
          assert Nodes[low.Trie[d / 256]] == High(d % 256, d / 256);
        }
      }
    }

    method Hang(c: CHAR16, bitmap: LScreen)
      requires IsTrie()
      modifies this`Nodes, Nodes.Keys, set n | n in Nodes :: n.Trie
      ensures IsTrie() && forall d: CHAR16 :: Lookup(d) == if d == c then bitmap else old(Lookup(d))
      ensures forall n :: n in Nodes ==> n in old(Nodes) || (fresh(n) && fresh(n.Trie))
    {
      if FontHolder.Trie[c % 256] == null {
        AddLow(c % 256);
      }
      if FontHolder.Trie[c % 256].Trie[c / 256] == null {
        AddHigh(c % 256, c / 256);
      }
      SetHigh(c, bitmap);
    }

    method Store(c: CHAR16, bitmap: LScreen)
      requires Valid() && bitmap.Valid()
      modifies `Nodes, `Chars, `Bitmaps, `Pictures, Nodes.Keys, set n | n in Nodes :: n.Trie
      ensures Valid() && Chars == old(Chars) + [c] && Bitmaps == old(Bitmaps) + [bitmap]
      ensures Pictures == old(Pictures) + [bitmap.Shot()]
      ensures forall n :: n in Nodes ==> n in old(Nodes) || (fresh(n) && fresh(n.Trie))
    {
      Hang(c, bitmap);
      forall d: CHAR16
        ensures Lookup(d) == LastStored(Chars + [c], Bitmaps + [bitmap], d)
      {
        LastStoredOneMore(Chars, Bitmaps, c, bitmap, d);
      }
      Chars, Bitmaps, Pictures := Chars + [c], Bitmaps + [bitmap], Pictures + [bitmap.Shot()];
    }

    /** The end of the loop body of LoadBitmap: the bitmap hangs under the character's two bytes, and the
        font is at least as high. */
    method Keep(c: CHAR16, bitmap: LScreen)
      requires Valid() && bitmap.Valid()
      modifies this, Nodes.Keys, set n | n in Nodes :: n.Trie
      ensures Valid() && Chars == old(Chars) + [c] && Pictures == old(Pictures) + [bitmap.Shot()]
      ensures forall n :: n in Nodes ==> n in old(Nodes) || (fresh(n) && fresh(n.Trie))
      ensures CharHeight == Max(old(CharHeight), bitmap.H) && FontEmptyColor == old(FontEmptyColor)
    {
      Store(c, bitmap);
      CharHeight := if CharHeight < bitmap.H then bitmap.H else CharHeight;
    }

    /** One turn of LoadBitmap's outer loop: the next glyph is cut out and stored for c. */
    method LoadGlyph(bitmap: LScreen, ghost p: Picture, c: CHAR16, start: nat, box: Box, minCharWidth: nat,
                     EmptyColor: Pixel, scanline: array<bool>)
      returns (j: nat, ghost g: Span)
      requires Valid() && bitmap.Valid() && bitmap.W < NOT_STARTED && bitmap.Shot() == p
      requires IsBox(p, box) && EmptyColor == Background(p)
      requires start < box.right && scanline.Length == box.bottom - box.top
      modifies this, Nodes.Keys, (set n | n in Nodes :: n.Trie), scanline
      ensures Valid() && bitmap.Valid() && bitmap.Shot() == p && FontEmptyColor == old(FontEmptyColor)
      ensures forall n :: n in Nodes ==> n in old(Nodes) || (fresh(n) && fresh(n.Trie))
      ensures IsNext(Columns(p), start, box.right, minCharWidth, g) && j == g.to
      ensures Chars == old(Chars) + [c] && Pictures == old(Pictures) + [Cut(p, box, g)]
      ensures CharHeight == Max(old(CharHeight), box.bottom - box.top)
    {
      var CharBitmap;
      CharBitmap, j, g := CutGlyph(bitmap, start, box, minCharWidth, EmptyColor, scanline);
      if CharBitmap != null {
        Keep(c, CharBitmap);
      }
    }

    /** The outer loop of LoadBitmap. */
    method LoadGlyphs(bitmap: LScreen, CharSet: Text, box: Box, minCharWidth: nat, EmptyColor: Pixel)
      returns (ghost spans: seq<Span>, ghost pics: seq<Picture>)
      requires Valid() && bitmap.Valid() && bitmap.W < NOT_STARTED
      requires IsBox(bitmap.Shot(), box) && EmptyColor == Background(bitmap.Shot())
      modifies this, Nodes.Keys, set n | n in Nodes :: n.Trie
      ensures Valid() && FontEmptyColor == old(FontEmptyColor)
      ensures forall n :: n in Nodes ==> n in old(Nodes) || (fresh(n) && fresh(n.Trie))
      ensures Scanned(Columns(bitmap.Shot()), box.left, box.right, minCharWidth, spans)
      ensures Stopped(box.left, box.right, |CharSet|, spans)
      ensures Chars == old(Chars) + CharSet[..|spans|]
      ensures Pictures == old(Pictures) + pics && AreCuts(bitmap.Shot(), box, spans, pics)
      ensures CharHeight == Raised(old(CharHeight), box, |spans|)
    {
      ghost var p, chars, pictures := bitmap.Shot(), Chars, Pictures;
      var scanline := new bool[box.bottom - box.top];
      spans, pics := [], [];
      var j: nat, k: nat := box.left, 0;
      while j < box.right && At(CharSet, k) != 0
        invariant Valid() && bitmap.Valid() && bitmap.Shot() == p && FontEmptyColor == old(FontEmptyColor)
        invariant forall n :: n in Nodes ==> n in old(Nodes) || (fresh(n) && fresh(n.Trie))
        invariant k <= |CharSet| && GlyphsUpTo(p, box, minCharWidth, k, j, spans, pics)
        invariant Chars == chars + CharSet[..k] && Pictures == pictures + pics
        invariant CharHeight == Raised(old(CharHeight), box, k)
        decreases |CharSet| - k
      {
        ghost var g;
        j, g := LoadGlyph(bitmap, p, CharSet[k], j, box, minCharWidth, EmptyColor, scanline);
        LogsOneMore(chars, pictures, CharSet, k, pics, Cut(p, box, g));
        GlyphsOneMore(p, box, minCharWidth, k, spans, pics, g);
        spans, pics := spans + [g], pics + [Cut(p, box, g)];
        j, k := j + 1, k + 1;
      }
    }

    /** LoadBitmap, once the file is in the bitmap. */
    method LoadBitmap(bitmap: LScreen, CharSet: Text)
      returns (ghost strip: Strip)
      requires Valid() && bitmap.Valid() && bitmap.W < NOT_STARTED && HasInk(bitmap.Shot()) && CharSet != []
      modifies this, Nodes.Keys, set n | n in Nodes :: n.Trie
      ensures Valid() && FontEmptyColor == Background(bitmap.Shot()) == bitmap.Shot().pixels[0]
      ensures forall n :: n in Nodes ==> n in old(Nodes) || (fresh(n) && fresh(n.Trie))
      ensures bitmap.Valid() && strip.Valid() && strip.picture == bitmap.Shot() && strip.chars == CharSet
      ensures Chars == old(Chars) + strip.Given() && Pictures == old(Pictures) + strip.pics
      ensures CharHeight == Raised(old(CharHeight), strip.box, |strip.spans|)
    {
      bitmap.GetBufferIsGet(0, 0);
      var EmptyColor := bitmap.GetBuffer(0, 0);
      FontEmptyColor := EmptyColor;
      var bounds := Enclose(bitmap, EmptyColor);
      var minCharWidth := LeastWidth(bounds, |CharSet|);
      ghost var spans, pics := LoadGlyphs(bitmap, CharSet, bounds, minCharWidth, EmptyColor);
      StripSpans(bitmap.Shot(), bounds, |CharSet|, spans);
      strip := Strip(bitmap.Shot(), bounds, CharSet, spans, pics);
    }

    /** The loop of the constructor over the lines of the font's file: one strip after the other. */
    method LoadStrips(bitmaps: seq<LScreen>, charSets: seq<Text>, ghost shots: seq<Picture>)
      returns (ghost strips: seq<Strip>)
      requires Valid() && Strips(bitmaps, shots, charSets)
      modifies this, Nodes.Keys, set n | n in Nodes :: n.Trie
      ensures Valid() && Strips(bitmaps, shots, charSets)
      ensures forall n :: n in Nodes ==> n in old(Nodes) || (fresh(n) && fresh(n.Trie))
      ensures |strips| == |bitmaps| && AreLoaded(strips, shots, charSets)
      ensures Chars == old(Chars) + AllGiven(strips) && Pictures == old(Pictures) + AllPics(strips)
    {
      strips := [];
      for i := 0 to |bitmaps|
        invariant Valid() && Strips(bitmaps, shots, charSets)
        invariant forall n :: n in Nodes ==> n in old(Nodes) || (fresh(n) && fresh(n.Trie))
        invariant |strips| == i && AreLoaded(strips, shots, charSets)
        invariant Chars == old(Chars) + AllGiven(strips) && Pictures == old(Pictures) + AllPics(strips)
      {
        ghost var strip := LoadStrip(bitmaps, charSets, shots, i);
        AllOneMore(old(Chars), old(Pictures), strips, strip);
        LoadedOneMore(strips, strip, shots, charSets);
        strips := strips + [strip];
      }
    }

    /** One turn of that loop. */
    method LoadStrip(bitmaps: seq<LScreen>, charSets: seq<Text>, ghost shots: seq<Picture>, i: nat)
      returns (ghost strip: Strip)
      requires Valid() && Strips(bitmaps, shots, charSets) && i < |bitmaps|
      modifies this, Nodes.Keys, set n | n in Nodes :: n.Trie
      ensures Valid() && Strips(bitmaps, shots, charSets)
      ensures forall n :: n in Nodes ==> n in old(Nodes) || (fresh(n) && fresh(n.Trie))
      ensures IsLoaded(strip, shots[i], charSets[i])
      ensures Chars == old(Chars) + strip.Given() && Pictures == old(Pictures) + strip.pics
    {
      strip := LoadBitmap(bitmaps[i], charSets[i]);
    }
  }

  /** The bitmaps show these pictures, each has some ink, and some characters are to be cut from it. */
  ghost predicate Strips(bitmaps: seq<LScreen>, shots: seq<Picture>, charSets: seq<Text>)
    reads bitmaps, set b | b in bitmaps :: b.Buffer
  {
    && |shots| == |bitmaps| == |charSets|
    && forall i :: 0 <= i < |bitmaps| ==>
         bitmaps[i].Valid() && bitmaps[i].W < NOT_STARTED && bitmaps[i].Shot() == shots[i]
         && HasInk(shots[i]) && charSets[i] != []
  }

  /** A strip that has been loaded: what it showed, and what was cut from it for which characters. */
  datatype Strip = Strip(picture: Picture, box: Box, chars: Text, spans: seq<Span>, pics: seq<Picture>) {
    ghost predicate Valid() {
      && picture.Valid() && IsBox(picture, box) && chars != []
      && AreStripSpans(picture, box, |chars|, spans) && AreCuts(picture, box, spans, pics)
    }

    /** The characters that were given a glyph. */
    function Given(): seq<CHAR16> {
      if |spans| <= |chars| then chars[..|spans|] else chars
    }
  }

  ghost predicate AreLoaded(strips: seq<Strip>, shots: seq<Picture>, charSets: seq<Text>) {
    && |strips| <= |shots| && |strips| <= |charSets|
    && forall i :: 0 <= i < |strips| ==> IsLoaded(strips[i], shots[i], charSets[i])
  }

  ghost predicate IsLoaded(s: Strip, shot: Picture, chars: Text) {
    s.Valid() && s.picture == shot && s.chars == chars
  }

  lemma LoadedOneMore(strips: seq<Strip>, s: Strip, shots: seq<Picture>, charSets: seq<Text>)
    requires AreLoaded(strips, shots, charSets) && |strips| < |shots| && |strips| < |charSets|
    requires IsLoaded(s, shots[|strips|], charSets[|strips|])
    ensures AreLoaded(strips + [s], shots, charSets)
  {
  }

  /** All characters that were given a glyph, in order. */
  function AllGiven(strips: seq<Strip>): seq<CHAR16> {
    if strips == [] then [] else AllGiven(strips[..|strips| - 1]) + strips[|strips| - 1].Given()
  }

  function AllPics(strips: seq<Strip>): seq<Picture> {
    if strips == [] then [] else AllPics(strips[..|strips| - 1]) + strips[|strips| - 1].pics
  }

  lemma AllOneMore(chars: seq<CHAR16>, pictures: seq<Picture>, strips: seq<Strip>, s: Strip)
    ensures chars + AllGiven(strips + [s]) == chars + AllGiven(strips) + s.Given()
    ensures pictures + AllPics(strips + [s]) == pictures + AllPics(strips) + s.pics
  {
    assert (strips + [s])[..|strips|] == strips;
    Associate(chars, AllGiven(strips), s.Given());
    Associate(pictures, AllPics(strips), s.pics);
  }

  function Raised(height: nat, box: Box, count: nat): nat
    requires box.top <= box.bottom
  {
    if count > 0 then Max(height, box.bottom - box.top) else height
  }

  lemma LogsOneMore(chars: seq<CHAR16>, pictures: seq<Picture>, charSet: Text, k: nat, pics: seq<Picture>, pic: Picture)
    requires k < |charSet|
    ensures chars + charSet[..k] + [charSet[k]] == chars + charSet[..k + 1]
    ensures pictures + pics + [pic] == pictures + (pics + [pic])
  {
    OneMore(charSet, k);
    Associate(chars, charSet[..k], [charSet[k]]);
    Associate(pictures, pics, [pic]);
  }

  /** The constructor of a font, once the lines of its file and the bitmaps they name are there: what it finds
      for a character is the last glyph that any of the strips gave it. */
  method OpenFont(bitmaps: seq<LScreen>, charSets: seq<Text>, ghost shots: seq<Picture>)
    returns (font: LFont, ghost strips: seq<Strip>)
    requires Strips(bitmaps, shots, charSets)
    ensures fresh(font) && font.Valid()
    ensures |strips| == |bitmaps| && AreLoaded(strips, shots, charSets)
    ensures font.Chars == AllGiven(strips) && font.Pictures == AllPics(strips)
  {
    font := new LFont();
    strips := font.LoadStrips(bitmaps, charSets, shots);
  }
}
