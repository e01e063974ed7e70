/** The coordinates of Scale: where a source column lands, and which source column a target column shows. */
module Scaling {
  import opened Arithmetic

  /** ceil(v * ratio / 100) */
  function Target(v: nat, ratio: nat): nat {
    (v * ratio + 100 - 1) / 100
  }

  /** floor(100 * x / ratio) */
  function Source(x: nat, ratio: nat): nat
    requires ratio > 0
  {
    100 * x / ratio
  }

  /** In hundredths: the target is the first place not before v * ratio, and the source the last not after 100 * x. */
  lemma Rounded(v: nat, x: nat, ratio: nat)
    requires ratio > 0
    ensures v * ratio <= 100 * Target(v, ratio) < v * ratio + 100
    ensures Source(x, ratio) * ratio <= 100 * x < (Source(x, ratio) + 1) * ratio
  {
    Division(100 * x, ratio);
  }

  /** The two are adjoint: a source column lands at or before x exactly when it is at or before the one x shows. */
  lemma Adjoint(v: nat, x: nat, ratio: nat)
    requires ratio > 0
    ensures Target(v, ratio) <= x <==> v <= Source(x, ratio)
  {
    var a, q := v * ratio, Source(x, ratio);
    assert Target(v, ratio) <= x <==> a <= 100 * x;
    Division(100 * x, ratio);
    if v <= q {
      Product(v, q, ratio);
    } else {
      Product(q + 1, v, ratio);
    }
  }

  /** When shrinking, no target column is missed: the column that x shows lands on x. */
  lemma Onto(x: nat, ratio: nat)
    requires 1 <= ratio <= 100
    ensures Target(Source(x, ratio), ratio) == x
  {
    var q := Source(x, ratio);
    Adjoint(q, x, ratio);
    assert 100 * x == q * ratio + 100 * x % ratio;
    assert q * ratio > 100 * x - 100;
  }

  lemma InRange(x: nat, size: nat, ratio: nat)
    requires ratio > 0 && x < Target(size, ratio)
    ensures Source(x, ratio) < size
  {
    Adjoint(size, x, ratio);
  }

  lemma Monotone(v: nat, size: nat, ratio: nat)
    requires v <= size
    ensures Target(v, ratio) <= Target(size, ratio)
  {
    assert v * ratio <= size * ratio;
  }

  // ----- A W x H image as a row-major sequence -----

  function At(x: nat, y: nat, w: nat): nat {
    y * w + x
  }

  lemma Linear(x: nat, y: nat, w: nat)
    ensures 0 <= y * w + x
  {
  }

  lemma AtInside(x: nat, y: nat, w: nat, h: nat)
    requires x < w && y < h
    ensures At(x, y, w) < w * h
  {
    assert y * w + w == (y + 1) * w <= h * w;
  }

  lemma Below(x: nat, y: nat, w: nat, h: nat)
    requires h <= y
    ensures w * h <= At(x, y, w)
  {
    assert h * w <= y * w;
  }

  lemma AtInjective(x: nat, y: nat, x': nat, y': nat, w: nat)
    requires x < w && x' < w && At(x, y, w) == At(x', y', w)
    ensures x == x' && y == y'
  {
    if y < y' {
      AtOrdered(x, y, x', y', w);
    } else if y' < y {
      AtOrdered(x', y', x, y, w);
    }
  }

  lemma AtOrdered(x: nat, y: nat, x': nat, y': nat, w: nat)
    requires x < w && y < y'
    ensures At(x, y, w) < At(x', y', w)
  {
    assert (y + 1) * w <= y' * w;
  }
}

module Screens {
  import opened Arithmetic
  import opened Scaling

  // A pixel and EmptyColor are the same 32 bits whether the source calls them unsigned or int.
  type Pixel = c: int | 0 <= c < 0x1_0000_0000

  const NO_PIXEL: Pixel := 0xFFFF_FFFF

  datatype Picture = Picture(w: nat, h: nat, pixels: seq<Pixel>, hasMask: bool, emptyColor: Pixel) {
    predicate Valid() {
      |pixels| == w * h
    }

    function Get(x: nat, y: nat): Pixel
      requires Valid() && x < w && y < h
    {
      AtInside(x, y, w, h);
      pixels[At(x, y, w)]
    }

    /** A masked picture does not copy its empty pixels. */
    predicate Copied(x: nat, y: nat)
      requires Valid() && x < w && y < h
    {
      hasMask ==> Get(x, y) != emptyColor
    }
  }

  /** Target cell (x, y) has had its last writer when the copy stands before source cell (j, i). */
  predicate Past(x: nat, y: nat, ratio: nat, i: nat, j: nat)
    requires ratio > 0
  {
    Source(y, ratio) < i || (Source(y, ratio) == i && Source(x, ratio) < j)
  }

  /** Every target cell that is past shows the source cell it should, if that one is copied at all. */
  ghost predicate ScaledUpTo(src: Picture, ratio: nat, dst: seq<Pixel>, i: nat, j: nat)
    requires src.Valid() && ratio > 0
  {
    var w, h := Target(src.w, ratio), Target(src.h, ratio);
    && |dst| == w * h
    && forall x: nat, y: nat :: x < w && y < h && Past(x, y, ratio, i, j) ==> Shows(src, ratio, dst, x, y)
  }

  ghost predicate Shows(src: Picture, ratio: nat, dst: seq<Pixel>, x: nat, y: nat)
    requires src.Valid() && ratio > 0 && |dst| == Target(src.w, ratio) * Target(src.h, ratio)
    requires x < Target(src.w, ratio) && y < Target(src.h, ratio)
  {
    InRange(x, src.w, ratio);
    InRange(y, src.h, ratio);
    AtInside(x, y, Target(src.w, ratio), Target(src.h, ratio));
    src.Copied(Source(x, ratio), Source(y, ratio)) ==>
      dst[At(x, y, Target(src.w, ratio))] == src.Get(Source(x, ratio), Source(y, ratio))
  }

  /** The closed form: every target cell (x, y) shows source cell (Source(x), Source(y)); in a masked
      picture, whenever that cell is not empty. */
  ghost predicate IsScaled(src: Picture, ratio: nat, dst: seq<Pixel>)
    requires src.Valid() && ratio > 0
  {
    && |dst| == Target(src.w, ratio) * Target(src.h, ratio)
    && forall x: nat, y: nat :: x < Target(src.w, ratio) && y < Target(src.h, ratio) ==> Shows(src, ratio, dst, x, y)
  }

  /** The buffer after the write of source cell (j, i), which may fall into the next row or off the end. */
  function Written(src: Picture, ratio: nat, dst: seq<Pixel>, i: nat, j: nat): seq<Pixel>
    requires src.Valid() && j < src.w && i < src.h
  {
    var k := At(Target(j, ratio), Target(i, ratio), Target(src.w, ratio));
    if src.Copied(j, i) && k < |dst| then dst[k := src.Get(j, i)] else dst
  }

  /** No write reaches a cell that is past, the spill of the last column included. */
  lemma WriteMissesPast(src: Picture, ratio: nat, i: nat, j: nat, x: nat, y: nat)
    requires src.Valid() && 1 <= ratio <= 100 && j < src.w && i < src.h
    requires x < Target(src.w, ratio) && y < Target(src.h, ratio) && Past(x, y, ratio, i, j)
    ensures At(Target(j, ratio), Target(i, ratio), Target(src.w, ratio)) != At(x, y, Target(src.w, ratio))
  {
    var w := Target(src.w, ratio);
    Monotone(j, src.w, ratio);
    if At(Target(j, ratio), Target(i, ratio), w) == At(x, y, w) {
      SameOrSpilled(Target(j, ratio), Target(i, ratio), x, y, w);
      Adjoint(i, y, ratio);
      Adjoint(j, x, ratio);
      Onto(y, ratio);
      assert false;
    }
  }

  /** A write one column past the edge lands in column 0 of the next row. */
  lemma SameOrSpilled(tx: nat, ty: nat, x: nat, y: nat, w: nat)
    requires tx <= w && x < w && At(tx, ty, w) == At(x, y, w)
    ensures (tx == x && ty == y) || (tx == w && x == 0 && y == ty + 1)
  {
    if tx < w {
      AtInjective(tx, ty, x, y, w);
    } else {
      assert At(tx, ty, w) == At(0, ty + 1, w);
      AtInjective(0, ty + 1, x, y, w);
    }
  }

  lemma WriteStep(src: Picture, ratio: nat, dst: seq<Pixel>, i: nat, j: nat)
    requires src.Valid() && 1 <= ratio <= 100 && j < src.w && i < src.h
    requires ScaledUpTo(src, ratio, dst, i, j)
    ensures ScaledUpTo(src, ratio, Written(src, ratio, dst, i, j), i, j + 1)
  {
    var w, h := Target(src.w, ratio), Target(src.h, ratio);
    var next := Written(src, ratio, dst, i, j);
    forall x: nat, y: nat | x < w && y < h && Past(x, y, ratio, i, j + 1)
      ensures Shows(src, ratio, next, x, y)
    {
      AtInside(x, y, w, h);
      if Past(x, y, ratio, i, j) {
        assert Shows(src, ratio, dst, x, y);
        WriteMissesPast(src, ratio, i, j, x, y);
      } else {
        Onto(x, ratio);
        Onto(y, ratio);
      }
    }
  }

  lemma NextRow(src: Picture, ratio: nat, dst: seq<Pixel>, i: nat)
    requires src.Valid() && 1 <= ratio <= 100 && i < src.h
    requires ScaledUpTo(src, ratio, dst, i, src.w)
    ensures ScaledUpTo(src, ratio, dst, i + 1, 0)
  {
    forall x: nat, y: nat | x < Target(src.w, ratio) && y < Target(src.h, ratio) && Past(x, y, ratio, i + 1, 0)
      ensures Shows(src, ratio, dst, x, y)
    {
      InRange(x, src.w, ratio);
      assert Past(x, y, ratio, i, src.w);
    }
  }

  lemma AllPast(src: Picture, ratio: nat, dst: seq<Pixel>)
    requires src.Valid() && 1 <= ratio <= 100 && ScaledUpTo(src, ratio, dst, src.h, 0)
    ensures IsScaled(src, ratio, dst)
  {
    forall x: nat, y: nat | x < Target(src.w, ratio) && y < Target(src.h, ratio)
      ensures Past(x, y, ratio, src.h, 0)
    {
      InRange(y, src.h, ratio);
    }
  }

  /** At ratio 100 an unmasked picture is copied as it is. */
  lemma FullSizeIsIdentity(src: Picture, dst: seq<Pixel>)
    requires src.Valid() && !src.hasMask && IsScaled(src, 100, dst)
    ensures Target(src.w, 100) == src.w && Target(src.h, 100) == src.h && dst == src.pixels
  {
    forall k | 0 <= k < |dst|
      ensures dst[k] == src.pixels[k]
    {
      var x, y := k % src.w, k / src.w;
      RowAndColumn(k, src.w, src.h);
      assert Shows(src, 100, dst, x, y);
      assert Source(x, 100) == x && Source(y, 100) == y;
    }
  }

  lemma ColumnAndRow(x: nat, y: nat, w: nat, h: nat)
    requires x < w && y < h
    ensures At(x, y, w) < w * h && At(x, y, w) % w == x && At(x, y, w) / w == y
  {
    AtInside(x, y, w, h);
    Quotient(At(x, y, w), w, y, x);
  }

  lemma RowAndColumn(k: nat, w: nat, h: nat)
    requires k < w * h
    ensures w > 0 && k % w < w && k / w < h && At(k % w, k / w, w) == k
  {
    var q := k / w;
    assert k == q * w + k % w;
    assert q >= h ==> q * w >= h * w;
  }

  // ----- Drawing one picture on another -----

  /** Two pictures with the same cells are the same. */
  lemma SamePixels(p: Picture, q: Picture)
    requires p.Valid() && q.Valid() && p.w == q.w && p.h == q.h
    requires forall x: nat, y: nat :: x < p.w && y < p.h ==> p.Get(x, y) == q.Get(x, y)
    ensures p.pixels == q.pixels
  {
    forall k | 0 <= k < |p.pixels|
      ensures p.pixels[k] == q.pixels[k]
    {
      RowAndColumn(k, p.w, p.h);
      assert p.Get(k % p.w, k / p.w) == q.Get(k % p.w, k / p.w);
    }
  }

  /** The cell at (x, y) is overwritten, every other cell is as it was. */
  ghost predicate Changed(before: Picture, x: nat, y: nat, value: Pixel, after: Picture)
    requires before.Valid() && after.Valid() && x < before.w && y < before.h
  {
    && after == before.(pixels := after.pixels)
    && forall u: nat, v: nat :: u < before.w && v < before.h ==>
         after.Get(u, v) == if u == x && v == y then value else before.Get(u, v)
  }

  lemma UpdateChanges(before: Picture, x: nat, y: nat, value: Pixel)
    requires before.Valid() && x < before.w && y < before.h
    ensures At(x, y, before.w) < |before.pixels|
    ensures Changed(before, x, y, value, before.(pixels := before.pixels[At(x, y, before.w) := value]))
  {
    AtInside(x, y, before.w, before.h);
    var after := before.(pixels := before.pixels[At(x, y, before.w) := value]);
    forall u: nat, v: nat | u < before.w && v < before.h
      ensures after.Get(u, v) == if u == x && v == y then value else before.Get(u, v)
    {
      AtInside(u, v, before.w, before.h);
      if At(u, v, before.w) == At(x, y, before.w) {
        AtInjective(u, v, x, y, before.w);
      }
    }
  }

  /** The picture p stands at (x0, y0) of the canvas, and what is below it or beside it is as before. */
  ghost predicate IsDrawn(before: Picture, p: Picture, x0: nat, y0: nat, after: Picture)
    requires before.Valid() && p.Valid() && after.Valid()
  {
    && after == before.(pixels := after.pixels)
    && forall u: nat, v: nat :: u < before.w && v < before.h ==>
         after.Get(u, v) == if x0 <= u < x0 + p.w && y0 <= v < y0 + p.h then p.Get(u - x0, v - y0)
                            else before.Get(u, v)
  }

  class LScreen {
    var X: int
    var Y: int
    var W: int
    var H: int
    var EmptyColor: Pixel
    var HasMask: bool
    var Buffer: array<Pixel>

    ghost predicate Valid()
      reads this, Buffer
    {
      W >= 0 && H >= 0 && Buffer.Length == W * H
    }

    ghost function Shot(): (p: Picture)
      requires Valid()
      reads this, Buffer
      ensures p.Valid()
    {
      Picture(W, H, Buffer[..], HasMask, EmptyColor)
    }

    constructor (x: int, y: int, w: int, h: int)
      requires w >= 0 && h >= 0
      ensures Valid() && fresh(Buffer)
      ensures X == x && Y == y && W == w && H == h && !HasMask && EmptyColor == NO_PIXEL
      ensures forall i :: 0 <= i < Buffer.Length ==> Buffer[i] == 0
    {
      X, Y, W, H := x, y, w, h;
      EmptyColor, HasMask := NO_PIXEL, false;
      Buffer := new Pixel[w * h](_ => 0);
    }

    /** Only the linear index is checked: a column past the right edge is read from the next row. */
    function GetBuffer(x: int, y: int): (r: Pixel)
      requires Valid() && 0 <= y * W + x
      reads this, Buffer
    {
      if y * W + x < W * H then Buffer[y * W + x] else NO_PIXEL
    }

    method SetBuffer(x: int, y: int, value: Pixel)
      requires Valid() && 0 <= y * W + x
      modifies Buffer
      ensures Buffer[..] == if y * W + x < W * H then old(Buffer[..])[y * W + x := value] else old(Buffer[..])
    {
      if y * W + x < W * H {
        Buffer[y * W + x] := value;
      }
    }

    method SetCell(x: nat, y: nat, value: Pixel)
      requires Valid() && x < W && y < H
      modifies Buffer
      ensures Changed(old(Shot()), x, y, value, Shot())
    {
      UpdateChanges(Shot(), x, y, value);
      SetBuffer(x, y, value);
    }

    lemma GetBufferIsGet(x: nat, y: nat)
      requires Valid() && x < W && y < H
      ensures 0 <= y * W + x && GetBuffer(x, y) == Shot().Get(x, y)
    {
      AtInside(x, y, W, H);
    }

    /** The copy of one source cell. */
    method CopyCell(result: LScreen, Ratio: nat, i: nat, j: nat)
      requires Valid() && result.Valid() && result.Buffer != Buffer && i < H && j < W
      requires result.W == Target(W, Ratio) && result.H == Target(H, Ratio)
      modifies result.Buffer
      ensures result.Buffer[..] == Written(Shot(), Ratio, old(result.Buffer[..]), i, j)
    {
      GetBufferIsGet(j, i);
      Linear(Target(j, Ratio), Target(i, Ratio), result.W);
      if GetBuffer(j, i) != EmptyColor || !HasMask {
        result.SetBuffer((j * Ratio + 100 - 1) / 100, (i * Ratio + 100 - 1) / 100, GetBuffer(j, i));
      }
    }

    /** A masked picture starts from its own footprint in EmptyColor. */
    method Clear(result: LScreen, Ratio: nat)
      requires Valid() && result.Valid()
      requires result.W == Target(W, Ratio) && result.H == Target(H, Ratio)
      modifies result.Buffer
      ensures result.Valid()
    {
      for i := 0 to H
      {
        for j := 0 to W
        {
          if result.HasMask {
            Linear(Target(j, Ratio), Target(i, Ratio), result.W);
            result.SetBuffer((j * Ratio + 100 - 1) / 100, (i * Ratio + 100 - 1) / 100, EmptyColor);
          }
        }
      }
    }

    method CopyRow(result: LScreen, Ratio: nat, i: nat)
      requires Valid() && result.Valid() && result.Buffer != Buffer && i < H
      requires result.W == Target(W, Ratio) && result.H == Target(H, Ratio)
      requires 1 <= Ratio <= 100 ==> ScaledUpTo(Shot(), Ratio, result.Buffer[..], i, 0)
      modifies result.Buffer
      ensures Shot() == old(Shot())
      ensures 1 <= Ratio <= 100 ==> ScaledUpTo(Shot(), Ratio, result.Buffer[..], i + 1, 0)
    {
      ghost var src := Shot();
      for j := 0 to W
        invariant Shot() == src
        invariant 1 <= Ratio <= 100 ==> ScaledUpTo(src, Ratio, result.Buffer[..], i, j)
      {
        if 1 <= Ratio <= 100 {
          WriteStep(src, Ratio, result.Buffer[..], i, j);
        }
        CopyCell(result, Ratio, i, j);
      }
      if 1 <= Ratio <= 100 {
        NextRow(src, Ratio, result.Buffer[..], i);
      }
    }

    method Scale(Ratio: nat) returns (result: LScreen)
      requires Valid()
      ensures fresh(result) && fresh(result.Buffer) && result.Valid()
      ensures result.X == X && result.Y == Y && result.HasMask == HasMask && result.EmptyColor == EmptyColor
      ensures result.W == Target(W, Ratio) && result.H == Target(H, Ratio)
      ensures 1 <= Ratio <= 100 ==> IsScaled(Shot(), Ratio, result.Buffer[..])
    {
      result := new LScreen(X, Y, (W * Ratio + 100 - 1) / 100, (H * Ratio + 100 - 1) / 100);
      result.HasMask := HasMask;
      result.EmptyColor := EmptyColor;
      Clear(result, Ratio);
      ghost var src := Shot();
      for i := 0 to H
        modifies result.Buffer
        invariant Shot() == src
        invariant 1 <= Ratio <= 100 ==> ScaledUpTo(src, Ratio, result.Buffer[..], i, 0)
      {
        CopyRow(result, Ratio, i);
      }
      if 1 <= Ratio <= 100 {
        AllPast(src, Ratio, result.Buffer[..]);
      }
    }

    /** Draw at a place where every row fits; what is below the last row is dropped. */
    method Draw(screen: LScreen, x: nat, y: nat)
      requires Valid() && screen.Valid() && screen.Buffer != Buffer && x + screen.W <= W
      modifies Buffer
      ensures Valid() && IsDrawn(old(Shot()), screen.Shot(), x, y, Shot())
    {
      ghost var before, p := Shot(), screen.Shot();
      for i := 0 to screen.H
        invariant Valid() && screen.Shot() == p && Shot() == before.(pixels := Buffer[..])
        invariant forall u: nat, v: nat :: u < W && v < H ==>
          Shot().Get(u, v) == if x <= u < x + p.w && y <= v < y + i then p.Get(u - x, v - y) else before.Get(u, v)
      {
        for j := 0 to screen.W
          invariant Valid() && screen.Shot() == p && Shot() == before.(pixels := Buffer[..])
          invariant forall u: nat, v: nat :: u < W && v < H ==>
            Shot().Get(u, v) ==
              if (x <= u < x + p.w && y <= v < y + i) || (v == y + i && x <= u < x + j) then p.Get(u - x, v - y)
              else before.Get(u, v)
        {
          screen.GetBufferIsGet(j, i);
          Linear(x + j, y + i, W);
          if y + i < H {
            UpdateChanges(Shot(), x + j, y + i, p.Get(j, i));
          } else {
            Below(x + j, y + i, W, H);
          }
          SetBuffer(x + j, y + i, screen.GetBuffer(j, i));
        }
      }
    }
  }
}
