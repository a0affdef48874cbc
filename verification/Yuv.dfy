/**
 Image layouts of ExtLibs/libjpeg/jpeg_yuv.c: cropping of NV21 (lines 50-84, with the pixel addressing of
 417-428) and 4:2:2 to 4:2:0 in place (246-273).
 */
module Yuv {
  import opened Machine

  // ----- rows

  /** n rows of w bytes, `stride` bytes apart from p on, lie within a buffer of the given length. */
  predicate RowsFit(length: nat, p: nat, stride: nat, w: nat, n: nat)
    decreases n
  {
    n > 0 ==> p + w <= length && RowsFit(length, p + stride, stride, w, n - 1)
  }

  /** Those rows, one after the other. */
  function Rows(s: seq<Byte>, p: nat, stride: nat, w: nat, n: nat): seq<Byte>
    requires RowsFit(|s|, p, stride, w, n)
    decreases n
  {
    if n == 0 then [] else s[p..p + w] + Rows(s, p + stride, stride, w, n - 1)
  }

  /** The product n * w, as row pointers accumulate it. */
  function Mul(n: nat, w: nat): nat {
    if n == 0 then 0 else Mul(n - 1, w) + w
  }

  lemma {:induction false} MulIs(n: nat, w: nat)
    ensures Mul(n, w) == n * w
  {
    if n > 0 {
      MulIs(n - 1, w);
      assert n * w == (n - 1) * w + w;
    }
  }

  lemma {:induction false} MulAdd(a: nat, b: nat, c: nat)
    ensures Mul(a + b, c) == Mul(a, c) + Mul(b, c)
  {
    if b > 0 {
      MulAdd(a, b - 1, c);
    }
  }

  lemma MulMono(a: nat, b: nat, c: nat)
    requires a <= b
    ensures Mul(a, c) <= Mul(b, c)
  {
    MulAdd(a, b - a, c);
  }

  lemma {:induction false} MulTwice(a: nat, r: nat)
    ensures Mul(a, 2 * r) == 2 * Mul(a, r)
  {
    if a > 0 {
      MulTwice(a - 1, r);
    }
  }

  /** Rows fit when the last one does. */
  lemma {:induction false} LastFits(length: nat, p: nat, stride: nat, w: nat, n: nat)
    requires n > 0 ==> p + Mul(n - 1, stride) + w <= length
    ensures RowsFit(length, p, stride, w, n)
    decreases n
  {
    if n > 1 {
      LastFits(length, p + stride, stride, w, n - 1);
    }
  }

  lemma {:induction false} RowsLength(s: seq<Byte>, p: nat, stride: nat, w: nat, n: nat)
    requires RowsFit(|s|, p, stride, w, n)
    ensures |Rows(s, p, stride, w, n)| == Mul(n, w)
    decreases n
  {
    if n > 0 {
      RowsLength(s, p + stride, stride, w, n - 1);
    }
  }

  /** Byte c of row i. */
  lemma {:induction false} RowsAt(s: seq<Byte>, p: nat, stride: nat, w: nat, n: nat, i: nat, c: nat, k: nat, a: nat)
    requires RowsFit(|s|, p, stride, w, n) && i < n && c < w
    requires k == Mul(i, w) + c && a == p + Mul(i, stride) + c
    ensures k < |Rows(s, p, stride, w, n)| && a < |s| && Rows(s, p, stride, w, n)[k] == s[a]
    decreases n
  {
    if i > 0 {
      RowsAt(s, p + stride, stride, w, n - 1, i - 1, c, k - w, a);
    }
  }

  /** Rows that lie in a part two buffers share are the same. */
  lemma {:induction false} RowsShared(s: seq<Byte>, s': seq<Byte>, from: nat, p: nat, stride: nat, w: nat, n: nat)
    requires |s| == |s'| && from <= p && from <= |s| && s[from..] == s'[from..] && RowsFit(|s|, p, stride, w, n)
    ensures Rows(s, p, stride, w, n) == Rows(s', p, stride, w, n)
    decreases n
  {
    if n > 0 {
      RowsShared(s, s', from, p + stride, stride, w, n - 1);
      SliceShared(s, s', from, p, p + w);
    }
  }

  lemma SliceShared(s: seq<Byte>, s': seq<Byte>, from: nat, a: nat, b: nat)
    requires |s| == |s'| && from <= a <= b <= |s| && s[from..] == s'[from..]
    ensures s[a..b] == s'[a..b]
  {
    forall i | a <= i < b
      ensures s[i] == s'[i]
    {
      assert s[from..][i - from] == s'[from..][i - from];
    }
  }

  // ----- writing rows

  /** A buffer after some rows have been written from `to` on. */
  ghost predicate Written(now: seq<Byte>, was: seq<Byte>, to: nat, rows: seq<Byte>) {
    to + |rows| <= |was| && now == was[..to] + rows + was[to + |rows|..]
  }

  lemma WrittenStep(now: seq<Byte>, was: seq<Byte>, to: nat, rows: seq<Byte>, row: seq<Byte>, now': seq<Byte>, at: nat)
    requires Written(now, was, to, rows) && at == to + |rows| && at + |row| <= |was|
    requires now' == now[..at] + row + now[at + |row|..]
    ensures Written(now', was, to, rows + row)
  {
    assert now[..at] == was[..to] + rows;
    assert now[at + |row|..] == was[at + |row|..];
  }

  lemma Untouched(now: seq<Byte>, was: seq<Byte>, to: nat, rows: seq<Byte>, a: nat, b: nat)
    requires Written(now, was, to, rows) && to + |rows| <= a <= b <= |was|
    ensures |now| == |was| && now[a..b] == was[a..b]
  {
  }

  /** done has been written at `to`, and what is still to come is in `rest`. */
  ghost predicate Writing(now: seq<Byte>, was: seq<Byte>, to: nat, done: seq<Byte>, rest: seq<Byte>, all: seq<Byte>) {
    to + |all| <= |was| && done + rest == all && Written(now, was, to, done)
  }

  /** The next row leaves `rest` and is written. */
  lemma WritingStep(now: seq<Byte>, was: seq<Byte>, to: nat, done: seq<Byte>, rest: seq<Byte>, all: seq<Byte>,
                    row: seq<Byte>, rest': seq<Byte>, now': seq<Byte>, at: nat)
    requires Writing(now, was, to, done, rest, all) && rest == row + rest' && at == to + |done|
    requires at + |row| <= |now| && now' == now[..at] + row + now[at + |row|..]
    ensures Writing(now', was, to, done + row, rest', all)
  {
    WrittenStep(now, was, to, done, row, now', at);
    assert done + (row + rest') == (done + row) + rest';
  }

  lemma WritingStart(was: seq<Byte>, to: nat, all: seq<Byte>)
    requires to + |all| <= |was|
    ensures Writing(was, was, to, [], all, all)
  {
    assert was == was[..to] + [] + was[to..];
  }

  lemma WritingEnd(now: seq<Byte>, was: seq<Byte>, to: nat, done: seq<Byte>, all: seq<Byte>)
    requires Writing(now, was, to, done, [], all)
    ensures Written(now, was, to, all) && done == all
  {
    assert done + [] == done;
  }

  /** memcpy from another buffer. */
  method Copy(dst: array<Byte>, at: nat, row: seq<Byte>)
    requires at + |row| <= dst.Length
    modifies dst
    ensures dst[..] == old(dst[..at]) + row + old(dst[at + |row|..])
  {
    var i := 0;
    while i < |row|
      invariant i <= |row| && dst[..at + i] == old(dst[..at]) + row[..i] && dst[at + i..] == old(dst[at + i..])
    {
      dst[at + i] := row[i];
      i := i + 1;
    }
    assert row[..i] == row;
  }

  /** jpeg_yuv.c:68-70 and 79-81. */
  method CopyRow(src: seq<Byte>, sp: nat, w: nat, dst: array<Byte>, dp: nat, ghost was: seq<Byte>, ghost to: nat,
                 ghost done: seq<Byte>, ghost rest: seq<Byte>, ghost all: seq<Byte>, ghost rest': seq<Byte>)
    requires sp + w <= |src| && Writing(dst[..], was, to, done, rest, all)
    requires rest == src[sp..sp + w] + rest' && dp == to + |done|
    modifies dst
    ensures Writing(dst[..], was, to, done + src[sp..sp + w], rest', all)
  {
    ghost var now := dst[..];
    assert |now| == |was| && |done| + |rest| == |all|;
    Copy(dst, dp, src[sp..sp + w]);
    WritingStep(now, was, to, done, rest, all, src[sp..sp + w], rest', dst[..], dp);
  }

  /** One turn of the copying loop, with n rows still to copy. */
  method CopyNext(src: seq<Byte>, sp: nat, stride: nat, w: nat, n: nat, dst: array<Byte>, dp: nat, ghost was: seq<Byte>,
                  ghost to: nat, ghost done: seq<Byte>, ghost rest: seq<Byte>, ghost all: seq<Byte>)
    returns (ghost done': seq<Byte>, ghost rest': seq<Byte>)
    requires n > 0 && RowsFit(|src|, sp, stride, w, n) && rest == Rows(src, sp, stride, w, n)
    requires dp == to + |done| && Writing(dst[..], was, to, done, rest, all)
    modifies dst
    ensures RowsFit(|src|, sp + stride, stride, w, n - 1) && rest' == Rows(src, sp + stride, stride, w, n - 1)
    ensures dp + w == to + |done'| && Writing(dst[..], was, to, done', rest', all)
  {
    done', rest' := done + src[sp..sp + w], Rows(src, sp + stride, stride, w, n - 1);
    CopyRow(src, sp, w, dst, dp, was, to, done, rest, all, rest');
  }

  /** The copying loop of jpeg_yuv.c:66-71 and 77-82. */
  method CopyRows(src: seq<Byte>, base: nat, stride: nat, dst: array<Byte>, to: nat, w: nat, n: nat, ghost all: seq<Byte>)
    returns (end: nat)
    requires RowsFit(|src|, base, stride, w, n) && all == Rows(src, base, stride, w, n) && to + |all| <= dst.Length
    modifies dst
    ensures end == to + |all| && Written(dst[..], old(dst[..]), to, all)
  {
    ghost var was, done, rest := dst[..], [], all;
    WritingStart(was, to, all);
    var i: nat, sp: nat, dp: nat := 0, base, to;
    while i < n
      invariant i <= n && RowsFit(|src|, sp, stride, w, n - i) && rest == Rows(src, sp, stride, w, n - i)
      invariant dp == to + |done| && Writing(dst[..], was, to, done, rest, all)
    {
      done, rest := CopyNext(src, sp, stride, w, n - i, dst, dp, was, to, done, rest, all);
      sp, dp, i := sp + stride, dp + w, i + 1;
    }
    WritingEnd(dst[..], was, to, done, all);
    end := dp;
  }

  // ----- crop

  /** An even number not below n: jpeg_yuv.c:59-60. */
  function RoundUp(n: nat): (r: nat)
    ensures r % 2 == 0 && n <= r <= n + 1
  {
    (n + 1) / 2 * 2
  }

  /**
   A crop of w by h pixels at (left, 2 * top2) from an NV21 image of width by height: the luma plane, then for
   every two rows of luma one row of alternating V and U.
   */
  datatype Crop = Crop(width: nat, height: nat, left: nat, top2: nat, w: nat, h: nat)

  predicate CropFits(s: seq<Byte>, c: Crop) {
    && |s| == Mul(c.height, c.width) + Mul((c.height + 1) / 2, c.width)
    && c.left % 2 == 0 && c.left + c.w <= c.width && 2 * c.top2 + c.h <= c.height
  }

  /** The addressing of jpeg_yuv.c:421-427. */
  function LumaIndex(width: nat, x: nat, y: nat): nat {
    x + Mul(y, width)
  }

  function ChromaIndex(width: nat, height: nat, x: nat, y: nat, u: bool): nat {
    Mul(height, width) + (Mul(y / 2, width) + x / 2 * 2 + if u then 1 else 0)
  }

  function LumaBase(c: Crop): nat {
    Mul(2 * c.top2, c.width) + c.left
  }

  function ChromaBase(c: Crop): nat {
    Mul(c.height, c.width) + (Mul(c.top2, c.width) + c.left)
  }

  /** Rows from `first` on of a plane of `rows` rows, which starts at `at`. */
  lemma RowsInside(length: nat, at: nat, first: nat, n: nat, rows: nat, width: nat, left: nat, w: nat, base: nat)
    requires first + n <= rows && left + w <= width && at + Mul(rows, width) <= length && base == at + (Mul(first, width) + left)
    ensures RowsFit(length, base, width, w, n)
  {
    if n > 0 {
      MulAdd(first, n - 1, width);
      MulMono(first + n, rows, width);
      assert Mul(first + n, width) == Mul(first + (n - 1), width) + width;
    }
    LastFits(length, base, width, w, n);
  }

  lemma CropInside(s: seq<Byte>, c: Crop)
    requires CropFits(s, c)
    ensures RowsFit(|s|, LumaBase(c), c.width, c.w, c.h) && RowsFit(|s|, ChromaBase(c), c.width, c.w, c.h / 2)
  {
    RowsInside(|s|, 0, 2 * c.top2, c.h, c.height, c.width, c.left, c.w, LumaBase(c));
    RowsInside(|s|, Mul(c.height, c.width), c.top2, c.h / 2, (c.height + 1) / 2, c.width, c.left, c.w, ChromaBase(c));
  }

  function CroppedLuma(s: seq<Byte>, c: Crop): seq<Byte>
    requires CropFits(s, c)
  {
    CropInside(s, c);
    Rows(s, LumaBase(c), c.width, c.w, c.h)
  }

  function CroppedChroma(s: seq<Byte>, c: Crop): seq<Byte>
    requires CropFits(s, c)
  {
    CropInside(s, c);
    Rows(s, ChromaBase(c), c.width, c.w, c.h / 2)
  }

  /** What the crop leaves in the destination. */
  function Cropped(s: seq<Byte>, c: Crop): seq<Byte>
    requires CropFits(s, c)
  {
    CroppedLuma(s, c) + CroppedChroma(s, c)
  }

  /** Entry k of the crop is entry a of the source. */
  predicate Shows(s: seq<Byte>, c: Crop, k: nat, a: nat)
    requires CropFits(s, c)
  {
    k < |Cropped(s, c)| && a < |s| && Cropped(s, c)[k] == s[a]
  }

  /** Pixel (x, y) of the crop has the luma of the source at the shifted place. */
  predicate LumaRight(s: seq<Byte>, c: Crop, x: nat, y: nat)
    requires CropFits(s, c)
  {
    Shows(s, c, LumaIndex(c.w, x, y), LumaIndex(c.width, c.left + x, 2 * c.top2 + y))
  }

  /** And its V or U. */
  predicate ChromaRight(s: seq<Byte>, c: Crop, x: nat, y: nat, u: bool)
    requires CropFits(s, c)
  {
    Shows(s, c, ChromaIndex(c.w, c.h, x, y, u), ChromaIndex(c.width, c.height, c.left + x, 2 * c.top2 + y, u))
  }

  /** Luma of the crop is luma of the source at the shifted place, for all sizes. */
  lemma CropLuma(s: seq<Byte>, c: Crop, x: nat, y: nat)
    requires CropFits(s, c) && x < c.w && y < c.h
    ensures LumaRight(s, c, x, y)
  {
    CropInside(s, c);
    MulAdd(2 * c.top2, y, c.width);
    RowsAt(s, LumaBase(c), c.width, c.w, c.h, y, x, LumaIndex(c.w, x, y), LumaIndex(c.width, c.left + x, 2 * c.top2 + y));
  }

  lemma InSecond(a: seq<Byte>, b: seq<Byte>, j: nat, k: nat)
    requires j < |b| && k == |a| + j
    ensures k < |a + b| && (a + b)[k] == b[j]
  {
  }

  /** Byte b of chroma row i of the crop. */
  lemma ChromaByte(s: seq<Byte>, c: Crop, i: nat, b: nat, j: nat, a: nat)
    requires CropFits(s, c) && i < c.h / 2 && b < c.w && j == Mul(i, c.w) + b && a == ChromaBase(c) + Mul(i, c.width) + b
    ensures j < |CroppedChroma(s, c)| && a < |s| && CroppedChroma(s, c)[j] == s[a]
  {
    CropInside(s, c);
    RowsAt(s, ChromaBase(c), c.width, c.w, c.h / 2, i, b, j, a);
  }

  lemma CropSize(s: seq<Byte>, c: Crop)
    requires CropFits(s, c)
    ensures |CroppedLuma(s, c)| == Mul(c.h, c.w) && |CroppedChroma(s, c)| == Mul(c.h / 2, c.w)
  {
    CropInside(s, c);
    RowsLength(s, LumaBase(c), c.width, c.w, c.h);
    RowsLength(s, ChromaBase(c), c.width, c.w, c.h / 2);
  }

  lemma ChromaPlace(c: Crop, x: nat, y: nat, u: bool, b: nat)
    requires c.left % 2 == 0 && b == x / 2 * 2 + if u then 1 else 0
    ensures ChromaIndex(c.width, c.height, c.left + x, 2 * c.top2 + y, u) == ChromaBase(c) + Mul(y / 2, c.width) + b
  {
    MulAdd(c.top2, y / 2, c.width);
    assert (2 * c.top2 + y) / 2 == c.top2 + y / 2;
    assert (c.left + x) / 2 * 2 == c.left + x / 2 * 2;
  }

  /** Both chroma values of the crop are those of the source at the shifted place, for even clip sizes. */
  lemma CropChroma(s: seq<Byte>, c: Crop, x: nat, y: nat, u: bool)
    requires CropFits(s, c) && c.w % 2 == 0 && c.h % 2 == 0 && x < c.w && y < c.h
    ensures ChromaRight(s, c, x, y, u)
  {
    var (i, b) := (y / 2, x / 2 * 2 + if u then 1 else 0);
    ChromaPlace(c, x, y, u, b);
    ChromaEntry(s, c, i, b, ChromaIndex(c.w, c.h, x, y, u), ChromaBase(c) + Mul(i, c.width) + b);
  }

  lemma ChromaEntry(s: seq<Byte>, c: Crop, i: nat, b: nat, k: nat, a: nat)
    requires CropFits(s, c) && i < c.h / 2 && b < c.w
    requires k == Mul(c.h, c.w) + (Mul(i, c.w) + b) && a == ChromaBase(c) + Mul(i, c.width) + b
    ensures Shows(s, c, k, a)
  {
    var j := Mul(i, c.w) + b;
    ChromaByte(s, c, i, b, j, a);
    CropSize(s, c);
    InSecond(CroppedLuma(s, c), CroppedChroma(s, c), j, k);
  }

  /** With an odd clip size the last chroma value the converter asks for lies beyond what is copied. */
  lemma OddSizeMisses(s: seq<Byte>, c: Crop)
    requires CropFits(s, c) && c.w > 0 && c.h > 0 && (c.w % 2 == 1 || c.h % 2 == 1)
    ensures !ChromaRight(s, c, c.w - 1, c.h - 1, true)
  {
    CropSize(s, c);
    var k := ChromaIndex(c.w, c.h, c.w - 1, c.h - 1, true);
    if c.h % 2 == 1 {
      assert (c.h - 1) / 2 == c.h / 2;
      assert k >= |Cropped(s, c)|;
    } else {
      assert (c.h - 1) / 2 == c.h / 2 - 1;
      assert (c.w - 1) / 2 * 2 == c.w - 1;
      assert k >= |Cropped(s, c)|;
    }
  }

  predicate PixelRight(s: seq<Byte>, c: Crop, x: nat, y: nat, u: bool)
    requires CropFits(s, c)
  {
    LumaRight(s, c, x, y) && ChromaRight(s, c, x, y, u)
  }

  /** The crop is a right NV21 image if and only if its width and height are even. */
  lemma CropRightIff(s: seq<Byte>, c: Crop)
    requires CropFits(s, c) && c.w > 0 && c.h > 0
    ensures (forall x: nat, y: nat, u: bool :: x < c.w && y < c.h ==> PixelRight(s, c, x, y, u)) <==>
            c.w % 2 == 0 && c.h % 2 == 0
  {
    if c.w % 2 == 0 && c.h % 2 == 0 {
      forall x: nat, y: nat, u: bool | x < c.w && y < c.h
        ensures PixelRight(s, c, x, y, u)
      {
        CropLuma(s, c, x, y);
        CropChroma(s, c, x, y, u);
      }
    } else {
      OddSizeMisses(s, c);
      assert !PixelRight(s, c, c.w - 1, c.h - 1, true);
    }
  }

  /** One pixel wide: of a 2 by 2 image the left column loses its U. */
  lemma OddClip(s: seq<Byte>)
    requires |s| == 6
    ensures CropFits(s, Crop(2, 2, 0, 0, 1, 2)) && !ChromaRight(s, Crop(2, 2, 0, 0, 1, 2), 0, 1, true)
  {
    assert Mul(2, 2) == 4 && Mul(1, 2) == 2;
    OddSizeMisses(s, Crop(2, 2, 0, 0, 1, 2));
  }

  lemma Assembled(was: seq<Byte>, now: seq<Byte>, end: seq<Byte>, y: seq<Byte>, c: seq<Byte>)
    requires Written(now, was, 0, y) && Written(end, now, |y|, c)
    ensures |y + c| <= |end| && end[..|y + c|] == y + c && end[|y + c|..] == was[|y + c|..]
  {
  }

  /** The two start offsets, as the program computes them. */
  lemma Bases(c: Crop, clipTop: nat)
    requires clipTop == 2 * c.top2
    ensures clipTop * c.width + c.left == LumaBase(c)
    ensures c.width * c.height + (clipTop * c.width / 2 + c.left) == ChromaBase(c)
  {
    MulIs(clipTop, c.width);
    MulIs(c.height, c.width);
    MulAdd(c.top2, c.top2, c.width);
    assert c.width * c.height == c.height * c.width;
  }

  /** jpeg_yuv.c:50-84, for a rounded rectangle inside the image. */
  method ClipNv21ToNv21(src: seq<Byte>, dst: array<Byte>, nClipLeft: nat, nClipTop: nat, c: Crop)
    requires CropFits(src, c)
    requires RoundUp(nClipLeft) == c.left && RoundUp(nClipTop) == 2 * c.top2
    requires dst.Length >= |Cropped(src, c)|
    modifies dst
    ensures dst[..|Cropped(src, c)|] == Cropped(src, c)
    ensures dst[|Cropped(src, c)|..] == old(dst[|Cropped(src, c)|..])
  {
    var (clipLeft, clipTop) := (RoundUp(nClipLeft), RoundUp(nClipTop));
    Bases(c, clipTop);
    ClipAt(src, clipTop * c.width + clipLeft, c.width * c.height + (clipTop * c.width / 2 + clipLeft), dst, c);
  }

  method ClipAt(src: seq<Byte>, luma: nat, chroma: nat, dst: array<Byte>, c: Crop)
    requires CropFits(src, c) && luma == LumaBase(c) && chroma == ChromaBase(c) && dst.Length >= |Cropped(src, c)|
    modifies dst
    ensures dst[..|Cropped(src, c)|] == Cropped(src, c)
    ensures dst[|Cropped(src, c)|..] == old(dst[|Cropped(src, c)|..])
  {
    CropInside(src, c);
    CopyPlanes(src, luma, chroma, c.width, dst, c.w, c.h, CroppedLuma(src, c), CroppedChroma(src, c));
  }

  method CopyPlanes(src: seq<Byte>, luma: nat, chroma: nat, width: nat, dst: array<Byte>, w: nat, h: nat,
                    ghost y: seq<Byte>, ghost c: seq<Byte>)
    requires RowsFit(|src|, luma, width, w, h) && RowsFit(|src|, chroma, width, w, h / 2)
    requires y == Rows(src, luma, width, w, h) && c == Rows(src, chroma, width, w, h / 2) && |y + c| <= dst.Length
    modifies dst
    ensures dst[..|y + c|] == y + c && dst[|y + c|..] == old(dst[|y + c|..])
  {
    ghost var was := dst[..];
    var end := CopyRows(src, luma, width, dst, 0, w, h, y);
    ghost var now := dst[..];
    end := CopyRows(src, chroma, width, dst, end, w, h / 2, c);
    Assembled(was, now, dst[..], y, c);
  }

  // ----- 4:2:2 to 4:2:0 in place

  /** A buffer after some bytes have been put at `to`. */
  function Overlay(s: seq<Byte>, to: nat, rows: seq<Byte>): (r: seq<Byte>)
    requires to + |rows| <= |s|
    ensures |r| == |s|
  {
    s[..to] + rows + s[to + |rows|..]
  }

  /** The chroma planes of a 4:2:2 buffer of `size` pixels, without their odd rows; r is the length of a row. */
  predicate PlanesFit(s: seq<Byte>, size: nat, r: nat, n: nat) {
    && |s| == 2 * size && RowsFit(|s|, size, 2 * r, r, n) && RowsFit(|s|, size + size / 2, 2 * r, r, n)
    && Mul(n, r) <= size / 2 && (n > 0 ==> size / 4 + r <= size / 2)
  }

  function EvenRows(s: seq<Byte>, base: nat, r: nat, n: nat): (e: seq<Byte>)
    requires RowsFit(|s|, base, 2 * r, r, n)
    ensures |e| == Mul(n, r)
  {
    RowsLength(s, base, 2 * r, r, n);
    Rows(s, base, 2 * r, r, n)
  }

  /** Both planes written one after the other, as the program places them: U at size, V a quarter of size later. */
  function Converted(s: seq<Byte>, size: nat, r: nat, n: nat): seq<Byte>
    requires PlanesFit(s, size, r, n)
  {
    Overlay(Overlay(s, size, EvenRows(s, size, r, n)), size + size / 4, EvenRows(s, size + size / 2, r, n))
  }

  /** No memcpy overlaps: a single row must be less than four pixels wide. */
  predicate Apart(width: nat, height: nat) {
    height == 1 ==> width < 4
  }

  /** Where the planes lie. */
  lemma PlanesInside(s: seq<Byte>, width: nat, height: nat, size: nat, r: nat, n: nat)
    requires size == Mul(height, width) && r == width / 2 && n == (height + 1) / 2 && Apart(width, height) && |s| == 2 * size
    ensures PlanesFit(s, size, r, n)
    ensures n > 0 ==> RowsFit(size + size / 2, size, 2 * r, r, n)
  {
    if n > 0 {
      MulTwice(n - 1, r);
      MulPair(n - 1, r, height, width);
      HalfRows(n, r, height, width);
      LastFits(size + size / 2, size, 2 * r, r, n);
    }
    LastFits(|s|, size, 2 * r, r, n);
    LastFits(|s|, size + size / 2, 2 * r, r, n);
  }

  /** The last even row and the first half of the one after it are inside. */
  lemma MulPair(k: nat, r: nat, height: nat, width: nat)
    requires r == width / 2 && 2 * k + 1 <= height
    ensures 2 * Mul(k, r) + r <= Mul(height, width) / 2
  {
    MulMono(2 * k + 1, height, width);
    MulWide(2 * k + 1, 2 * r, width);
    MulOdd(k, r);
  }

  lemma MulOdd(k: nat, r: nat)
    ensures Mul(2 * k + 1, 2 * r) == 4 * Mul(k, r) + 2 * r
  {
    MulTwice(2 * k + 1, r);
    MulAdd(k, k, r);
    assert Mul(k + k + 1, r) == Mul(k + k, r) + r;
  }

  lemma {:induction false} MulWide(n: nat, a: nat, b: nat)
    requires a <= b
    ensures Mul(n, a) <= Mul(n, b)
  {
    if n > 0 {
      MulWide(n - 1, a, b);
    }
  }

  lemma TwoRows(height: nat, width: nat)
    requires height >= 2
    ensures Mul(height, width) >= 2 * width
  {
    MulMono(2, height, width);
    assert Mul(1, width) == width && Mul(2, width) == Mul(1, width) + width;
  }

  lemma HalfRows(n: nat, r: nat, height: nat, width: nat)
    requires r == width / 2 && n == (height + 1) / 2 > 0 && Apart(width, height)
    ensures Mul(n, r) <= Mul(height, width) / 2
    ensures Mul(height, width) / 4 + r <= Mul(height, width) / 2
  {
    MulWide(n, 2 * r, width);
    MulTwice(n, r);
    MulMono(n, height, width);
    if height >= 2 {
      TwoRows(height, width);
    } else {
      assert Mul(1, width) == width;
    }
  }

  /** memcpy within the buffer, down by at least its own length. */
  method MoveRow(buf: array<Byte>, to: nat, from: nat, w: nat)
    requires to + w <= from && from + w <= buf.Length
    modifies buf
    ensures Written(buf[..], old(buf[..]), to, old(buf[..])[from..from + w])
  {
    ghost var was := buf[..];
    var i := 0;
    WrittenNothing(was, to, from);
    while i < w
      invariant i <= w && Written(buf[..], was, to, was[from..from + i]) == true
    {
      MoveByte(buf, to, from, i, was);
      i := i + 1;
    }
  }

  method MoveByte(buf: array<Byte>, to: nat, from: nat, i: nat, ghost was: seq<Byte>)
    requires to + i < from && from + i < |was| && Written(buf[..], was, to, was[from..from + i])
    modifies buf
    ensures Written(buf[..], was, to, was[from..from + i + 1])
  {
    ghost var now := buf[..];
    MoveStep(now, was, to, from, i);
    buf[to + i] := buf[from + i];
    assert buf[..] == now[to + i := now[from + i]];
  }

  lemma WrittenNothing(was: seq<Byte>, to: nat, from: nat)
    requires to <= |was| && from <= |was|
    ensures Written(was, was, to, was[from..from + 0])
  {
    assert was[from..from + 0] == [];
    assert was == was[..to] + [] + was[to..];
  }

  lemma MoveStep(now: seq<Byte>, was: seq<Byte>, to: nat, from: nat, i: nat)
    requires to + i < from && from + i < |was| && Written(now, was, to, was[from..from + i])
    ensures |now| == |was| && Written(now[to + i := now[from + i]], was, to, was[from..from + i + 1])
  {
    var x := now[from + i];
    assert x == was[from + i];
    assert now[to + i := x] == now[..to + i] + [x] + now[to + i + 1..];
    WrittenStep(now, was, to, was[from..from + i], [x], now[to + i := x], to + i);
    assert was[from..from + i] + [x] == was[from..from + i + 1];
  }

  /** jpeg_yuv.c:262-263 and 269-270: a row moves down to where the rows written so far end. */
  method ThinOne(buf: array<Byte>, dp: nat, sp: nat, r: nat, ghost was: seq<Byte>, ghost to: nat, ghost done: seq<Byte>,
                 ghost rest: seq<Byte>, ghost all: seq<Byte>, ghost rest': seq<Byte>)
    requires dp + r <= sp && sp + r <= |was| && Writing(buf[..], was, to, done, rest, all)
    requires rest == was[sp..sp + r] + rest' && dp == to + |done|
    modifies buf
    ensures Writing(buf[..], was, to, done + was[sp..sp + r], rest', all)
  {
    ghost var now := buf[..];
    Untouched(now, was, to, done, sp, sp + r);
    MoveRow(buf, dp, sp, r);
    WritingStep(now, was, to, done, rest, all, was[sp..sp + r], rest', buf[..], dp);
  }

  /** jpeg_yuv.c:260-264, where the first row is in place already, and 267-271: k rows are still to be moved. */
  method ThinRows(buf: array<Byte>, dp0: nat, sp0: nat, r: nat, n: nat, ghost was: seq<Byte>, ghost to: nat,
                  ghost done0: seq<Byte>, ghost rest0: seq<Byte>, ghost all: seq<Byte>)
    requires dp0 + r <= sp0 && RowsFit(|was|, sp0, 2 * r, r, n) && rest0 == Rows(was, sp0, 2 * r, r, n)
    requires dp0 == to + |done0| && Writing(buf[..], was, to, done0, rest0, all)
    modifies buf
    ensures Written(buf[..], was, to, all)
  {
    ghost var done, rest := done0, rest0;
    var k: nat, dp: nat, sp: nat := 0, dp0, sp0;
    while k < n
      invariant k <= n && dp + r <= sp && RowsFit(|was|, sp, 2 * r, r, n - k) && rest == Rows(was, sp, 2 * r, r, n - k)
      invariant dp == to + |done| && Writing(buf[..], was, to, done, rest, all)
    {
      ghost var rest' := Rows(was, sp + 2 * r, 2 * r, r, n - k - 1);
      ThinOne(buf, dp, sp, r, was, to, done, rest, all, rest');
      done, rest := done + was[sp..sp + r], rest';
      k, dp, sp := k + 1, dp + r, sp + 2 * r;
    }
    WritingEnd(buf[..], was, to, done, all);
  }

  /** The first row of a plane that is thinned in place is where it belongs. */
  lemma FirstRowStays(s: seq<Byte>, to: nat, r: nat, n: nat, all: seq<Byte>)
    requires n > 0 && RowsFit(|s|, to, 2 * r, r, n) && all == Rows(s, to, 2 * r, r, n) && to + |all| <= |s|
    ensures Writing(s, s, to, s[to..to + r], Rows(s, to + 2 * r, 2 * r, r, n - 1), all)
  {
  }

  /** The V plane is as it was when the U plane has been thinned. */
  lemma SecondPlane(was: seq<Byte>, now: seq<Byte>, size: nat, u: seq<Byte>, r: nat, n: nat)
    requires |u| <= size / 2 && |was| == 2 * size && Written(now, was, size, u)
    requires RowsFit(|was|, size + size / 2, 2 * r, r, n)
    ensures |now| == |was| && Rows(now, size + size / 2, 2 * r, r, n) == Rows(was, size + size / 2, 2 * r, r, n)
  {
    var from := size + |u|;
    assert now[from..] == was[from..];
    RowsShared(now, was, from, size + size / 2, 2 * r, r, n);
  }

  /** jpeg_yuv.c:258-264. */
  method ThinU(buf: array<Byte>, size: nat, r: nat, n: nat, ghost was: seq<Byte>, ghost u: seq<Byte>)
    requires n > 0 && buf[..] == was && RowsFit(|was|, size, 2 * r, r, n)
    requires u == Rows(was, size, 2 * r, r, n) && size + |u| <= |was|
    modifies buf
    ensures Written(buf[..], was, size, u)
  {
    FirstRowStays(was, size, r, n, u);
    ThinRows(buf, size + r, size + 2 * r, r, n - 1, was, size, was[size..size + r],
             Rows(was, size + 2 * r, 2 * r, r, n - 1), u);
  }

  /** jpeg_yuv.c:265-271. */
  method ThinV(buf: array<Byte>, to: nat, from: nat, r: nat, n: nat, ghost now: seq<Byte>, ghost v: seq<Byte>)
    requires to + r <= from && buf[..] == now && RowsFit(|now|, from, 2 * r, r, n)
    requires v == Rows(now, from, 2 * r, r, n) && to + |v| <= |now|
    modifies buf
    ensures Written(buf[..], now, to, v)
  {
    WritingStart(now, to, v);
    ThinRows(buf, to, from, r, n, now, to, [], v, v);
  }

  method Thin(buf: array<Byte>, size: nat, r: nat, n: nat, to: nat, from: nat, ghost was: seq<Byte>, ghost u: seq<Byte>,
              ghost v: seq<Byte>)
    requires n > 0 && buf[..] == was && |was| == 2 * size && size <= to && to + r <= from == size + size / 2
    requires RowsFit(|was|, size, 2 * r, r, n) && RowsFit(|was|, from, 2 * r, r, n)
    requires u == Rows(was, size, 2 * r, r, n) && v == Rows(was, from, 2 * r, r, n)
    requires |u| == |v| <= size / 2 && to + |v| <= |was|
    modifies buf
    ensures buf[..] == Overlay(Overlay(was, size, u), to, v)
  {
    ThinU(buf, size, r, n, was, u);
    ghost var now := buf[..];
    SecondPlane(was, now, size, u, r, n);
    ThinV(buf, to, from, r, n, now, v);
  }

  /**
   jpeg_yuv.c:246-273, unless a memcpy overlaps: overwriting the buffer while reading it gives what writing the
   even rows of the old chroma planes to the same places gives.
   */
  method Yv16ToI420(buf: array<Byte>, width: nat, height: nat)
    requires Apart(width, height) && buf.Length == 2 * (width * height)
    modifies buf
    ensures PlanesFit(old(buf[..]), width * height, width / 2, (height + 1) / 2)
    ensures buf[..] == Converted(old(buf[..]), width * height, width / 2, (height + 1) / 2)
  {
    Product(height, width);
    PlanesInside(buf[..], width, height, width * height, width / 2, (height + 1) / 2);
    if height > 0 {
      ThinPlanes(buf, width * height, width / 2, (height + 1) / 2);
    } else {
      NothingToThin(buf[..], width / 2);
    }
  }

  lemma NothingToThin(s: seq<Byte>, r: nat)
    requires PlanesFit(s, 0, r, 0)
    ensures Converted(s, 0, r, 0) == s
  {
  }

  method ThinPlanes(buf: array<Byte>, size: nat, uvw: nat, n: nat)
    requires n > 0 && PlanesFit(buf[..], size, uvw, n)
    modifies buf
    ensures buf[..] == Converted(old(buf[..]), size, uvw, n)
  {
    ghost var was := buf[..];
    var (to, from) := (size + size / 4, size + size / 2);
    ghost var u, v := ChromaPlanes(was, size, uvw, n, to, from);
    Thin(buf, size, uvw, n, to, from, was, u, v);
  }

  lemma Product(height: nat, width: nat)
    ensures width * height == Mul(height, width)
  {
    MulIs(height, width);
    assert width * height == height * width;
  }

  /** The rows that are to be left. */
  lemma ChromaPlanes(s: seq<Byte>, size: nat, r: nat, n: nat, to: nat, from: nat) returns (u: seq<Byte>, v: seq<Byte>)
    requires n > 0 && PlanesFit(s, size, r, n) && to == size + size / 4 && from == size + size / 2
    ensures RowsFit(|s|, size, 2 * r, r, n) && RowsFit(|s|, from, 2 * r, r, n)
    ensures u == Rows(s, size, 2 * r, r, n) && v == Rows(s, from, 2 * r, r, n) && |u| == |v| <= size / 2
    ensures to + r <= from && to + |v| <= |s| && Converted(s, size, r, n) == Overlay(Overlay(s, size, u), to, v)
  {
    u, v := EvenRows(s, size, r, n), EvenRows(s, from, r, n);
  }

  /** The image without its odd chroma rows, made in a new buffer: luma, U and V one after the other. */
  ghost function OddRowsDropped(s: seq<Byte>, size: nat, r: nat, n: nat): seq<Byte>
    requires PlanesFit(s, size, r, n)
  {
    s[..size] + EvenRows(s, size, r, n) + EvenRows(s, size + size / 2, r, n)
  }

  /** Chroma of the image without odd rows: of pixel pair c in row y it is that of row 2y of the 4:2:2 planes. */
  lemma DroppedAddressed(s: seq<Byte>, size: nat, r: nat, n: nat, y: nat, c: nat, k: nat, a: nat)
    requires PlanesFit(s, size, r, n) && y < n && c < r && k == Mul(y, r) + c && a == Mul(2 * y, r) + c
    ensures k < Mul(n, r) && size + size / 2 + a < |s|
    ensures OddRowsDropped(s, size, r, n)[size + k] == s[size + a]
    ensures OddRowsDropped(s, size, r, n)[size + Mul(n, r) + k] == s[size + size / 2 + a]
  {
    var (u, v) := (EvenRows(s, size, r, n), EvenRows(s, size + size / 2, r, n));
    EvenRowAt(s, size, r, n, y, c, k, a, u);
    EvenRowAt(s, size + size / 2, r, n, y, c, k, a, v);
    ThreeParts(s[..size], u, v, k);
  }

  lemma EvenRowAt(s: seq<Byte>, base: nat, r: nat, n: nat, y: nat, c: nat, k: nat, a: nat, e: seq<Byte>)
    requires RowsFit(|s|, base, 2 * r, r, n) && e == EvenRows(s, base, r, n) && y < n && c < r
    requires k == Mul(y, r) + c && a == Mul(2 * y, r) + c
    ensures k < |e| == Mul(n, r) && base + a < |s| && e[k] == s[base + a]
  {
    MulTwice(y, r);
    MulAdd(y, y, r);
    RowsAt(s, base, 2 * r, r, n, y, c, k, base + a);
  }

  lemma ThreeParts(l: seq<Byte>, u: seq<Byte>, v: seq<Byte>, k: nat)
    requires k < |u| == |v|
    ensures (l + u + v)[|l| + k] == u[k] && (l + u + v)[|l| + |u| + k] == v[k]
  {
  }

  lemma OverlaysAdjacent(s: seq<Byte>, to: nat, u: seq<Byte>, v: seq<Byte>)
    requires to + |u| + |v| <= |s|
    ensures Overlay(Overlay(s, to, u), to + |u|, v) == s[..to] + u + v + s[to + |u| + |v|..]
  {
    var one := Overlay(s, to, u);
    assert one[..to + |u|] == s[..to] + u;
    assert one[to + |u| + |v|..] == s[to + |u| + |v|..];
  }

  /** If the U plane has a quarter of the pixels, the converted buffer starts with that image. */
  lemma DroppedInPlace(s: seq<Byte>, size: nat, r: nat, n: nat)
    requires PlanesFit(s, size, r, n) && Mul(n, r) == size / 4
    ensures Converted(s, size, r, n) == OddRowsDropped(s, size, r, n) + s[size + 2 * (size / 4)..]
  {
    OverlaysAdjacent(s, size, EvenRows(s, size, r, n), EvenRows(s, size + size / 2, r, n));
  }

  // ----- when the conversion is right

  /** The buffer starts with the image that dropping the odd chroma rows gives. */
  ghost predicate Right(s: seq<Byte>, size: nat, r: nat, n: nat)
    requires PlanesFit(s, size, r, n)
  {
    OddRowsDropped(s, size, r, n) <= Converted(s, size, r, n)
  }

  /** Rows of a part that is 0 everywhere. */
  lemma {:induction false} RowsZero(s: seq<Byte>, top: nat, p: nat, stride: nat, w: nat, n: nat)
    requires top <= |s| && RowsFit(top, p, stride, w, n) && forall a :: 0 <= a < top ==> s[a] == 0
    ensures RowsFit(|s|, p, stride, w, n)
    ensures forall j :: 0 <= j < |Rows(s, p, stride, w, n)| ==> Rows(s, p, stride, w, n)[j] == 0
    decreases n
  {
    if n > 0 {
      RowsZero(s, top, p + stride, stride, w, n - 1);
    }
  }

  lemma FirstByte(s: seq<Byte>, base: nat, r: nat, n: nat)
    requires RowsFit(|s|, base, 2 * r, r, n) && r > 0 && n > 0
    ensures Mul(n, r) > 0 && base < |s| && EvenRows(s, base, r, n)[0] == s[base]
  {
  }

  /** A buffer that is 0 up to the V plane and 1 at its first byte. */
  ghost predicate Marked(s: seq<Byte>, from: nat) {
    from < |s| && s[from] == 1 && forall a :: 0 <= a < from ==> s[a] == 0
  }

  lemma MarkOverwrites(s: seq<Byte>, size: nat, u: seq<Byte>, v: seq<Byte>)
    requires |s| == 2 * size && v != [] && |u| == |v| && size / 4 < |u| <= size / 2 && v[0] == 1 && u[size / 4] == 0
    requires size + size / 4 + |v| <= |s|
    ensures !(s[..size] + u + v <= Overlay(Overlay(s, size, u), size + size / 4, v))
  {
    var k := size + size / 4;
    assert (s[..size] + u + v)[k] == u[size / 4];
    assert Overlay(Overlay(s, size, u), k, v)[k] == v[0];
  }

  lemma MarkMissing(s: seq<Byte>, size: nat, u: seq<Byte>, v: seq<Byte>)
    requires |s| == 2 * size && v != [] && |u| == |v| && |u| < size / 4 && v[0] == 1 && s[size + |u|] == 0
    ensures !(s[..size] + u + v <= Overlay(Overlay(s, size, u), size + size / 4, v))
  {
    var k := size + |u|;
    assert (s[..size] + u + v)[k] == v[0];
    assert Overlay(s, size, u)[k] == s[k];
    assert Overlay(Overlay(s, size, u), size + size / 4, v)[k] == s[k];
  }

  /** The two results in terms of the planes. */
  lemma ResultsFrom(s: seq<Byte>, size: nat, r: nat, n: nat, from: nat, u: seq<Byte>, v: seq<Byte>)
    requires PlanesFit(s, size, r, n) && n > 0 && from == size + size / 2
    requires u == EvenRows(s, size, r, n) && v == EvenRows(s, from, r, n)
    ensures |u| == |v| == Mul(n, r) <= size / 2 && size + size / 4 + |v| <= |s|
    ensures OddRowsDropped(s, size, r, n) == s[..size] + u + v
    ensures Converted(s, size, r, n) == Overlay(Overlay(s, size, u), size + size / 4, v)
  {
  }

  lemma ZeroPlane(s: seq<Byte>, size: nat, r: nat, n: nat, from: nat, u: seq<Byte>)
    requires RowsFit(|s|, size, 2 * r, r, n) && u == EvenRows(s, size, r, n) && from <= |s| && RowsFit(from, size, 2 * r, r, n)
    requires forall a :: 0 <= a < from ==> s[a] == 0
    ensures forall j :: 0 <= j < |u| ==> u[j] == 0
  {
    RowsZero(s, from, size, 2 * r, r, n);
  }

  /** Both planes of such a buffer. */
  lemma MarkedPlanes(s: seq<Byte>, size: nat, r: nat, n: nat, from: nat) returns (u: seq<Byte>, v: seq<Byte>)
    requires PlanesFit(s, size, r, n) && r > 0 && n > 0 && from == size + size / 2 && RowsFit(from, size, 2 * r, r, n)
    requires Marked(s, from)
    ensures v != [] && v[0] == 1 && |u| == |v| == Mul(n, r) <= size / 2 && size + size / 4 + |v| <= |s|
    ensures forall j :: 0 <= j < |u| ==> u[j] == 0
    ensures OddRowsDropped(s, size, r, n) == s[..size] + u + v
    ensures Converted(s, size, r, n) == Overlay(Overlay(s, size, u), size + size / 4, v)
  {
    u, v := EvenRows(s, size, r, n), EvenRows(s, from, r, n);
    ResultsFrom(s, size, r, n, from, u, v);
    ZeroPlane(s, size, r, n, from, u);
    FirstByte(s, from, r, n);
  }

  /** Where V does not start right after U, such a buffer comes out wrong. */
  lemma MarkedWrong(s: seq<Byte>, size: nat, r: nat, n: nat, from: nat)
    requires PlanesFit(s, size, r, n) && r > 0 && n > 0 && from == size + size / 2 && RowsFit(from, size, 2 * r, r, n)
    requires Marked(s, from) && Mul(n, r) != size / 4
    ensures !Right(s, size, r, n)
  {
    var u, v := MarkedPlanes(s, size, r, n, from);
    if |u| > size / 4 {
      MarkOverwrites(s, size, u, v);
    } else {
      MarkMissing(s, size, u, v);
    }
  }

  ghost function Mark(length: nat, from: nat): (s: seq<Byte>)
    requires from < length
    ensures |s| == length && Marked(s, from)
  {
    seq(length, i => if i == from then 1 else 0)
  }

  lemma MarkWrong(width: nat, height: nat, size: nat, r: nat, n: nat) returns (s: seq<Byte>)
    requires size == Mul(height, width) && r == width / 2 > 0 && n == (height + 1) / 2 && Apart(width, height)
    requires Mul(n, r) != size / 4
    ensures |s| == 2 * size && PlanesFit(s, size, r, n) && !Right(s, size, r, n)
  {
    assert n > 0;
    var zeros: seq<Byte> := seq(2 * size, i => 0);
    PlanesInside(zeros, width, height, size, r, n);
    FirstByte(zeros, size + size / 2, r, n);
    s := Mark(2 * size, size + size / 2);
    PlanesInside(s, width, height, size, r, n);
    MarkedWrong(s, size, r, n, size + size / 2);
  }

  /** With rows of chroma, the conversion is right for all images of a size if and only if U makes a quarter of it. */
  lemma RightIff(width: nat, height: nat, size: nat, r: nat, n: nat)
    requires size == Mul(height, width) && r == width / 2 > 0 && n == (height + 1) / 2 && Apart(width, height)
    ensures forall s: seq<Byte> :: |s| == 2 * size ==> PlanesFit(s, size, r, n)
    ensures (forall s: seq<Byte> :: |s| == 2 * size ==> Right(s, size, r, n)) <==> Mul(n, r) == size / 4
  {
    forall s: seq<Byte> | |s| == 2 * size
      ensures PlanesFit(s, size, r, n) && (Mul(n, r) == size / 4 ==> Right(s, size, r, n))
    {
      PlanesInside(s, width, height, size, r, n);
      if Mul(n, r) == size / 4 {
        DroppedInPlace(s, size, r, n);
      }
    }
    if Mul(n, r) != size / 4 {
      var s := MarkWrong(width, height, size, r, n);
    }
  }

  lemma TwiceRows(height: nat, n: nat, r: nat)
    requires n == (height + 1) / 2
    ensures Mul(height, r) == 2 * Mul(n, r) - if height % 2 == 1 then r else 0
  {
    if height % 2 == 0 {
      MulAdd(n, n, r);
    } else {
      MulAdd(n, n - 1, r);
    }
  }

  /** Four times the bytes of U against the pixels. */
  lemma QuarterOff(width: nat, height: nat, r: nat, n: nat)
    requires r == width / 2 && n == (height + 1) / 2
    ensures Mul(height, width) == 4 * Mul(n, r) + (if width % 2 == 1 then height else 0) - if height % 2 == 1 then 2 * r else 0
  {
    TwiceRows(height, n, r);
    MulTwice(height, r);
    if width % 2 == 1 {
      MulOneMore(height, 2 * r, width);
    }
  }

  lemma {:induction false} MulOneMore(n: nat, w: nat, w1: nat)
    requires w1 == w + 1
    ensures Mul(n, w1) == Mul(n, w) + n
  {
    if n > 0 {
      MulOneMore(n - 1, w, w1);
    }
  }

  /** The sizes that yv16_to_i420 converts rightly. */
  predicate SizeServed(width: nat, height: nat) {
    if height % 2 == 0 then width % 2 == 0 || height <= 2 else width % 2 == 1 && (height == width || height == width + 2)
  }

  /**
   The conversion is right for all images of a size if and only if both sides are even, or the width is odd and the
   height at most 2, or both are odd and the image is square or two rows higher than wide.
   */
  lemma ConversionRightIff(width: nat, height: nat, size: nat, r: nat, n: nat)
    requires size == width * height && r == width / 2 > 0 && n == (height + 1) / 2 && Apart(width, height)
    ensures forall s: seq<Byte> :: |s| == 2 * size ==> PlanesFit(s, size, r, n)
    ensures (forall s: seq<Byte> :: |s| == 2 * size ==> Right(s, size, r, n)) <==> SizeServed(width, height)
  {
    Product(height, width);
    RightIff(width, height, size, r, n);
    QuarterOff(width, height, r, n);
    ServedIff(width, height, size, r, n, Mul(n, r));
  }

  /** V is written over the end of U if and only if the height is odd, and the width even or above the height. */
  lemma OverlapIff(width: nat, height: nat, size: nat, r: nat, n: nat)
    requires size == width * height && r == width / 2 > 0 && n == (height + 1) / 2 && Apart(width, height)
    ensures size + Mul(n, r) > size + size / 4 <==> height % 2 == 1 && (width % 2 == 0 || width > height)
  {
    Product(height, width);
    QuarterOff(width, height, r, n);
    ServedIff(width, height, size, r, n, Mul(n, r));
  }

  lemma ServedIff(width: nat, height: nat, size: nat, r: nat, n: nat, u: nat)
    requires r == width / 2 > 0 && n == (height + 1) / 2
    requires size == 4 * u + (if width % 2 == 1 then height else 0) - if height % 2 == 1 then 2 * r else 0
    ensures u == size / 4 <==> SizeServed(width, height)
    ensures u > size / 4 <==> height % 2 == 1 && (width % 2 == 0 || width > height)
  {
  }
}
