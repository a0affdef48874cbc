/** Planar 4:2:0 to NV21 and back (ExtLibs/libjpeg/jpeg_yuv.c:114-180), for images of 4q pixels. */
module YuvPlanar {
  import opened Machine
  import opened Yuv

  // ----- the two layouts

  function SemiSource(q: nat, k: nat): (r: nat)
    requires k < 6 * q
    ensures r < 6 * q
  {
    if k < 4 * q then k else if (k - 4 * q) % 2 == 0 then 5 * q + (k - 4 * q) / 2 else 4 * q + (k - 4 * q) / 2
  }

  /** The planar image with its V and U planes interleaved, V first. */
  function ToSemi(p: seq<Byte>, q: nat): (r: seq<Byte>)
    requires |p| == 6 * q
    ensures |r| == 6 * q && forall k :: 0 <= k < 6 * q ==> r[k] == p[SemiSource(q, k)]
  {
    seq(6 * q, k requires 0 <= k < 6 * q => p[SemiSource(q, k)])
  }

  function PlanarSource(q: nat, k: nat): (r: nat)
    requires k < 6 * q
    ensures r < 6 * q
  {
    if k < 4 * q then k else if k < 5 * q then 4 * q + 2 * (k - 4 * q) + 1 else 4 * q + 2 * (k - 5 * q)
  }

  function ToPlanar(s: seq<Byte>, q: nat): (r: seq<Byte>)
    requires |s| == 6 * q
    ensures |r| == 6 * q && forall k :: 0 <= k < 6 * q ==> r[k] == s[PlanarSource(q, k)]
  {
    seq(6 * q, k requires 0 <= k < 6 * q => s[PlanarSource(q, k)])
  }

  lemma SourcesInverse(q: nat, k: nat)
    requires k < 6 * q
    ensures SemiSource(q, PlanarSource(q, k)) == k && PlanarSource(q, SemiSource(q, k)) == k
  {
  }

  /** The two conversions undo each other, in both orders. */
  lemma PlanarRoundTrip(s: seq<Byte>, q: nat)
    requires |s| == 6 * q
    ensures ToPlanar(ToSemi(s, q), q) == s && ToSemi(ToPlanar(s, q), q) == s
  {
    forall k | 0 <= k < 6 * q
      ensures ToPlanar(ToSemi(s, q), q)[k] == s[k] && ToSemi(ToPlanar(s, q), q)[k] == s[k]
    {
      SourcesInverse(q, k);
    }
  }

  /** The source of a pair of chroma bytes. */
  lemma PairSource(q: nat, i: nat, k: nat)
    requires i < q && k == 4 * q + 2 * i
    ensures SemiSource(q, k) == 5 * q + i && SemiSource(q, k + 1) == 4 * q + i
  {
  }

  /** Where chroma pair (x/2, y/2) stands among the pairs. */
  lemma PairIndex(width: nat, height: nat, r: nat, q: nat, x: nat, y: nat, i: nat)
    requires width == 2 * r && height % 2 == 0 && Mul(height, width) == 4 * q && x < width && y < height
    requires i == Mul(y / 2, r) + x / 2
    ensures i < q && Mul(y / 2, width) + x / 2 * 2 == 2 * i
  {
    MulTwice(y / 2, r);
    MulTwice(height, r);
    MulAdd(height / 2, height / 2, r);
    MulMono(y / 2 + 1, height / 2, r);
    assert Mul(y / 2 + 1, r) == Mul(y / 2, r) + r;
  }

  /**
   The converted image, addressed as the RGB converter addresses NV21, shows at every pixel the U and V of the planar
   image, whose U plane comes first and whose rows are half as long as those of the image.
   */
  lemma SemiAddressed(p: seq<Byte>, q: nat, width: nat, height: nat, r: nat, x: nat, y: nat, i: nat)
    requires |p| == 6 * q && width == 2 * r && height % 2 == 0 && Mul(height, width) == 4 * q && x < width && y < height
    requires i == Mul(y / 2, r) + x / 2
    ensures i < q && ChromaIndex(width, height, x, y, true) < 6 * q
    ensures ToSemi(p, q)[ChromaIndex(width, height, x, y, true)] == p[4 * q + i]
    ensures ToSemi(p, q)[ChromaIndex(width, height, x, y, false)] == p[5 * q + i]
  {
    PairIndex(width, height, r, q, x, y, i);
    PairSource(q, i, 4 * q + 2 * i);
  }

  // ----- the loops

  /** The i-th V and U bytes, interleaved in t and planar in p. */
  ghost predicate PairAt(t: seq<Byte>, p: seq<Byte>, q: nat, i: nat)
    requires |t| == |p| == 6 * q && i < q
  {
    t[4 * q + 2 * i] == p[5 * q + i] && t[4 * q + 2 * i + 1] == p[4 * q + i]
  }

  ghost predicate Pairs(t: seq<Byte>, p: seq<Byte>, q: nat, n: nat) {
    && |t| == |p| == 6 * q && n <= q && t[..4 * q] == p[..4 * q]
    && forall i {:trigger PairAt(t, p, q, i)} :: 0 <= i < n ==> PairAt(t, p, q, i)
  }

  lemma SemiPairAt(t: seq<Byte>, p: seq<Byte>, q: nat, i: nat)
    requires |p| == 6 * q && t == ToSemi(p, q) && i < q
    ensures PairAt(t, p, q, i)
  {
    var k := 4 * q + 2 * i;
    PairSource(q, i, k);
    assert t[k] == p[SemiSource(q, k)] && t[k + 1] == p[SemiSource(q, k + 1)];
  }

  lemma SemiLuma(t: seq<Byte>, p: seq<Byte>, q: nat)
    requires |p| == 6 * q && t == ToSemi(p, q)
    ensures t[..4 * q] == p[..4 * q]
  {
    forall k | 0 <= k < 4 * q
      ensures t[k] == p[k]
    {
      assert SemiSource(q, k) == k;
    }
  }

  lemma SemiPairs(p: seq<Byte>, q: nat)
    requires |p| == 6 * q
    ensures Pairs(ToSemi(p, q), p, q, q)
  {
    var t := ToSemi(p, q);
    SemiLuma(t, p, q);
    forall i | 0 <= i < q
      ensures PairAt(t, p, q, i)
    {
      SemiPairAt(t, p, q, i);
    }
  }

  /** The pairs determine the planar image. */
  lemma PairsPlanar(t: seq<Byte>, p: seq<Byte>, q: nat)
    requires Pairs(t, p, q, q)
    ensures p == ToPlanar(t, q)
  {
    var r := ToPlanar(t, q);
    forall k | 0 <= k < 6 * q
      ensures p[k] == r[k]
    {
      if k < 4 * q {
        assert t[..4 * q][k] == p[..4 * q][k];
      } else {
        assert PairAt(t, p, q, if k < 5 * q then k - 4 * q else k - 5 * q);
      }
    }
  }

  /** Stores the next byte of t. */
  method SetNext(a: array<Byte>, k: nat, b: Byte, ghost t: seq<Byte>)
    requires k < a.Length == |t| && a[..k] == t[..k] && b == t[k]
    modifies a
    ensures a[..k + 1] == t[..k + 1]
  {
    a[k] := b;
  }

  /** jpeg_yuv.c:119-122. */
  method CopyLuma(p: array<Byte>, sp: array<Byte>, size: nat)
    requires size <= p.Length == sp.Length && p != sp
    modifies sp
    ensures sp[..size] == p[..size]
  {
    var i := 0;
    while i < size
      invariant i <= size && sp[..i] == p[..i]
    {
      sp[i] := p[i];
      i := i + 1;
    }
  }

  /** The next chroma byte, V when j is even and U when it is odd. */
  lemma ChromaByte(t: seq<Byte>, p: seq<Byte>, q: nat, size: nat, j: nat, m: nat, n: nat)
    requires Pairs(t, p, q, q) && size == 4 * q && j == m + n < 2 * q && m <= n <= m + 1
    ensures if j % 2 == 0 then n < q && t[size + j] == p[5 * q + n] else m < q && t[size + j] == p[size + m]
    ensures size * 5 / 4 == 5 * q
  {
    if j % 2 == 0 {
      assert PairAt(t, p, q, n);
    } else {
      assert PairAt(t, p, q, m);
    }
  }

  /** jpeg_yuv.c:124-154. */
  method Interleave(p: array<Byte>, sp: array<Byte>, size: nat, ghost q: nat, ghost t: seq<Byte>)
    requires size == 4 * q && p.Length == sp.Length == 6 * q && p != sp && Pairs(t, p[..], q, q)
    requires sp[..size] == t[..size]
    modifies sp
    ensures sp[..] == t
  {
    var j: nat, m: nat, n: nat := 0, 0, 0;
    while j < size / 2
      invariant j == m + n <= size / 2 && m <= n <= m + 1
      invariant sp[..size + j] == t[..size + j]
    {
      m, n := SetChroma(p, sp, size, j, m, n, q, t);
      j := j + 1;
    }
    assert size + j == 6 * q;
  }

  /** jpeg_yuv.c:142-153. */
  method SetChroma(p: array<Byte>, sp: array<Byte>, size: nat, j: nat, m: nat, n: nat, ghost q: nat, ghost t: seq<Byte>)
    returns (m': nat, n': nat)
    requires size == 4 * q && p.Length == sp.Length == 6 * q && p != sp && Pairs(t, p[..], q, q)
    requires j == m + n < 2 * q && m <= n <= m + 1 && sp[..size + j] == t[..size + j]
    modifies sp
    ensures j + 1 == m' + n' && m' <= n' <= m' + 1 && sp[..size + j + 1] == t[..size + j + 1]
  {
    ChromaByte(t, p[..], q, size, j, m, n);
    if j % 2 == 0 {
      SetNext(sp, size + j, p[size * 5 / 4 + n], t);
      m', n' := m, n + 1;
    } else {
      SetNext(sp, size + j, p[size + m], t);
      m', n' := m + 1, n;
    }
  }

  /** jpeg_yuv.c:114-156. */
  method PlanarToSemi(p: array<Byte>, sp: array<Byte>, width: nat, height: nat, ghost q: nat)
    requires width * height == 4 * q && p.Length == sp.Length == 6 * q && p != sp
    modifies sp
    ensures sp[..] == ToSemi(p[..], q)
  {
    ghost var t := ToSemi(p[..], q);
    SemiPairs(p[..], q);
    CopyLuma(p, sp, width * height);
    Interleave(p, sp, width * height, q, t);
  }

  lemma PairStep(t: seq<Byte>, p: seq<Byte>, p': seq<Byte>, q: nat, i: nat)
    requires i < q && Pairs(t, p, q, i) && p' == p[5 * q + i := t[4 * q + 2 * i]][4 * q + i := t[4 * q + 2 * i + 1]]
    ensures Pairs(t, p', q, i + 1)
  {
    assert p'[..4 * q] == p[..4 * q];
    forall k | 0 <= k < i + 1
      ensures PairAt(t, p', q, k)
    {
      assert k < i ==> PairAt(t, p, q, k);
    }
  }

  /** jpeg_yuv.c:174-178. */
  method Separate(sp: array<Byte>, p: array<Byte>, size: nat, ghost q: nat)
    requires size == 4 * q && p.Length == sp.Length == 6 * q && p != sp && Pairs(sp[..], p[..], q, 0)
    modifies p
    ensures Pairs(sp[..], p[..], q, q)
  {
    ghost var t := sp[..];
    var j, i: nat := 0, 0;
    while j < size / 2
      invariant j == 2 * i <= size / 2 && sp[..] == t && Pairs(t, p[..], q, i)
    {
      ghost var before := p[..];
      p[size * 5 / 4 + i] := sp[size + j];
      p[size + i] := sp[size + j + 1];
      PairStep(t, before, p[..], q, i);
      j, i := j + 2, i + 1;
    }
  }

  /** jpeg_yuv.c:158-180. */
  method SemiToPlanar(sp: array<Byte>, p: array<Byte>, width: nat, height: nat, ghost q: nat)
    requires width * height == 4 * q && p.Length == sp.Length == 6 * q && p != sp
    modifies p
    ensures p[..] == ToPlanar(sp[..], q)
  {
    var size := width * height;
    Copy(p, 0, sp[..size]);
    assert p[..size] == sp[..size];
    Separate(sp, p, size, q);
    PairsPlanar(sp[..], p[..], q);
  }
}
