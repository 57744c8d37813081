/** The memory layout every buffer of the bloom filter shares: a w×h image is a
    flat row-major array of RGB triples, so channel c of pixel (x, y) sits at
    (y*w + x)*3 + c. This module holds that index arithmetic and the integer
    facts about it that the stages rely on. */
module Layout {

  /** Multiplying both sides of an inequality by a non-negative factor. */
  lemma MulMono(a: int, b: int, d: nat)
    requires a <= b
    ensures a * d <= b * d
  {
    assert b * d - a * d == (b - a) * d;
  }

  /** Euclidean division is determined by a quotient and a remainder in range. */
  lemma DivModUnique(a: int, d: int, q: int, r: int)
    requires d > 0 && 0 <= r < d && a == q * d + r
    ensures a / d == q && a % d == r
  {
    var q', r' := a / d, a % d;
    assert a == q' * d + r';
    if q' > q {
      MulMono(q + 1, q', d);
    }
    if q' < q {
      MulMono(q' + 1, q, d);
    }
  }

  /** The flat pixel number y*w + x of an in-range pixel is below w*h. */
  lemma PixelInRange(w: nat, h: nat, x: nat, y: nat)
    requires x < w && y < h
    ensures y * w + x < w * h
  {
    MulMono(y, h - 1, w);
  }

  /** Position of channel c of pixel (x, y) of a w×h buffer. */
  function Idx(w: nat, h: nat, x: nat, y: nat, c: nat): (j: nat)
    requires x < w && y < h && c < 3
    ensures j < w * h * 3
  {
    PixelInRange(w, h, x, y);
    (y * w + x) * 3 + c
  }

  /** A position determines its pixel and channel: dividing by 3 gives the
      flat pixel number, whose remainder and quotient by w are x and y. */
  lemma IdxDecode(w: nat, h: nat, x: nat, y: nat, c: nat)
    requires x < w && y < h && c < 3
    ensures Idx(w, h, x, y, c) / 3 == y * w + x && Idx(w, h, x, y, c) % 3 == c
    ensures (Idx(w, h, x, y, c) / 3) % w == x && (Idx(w, h, x, y, c) / 3) / w == y
  {
    DivModUnique(y * w + x, w, y, x);
    DivModUnique((y * w + x) * 3 + c, 3, y * w + x, c);
  }

  /** The row of flat pixel number k of a w×h buffer is below h. */
  lemma RowInRange(w: nat, h: nat, k: nat)
    requires k < w * h
    ensures w > 0 && k / w < h
  {
    if k / w >= h {
      MulMono(h, k / w, w);
    }
  }

  /** The pixel (x, y) with flat pixel number k = y*w + x. */
  function PointOf(w: nat, h: nat, k: nat): (p: (nat, nat))
    requires k < w * h
    ensures p.0 < w && p.1 < h && k == p.1 * w + p.0
  {
    RowInRange(w, h, k);
    (k % w, k / w)
  }

  /** The pixel a flat channel position j belongs to; j's channel is j % 3. */
  function PixelOf(w: nat, h: nat, j: nat): (p: (nat, nat))
    requires j < w * h * 3
    ensures p.0 < w && p.1 < h && Idx(w, h, p.0, p.1, j % 3) == j
  {
    PointOf(w, h, j / 3)
  }

  /** A pixel's own position maps back to that pixel. */
  lemma PixelOfIdx(w: nat, h: nat, x: nat, y: nat, c: nat)
    requires x < w && y < h && c < 3
    ensures PixelOf(w, h, Idx(w, h, x, y, c)) == (x, y)
  {
    IdxDecode(w, h, x, y, c);
  }

  /** The flat pixel number of (x, y) maps back to (x, y). */
  lemma PointOfPixel(w: nat, h: nat, x: nat, y: nat)
    requires x < w && y < h
    ensures y * w + x < w * h && PointOf(w, h, y * w + x) == (x, y)
  {
    PixelInRange(w, h, x, y);
    DivModUnique(y * w + x, w, y, x);
  }

  /** The next row starts w positions after row y. */
  lemma NextRow(y: nat, w: nat)
    ensures 0 <= y * w && (y + 1) * w == y * w + w
  {
  }

  /** A prefix of a sequence grows by one element at a time. */
  lemma SliceNext<T>(s: seq<T>, k: nat)
    requires k < |s|
    ensures s[..k + 1] == s[..k] + [s[k]]
  {
  }

  /** A prefix followed by the slice after it is the longer prefix. */
  lemma SliceJoin<T>(s: seq<T>, k: nat, m: nat)
    requires k <= m <= |s|
    ensures s[..m] == s[..k] + s[k..m]
  {
  }

  /** A sequence equal to the first k elements, followed by one equal to
      the next n, is equal to the first k + n. */
  lemma PrefixExtend<T>(s: seq<T>, k: nat, n: nat, front: seq<T>, back: seq<T>)
    requires k + n <= |s| && front == s[..k] && back == s[k..k + n]
    ensures front + back == s[..k + n]
  {
    SliceJoin(s, k, k + n);
  }

  /** A slice that agrees with another sequence element by element is that
      sequence. */
  lemma SliceIs<T>(s: seq<T>, from: nat, t: seq<T>)
    requires from + |t| <= |s|
    requires forall i :: 0 <= i < |t| ==> s[from + i] == t[i]
    ensures s[from..from + |t|] == t
  {
  }
}
