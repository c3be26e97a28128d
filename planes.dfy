/** The planes that `split_image_data` and `generate_alpha_channel` write, as functions of the
    inflated scanlines: every scanline is a filter byte followed by `width` pixels of `stride`
    bytes each, and an output plane keeps the filter byte and a fixed part of every pixel. */
module Planes {
  import opened Wrappers
  import opened Bytes

  /** `a * b`, named so that the verifier treats each product as an opaque `nat` term: the
      offsets built from it need no reasoning about signs, and the few linear facts the proofs
      need about products (MulLe, MulSucc and the like below) are supplied by lemmas instead
      of being searched for. */
  function Mul(a: nat, b: nat): nat
  {
    a * b
  }

  lemma MulLe(a: nat, b: nat, c: nat)
    requires a <= b
    ensures Mul(a, c) <= Mul(b, c)
  {
  }

  lemma MulSucc(a: nat, c: nat)
    ensures Mul(a + 1, c) == Mul(a, c) + c
  {
    assert (a + 1) * c == a * c + c;
  }

  /** Byte `j` of group `p` of `k` groups of `size` bytes lies inside them. */
  lemma MulIndex(p: nat, k: nat, size: nat, j: nat)
    requires p < k && j < size
    ensures Mul(p, size) + j < Mul(k, size)
  {
    MulLe(p + 1, k, size);
  }

  /** The number of whole scanlines of `l` bytes in `len` bytes (a trailing partial scanline
      is ignored); they fit in the data. */
  function Scanlines(len: nat, l: nat): (n: nat)
    requires l > 0
    ensures Mul(n, l) <= len < Mul(n, l) + l
  {
    len / l
  }

  /** Scanline `line` of `n` whole scanlines of `l` bytes ends inside the data. */
  lemma LineInside(line: nat, n: nat, l: nat, len: nat)
    requires line < n && Mul(n, l) <= len
    ensures Mul(line, l) + l <= len
  {
    MulLe(line + 1, n, l);
  }

  /** For `k` pixel groups of `stride` bytes starting at `start`, the `size` bytes at offset `off`
      of each group, in pixel order. */
  function Cells(img: seq<byte>, start: nat, k: nat, stride: nat, off: nat, size: nat): (r: seq<byte>)
    requires off + size <= stride && start + Mul(k, stride) <= |img|
    ensures |r| == Mul(k, size)
  {
    if k == 0 then []
    else
      var at := start + Mul(k - 1, stride) + off;
      Cells(img, start, k - 1, stride, off, size) + img[at..at + size]
  }

  /** One output scanline: the filter byte at `base`, then the selected bytes of the `w` pixels
      that follow it. */
  function Line(img: seq<byte>, base: nat, w: nat, stride: nat, off: nat, size: nat): (r: seq<byte>)
    requires off + size <= stride && base + 1 + Mul(w, stride) <= |img|
    ensures |r| == 1 + Mul(w, size)
  {
    [img[base]] + Cells(img, base + 1, w, stride, off, size)
  }

  /** The first `n` output scanlines, for input scanlines of `w * stride + 1` bytes. */
  function Plane(img: seq<byte>, w: nat, stride: nat, off: nat, size: nat, n: nat): (r: seq<byte>)
    requires off + size <= stride && Mul(n, Mul(w, stride) + 1) <= |img|
    ensures |r| == Mul(n, 1 + Mul(w, size))
  {
    if n == 0 then []
    else
      var l := Mul(w, stride) + 1;
      LineInside(n - 1, n, l, |img|);
      Plane(img, w, stride, off, size, n - 1) + Line(img, Mul(n - 1, l), w, stride, off, size)
  }

  /** Byte `j` of pixel `p`'s selection is the byte at offset `off + j` of that pixel's group. */
  lemma {:induction false} CellsAt(img: seq<byte>, start: nat, k: nat, stride: nat, off: nat, size: nat,
                                   p: nat, j: nat)
    requires off + size <= stride && start + Mul(k, stride) <= |img|
    requires p < k && j < size
    ensures Mul(p, size) + j < Mul(k, size) && start + Mul(p, stride) + off + j < |img|
    ensures Cells(img, start, k, stride, off, size)[Mul(p, size) + j] == img[start + Mul(p, stride) + off + j]
    decreases k
  {
    MulIndex(p, k, size, j);
    MulLe(p + 1, k, stride);
    if p < k - 1 {
      CellsAt(img, start, k - 1, stride, off, size, p, j);
    }
  }

  /** Scanline `line` of the plane is the output line built from input scanline `line`: its
      byte `k` sits at offset `i`. */
  lemma {:induction false} PlaneLine(img: seq<byte>, w: nat, stride: nat, off: nat, size: nat, n: nat,
                                     line: nat, k: nat, i: nat)
    requires off + size <= stride && Mul(n, Mul(w, stride) + 1) <= |img| && line < n
    requires k < 1 + Mul(w, size) && i == Mul(line, 1 + Mul(w, size)) + k
    ensures Mul(line, Mul(w, stride) + 1) + 1 + Mul(w, stride) <= |img|
    ensures i < Mul(n, 1 + Mul(w, size))
    ensures Plane(img, w, stride, off, size, n)[i] ==
            Line(img, Mul(line, Mul(w, stride) + 1), w, stride, off, size)[k]
    decreases n
  {
    LineInside(line, n, Mul(w, stride) + 1, |img|);
    LineInside(line, n, 1 + Mul(w, size), Mul(n, 1 + Mul(w, size)));
    if line < n - 1 {
      MulLe(n - 1, n, Mul(w, stride) + 1);
      PlaneLine(img, w, stride, off, size, n - 1, line, k, i);
      PlaneLeft(img, w, stride, off, size, n, i);
    } else {
      PlaneRight(img, w, stride, off, size, n, k, i);
    }
  }

  /** An offset inside the first `n - 1` output scanlines is not moved by the last one. */
  lemma PlaneLeft(img: seq<byte>, w: nat, stride: nat, off: nat, size: nat, n: nat, i: nat)
    requires off + size <= stride && Mul(n, Mul(w, stride) + 1) <= |img| && n > 0
    requires Mul(n - 1, Mul(w, stride) + 1) <= |img| && i < Mul(n - 1, 1 + Mul(w, size))
    ensures i < Mul(n, 1 + Mul(w, size))
    ensures Plane(img, w, stride, off, size, n)[i] == Plane(img, w, stride, off, size, n - 1)[i]
  {
    LineInside(n - 1, n, Mul(w, stride) + 1, |img|);
    var prev := Plane(img, w, stride, off, size, n - 1);
    var ln := Line(img, Mul(n - 1, Mul(w, stride) + 1), w, stride, off, size);
    ConcatLeft(prev, ln, i);
  }

  /** Byte `k` of the last output scanline. */
  lemma PlaneRight(img: seq<byte>, w: nat, stride: nat, off: nat, size: nat, n: nat, k: nat, i: nat)
    requires off + size <= stride && Mul(n, Mul(w, stride) + 1) <= |img| && n > 0
    requires k < 1 + Mul(w, size) && i == Mul(n - 1, 1 + Mul(w, size)) + k
    requires Mul(n - 1, Mul(w, stride) + 1) + 1 + Mul(w, stride) <= |img|
    ensures i < Mul(n, 1 + Mul(w, size))
    ensures Plane(img, w, stride, off, size, n)[i] ==
            Line(img, Mul(n - 1, Mul(w, stride) + 1), w, stride, off, size)[k]
  {
    var prev := Plane(img, w, stride, off, size, n - 1);
    var ln := Line(img, Mul(n - 1, Mul(w, stride) + 1), w, stride, off, size);
    ConcatRight(prev, ln, k, i);
  }

  /** Scanline `line` of the plane begins with the filter byte of input scanline `line`. */
  lemma PlaneFilter(img: seq<byte>, w: nat, stride: nat, off: nat, size: nat, n: nat, line: nat)
    requires off + size <= stride && Mul(n, Mul(w, stride) + 1) <= |img| && line < n
    ensures Mul(line, 1 + Mul(w, size)) < Mul(n, 1 + Mul(w, size))
    ensures Mul(line, Mul(w, stride) + 1) < |img|
    ensures Plane(img, w, stride, off, size, n)[Mul(line, 1 + Mul(w, size))] ==
            img[Mul(line, Mul(w, stride) + 1)]
  {
    PlaneLine(img, w, stride, off, size, n, line, 0, Mul(line, 1 + Mul(w, size)));
  }

  /** Byte `j` of pixel `p` in scanline `line` lies inside both the input and the plane. */
  lemma PixelInside(img: seq<byte>, w: nat, stride: nat, off: nat, size: nat, n: nat,
                    line: nat, p: nat, j: nat)
    requires off + size <= stride && Mul(n, Mul(w, stride) + 1) <= |img| && line < n
    requires p < w && j < size
    ensures Mul(line, 1 + Mul(w, size)) + 1 + Mul(p, size) + j < Mul(n, 1 + Mul(w, size))
    ensures Mul(line, Mul(w, stride) + 1) + 1 + Mul(p, stride) + off + j < |img|
  {
    LineInside(line, n, Mul(w, stride) + 1, |img|);
    LineInside(line, n, 1 + Mul(w, size), Mul(n, 1 + Mul(w, size)));
    MulIndex(p, w, size, j);
    MulIndex(p, w, stride, off + j);
  }

  /** Byte `j` of pixel `p` in scanline `line` of the plane is the byte at offset `off + j` of
      that pixel in input scanline `line`. */
  lemma PlanePixel(img: seq<byte>, w: nat, stride: nat, off: nat, size: nat, n: nat,
                   line: nat, p: nat, j: nat)
    requires off + size <= stride && Mul(n, Mul(w, stride) + 1) <= |img| && line < n
    requires p < w && j < size
    ensures Mul(line, 1 + Mul(w, size)) + 1 + Mul(p, size) + j < Mul(n, 1 + Mul(w, size))
    ensures Mul(line, Mul(w, stride) + 1) + 1 + Mul(p, stride) + off + j < |img|
    ensures Plane(img, w, stride, off, size, n)[Mul(line, 1 + Mul(w, size)) + 1 + Mul(p, size) + j]
         == img[Mul(line, Mul(w, stride) + 1) + 1 + Mul(p, stride) + off + j]
  {
    var b := Mul(line, Mul(w, stride) + 1);
    PixelInside(img, w, stride, off, size, n, line, p, j);
    LineInside(line, n, Mul(w, stride) + 1, |img|);
    LinePixel(img, b, w, stride, off, size, p, j);
    PlaneLine(img, w, stride, off, size, n, line, 1 + Mul(p, size) + j,
              Mul(line, 1 + Mul(w, size)) + 1 + Mul(p, size) + j);
  }

  /** Byte `j` of pixel `p` in the output line built from the input scanline at `base`. */
  lemma LinePixel(img: seq<byte>, base: nat, w: nat, stride: nat, off: nat, size: nat, p: nat, j: nat)
    requires off + size <= stride && base + 1 + Mul(w, stride) <= |img| && p < w && j < size
    ensures 1 + Mul(p, size) + j < 1 + Mul(w, size) && base + 1 + Mul(p, stride) + off + j < |img|
    ensures Line(img, base, w, stride, off, size)[1 + Mul(p, size) + j] == img[base + 1 + Mul(p, stride) + off + j]
  {
    CellsAt(img, base + 1, w, stride, off, size, p, j);
  }

  lemma ConcatLeft(a: seq<byte>, b: seq<byte>, i: nat)
    requires i < |a|
    ensures (a + b)[i] == a[i]
  {
  }

  lemma ConcatRight(a: seq<byte>, b: seq<byte>, x: nat, i: nat)
    requires x < |b| && i == |a| + x
    ensures (a + b)[i] == b[x]
  {
  }

  /** `split_image_data`'s outputs for inflated data `img` of a `w` by `h` image whose pixels
      hold `cb` colour bytes then `ab` alpha bytes: the colour plane and the alpha plane of the
      `|img| / l` whole scanlines of `l = (cb + ab) * w + 1` bytes, each written from the start
      of a zero-filled buffer of `w * h * bytes + scanlines` bytes. */
  function SplitPlanes(img: seq<byte>, w: nat, h: nat, cb: nat, ab: nat): (seq<byte>, seq<byte>)
  {
    var l := Mul(w, cb + ab) + 1;
    var n := Scanlines(|img|, l);
    (Padded(Plane(img, w, cb + ab, 0, cb, n), Mul(Mul(w, h), cb) + n),
     Padded(Plane(img, w, cb + ab, cb, ab, n), Mul(Mul(w, h), ab) + n))
  }

  /** The sizes of the two planes: each buffer grows past its preallocated size only when the
      scanlines hold more bytes than the preallocation. When the data holds exactly `h`
      scanlines the buffers are filled exactly, and together they hold the data plus one extra
      filter byte per scanline. */
  lemma SplitSizes(img: seq<byte>, w: nat, h: nat, cb: nat, ab: nat)
    ensures var (color, alpha) := SplitPlanes(img, w, h, cb, ab);
      var l := Mul(w, cb + ab) + 1;
      var n := Scanlines(|img|, l);
      && |color| == Max(Mul(Mul(w, h), cb) + n, Mul(n, 1 + Mul(w, cb)))
      && |alpha| == Max(Mul(Mul(w, h), ab) + n, Mul(n, 1 + Mul(w, ab)))
      && (|img| == Mul(h, l) ==>
            && |color| == Mul(Mul(w, h), cb) + h
            && |alpha| == Mul(Mul(w, h), ab) + h
            && |color| + |alpha| == |img| + h)
  {
    var l := Mul(w, cb + ab) + 1;
    if |img| == Mul(h, l) {
      DivExact(h, l);
      ExactSizes(w, h, cb, ab);
    }
  }

  lemma DivExact(h: nat, l: nat)
    requires l > 0
    ensures Scanlines(Mul(h, l), l) == h
  {
    var q := Scanlines(Mul(h, l), l);
    if q < h {
      MulLe(q + 1, h, l);
    } else if q > h {
      MulLe(h + 1, q, l);
    }
  }

  lemma ExactSizes(w: nat, h: nat, cb: nat, ab: nat)
    ensures Mul(h, 1 + Mul(w, cb)) == Mul(Mul(w, h), cb) + h
    ensures Mul(h, 1 + Mul(w, ab)) == Mul(Mul(w, h), ab) + h
    ensures Mul(Mul(w, h), cb) + Mul(Mul(w, h), ab) + h == Mul(h, Mul(w, cb + ab) + 1)
  {
    assert h * (1 + w * cb) == h + (w * h) * cb;
    assert h * (1 + w * ab) == h + (w * h) * ab;
    assert h * (w * (cb + ab) + 1) == (w * h) * cb + (w * h) * ab + h;
  }

  /** The value `generate_alpha_channel`'s table gives palette index `i`: its tRNS alpha for
      indices 0 to `palLen / 3` (inclusive) that the tRNS payload covers, 0xFF otherwise. */
  function PaletteAlpha(palLen: nat, trns: seq<byte>, i: nat): (r: byte)
    ensures i <= palLen / 3 && i < |trns| ==> r == trns[i]
    ensures i > palLen / 3 || i >= |trns| ==> r == 0xFF
  {
    if i <= palLen / 3 && i < |trns| then trns[i] else 0xFF
  }

  /** The alpha of each palette index of `s`. */
  function Alphas(s: seq<byte>, palLen: nat, trns: seq<byte>): (r: seq<byte>)
    ensures |r| == |s| && forall i :: 0 <= i < |s| ==> r[i] == PaletteAlpha(palLen, trns, s[i])
  {
    if s == [] then [] else [PaletteAlpha(palLen, trns, s[0])] + Alphas(s[1..], palLen, trns)
  }

  /** Reading one more palette index appends its alpha. */
  lemma AlphasSnoc(s: seq<byte>, x: byte, palLen: nat, trns: seq<byte>)
    ensures Alphas(s + [x], palLen, trns) == Alphas(s, palLen, trns) + [PaletteAlpha(palLen, trns, x)]
  {
    var a := Alphas(s + [x], palLen, trns);
    var b := Alphas(s, palLen, trns) + [PaletteAlpha(palLen, trns, x)];
    forall i | 0 <= i < |a|
      ensures a[i] == b[i]
    {
      if i < |s| {
        assert (s + [x])[i] == s[i];
      }
    }
  }

  /** One alpha scanline of an indexed image: the filter byte, then the alpha of each of the
      `w` palette indices that follow it. */
  function AlphaLine(img: seq<byte>, base: nat, w: nat, palLen: nat, trns: seq<byte>): (r: seq<byte>)
    requires base + 1 + w <= |img|
    ensures |r| == 1 + w
  {
    [img[base]] + Alphas(img[base + 1..base + 1 + w], palLen, trns)
  }

  /** The first `n` alpha scanlines of an indexed image. */
  function AlphaPlane(img: seq<byte>, w: nat, n: nat, palLen: nat, trns: seq<byte>): (r: seq<byte>)
    requires Mul(n, w + 1) <= |img|
    ensures |r| == Mul(n, w + 1)
  {
    if n == 0 then []
    else
      LineInside(n - 1, n, w + 1, |img|);
      AlphaPlane(img, w, n - 1, palLen, trns) + AlphaLine(img, Mul(n - 1, w + 1), w, palLen, trns)
  }

  /** The alpha plane lies over the image scanlines byte for byte: each filter byte is copied
      and each palette index is replaced by its alpha. */
  lemma {:induction false} AlphaPlaneAt(img: seq<byte>, w: nat, n: nat, palLen: nat, trns: seq<byte>,
                                        line: nat, j: nat)
    requires Mul(n, w + 1) <= |img| && line < n && j <= w
    ensures Mul(line, w + 1) + j < Mul(n, w + 1)
    ensures AlphaPlane(img, w, n, palLen, trns)[Mul(line, w + 1) + j] ==
              if j == 0 then img[Mul(line, w + 1) + j]
              else PaletteAlpha(palLen, trns, img[Mul(line, w + 1) + j])
    decreases n
  {
    var i := Mul(line, w + 1) + j;
    LineInside(line, n, w + 1, |img|);
    LineInside(n - 1, n, w + 1, |img|);
    var prev := AlphaPlane(img, w, n - 1, palLen, trns);
    var ln := AlphaLine(img, Mul(n - 1, w + 1), w, palLen, trns);
    if line < n - 1 {
      MulLe(n - 1, n, w + 1);
      AlphaPlaneAt(img, w, n - 1, palLen, trns, line, j);
      ConcatLeft(prev, ln, i);
    } else {
      assert line == n - 1;
      ConcatRight(prev, ln, j, i);
      if j == 0 {
        AlphaLineFilter(img, Mul(line, w + 1), w, palLen, trns, i);
      } else {
        AlphaLineAt(img, Mul(line, w + 1), w, palLen, trns, j - 1, j, i);
      }
    }
  }

  lemma AlphaLineFilter(img: seq<byte>, base: nat, w: nat, palLen: nat, trns: seq<byte>, i: nat)
    requires base + 1 + w <= |img| && i == base
    ensures AlphaLine(img, base, w, palLen, trns)[0] == img[i]
  {
  }

  lemma AlphaLineAt(img: seq<byte>, base: nat, w: nat, palLen: nat, trns: seq<byte>, x: nat, y: nat, i: nat)
    requires base + 1 + w <= |img| && x < w && y == 1 + x && i == base + y
    ensures AlphaLine(img, base, w, palLen, trns)[y] == PaletteAlpha(palLen, trns, img[i])
  {
    var s := img[base + 1..base + 1 + w];
    assert s[x] == img[i];
  }

  /** `generate_alpha_channel`'s output for the inflated indices `img` of a `w` by `h` image:
      the alpha plane of the `|img| / (w + 1)` whole scanlines, written from the start of a
      zero-filled buffer of `w * h + scanlines` bytes. */
  function IndexedAlpha(img: seq<byte>, w: nat, h: nat, palLen: nat, trns: seq<byte>): seq<byte>
  {
    var n := Scanlines(|img|, w + 1);
    Padded(AlphaPlane(img, w, n, palLen, trns), Mul(w, h) + n)
  }

  /** The alpha output's length; when the data holds exactly `h` scanlines it is as long as the
      data, and the preallocated buffer is filled exactly. */
  lemma IndexedAlphaSize(img: seq<byte>, w: nat, h: nat, palLen: nat, trns: seq<byte>)
    ensures var n := Scanlines(|img|, w + 1);
      && |IndexedAlpha(img, w, h, palLen, trns)| == Max(Mul(w, h) + n, Mul(n, w + 1))
      && (|img| == Mul(h, w + 1) ==>
            |IndexedAlpha(img, w, h, palLen, trns)| == |img| == Mul(w, h) + h)
  {
    if |img| == Mul(h, w + 1) {
      DivExact(h, w + 1);
      assert h * (w + 1) == w * h + h;
    }
  }
}
