/**
 Zero-padding of a time signal onto the STFT frame grid, as done before the
 magnitude spectrogram is computed for Griffin-Lim and ADMM phase recovery.

 A signal of `lf` samples is extended with zeros to `WinLen + T * ShiftLen`
 samples, where `T` is the ceiling of `(lf - WinLen) / ShiftLen`. The source
 computes that ceiling on a floating-point quotient; here the quotient is an
 exact `real` and the ceiling is taken with `Floor`.
 */
module StftPadding {

  /** A positive hop length. */
  type Hop = h: int | h > 0 witness 1

  /** The frame grid of an STFT: window length and hop (shift) length. */
  datatype FrameGrid = FrameGrid(winLen: int, shiftLen: Hop)

  /** The grid the phase-recovery script uses: a window of 2^9 samples and a
      hop of 2^8 samples. */
  const Stft: FrameGrid := FrameGrid(512, 256)

  /** A padded signal together with the length reported beside it. */
  datatype Padded = Padded(data: seq<real>, length: int)

  /** Ceiling of a real number: the least integer not below `x`. */
  function Ceil(x: real): (c: int)
    ensures c as real - 1.0 < x <= c as real
  {
    -((-x).Floor)
  }

  /** A length lies on the frame grid when it is the window length plus a
      whole (possibly negative) number of hops. */
  predicate OnFrameGrid(g: FrameGrid, n: int)
  {
    (n - g.winLen) % g.shiftLen == 0
  }

  /** The number of hops `T` chosen for a signal of `lf` samples: the ceiling
      of the exact quotient `(lf - winLen) / shiftLen`, which makes it the
      least integer for which `winLen + T * shiftLen` covers `lf`. It is not
      clamped at zero, so it is negative for signals shorter than the window. */
  function FrameCount(g: FrameGrid, lf: nat): (t: int)
    ensures lf <= g.winLen + t * g.shiftLen
    ensures g.winLen + (t - 1) * g.shiftLen < lf
  {
    var d, h := lf - g.winLen, g.shiftLen;
    var q := d as real / h as real;
    var t := Ceil(q);
    CeilBracket(d, h, q, t);
    t
  }

  /** The length a signal of `lf` samples is padded to. */
  function PaddedLength(g: FrameGrid, lf: nat): (n: nat)
    ensures lf <= n
    ensures n - lf < g.shiftLen
    ensures OnFrameGrid(g, n)
  {
    var t := FrameCount(g, lf);
    GridPoint(g, t);
    g.winLen + t * g.shiftLen
  }

  /** `k` zero samples, built one sample at a time. */
  function Zeros(k: nat): (z: seq<real>)
    ensures |z| == k
    ensures forall i :: 0 <= i < k ==> z[i] == 0.0
  {
    if k == 0 then [] else Zeros(k - 1) + [0.0]
  }

  /** Pads `data` with zeros up to the next length on the frame grid and
      returns the padded signal together with its length. */
  function ZeroPad(g: FrameGrid, data: seq<real>): (r: Padded)
    ensures r.length == PaddedLength(g, |data|)
    ensures |r.data| == r.length
    ensures |data| <= r.length < |data| + g.shiftLen
    ensures OnFrameGrid(g, r.length)
    ensures r.data[..|data|] == data
    ensures forall i :: |data| <= i < |r.data| ==> r.data[i] == 0.0
  {
    var n := PaddedLength(g, |data|);
    var padded := data + Zeros(n - |data|);
    assert padded[..|data|] == data;
    Padded(padded, n)
  }

  /** Scaling the ceiling bracket `t - 1 < d / h <= t` by the hop. */
  lemma CeilBracket(d: int, h: Hop, q: real, t: int)
    requires q == d as real / h as real
    requires t as real - 1.0 < q <= t as real
    ensures (t - 1) * h < d <= t * h
  {
    var hr := h as real;
    assert q * hr == d as real;
    RealMulLess(t as real - 1.0, q, hr);
    RealMulAtMost(q, t as real, hr);
    assert ((t - 1) * h) as real == (t as real - 1.0) * hr;
    assert (t * h) as real == t as real * hr;
  }

  /** Multiplication by a positive real keeps a strict order. */
  lemma RealMulLess(x: real, y: real, k: real)
    requires x < y && 0.0 < k
    ensures x * k < y * k
  {
    assert y * k - x * k == (y - x) * k;
  }

  /** Multiplication by a positive real keeps a weak order. */
  lemma RealMulAtMost(x: real, y: real, k: real)
    requires x <= y && 0.0 < k
    ensures x * k <= y * k
  {
    assert y * k - x * k == (y - x) * k;
  }

  /** `winLen + t * shiftLen` is on the grid. */
  lemma GridPoint(g: FrameGrid, t: int)
    ensures OnFrameGrid(g, g.winLen + t * g.shiftLen)
  {
    var h := g.shiftLen;
    assert g.winLen + t * h - g.winLen == t * h;
    ModOfMultiple(t, h);
  }

  /** A multiple of `h` leaves remainder zero. */
  lemma ModOfMultiple(t: int, h: Hop)
    ensures (t * h) % h == 0
  {
    DivUnique(t * h, h, t);
  }

  /** Integer division by a hop is pinned down by bracketing. */
  lemma DivUnique(a: int, h: Hop, t: int)
    requires t * h <= a < t * h + h
    ensures a / h == t
    ensures a % h == a - t * h
  {
    var q, m := a / h, a % h;
    assert a == q * h + m && 0 <= m < h;
    if q < t {
      MulLess(q + 1, t, h);
    } else if t < q {
      MulLess(t + 1, q, h);
    }
  }

  /** Multiplication by a hop is monotone. */
  lemma MulLess(x: int, y: int, h: Hop)
    requires x <= y
    ensures x * h <= y * h
  {
    assert y * h - x * h == (y - x) * h;
  }

  /** The hop count computed on the exact quotient agrees with integer
      ceiling division, `(lf - winLen + shiftLen - 1) / shiftLen`. */
  lemma FrameCountIsCeilDiv(g: FrameGrid, lf: nat)
    ensures FrameCount(g, lf) == (lf - g.winLen + g.shiftLen - 1) / g.shiftLen
  {
    var t, h := FrameCount(g, lf), g.shiftLen;
    var a := lf - g.winLen + h - 1;
    assert (t - 1) * h == t * h - h;
    DivUnique(a, h, t);
  }

  /** Minimality: any grid length that covers the signal is at least the
      padded length, i.e. no smaller `T` would do. */
  lemma PaddingIsMinimal(g: FrameGrid, lf: nat, t: int)
    requires lf <= g.winLen + t * g.shiftLen
    ensures FrameCount(g, lf) <= t
    ensures PaddedLength(g, lf) <= g.winLen + t * g.shiftLen
  {
    var c := FrameCount(g, lf);
    if t < c {
      MulLess(t, c - 1, g.shiftLen);
    }
    MulLess(c, t, g.shiftLen);
  }

  /** The padded length is the unique grid length `winLen + t * shiftLen`
      whose hop count `t` brackets the signal length. */
  lemma PaddedLengthAt(g: FrameGrid, lf: nat, t: int)
    requires g.winLen + (t - 1) * g.shiftLen < lf <= g.winLen + t * g.shiftLen
    ensures FrameCount(g, lf) == t
    ensures PaddedLength(g, lf) == g.winLen + t * g.shiftLen
  {
    var c := FrameCount(g, lf);
    PaddingIsMinimal(g, lf, t);
    if c < t {
      MulLess(c, t - 1, g.shiftLen);
    }
  }

  /** A length already on the grid is left unchanged. */
  lemma PaddedLengthOnGrid(g: FrameGrid, n: nat)
    requires OnFrameGrid(g, n)
    ensures PaddedLength(g, n) == n
  {
    var h := g.shiftLen;
    var k := (n - g.winLen) / h;
    assert n - g.winLen == k * h + (n - g.winLen) % h;
    PaddingIsMinimal(g, n, k);
  }

  /** Padding twice is padding once: the second call appends nothing and
      reports the same length. */
  lemma ZeroPadIdempotent(g: FrameGrid, data: seq<real>)
    ensures ZeroPad(g, ZeroPad(g, data).data) == ZeroPad(g, data)
  {
    var r := ZeroPad(g, data);
    PaddedLengthOnGrid(g, r.length);
    var r2 := ZeroPad(g, r.data);
    assert r2.data[..|r.data|] == r.data;
    assert r2.data == r.data;
  }

  /** Because `T` is not clamped at zero, on the script's grid a non-empty
      signal no longer than `winLen - shiftLen` is padded to a single hop,
      below the window length, and an empty signal stays empty. */
  lemma ShortSignalsPadBelowWindow(lf: nat)
    requires lf <= Stft.winLen - Stft.shiftLen
    ensures lf == 0 ==> PaddedLength(Stft, lf) == 0
    ensures 0 < lf ==> PaddedLength(Stft, lf) == Stft.shiftLen < Stft.winLen
  {
    if lf == 0 {
      PaddedLengthAt(Stft, lf, -2);
    } else {
      PaddedLengthAt(Stft, lf, -1);
    }
  }

  /** One sample past the window costs a whole extra hop: 513 pads to 768. */
  lemma PaddedLengthPastWindow()
    ensures PaddedLength(Stft, 513) == 768
  {
    PaddedLengthAt(Stft, 513, 1);
  }

  /** A signal of 10000 samples is padded to 10240 = 512 + 38 * 256. */
  lemma PaddedLengthOf10000()
    ensures PaddedLength(Stft, 10000) == 10240
  {
    PaddedLengthAt(Stft, 10000, 38);
  }
}
