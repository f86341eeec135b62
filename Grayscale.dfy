/** The grayscale operation (`apply_grayscale` of main0.c): an out-of-place
    transform from an RGB or RGBA buffer to a gray or gray-alpha buffer. */
module Grayscale {
  import opened Layout

  /** Channels of the grayscale output: gray alone, or gray and alpha when
      the input has four channels. */
  function GrayChannels(c: nat): (oc: nat)
    ensures 1 <= oc <= 2
    ensures oc == 2 <==> c == 4
  {
    if c == 4 then 2 else 1
  }

  function Min3(a: int, b: int, c: int): int
  {
    if a <= b && a <= c then a else if b <= c then b else c
  }

  function Max3(a: int, b: int, c: int): int
  {
    if a >= b && a >= c then a else if b >= c then b else c
  }

  /** The gray value of one pixel: the mean of red, green and blue, rounded
      down, as C's integer division does on these non-negative sums. */
  function Average(r: Byte, g: Byte, b: Byte): (v: Byte)
    ensures 3 * v <= r + g + b < 3 * v + 3
    ensures Min3(r, g, b) <= v <= Max3(r, g, b)
    ensures r == g == b ==> v == r
  {
    (r + g + b) / 3
  }

  /** The gray value of pixel `i` of an interleaved buffer with `c` channels. */
  function GrayOf(s: seq<Byte>, i: nat, c: nat): Byte
    requires c >= 3 && PixelOff(i, c, c - 1) < |s|
  {
    Average(s[PixelOff(i, c, 0)], s[PixelOff(i, c, 1)], s[PixelOff(i, c, 2)])
  }

  /** The grayscale image of the `n` pixels of `s`: per pixel its gray value,
      followed by its alpha byte when `s` has four channels. */
  function Grayscaled(s: seq<Byte>, n: nat, c: nat): (r: seq<Byte>)
    requires c == 3 || c == 4
    requires |s| == n * c
    ensures |r| == n * GrayChannels(c)
  {
    if c == 4 then
      seq(n * 2, k requires 0 <= k < n * 2 =>
        if k % 2 == 0 then GrayOf(s, k / 2, 4) else s[PixelOff(k / 2, 4, 3)])
    else
      seq(n, k requires 0 <= k < n => GrayOf(s, k, 3))
  }

  /** Pixel `i` of the grayscale image holds the integer mean of the old
      pixel's red, green and blue and, for four input channels, its alpha. */
  lemma GrayscaleAt(s: seq<Byte>, n: nat, c: nat, i: nat)
    requires c == 3 || c == 4
    requires |s| == n * c && i < n
    ensures PixelOff(i, GrayChannels(c), GrayChannels(c) - 1) < n * GrayChannels(c)
    ensures PixelOff(i, c, c - 1) < |s|
    ensures Grayscaled(s, n, c)[PixelOff(i, GrayChannels(c), 0)]
         == Average(s[PixelOff(i, c, 0)], s[PixelOff(i, c, 1)], s[PixelOff(i, c, 2)])
    ensures c == 4 ==> Grayscaled(s, n, c)[PixelOff(i, 2, 1)] == s[PixelOff(i, 4, 3)]
  {
    if c == 4 {
      var k := PixelOff(i, 2, 0);
      assert k == 2 * i && k / 2 == i && (k + 1) / 2 == i && k % 2 == 0;
      assert n * c == 4 * n && PixelOff(i, 4, 3) == 4 * i + 3;
    } else {
      assert PixelOff(i, 1, 0) == i;
      assert n * c == 3 * n && PixelOff(i, 3, 2) == 3 * i + 2;
    }
  }

  /** A buffer whose every pixel has red = green = blue = v turns into a
      buffer whose every gray value is v; the alpha bytes are kept. */
  lemma GrayscaleOfUniform(s: seq<Byte>, n: nat, c: nat, v: Byte)
    requires c == 3 || c == 4
    requires |s| == n * c
    requires forall i, ch :: 0 <= i < n && 0 <= ch < 3 ==> s[PixelOff(i, c, ch)] == v
    ensures forall i :: 0 <= i < n ==>
      Grayscaled(s, n, c)[PixelOff(i, GrayChannels(c), 0)] == v
    ensures c == 4 ==> forall i :: 0 <= i < n ==>
      Grayscaled(s, n, c)[PixelOff(i, 2, 1)] == s[PixelOff(i, 4, 3)]
  {
    forall i | 0 <= i < n
      ensures Grayscaled(s, n, c)[PixelOff(i, GrayChannels(c), 0)] == v
      ensures c == 4 ==> Grayscaled(s, n, c)[PixelOff(i, 2, 1)] == s[PixelOff(i, 4, 3)]
    {
      GrayscaleAt(s, n, c, i);
      assert s[PixelOff(i, c, 0)] == s[PixelOff(i, c, 1)] == s[PixelOff(i, c, 2)] == v;
    }
  }

  /** Writes the gray value of every pixel of `img` (and its alpha, for four
      channels) into `out`; `img` is left as it is. */
  method ApplyGrayscale(img: array<Byte>, out: array<Byte>, w: nat, h: nat, c: nat, oc: nat)
    requires c == 3 || c == 4
    requires oc == GrayChannels(c)
    requires img.Length == w * h * c && out.Length == w * h * oc
    requires out != img
    modifies out
    ensures out[..] == Grayscaled(img[..], w * h, c)
  {
    var n := w * h;
    ghost var src := img[..];
    ghost var gray := Grayscaled(src, n, c);
    var i := 0;
    while i < n
      invariant 0 <= i <= n
      invariant forall k :: 0 <= k < i * oc ==> out[k] == gray[k]
    {
      GrayscaleAt(src, n, c, i);
      PixelInBuffer(i, n, c);
      PixelInBuffer(i, n, oc);
      var p := i * c;
      var pg := i * oc;
      ghost var before := out[..];
      out[pg] := (img[p] as int + img[p + 1] + img[p + 2]) / 3;
      if c == 4 {
        out[pg + 1] := img[p + 3];
      }
      forall k | 0 <= k < pg + oc
        ensures out[k] == gray[k]
      {
        if k < pg {
          assert out[k] == before[k];
        }
      }
      assert (i + 1) * oc == pg + oc;
      i := i + 1;
    }
    assert out[..] == gray;
  }
}
