/** Interleaved pixel buffers: a buffer of `w * h * c` bytes holds `h` rows of
    `w` pixels, each pixel `c` consecutive channel bytes. */
module Layout {

  /** One channel value, an `unsigned char` of the C program. */
  type Byte = b: int | 0 <= b < 256

  /** Coordinates of one byte of a buffer: row, column and channel. */
  datatype Pos = Pos(y: nat, x: nat, ch: nat)

  /** Offset of channel `ch` of the pixel in row `y`, column `x`:
      `(y * width + x) * channels + ch`. */
  function Idx(w: nat, c: nat, y: nat, x: nat, ch: nat): nat
  {
    (y * w + x) * c + ch
  }

  /** Offset of channel `ch` of the `i`-th pixel in reading order. */
  function PixelOff(i: nat, c: nat, ch: nat): nat
  {
    i * c + ch
  }

  /** The coordinates of byte `k` of a `w` x `h` buffer with `c` channels. */
  function Coords(k: nat, w: nat, h: nat, c: nat): (p: Pos)
    requires k < w * h * c
    ensures p.y < h && p.x < w && p.ch < c
    ensures Idx(w, c, p.y, p.x, p.ch) == k
  {
    CoordsSplit(k, w, h, c);
    Pos(k / (w * c), k % (w * c) / c, k % (w * c) % c)
  }

  /** The arithmetic behind `Coords`: dividing by the row length gives the
      row, dividing the remainder by the channel count the column. */
  lemma CoordsSplit(k: nat, w: nat, h: nat, c: nat)
    requires k < w * h * c
    ensures w * c > 0 && c > 0
    ensures k / (w * c) < h && k % (w * c) / c < w && k % (w * c) % c < c
    ensures Idx(w, c, k / (w * c), k % (w * c) / c, k % (w * c) % c) == k
  {
    NonZeroFactors(w, h, c);
    var rowLen := w * c;
    var y, r := k / rowLen, k % rowLen;
    var x, ch := r / c, r % c;
    assert k == y * rowLen + r && r < rowLen;
    assert r == x * c + ch;
    DivBelow(r, c, w);
    SwapOuter(w, h, c);
    DivBelow(k, rowLen, h);
    RowMajor(w, c, y, x, ch);
  }

  /** Different coordinates name different bytes: `Coords` inverts `Idx`. */
  lemma CoordsOfIdx(w: nat, h: nat, c: nat, y: nat, x: nat, ch: nat)
    requires y < h && x < w && ch < c
    ensures Idx(w, c, y, x, ch) < w * h * c
    ensures Coords(Idx(w, c, y, x, ch), w, h, c) == Pos(y, x, ch)
  {
    var rowLen := w * c;
    var k := Idx(w, c, y, x, ch);
    RowMajor(w, c, y, x, ch);
    assert k == y * rowLen + (x * c + ch);
    BelowNext(x, w, c, ch);
    assert x * c + ch < rowLen;
    BelowNext(y, h, rowLen, x * c + ch);
    SwapOuter(w, h, c);
    assert k < w * h * c;
    DivModUnique(k, rowLen, y, x * c + ch);
    DivModUnique(x * c + ch, c, x, ch);
  }

  /** `Idx` is the offset `y * (w * c)` of row `y` plus the offset of the
      pixel within that row. */
  lemma RowMajor(w: nat, c: nat, y: nat, x: nat, ch: nat)
    ensures Idx(w, c, y, x, ch) == y * (w * c) + (x * c + ch)
  {
    MulDistrib(y * w, x, c);
    MulAssoc(y, w, c);
  }

  // ---- arithmetic helpers ----

  /** Pixel `i` of `n` pixels of `c` bytes ends where pixel `i + 1` starts,
      at most at the end of the buffer. */
  lemma PixelInBuffer(i: nat, n: nat, c: nat)
    requires i < n
    ensures (i + 1) * c == i * c + c <= n * c
  {
    MulDistrib(i, 1, c);
    MulMono(i + 1, n, c);
  }

  lemma NonZeroFactors(w: nat, h: nat, c: nat)
    requires w * h * c > 0
    ensures w > 0 && h > 0 && c > 0 && w * c > 0
  {
  }

  lemma MulAssoc(a: int, b: int, d: int)
    ensures (a * b) * d == a * (b * d)
  {
  }

  lemma MulDistrib(a: int, b: int, d: int)
    ensures (a + b) * d == a * d + b * d
  {
  }

  /** `w * h * c` is `h` rows of `w * c` bytes. */
  lemma SwapOuter(w: nat, h: nat, c: nat)
    ensures w * h * c == h * (w * c)
  {
    assert w * h == h * w;
    MulAssoc(h, w, c);
  }

  lemma MulMono(a: nat, b: nat, d: nat)
    requires a <= b
    ensures a * d <= b * d
  {
  }

  /** Below `(q + 1) * d` when `r < d`, hence below `n * d` when `q < n`. */
  lemma BelowNext(q: nat, n: nat, d: nat, r: nat)
    requires q < n && r < d
    ensures q * d + r < n * d
  {
    MulDistrib(q, 1, d);
    MulMono(q + 1, n, d);
  }

  lemma DivModUnique(k: int, d: int, q: int, r: int)
    requires d > 0 && 0 <= r < d && k == q * d + r
    ensures k / d == q && k % d == r
  {
    var m := q - k / d;
    MulDistrib(q, -(k / d), d);
    assert m * d == k % d - r;
    SmallMultiple(m, d);
  }

  lemma SmallMultiple(m: int, d: int)
    requires d > 0 && -d < m * d < d
    ensures m == 0
  {
  }

  lemma DivBelow(k: nat, d: nat, n: nat)
    requires d > 0 && k < n * d
    ensures k / d < n
  {
    if k / d >= n {
      MulMono(n, k / d, d);
    }
  }
}
