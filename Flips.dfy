/** Horizontal and vertical flips of an interleaved pixel buffer
    (`apply_hflip` and `apply_vflip` of main0.c). Both work in place on the
    buffer; each is specified by an index map on the buffer's bytes. */
module Flips {
  import opened Layout

  // ---------------------------------------------------------------------
  // Horizontal flip
  // ---------------------------------------------------------------------

  /** The byte that lands on byte `k` when every row is mirrored: same row,
      column `w - 1 - x`, same channel. */
  function HMirror(k: nat, w: nat, h: nat, c: nat): (m: nat)
    requires k < w * h * c
    ensures m < w * h * c
    ensures var p := Coords(k, w, h, c);
            Coords(m, w, h, c) == Pos(p.y, w - 1 - p.x, p.ch)
  {
    var p := Coords(k, w, h, c);
    CoordsOfIdx(w, h, c, p.y, w - 1 - p.x, p.ch);
    Idx(w, c, p.y, w - 1 - p.x, p.ch)
  }

  /** Mirroring a byte position twice gives the position back. */
  lemma HMirrorTwice(k: nat, w: nat, h: nat, c: nat)
    requires k < w * h * c
    ensures HMirror(HMirror(k, w, h, c), w, h, c) == k
  {
    var p := Coords(k, w, h, c);
    var m := HMirror(k, w, h, c);
    assert Coords(m, w, h, c) == Pos(p.y, w - 1 - p.x, p.ch);
  }

  /** The buffer `s` with every row mirrored. */
  function HFlipped(s: seq<Byte>, w: nat, h: nat, c: nat): (r: seq<Byte>)
    requires |s| == w * h * c
    ensures |r| == |s|
  {
    seq(|s|, k requires 0 <= k < |s| => s[HMirror(k, w, h, c)])
  }

  /** After a horizontal flip, the pixel at (y, x) holds, in every channel,
      the old pixel at (y, w - 1 - x). */
  lemma HFlippedAt(s: seq<Byte>, w: nat, h: nat, c: nat, y: nat, x: nat, ch: nat)
    requires |s| == w * h * c
    requires y < h && x < w && ch < c
    ensures Idx(w, c, y, x, ch) < |s| && Idx(w, c, y, w - 1 - x, ch) < |s|
    ensures HFlipped(s, w, h, c)[Idx(w, c, y, x, ch)] == s[Idx(w, c, y, w - 1 - x, ch)]
  {
    CoordsOfIdx(w, h, c, y, x, ch);
    CoordsOfIdx(w, h, c, y, w - 1 - x, ch);
  }

  /** For an odd width the centre column does not move. */
  lemma HFlipKeepsCentre(s: seq<Byte>, w: nat, h: nat, c: nat, y: nat, ch: nat)
    requires |s| == w * h * c
    requires w % 2 == 1 && y < h && ch < c
    ensures Idx(w, c, y, w / 2, ch) < |s|
    ensures HFlipped(s, w, h, c)[Idx(w, c, y, w / 2, ch)] == s[Idx(w, c, y, w / 2, ch)]
  {
    HFlippedAt(s, w, h, c, y, w / 2, ch);
  }

  /** Flipping horizontally twice restores the buffer. */
  lemma HFlipInvolution(s: seq<Byte>, w: nat, h: nat, c: nat)
    requires |s| == w * h * c
    ensures HFlipped(HFlipped(s, w, h, c), w, h, c) == s
  {
    var t := HFlipped(s, w, h, c);
    forall k | 0 <= k < |s|
      ensures HFlipped(t, w, h, c)[k] == s[k]
    {
      HMirrorTwice(k, w, h, c);
    }
  }

  /** Byte `k` has been swapped into place once the loops of `ApplyHFlip`
      have passed its row, or its pixel pair in the current row, or its
      channel in the current pixel pair. */
  ghost predicate HDone(k: nat, w: nat, h: nat, c: nat, y: nat, x: nat, ch: nat)
    requires k < w * h * c
  {
    var p := Coords(k, w, h, c);
    var pair := if p.x < w - 1 - p.x then p.x else w - 1 - p.x;
    p.y < y || (p.y == y && (pair < x || (pair == x && p.ch < ch)))
  }

  /** Mirrors each row in place, swapping the left and right pixel of each
      pair channel by channel, rows top to bottom. */
  method ApplyHFlip(img: array<Byte>, w: nat, h: nat, c: nat)
    requires img.Length == w * h * c
    modifies img
    ensures img[..] == HFlipped(old(img[..]), w, h, c)
  {
    ghost var src := img[..];
    ghost var dst := HFlipped(src, w, h, c);
    var y := 0;
    while y < h
      invariant 0 <= y <= h
      invariant forall k :: 0 <= k < img.Length ==>
        img[k] == if HDone(k, w, h, c, y, 0, 0) then dst[k] else src[k]
    {
      var x := 0;
      while x < w / 2
        invariant 0 <= x <= w / 2
        invariant forall k :: 0 <= k < img.Length ==>
          img[k] == if HDone(k, w, h, c, y, x, 0) then dst[k] else src[k]
      {
        var left := (y * w + x) * c;
        var right := (y * w + (w - x - 1)) * c;
        var ch := 0;
        while ch < c
          invariant 0 <= ch <= c
          invariant forall k :: 0 <= k < img.Length ==>
            img[k] == if HDone(k, w, h, c, y, x, ch) then dst[k] else src[k]
        {
          ghost var l, r := Idx(w, c, y, x, ch), Idx(w, c, y, w - 1 - x, ch);
          HFlipSwapStep(src, w, h, c, y, x, ch);
          assert left + ch == l && right + ch == r;
          var tmp := img[left + ch];
          img[left + ch] := img[right + ch];
          img[right + ch] := tmp;
          ch := ch + 1;
        }
        x := x + 1;
      }
      HFlipRowDone(src, w, h, c, y);
      y := y + 1;
    }
    assert img[..] == dst;
  }

  /** What one channel swap of `ApplyHFlip` needs: the two offsets it
      touches, that neither is done yet, that each receives the other's
      byte, and that no other byte changes status. */
  lemma HFlipSwapStep(s: seq<Byte>, w: nat, h: nat, c: nat, y: nat, x: nat, ch: nat)
    requires |s| == w * h * c
    requires y < h && x < w / 2 && ch < c
    ensures var l, r := Idx(w, c, y, x, ch), Idx(w, c, y, w - 1 - x, ch);
      l < |s| && r < |s| && l != r &&
      !HDone(l, w, h, c, y, x, ch) && !HDone(r, w, h, c, y, x, ch) &&
      HDone(l, w, h, c, y, x, ch + 1) && HDone(r, w, h, c, y, x, ch + 1) &&
      HFlipped(s, w, h, c)[l] == s[r] && HFlipped(s, w, h, c)[r] == s[l] &&
      (forall k :: 0 <= k < |s| && k != l && k != r ==>
        HDone(k, w, h, c, y, x, ch + 1) == HDone(k, w, h, c, y, x, ch))
  {
    HFlippedAt(s, w, h, c, y, x, ch);
    HFlippedAt(s, w, h, c, y, w - 1 - x, ch);
    CoordsOfIdx(w, h, c, y, x, ch);
    CoordsOfIdx(w, h, c, y, w - 1 - x, ch);
    forall k | 0 <= k < |s| && k != Idx(w, c, y, x, ch) && k != Idx(w, c, y, w - 1 - x, ch)
      ensures HDone(k, w, h, c, y, x, ch + 1) == HDone(k, w, h, c, y, x, ch)
    {
      HDoneOther(k, w, h, c, y, x, ch);
    }
  }

  /** A byte other than the two being swapped keeps its status. */
  lemma HDoneOther(k: nat, w: nat, h: nat, c: nat, y: nat, x: nat, ch: nat)
    requires k < w * h * c && x < w
    requires k != Idx(w, c, y, x, ch) && k != Idx(w, c, y, w - 1 - x, ch)
    ensures HDone(k, w, h, c, y, x, ch + 1) == HDone(k, w, h, c, y, x, ch)
  {
    var p := Coords(k, w, h, c);
    assert Idx(w, c, p.y, p.x, p.ch) == k;
  }

  /** Finishing the pixel pairs of row `y` finishes the row: the centre
      column of an odd-width row is already in place. */
  lemma HFlipRowDone(s: seq<Byte>, w: nat, h: nat, c: nat, y: nat)
    requires |s| == w * h * c
    ensures forall k :: 0 <= k < |s| ==>
      HDone(k, w, h, c, y, w / 2, 0) == HDone(k, w, h, c, y + 1, 0, 0) ||
      HFlipped(s, w, h, c)[k] == s[k]
  {
    forall k | 0 <= k < |s|
      ensures HDone(k, w, h, c, y, w / 2, 0) == HDone(k, w, h, c, y + 1, 0, 0) ||
              HFlipped(s, w, h, c)[k] == s[k]
    {
      var p := Coords(k, w, h, c);
      if p.y == y && p.x == w - 1 - p.x {
        assert HMirror(k, w, h, c) == k;
      }
    }
  }

  // ---------------------------------------------------------------------
  // Vertical flip
  // ---------------------------------------------------------------------

  /** The byte that lands on byte `k` when the row order is reversed: row
      `h - 1 - y`, same column, same channel. */
  function VMirror(k: nat, w: nat, h: nat, c: nat): (m: nat)
    requires k < w * h * c
    ensures m < w * h * c
    ensures var p := Coords(k, w, h, c);
            Coords(m, w, h, c) == Pos(h - 1 - p.y, p.x, p.ch)
  {
    var p := Coords(k, w, h, c);
    CoordsOfIdx(w, h, c, h - 1 - p.y, p.x, p.ch);
    Idx(w, c, h - 1 - p.y, p.x, p.ch)
  }

  /** Reversing the row order twice gives the position back. */
  lemma VMirrorTwice(k: nat, w: nat, h: nat, c: nat)
    requires k < w * h * c
    ensures VMirror(VMirror(k, w, h, c), w, h, c) == k
  {
    var p := Coords(k, w, h, c);
    var m := VMirror(k, w, h, c);
    assert Coords(m, w, h, c) == Pos(h - 1 - p.y, p.x, p.ch);
  }

  /** The buffer `s` with its rows in reverse order. */
  function VFlipped(s: seq<Byte>, w: nat, h: nat, c: nat): (r: seq<Byte>)
    requires |s| == w * h * c
    ensures |r| == |s|
  {
    seq(|s|, k requires 0 <= k < |s| => s[VMirror(k, w, h, c)])
  }

  /** Offset of byte `i` of row `y`: `y * width * channels + i`. */
  function RowAt(w: nat, c: nat, y: nat, i: nat): nat
  {
    y * w * c + i
  }

  /** Byte `i` of row `y` comes from byte `i` of row `h - 1 - y`. */
  lemma VMirrorRow(w: nat, h: nat, c: nat, y: nat, i: nat)
    requires y < h && i < w * c
    ensures RowAt(w, c, y, i) < w * h * c && RowAt(w, c, h - 1 - y, i) < w * h * c
    ensures VMirror(RowAt(w, c, y, i), w, h, c) == RowAt(w, c, h - 1 - y, i)
  {
    var x, ch := i / c, i % c;
    DivBelow(i, c, w);
    assert Idx(w, c, y, x, ch) == RowAt(w, c, y, i) by {
      assert (y * w + x) * c == y * w * c + x * c;
    }
    assert Idx(w, c, h - 1 - y, x, ch) == RowAt(w, c, h - 1 - y, i) by {
      assert ((h - 1 - y) * w + x) * c == (h - 1 - y) * w * c + x * c;
    }
    CoordsOfIdx(w, h, c, y, x, ch);
    CoordsOfIdx(w, h, c, h - 1 - y, x, ch);
  }

  /** After a vertical flip, row `y` is old row `h - 1 - y`, byte for byte. */
  lemma VFlippedRow(s: seq<Byte>, w: nat, h: nat, c: nat, y: nat, i: nat)
    requires |s| == w * h * c && y < h && i < w * c
    ensures RowAt(w, c, y, i) < |s| && RowAt(w, c, h - 1 - y, i) < |s|
    ensures VFlipped(s, w, h, c)[RowAt(w, c, y, i)] == s[RowAt(w, c, h - 1 - y, i)]
  {
    VMirrorRow(w, h, c, y, i);
  }

  /** After a vertical flip, the pixel at (y, x) holds, in every channel,
      the old pixel at (h - 1 - y, x). */
  lemma VFlippedAt(s: seq<Byte>, w: nat, h: nat, c: nat, y: nat, x: nat, ch: nat)
    requires |s| == w * h * c
    requires y < h && x < w && ch < c
    ensures Idx(w, c, y, x, ch) < |s| && Idx(w, c, h - 1 - y, x, ch) < |s|
    ensures VFlipped(s, w, h, c)[Idx(w, c, y, x, ch)] == s[Idx(w, c, h - 1 - y, x, ch)]
  {
    CoordsOfIdx(w, h, c, y, x, ch);
    CoordsOfIdx(w, h, c, h - 1 - y, x, ch);
  }

  /** Flipping vertically twice restores the buffer. */
  lemma VFlipInvolution(s: seq<Byte>, w: nat, h: nat, c: nat)
    requires |s| == w * h * c
    ensures VFlipped(VFlipped(s, w, h, c), w, h, c) == s
  {
    var t := VFlipped(s, w, h, c);
    forall k | 0 <= k < |s|
      ensures VFlipped(t, w, h, c)[k] == s[k]
    {
      VMirrorTwice(k, w, h, c);
    }
  }

  /** The two flips commute: either order turns the buffer by 180 degrees. */
  lemma FlipsCommute(s: seq<Byte>, w: nat, h: nat, c: nat)
    requires |s| == w * h * c
    ensures HFlipped(VFlipped(s, w, h, c), w, h, c) == VFlipped(HFlipped(s, w, h, c), w, h, c)
  {
    forall k | 0 <= k < |s|
      ensures HFlipped(VFlipped(s, w, h, c), w, h, c)[k] == VFlipped(HFlipped(s, w, h, c), w, h, c)[k]
    {
      var a := VMirror(HMirror(k, w, h, c), w, h, c);
      var b := HMirror(VMirror(k, w, h, c), w, h, c);
      assert Idx(w, c, Coords(a, w, h, c).y, Coords(a, w, h, c).x, Coords(a, w, h, c).ch) == a;
      assert Idx(w, c, Coords(b, w, h, c).y, Coords(b, w, h, c).x, Coords(b, w, h, c).ch) == b;
    }
  }

  /** Copies the rows bottom-up into a scratch buffer, then copies the
      scratch buffer back over `img`. */
  method ApplyVFlip(img: array<Byte>, w: nat, h: nat, c: nat)
    requires img.Length == w * h * c
    modifies img
    ensures img[..] == VFlipped(old(img[..]), w, h, c)
  {
    ghost var src := img[..];
    var flipped := new Byte[w * h * c];
    var y := 0;
    while y < h
      modifies flipped
      invariant 0 <= y <= h
      invariant RowAt(w, c, y, 0) <= w * h * c
      invariant forall k :: 0 <= k < RowAt(w, c, y, 0) ==> flipped[k] == src[VMirror(k, w, h, c)]
    {
      var srcY := h - y - 1;
      forall i | 0 <= i < w * c
        ensures RowAt(w, c, y, i) < w * h * c && RowAt(w, c, srcY, i) < w * h * c
        ensures VMirror(RowAt(w, c, y, i), w, h, c) == RowAt(w, c, srcY, i)
      {
        VMirrorRow(w, h, c, y, i);
      }
      forall i | 0 <= i < w * c {
        flipped[RowAt(w, c, y, i)] := img[RowAt(w, c, srcY, i)];
      }
      NextRow(w, h, c, y);
      forall k | RowAt(w, c, y, 0) <= k < RowAt(w, c, y + 1, 0)
        ensures flipped[k] == src[VMirror(k, w, h, c)]
      {
        var i := k - RowAt(w, c, y, 0);
        assert k == RowAt(w, c, y, i);
      }
      y := y + 1;
    }
    MulAssoc(h, w, c);
    SwapOuter(w, h, c);
    assert RowAt(w, c, h, 0) == w * h * c;
    forall i | 0 <= i < w * h * c {
      img[i] := flipped[i];
    }
    assert img[..] == VFlipped(src, w, h, c);
  }

  /** Row `y + 1` starts where row `y` ends, and no later than the end of
      the buffer. */
  lemma NextRow(w: nat, h: nat, c: nat, y: nat)
    requires y < h
    ensures RowAt(w, c, y + 1, 0) == RowAt(w, c, y, w * c) <= w * h * c
  {
    MulAssoc(y + 1, w, c);
    MulAssoc(y, w, c);
    MulDistrib(y, 1, w * c);
    MulMono(y + 1, h, w * c);
    SwapOuter(w, h, c);
  }
}
