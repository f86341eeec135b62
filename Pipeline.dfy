/** The per-image body of the batch loop in `main` of main0.c, from the
    decoded buffer to the buffer handed to the writer: the colour stage
    (grayscale or sepia, into a new buffer), then the horizontal and the
    vertical flip, in place on whichever buffer is current. */
module Pipeline {
  import opened Layout
  import opened Flips
  import opened Grayscale
  import opened Selection

  // ---------------------------------------------------------------------
  // Whether the colour stage runs
  // ---------------------------------------------------------------------

  /** The colour stage as written: it runs whenever greyscale or sepia is
      selected, whatever the number of channels. */
  predicate RecoloursAsWritten(ops: OperationSet)
  {
    ops.greyscale || ops.sepia
  }

  /** As written, greyscale on a one- or two-channel image reads the blue
      byte of the last pixel beyond the end of the decoded buffer
      (and sepia writes beyond the end of its output buffer the same way). */
  lemma ColourStageOverrunsAsWritten(ops: OperationSet, n: nat, c: nat)
    requires ops.greyscale && n >= 1 && (c == 1 || c == 2)
    ensures RecoloursAsWritten(ops)
    ensures PixelOff(n - 1, c, 2) >= n * c
  {
  }

  /** The colour stage as intended: only for RGB and RGBA images. */
  predicate Recolours(ops: OperationSet, c: nat)
  {
    (ops.greyscale || ops.sepia) && c >= 3
  }

  /** With that guard every byte the colour stage reads lies inside the
      buffer. */
  lemma RecolourReadsInBounds(ops: OperationSet, n: nat, c: nat, i: nat)
    requires Recolours(ops, c) && c <= 4 && i < n
    ensures PixelOff(i, c, 2) < n * c
  {
    MulMono(i + 1, n, c);
  }

  /** The channel count of the buffer handed to the writer. */
  function OutputChannels(ops: OperationSet, c: nat): (oc: nat)
    requires 1 <= c <= 4
    ensures 1 <= oc <= c
    ensures oc != c ==> ops.greyscale && Recolours(ops, c)
    ensures ops.greyscale && c == 4 ==> oc == 2
    ensures ops.greyscale && c == 3 ==> oc == 1
  {
    if ops.greyscale && c >= 3 then GrayChannels(c) else c
  }

  // ---------------------------------------------------------------------
  // The stages composed
  // ---------------------------------------------------------------------

  /** The selected flips, horizontal first, applied to a `w` x `h` buffer
      with `c` channels. */
  function Flipped(t: seq<Byte>, w: nat, h: nat, c: nat, hflip: bool, vflip: bool): (r: seq<Byte>)
    requires |t| == w * h * c
    ensures |r| == |t|
  {
    var mirrored := if hflip then HFlipped(t, w, h, c) else t;
    if vflip then VFlipped(mirrored, w, h, c) else mirrored
  }

  /** The flips move the pixel at (sy, sx) to (y, x), where each
      coordinate is mirrored exactly when its flip is selected. */
  lemma FlippedAt(t: seq<Byte>, w: nat, h: nat, c: nat, hflip: bool, vflip: bool, y: nat, x: nat, ch: nat)
    requires |t| == w * h * c && y < h && x < w && ch < c
    ensures var sy := if vflip then h - 1 - y else y;
            var sx := if hflip then w - 1 - x else x;
            Idx(w, c, y, x, ch) < |t| && Idx(w, c, sy, sx, ch) < |t| &&
            Flipped(t, w, h, c, hflip, vflip)[Idx(w, c, y, x, ch)] == t[Idx(w, c, sy, sx, ch)]
  {
    var sy := if vflip then h - 1 - y else y;
    var mirrored := if hflip then HFlipped(t, w, h, c) else t;
    CoordsOfIdx(w, h, c, y, x, ch);
    CoordsOfIdx(w, h, c, sy, x, ch);
    if vflip { VFlippedAt(mirrored, w, h, c, y, x, ch); }
    if hflip { HFlippedAt(t, w, h, c, sy, x, ch); }
  }

  /** The buffer handed to the writer, for a decoded `w` x `h` buffer `s`
      with `c` channels. `sepia` is what the sepia filter makes of `s`; it
      is computed in floating point and is an input here. */
  function Processed(s: seq<Byte>, w: nat, h: nat, c: nat, ops: OperationSet, sepia: seq<Byte>): (r: seq<Byte>)
    requires 1 <= c <= 4 && |s| == w * h * c && |sepia| == |s|
    ensures |r| == w * h * OutputChannels(ops, c)
  {
    var coloured :=
      if Recolours(ops, c) then (if ops.greyscale then Grayscaled(s, w * h, c) else sepia)
      else s;
    Flipped(coloured, w, h, OutputChannels(ops, c), ops.hflip, ops.vflip)
  }

  /** End to end with greyscale: the gray value at (y, x) of the written
      buffer is the gray value of the decoded pixel that the selected flips
      move to (y, x). */
  lemma ProcessedGrayPixel(s: seq<Byte>, w: nat, h: nat, c: nat, ops: OperationSet, sepia: seq<Byte>, y: nat, x: nat)
    requires (c == 3 || c == 4) && |s| == w * h * c && |sepia| == |s|
    requires ops.greyscale && y < h && x < w
    ensures var sy := if ops.vflip then h - 1 - y else y;
            var sx := if ops.hflip then w - 1 - x else x;
            var oc := GrayChannels(c);
            Idx(w, oc, y, x, 0) < w * h * oc && Idx(w, c, sy, sx, c - 1) < |s| &&
            Processed(s, w, h, c, ops, sepia)[Idx(w, oc, y, x, 0)] == GrayOf(s, sy * w + sx, c)
  {
    var oc := GrayChannels(c);
    var gray := Grayscaled(s, w * h, c);
    var sy := if ops.vflip then h - 1 - y else y;
    var sx := if ops.hflip then w - 1 - x else x;
    var i := sy * w + sx;
    CoordsOfIdx(w, h, c, sy, sx, c - 1);
    assert i < w * h by {
      MulMono(sy + 1, h, w);
    }
    GrayscaleAt(s, w * h, c, i);
    assert Processed(s, w, h, c, ops, sepia) == Flipped(gray, w, h, oc, ops.hflip, ops.vflip);
    assert Idx(w, oc, sy, sx, 0) == PixelOff(i, oc, 0);
    FlippedAt(gray, w, h, oc, ops.hflip, ops.vflip, y, x, 0);
  }

  /** End to end with greyscale on RGBA input: the alpha at (y, x) of the
      written buffer is the alpha of the decoded pixel that the selected
      flips move to (y, x). */
  lemma ProcessedAlphaPixel(s: seq<Byte>, w: nat, h: nat, ops: OperationSet, sepia: seq<Byte>, y: nat, x: nat)
    requires |s| == w * h * 4 && |sepia| == |s|
    requires ops.greyscale && y < h && x < w
    ensures var sy := if ops.vflip then h - 1 - y else y;
            var sx := if ops.hflip then w - 1 - x else x;
            Idx(w, 2, y, x, 1) < w * h * 2 && Idx(w, 4, sy, sx, 3) < |s| &&
            Processed(s, w, h, 4, ops, sepia)[Idx(w, 2, y, x, 1)] == s[Idx(w, 4, sy, sx, 3)]
  {
    var gray := Grayscaled(s, w * h, 4);
    var sy := if ops.vflip then h - 1 - y else y;
    var sx := if ops.hflip then w - 1 - x else x;
    var i := sy * w + sx;
    CoordsOfIdx(w, h, 4, sy, sx, 3);
    assert i < w * h by {
      MulMono(sy + 1, h, w);
    }
    GrayscaleAt(s, w * h, 4, i);
    assert Processed(s, w, h, 4, ops, sepia) == Flipped(gray, w, h, 2, ops.hflip, ops.vflip);
    assert Idx(w, 2, sy, sx, 1) == PixelOff(i, 2, 1);
    assert Idx(w, 4, sy, sx, 3) == PixelOff(i, 4, 3);
    FlippedAt(gray, w, h, 2, ops.hflip, ops.vflip, y, x, 1);
  }

  /** Without a colour operation the written buffer has the decoded
      channel count, and with no operation at all it is the decoded
      buffer. */
  lemma ProcessedWithoutColour(s: seq<Byte>, w: nat, h: nat, c: nat, ops: OperationSet, sepia: seq<Byte>)
    requires 1 <= c <= 4 && |s| == w * h * c && |sepia| == |s|
    requires !ops.greyscale && !ops.sepia
    ensures OutputChannels(ops, c) == c
    ensures !ops.hflip && !ops.vflip ==> Processed(s, w, h, c, ops, sepia) == s
  {
  }

  /** With only flips selected, processing the written buffer again gives
      back the decoded one. */
  lemma FlipsOnlyUndo(s: seq<Byte>, w: nat, h: nat, c: nat, ops: OperationSet, sepia: seq<Byte>)
    requires 1 <= c <= 4 && |s| == w * h * c && |sepia| == |s|
    requires !ops.greyscale && !ops.sepia
    ensures var t := Processed(s, w, h, c, ops, sepia);
            Processed(t, w, h, c, ops, sepia) == s
  {
    var hs := HFlipped(s, w, h, c);
    HFlipInvolution(s, w, h, c);
    VFlipInvolution(s, w, h, c);
    assert OutputChannels(ops, c) == c;
    if ops.hflip && ops.vflip {
      var t := VFlipped(hs, w, h, c);
      calc {
        VFlipped(HFlipped(t, w, h, c), w, h, c);
        { FlipsCommute(t, w, h, c); }
        HFlipped(VFlipped(t, w, h, c), w, h, c);
        { VFlipInvolution(hs, w, h, c); }
        HFlipped(hs, w, h, c);
      }
    }
  }

  /** One image's processing, as `main` does it between decoding and
      writing. The colour stage allocates a new buffer; the flips then work
      in place on whichever buffer is current, so without a colour stage
      they change the decoded buffer itself. `sepia` stands for the output
      of the floating-point sepia filter. */
  method ProcessImage(img: array<Byte>, w: nat, h: nat, c: nat, ops: OperationSet, sepia: seq<Byte>)
    returns (out: array<Byte>, oc: nat)
    requires 1 <= c <= 4 && img.Length == w * h * c && |sepia| == img.Length
    modifies img
    ensures oc == OutputChannels(ops, c)
    ensures out.Length == w * h * oc
    ensures out[..] == Processed(old(img[..]), w, h, c, ops, sepia)
    ensures !Recolours(ops, c) ==> out == img
    ensures Recolours(ops, c) ==> fresh(out) && img[..] == old(img[..])
  {
    out := img;
    oc := c;
    if ops.greyscale && c >= 3 {
      oc := GrayChannels(c);
      var grayImg := new Byte[w * h * oc];
      ApplyGrayscale(img, grayImg, w, h, c, oc);
      out := grayImg;
    } else if ops.sepia && c >= 3 {
      var sepiaImg := new Byte[w * h * c];
      forall i | 0 <= i < w * h * c {
        sepiaImg[i] := sepia[i];
      }
      out := sepiaImg;
    }
    ghost var coloured := out[..];
    if ops.hflip {
      ApplyHFlip(out, w, h, oc);
    }
    if ops.vflip {
      ApplyVFlip(out, w, h, oc);
    }
  }
}
