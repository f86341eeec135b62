/** Choosing the output writer from the image's file name
    (`get_filename_ext` and the end of the per-image loop in main0.c). */
module Output {

  datatype Option<T> = None | Some(value: T)

  /** The index of the last `ch` in `s`, as `strrchr` finds it. */
  function LastIndexOf(s: string, ch: char): (r: Option<nat>)
    ensures r.Some? ==> r.value < |s| && s[r.value] == ch
    ensures r.Some? ==> forall j :: r.value < j < |s| ==> s[j] != ch
    ensures r.None? ==> forall j :: 0 <= j < |s| ==> s[j] != ch
  {
    if |s| == 0 then None
    else if s[|s| - 1] == ch then Some(|s| - 1)
    else LastIndexOf(s[..|s| - 1], ch)
  }

  /** A dot somewhere after the first character. */
  predicate HasInnerDot(name: string)
  {
    exists j :: 0 < j < |name| && name[j] == '.'
  }

  /** The text after the last dot of `name`; empty when there is no dot or
      the only dot is the first character. */
  function FileExtension(name: string): (ext: string)
    ensures |ext| < |name| || ext == ""
    ensures ext == name[|name| - |ext|..]
    ensures '.' !in ext
    ensures !HasInnerDot(name) ==> ext == ""
    ensures HasInnerDot(name) ==> |name| - |ext| >= 2 && name[|name| - |ext| - 1] == '.'
  {
    match LastIndexOf(name, '.')
    case None => ""
    case Some(i) => if i == 0 then "" else name[i + 1..]
  }

  /** Joining a non-empty base name, a dot and a dot-free extension gives a
      name whose extension is that extension. */
  lemma ExtensionOfJoined(base: string, ext: string)
    requires base != "" && '.' !in ext
    ensures FileExtension(base + "." + ext) == ext
  {
    var name := base + "." + ext;
    assert name[|base|] == '.';
    assert HasInnerDot(name);
  }

  /** The writers the program can call. */
  datatype Format = Png | Jpeg | NoOutput

  /** The writer for an extension: exact, case-sensitive comparison with
      "png", "jpg" and "jpeg". */
  function FormatFor(ext: string): (f: Format)
    ensures f == Png <==> ext == "png"
    ensures f == Jpeg <==> ext == "jpg" || ext == "jpeg"
    ensures f == NoOutput <==> ext !in {"png", "jpg", "jpeg"}
  {
    if ext == "png" then Png
    else if ext == "jpg" || ext == "jpeg" then Jpeg
    else NoOutput
  }

  /** A writer call with its arguments: PNG takes the row stride in bytes,
      JPEG a quality. */
  datatype WriteCall =
    | WritePng(width: nat, height: nat, comp: nat, strideBytes: nat)
    | WriteJpg(width: nat, height: nat, comp: nat, quality: nat)
    | NoWrite

  /** The JPEG quality the program always asks for. */
  const JpegQuality: nat := 100

  /** The call made for an image named `name` whose processed buffer is
      `w` x `h` with `oc` channels. */
  function WriteFor(name: string, w: nat, h: nat, oc: nat): (call: WriteCall)
    ensures call.NoWrite? <==> FormatFor(FileExtension(name)) == NoOutput
    ensures call.WritePng? <==> FormatFor(FileExtension(name)) == Png
    ensures !call.NoWrite? ==> call.width == w && call.height == h && call.comp == oc
    ensures call.WritePng? ==> call.strideBytes == w * oc
    ensures call.WriteJpg? ==> call.quality == 100
  {
    match FormatFor(FileExtension(name))
    case Png => WritePng(w, h, oc, w * oc)
    case Jpeg => WriteJpg(w, h, oc, JpegQuality)
    case NoOutput => NoWrite
  }

  /** The writer of a name is decided by the text after its last dot. */
  lemma WriteForJoined(base: string, ext: string, w: nat, h: nat, oc: nat)
    requires base != "" && '.' !in ext
    ensures WriteFor(base + "." + ext, w, h, oc) ==
      match FormatFor(ext)
      case Png => WritePng(w, h, oc, w * oc)
      case Jpeg => WriteJpg(w, h, oc, 100)
      case NoOutput => NoWrite
  {
    ExtensionOfJoined(base, ext);
  }

  /** Appending a suffix that is a dot and an extension is appending the dot,
      then the extension. */
  lemma JoinedWithDot(base: string, ext: string, suffix: string)
    requires suffix == "." + ext
    ensures base + suffix == base + "." + ext
  {
    assert base + suffix == base + ("." + ext);
  }

  /** A name ending in ".png" gets the PNG writer with a tightly packed row
      stride. */
  lemma WriterOfPngName(base: string, w: nat, h: nat, oc: nat)
    requires base != ""
    ensures WriteFor(base + ".png", w, h, oc) == WritePng(w, h, oc, w * oc)
  {
    WriteForJoined(base, "png", w, h, oc);
    JoinedWithDot(base, "png", ".png");
  }

  /** The comparison is case-sensitive: a name ending in ".PNG" gets no
      writer at all. */
  lemma WriterOfUpperPngName(base: string, w: nat, h: nat, oc: nat)
    requires base != ""
    ensures WriteFor(base + ".PNG", w, h, oc) == NoWrite
  {
    assert "PNG"[0] != "png"[0] && "PNG"[0] != "jpg"[0] && "PNG"[0] != "jpeg"[0];
    assert FormatFor("PNG") == NoOutput;
    WriteForJoined(base, "PNG", w, h, oc);
    JoinedWithDot(base, "PNG", ".PNG");
  }

  /** A name ending in ".jpg" or ".jpeg" gets the JPEG writer at quality
      100. */
  lemma WriterOfJpegNames(base: string, ext: string, w: nat, h: nat, oc: nat)
    requires base != "" && (ext == "jpg" || ext == "jpeg")
    ensures WriteFor(base + "." + ext, w, h, oc) == WriteJpg(w, h, oc, 100)
  {
    assert '.' !in ext;
    WriteForJoined(base, ext, w, h, oc);
  }
}
