/**
 * The file preview endpoint of the server (preview_file in app.py): images
 * and PDFs as base64 data under their size limits, otherwise the first
 * 64 KiB as text unless a NUL byte marks the file as binary; and how the
 * client's choice of what to preview agrees with the server's.
 */
module FilePreview {
  import opened Wrappers
  import opened Text
  import opened Entries
  import opened Paths
  import opened Columns

  // ------------------------------------------------------------ extensions

  /**
   * `posixpath.splitext(p)[1]`: from the last dot on, when that dot comes
   * after the last `/` and a character other than a dot lies between them;
   * "" otherwise (no dot, or a name made of leading dots).
   */
  function SplitExt(p: string): (r: string)
  {
    var sep := LastIndexOf(p, '/');
    var dot := LastIndexOf(p, '.');
    if dot > sep && !AllDots(p[sep + 1..dot]) then p[dot..] else ""
  }

  predicate AllDots(s: string) {
    forall i :: 0 <= i < |s| ==> s[i] == '.'
  }

  const ImageExtensions: set<string> := {".png", ".jpg", ".jpeg", ".gif", ".webp", ".bmp", ".ico", ".svg"}

  /** `IMAGE_MIME.get(ext, "application/octet-stream")`. */
  function ImageMime(ext: string): string {
    if ext == ".png" then "image/png"
    else if ext == ".jpg" || ext == ".jpeg" then "image/jpeg"
    else if ext == ".gif" then "image/gif"
    else if ext == ".webp" then "image/webp"
    else if ext == ".bmp" then "image/bmp"
    else if ext == ".ico" then "image/x-icon"
    else if ext == ".svg" then "image/svg+xml"
    else "application/octet-stream"
  }

  /** Every image extension has an image MIME type of its own. */
  lemma {:induction false} ImageMimeKnown(ext: string)
    requires ext in ImageExtensions
    ensures ImageMime(ext) != "application/octet-stream"
    ensures |ImageMime(ext)| > 6 && ImageMime(ext)[..6] == "image/"
  {
  }

  // ------------------------------------------------------------ the endpoint

  const MaxImage: int := 5 * MiB
  const MaxPdf: int := 10 * MiB
  /** How much of a text file is read: 64 KiB. */
  const MaxText: int := 64 * 1024
  /** How much of what was read is searched for a NUL byte. */
  const BinaryProbe: int := 8192

  /** The outcome of an SFTP call: its value, or one of the errors the endpoint tells apart. */
  datatype Io<T> = Done(value: T) | Denied | Missing | Failed(message: string)

  /** What the endpoint answers; `TooLarge` is an ordinary reply that carries an error. */
  datatype PreviewReply =
    | Refused(status: int, message: string)
    | TooLarge(message: string)
    | ImageData(data: string, mime: string, size: int)
    | PdfData(data: string, size: int)
    | Binary(size: int)
    | TextData(content: string, truncated: bool, size: int)

  /** `f.read(n)`: at most the first `n` bytes. */
  function Prefix(bytes: seq<bv8>, n: nat): (r: seq<bv8>)
    ensures |r| <= n && |r| <= |bytes| && r == bytes[..|r|]
    ensures |bytes| >= n ==> |r| == n
  {
    if |bytes| <= n then bytes else bytes[..n]
  }

  function IoError<T>(io: Io<T>, path: string): PreviewReply
    requires !io.Done?
  {
    match io
    case Denied => Refused(403, "Permission denied")
    case Missing => Refused(404, "Not found: " + path)
    case Failed(m) => Refused(400, m)
  }

  /**
   * preview_file for `path`: `stat` is the size the server reports (None
   * or 0 read as 0), `read` the file's bytes; `base64` and `utf8` stand for
   * `base64.b64encode(...).decode("ascii")` and `decode("utf-8", errors="replace")`.
   */
  function PreviewFile(connected: bool, path: string, stat: Io<Option<int>>, read: Io<seq<bv8>>,
                       base64: seq<bv8> -> string, utf8: seq<bv8> -> string): PreviewReply
  {
    if !connected then Refused(400, "Not connected")
    else if path == "" then Refused(400, "path is required")
    else if !stat.Done? then IoError(stat, path)
    else
      var size := if stat.value.Some? && stat.value.value != 0 then stat.value.value else 0;
      var ext := Lower(SplitExt(path));
      if ext in ImageExtensions then
        if size > MaxImage then TooLarge("Image too large to preview")
        else if !read.Done? then IoError(read, path)
        else ImageData(base64(Prefix(read.value, MaxImage)), ImageMime(ext), size)
      else if ext == ".pdf" then
        if size > MaxPdf then TooLarge("PDF too large to preview")
        else if !read.Done? then IoError(read, path)
        else PdfData(base64(Prefix(read.value, MaxPdf)), size)
      else if !read.Done? then IoError(read, path)
      else
        var raw := Prefix(read.value, MaxText);
        if 0 in Prefix(raw, BinaryProbe) then Binary(size)
        else TextData(utf8(raw), size > MaxText, size)
  }

  /**
   * The classification of a file the server can stat and read: by the
   * extension of its path, images over 5 MiB and PDFs over 10 MiB are
   * refused with an error, others come back as data; any other file is
   * binary exactly when a NUL byte lies in its first 8192 bytes, and
   * otherwise its first 64 KiB come back as text, truncated exactly when the
   * file is larger than that.
   */
  lemma {:induction false} PreviewClassification(path: string, size: int, bytes: seq<bv8>,
                              base64: seq<bv8> -> string, utf8: seq<bv8> -> string)
    requires path != "" && size >= 0
    ensures var r := PreviewFile(true, path, Done(Some(size)), Done(bytes), base64, utf8);
      var ext := Lower(SplitExt(path));
      && (ext in ImageExtensions ==>
            (r.TooLarge? <==> size > MaxImage) && (!r.TooLarge? ==> r.ImageData? && r.mime == ImageMime(ext)))
      && (ext == ".pdf" ==> (r.TooLarge? <==> size > MaxPdf) && (!r.TooLarge? ==> r.PdfData?))
      && (ext !in ImageExtensions && ext != ".pdf" ==>
            && (r.Binary? <==> exists i :: 0 <= i < |bytes| && i < BinaryProbe && bytes[i] == 0)
            && (r.TextData? <==> !r.Binary?)
            && (r.TextData? ==> r.content == utf8(Prefix(bytes, MaxText)) && (r.truncated <==> size > MaxText)))
  {
    var ext := Lower(SplitExt(path));
    if ext !in ImageExtensions && ext != ".pdf" {
      ProbeFindsNul(bytes);
    }
  }

  /** A NUL byte lies in the probed part of what was read exactly when one lies in the file's first 8192 bytes. */
  lemma {:induction false} ProbeFindsNul(bytes: seq<bv8>)
    ensures 0 in Prefix(Prefix(bytes, MaxText), BinaryProbe)
      <==> exists i :: 0 <= i < |bytes| && i < BinaryProbe && bytes[i] == 0
  {
    var probe := Prefix(Prefix(bytes, MaxText), BinaryProbe);
    assert |probe| == if |bytes| < BinaryProbe then |bytes| else BinaryProbe;
    assert forall i :: 0 <= i < |probe| ==> probe[i] == bytes[i];
    if exists i :: 0 <= i < |bytes| && i < BinaryProbe && bytes[i] == 0 {
      var i :| 0 <= i < |bytes| && i < BinaryProbe && bytes[i] == 0;
      assert probe[i] == 0;
    }
  }

  /**
   * The error answers: 400 without a connection or a path; a failed stat
   * answers 403, 404 or 400 with the exception's text; a failed read does
   * too unless the file was already refused as too large; and a refusal
   * comes from nothing else.
   */
  lemma {:induction false} PreviewFailures(connected: bool, path: string, stat: Io<Option<int>>, read: Io<seq<bv8>>,
                      base64: seq<bv8> -> string, utf8: seq<bv8> -> string)
    ensures var r := PreviewFile(connected, path, stat, read, base64, utf8);
      && (!connected ==> r == Refused(400, "Not connected"))
      && (connected && path == "" ==> r == Refused(400, "path is required"))
      && (connected && path != "" && stat.Denied? ==> r == Refused(403, "Permission denied"))
      && (connected && path != "" && stat.Missing? ==> r == Refused(404, "Not found: " + path))
      && (connected && path != "" && stat.Failed? ==> r == Refused(400, stat.message))
      && (connected && path != "" && stat.Done? && !read.Done? ==> r.TooLarge? || r == IoError(read, path))
      && (r.Refused? ==> !connected || path == "" || !stat.Done? || !read.Done?)
  {
    if connected && path != "" && stat.Done? {
      var ext := Lower(SplitExt(path));
      if ext in ImageExtensions {
      } else if ext == ".pdf" {
      } else {
      }
    }
  }

  /** What the JSON of a reply says to the client. */
  function ToJson(r: PreviewReply): PreviewJson {
    match r
    case Refused(_, m) => PreviewJson(Some(m), false, false, false, None, None, None, None)
    case TooLarge(m) => PreviewJson(Some(m), false, false, false, None, None, None, None)
    case ImageData(d, mime, _) => PreviewJson(None, false, true, false, Some(d), Some(mime), None, None)
    case PdfData(d, _) => PreviewJson(None, true, false, false, Some(d), None, None, None)
    case Binary(_) => PreviewJson(None, false, false, true, None, None, None, None)
    case TextData(c, t, _) => PreviewJson(None, false, false, false, None, None, Some(c), Some(t))
  }

  /**
   * The client files each reply under the right kind: an error message, an
   * image with its data and type, a PDF with its data, a binary marker, or
   * text with its truncation flag.
   */
  lemma {:induction false} ClientReadsReply(path: string, name: string, r: PreviewReply)
    ensures var p := ApplyPreviewJson(EmptyPreview(path, name), ToJson(r));
      && p.loaded
      && ((r.Refused? || r.TooLarge?) && r.message != "" ==> p.error == Some(r.message) && !p.image && !p.pdf)
      && (r.ImageData? ==> p.image && p.imageData == Some(r.data) && p.imageMime == Some(r.mime) && p.error.None?)
      && (r.PdfData? ==> p.pdf && p.pdfData == Some(r.data) && !p.image && p.error.None?)
      && (r.Binary? ==> p.binary && !p.image && !p.pdf && p.error.None?)
      && (r.TextData? ==> p.content == Some(r.content) && p.truncated == Some(r.truncated) && !p.binary)
  {
  }

  // ------------------------------------------------------------ client and server agree

  /** The last `c` of `s` is at `k` when `s[k]` is one and none follows. */
  lemma {:induction false} LastIndexOfIs(s: string, c: char, k: int)
    requires 0 <= k < |s| && s[k] == c && c !in s[k + 1..]
    ensures LastIndexOf(s, c) == k
  {
    LastIndexOfAtLeast(s, c, k);
    forall i | k < i < |s|
      ensures s[i] != c
    {
      assert s[i] == s[k + 1..][i - k - 1];
    }
  }

  lemma {:induction false} SlicesOf(prefix: string, stem: string, ext: string)
    ensures var p := prefix + stem + "." + ext;
      && p[..|prefix|] == prefix
      && p[|prefix|..] == stem + "." + ext
      && p[|prefix|..|prefix| + |stem|] == stem
      && p[|prefix| + |stem|..] == "." + ext
      && p[|prefix| + |stem| + 1..] == ext
  {
  }

  lemma {:induction false} SlashAt(prefix: string, stem: string, ext: string)
    requires prefix != "" && prefix[|prefix| - 1] == '/'
    requires '/' !in stem && '/' !in ext
    ensures LastIndexOf(prefix + stem + "." + ext, '/') == |prefix| - 1
  {
    var p := prefix + stem + "." + ext;
    SlicesOf(prefix, stem, ext);
    assert '/' !in stem + "." + ext;
    LastIndexOfIs(p, '/', |prefix| - 1);
  }

  lemma {:induction false} DotAt(prefix: string, stem: string, ext: string)
    requires '.' !in ext
    ensures LastIndexOf(prefix + stem + "." + ext, '.') == |prefix| + |stem|
  {
    var p := prefix + stem + "." + ext;
    SlicesOf(prefix, stem, ext);
    LastIndexOfIs(p, '.', |prefix| + |stem|);
  }

  /** The extension of a path whose last segment is `stem.ext` is `.ext`, when the stem is not all dots. */
  lemma {:induction false} SplitExtOf(prefix: string, stem: string, ext: string)
    requires prefix != "" && prefix[|prefix| - 1] == '/'
    requires '/' !in stem && '/' !in ext && '.' !in ext
    requires !AllDots(stem)
    ensures SplitExt(prefix + stem + "." + ext) == "." + ext
  {
    SlicesOf(prefix, stem, ext);
    SlashAt(prefix, stem, ext);
    DotAt(prefix, stem, ext);
  }

  lemma {:induction false} LowerDotted(ext: string)
    ensures Lower("." + ext) == "." + Lower(ext)
  {
  }

  /**
   * The server's extension of the path the client builds for
   * `stem.ext` in `dir` is the dotted, lower-cased `ext`, as long as the stem
   * holds a character other than a dot.
   */
  lemma {:induction false} ServerExtensionOfChild(dir: string, stem: string, ext: string)
    requires '/' !in stem && '/' !in ext && '.' !in ext
    requires !AllDots(stem)
    ensures Lower(SplitExt(JoinChild(dir, stem + "." + ext))) == "." + Lower(ext)
  {
    var prefix := if dir == "/" then "/" else dir + "/";
    assert JoinChild(dir, stem + "." + ext) == prefix + stem + "." + ext;
    SplitExtOf(prefix, stem, ext);
    LowerDotted(ext);
  }

  /** The image extensions without their dot. */
  const ImageSuffixes: set<string> := {"png", "jpg", "jpeg", "gif", "webp", "bmp", "ico", "svg"}

  lemma {:induction false} DottedImage(l: string)
    ensures "." + l in ImageExtensions <==> l in ImageSuffixes
    ensures "." + l == ".pdf" <==> l == "pdf"
  {
    var d := "." + l;
    assert d[1..] == l;
    assert forall x :: x in ImageExtensions ==> |x| >= 1 && x[1..] in ImageSuffixes && x == "." + x[1..];
    assert ".pdf"[1..] == "pdf";
  }

  /** The client's suffix test on `stem.ext` holds for a dotless `e` exactly when `ext` is `e` up to case. */
  lemma {:induction false} EndsWithDotted(stem: string, ext: string, e: string)
    requires '.' !in ext && '.' !in e
    ensures EndsWithExtension(stem + "." + ext, e) <==> Lower(ext) == e
  {
    var name := stem + "." + ext;
    if |ext| == |e| {
      assert name[|name| - |e| - 1] == '.';
      assert name[|name| - |e|..] == ext;
    } else if |ext| > |e| {
      assert name[|name| - |e| - 1] == ext[|ext| - |e| - 1];
    } else if |name| > |e| {
      var tail := name[|name| - |e|..];
      assert tail[|stem| - (|name| - |e|)] == '.';
      LowerKeepsDots(tail);
    }
  }

  /** The client's image and PDF tests on such a name agree with the server's extension tests. */
  lemma {:induction false} ClientImageTest(stem: string, ext: string)
    requires '.' !in ext
    ensures IsImageName(stem + "." + ext) <==> Lower(ext) in ImageSuffixes
  {
    EndsWithDotted(stem, ext, "png");
    EndsWithDotted(stem, ext, "jpg");
    EndsWithDotted(stem, ext, "jpeg");
    EndsWithDotted(stem, ext, "gif");
    EndsWithDotted(stem, ext, "webp");
    EndsWithDotted(stem, ext, "bmp");
    EndsWithDotted(stem, ext, "ico");
    EndsWithDotted(stem, ext, "svg");
  }

  lemma {:induction false} ClientServerAgree(dir: string, stem: string, ext: string)
    requires '/' !in stem && '/' !in ext && '.' !in ext
    requires !AllDots(stem)
    ensures var serverExt := Lower(SplitExt(JoinChild(dir, stem + "." + ext)));
      && (IsImageName(stem + "." + ext) <==> serverExt in ImageExtensions)
      && (IsPdfName(stem + "." + ext) <==> serverExt == ".pdf")
  {
    ServerExtensionOfChild(dir, stem, ext);
    DottedImage(Lower(ext));
    ClientImageTest(stem, ext);
    EndsWithDotted(stem, ext, "pdf");
  }

  /**
   * A file the client asks to preview (its size within the client's limit
   * for its name) is never refused as too large by the server.
   */
  lemma {:induction false} RequestedPreviewNotTooLarge(dir: string, stem: string, ext: string, size: int, read: Io<seq<bv8>>,
                                    base64: seq<bv8> -> string, utf8: seq<bv8> -> string)
    requires '/' !in stem && '/' !in ext && '.' !in ext
    requires !AllDots(stem)
    requires 0 <= size <= MaxPreviewSize(stem + "." + ext)
    ensures !PreviewFile(true, JoinChild(dir, stem + "." + ext), Done(Some(size)), read, base64, utf8).TooLarge?
  {
    ClientServerAgree(dir, stem, ext);
  }

  /**
   * Where the two disagree: a hidden file named `.png` is an image to the
   * client, which allows it 5 MiB, while the server finds no extension and
   * reads it as text.
   */
  lemma {:induction false} HiddenImageNameIsText()
    ensures IsImageName(".png")
    ensures SplitExt(JoinChild("/home", ".png")) == ""
  {
    ClientSeesImage();
    ServerSeesNoExtension();
  }

  lemma {:induction false} ClientSeesImage()
    ensures IsImageName(".png")
  {
    ClientImageTest("", "png");
    assert "" + "." + "png" == ".png";
    assert Lower("png") == "png";
  }

  lemma {:induction false} ServerSeesNoExtension()
    ensures SplitExt(JoinChild("/home", ".png")) == ""
  {
    var p := JoinChild("/home", ".png");
    assert p == "/home/" + "" + "." + "png";
    SlashAt("/home/", "", "png");
    DotAt("/home/", "", "png");
    assert AllDots(p[6..6]);
  }
}
