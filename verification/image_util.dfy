/**
 * The computational parts of `ImageUtil`: addressing one pixel of an RGBA buffer
 * (`getPixelColor`), choosing the MIME type for an image URL (`imageToBase64`) and
 * turning a base64 data URL into bytes (`base64ToBlob`).
 */
module ImageUtil {
  import opened JsBuiltins
  import NodeUtil
  import opened Arith

  // ---------------------------------------------------------------------------------
  // getPixelColor
  // ---------------------------------------------------------------------------------

  /** `cc.color(r, g, b, a)`. */
  datatype Color = Color(r: Byte, g: Byte, b: Byte, a: Byte)

  /** Byte offset of pixel (x, y) in an RGBA buffer `width` pixels wide: row-major, origin top-left. */
  function PixelIndex(width: int, x: real, y: real): (i: int)
    ensures i % 4 == 0
  {
    var cell := width * y.Floor + x.Floor;
    assert width * 4 * y.Floor + 4 * x.Floor == cell * 4;
    DivModUnique(cell * 4, 4, cell, 0);
    width * 4 * y.Floor + 4 * x.Floor
  }

  /**
   * `getPixelColor`: the four bytes from `PixelIndex` on, as R, G, B, A.
   * `None` when `slice` yields fewer than four bytes; a negative offset counts back from the end.
   */
  function GetPixelColor(pixels: seq<Byte>, width: int, x: real, y: real): (c: Option<Color>)
    ensures c.Some? <==> |Slice(pixels, PixelIndex(width, x, y), PixelIndex(width, x, y) + 4)| == 4
  {
    var index := PixelIndex(width, x, y);
    var data := Slice(pixels, index, index + 4);
    if |data| == 4 then Some(Color(data[0], data[1], data[2], data[3])) else None
  }

  /**
   * A pixel inside a `width` by `height` picture has its four bytes inside a buffer of
   * `width * height * 4` bytes, and its colour is read from exactly those bytes.
   */
  lemma PixelInBuffer(pixels: seq<Byte>, width: nat, height: nat, x: real, y: real)
    requires |pixels| == height * (width * 4)
    requires 0.0 <= x < width as real && 0.0 <= y < height as real
    ensures var i := PixelIndex(width, x, y);
      i == 4 * (width * y.Floor + x.Floor) &&
      0 <= i && i + 4 <= |pixels| &&
      GetPixelColor(pixels, width, x, y) == Some(Color(pixels[i], pixels[i + 1], pixels[i + 2], pixels[i + 3]))
  {
    var xf, yf := x.Floor, y.Floor;
    assert 0 <= xf < width && 0 <= yf < height;
    var i := PixelIndex(width, x, y);
    assert i == yf * (width * 4) + 4 * xf;
    NodeUtil.RowInside(yf, height, width * 4);
    assert Slice(pixels, i, i + 4) == pixels[i..i + 4];
  }

  /** Every (x, y) in [0, 1) x [0, 1) names pixel (0, 0): the first four bytes of the buffer. */
  lemma OriginPixel(pixels: seq<Byte>, width: int, x: real, y: real)
    requires |pixels| >= 4
    requires 0.0 <= x < 1.0 && 0.0 <= y < 1.0
    ensures PixelIndex(width, x, y) == 0
    ensures GetPixelColor(pixels, width, x, y) == Some(Color(pixels[0], pixels[1], pixels[2], pixels[3]))
  {
    assert x.Floor == 0 && y.Floor == 0;
    assert Slice(pixels, 0, 4) == pixels[0..4];
  }

  /**
   * Pixel addressing can be undone: from the byte offset of a pixel inside the picture,
   * its column is `(i / 4) % width` and its row `(i / 4) / width`.
   */
  lemma PixelIndexInverse(width: nat, height: nat, x: real, y: real)
    requires 0.0 <= x < width as real && 0.0 <= y < height as real
    ensures var i := PixelIndex(width, x, y);
      i % 4 == 0 && (i / 4) % width == x.Floor && (i / 4) / width == y.Floor
  {
    var xf, yf := x.Floor, y.Floor;
    var i := PixelIndex(width, x, y);
    var cell := width * yf + xf;
    assert i == cell * 4;
    DivModUnique(i, 4, cell, 0);
    DivModUnique(cell, width, yf, xf);
  }

  /**
   * After `getPixelsData` with `flipY`, pixel (x, y) of the flipped buffer is pixel
   * (x, m) of the engine's readback, `m` being row `y` counted from the bottom.
   */
  lemma FlippedPixel(s: seq<Byte>, width: nat, height: nat, x: nat, y: nat, m: nat)
    requires |s| == height * (width * 4)
    requires x < width && y + 1 + m == height
    ensures GetPixelColor(NodeUtil.Flipped(s, width * 4), width, x as real, y as real)
         == GetPixelColor(s, width, x as real, m as real)
  {
    var flipped := NodeUtil.Flipped(s, width * 4);
    PixelInBuffer(flipped, width, height, x as real, y as real);
    PixelInBuffer(s, width, height, x as real, m as real);
    assert (x as real).Floor == x && (y as real).Floor == y && (m as real).Floor == m;
    var i, j := PixelIndex(width, x as real, y as real), PixelIndex(width, x as real, m as real);
    assert i == y * (width * 4) + 4 * x && j == m * (width * 4) + 4 * x;
    NodeUtil.FlippedAt(s, width * 4, height, y, m, 4 * x);
    NodeUtil.FlippedAt(s, width * 4, height, y, m, 4 * x + 1);
    NodeUtil.FlippedAt(s, width * 4, height, y, m, 4 * x + 2);
    NodeUtil.FlippedAt(s, width * 4, height, y, m, 4 * x + 3);
  }

  // ---------------------------------------------------------------------------------
  // imageToBase64: the extension and the MIME type it selects
  // ---------------------------------------------------------------------------------

  /** Which alternative of `/\.png|\.jpg|\.jpeg/` matches at index `i`, tried in the pattern's order. */
  function ExtensionAt(url: string, i: nat): (e: Option<string>)
    ensures e.Some? ==> HasAt(url, i, e.value)
  {
    if HasAt(url, i, ".png") then Some(".png")
    else if HasAt(url, i, ".jpg") then Some(".jpg")
    else if HasAt(url, i, ".jpeg") then Some(".jpeg")
    else None
  }

  /**
   * A match at `i` is an occurrence there of one of the three extensions. The three exclude
   * one another (they differ in their second or fourth character), so whichever occurs at
   * `i` is the one reported, whatever the pattern's order; each starts with a dot.
   */
  lemma ExtensionAtExclusive(url: string, i: nat)
    ensures ExtensionAt(url, i).Some? <==>
      HasAt(url, i, ".png") || HasAt(url, i, ".jpg") || HasAt(url, i, ".jpeg")
    ensures ExtensionAt(url, i).Some? ==> i < |url| && url[i] == '.'
    ensures HasAt(url, i, ".png") ==> ExtensionAt(url, i) == Some(".png")
    ensures HasAt(url, i, ".jpg") ==> ExtensionAt(url, i) == Some(".jpg")
    ensures HasAt(url, i, ".jpeg") ==> ExtensionAt(url, i) == Some(".jpeg")
  {
    if HasAt(url, i, ".png") {
      assert url[i..i + 4][1] == url[i + 1] == 'p';
    }
    if HasAt(url, i, ".jpg") {
      assert url[i..i + 4][3] == url[i + 3] == 'g';
    }
    if HasAt(url, i, ".jpeg") {
      assert url[i..i + 5][1] == url[i + 1] == 'j';
      assert url[i..i + 5][3] == url[i + 3] == 'e';
    }
    if ExtensionAt(url, i).Some? {
      var lit := ExtensionAt(url, i).value;
      assert url[i..i + |lit|][0] == url[i];
    }
  }

  /** `s.replace(c, '')`: `s` without the first occurrence of `c`. */
  function RemoveFirst(s: string, c: char): (r: string)
    ensures c in s ==> |r| == |s| - 1
    ensures c !in s ==> r == s
  {
    if |s| == 0 then s
    else if s[0] == c then s[1..]
    else [s[0]] + RemoveFirst(s[1..], c)
  }

  /** The character removed is the first `c`: everything before it and everything after it stays. */
  lemma {:induction false} RemoveFirstAt(s: string, c: char, k: nat)
    requires k < |s| && s[k] == c && c !in s[..k]
    ensures RemoveFirst(s, c) == s[..k] + s[k + 1..]
    decreases k
  {
    if k > 0 {
      assert s[0] in s[..k];
      assert s[1..][..k - 1] == s[1..k];
      assert forall ch :: ch in s[1..k] ==> ch in s[..k];
      RemoveFirstAt(s[1..], c, k - 1);
      assert s[..k] == [s[0]] + s[1..k];
      assert s[1..][k..] == s[k + 1..];
    }
  }

  /** The MIME subtype for an extension: `'.jpg'` becomes `jpeg`, anything else loses its dot. */
  function MimeSubtype(extname: string): (subtype: string)
    ensures extname != ".jpg" && |extname| > 0 && extname[0] == '.' ==> subtype == extname[1..]
  {
    if extname == ".jpg" then "jpeg" else RemoveFirst(extname, '.')
  }

  /**
   * The type `imageToBase64` asks the canvas for: `image/` and the subtype of the left-most
   * `.png`, `.jpg` or `.jpeg` in the URL; `None` (the `null` result) when there is none.
   */
  function ImageMimeType(url: string): (mimeType: Option<string>)
    ensures mimeType.Some? ==> mimeType.value == "image/png" || mimeType.value == "image/jpeg"
  {
    var found := Exec(url, ExtensionAt, 0);
    var extname := if found.Some? then Some(found.value.1) else None;
    if extname.Some? && extname.value in [".png", ".jpg", ".jpeg"] then
      MimeTypes(extname.value);
      Some("image/" + MimeSubtype(extname.value))
    else
      None
  }

  /** There is a type exactly when one of the three extensions occurs somewhere in the URL. */
  lemma ImageMimeTypeNone(url: string)
    ensures ImageMimeType(url).None? <==> forall i :: 0 <= i < |url| ==> ExtensionAt(url, i).None?
  {
    var found := Exec(url, ExtensionAt, 0);
    if found.Some? {
      var e := found.value.1;
      assert ExtensionAt(url, found.value.0) == Some(e);
      assert e == ".png" || e == ".jpg" || e == ".jpeg";
    }
  }

  /** The subtypes: `.png` maps to `png`, both `.jpg` and `.jpeg` map to `jpeg`. */
  lemma MimeSubtypes()
    ensures MimeSubtype(".png") == "png"
    ensures MimeSubtype(".jpg") == "jpeg"
    ensures MimeSubtype(".jpeg") == "jpeg"
  {
    assert RemoveFirst(".png", '.') == ".png"[1..] == "png";
    assert RemoveFirst(".jpeg", '.') == ".jpeg"[1..] == "jpeg";
  }

  /** The extension found at the left-most match position is the one the MIME type is built from. */
  lemma ImageMimeTypeAt(url: string, i: nat)
    requires ExtensionAt(url, i).Some?
    requires forall j :: 0 <= j < i ==> ExtensionAt(url, j).None?
    ensures ImageMimeType(url) == Some("image/" + MimeSubtype(ExtensionAt(url, i).value))
  {
    ExtensionAtExclusive(url, i);
    ExecAt(url, ExtensionAt, 0, i);
  }

  /** The full type for each extension: `.png` gives `image/png`, `.jpg` and `.jpeg` give `image/jpeg`. */
  lemma MimeTypes(e: string)
    requires e == ".png" || e == ".jpg" || e == ".jpeg"
    ensures "image/" + MimeSubtype(e) == if e == ".png" then "image/png" else "image/jpeg"
  {
    MimeSubtypes();
    if e == ".png" {
      assert "image/" + "png" == "image/png";
    } else {
      assert "image/" + "jpeg" == "image/jpeg";
    }
  }

  /**
   * The left-most extension decides: `.png` gives `image/png`, `.jpg` and `.jpeg` give
   * `image/jpeg`.
   */
  lemma ImageMimeTypeLeftmost(url: string, i: nat)
    requires ExtensionAt(url, i).Some?
    requires forall j :: 0 <= j < i ==> ExtensionAt(url, j).None?
    ensures ImageMimeType(url) == Some(if ExtensionAt(url, i) == Some(".png") then "image/png" else "image/jpeg")
  {
    var e := ExtensionAt(url, i).value;
    ImageMimeTypeAt(url, i);
    assert e == ".png" || e == ".jpg" || e == ".jpeg";
    MimeTypes(e);
  }

  /** A URL with `.jpeg` before `.png` is sent as JPEG. */
  lemma JpegBeforePngExample()
    ensures ImageMimeType("img/a.jpeg.png") == Some("image/jpeg")
  {
    var url := "img/a.jpeg.png";
    forall j | 0 <= j < 5
      ensures ExtensionAt(url, j).None?
    {
      ExtensionAtExclusive(url, j);
    }
    assert HasAt(url, 5, ".jpeg") by {
      assert url[5..10] == ".jpeg";
    }
    ExtensionAtExclusive(url, 5);
    ImageMimeTypeLeftmost(url, 5);
  }

  /** A `.png` followed by a query string is sent as PNG. */
  lemma PngWithQueryExample()
    ensures ImageMimeType("img/a.png?v=1") == Some("image/png")
  {
    var url := "img/a.png?v=1";
    forall j | 0 <= j < 5
      ensures ExtensionAt(url, j).None?
    {
      ExtensionAtExclusive(url, j);
    }
    assert HasAt(url, 5, ".png") by {
      assert url[5..9] == ".png";
    }
    ExtensionAtExclusive(url, 5);
    ImageMimeTypeLeftmost(url, 5);
  }

  /** A `.gif` resource gets no type: `imageToBase64` resolves with `null`. */
  lemma GifExample()
    ensures ImageMimeType("a.gif") == None
  {
    var url := "a.gif";
    forall j | 0 <= j < 5
      ensures ExtensionAt(url, j).None?
    {
      ExtensionAtExclusive(url, j);
      if j == 1 {
        assert url[1..5][1] == 'g';
      }
    }
    ImageMimeTypeNone(url);
  }

  // ---------------------------------------------------------------------------------
  // base64ToBlob
  // ---------------------------------------------------------------------------------

  /** `\w` in a JavaScript regular expression: an ASCII letter, digit or underscore. */
  predicate IsWordChar(c: char)
    ensures IsWordChar(c) ==> c != ',' && c != ';' && c != '/'
  {
    'a' <= c <= 'z' || 'A' <= c <= 'Z' || '0' <= c <= '9' || c == '_'
  }

  /** The length of the run of word characters that starts at index `i`: what a greedy `\w+` takes. */
  function WordRun(s: string, i: nat): (n: nat)
    ensures n == 0 || i + n <= |s|
    decreases |s| - i
  {
    if i < |s| && IsWordChar(s[i]) then 1 + WordRun(s, i + 1) else 0
  }

  /** The run is as long as possible: word characters all the way, and no word character right after. */
  lemma {:induction false} WordRunMaximal(s: string, i: nat)
    ensures forall j :: i <= j < i + WordRun(s, i) ==> IsWordChar(s[j])
    ensures i + WordRun(s, i) < |s| ==> !IsWordChar(s[i + WordRun(s, i)])
    decreases |s| - i
  {
    if i < |s| && IsWordChar(s[i]) {
      WordRunMaximal(s, i + 1);
    }
  }

  /** Which alternative of `/image\/\w+|;/` matches at index `i`, and the text it matches. */
  function TypeAt(s: string, i: nat): (m: Option<string>)
    ensures m.Some? ==> HasAt(s, i, m.value)
    ensures m.Some? ==> m.value == ";" || (|m.value| > 6 && m.value[..6] == "image/")
  {
    if HasAt(s, i, "image/") && WordRun(s, i + 6) > 0 then Some(s[i..i + 6 + WordRun(s, i + 6)])
    else if i < |s| && s[i] == ';' then Some(";")
    else None
  }

  /**
   * What a match at `i` is: `;` where the string has one, or `image/` followed by the
   * whole run of word characters after it, with at least one of them.
   */
  lemma TypeAtMatches(s: string, i: nat)
    ensures TypeAt(s, i).Some? <==> (HasAt(s, i, "image/") && WordRun(s, i + 6) > 0) || (i < |s| && s[i] == ';')
    ensures TypeAt(s, i).Some? && TypeAt(s, i).value != ";" ==>
      var run := WordRun(s, i + 6);
      i + 6 + run <= |s| && TypeAt(s, i).value == s[i..i + 6 + run] &&
      (i + 6 + run < |s| ==> !IsWordChar(s[i + 6 + run]))
  {
    WordRunMaximal(s, i + 6);
    if HasAt(s, i, "image/") && WordRun(s, i + 6) > 0 {
      assert s[i..i + 6 + WordRun(s, i + 6)][0] == s[i] == 'i';
    }
  }

  /** The Blob's `type`: the match of `/image\/\w+|;/` in the part before the first comma. */
  function BlobType(base64: string): (mimeType: Option<string>)
    ensures mimeType.Some? ==> mimeType.value == ";" || (|mimeType.value| > 6 && mimeType.value[..6] == "image/")
  {
    var header := Split(base64, ',')[0];
    var found := Exec(header, TypeAt, 0);
    if found.Some? then Some(found.value.1) else None
  }

  /** There is no type exactly when the pattern matches nowhere in the part before the first comma. */
  lemma BlobTypeNone(base64: string, header: string)
    requires header == Split(base64, ',')[0]
    ensures BlobType(base64).None? <==> forall j :: 0 <= j < |header| ==> TypeAt(header, j).None?
  {
    var found := Exec(header, TypeAt, 0);
    if found.Some? {
      assert TypeAt(header, found.value.0).Some?;
    }
  }

  /** The type is the text matched at the left-most position where the pattern matches. */
  lemma BlobTypeAt(base64: string, i: nat)
    requires var header := Split(base64, ',')[0];
      i < |header| && TypeAt(header, i).Some? && forall j :: 0 <= j < i ==> TypeAt(header, j).None?
    ensures BlobType(base64) == TypeAt(Split(base64, ',')[0], i)
  {
    ExecAt(Split(base64, ',')[0], TypeAt, 0, i);
  }

  /** `base64.split(',')[1]`: the text between the first comma and the next one (or the end). */
  function DataSegment(base64: string): (r: Option<string>)
    ensures r.None? <==> ',' !in base64
    ensures r.Some? ==> ',' !in r.value
  {
    var parts := Split(base64, ',');
    SplitSingle(base64, ',');
    if |parts| > 1 then Some(parts[1]) else None
  }

  /** Only the segment after the first comma is decoded, whatever follows a second comma. */
  lemma DataSegmentAfterFirstComma(head: string, segment: string, rest: seq<string>)
    requires ',' !in head && ',' !in segment
    requires forall p :: p in rest ==> ',' !in p
    ensures DataSegment(Join([head, segment] + rest, ',')) == Some(segment)
  {
    var parts := [head, segment] + rest;
    assert forall p :: p in parts ==> p == head || p == segment || p in rest;
    SplitJoin(parts, ',');
  }

  /** `charCodeAt(i) & 0xff`: the low eight bits of the character code. */
  function LowByte(c: char): (b: Byte)
    ensures b == (c as int) % 256
  {
    BitAndLowMask(c as int, 8);
    BitAnd(c as int, 0xFF)
  }

  /** The byte loop: a fresh `Uint8Array` as long as `data`, holding the low byte of each character code. */
  method DecodedToBytes(data: string) returns (bytes: array<Byte>)
    ensures fresh(bytes) && bytes.Length == |data|
    ensures forall i :: 0 <= i < |data| ==> bytes[i] == (data[i] as int) % 256
  {
    bytes := new Byte[|data|];
    for i := 0 to |data|
      invariant forall n :: 0 <= n < i ==> bytes[n] == (data[n] as int) % 256
    {
      bytes[i] := LowByte(data[i]);
    }
  }

  /** What `base64ToBlob` gives back: `null`, an exception, or the bytes and the type string a Blob is built from. */
  datatype BlobResult = Null | Thrown | Blob(bytes: array<Byte>, mimeType: string)

  /**
   * `base64ToBlob(base64)` with `window.atob` passed in (`None` when the host has none).
   * A header without a type match, a missing comma and input `atob` rejects all throw.
   */
  method Base64ToBlob(base64: string, atob: Option<string -> Option<string>>) returns (r: BlobResult)
    ensures atob.None? ==> r == Null
    ensures atob.Some? && (BlobType(base64).None? || DataSegment(base64).None?) ==> r == Thrown
    ensures atob.Some? && BlobType(base64).Some? && DataSegment(base64).Some? ==>
      match atob.value(DataSegment(base64).value)
      case None => r == Thrown
      case Some(data) =>
        r.Blob? && fresh(r.bytes) && r.mimeType == BlobType(base64).value &&
        r.bytes.Length == |data| &&
        forall i :: 0 <= i < |data| ==> r.bytes[i] == (data[i] as int) % 256
  {
    if atob.None? {
      return Null;
    }
    var mimeType := BlobType(base64);
    if mimeType.None? {
      return Thrown;
    }
    var segment := DataSegment(base64);
    if segment.None? {
      return Thrown;
    }
    var decoded := atob.value(segment.value);
    if decoded.None? {
      return Thrown;
    }
    var bytes := DecodedToBytes(decoded.value);
    return Blob(bytes, mimeType.value);
  }
}
