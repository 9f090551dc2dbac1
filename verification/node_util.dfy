/**
 * `NodeUtil.getPixelsData`: read a node's rendering back as RGBA bytes and, when asked,
 * turn the rows upside down so that row 0 is the top of the picture.
 *
 * The render-texture readback is an engine call; here it is the input array
 * `readPixels`, of the size the engine gives it: `width * height * 4` bytes.
 */
module NodeUtil {
  import opened JsBuiltins
  import opened Arith

  /** What the extractor looks at in a scene node: whether `cc.isValid` holds, and its content size. */
  datatype Node = Node(isValid: bool, width: real, height: real)

  /** The buffer's width and height: `Math.floor` of the node's content size. */
  function BufferDimensions(node: Node): (dims: (int, int))
    ensures dims.0 as real <= node.width < dims.0 as real + 1.0
    ensures dims.1 as real <= node.height < dims.1 as real + 1.0
  {
    (node.width.Floor, node.height.Floor)
  }

  /**
   * The engine's readback for `node` is `width * height * 4` bytes (RGBA, one row after another).
   * A node between 0 and 1 pixel wide fits only an empty readback: for it the copy loop's step,
   * `lineWidth`, is 0, and the loop ends only because its bound, the length, is 0 too.
   */
  predicate ReadbackFits(node: Node, length: nat)
    ensures ReadbackFits(node, length) && BufferDimensions(node).0 == 0 ==> length == 0
  {
    var (width, height) := BufferDimensions(node);
    0 <= width && 0 <= height && length == height * (width * 4)
  }

  /**
   * The rows of `s` in reverse order, rows being the consecutive blocks of `lineWidth`
   * bytes from the start: the first row of the result is the last row of `s`.
   * (Only buffers of whole rows are ever flipped.)
   */
  function Flipped(s: seq<Byte>, lineWidth: nat): (r: seq<Byte>)
    ensures |r| == |s|
    decreases |s|
  {
    if lineWidth == 0 || |s| <= lineWidth then s
    else Flipped(s[lineWidth..], lineWidth) + s[..lineWidth]
  }

  /** Flipping `ra` whole rows followed by more bytes puts the two parts in the other order, each flipped. */
  lemma {:induction false} FlippedAppend(a: seq<Byte>, b: seq<Byte>, lineWidth: nat, ra: nat)
    requires |a| == ra * lineWidth
    ensures Flipped(a + b, lineWidth) == Flipped(b, lineWidth) + Flipped(a, lineWidth)
    decreases ra
  {
    if ra == 0 || lineWidth == 0 {
      assert a == [] && a + b == b;
    } else {
      var a' := a[lineWidth..];
      MulSucc(ra - 1, lineWidth);
      assert (a + b)[lineWidth..] == a' + b;
      assert (a + b)[..lineWidth] == a[..lineWidth];
      FlippedAppend(a', b, lineWidth, ra - 1);
      if |a| == lineWidth {
        assert a' == [] && a' + b == b;
      }
    }
  }

  /** Row reversal is an involution: flipping a buffer of whole rows twice gives it back. */
  lemma {:induction false} FlippedTwice(s: seq<Byte>, lineWidth: nat, rows: nat)
    requires |s| == rows * lineWidth
    ensures Flipped(Flipped(s, lineWidth), lineWidth) == s
    decreases rows
  {
    if rows > 0 && lineWidth > 0 && |s| > lineWidth {
      var t := s[lineWidth..];
      MulSucc(rows - 1, lineWidth);
      var row := s[..lineWidth];
      FlippedAppend(Flipped(t, lineWidth), row, lineWidth, rows - 1);
      FlippedTwice(t, lineWidth, rows - 1);
      assert row + t == s;
    }
  }

  /**
   * Byte `k` of row `r` of the flipped buffer is byte `k` of the mirror row `m`, the one
   * with as many rows below it as `r` has above it (`r + 1 + m == rows`).
   */
  lemma FlippedAt(s: seq<Byte>, lineWidth: nat, rows: nat, r: nat, m: nat, k: nat)
    requires |s| == rows * lineWidth
    requires r + 1 + m == rows && k < lineWidth
    ensures r * lineWidth + k < |s| && m * lineWidth + k < |s|
    ensures Flipped(s, lineWidth)[r * lineWidth + k] == s[m * lineWidth + k]
  {
    var above, below := m * lineWidth, r * lineWidth;
    assert above + lineWidth + below == |s| by {
      RowsAdd(m, r, rows, lineWidth);
    }
    FlippedAtMirror(s, lineWidth, m, above, k);
  }

  /**
   * The row that starts `above` bytes into `s`, `above` being whole rows, reappears in the
   * flipped buffer with as many bytes after it as there are before it in `s`.
   */
  lemma FlippedAtMirror(s: seq<Byte>, lineWidth: nat, m: nat, above: nat, k: nat)
    requires above == m * lineWidth && above + lineWidth <= |s| && k < lineWidth
    ensures Flipped(s, lineWidth)[|s| - above - lineWidth + k] == s[above + k]
  {
    var front, row, back := s[..above], s[above..above + lineWidth], s[above + lineWidth..];
    assert s == front + (row + back);
    FlippedAppend(front, row + back, lineWidth, m);
    FlippedAppend(row, back, lineWidth, 1);
    var flipped := Flipped(back, lineWidth) + row + Flipped(front, lineWidth);
    assert Flipped(s, lineWidth) == flipped;
    assert flipped[|back| + k] == row[k];
  }

  /** Multiplication distributes over the three blocks of rows. */
  lemma RowsAdd(m: nat, r: nat, rows: nat, lineWidth: nat)
    requires m + 1 + r == rows
    ensures rows * lineWidth == m * lineWidth + lineWidth + r * lineWidth
  {
    MulAdd(m + 1, r, lineWidth);
    MulSucc(m, lineWidth);
  }

  /** Row `r` of a buffer of `rows` rows lies inside it. */
  lemma RowInside(r: nat, rows: nat, lineWidth: nat)
    requires r < rows
    ensures r * lineWidth + lineWidth <= rows * lineWidth
  {
    MulSucc(r, lineWidth);
    MulMonotone(r + 1, rows, lineWidth);
  }

  /** `n` bytes are a whole number of rows of `lineWidth` bytes. */
  predicate WholeRows(n: nat, lineWidth: nat)
    decreases n
  {
    n == 0 || (0 < lineWidth <= n && WholeRows(n - lineWidth, lineWidth))
  }

  /** `rows` rows of `lineWidth` bytes make a whole number of rows. */
  lemma {:induction false} WholeRowsOf(rows: nat, lineWidth: nat)
    ensures WholeRows(rows * lineWidth, lineWidth)
    decreases rows
  {
    if rows > 0 && lineWidth > 0 {
      MulSucc(rows - 1, lineWidth);
      WholeRowsOf(rows - 1, lineWidth);
    }
  }

  /**
   * The `flipY` copy: a fresh array `data` of the readback's length, filled row by row with
   * `i` walking the destination rows upwards and `j` the source rows downwards.
   * The readback array itself is only read.
   */
  method FlipRows(pixels: array<Byte>, lineWidth: nat, ghost rows: nat) returns (data: array<Byte>)
    requires pixels.Length == rows * lineWidth
    ensures fresh(data)
    ensures data[..] == Flipped(pixels[..], lineWidth)
  {
    var length := pixels.Length;
    data := new Byte[length];
    var i, j := 0, length - lineWidth;
    WholeRowsOf(rows, lineWidth);
    while i < length
      invariant i <= length && i + j == length - lineWidth
      invariant WholeRows(length - i, lineWidth)
      invariant data[..i] == Flipped(pixels[length - i..], lineWidth)
    {
      FlipStep(pixels[..], lineWidth, i);
      CopyRow(pixels, j, data, i, lineWidth);
      i, j := i + lineWidth, j - lineWidth;
    }
    assert data[..] == data[..i];
    assert pixels[..] == pixels[length - i..];
  }

  /** The inner loop of the copy: `lineWidth` bytes from `pixels[j..]` to `data[i..]`, nothing else touched. */
  method CopyRow(pixels: array<Byte>, j: nat, data: array<Byte>, i: nat, lineWidth: nat)
    requires data != pixels
    requires j + lineWidth <= pixels.Length && i + lineWidth <= data.Length
    modifies data
    ensures data[..i + lineWidth] == old(data[..i]) + pixels[j..j + lineWidth]
    ensures data[i + lineWidth..] == old(data[i + lineWidth..])
  {
    for k := 0 to lineWidth
      invariant data[..i] == old(data[..i])
      invariant data[i + lineWidth..] == old(data[i + lineWidth..])
      invariant data[i..i + k] == pixels[j..j + k]
    {
      data[i + k] := pixels[j + k];
    }
  }

  /**
   * One more round of the copy: the last `i + lineWidth` bytes, flipped, are the last `i`
   * bytes flipped followed by the row just above them.
   */
  lemma FlipStep(s: seq<Byte>, lineWidth: nat, i: nat)
    requires i + lineWidth <= |s|
    ensures Flipped(s[|s| - (i + lineWidth)..], lineWidth)
      == Flipped(s[|s| - i..], lineWidth) + s[|s| - (i + lineWidth)..|s| - i]
  {
    var row, rest := s[|s| - (i + lineWidth)..|s| - i], s[|s| - i..];
    assert s[|s| - (i + lineWidth)..] == row + rest;
    FlippedAppend(row, rest, lineWidth, 1);
  }

  /**
   * `getPixelsData(node, flipY)`: nothing for an invalid node; otherwise the readback itself,
   * or, with `flipY`, a fresh copy of it with the rows in reverse order.
   */
  method GetPixelsData(node: Node, flipY: bool, readPixels: array<Byte>) returns (r: Option<array<Byte>>)
    requires node.isValid ==> ReadbackFits(node, readPixels.Length)
    ensures !node.isValid ==> r == None
    ensures node.isValid && !flipY ==> r == Some(readPixels)
    ensures node.isValid && flipY ==>
      var (width, height) := BufferDimensions(node);
      r.Some? && fresh(r.value) && r.value[..] == Flipped(readPixels[..], width * 4)
  {
    if !node.isValid {
      return None;
    }
    var (width, height) := BufferDimensions(node);
    if flipY {
      var data := FlipRows(readPixels, width * 4, height);
      return Some(data);
    }
    return Some(readPixels);
  }
}
