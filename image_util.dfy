/** Conversion of a captured frame to JPEG: the stride-respecting copy of a
    plane into a dense array, the NV21 layout built from a YUV_420_888 frame
    (luma, then V/U pairs), the padded-width arithmetic of the RGBA path, and
    the format dispatch. The JPEG encoders are parameters that may fail. */
module ImageUtil {
  import opened Base

  /** The part of `java.nio.ByteBuffer` the conversion uses: the contents up
      to the limit, the position, and the mark (-1 when undefined). */
  class ByteBuffer {
    const bytes: seq<int8>
    var position: int
    var mark: int

    ghost predicate Valid()
      reads this
    {
      0 <= position <= |bytes| && -1 <= mark <= position
    }

    constructor (bytes: seq<int8>)
      ensures Valid() && this.bytes == bytes && position == 0 && mark == -1
    {
      this.bytes := bytes;
      position := 0;
      mark := -1;
    }

    /** `mark()`: remembers the current position. */
    method Mark()
      requires Valid()
      modifies this
      ensures Valid() && position == old(position) && mark == position
    {
      mark := position;
    }

    /** `position(p)`: moves the position; a mark beyond `p` is discarded. */
    method SetPosition(p: int)
      requires Valid() && 0 <= p <= |bytes|
      modifies this
      ensures Valid() && position == p
      ensures mark == if old(mark) > p then -1 else old(mark)
    {
      position := p;
      if mark > p {
        mark := -1;
      }
    }

    /** Relative bulk `get(dst, off, len)`: copies the next `len` bytes into
        `dst[off..off+len)` and advances the position by `len`. */
    method GetInto(dst: array<int8>, off: int, len: int)
      requires Valid()
      requires 0 <= off && 0 <= len && off + len <= dst.Length && position + len <= |bytes|
      modifies this, dst
      ensures Valid() && position == old(position) + len && mark == old(mark)
      ensures dst[off..off + len] == bytes[old(position)..old(position) + len]
      ensures forall k :: 0 <= k < dst.Length && !(off <= k < off + len) ==> dst[k] == old(dst[k])
    {
      forall k | 0 <= k < len {
        dst[off + k] := bytes[position + k];
      }
      position := position + len;
    }

    /** `reset()`: returns to the mark; `false` stands for the
        InvalidMarkException thrown when no mark is defined. */
    method Reset() returns (ok: bool)
      requires Valid()
      modifies this
      ensures Valid() && mark == old(mark)
      ensures ok == (old(mark) >= 0)
      ensures position == if ok then old(mark) else old(position)
    {
      ok := mark >= 0;
      if ok {
        position := mark;
      }
    }
  }

  // ---------------------------------------------------------------------
  // Index arithmetic of a plane copy

  /** Where the byte of cell (r, c) lands in the output:
      `outOffset + r*width*outPixelStride + c*outPixelStride`. */
  function CellIndex(outOffset: int, width: int, outPixelStride: int, r: int, c: int): int
  {
    outOffset + (r * width + c) * outPixelStride
  }

  /** Where the byte of cell (r, c) is read in the plane. */
  function SourceIndex(rowStride: int, pixelStride: int, r: int, c: int): int
  {
    r * rowStride + c * pixelStride
  }

  /** `k` is one of the first `n` output cells `outOffset + j*outPixelStride`. */
  predicate IsCell(outOffset: int, outPixelStride: int, k: int, n: int)
    requires outPixelStride >= 1
  {
    outOffset <= k && (k - outOffset) % outPixelStride == 0 && (k - outOffset) / outPixelStride < n
  }

  lemma NextColumn(outOffset: int, width: int, ops: int, r: int, c: int)
    ensures CellIndex(outOffset, width, ops, r, c) + ops == CellIndex(outOffset, width, ops, r, c + 1)
  {
    assert (r * width + c + 1) * ops == (r * width + c) * ops + ops;
  }

  lemma NextRow(outOffset: int, width: int, ops: int, r: int)
    ensures CellIndex(outOffset, width, ops, r, 0) + width * ops == CellIndex(outOffset, width, ops, r + 1, 0)
  {
    assert ((r + 1) * width) * ops == (r * width) * ops + width * ops;
  }

  /** Cell number `j` is a cell among the first `n` exactly when `j < n`. */
  lemma CellNumber(outOffset: int, ops: int, j: nat, n: int)
    requires ops >= 1
    ensures IsCell(outOffset, ops, outOffset + j * ops, n) <==> j < n
  {
    MulDivMod(j, ops);
    assert outOffset + j * ops - outOffset == j * ops;
  }

  /** In row-major order, an earlier cell has a smaller cell number. */
  lemma CellOrder(width: int, r0: int, c0: int, r: int, c: int)
    requires 0 <= c0 < width && 0 <= c && 0 <= r0
    requires r0 < r || (r0 == r && c0 < c)
    ensures r0 * width + c0 < r * width + c
  {
    if r0 < r {
      assert (r0 + 1) * width <= r * width;
    }
  }

  /** The last cell of an h-by-w grid has cell number h*w - 1. */
  lemma CellInGrid(width: int, height: int, r: int, c: int)
    requires 0 <= r < height && 0 <= c < width
    ensures 0 <= r * width + c <= height * width - 1
  {
    assert r * width <= (height - 1) * width;
  }

  /** `Math.min(rowStride, width * pixelStride)`: the bytes read per row. */
  function RowLength(rowStride: int, width: int, pixelStride: int): (len: int)
    ensures len <= rowStride && len <= width * pixelStride
    ensures len == rowStride || len == width * pixelStride
  {
    Min(rowStride, width * pixelStride)
  }

  /** What `extractPlaneToArray` needs to run without an exception: the
      pixel reads stay inside each row read, every row read stays inside the
      buffer, and every write stays inside `out`. */
  predicate PlaneCopyFits(planeSize: int, rowStride: int, pixelStride: int, width: int, height: int,
                          outLength: int, outOffset: int, outPixelStride: int)
  {
    && width >= 0 && height >= 0 && pixelStride >= 1 && rowStride >= 0
    && outOffset >= 0 && outPixelStride >= 1
    && (width >= 1 ==> (width - 1) * pixelStride < rowStride)
    && (height >= 1 ==> (height - 1) * rowStride + RowLength(rowStride, width, pixelStride) <= planeSize)
    && (width * height >= 1 ==> outOffset + (width * height - 1) * outPixelStride < outLength)
  }

  /** Every cell of the rows before `r` holds its plane byte: sample (r0, c0)
      of the plane, at `r0*rowStride + c0*pixelStride`, sits at
      `outOffset + (r0*width + c0)*ops`. */
  ghost predicate RowsCopied(out: seq<int8>, src: seq<int8>, rowStride: int, pixelStride: int,
                             width: int, outOffset: int, ops: int, r: int)
  {
    forall r0, c0 :: 0 <= r0 < r && 0 <= c0 < width ==>
      0 <= CellIndex(outOffset, width, ops, r0, c0) < |out| &&
      0 <= SourceIndex(rowStride, pixelStride, r0, c0) < |src| &&
      out[CellIndex(outOffset, width, ops, r0, c0)] == src[SourceIndex(rowStride, pixelStride, r0, c0)]
  }

  /** Every cell of rows before `r`, and of row `r` before column `c`, holds
      its plane byte. */
  ghost predicate CopiedUpTo(out: seq<int8>, src: seq<int8>, rowStride: int, pixelStride: int,
                             width: int, outOffset: int, ops: int, r: int, c: int)
  {
    && RowsCopied(out, src, rowStride, pixelStride, width, outOffset, ops, r)
    && (forall c0 :: 0 <= c0 < c ==>
          0 <= CellIndex(outOffset, width, ops, r, c0) < |out| &&
          0 <= SourceIndex(rowStride, pixelStride, r, c0) < |src| &&
          out[CellIndex(outOffset, width, ops, r, c0)] == src[SourceIndex(rowStride, pixelStride, r, c0)])
  }

  /** Every entry that is not among the first `n` cells is as it was. */
  ghost predicate UnchangedOutside(out: seq<int8>, was: seq<int8>, outOffset: int, ops: int, n: int)
    requires ops >= 1
  {
    |out| == |was| && forall k :: 0 <= k < |out| && !IsCell(outOffset, ops, k, n) ==> out[k] == was[k]
  }

  /** `extractPlaneToArray`: copies the `width` x `height` samples of a
      strided plane into `out`, sample (r, c) going to
      `outOffset + r*width*outPixelStride + c*outPixelStride`; nothing else in
      `out` changes. The buffer is marked first and reset last; because
      `position(0)` for the first row discards a mark greater than 0, the reset
      succeeds (`restored`) exactly when the buffer started at position 0 or
      no row was read. */
  method ExtractPlaneToArray(buf: ByteBuffer, rowStride: int, pixelStride: int, width: int, height: int,
                             out: array<int8>, outOffset: int, outPixelStride: int)
    returns (restored: bool)
    requires buf.Valid()
    requires PlaneCopyFits(|buf.bytes|, rowStride, pixelStride, width, height, out.Length, outOffset, outPixelStride)
    modifies buf, out
    ensures buf.Valid()
    ensures restored <==> old(buf.position) == 0 || height == 0
    ensures restored ==> buf.position == old(buf.position)
    ensures RowsCopied(out[..], buf.bytes, rowStride, pixelStride, width, outOffset, outPixelStride, height)
    ensures UnchangedOutside(out[..], old(out[..]), outOffset, outPixelStride, width * height)
  {
    ghost var start := buf.position;
    ghost var was := out[..];
    buf.Mark();
    var rowLen := Min(rowStride, width * pixelStride);
    var row := new int8[rowLen];

    var outPos := outOffset;
    var r := 0;
    while r < height
      invariant 0 <= r <= height
      invariant buf.Valid()
      invariant buf.mark == if r == 0 || start == 0 then start else -1
      invariant outPos == CellIndex(outOffset, width, outPixelStride, r, 0)
      invariant CopiedUpTo(out[..], buf.bytes, rowStride, pixelStride, width, outOffset, outPixelStride, r, 0)
      invariant UnchangedOutside(out[..], was, outOffset, outPixelStride, r * width)
    {
      outPos := ExtractRow(buf, row, rowStride, pixelStride, width, height, out, outOffset, outPixelStride,
                           r, outPos, was, start);
      r := r + 1;
    }
    assert height * width == width * height;
    restored := buf.Reset();
  }

  /** One row of `extractPlaneToArray`: position the buffer at the row,
      read `rowLen` bytes into `row`, and copy its samples out; `nextPos` is
      the output index of the next row. Positioning the buffer at row 0
      discards a mark set at a later position (`start`). */
  method ExtractRow(buf: ByteBuffer, row: array<int8>, rowStride: int, pixelStride: int, width: int, height: int,
                    out: array<int8>, outOffset: int, outPixelStride: int, r: int, outPos: int,
                    ghost was: seq<int8>, ghost start: int)
    returns (nextPos: int)
    requires buf.Valid() && 0 <= start
    requires buf.mark == if r == 0 || start == 0 then start else -1
    requires PlaneCopyFits(|buf.bytes|, rowStride, pixelStride, width, height, out.Length, outOffset, outPixelStride)
    requires 0 <= r < height && row != out && row.Length == RowLength(rowStride, width, pixelStride)
    requires outPos == CellIndex(outOffset, width, outPixelStride, r, 0)
    requires CopiedUpTo(out[..], buf.bytes, rowStride, pixelStride, width, outOffset, outPixelStride, r, 0)
    requires UnchangedOutside(out[..], was, outOffset, outPixelStride, r * width)
    modifies buf, row, out
    ensures buf.Valid()
    ensures buf.mark == if r + 1 == 0 || start == 0 then start else -1
    ensures nextPos == CellIndex(outOffset, width, outPixelStride, r + 1, 0)
    ensures CopiedUpTo(out[..], buf.bytes, rowStride, pixelStride, width, outOffset, outPixelStride, r + 1, 0)
    ensures UnchangedOutside(out[..], was, outOffset, outPixelStride, (r + 1) * width)
  {
    var rowLen := row.Length;
    var pos := r * rowStride;
    assert 0 <= pos && pos + rowLen <= |buf.bytes| by {
      MulMonotone(0, r, rowStride);
      MulMonotone(r, height - 1, rowStride);
    }
    buf.SetPosition(pos);
    buf.GetInto(row, 0, rowLen);
    CopyRow(row, buf.bytes, rowStride, pixelStride, width, height, out, outOffset, outPixelStride, r, pos,
            outPos, was);
    NextRow(outOffset, width, outPixelStride, r);
    nextPos := outPos + width * outPixelStride;
  }

  /** The inner loop of `extractPlaneToArray`: row `r`, already read into
      `row`, lands in the output cells of row `r`. */
  method CopyRow(row: array<int8>, ghost src: seq<int8>, rowStride: int, pixelStride: int, width: int, height: int,
                 out: array<int8>, outOffset: int, outPixelStride: int, r: int, pos: int, outPos: int,
                 ghost was: seq<int8>)
    requires PlaneCopyFits(|src|, rowStride, pixelStride, width, height, out.Length, outOffset, outPixelStride)
    requires 0 <= r < height && row != out
    requires outPos == CellIndex(outOffset, width, outPixelStride, r, 0)
    requires pos == r * rowStride && 0 <= pos && pos + RowLength(rowStride, width, pixelStride) <= |src|
    requires row[..] == src[pos..pos + RowLength(rowStride, width, pixelStride)]
    requires CopiedUpTo(out[..], src, rowStride, pixelStride, width, outOffset, outPixelStride, r, 0)
    requires UnchangedOutside(out[..], was, outOffset, outPixelStride, r * width)
    modifies out
    ensures CopiedUpTo(out[..], src, rowStride, pixelStride, width, outOffset, outPixelStride, r + 1, 0)
    ensures UnchangedOutside(out[..], was, outOffset, outPixelStride, (r + 1) * width)
  {
    var colOut := outPos;
    var c := 0;
    while c < width
      invariant 0 <= c <= width
      invariant colOut == CellIndex(outOffset, width, outPixelStride, r, c)
      invariant CopiedUpTo(out[..], src, rowStride, pixelStride, width, outOffset, outPixelStride, r, c)
      invariant UnchangedOutside(out[..], was, outOffset, outPixelStride, r * width + c)
    {
      WriteCellFits(rowStride, pixelStride, width, height, out.Length, outOffset, outPixelStride, |src|, r, c);
      ghost var before := out[..];
      out[colOut] := row[c * pixelStride];
      CellStep(out[..], before, was, src, rowStride, pixelStride, width, outOffset, outPixelStride, r, c);
      NextColumn(outOffset, width, outPixelStride, r, c);
      colOut := colOut + outPixelStride;
      c := c + 1;
    }
    assert r * width + width == (r + 1) * width;
  }

  /** The bounds of the write and of the read for cell (r, c). */
  lemma WriteCellFits(rowStride: int, pixelStride: int, width: int, height: int, outLength: int,
                      outOffset: int, ops: int, planeSize: int, r: int, c: int)
    requires PlaneCopyFits(planeSize, rowStride, pixelStride, width, height, outLength, outOffset, ops)
    requires 0 <= r < height && 0 <= c < width
    ensures 0 <= c * pixelStride < RowLength(rowStride, width, pixelStride)
    ensures 0 <= CellIndex(outOffset, width, ops, r, c) < outLength
    ensures 0 <= SourceIndex(rowStride, pixelStride, r, c) < planeSize
  {
    var rowLen := RowLength(rowStride, width, pixelStride);
    assert 0 <= c * pixelStride < rowLen by {
      ColumnInRow(rowStride, pixelStride, width, c);
    }
    assert 0 <= CellIndex(outOffset, width, ops, r, c) < outLength by {
      CellInOutput(width, height, outLength, outOffset, ops, r, c);
    }
    assert 0 <= SourceIndex(rowStride, pixelStride, r, c) < planeSize by {
      SourceInPlane(rowStride, c * pixelStride, rowLen, height, planeSize, r);
    }
  }

  /** A read at offset `k` of row `r`, inside the row read, stays inside the plane. */
  lemma SourceInPlane(rowStride: int, k: int, rowLen: int, height: int, planeSize: int, r: int)
    requires rowStride >= 0 && 0 <= r < height && 0 <= k < rowLen
    requires (height - 1) * rowStride + rowLen <= planeSize
    ensures 0 <= r * rowStride + k < planeSize
  {
    MulMonotone(r, height - 1, rowStride);
    MulMonotone(0, r, rowStride);
  }

  lemma ColumnInRow(rowStride: int, pixelStride: int, width: int, c: int)
    requires pixelStride >= 1 && 0 <= c < width && (width - 1) * pixelStride < rowStride
    ensures 0 <= c * pixelStride < RowLength(rowStride, width, pixelStride)
  {
    MulMonotone(0, c, pixelStride);
    MulMonotone(c, width - 1, pixelStride);
    MulStrict(c, width, pixelStride);
  }

  lemma CellInOutput(width: int, height: int, outLength: int, outOffset: int, ops: int, r: int, c: int)
    requires 0 <= r < height && 0 <= c < width && outOffset >= 0 && ops >= 1
    requires outOffset + (width * height - 1) * ops < outLength
    ensures 0 <= CellIndex(outOffset, width, ops, r, c) < outLength
  {
    CellInGrid(width, height, r, c);
    assert width * height == height * width;
    MulMonotone(0, r * width + c, ops);
    MulMonotone(r * width + c, height * width - 1, ops);
  }

  /** One write of the inner loop keeps both loop invariants. */
  lemma CellStep(out: seq<int8>, before: seq<int8>, was: seq<int8>, src: seq<int8>,
                 rowStride: int, pixelStride: int, width: int, outOffset: int, ops: int, r: int, c: int)
    requires ops >= 1 && 0 <= r && 0 <= c < width
    requires var k := CellIndex(outOffset, width, ops, r, c);
      && 0 <= k < |before| && |out| == |before|
      && 0 <= SourceIndex(rowStride, pixelStride, r, c) < |src|
      && out == before[k := src[SourceIndex(rowStride, pixelStride, r, c)]]
    requires CopiedUpTo(before, src, rowStride, pixelStride, width, outOffset, ops, r, c)
    requires UnchangedOutside(before, was, outOffset, ops, r * width + c)
    ensures CopiedUpTo(out, src, rowStride, pixelStride, width, outOffset, ops, r, c + 1)
    ensures UnchangedOutside(out, was, outOffset, ops, r * width + c + 1)
  {
    var k := CellIndex(outOffset, width, ops, r, c);
    forall r0, c0 | 0 <= r0 < r && 0 <= c0 < width
      ensures CellIndex(outOffset, width, ops, r0, c0) != k
    {
      CellOrder(width, r0, c0, r, c);
      MulStrict(r0 * width + c0, r * width + c, ops);
    }
    forall c0 | 0 <= c0 < c
      ensures CellIndex(outOffset, width, ops, r, c0) != k
    {
      CellOrder(width, r, c0, r, c);
      MulStrict(r * width + c0, r * width + c, ops);
    }
    assert r * width + c >= 0;
    CellNumber(outOffset, ops, r * width + c, r * width + c + 1);
    forall j | 0 <= j < |out| && !IsCell(outOffset, ops, j, r * width + c + 1)
      ensures out[j] == was[j]
    {
      assert j != k;
    }
  }

  /** The copied cells are exactly the first `width*height` output cells;
      with `outPixelStride == 1` that is the range
      `[outOffset, outOffset + width*height)`. */
  lemma DenseCopyRange(out: seq<int8>, was: seq<int8>, outOffset: int, n: int)
    requires UnchangedOutside(out, was, outOffset, 1, n)
    ensures forall k :: 0 <= k < |out| && !(outOffset <= k < outOffset + n) ==> out[k] == was[k]
  {
  }

  // ---------------------------------------------------------------------
  // NV21 layout

  /** `(int) Math.ceil(d / 2.0)` for a non-negative dimension. */
  function ChromaDim(d: nat): (r: nat)
    ensures d <= 2 * r <= d + 1
  {
    (d + 1) / 2
  }

  /** The size of the NV21 buffer: `width * height * 3 / 2`. */
  function Nv21Size(width: nat, height: nat): (n: nat)
    ensures 2 * n <= 3 * (width * height) < 2 * n + 2
  {
    width * height * 3 / 2
  }

  /** For even dimensions the luma plane and the V/U pairs fill the buffer
      exactly. */
  lemma EvenDimensionsFill(width: nat, height: nat)
    requires width % 2 == 0 && height % 2 == 0
    ensures width * height + 2 * (ChromaDim(width) * ChromaDim(height)) == Nv21Size(width, height)
  {
    var a, b := width / 2, height / 2;
    assert ChromaDim(width) == a && ChromaDim(height) == b;
    assert width * height == 4 * (a * b) by {
      assert width * height == (2 * a) * (2 * b);
    }
    assert width * height * 3 == 2 * (6 * (a * b));
  }

  /** For an odd dimension the V/U pairs run past the end of the buffer. */
  lemma OddDimensionsOverrun(width: nat, height: nat)
    requires width >= 1 && height >= 1
    requires width % 2 == 1 || height % 2 == 1
    ensures width * height + 2 * (ChromaDim(width) * ChromaDim(height)) > Nv21Size(width, height)
  {
    var cw, ch := ChromaDim(width), ChromaDim(height);
    assert 2 * cw >= width && 2 * ch >= height;
    assert 4 * (cw * ch) == (2 * cw) * (2 * ch);
    MulMonotone(width, 2 * cw, 2 * ch);
    MulMonotone(height, 2 * ch, width);
    if width % 2 == 1 {
      assert 2 * cw == width + 1;
      assert (2 * cw) * (2 * ch) >= (width + 1) * height;
    } else {
      assert 2 * ch == height + 1;
      assert (2 * cw) * (2 * ch) >= width * (height + 1);
    }
    assert 4 * (cw * ch) > width * height;
  }

  /** Every index the chroma loop reads lies inside its plane. */
  predicate ChromaReadsFit(uSize: int, uRowStride: int, uPixelStride: int,
                           vSize: int, vRowStride: int, vPixelStride: int,
                           chromaWidth: nat, chromaHeight: nat)
  {
    && uRowStride >= 0 && uPixelStride >= 0 && vRowStride >= 0 && vPixelStride >= 0
    && (chromaWidth * chromaHeight >= 1 ==>
          && (chromaHeight - 1) * uRowStride + (chromaWidth - 1) * uPixelStride < uSize
          && (chromaHeight - 1) * vRowStride + (chromaWidth - 1) * vPixelStride < vSize)
  }

  /** What the chroma loop needs to run without an exception: its reads fit
      and every pair it writes lies inside the buffer. */
  predicate ChromaFits(uSize: int, uRowStride: int, uPixelStride: int,
                       vSize: int, vRowStride: int, vPixelStride: int,
                       chromaWidth: nat, chromaHeight: nat, outLength: int, start: int)
  {
    && ChromaReadsFit(uSize, uRowStride, uPixelStride, vSize, vRowStride, vPixelStride, chromaWidth, chromaHeight)
    && start >= 0 && start + 2 * (chromaWidth * chromaHeight) <= outLength
  }

  /** The V/U pairs of all cells before (row, col) in row-major order. */
  ghost predicate InterleavedUpTo(out: seq<int8>, u: seq<int8>, v: seq<int8>,
                                  uRowStride: int, uPixelStride: int, vRowStride: int, vPixelStride: int,
                                  chromaWidth: int, start: int, row: int, col: int)
  {
    && (forall r0, c0 :: 0 <= r0 < row && 0 <= c0 < chromaWidth ==>
          VuPairAt(out, u, v, uRowStride, uPixelStride, vRowStride, vPixelStride, chromaWidth, start, r0, c0))
    && (forall c0 :: 0 <= c0 < col ==>
          VuPairAt(out, u, v, uRowStride, uPixelStride, vRowStride, vPixelStride, chromaWidth, start, row, c0))
  }

  /** Chroma cell (r, c): `out[start + 2*(r*chromaWidth + c)]` is the V sample
      and the byte after it the U sample, each read with its own plane's
      row and pixel strides. */
  ghost predicate VuPairAt(out: seq<int8>, u: seq<int8>, v: seq<int8>,
                           uRowStride: int, uPixelStride: int, vRowStride: int, vPixelStride: int,
                           chromaWidth: int, start: int, r: int, c: int)
  {
    var k := CellIndex(start, chromaWidth, 2, r, c);
    var ui := SourceIndex(uRowStride, uPixelStride, r, c);
    var vi := SourceIndex(vRowStride, vPixelStride, r, c);
    && 0 <= k && k + 1 < |out| && 0 <= ui < |u| && 0 <= vi < |v|
    && out[k] == v[vi] && out[k + 1] == u[ui]
  }

  /** The chroma loop of `yuv420888ToJpeg`: for each chroma cell, the V
      sample then the U sample, from absolute reads that leave both buffers'
      positions alone. Entries before `start` and from
      `start + 2*chromaWidth*chromaHeight` on are untouched. */
  method InterleaveChroma(uBuf: ByteBuffer, uRowStride: int, uPixelStride: int,
                          vBuf: ByteBuffer, vRowStride: int, vPixelStride: int,
                          chromaWidth: nat, chromaHeight: nat, nv21: array<int8>, start: int)
    requires ChromaFits(|uBuf.bytes|, uRowStride, uPixelStride, |vBuf.bytes|, vRowStride, vPixelStride,
                        chromaWidth, chromaHeight, nv21.Length, start)
    modifies nv21
    ensures forall r, c :: 0 <= r < chromaHeight && 0 <= c < chromaWidth ==>
      VuPairAt(nv21[..], uBuf.bytes, vBuf.bytes, uRowStride, uPixelStride, vRowStride, vPixelStride,
               chromaWidth, start, r, c)
    ensures forall k :: 0 <= k < nv21.Length && !(start <= k < start + 2 * (chromaWidth * chromaHeight)) ==>
      nv21[k] == old(nv21[k])
  {
    var pos := start;
    var row := 0;
    while row < chromaHeight
      invariant 0 <= row <= chromaHeight
      invariant pos == CellIndex(start, chromaWidth, 2, row, 0)
      invariant InterleavedUpTo(nv21[..], uBuf.bytes, vBuf.bytes, uRowStride, uPixelStride, vRowStride,
                                vPixelStride, chromaWidth, start, row, 0)
      invariant forall k :: 0 <= k < nv21.Length && !(start <= k < pos) ==> nv21[k] == old(nv21[k])
    {
      var uRowStart := row * uRowStride;
      var vRowStart := row * vRowStride;
      InterleaveRow(uBuf, uRowStride, uPixelStride, vBuf, vRowStride, vPixelStride, chromaWidth, chromaHeight,
                    nv21, start, row, uRowStart, vRowStart, pos, old(nv21[..]));
      pos := pos + 2 * chromaWidth;
      assert row * chromaWidth + chromaWidth == (row + 1) * chromaWidth;
      row := row + 1;
    }
    assert pos == start + 2 * (chromaWidth * chromaHeight) by {
      assert chromaHeight * chromaWidth == chromaWidth * chromaHeight;
    }
  }

  /** One row of the chroma loop: the V/U pairs of chroma row `row`. */
  method InterleaveRow(uBuf: ByteBuffer, uRowStride: int, uPixelStride: int,
                       vBuf: ByteBuffer, vRowStride: int, vPixelStride: int,
                       chromaWidth: nat, chromaHeight: nat, nv21: array<int8>, start: int,
                       row: int, uRowStart: int, vRowStart: int, rowPos: int, ghost was: seq<int8>)
    requires ChromaFits(|uBuf.bytes|, uRowStride, uPixelStride, |vBuf.bytes|, vRowStride, vPixelStride,
                        chromaWidth, chromaHeight, nv21.Length, start)
    requires 0 <= row < chromaHeight && uRowStart == row * uRowStride && vRowStart == row * vRowStride
    requires rowPos == CellIndex(start, chromaWidth, 2, row, 0) && |was| == nv21.Length
    requires InterleavedUpTo(nv21[..], uBuf.bytes, vBuf.bytes, uRowStride, uPixelStride, vRowStride,
                             vPixelStride, chromaWidth, start, row, 0)
    requires forall k :: 0 <= k < nv21.Length && !(start <= k < rowPos) ==> nv21[k] == was[k]
    modifies nv21
    ensures InterleavedUpTo(nv21[..], uBuf.bytes, vBuf.bytes, uRowStride, uPixelStride, vRowStride,
                            vPixelStride, chromaWidth, start, row, chromaWidth)
    ensures forall k :: 0 <= k < nv21.Length && !(start <= k < rowPos + 2 * chromaWidth) ==> nv21[k] == was[k]
  {
    var pos := rowPos;
    var col := 0;
    while col < chromaWidth
      invariant 0 <= col <= chromaWidth
      invariant pos == CellIndex(start, chromaWidth, 2, row, col) && pos == rowPos + 2 * col
      invariant InterleavedUpTo(nv21[..], uBuf.bytes, vBuf.bytes, uRowStride, uPixelStride, vRowStride,
                                vPixelStride, chromaWidth, start, row, col)
      invariant forall k :: 0 <= k < nv21.Length && !(start <= k < pos) ==> nv21[k] == was[k]
    {
      var uIndex := uRowStart + col * uPixelStride;
      var vIndex := vRowStart + col * vPixelStride;
      ChromaCellFits(uRowStride, uPixelStride, vRowStride, vPixelStride, chromaWidth, chromaHeight,
                     start, |uBuf.bytes|, |vBuf.bytes|, nv21.Length, row, col);
      ghost var before := nv21[..];
      nv21[pos] := vBuf.bytes[vIndex];
      nv21[pos + 1] := uBuf.bytes[uIndex];
      PairStep(nv21[..], before, uBuf.bytes, vBuf.bytes, uRowStride, uPixelStride, vRowStride, vPixelStride,
               chromaWidth, start, row, col);
      pos := pos + 2;
      col := col + 1;
    }
  }

  /** The bounds of the pair written for chroma cell (r, c). */
  lemma ChromaCellFits(uRowStride: int, uPixelStride: int, vRowStride: int, vPixelStride: int,
                       chromaWidth: nat, chromaHeight: nat, start: int,
                       uSize: int, vSize: int, outLength: int, r: int, c: int)
    requires ChromaFits(uSize, uRowStride, uPixelStride, vSize, vRowStride, vPixelStride,
                        chromaWidth, chromaHeight, outLength, start)
    requires 0 <= r < chromaHeight && 0 <= c < chromaWidth
    ensures 0 <= CellIndex(start, chromaWidth, 2, r, c) && CellIndex(start, chromaWidth, 2, r, c) + 1 < outLength
    ensures 0 <= SourceIndex(uRowStride, uPixelStride, r, c) < uSize
    ensures 0 <= SourceIndex(vRowStride, vPixelStride, r, c) < vSize
  {
    CellInGrid(chromaWidth, chromaHeight, r, c);
    assert chromaHeight * chromaWidth == chromaWidth * chromaHeight;
    MulMonotone(r, chromaHeight - 1, uRowStride);
    MulMonotone(c, chromaWidth - 1, uPixelStride);
    MulMonotone(r, chromaHeight - 1, vRowStride);
    MulMonotone(c, chromaWidth - 1, vPixelStride);
  }

  /** One pair written by the inner chroma loop keeps its invariant. */
  lemma PairStep(out: seq<int8>, before: seq<int8>, u: seq<int8>, v: seq<int8>,
                 uRowStride: int, uPixelStride: int, vRowStride: int, vPixelStride: int,
                 chromaWidth: int, start: int, row: int, col: int)
    requires 0 <= row && 0 <= col < chromaWidth
    requires var k := CellIndex(start, chromaWidth, 2, row, col);
      && 0 <= k && k + 1 < |before| && |out| == |before|
      && 0 <= SourceIndex(uRowStride, uPixelStride, row, col) < |u|
      && 0 <= SourceIndex(vRowStride, vPixelStride, row, col) < |v|
      && out == before[k := v[SourceIndex(vRowStride, vPixelStride, row, col)]]
                      [k + 1 := u[SourceIndex(uRowStride, uPixelStride, row, col)]]
    requires InterleavedUpTo(before, u, v, uRowStride, uPixelStride, vRowStride, vPixelStride,
                             chromaWidth, start, row, col)
    ensures InterleavedUpTo(out, u, v, uRowStride, uPixelStride, vRowStride, vPixelStride,
                            chromaWidth, start, row, col + 1)
  {
    var k := CellIndex(start, chromaWidth, 2, row, col);
    forall r0, c0 | 0 <= r0 < row && 0 <= c0 < chromaWidth
      ensures VuPairAt(out, u, v, uRowStride, uPixelStride, vRowStride, vPixelStride, chromaWidth, start, r0, c0)
    {
      CellOrder(chromaWidth, r0, c0, row, col);
      assert VuPairAt(before, u, v, uRowStride, uPixelStride, vRowStride, vPixelStride, chromaWidth, start, r0, c0);
    }
    forall c0 | 0 <= c0 < col + 1
      ensures VuPairAt(out, u, v, uRowStride, uPixelStride, vRowStride, vPixelStride, chromaWidth, start, row, c0)
    {
      if c0 < col {
        CellOrder(chromaWidth, row, c0, row, col);
        assert VuPairAt(before, u, v, uRowStride, uPixelStride, vRowStride, vPixelStride, chromaWidth, start, row, c0);
      }
    }
  }

  /** The V/U pairs of a frame overrun its NV21 buffer. */
  predicate ChromaOverrun(width: nat, height: nat)
  {
    width * height + 2 * (ChromaDim(width) * ChromaDim(height)) > Nv21Size(width, height)
  }

  /** The chroma loop overruns the buffer exactly when the frame is not
      empty and one of its dimensions is odd. */
  lemma ChromaOverrunIff(width: nat, height: nat)
    ensures ChromaOverrun(width, height) <==> width >= 1 && height >= 1 && (width % 2 == 1 || height % 2 == 1)
  {
    if width >= 1 && height >= 1 && (width % 2 == 1 || height % 2 == 1) {
      OddDimensionsOverrun(width, height);
    } else if width % 2 == 0 && height % 2 == 0 {
      EvenDimensionsFill(width, height);
    } else if width == 0 {
      assert ChromaDim(width) == 0;
    } else {
      assert height == 0 && ChromaDim(height) == 0;
    }
  }

  // ---------------------------------------------------------------------
  // Frames and the YUV_420_888 path

  /** `ImageFormat.YUV_420_888`. */
  const Yuv420888: int := 0x23

  /** One `Image.Plane`: its buffer and its strides. */
  datatype Plane = Plane(buffer: ByteBuffer, rowStride: int, pixelStride: int)

  /** An `android.media.Image`: format, size and planes. */
  datatype Image = Image(format: int, width: nat, height: nat, planes: seq<Plane>)

  /** What a JPEG conversion comes to: bytes, a `null` result, or an
      exception thrown to the caller. */
  datatype JpegOutcome = Jpeg(bytes: seq<int8>) | NullJpeg | Thrown

  /** A JPEG encoder's result: `None` means it threw. */
  function Encoded(result: Option<seq<int8>>): (r: JpegOutcome)
    ensures r != NullJpeg
    ensures r.Jpeg? <==> result.Some?
    ensures r.Jpeg? ==> r.bytes == result.value
  {
    if result.Some? then Jpeg(result.value) else Thrown
  }

  /** The geometry a YUV_420_888 frame from the platform has: three planes,
      and planes that hold every sample the conversion reads (strides are
      never negative). */
  ghost predicate YuvGeometry(image: Image)
  {
    && |image.planes| == 3
    && PlaneCopyFits(|image.planes[0].buffer.bytes|, image.planes[0].rowStride, image.planes[0].pixelStride,
                     image.width, image.height, Nv21Size(image.width, image.height), 0, 1)
    && ChromaReadsFit(|image.planes[1].buffer.bytes|, image.planes[1].rowStride, image.planes[1].pixelStride,
                      |image.planes[2].buffer.bytes|, image.planes[2].rowStride, image.planes[2].pixelStride,
                      ChromaDim(image.width), ChromaDim(image.height))
  }

  /** `nv21` is the NV21 frame of `image`: every luma sample at
      `r*width + c`, then from `width*height` on, per chroma cell, the V
      sample followed by the U sample. */
  ghost predicate Nv21Layout(nv21: seq<int8>, image: Image)
    requires |image.planes| == 3
  {
    var y, u, v := image.planes[0], image.planes[1], image.planes[2];
    && |nv21| == Nv21Size(image.width, image.height)
    && (forall r, c :: 0 <= r < image.height && 0 <= c < image.width ==>
          0 <= CellIndex(0, image.width, 1, r, c) < |nv21| &&
          0 <= SourceIndex(y.rowStride, y.pixelStride, r, c) < |y.buffer.bytes| &&
          nv21[CellIndex(0, image.width, 1, r, c)] == y.buffer.bytes[SourceIndex(y.rowStride, y.pixelStride, r, c)])
    && (forall r, c :: 0 <= r < ChromaDim(image.height) && 0 <= c < ChromaDim(image.width) ==>
          VuPairAt(nv21, u.buffer.bytes, v.buffer.bytes, u.rowStride, u.pixelStride, v.rowStride, v.pixelStride,
                   ChromaDim(image.width), image.width * image.height, r, c))
  }

  /** `yuv420888ToJpeg`: builds the NV21 frame and hands it to the encoder.
      The call throws when the luma buffer's mark was lost (it did not start
      at position 0), when an odd dimension makes the chroma loop write past
      the buffer, or when the encoder throws; otherwise the result is what
      the encoder made of the NV21 frame `nv21`. */
  method Yuv420888ToJpeg(image: Image, quality: int, encode: (seq<int8>, int, int, int) -> Option<seq<int8>>)
    returns (r: JpegOutcome, ghost nv21: seq<int8>)
    requires YuvGeometry(image) && image.planes[0].buffer.Valid()
    modifies image.planes[0].buffer
    ensures image.planes[0].buffer.Valid()
    ensures old(image.planes[0].buffer.position) == 0 || image.height == 0 ==>
      image.planes[0].buffer.position == old(image.planes[0].buffer.position)
    ensures YuvConversion(image, old(image.planes[0].buffer.position), quality, encode, r, nv21)
  {
    var width, height := image.width, image.height;
    var out := new int8[width * height * 3 / 2];
    var y, u, v := image.planes[0], image.planes[1], image.planes[2];
    var restored := ExtractPlaneToArray(y.buffer, y.rowStride, y.pixelStride, width, height, out, 0, 1);
    nv21 := out[..];
    if !restored {
      // buf.reset() throws InvalidMarkException
      r := Thrown;
      return;
    }
    var chromaWidth, chromaHeight := ChromaDim(width), ChromaDim(height);
    if width * height + 2 * (chromaWidth * chromaHeight) > out.Length {
      // the loop stores past the end of nv21: ArrayIndexOutOfBoundsException
      r := Thrown;
      return;
    }
    ghost var luma := out[..];
    InterleaveChroma(u.buffer, u.rowStride, u.pixelStride, v.buffer, v.rowStride, v.pixelStride,
                     chromaWidth, chromaHeight, out, width * height);
    nv21 := out[..];
    LumaKept(luma, nv21, width, height);
    r := Encoded(encode(out[..], width, height, quality));
  }

  /** The chroma loop leaves the luma samples in place. */
  lemma LumaKept(luma: seq<int8>, nv21: seq<int8>, width: nat, height: nat)
    requires |luma| == |nv21| >= width * height
    requires forall k :: 0 <= k < width * height ==> nv21[k] == luma[k]
    ensures forall r, c :: 0 <= r < height && 0 <= c < width ==>
      0 <= CellIndex(0, width, 1, r, c) < |nv21| &&
      nv21[CellIndex(0, width, 1, r, c)] == luma[CellIndex(0, width, 1, r, c)]
  {
    forall r, c | 0 <= r < height && 0 <= c < width
      ensures 0 <= CellIndex(0, width, 1, r, c) < width * height
    {
      CellInGrid(width, height, r, c);
      assert width * height == height * width;
    }
  }

  /** Cell number `j` of a grid `width` wide sits at row `j / width`,
      column `j % width`. */
  lemma GridCoordinates(j: int, width: nat, height: nat)
    requires 0 <= j < width * height
    ensures width >= 1
    ensures 0 <= j / width < height && 0 <= j % width < width && (j / width) * width + j % width == j
  {
    var r := j / width;
    if r >= height {
      MulMonotone(height, r, width);
    }
  }

  /** For even dimensions the layout fixes every byte of the NV21 frame:
      each one is a luma sample or one half of a V/U pair. */
  lemma Nv21LayoutDetermined(a: seq<int8>, b: seq<int8>, image: Image)
    requires |image.planes| == 3 && image.width % 2 == 0 && image.height % 2 == 0
    requires Nv21Layout(a, image) && Nv21Layout(b, image)
    ensures a == b
  {
    var w, h := image.width, image.height;
    var y, u, v := image.planes[0], image.planes[1], image.planes[2];
    EvenDimensionsFill(w, h);
    forall k | 0 <= k < |a|
      ensures a[k] == b[k]
    {
      if k < w * h {
        LumaByteDetermined(a, b, y.buffer.bytes, y.rowStride, y.pixelStride, w, h, k);
      } else {
        ChromaByteDetermined(a, b, u.buffer.bytes, v.buffer.bytes, u.rowStride, u.pixelStride,
                             v.rowStride, v.pixelStride, ChromaDim(w), ChromaDim(h), w * h, k);
      }
    }
  }

  lemma LumaByteDetermined(a: seq<int8>, b: seq<int8>, src: seq<int8>, rowStride: int, pixelStride: int,
                           width: nat, height: nat, k: int)
    requires 0 <= k < width * height && |a| == |b|
    requires forall r, c :: 0 <= r < height && 0 <= c < width ==>
      0 <= CellIndex(0, width, 1, r, c) < |a| && 0 <= SourceIndex(rowStride, pixelStride, r, c) < |src| &&
      a[CellIndex(0, width, 1, r, c)] == src[SourceIndex(rowStride, pixelStride, r, c)]
    requires forall r, c :: 0 <= r < height && 0 <= c < width ==>
      0 <= CellIndex(0, width, 1, r, c) < |b| && 0 <= SourceIndex(rowStride, pixelStride, r, c) < |src| &&
      b[CellIndex(0, width, 1, r, c)] == src[SourceIndex(rowStride, pixelStride, r, c)]
    ensures 0 <= k < |a| && a[k] == b[k]
  {
    GridCoordinates(k, width, height);
    var r, c := k / width, k % width;
    assert CellIndex(0, width, 1, r, c) == k;
  }

  lemma ChromaByteDetermined(a: seq<int8>, b: seq<int8>, u: seq<int8>, v: seq<int8>,
                             uRowStride: int, uPixelStride: int, vRowStride: int, vPixelStride: int,
                             chromaWidth: nat, chromaHeight: nat, start: int, k: int)
    requires start <= k < start + 2 * (chromaWidth * chromaHeight)
    requires forall r, c :: 0 <= r < chromaHeight && 0 <= c < chromaWidth ==>
      VuPairAt(a, u, v, uRowStride, uPixelStride, vRowStride, vPixelStride, chromaWidth, start, r, c)
    requires forall r, c :: 0 <= r < chromaHeight && 0 <= c < chromaWidth ==>
      VuPairAt(b, u, v, uRowStride, uPixelStride, vRowStride, vPixelStride, chromaWidth, start, r, c)
    ensures 0 <= k < |a| && 0 <= k < |b| && a[k] == b[k]
  {
    var j, t := (k - start) / 2, (k - start) % 2;
    assert k - start == 2 * j + t;
    GridCoordinates(j, chromaWidth, chromaHeight);
    var row, col := j / chromaWidth, j % chromaWidth;
    assert CellIndex(start, chromaWidth, 2, row, col) + t == k;
    assert VuPairAt(a, u, v, uRowStride, uPixelStride, vRowStride, vPixelStride, chromaWidth, start, row, col);
    assert VuPairAt(b, u, v, uRowStride, uPixelStride, vRowStride, vPixelStride, chromaWidth, start, row, col);
  }

  /** The outcome of the YUV path for a frame whose luma buffer started at
      position `start`, given the NV21 frame `nv21` handed to the encoder. */
  ghost predicate YuvConversion(image: Image, start: int, quality: int,
                                encode: (seq<int8>, int, int, int) -> Option<seq<int8>>,
                                r: JpegOutcome, nv21: seq<int8>)
    requires |image.planes| == 3
  {
    && r != NullJpeg
    && (!(start == 0 || image.height == 0) ==> r == Thrown)
    && (ChromaOverrun(image.width, image.height) ==> r == Thrown)
    && ((start == 0 || image.height == 0) && !ChromaOverrun(image.width, image.height) ==>
          Nv21Layout(nv21, image) && r == Encoded(encode(nv21, image.width, image.height, quality)))
  }

  // ---------------------------------------------------------------------
  // The RGBA path

  /** An ARGB_8888 bitmap: `rows[y]` holds the `4*width` bytes of row `y`,
      in the order `copyPixelsFromBuffer` reads them. */
  datatype Bitmap = Bitmap(width: int, height: int, rows: seq<seq<int8>>)

  predicate WellFormed(b: Bitmap)
  {
    b.width >= 1 && b.height >= 1 && |b.rows| == b.height &&
    forall y :: 0 <= y < |b.rows| ==> |b.rows[y]| == 4 * b.width
  }

  /** `width + rowPadding / pixelStride` with `rowPadding = rowStride -
      pixelStride * width`: the width of the bitmap the padded rows are
      copied into. Every step is Java `int` arithmetic: the product, the
      difference, the truncating quotient and the sum wrap to 32 bits. */
  function PaddedWidth(width: int, rowStride: int, pixelStride: int): int
    requires pixelStride != 0
  {
    var rowPadding := ToInt32(rowStride - ToInt32(pixelStride * width));
    ToInt32(width + ToInt32(JavaDiv(rowPadding, pixelStride)))
  }

  /** The 32-bit wrap matters: with `pixelStride * width == 2^32` the product
      is 0 in Java, so the padding is the whole row stride. */
  lemma PaddedWidthWraps()
    ensures PaddedWidth(65536, 65536, 65536) == 65537
  {
    assert ToInt32(65536 * 65536) == 0;
    assert JavaDiv(65536, 65536) == 1;
  }

  /** When the row stride is an `int` that holds `width` pixels, no step of
      the padded-width arithmetic wraps: the padded width is the number of
      whole pixels in a row, and a row stride that is a multiple of the pixel
      stride is exactly `paddedWidth` pixels. */
  lemma PaddedWidthOfStride(width: int, rowStride: int, pixelStride: int)
    requires pixelStride >= 1 && 0 <= width && rowStride >= pixelStride * width && IsInt32(rowStride)
    ensures PaddedWidth(width, rowStride, pixelStride) == rowStride / pixelStride
    ensures PaddedWidth(width, rowStride, pixelStride) >= width
    ensures rowStride % pixelStride == 0 ==> PaddedWidth(width, rowStride, pixelStride) * pixelStride == rowStride
  {
    var q := rowStride / pixelStride - width;
    StrideDivision(width, rowStride, pixelStride);
    PaddedWidthUnwrapped(width, rowStride, pixelStride, pixelStride * width, rowStride - pixelStride * width, q);
  }

  /** The division facts behind `PaddedWidthOfStride`, on unbounded integers. */
  lemma StrideDivision(width: int, rowStride: int, pixelStride: int)
    requires pixelStride >= 1 && 0 <= width && rowStride >= pixelStride * width
    ensures 0 <= pixelStride * width <= rowStride
    ensures (rowStride - pixelStride * width) / pixelStride == rowStride / pixelStride - width
    ensures 0 <= width <= rowStride / pixelStride <= rowStride
    ensures rowStride % pixelStride == 0 ==> rowStride / pixelStride * pixelStride == rowStride
  {
    var prod := pixelStride * width;
    assert 0 <= prod by {
      MulMonotone(0, width, pixelStride);
    }
    var q0, rem := rowStride / pixelStride, rowStride % pixelStride;
    var pad := rowStride - prod;
    assert pad == (q0 - width) * pixelStride + rem;
    DivUnique(pad, pixelStride, q0 - width, rem);
    assert 0 <= q0 <= rowStride by {
      MulMonotone(1, pixelStride, q0);
    }
  }

  /** Each `int` step of `PaddedWidth` that stays in range is exact, so the
      wrapped result is the plain `width + pad / pixelStride`. */
  lemma PaddedWidthUnwrapped(width: int, rowStride: int, pixelStride: int, prod: int, pad: int, q: int)
    requires pixelStride >= 1 && prod == pixelStride * width && pad == rowStride - prod && q == pad / pixelStride
    requires IsInt32(prod) && IsInt32(pad) && 0 <= pad && IsInt32(q) && IsInt32(width + q)
    ensures PaddedWidth(width, rowStride, pixelStride) == width + q
  {
  }

  function RowStart(rowBytes: int, y: int): int
  {
    rowBytes * y
  }

  lemma RowsFit(rowBytes: nat, count: nat)
    ensures forall y :: 0 <= y < count ==> 0 <= RowStart(rowBytes, y) && RowStart(rowBytes, y) + rowBytes <= rowBytes * count
  {
    forall y | 0 <= y < count
      ensures 0 <= RowStart(rowBytes, y) && RowStart(rowBytes, y) + rowBytes <= rowBytes * count
    {
      MulMonotone(0, y, rowBytes);
      MulMonotone(y + 1, count, rowBytes);
      assert rowBytes * (y + 1) == rowBytes * y + rowBytes;
    }
  }

  /** `Bitmap.createBitmap(width, height, ARGB_8888)`: a cleared bitmap;
      `None` for the IllegalArgumentException on a non-positive size. */
  function CreateBitmap(width: int, height: int): (r: Option<Bitmap>)
    ensures r.Some? <==> width >= 1 && height >= 1
    ensures r.Some? ==> WellFormed(r.value) && r.value.width == width && r.value.height == height
  {
    if width <= 0 || height <= 0 then None
    else Some(Bitmap(width, height, seq(height, _ => seq(4 * width, _ => 0 as int8))))
  }

  /** `copyPixelsFromBuffer`: fills the bitmap row after row from the bytes
      remaining in the buffer; `None` for the RuntimeException when fewer
      than `4*width*height` bytes remain. */
  function CopyPixelsFromBuffer(b: Bitmap, remaining: seq<int8>): (r: Option<Bitmap>)
    requires WellFormed(b)
    ensures r.Some? <==> |remaining| >= 4 * b.width * b.height
    ensures r.Some? ==> WellFormed(r.value) && r.value.width == b.width && r.value.height == b.height
    ensures r.Some? ==> forall y :: 0 <= y < b.height ==>
      0 <= RowStart(4 * b.width, y) && RowStart(4 * b.width, y) + 4 * b.width <= |remaining| &&
      r.value.rows[y] == remaining[RowStart(4 * b.width, y)..RowStart(4 * b.width, y) + 4 * b.width]
  {
    if |remaining| < 4 * b.width * b.height then None
    else
      RowsFit(4 * b.width, b.height);
      Some(Bitmap(b.width, b.height,
                  seq(b.height, y requires 0 <= y < b.height =>
                        remaining[RowStart(4 * b.width, y)..RowStart(4 * b.width, y) + 4 * b.width])))
  }

  /** `Bitmap.createBitmap(source, 0, 0, width, height)`: the top-left
      `width` x `height` pixels; `None` for the IllegalArgumentException when
      the size is not positive or exceeds the source. */
  function CropBitmap(b: Bitmap, width: int, height: int): (r: Option<Bitmap>)
    requires WellFormed(b)
    ensures r.Some? <==> 1 <= width <= b.width && 1 <= height <= b.height
    ensures r.Some? ==> WellFormed(r.value) && r.value.width == width && r.value.height == height
    ensures r.Some? ==> forall y :: 0 <= y < height ==> r.value.rows[y] == b.rows[y][..4 * width]
  {
    if width <= 0 || height <= 0 || width > b.width || height > b.height then None
    else Some(Bitmap(width, height, seq(height, y requires 0 <= y < height => b.rows[y][..4 * width])))
  }

  /** `rgbaImageToBitmap`, on the bytes remaining in plane 0 and its strides:
      `None` stands for any exception it throws. */
  function RgbaImageToBitmap(remaining: seq<int8>, rowStride: int, pixelStride: int, width: int, height: int)
    : Option<Bitmap>
  {
    if pixelStride == 0 then None  // ArithmeticException: division by zero
    else
      match CreateBitmap(PaddedWidth(width, rowStride, pixelStride), height)
      case None => None
      case Some(bmp) =>
        match CopyPixelsFromBuffer(bmp, remaining)
        case None => None
        case Some(full) => CropBitmap(full, width, height)
  }

  /** The RGBA path succeeds exactly when the pixel stride is not zero, the
      padded width is at least the width, the frame is not empty, and the
      plane holds `4*paddedWidth*height` bytes; row `y` of the bitmap is then
      the first `4*width` bytes of the `y`-th run of `4*paddedWidth` bytes. */
  lemma RgbaImageToBitmapSpec(remaining: seq<int8>, rowStride: int, pixelStride: int, width: int, height: int)
    ensures var r := RgbaImageToBitmap(remaining, rowStride, pixelStride, width, height);
      && (r.Some? <==>
            pixelStride != 0 && 1 <= width <= PaddedWidth(width, rowStride, pixelStride) && height >= 1 &&
            |remaining| >= 4 * PaddedWidth(width, rowStride, pixelStride) * height)
      && (r.Some? ==>
            var w := PaddedWidth(width, rowStride, pixelStride);
            && WellFormed(r.value) && r.value.width == width && r.value.height == height
            && forall y :: 0 <= y < height ==>
                 0 <= RowStart(4 * w, y) && RowStart(4 * w, y) + 4 * width <= |remaining| &&
                 r.value.rows[y] == remaining[RowStart(4 * w, y)..RowStart(4 * w, y) + 4 * width])
  {
    var r := RgbaImageToBitmap(remaining, rowStride, pixelStride, width, height);
    if pixelStride != 0 {
      var w := PaddedWidth(width, rowStride, pixelStride);
      if w >= 1 && height >= 1 {
        var bmp := CreateBitmap(w, height).value;
        if |remaining| >= 4 * w * height {
          var full := CopyPixelsFromBuffer(bmp, remaining).value;
          if r.Some? {
            forall y | 0 <= y < height
              ensures r.value.rows[y] == remaining[RowStart(4 * w, y)..RowStart(4 * w, y) + 4 * width]
            {
              assert r.value.rows[y] == full.rows[y][..4 * width];
            }
          }
        }
      }
    }
  }

  /** For a packed RGBA plane (4 bytes per pixel, row stride a multiple of 4
      that holds the row), row `y` of the bitmap is the plane's row `y`: the
      row padding is skipped exactly. */
  lemma RgbaRowsFollowStride(remaining: seq<int8>, rowStride: int, width: int, height: int, y: int)
    requires rowStride >= 4 * width && rowStride % 4 == 0 && IsInt32(rowStride)
    requires RgbaImageToBitmap(remaining, rowStride, 4, width, height).Some? && 0 <= y < height
    ensures 0 <= y * rowStride && y * rowStride + 4 * width <= |remaining|
    ensures RgbaImageToBitmap(remaining, rowStride, 4, width, height).value.rows[y] ==
            remaining[y * rowStride..y * rowStride + 4 * width]
  {
    RgbaImageToBitmapSpec(remaining, rowStride, 4, width, height);
    PaddedWidthOfStride(width, rowStride, 4);
    var w := PaddedWidth(width, rowStride, 4);
    assert RowStart(4 * w, y) == y * rowStride;
  }

  /** The RGBA half of `imageToJpeg`: every exception, in the conversion or
      in the encoder, becomes a `null` result. */
  function RgbaToJpeg(remaining: seq<int8>, rowStride: int, pixelStride: int, width: int, height: int,
                      quality: int, encode: (Bitmap, int) -> Option<seq<int8>>): (r: JpegOutcome)
    ensures r != Thrown
    ensures r.Jpeg? <==> (var b := RgbaImageToBitmap(remaining, rowStride, pixelStride, width, height);
                          b.Some? && encode(b.value, quality).Some?)
    ensures r.Jpeg? ==> r.bytes == encode(RgbaImageToBitmap(remaining, rowStride, pixelStride, width, height).value,
                                          quality).value
  {
    match RgbaImageToBitmap(remaining, rowStride, pixelStride, width, height)
    case None => NullJpeg
    case Some(bmp) =>
      match encode(bmp, quality)
      case None => NullJpeg
      case Some(bytes) => Jpeg(bytes)
  }

  // ---------------------------------------------------------------------
  // Dispatch

  /** `imageToJpeg`: a YUV_420_888 frame takes the YUV path, whose
      exceptions reach the caller; any other format takes the RGBA path,
      which answers `null` on failure (also when the frame has no plane). */
  method ImageToJpeg(image: Image, quality: int,
                     encodeYuv: (seq<int8>, int, int, int) -> Option<seq<int8>>,
                     encodeBitmap: (Bitmap, int) -> Option<seq<int8>>)
    returns (r: JpegOutcome, ghost nv21: seq<int8>)
    requires image.format == Yuv420888 ==> YuvGeometry(image)
    requires |image.planes| >= 1 ==> image.planes[0].buffer.Valid()
    modifies if image.format == Yuv420888 then {image.planes[0].buffer} else {}
    ensures image.format == Yuv420888 ==>
      && image.planes[0].buffer.Valid()
      && YuvConversion(image, old(image.planes[0].buffer.position), quality, encodeYuv, r, nv21)
      && (old(image.planes[0].buffer.position) == 0 || image.height == 0 ==>
            image.planes[0].buffer.position == old(image.planes[0].buffer.position))
    ensures image.format != Yuv420888 ==>
      r == if |image.planes| == 0 then NullJpeg
           else RgbaToJpeg(image.planes[0].buffer.bytes[image.planes[0].buffer.position..],
                           image.planes[0].rowStride, image.planes[0].pixelStride,
                           image.width, image.height, quality, encodeBitmap)
  {
    if image.format == Yuv420888 {
      r, nv21 := Yuv420888ToJpeg(image, quality, encodeYuv);
      return;
    }
    nv21 := [];
    if |image.planes| == 0 {
      // getPlanes()[0] throws, and the Throwable is caught
      r := NullJpeg;
      return;
    }
    var plane := image.planes[0];
    r := RgbaToJpeg(plane.buffer.bytes[plane.buffer.position..], plane.rowStride, plane.pixelStride,
                    image.width, image.height, quality, encodeBitmap);
  }
}
