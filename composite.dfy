// Compositing particles into the frame buffer: Effect.drawParticle
// (script.js:143-160) and the drawing order of Effect.update (script.js:135-138).

module Composite {
  import opened Config
  import opened Particles
  import opened Decompose

  /** The byte drawParticle stores for sample colorI of a particle: a colour
      array shorter than a full block yields undefined past its end, which a
      Uint8ClampedArray stores as 0. */
  function ColorByte(colors: seq<byte>, colorI: int): byte {
    if 0 <= colorI < |colors| then colors[colorI] else 0
  }

  /** Pixel (xPos, yPos) lies in the block drawn with its top-left corner at
      (partX, partY), and is one of the first n pixels of the block in
      row-major order. */
  predicate Covers(partX: int, partY: int, xPos: int, yPos: int, n: int) {
    partX <= xPos < partX + PART_SIZE && partY <= yPos < partY + PART_SIZE &&
    (yPos - partY) * PART_SIZE + (xPos - partX) < n
  }

  /** Sample index, within a particle's colours, of channel c of the block
      pixel (xPos, yPos). */
  function ColorIndex(partX: int, partY: int, xPos: int, yPos: int, c: int): int {
    ((yPos - partY) * PART_SIZE + (xPos - partX)) * 4 + c
  }

  /** The frame after the first n pixels of the block at (partX, partY) have
      been drawn: every canvas pixel among them takes the particle's samples,
      every other byte keeps its value. */
  function PartlyComposited(frame: seq<byte>, colors: seq<byte>, partX: int, partY: int, n: int): (r: seq<byte>)
    requires |frame| == FRAME_BYTES
    ensures |r| == FRAME_BYTES
  {
    seq(FRAME_BYTES, j requires 0 <= j < FRAME_BYTES =>
      if Covers(partX, partY, PixelX(j), PixelY(j), n)
      then ColorByte(colors, ColorIndex(partX, partY, PixelX(j), PixelY(j), Channel(j)))
      else frame[j])
  }

  /** The frame after drawParticle has drawn the whole block. */
  function Composited(frame: seq<byte>, colors: seq<byte>, partX: int, partY: int): (r: seq<byte>)
    requires |frame| == FRAME_BYTES
    ensures |r| == FRAME_BYTES
  {
    PartlyComposited(frame, colors, partX, partY, PART_SIZE * PART_SIZE)
  }

  /** Pixel by pixel: a canvas pixel inside the block takes the particle's
      samples for its place in the block; every byte of every other pixel is
      unchanged. */
  lemma CompositedAt(frame: seq<byte>, colors: seq<byte>, partX: int, partY: int, x: int, y: int, c: int)
    requires |frame| == FRAME_BYTES && InCanvas(x, y) && 0 <= c < 4
    ensures 0 <= ByteIndex(x, y, c) < FRAME_BYTES
    ensures Composited(frame, colors, partX, partY)[ByteIndex(x, y, c)] ==
      if partX <= x < partX + PART_SIZE && partY <= y < partY + PART_SIZE
      then ColorByte(colors, ColorIndex(partX, partY, x, y, c))
      else frame[ByteIndex(x, y, c)]
  {
    ByteIndexInFrame(x, y, c);
  }

  /** A block drawn wholly outside the canvas leaves the frame as it was. */
  lemma CompositedOffCanvas(frame: seq<byte>, colors: seq<byte>, partX: int, partY: int)
    requires |frame| == FRAME_BYTES
    requires partX + PART_SIZE <= 0 || partX >= WIDTH || partY + PART_SIZE <= 0 || partY >= HEIGHT
    ensures Composited(frame, colors, partX, partY) == frame
  {
    var r := Composited(frame, colors, partX, partY);
    forall j | 0 <= j < FRAME_BYTES
      ensures r[j] == frame[j]
    {
      DecodeByteIndex(j);
    }
  }

  /** Drawing pixel n = py * PART_SIZE + px of the block writes the four bytes
      at the index drawParticle computes when that pixel is on the canvas, and
      nothing otherwise. */
  lemma DrawStep(frame: seq<byte>, colors: seq<byte>, partX: int, partY: int, px: int, py: int, n: int)
    requires |frame| == FRAME_BYTES && 0 <= px < PART_SIZE && 0 <= py < PART_SIZE
    requires n == py * PART_SIZE + px
    ensures var xPos, yPos := partX + px, partY + py;
      var imgI := (yPos * WIDTH + xPos) * 4;
      var colorI := (py * PART_SIZE + px) * 4;
      var before := PartlyComposited(frame, colors, partX, partY, n);
      PartlyComposited(frame, colors, partX, partY, n + 1) ==
        if !InCanvas(xPos, yPos) then before
        else
          before[imgI := ColorByte(colors, colorI)][imgI + 1 := ColorByte(colors, colorI + 1)]
                [imgI + 2 := ColorByte(colors, colorI + 2)][imgI + 3 := ColorByte(colors, colorI + 3)]
  {
    var xPos, yPos := partX + px, partY + py;
    var imgI := (yPos * WIDTH + xPos) * 4;
    var colorI := (py * PART_SIZE + px) * 4;
    var before := PartlyComposited(frame, colors, partX, partY, n);
    var after := PartlyComposited(frame, colors, partX, partY, n + 1);
    if InCanvas(xPos, yPos) {
      ByteIndexInFrame(xPos, yPos, 0);
      var written := before[imgI := ColorByte(colors, colorI)][imgI + 1 := ColorByte(colors, colorI + 1)]
                           [imgI + 2 := ColorByte(colors, colorI + 2)][imgI + 3 := ColorByte(colors, colorI + 3)];
      forall j | 0 <= j < FRAME_BYTES
        ensures after[j] == written[j]
      {
        DrawStepAt(frame, colors, partX, partY, px, py, n, j);
      }
      assert after == written;
    } else {
      forall j | 0 <= j < FRAME_BYTES
        ensures after[j] == before[j]
      {
        DrawStepAt(frame, colors, partX, partY, px, py, n, j);
      }
      assert after == before;
    }
  }

  /** One byte of DrawStep: byte j changes only when it is a sample of the
      newly drawn pixel. */
  lemma DrawStepAt(frame: seq<byte>, colors: seq<byte>, partX: int, partY: int, px: int, py: int, n: int, j: int)
    requires |frame| == FRAME_BYTES && 0 <= px < PART_SIZE && 0 <= py < PART_SIZE
    requires n == py * PART_SIZE + px && 0 <= j < FRAME_BYTES
    ensures var xPos, yPos := partX + px, partY + py;
      var imgI := (yPos * WIDTH + xPos) * 4;
      PartlyComposited(frame, colors, partX, partY, n + 1)[j] ==
        if InCanvas(xPos, yPos) && imgI <= j < imgI + 4
        then ColorByte(colors, (py * PART_SIZE + px) * 4 + (j - imgI))
        else PartlyComposited(frame, colors, partX, partY, n)[j]
  {
    var xPos, yPos := partX + px, partY + py;
    var imgI := (yPos * WIDTH + xPos) * 4;
    DecodeByteIndex(j);
    var x, y, c := PixelX(j), PixelY(j), Channel(j);
    assert j == (y * WIDTH + x) * 4 + c;
    if x == xPos && y == yPos {
      assert j == imgI + c;
      assert ColorIndex(partX, partY, x, y, c) == (py * PART_SIZE + px) * 4 + (j - imgI);
      assert Covers(partX, partY, x, y, n + 1);
    } else {
      assert Covers(partX, partY, x, y, n + 1) == Covers(partX, partY, x, y, n);
      if InCanvas(xPos, yPos) && imgI <= j < imgI + 4 {
        ByteIndexInFrame(xPos, yPos, j - imgI);
        assert false;
      }
    }
  }

  /** The four sample writes of one drawn pixel. */
  method WritePixel(data: array<byte>, imgI: int, colors: seq<byte>, colorI: int)
    requires 0 <= imgI && imgI + 4 <= data.Length
    modifies data
    ensures data[..] == old(data[..])[imgI := ColorByte(colors, colorI)][imgI + 1 := ColorByte(colors, colorI + 1)]
                                     [imgI + 2 := ColorByte(colors, colorI + 2)][imgI + 3 := ColorByte(colors, colorI + 3)]
  {
    data[imgI] := ColorByte(colors, colorI);
    data[imgI + 1] := ColorByte(colors, colorI + 1);
    data[imgI + 2] := ColorByte(colors, colorI + 2);
    data[imgI + 3] := ColorByte(colors, colorI + 3);
  }

  /** One pass of drawParticle's inner loop: pixel (px, py) of the block is
      skipped when it falls off the canvas, and otherwise takes its four
      samples from the particle's colours. */
  method DrawPixel(colors: seq<byte>, partX: int, partY: int, px: int, py: int, data: array<byte>,
                   ghost frame: seq<byte>, ghost n: int)
    requires data.Length == FRAME_BYTES && |frame| == FRAME_BYTES
    requires 0 <= px < PART_SIZE && 0 <= py < PART_SIZE && n == py * PART_SIZE + px
    requires data[..] == PartlyComposited(frame, colors, partX, partY, n)
    modifies data
    ensures data[..] == PartlyComposited(frame, colors, partX, partY, n + 1)
  {
    var xPos := partX + px;
    var yPos := partY + py;
    DrawStep(frame, colors, partX, partY, px, py, n);
    if xPos < 0 || xPos >= WIDTH || yPos < 0 || yPos >= HEIGHT {
      return;
    }
    var imgI := (yPos * WIDTH + xPos) * 4;
    var colorI := (py * PART_SIZE + px) * 4;
    PixelInFrame(xPos, yPos);
    WritePixel(data, imgI, colors, colorI);
  }

  /** drawParticle: draws the particle's block with its top-left corner at the
      rounded position (partX, partY), clipped to the canvas. */
  method DrawParticle(part: Particle, partX: int, partY: int, data: array<byte>)
    requires data.Length == FRAME_BYTES
    modifies data
    ensures data[..] == Composited(old(data[..]), part.colors, partX, partY)
  {
    ghost var frame := data[..];
    ghost var n := 0;
    var py := 0;
    while py < PART_SIZE
      invariant 0 <= py <= PART_SIZE && n == py * PART_SIZE
      invariant data[..] == PartlyComposited(frame, part.colors, partX, partY, n)
    {
      var px := 0;
      while px < PART_SIZE
        invariant 0 <= px <= PART_SIZE && n == py * PART_SIZE + px
        invariant data[..] == PartlyComposited(frame, part.colors, partX, partY, n)
      {
        DrawPixel(part.colors, partX, partY, px, py, data, frame, n);
        n := n + 1;
        px := px + 1;
      }
      py := py + 1;
    }
  }

  /** A position at which a particle is drawn (its rounded x and y). */
  datatype Point = Point(x: int, y: int)

  /** Pixel (x, y) lies in the block drawn with its top-left corner at p. */
  predicate InBlock(p: Point, x: int, y: int) {
    p.x <= x < p.x + PART_SIZE && p.y <= y < p.y + PART_SIZE
  }

  /** The frame after drawing particles 0, 1, ... in order, particle k with
      colours colors[k] at positions[k], as the loop of Effect.update does. */
  function DrawAll(frame: seq<byte>, colors: seq<seq<byte>>, positions: seq<Point>): (r: seq<byte>)
    requires |frame| == FRAME_BYTES && |colors| == |positions|
    ensures |r| == FRAME_BYTES
    decreases |positions|
  {
    if positions == [] then frame
    else
      var n := |positions| - 1;
      Composited(DrawAll(frame, colors[..n], positions[..n]), colors[n], positions[n].x, positions[n].y)
  }

  /** Drawing one more particle composites its block over the frame so far. */
  lemma DrawAllSnoc(frame: seq<byte>, colors: seq<seq<byte>>, positions: seq<Point>, k: int)
    requires |frame| == FRAME_BYTES && |colors| == |positions| && 0 <= k < |positions|
    ensures DrawAll(frame, colors[..k + 1], positions[..k + 1]) ==
      Composited(DrawAll(frame, colors[..k], positions[..k]), colors[k], positions[k].x, positions[k].y)
  {
    assert colors[..k + 1][..k] == colors[..k];
    assert positions[..k + 1][..k] == positions[..k];
  }

  /** Index of the last of positions whose block covers pixel (x, y), or -1. */
  function LastCover(positions: seq<Point>, x: int, y: int): (r: int)
    ensures -1 <= r < |positions|
    ensures r >= 0 ==> InBlock(positions[r], x, y)
    ensures forall k :: r < k < |positions| ==> !InBlock(positions[k], x, y)
    decreases |positions|
  {
    if positions == [] then -1
    else if InBlock(positions[|positions| - 1], x, y) then |positions| - 1
    else LastCover(positions[..|positions| - 1], x, y)
  }

  /** Later particles paint over earlier ones: each canvas byte ends up with
      the sample of the last particle whose block covers its pixel, or keeps
      its value when none does. */
  lemma {:induction false} DrawAllAt(frame: seq<byte>, colors: seq<seq<byte>>, positions: seq<Point>, x: int, y: int, c: int)
    requires |frame| == FRAME_BYTES && |colors| == |positions|
    requires InCanvas(x, y) && 0 <= c < 4
    ensures 0 <= ByteIndex(x, y, c) < FRAME_BYTES
    ensures var k := LastCover(positions, x, y);
      DrawAll(frame, colors, positions)[ByteIndex(x, y, c)] ==
        if k < 0 then frame[ByteIndex(x, y, c)]
        else ColorByte(colors[k], ColorIndex(positions[k].x, positions[k].y, x, y, c))
    decreases |positions|
  {
    ByteIndexInFrame(x, y, c);
    if positions != [] {
      var n := |positions| - 1;
      DrawAllAt(frame, colors[..n], positions[..n], x, y, c);
      CompositedAt(DrawAll(frame, colors[..n], positions[..n]), colors[n], positions[n].x, positions[n].y, x, y, c);
    }
  }

  /** A fully opaque block drawn at its grid position reproduces the source
      image's pixels exactly: channel c of its pixel (px, py) is the source's. */
  lemma OpaqueBlockRoundTrip(pxs: seq<byte>, frame: seq<byte>, partX: int, partY: int, px: int, py: int, c: int)
    requires |pxs| == FRAME_BYTES && |frame| == FRAME_BYTES && OnGrid(partX, partY)
    requires InBuffer(pxs, BlockOffsets(partX, partY))
    requires forall k :: 0 <= k < PART_SIZE * PART_SIZE ==> Alpha(pxs, BlockOffsets(partX, partY)[k]) != 0
    requires 0 <= px < PART_SIZE && 0 <= py < PART_SIZE && 0 <= c < 4
    ensures 0 <= ByteIndex(partX + px, partY + py, c) < FRAME_BYTES
    ensures Composited(frame, Collect(pxs, BlockOffsets(partX, partY)), partX, partY)[ByteIndex(partX + px, partY + py, c)] ==
      pxs[ByteIndex(partX + px, partY + py, c)]
  {
    var colors := Collect(pxs, BlockOffsets(partX, partY));
    BlockOffsetAt(partX, partY, px, py);
    BlockSample(pxs, BlockOffsets(partX, partY), partX, partY, px, py, c);
    assert InCanvas(partX + px, partY + py) by {
      OnGridFits(partX, partY);
    }
    CompositedAt(frame, colors, partX, partY, partX + px, partY + py, c);
  }

  /** Within a fully opaque block, sample (py * PART_SIZE + px) * 4 + c is
      channel c of the pixel at (partX + px, partY + py). */
  lemma BlockSample(pxs: seq<byte>, offs: seq<int>, partX: int, partY: int, px: int, py: int, c: int)
    requires 0 <= px < PART_SIZE && 0 <= py < PART_SIZE && 0 <= c < 4
    requires |offs| == PART_SIZE * PART_SIZE && offs[py * PART_SIZE + px] == ByteIndex(partX + px, partY + py, 0)
    requires InBuffer(pxs, offs) && forall k :: 0 <= k < |offs| ==> Alpha(pxs, offs[k]) != 0
    ensures 0 <= ByteIndex(partX + px, partY + py, c) < |pxs|
    ensures ColorByte(Collect(pxs, offs), (py * PART_SIZE + px) * 4 + c) == pxs[ByteIndex(partX + px, partY + py, c)]
  {
    var k := py * PART_SIZE + px;
    assert 0 <= k < PART_SIZE * PART_SIZE;
    var o := offs[k];
    assert o == ByteIndex(partX + px, partY + py, 0);
    ByteIndexChannel(partX + px, partY + py, c);
    assert 0 <= o && o + 4 <= |pxs|;
    CollectAllOpaque(pxs, offs, k, c);
    assert (py * PART_SIZE + px) * 4 + c == 4 * k + c;
  }

  /** A grid cell of which getPartData collects every pixel (all its
      samples) is drawn from its collected colours exactly as in the image. */
  lemma FullCellSample(pxs: seq<byte>, k: int, px: int, py: int, c: int)
    requires |pxs| == FRAME_BYTES && 0 <= k < CELLS
    requires |CellColors(pxs, k)| == 4 * PART_SIZE * PART_SIZE
    requires 0 <= px < PART_SIZE && 0 <= py < PART_SIZE && 0 <= c < 4
    ensures 0 <= ByteIndex(CellX(k) + px, CellY(k) + py, c) < FRAME_BYTES
    ensures CellColors(pxs, k) != []
    ensures ColorByte(CellColors(pxs, k), ColorIndex(CellX(k), CellY(k), CellX(k) + px, CellY(k) + py, c)) ==
      pxs[ByteIndex(CellX(k) + px, CellY(k) + py, c)]
  {
    var x, y := CellX(k), CellY(k);
    var offs := BlockOffsets(x, y);
    CellOnGrid(k);
    OnGridFits(x, y);
    BlockInBuffer(pxs, x, y);
    ByteIndexInFrame(x + px, y + py, c);
    assert CellColors(pxs, k) == Collect(pxs, offs);
    OpaqueKeepsAll(pxs, offs);
    BlockOffsetAt(x, y, px, py);
    BlockSample(pxs, offs, x, y, px, py, c);
    assert ColorIndex(x, y, x + px, y + py, c) == (py * PART_SIZE + px) * 4 + c;
  }

  /** When the opaque pixels at offs are exactly its first m, sample 4 * k + c
      of the collected colours is channel c of pixel k for k < m, and lies
      past their end (drawn as 0) for every later pixel. */
  lemma LeadingOpaqueSample(pxs: seq<byte>, offs: seq<int>, m: int, k: int, c: int)
    requires InBuffer(pxs, offs) && 0 <= m <= |offs|
    requires forall j :: 0 <= j < |offs| ==> (Alpha(pxs, offs[j]) != 0 <==> j < m)
    requires 0 <= k < |offs| && 0 <= c < 4
    ensures 0 <= offs[k] + c < |pxs|
    ensures ColorByte(Collect(pxs, offs), 4 * k + c) == if k < m then pxs[offs[k] + c] else 0
  {
    var colors := Collect(pxs, offs);
    OpaqueLeading(pxs, offs, m);
    if k < m {
      CollectQuads(pxs, offs);
      assert Opaque(pxs, offs)[k] == offs[k];
      assert colors[4 * k .. 4 * k + 4] == Quad(pxs, offs[k]);
      assert colors[4 * k + c] == colors[4 * k .. 4 * k + 4][c];
      QuadAt(pxs, offs[k], c);
    } else {
      assert |colors| == 4 * m;
    }
  }

  /** The byte drawn for channel c of pixel (px, py) of grid cell k from the
      cell's collected colours (transparent black when there are none), for a
      cell whose opaque pixels are exactly its first m in row-major order: the
      image's byte for the first m pixels, 0 for the others. */
  lemma LeadingCellSample(pxs: seq<byte>, k: int, m: int, px: int, py: int, c: int)
    requires |pxs| == FRAME_BYTES && 0 <= k < CELLS && InBuffer(pxs, BlockOffsets(CellX(k), CellY(k)))
    requires 0 <= m <= PART_SIZE * PART_SIZE
    requires forall j :: 0 <= j < PART_SIZE * PART_SIZE ==>
      (Alpha(pxs, BlockOffsets(CellX(k), CellY(k))[j]) != 0 <==> j < m)
    requires 0 <= px < PART_SIZE && 0 <= py < PART_SIZE && 0 <= c < 4
    ensures 0 <= ByteIndex(CellX(k) + px, CellY(k) + py, c) < FRAME_BYTES
    ensures var colors := CellColors(pxs, k);
      var j := ByteIndex(CellX(k) + px, CellY(k) + py, c);
      (if colors == [] then 0 else ColorByte(colors, ColorIndex(CellX(k), CellY(k), CellX(k) + px, CellY(k) + py, c))) ==
      (if py * PART_SIZE + px < m then pxs[j] else 0)
  {
    var x, y := CellX(k), CellY(k);
    var offs := BlockOffsets(x, y);
    var n := py * PART_SIZE + px;
    CellOnGrid(k);
    OnGridFits(x, y);
    ByteIndexInFrame(x + px, y + py, c);
    assert CellColors(pxs, k) == Collect(pxs, offs);
    CollectEmpty(pxs, offs);
    if m == 0 {
      assert forall q :: 0 <= q < |offs| ==> Alpha(pxs, offs[q]) == 0;
    } else {
      assert Alpha(pxs, offs[0]) != 0;
      assert ColorIndex(x, y, x + px, y + py, c) == 4 * n + c;
      BlockOffsetAt(x, y, px, py);
      ByteIndexChannel(x + px, y + py, c);
      LeadingOpaqueSample(pxs, offs, m, n, c);
    }
  }

  /** getPartData leaves out transparent pixels, so a block whose top-left
      pixel is transparent but which has an opaque pixel is drawn with that
      corner opaque: the corner takes the first opaque pixel's samples. */
  lemma PartialBlockMisdrawn(pxs: seq<byte>, frame: seq<byte>, partX: int, partY: int)
    requires |pxs| == FRAME_BYTES && |frame| == FRAME_BYTES && OnGrid(partX, partY)
    requires InBuffer(pxs, BlockOffsets(partX, partY))
    requires Alpha(pxs, BlockOffsets(partX, partY)[0]) == 0
    requires exists k :: 0 <= k < PART_SIZE * PART_SIZE && Alpha(pxs, BlockOffsets(partX, partY)[k]) != 0
    ensures 0 <= ByteIndex(partX, partY, 3) < FRAME_BYTES
    ensures pxs[ByteIndex(partX, partY, 3)] == 0
    ensures Composited(frame, Collect(pxs, BlockOffsets(partX, partY)), partX, partY)[ByteIndex(partX, partY, 3)] != 0
  {
    var offs := BlockOffsets(partX, partY);
    var colors := Collect(pxs, offs);
    ByteIndexInFrame(partX, partY, 3);
    BlockOffsetAt(partX, partY, 0, 0);
    CollectEmpty(pxs, offs);
    CollectQuads(pxs, offs);
    var first := Opaque(pxs, offs)[0];
    assert colors[0..4] == Quad(pxs, first);
    assert colors[3] == Alpha(pxs, first) != 0;
    CompositedAt(frame, colors, partX, partY, partX, partY, 3);
  }
}
