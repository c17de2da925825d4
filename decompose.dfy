// Decomposition of an image's RGBA buffer into particles:
// Effect.getPartData and Effect.processImg (script.js:83-109).

module Decompose {
  import opened Config
  import opened Particles

  /** (x, y) is the top-left corner of a cell of the PART_SIZE grid. */
  predicate OnGrid(x: int, y: int) {
    InCanvas(x, y) && x % PART_SIZE == 0 && y % PART_SIZE == 0
  }

  /** A grid cell lies wholly inside the canvas. */
  lemma OnGridFits(x: int, y: int)
    requires OnGrid(x, y)
    ensures x + PART_SIZE <= WIDTH && y + PART_SIZE <= HEIGHT
  {
    assert PART_SIZE == 5 && WIDTH == 440 && HEIGHT == 680;
    var a, b := x / PART_SIZE, y / PART_SIZE;
    assert x == a * PART_SIZE && y == b * PART_SIZE;
    assert a < COLS && b < ROWS;
  }

  /** Strictly increasing, hence duplicate-free. */
  predicate Increasing(s: seq<int>) {
    forall a, b :: 0 <= a < b < |s| ==> s[a] < s[b]
  }

  /** Every offset starts a whole pixel of the buffer. */
  predicate InBuffer(pxs: seq<byte>, offs: seq<int>) {
    forall k :: 0 <= k < |offs| ==> 0 <= offs[k] && offs[k] + 4 <= |pxs|
  }

  /** Alpha sample of the pixel whose red sample is at offset o. */
  function Alpha(pxs: seq<byte>, o: int): byte
    requires 0 <= o && o + 4 <= |pxs|
  {
    pxs[o + 3]
  }

  /** The four samples of the pixel at offset o. */
  function Quad(pxs: seq<byte>, o: int): seq<byte>
    requires 0 <= o && o + 4 <= |pxs|
  {
    [pxs[o], pxs[o + 1], pxs[o + 2], pxs[o + 3]]
  }

  lemma QuadAt(pxs: seq<byte>, o: int, c: int)
    requires 0 <= o && o + 4 <= |pxs| && 0 <= c < 4
    ensures Quad(pxs, o)[c] == pxs[o + c]
  {
    if c == 0 {} else if c == 1 {} else if c == 2 {} else {}
  }

  /** Buffer offsets of the pixels of the block at (partX, partY), row by row. */
  function BlockOffsets(partX: int, partY: int): (offs: seq<int>)
    ensures |offs| == PART_SIZE * PART_SIZE
  {
    seq(PART_SIZE * PART_SIZE, k => ByteIndex(partX + k % PART_SIZE, partY + k / PART_SIZE, 0))
  }

  lemma BlockOffsetAt(partX: int, partY: int, px: int, py: int)
    requires 0 <= px < PART_SIZE && 0 <= py < PART_SIZE
    ensures BlockOffsets(partX, partY)[py * PART_SIZE + px] == ByteIndex(partX + px, partY + py, 0)
  {
    var k := py * PART_SIZE + px;
    assert k % PART_SIZE == px && k / PART_SIZE == py;
  }

  /** Within a block, a later sample lies further along the buffer. */
  lemma OffsetOrder(partX: int, partY: int, a: int, b: int)
    requires 0 <= a < b < PART_SIZE * PART_SIZE
    ensures BlockOffsets(partX, partY)[a] < BlockOffsets(partX, partY)[b]
  {
    var ya, yb := a / PART_SIZE, b / PART_SIZE;
    var xa, xb := a % PART_SIZE, b % PART_SIZE;
    assert a == ya * PART_SIZE + xa && b == yb * PART_SIZE + xb;
    assert ya < yb || (ya == yb && xa < xb);
    var d := ((partY + yb) * WIDTH + partX + xb) * 4 - ((partY + ya) * WIDTH + partX + xa) * 4;
    assert d == ((yb - ya) * WIDTH + (xb - xa)) * 4;
    if ya < yb {
      assert (yb - ya) * WIDTH >= WIDTH;
    }
  }

  /** A grid cell lies wholly inside the canvas, so its offsets are those of
      its pixels in row-major order and never wrap to another row. */
  lemma BlockInCanvas(partX: int, partY: int)
    requires OnGrid(partX, partY)
    ensures forall k :: 0 <= k < PART_SIZE * PART_SIZE ==>
      InCanvas(partX + k % PART_SIZE, partY + k / PART_SIZE)
    ensures forall k :: 0 <= k < PART_SIZE * PART_SIZE ==>
      0 <= BlockOffsets(partX, partY)[k] && BlockOffsets(partX, partY)[k] + 4 <= FRAME_BYTES
    ensures Increasing(BlockOffsets(partX, partY))
  {
    var offs := BlockOffsets(partX, partY);
    OnGridFits(partX, partY);
    forall k | 0 <= k < PART_SIZE * PART_SIZE
      ensures InCanvas(partX + k % PART_SIZE, partY + k / PART_SIZE)
      ensures 0 <= offs[k] && offs[k] + 4 <= FRAME_BYTES
    {
      ByteIndexInFrame(partX + k % PART_SIZE, partY + k / PART_SIZE, 0);
    }
    forall a, b | 0 <= a < b < |offs|
      ensures offs[a] < offs[b]
    {
      OffsetOrder(partX, partY, a, b);
    }
  }

  lemma BlockInBuffer(pxs: seq<byte>, partX: int, partY: int)
    requires |pxs| == FRAME_BYTES && OnGrid(partX, partY)
    ensures InBuffer(pxs, BlockOffsets(partX, partY))
  {
    BlockInCanvas(partX, partY);
  }

  /** The offsets among offs whose pixel has a non-zero alpha, in the same order. */
  function Opaque(pxs: seq<byte>, offs: seq<int>): (r: seq<int>)
    requires InBuffer(pxs, offs)
    ensures InBuffer(pxs, r)
    ensures forall j :: 0 <= j < |r| ==> Alpha(pxs, r[j]) != 0
    ensures |r| <= |offs|
  {
    if offs == [] then []
    else
      var o := offs[|offs| - 1];
      var init := offs[..|offs| - 1];
      assert offs == init + [o];
      Opaque(pxs, init) + (if Alpha(pxs, o) == 0 then [] else [o])
  }

  /** Opaque keeps only offsets of offs. */
  lemma {:induction false} OpaqueSound(pxs: seq<byte>, offs: seq<int>)
    requires InBuffer(pxs, offs)
    ensures forall j :: 0 <= j < |Opaque(pxs, offs)| ==> Opaque(pxs, offs)[j] in offs
  {
    if offs != [] {
      var n := |offs| - 1;
      var init := offs[..n];
      assert offs == init + [offs[n]];
      OpaqueSound(pxs, init);
      forall o | o in init
        ensures o in offs
      {
      }
    }
  }

  /** Opaque keeps every offset of offs whose pixel has a non-zero alpha. */
  lemma {:induction false} OpaqueComplete(pxs: seq<byte>, offs: seq<int>)
    requires InBuffer(pxs, offs)
    ensures forall k :: 0 <= k < |offs| && Alpha(pxs, offs[k]) != 0 ==> offs[k] in Opaque(pxs, offs)
  {
    if offs != [] {
      var n := |offs| - 1;
      var init := offs[..n];
      assert offs == init + [offs[n]];
      OpaqueComplete(pxs, init);
      forall k | 0 <= k < n && Alpha(pxs, offs[k]) != 0
        ensures offs[k] in Opaque(pxs, offs)
      {
        assert init[k] == offs[k];
      }
    }
  }

  /** When every pixel at offs is opaque, nothing is dropped. */
  lemma {:induction false} OpaqueAll(pxs: seq<byte>, offs: seq<int>)
    requires InBuffer(pxs, offs)
    requires forall k :: 0 <= k < |offs| ==> Alpha(pxs, offs[k]) != 0
    ensures Opaque(pxs, offs) == offs
  {
    if offs != [] {
      var n := |offs| - 1;
      var init := offs[..n];
      assert offs == init + [offs[n]];
      assert forall k :: 0 <= k < |init| ==> init[k] == offs[k];
      OpaqueAll(pxs, init);
    }
  }

  /** Conversely, when nothing at offs is dropped, every pixel there is opaque. */
  lemma {:induction false} OpaqueKeepsAll(pxs: seq<byte>, offs: seq<int>)
    requires InBuffer(pxs, offs) && |Opaque(pxs, offs)| == |offs|
    ensures forall k :: 0 <= k < |offs| ==> Alpha(pxs, offs[k]) != 0
  {
    if offs != [] {
      var n := |offs| - 1;
      var init := offs[..n];
      assert offs == init + [offs[n]];
      assert forall k :: 0 <= k < |init| ==> init[k] == offs[k];
      OpaqueKeepsAll(pxs, init);
    }
  }

  /** Filtering keeps the order: from offsets in row-major order the opaque
      ones come out in row-major order too. */
  lemma {:induction false} OpaqueIncreasing(pxs: seq<byte>, offs: seq<int>)
    requires InBuffer(pxs, offs) && Increasing(offs)
    ensures Increasing(Opaque(pxs, offs))
  {
    if offs != [] {
      var o := offs[|offs| - 1];
      var init := offs[..|offs| - 1];
      assert offs == init + [o];
      var rest := Opaque(pxs, init);
      OpaqueIncreasing(pxs, init);
      OpaqueSound(pxs, init);
      forall j | 0 <= j < |rest|
        ensures rest[j] < o
      {
        var k :| 0 <= k < |init| && init[k] == rest[j];
        assert offs[k] == init[k];
      }
    }
  }

  /** When the opaque pixels at offs are exactly its first m, the filter
      keeps those m and nothing else. */
  lemma {:induction false} OpaqueLeading(pxs: seq<byte>, offs: seq<int>, m: int)
    requires InBuffer(pxs, offs) && 0 <= m <= |offs|
    requires forall k :: 0 <= k < |offs| ==> (Alpha(pxs, offs[k]) != 0 <==> k < m)
    ensures Opaque(pxs, offs) == offs[..m]
    decreases |offs|
  {
    if |offs| == m {
      OpaqueAll(pxs, offs);
      assert offs[..m] == offs;
    } else {
      var n := |offs| - 1;
      CollectSnoc(pxs, offs, n);
      assert offs[..n + 1] == offs;
      assert forall k :: 0 <= k < n ==> offs[..n][k] == offs[k];
      OpaqueLeading(pxs, offs[..n], m);
      assert offs[..n][..m] == offs[..m];
    }
  }

  /** The samples getPartData pushes for the pixels at offs, in order: the
      four samples of every pixel with a non-zero alpha, nothing for the others. */
  function Collect(pxs: seq<byte>, offs: seq<int>): (colors: seq<byte>)
    requires InBuffer(pxs, offs)
    ensures |colors| == 4 * |Opaque(pxs, offs)|
  {
    if offs == [] then []
    else
      var o := offs[|offs| - 1];
      var init := offs[..|offs| - 1];
      assert offs == init + [o];
      Collect(pxs, init) + (if Alpha(pxs, o) == 0 then [] else Quad(pxs, o))
  }

  /** Collect and Opaque over one more offset. */
  lemma CollectSnoc(pxs: seq<byte>, offs: seq<int>, k: int)
    requires InBuffer(pxs, offs) && 0 <= k < |offs|
    ensures InBuffer(pxs, offs[..k]) && InBuffer(pxs, offs[..k + 1])
    ensures Opaque(pxs, offs[..k + 1]) == Opaque(pxs, offs[..k]) + (if Alpha(pxs, offs[k]) == 0 then [] else [offs[k]])
    ensures Collect(pxs, offs[..k + 1]) == Collect(pxs, offs[..k]) + (if Alpha(pxs, offs[k]) == 0 then [] else Quad(pxs, offs[k]))
  {
    assert offs[..k + 1][..k] == offs[..k];
  }

  lemma SliceOfPrefix(a: seq<byte>, b: seq<byte>, i: int, j: int)
    requires 0 <= i <= j <= |a|
    ensures (a + b)[i..j] == a[i..j]
  {
  }

  /** The j-th group of four samples is the j-th opaque pixel's RGBA quadruple. */
  lemma {:induction false} CollectQuads(pxs: seq<byte>, offs: seq<int>)
    requires InBuffer(pxs, offs)
    ensures forall j :: 0 <= j < |Opaque(pxs, offs)| ==>
      Collect(pxs, offs)[4 * j .. 4 * j + 4] == Quad(pxs, Opaque(pxs, offs)[j])
  {
    if offs != [] {
      var n := |offs| - 1;
      assert offs[..n + 1] == offs;
      CollectSnoc(pxs, offs, n);
      CollectQuads(pxs, offs[..n]);
      var o := offs[n];
      var rest, tail := Collect(pxs, offs[..n]), if Alpha(pxs, o) == 0 then [] else Quad(pxs, o);
      var op, opTail := Opaque(pxs, offs[..n]), if Alpha(pxs, o) == 0 then [] else [o];
      assert Collect(pxs, offs) == rest + tail && Opaque(pxs, offs) == op + opTail;
      forall j | 0 <= j < |op + opTail|
        ensures (rest + tail)[4 * j .. 4 * j + 4] == Quad(pxs, (op + opTail)[j])
      {
        if j < |op| {
          SliceOfPrefix(rest, tail, 4 * j, 4 * j + 4);
        } else {
          assert (op + opTail)[j] == o && tail == Quad(pxs, o) && 4 * j == |rest|;
          SliceOfSuffix(rest, tail);
        }
      }
    }
  }

  lemma SliceOfSuffix(a: seq<byte>, b: seq<byte>)
    ensures (a + b)[|a| .. |a| + |b|] == b
  {
  }

  /** From a block whose pixels are all opaque, sample 4 * k + c is channel c
      of the k-th pixel. */
  lemma CollectAllOpaque(pxs: seq<byte>, offs: seq<int>, k: int, c: int)
    requires InBuffer(pxs, offs)
    requires forall j :: 0 <= j < |offs| ==> Alpha(pxs, offs[j]) != 0
    requires 0 <= k < |offs| && 0 <= c < 4
    ensures |Collect(pxs, offs)| == 4 * |offs|
    ensures Collect(pxs, offs)[4 * k + c] == pxs[offs[k] + c]
  {
    var o := offs[k];
    assert Opaque(pxs, offs) == offs by {
      OpaqueAll(pxs, offs);
    }
    var all := Collect(pxs, offs);
    assert all[4 * k .. 4 * k + 4] == Quad(pxs, o) by {
      CollectQuads(pxs, offs);
    }
    assert all[4 * k + c] == pxs[o + c] by {
      assert all[4 * k + c] == all[4 * k .. 4 * k + 4][c];
      QuadAt(pxs, o, c);
    }
  }

  lemma CollectEmpty(pxs: seq<byte>, offs: seq<int>)
    requires InBuffer(pxs, offs)
    ensures Collect(pxs, offs) == [] <==> forall k :: 0 <= k < |offs| ==> Alpha(pxs, offs[k]) == 0
  {
    var op := Opaque(pxs, offs);
    OpaqueSound(pxs, offs);
    OpaqueComplete(pxs, offs);
    if op != [] {
      assert op[0] in offs;
    }
  }

  /** One pixel step of getPartData's scan: the pixel at (px, py) of the block
      is the next offset of BlockOffsets, at the index the source computes. */
  lemma GetPartDataStep(pxs: seq<byte>, partX: int, partY: int, px: int, py: int)
    requires |pxs| == FRAME_BYTES && OnGrid(partX, partY)
    requires 0 <= px < PART_SIZE && 0 <= py < PART_SIZE
    ensures InBuffer(pxs, BlockOffsets(partX, partY))
    ensures var pxI := (partY * WIDTH + partX) * 4 + (py * WIDTH + px) * 4;
      var offs := BlockOffsets(partX, partY);
      var k := py * PART_SIZE + px;
      0 <= pxI && pxI + 4 <= |pxs| &&
      Collect(pxs, offs[..k + 1]) ==
        Collect(pxs, offs[..k]) + (if pxs[pxI + 3] == 0 then [] else [pxs[pxI], pxs[pxI + 1], pxs[pxI + 2], pxs[pxI + 3]])
  {
    var offs := BlockOffsets(partX, partY);
    var k := py * PART_SIZE + px;
    var pxI := (partY * WIDTH + partX) * 4 + (py * WIDTH + px) * 4;
    BlockInBuffer(pxs, partX, partY);
    assert offs[k] == pxI by {
      BlockOffsetAt(partX, partY, px, py);
      ByteIndexShift(partX, partY, px, py);
    }
    CollectSnoc(pxs, offs, k);
  }

  /** getPartData: the samples of the block at (partX, partY) and whether it is wholly transparent. */
  method GetPartData(pxs: seq<byte>, partX: int, partY: int) returns (colors: seq<byte>, isFullyTransparent: bool)
    requires |pxs| == FRAME_BYTES
    requires OnGrid(partX, partY)
    ensures InBuffer(pxs, BlockOffsets(partX, partY))
    ensures colors == Collect(pxs, BlockOffsets(partX, partY))
    ensures isFullyTransparent <==> colors == []
    ensures isFullyTransparent <==>
      forall k :: 0 <= k < PART_SIZE * PART_SIZE ==> Alpha(pxs, BlockOffsets(partX, partY)[k]) == 0
  {
    ghost var offs := BlockOffsets(partX, partY);
    BlockInCanvas(partX, partY);
    colors := [];
    isFullyTransparent := true;
    var baseI := (partY * WIDTH + partX) * 4;
    var py := 0;
    while py < PART_SIZE
      invariant 0 <= py <= PART_SIZE
      invariant colors == Collect(pxs, offs[..py * PART_SIZE])
      invariant isFullyTransparent <==> colors == []
    {
      var px := 0;
      while px < PART_SIZE
        invariant 0 <= px <= PART_SIZE
        invariant colors == Collect(pxs, offs[..py * PART_SIZE + px])
        invariant isFullyTransparent <==> colors == []
      {
        var pxI := baseI + (py * WIDTH + px) * 4;
        GetPartDataStep(pxs, partX, partY, px, py);
        if pxs[pxI + 3] != 0 {
          isFullyTransparent := false;
          colors := colors + [pxs[pxI], pxs[pxI + 1], pxs[pxI + 2], pxs[pxI + 3]];
        }
        px := px + 1;
      }
      py := py + 1;
    }
    assert offs[..PART_SIZE * PART_SIZE] == offs;
    CollectEmpty(pxs, offs);
  }

  /** Top-left corner of grid cell k, cells numbered in scan order: rows
      (y) outer, columns (x) inner. */
  function CellX(k: int): int { (k % COLS) * PART_SIZE }
  function CellY(k: int): int { (k / COLS) * PART_SIZE }

  lemma CellOnGrid(k: int)
    requires 0 <= k < CELLS
    ensures OnGrid(CellX(k), CellY(k))
  {
  }

  /** Grid cells do not overlap: two cells that share a pixel are the same cell. */
  lemma SameCell(x1: int, y1: int, x2: int, y2: int, x: int, y: int)
    requires OnGrid(x1, y1) && OnGrid(x2, y2)
    requires x1 <= x < x1 + PART_SIZE && y1 <= y < y1 + PART_SIZE
    requires x2 <= x < x2 + PART_SIZE && y2 <= y < y2 + PART_SIZE
    ensures x1 == x2 && y1 == y2
  {
    assert x1 == PART_SIZE * (x1 / PART_SIZE) && x2 == PART_SIZE * (x2 / PART_SIZE);
    assert y1 == PART_SIZE * (y1 / PART_SIZE) && y2 == PART_SIZE * (y2 / PART_SIZE);
  }

  /** The samples getPartData collects for grid cell k. */
  function CellColors(pxs: seq<byte>, k: int): seq<byte>
    requires |pxs| == FRAME_BYTES && 0 <= k < CELLS
  {
    CellOnGrid(k);
    BlockInBuffer(pxs, CellX(k), CellY(k));
    Collect(pxs, BlockOffsets(CellX(k), CellY(k)))
  }

  /** The samples of the first n grid cells of an image, in scan order (row
      by row, left to right). */
  function Grid(pxs: seq<byte>, n: int): (grid: seq<seq<byte>>)
    requires |pxs| == FRAME_BYTES && 0 <= n <= CELLS
    ensures |grid| == n
  {
    if n == 0 then [] else Grid(pxs, n - 1) + [CellColors(pxs, n - 1)]
  }

  /** Entry k of the grid holds the samples getPartData collects for cell k. */
  lemma {:induction false} GridAt(pxs: seq<byte>, n: int, k: int)
    requires |pxs| == FRAME_BYTES && 0 <= k < n <= CELLS
    ensures Grid(pxs, n)[k] == CellColors(pxs, k)
  {
    if k < n - 1 {
      GridAt(pxs, n - 1, k);
    }
  }

  /** The cells among the first n, in scan order, that processImg turns into
      particles: those that are not fully transparent. */
  function Kept(grid: seq<seq<byte>>, n: int): (cells: seq<int>)
    requires 0 <= n <= |grid|
    ensures |cells| <= n
    ensures forall j :: 0 <= j < |cells| ==> 0 <= cells[j] < n
  {
    if n == 0 then []
    else Kept(grid, n - 1) + (if grid[n - 1] == [] then [] else [n - 1])
  }

  /** Kept lists cells in scan order. */
  lemma {:induction false} KeptIncreasing(grid: seq<seq<byte>>, n: int)
    requires 0 <= n <= |grid|
    ensures Increasing(Kept(grid, n))
  {
    if n > 0 {
      KeptIncreasing(grid, n - 1);
    }
  }

  /** Every kept cell is not fully transparent. */
  lemma {:induction false} KeptSound(grid: seq<seq<byte>>, n: int)
    requires 0 <= n <= |grid|
    ensures forall j :: 0 <= j < |Kept(grid, n)| ==> grid[Kept(grid, n)[j]] != []
  {
    if n > 0 {
      KeptSound(grid, n - 1);
    }
  }

  /** Every cell that is not fully transparent is kept. */
  lemma {:induction false} KeptComplete(grid: seq<seq<byte>>, n: int)
    requires 0 <= n <= |grid|
    ensures forall k :: 0 <= k < n && grid[k] != [] ==> k in Kept(grid, n)
  {
    if n > 0 {
      KeptComplete(grid, n - 1);
      var rest := Kept(grid, n - 1);
      assert forall k :: k in rest ==> k in Kept(grid, n);
    }
  }

  /** p is the particle processImg creates for grid cell `cell` as the j-th
      of its list: at the cell's position, with the cell's samples, at rest. */
  predicate Emitted(p: Particle, grid: seq<seq<byte>>, cell: int, j: int)
    reads p
  {
    0 <= cell < |grid| &&
    p.originX == CellX(cell) && p.originY == CellY(cell) && p.i == j &&
    p.colors == grid[cell] && p.AtRest()
  }

  /** parts are the particles for the kept cells among the first n, in order. */
  predicate EmittedUpTo(parts: seq<Particle>, grid: seq<seq<byte>>, n: int)
    requires 0 <= n <= |grid|
    reads parts
  {
    |parts| == |Kept(grid, n)| &&
    forall j :: 0 <= j < |parts| ==> Emitted(parts[j], grid, Kept(grid, n)[j], j)
  }

  /** A kept cell appends its particle to the emitted list. */
  lemma EmitKept(parts: seq<Particle>, grid: seq<seq<byte>>, n: int, p: Particle)
    requires 0 <= n < |grid| && grid[n] != []
    requires EmittedUpTo(parts, grid, n) && Emitted(p, grid, n, |parts|)
    ensures EmittedUpTo(parts + [p], grid, n + 1)
  {
    assert Kept(grid, n + 1) == Kept(grid, n) + [n];
  }

  /** A transparent cell emits nothing. */
  lemma EmitSkipped(parts: seq<Particle>, grid: seq<seq<byte>>, n: int)
    requires 0 <= n < |grid| && grid[n] == []
    requires EmittedUpTo(parts, grid, n)
    ensures EmittedUpTo(parts, grid, n + 1)
  {
    assert Kept(grid, n + 1) == Kept(grid, n);
  }

  predicate Distinct(parts: seq<Particle>) {
    forall a, b :: 0 <= a < b < |parts| ==> parts[a] != parts[b]
  }

  /** Particles emitted into distinct slots are distinct objects. */
  lemma EmittedDistinct(parts: seq<Particle>, grid: seq<seq<byte>>, n: int)
    requires 0 <= n <= |grid| && EmittedUpTo(parts, grid, n)
    ensures Distinct(parts)
  {
    forall a, b | 0 <= a < b < |parts|
      ensures parts[a] != parts[b]
    {
      assert parts[a].i == a && parts[b].i == b;
    }
  }

  lemma CellAt(row: int, col: int)
    requires 0 <= row < ROWS && 0 <= col < COLS
    ensures 0 <= row * COLS + col < CELLS
    ensures CellX(row * COLS + col) == col * PART_SIZE && CellY(row * COLS + col) == row * PART_SIZE
  {
    assert COLS == 88 && PART_SIZE == 5;
    var k := row * COLS + col;
    assert k / COLS == row && k % COLS == col;
  }

  /** One cell step of processImg's scan: the cell in grid row `row` and grid
      column `col`, at pixel (x, y), is cell number `cell` of the scan order,
      and getPartData's samples for it are its entry of the grid. */
  lemma ProcessImgStep(pxs: seq<byte>, grid: seq<seq<byte>>, cell: int, row: int, col: int, x: int, y: int)
    requires |pxs| == FRAME_BYTES && grid == Grid(pxs, CELLS)
    requires 0 <= row < ROWS && 0 <= col < COLS
    requires cell == row * COLS + col && x == col * PART_SIZE && y == row * PART_SIZE
    ensures OnGrid(x, y) && InBuffer(pxs, BlockOffsets(x, y))
    ensures 0 <= cell < CELLS && CellX(cell) == x && CellY(cell) == y
    ensures grid[cell] == Collect(pxs, BlockOffsets(x, y))
  {
    CellAt(row, col);
    BlockInBuffer(pxs, x, y);
    GridAt(pxs, CELLS, cell);
  }

  /** The body of processImg's inner loop, for the cell in grid row `row` and
      grid column `col` at pixel (x, y): a new particle unless the cell is
      fully transparent. */
  method EmitCell(pxs: seq<byte>, ghost grid: seq<seq<byte>>, x: int, y: int, parts: seq<Particle>,
                  ghost row: int, ghost col: int)
    returns (parts': seq<Particle>)
    requires |pxs| == FRAME_BYTES && grid == Grid(pxs, CELLS)
    requires 0 <= row < ROWS && 0 <= col < COLS && x == col * PART_SIZE && y == row * PART_SIZE
    requires EmittedUpTo(parts, grid, row * COLS + col)
    ensures EmittedUpTo(parts', grid, row * COLS + col + 1)
    ensures |parts| <= |parts'| && forall j :: 0 <= j < |parts| ==> parts'[j] == parts[j]
    ensures forall j :: |parts| <= j < |parts'| ==> fresh(parts'[j])
  {
    ghost var cell := row * COLS + col;
    ProcessImgStep(pxs, grid, cell, row, col, x, y);
    var colors, isFullyTransparent := GetPartData(pxs, x, y);
    if !isFullyTransparent {
      var p := new Particle(x, y, colors, |parts|);
      EmitKept(parts, grid, cell, p);
      parts' := parts + [p];
    } else {
      EmitSkipped(parts, grid, cell);
      parts' := parts;
    }
  }

  /** The inner loop of processImg: scans grid row `row`, at pixel row y. */
  method ProcessRow(pxs: seq<byte>, ghost grid: seq<seq<byte>>, y: int, parts: seq<Particle>, ghost row: int)
    returns (parts': seq<Particle>)
    requires |pxs| == FRAME_BYTES && grid == Grid(pxs, CELLS)
    requires 0 <= row < ROWS && y == row * PART_SIZE
    requires EmittedUpTo(parts, grid, row * COLS)
    ensures EmittedUpTo(parts', grid, (row + 1) * COLS)
    ensures |parts| <= |parts'| && forall j :: 0 <= j < |parts| ==> parts'[j] == parts[j]
    ensures forall j :: |parts| <= j < |parts'| ==> fresh(parts'[j])
  {
    parts' := parts;
    ghost var col := 0;
    var x := 0;
    while x < WIDTH
      invariant 0 <= col <= COLS && x == col * PART_SIZE
      invariant EmittedUpTo(parts', grid, row * COLS + col)
      invariant |parts| <= |parts'| && forall j :: 0 <= j < |parts| ==> parts'[j] == parts[j]
      invariant forall j :: |parts| <= j < |parts'| ==> fresh(parts'[j])
    {
      parts' := EmitCell(pxs, grid, x, y, parts', row, col);
      col := col + 1;
      x := x + PART_SIZE;
    }
  }

  /** processImg: one new particle per non-transparent cell, in scan order. */
  method ProcessImg(pxs: seq<byte>) returns (parts: seq<Particle>)
    requires |pxs| == FRAME_BYTES
    ensures EmittedUpTo(parts, Grid(pxs, CELLS), CELLS)
    ensures forall j :: 0 <= j < |parts| ==> fresh(parts[j])
    ensures Distinct(parts)
  {
    ghost var grid := Grid(pxs, CELLS);
    parts := [];
    ghost var row := 0;
    var y := 0;
    while y < HEIGHT
      invariant 0 <= row <= ROWS && y == row * PART_SIZE
      invariant EmittedUpTo(parts, grid, row * COLS)
      invariant forall j :: 0 <= j < |parts| ==> fresh(parts[j])
    {
      parts := ProcessRow(pxs, grid, y, parts, row);
      row := row + 1;
      y := y + PART_SIZE;
    }
    EmittedDistinct(parts, grid, CELLS);
  }

  /** Cells earlier in the scan lie in an earlier row, or further left in the
      same row. */
  lemma CellOrder(a: int, b: int)
    requires 0 <= a < b < CELLS
    ensures CellY(a) < CellY(b) || (CellY(a) == CellY(b) && CellX(a) < CellX(b))
  {
    assert COLS == 88 && PART_SIZE == 5;
    var ra, rb, ca, cb := a / COLS, b / COLS, a % COLS, b % COLS;
    assert a == ra * COLS + ca && b == rb * COLS + cb;
    assert ra <= rb;
    assert ra == rb ==> ca < cb;
    assert CellY(a) == ra * PART_SIZE && CellY(b) == rb * PART_SIZE && CellX(a) == ca * PART_SIZE && CellX(b) == cb * PART_SIZE;
  }

  /** The particles of processImg are at most one per cell, no two at the
      same position; each sits at a grid position inside the canvas, is at
      rest and has its list position as its slot. */
  lemma EmittedOnGrid(parts: seq<Particle>, pxs: seq<byte>)
    requires |pxs| == FRAME_BYTES && EmittedUpTo(parts, Grid(pxs, CELLS), CELLS)
    ensures |parts| <= CELLS
    ensures forall j :: 0 <= j < |parts| ==>
      OnGrid(parts[j].originX, parts[j].originY) && parts[j].i == j && parts[j].AtRest()
    ensures forall a, b :: 0 <= a < b < |parts| ==>
      parts[a].originX != parts[b].originX || parts[a].originY != parts[b].originY
  {
    EmittedInScanOrder(parts, pxs);
    var grid := Grid(pxs, CELLS);
    forall j | 0 <= j < |parts|
      ensures OnGrid(parts[j].originX, parts[j].originY)
    {
      CellOnGrid(Kept(grid, CELLS)[j]);
    }
  }

  /** The particles of processImg come in scan order: rows top to bottom,
      each row left to right. */
  lemma EmittedInScanOrder(parts: seq<Particle>, pxs: seq<byte>)
    requires |pxs| == FRAME_BYTES && EmittedUpTo(parts, Grid(pxs, CELLS), CELLS)
    ensures forall a, b :: 0 <= a < b < |parts| ==>
      parts[a].originY < parts[b].originY ||
      (parts[a].originY == parts[b].originY && parts[a].originX < parts[b].originX)
  {
    var grid := Grid(pxs, CELLS);
    var cells := Kept(grid, CELLS);
    KeptIncreasing(grid, CELLS);
    forall a, b | 0 <= a < b < |parts|
      ensures parts[a].originY < parts[b].originY ||
        (parts[a].originY == parts[b].originY && parts[a].originX < parts[b].originX)
    {
      CellOrder(cells[a], cells[b]);
    }
  }

  /** Every particle of processImg carries the samples getPartData collects
      for its block, which are not empty. */
  lemma EmittedColors(parts: seq<Particle>, pxs: seq<byte>)
    requires |pxs| == FRAME_BYTES && EmittedUpTo(parts, Grid(pxs, CELLS), CELLS)
    ensures forall j :: 0 <= j < |parts| ==>
      OnGrid(parts[j].originX, parts[j].originY) &&
      InBuffer(pxs, BlockOffsets(parts[j].originX, parts[j].originY)) &&
      parts[j].colors == Collect(pxs, BlockOffsets(parts[j].originX, parts[j].originY)) &&
      parts[j].colors != []
  {
    var grid := Grid(pxs, CELLS);
    var cells := Kept(grid, CELLS);
    KeptSound(grid, CELLS);
    forall j | 0 <= j < |parts|
      ensures OnGrid(parts[j].originX, parts[j].originY)
      ensures InBuffer(pxs, BlockOffsets(parts[j].originX, parts[j].originY))
      ensures parts[j].colors == Collect(pxs, BlockOffsets(parts[j].originX, parts[j].originY))
      ensures parts[j].colors != []
    {
      var k := cells[j];
      GridAt(pxs, CELLS, k);
      CellOnGrid(k);
      BlockInBuffer(pxs, CellX(k), CellY(k));
    }
  }

  /** Every cell that is not fully transparent has its particle. */
  lemma EmittedComplete(parts: seq<Particle>, pxs: seq<byte>, k: int)
    requires |pxs| == FRAME_BYTES && EmittedUpTo(parts, Grid(pxs, CELLS), CELLS)
    requires 0 <= k < CELLS && CellColors(pxs, k) != []
    ensures exists j :: 0 <= j < |parts| && parts[j].originX == CellX(k) && parts[j].originY == CellY(k)
  {
    var grid := Grid(pxs, CELLS);
    GridAt(pxs, CELLS, k);
    KeptComplete(grid, CELLS);
    var j :| 0 <= j < |parts| && Kept(grid, CELLS)[j] == k;
  }
}
