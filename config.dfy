// Constants and buffer geometry of the dissolve effect (script.js:7-14).

module Config {

  /** One channel sample of an RGBA buffer (a Uint8ClampedArray element). */
  newtype byte = x: int | 0 <= x < 256

  /** Side of one square block of pixels, in pixels. */
  const PART_SIZE: int := 5
  /** Margin drawn around the source image. */
  const EDGE: int := PART_SIZE * 2
  /** Canvas width and height, in pixels. */
  const WIDTH: int := 420 + EDGE * 2
  const HEIGHT: int := 660 + EDGE * 2
  /** Size of a WIDTH×HEIGHT RGBA buffer, in bytes (WIDTH * HEIGHT * 4). */
  const FRAME_BYTES: int := 1196800

  /** Number of grid columns and rows scanned by the decomposition
      (WIDTH / PART_SIZE and HEIGHT / PART_SIZE), and of grid cells. */
  const COLS: int := 88
  const ROWS: int := 136
  const CELLS: int := 11968

  /** The derived sizes above agree with the canvas dimensions; in particular
      WIDTH and HEIGHT are multiples of PART_SIZE, so no grid cell wraps a row. */
  lemma Dimensions()
    ensures WIDTH == 440 && HEIGHT == 680
    ensures FRAME_BYTES == WIDTH * HEIGHT * 4
    ensures COLS * PART_SIZE == WIDTH && ROWS * PART_SIZE == HEIGHT && CELLS == COLS * ROWS
  {
  }

  /** SWITCH_THRESHOLD = 0.85 = THRESHOLD_NUM / THRESHOLD_DEN. */
  const THRESHOLD_NUM: int := 17
  const THRESHOLD_DEN: int := 20

  /** Milliseconds after a switch during which no particle is marked. */
  const SWITCH_COOLDOWN: int := 1500

  /** A pixel position inside the canvas. */
  predicate InCanvas(x: int, y: int) {
    0 <= x < WIDTH && 0 <= y < HEIGHT
  }

  /** Byte index of channel c of pixel (x, y) in a WIDTH×HEIGHT RGBA buffer. */
  function ByteIndex(x: int, y: int, c: int): int {
    (y * WIDTH + x) * 4 + c
  }

  /** The pixel column, pixel row and channel a byte index stands for. */
  function PixelX(j: int): int { (j / 4) % WIDTH }
  function PixelY(j: int): int { (j / 4) / WIDTH }
  function Channel(j: int): int { j % 4 }

  /** The four bytes of a canvas pixel lie inside the frame buffer. */
  lemma PixelInFrame(x: int, y: int)
    requires InCanvas(x, y)
    ensures 0 <= (y * WIDTH + x) * 4 && (y * WIDTH + x) * 4 + 4 <= FRAME_BYTES
  {
    assert 0 <= y * WIDTH + x < WIDTH * HEIGHT;
  }

  lemma ByteIndexInFrame(x: int, y: int, c: int)
    requires InCanvas(x, y) && 0 <= c < 4
    ensures 0 <= ByteIndex(x, y, c) < FRAME_BYTES
    ensures PixelX(ByteIndex(x, y, c)) == x
    ensures PixelY(ByteIndex(x, y, c)) == y
    ensures Channel(ByteIndex(x, y, c)) == c
  {
    var p := y * WIDTH + x;
    assert 0 <= p < WIDTH * HEIGHT;
    assert ByteIndex(x, y, c) / 4 == p;
    assert p % WIDTH == x && p / WIDTH == y;
  }

  /** Offsetting a pixel by (dx, dy) moves its byte index by (dy * WIDTH + dx) * 4. */
  lemma ByteIndexShift(x: int, y: int, dx: int, dy: int)
    ensures ByteIndex(x + dx, y + dy, 0) == (y * WIDTH + x) * 4 + (dy * WIDTH + dx) * 4
  {
  }

  /** Channel c of a pixel lies c bytes after its red sample. */
  lemma ByteIndexChannel(x: int, y: int, c: int)
    ensures ByteIndex(x, y, c) == ByteIndex(x, y, 0) + c
  {
  }

  lemma DecodeByteIndex(j: int)
    requires 0 <= j < FRAME_BYTES
    ensures InCanvas(PixelX(j), PixelY(j)) && 0 <= Channel(j) < 4
    ensures ByteIndex(PixelX(j), PixelY(j), Channel(j)) == j
  {
    var p := j / 4;
    assert 0 <= p < WIDTH * HEIGHT;
    assert p == PixelY(j) * WIDTH + PixelX(j);
  }
}
