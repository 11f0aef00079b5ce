/** Compile-time constants of the pretex demo and the chunk coordinate key. */
module Config {

  /** Number of block types; type 0 is "no texture". */
  const BLOCKS: int := 4
  /** A chunk is CHUNKSIZE x CHUNKSIZE blocks. */
  const CHUNKSIZE: int := 32
  /** Pixels per block in a baked chunk texture. */
  const BLOCKPIXELS: int := 16
  /** Number of block cells in one chunk, CHUNKSIZE * CHUNKSIZE. */
  const CELLS: int := CHUNKSIZE * CHUNKSIZE
  /** Side of a baked chunk texture in pixels, CHUNKSIZE * BLOCKPIXELS. */
  const TEXSIZE: int := CHUNKSIZE * BLOCKPIXELS

  /** Window size in pixels. */
  const WIDTH: int := 1366
  const HEIGHT: int := 768
  /** Height of the visible rectangle in world units (blocks). */
  const CAMERASIZE: real := 15.0
  /** Aspect ratio of the window, WIDTH / HEIGHT. */
  const RATIO: real := WIDTH as real / HEIGHT as real

  /** A chunk position in the grid of chunks; the key of the residency list. */
  datatype Coord = Coord(x: int, y: int)
}
