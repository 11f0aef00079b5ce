/**
  The world-data query and the bake loop of demo_pretex_compile_chunk: the
  query fills a CHUNKSIZE x CHUNKSIZE buffer with block types, and the bake
  issues one textured draw per cell, in row-major order, into the chunk's
  offscreen target. The draws are recorded as a log of events.
*/
module WorldData {
  import opened Config

  /** C's uint8_t. */
  newtype byte = x: int | 0 <= x < 256

  /** One block drawn into a chunk texture: the cell (x, y), the index of its
      entry in the block data, and the texture bound for it. */
  datatype BlockDraw = BlockDraw(x: int, y: int, cell: int, texture: nat)

  /**
    demo_pretex_query_wdata: writes every cell with a value of rand() reduced
    modulo BLOCKS. `rand(n)` is the value the n-th call to rand() returns and
    `start` the number of calls made before this query. The chunk coordinate
    is not used.
  */
  method QueryWData(cx: int, cy: int, dest: array<byte>, rand: nat -> nat, start: nat)
    requires dest.Length == CELLS
    modifies dest
    ensures forall i :: 0 <= i < CELLS ==> dest[i] as int == rand(start + i) % BLOCKS
    ensures forall i :: 0 <= i < CELLS ==> 0 <= dest[i] as int < BLOCKS
  {
    var i := 0;
    while i < CHUNKSIZE * CHUNKSIZE
      invariant 0 <= i <= CELLS
      invariant forall k :: 0 <= k < i ==> dest[k] as int == rand(start + k) % BLOCKS
    {
      dest[i] := (rand(start + i) % BLOCKS) as byte;
      i := i + 1;
    }
  }

  /** Index of cell (x, y) in the row-major block data. */
  function CellIndex(x: int, y: int): int
  {
    x + y * CHUNKSIZE
  }

  /**
    Row-major indexing is a bijection between the cells of a chunk and the
    indices [0, CELLS): every index in range comes from exactly one cell.
  */
  lemma CellIndexBijection()
    ensures forall x, y :: 0 <= x < CHUNKSIZE && 0 <= y < CHUNKSIZE ==>
      0 <= CellIndex(x, y) < CELLS && CellIndex(x, y) % CHUNKSIZE == x && CellIndex(x, y) / CHUNKSIZE == y
    ensures forall k :: 0 <= k < CELLS ==>
      0 <= k % CHUNKSIZE < CHUNKSIZE && 0 <= k / CHUNKSIZE < CHUNKSIZE && CellIndex(k % CHUNKSIZE, k / CHUNKSIZE) == k
  {
  }

  /**
    The log of a complete bake: cell k, at (k mod CHUNKSIZE, k div CHUNKSIZE),
    drawn k-th, each cell exactly once.
  */
  ghost predicate CoversChunk(draws: seq<BlockDraw>)
  {
    |draws| == CELLS
    && forall k :: 0 <= k < |draws| ==>
      draws[k].cell == k && draws[k].x == k % CHUNKSIZE && draws[k].y == k / CHUNKSIZE
  }

  /**
    The nested bake loop: for every y, then every x, draw cell (x, y) with the
    atlas texture of its block type. Its blockdata index x + y * CHUNKSIZE is
    in bounds, and so is the atlas index, because every block type is below BLOCKS.
  */
  method BakeCells(blockdata: array<byte>, texlist: seq<nat>) returns (draws: seq<BlockDraw>)
    requires blockdata.Length == CELLS && |texlist| == BLOCKS
    requires forall i :: 0 <= i < CELLS ==> blockdata[i] as int < BLOCKS
    ensures |draws| == CELLS
    ensures forall k :: 0 <= k < CELLS ==>
      draws[k] == BlockDraw(k % CHUNKSIZE, k / CHUNKSIZE, k, texlist[blockdata[k]])
  {
    draws := [];
    var y := 0;
    while y < CHUNKSIZE
      invariant 0 <= y <= CHUNKSIZE
      invariant |draws| == y * CHUNKSIZE
      invariant forall k :: 0 <= k < |draws| ==>
        draws[k] == BlockDraw(k % CHUNKSIZE, k / CHUNKSIZE, k, texlist[blockdata[k]])
    {
      var x := 0;
      while x < CHUNKSIZE
        invariant 0 <= x <= CHUNKSIZE
        invariant |draws| == y * CHUNKSIZE + x
        invariant forall k :: 0 <= k < |draws| ==>
          draws[k] == BlockDraw(k % CHUNKSIZE, k / CHUNKSIZE, k, texlist[blockdata[k]])
      {
        var cell := CellIndex(x, y);
        draws := draws + [BlockDraw(x, y, cell, texlist[blockdata[cell]])];
        x := x + 1;
      }
      y := y + 1;
    }
  }

  /** A bake log as BakeCells produces it covers the chunk, each cell once. */
  lemma BakeCoversChunk(draws: seq<BlockDraw>, blockdata: seq<byte>, texlist: seq<nat>)
    requires |draws| == CELLS && |blockdata| == CELLS && |texlist| == BLOCKS
    requires forall i :: 0 <= i < CELLS ==> blockdata[i] as int < BLOCKS
    requires forall k :: 0 <= k < CELLS ==>
      draws[k] == BlockDraw(k % CHUNKSIZE, k / CHUNKSIZE, k, texlist[blockdata[k]])
    ensures CoversChunk(draws)
    ensures forall x, y :: 0 <= x < CHUNKSIZE && 0 <= y < CHUNKSIZE ==>
      draws[CellIndex(x, y)].x == x && draws[CellIndex(x, y)].y == y
  {
    CellIndexBijection();
  }
}
