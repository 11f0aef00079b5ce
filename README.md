# Chunk residency of the pretex demo, in Dafny

The pretex demo of tileproto draws a tile world as square chunks of 32 x 32
blocks. Each chunk is drawn once ("baked") into an offscreen 512 x 512
texture, and then each frame draws only the baked textures of the chunks in
view. This project models the part of `src/demo_pretex.c` that decides which
chunks are resident, and proves what that code promises.

The modelled parts are:

- **The residency list** (`live_chunk`, `chunk_list`, `chunk_list_tail`). It
  is a doubly linked list of heap nodes, modelled as the classes
  `Residency.LiveChunk` and `Residency.ChunkCache`. `ChunkCache.Valid()` is the
  list invariant:
  - a ghost sequence `nodes` lists the chunks from head to tail;
  - every `prev` and `next` link agrees with that sequence;
  - head and tail are its ends;
  - no two nodes share a coordinate;
  - every resident node is fully baked and not yet freed.
- **The list operations**:
  - `demo_pretex_chunk_loaded` is `ChunkCache.Loaded`;
  - `demo_pretex_request_chunk` is `ChunkCache.Request`, with its tail-append in `Link`;
  - `demo_pretex_free_chunk` is `ChunkCache.Free`;
  - `demo_pretex_compile_chunk` is `ChunkCache.Compile`, with its failure path.
- **The per-frame passes of `demo_pretex_render`**:
  - the nested admission loops are `ChunkCache.Admit`;
  - the eviction walk that frees and draws is `ChunkCache.EvictAndRender`;
  - the two in sequence are `ChunkCache.Frame`.
- **The integer tests the passes use** (module `View`):
  - the conversion of the camera position to a first chunk index;
  - the admission range;
  - the eviction test, related to an independent definition of visibility.
- **The world-data query and the bake loop** (module `WorldData`). The query
  fills the block-type buffer. The bake loop draws every cell once, in
  row-major order.
- **The row flip applied to each atlas image when it is loaded** (module
  `Atlas`).

These parts of the environment are modelled as follows:

- **OpenGL state.** It lives in a separate object, `Residency.Gl`:
  - counters stand for the names `glGenTextures` and `glGenFramebuffers` hand out;
  - `boundFramebuffer` is the framebuffer currently bound;
  - `randCalls` counts the calls to `rand()` made so far;
  - a ghost log records the coordinates baked, in order.
- **Freed chunks.** The list keeps a ghost set `released` of the chunks whose
  texture and framebuffer were deleted.
- **Framebuffer completeness.** The verdict of `glCheckFramebufferStatus` is
  a parameter `fboComplete`, keyed by framebuffer name.
- **`rand()`.** It is a parameter: `rand(n)` is the value of the n-th call.
- **Camera position.** It is an exact `real`.

## Model

| member | source | states |
|---|---|---|
| View.Trunc | src/demo_pretex.c:100-101 | The C conversion of the float `camerax/CHUNKSIZE - 1` to `int` truncates toward zero: the result is within one of the value, on the side of zero. |
| View.KeptIffVisible | src/demo_pretex.c:109 | A chunk passes the four-comparison eviction test exactly when its square footprint shares an interior point with the visible rectangle on both axes (`Visible`, defined by overlap and not by the comparisons). |
| View.AdmissionCovers | src/demo_pretex.c:100-109 | Every chunk coordinate that passes the eviction test lies in the range the admission loops request, which starts at the truncated index and runs while the chunk starts at or before the far edge. |
| View.MarginOutOfView | src/demo_pretex.c:100-109 | Once the camera is at 32 or beyond on an axis, the first index admitted on that axis is requested, yet its chunk ends at or before the camera, so it fails the eviction test in the same frame. |
| View.ScrollScenario | src/demo_pretex.c:109 | With the camera at (33, 1), chunk (1, 0) is the only coordinate that passes the eviction test. |
| WorldData.QueryWData | src/demo_pretex.c:213-222 | All CHUNKSIZE*CHUNKSIZE cells are written; cell i holds the (start+i)-th `rand()` value modulo BLOCKS, hence a block type in [0, BLOCKS). |
| WorldData.CellIndexBijection | src/demo_pretex.c:286-293 | `x + y*CHUNKSIZE` maps the cells of a chunk one-to-one onto [0, CHUNKSIZE*CHUNKSIZE): each cell's index is in range and determines the cell, and every index in range comes from a cell. |
| WorldData.BakeCells | src/demo_pretex.c:286-296 | The nested bake loop issues exactly CHUNKSIZE*CHUNKSIZE draws. Draw k is cell (k mod 32, k div 32), reads block data index k and binds `pretex_texlist[blockdata[k]]`; both indexes are in bounds. |
| WorldData.BakeCoversChunk | src/demo_pretex.c:286-296 | A bake log as the loop produces it covers the chunk with each cell drawn once, and the entry at the row-major index of (x, y) is the draw of cell (x, y). |
| Atlas.Memcpy | src/demo_pretex.c:142 | Copying n bytes between distinct buffers sets the destination range to the copied range of the source buffer and leaves the destination's other bytes as they were. |
| Atlas.CopyRow | src/demo_pretex.c:141-143 | One pass of the copy loop: if the first j rows of the new buffer are rows h-1 … h-j of the image, afterwards the first j+1 rows are rows h-1 … h-1-j. |
| Atlas.FlipImage | src/demo_pretex.c:139-143 | The loader's buffer is fresh and has w*h*4 bytes. Its contents are the image with its h rows of 4*w bytes in reverse order. |
| Atlas.FlippedRow | src/demo_pretex.c:139-143 | In the flipped image, bytes [j*rw, (j+1)*rw) are row h-1-j of the original image, for every j < h. |
| Atlas.FlipInvolution | src/demo_pretex.c:139-143 | Flipping the rows twice gives back the original image. |
| Residency.KeptEvictedPartition | src/demo_pretex.c:106-118 | The chunks the eviction walk keeps and those it frees partition the list: together they number as many as the list has. A chunk is kept exactly when it passes the test and freed exactly when it fails it. |
| Residency.KeptCoords | src/demo_pretex.c:106-118 | A coordinate is resident after the walk exactly when it was resident before and passes the eviction test. |
| Residency.KeptUnique | src/demo_pretex.c:106-118 | The walk preserves "at most one chunk per coordinate". |
| Residency.RemoveUnique | src/demo_pretex.c:304-321 | Unlinking one chunk preserves "at most one chunk per coordinate". |
| Residency.AppendUnique | src/demo_pretex.c:332-342 | Appending a chunk whose coordinate is not resident preserves "at most one chunk per coordinate". |
| Residency.UnlinkedValid | src/demo_pretex.c:304-321 | When the predecessor of chunk i (or the head) points to its successor, the successor (or the tail) points back to its predecessor, and all other links are as before, the list without chunk i satisfies the list invariant. |
| Residency.AppendedValid | src/demo_pretex.c:335-341 | When a chunk is hung after the old tail (or becomes the head of an empty list) and becomes the tail, the list with that chunk appended satisfies the list invariant. |
| Residency.ChunkCache.constructor | src/demo_pretex.c:38-41 | The static state before the first frame: an empty list with null head and tail, nothing released, and `pretex_texlist` holding 0 for block type 0 followed by the atlas textures. |
| Residency.ChunkCache.Loaded | src/demo_pretex.c:323-330 | The scan from the head returns true exactly when some resident chunk has both coordinates equal to the arguments; it modifies nothing. |
| Residency.ChunkCache.Compile | src/demo_pretex.c:235-302 | One texture name and one framebuffer name are used up. The result is null exactly when the framebuffer is incomplete, and then that framebuffer stays bound, no `rand()` call is made and nothing is baked. Otherwise the result is a fresh unlinked node with the requested coordinates, those names and a 512 x 512 texture. Its bake draws every cell: draw k is cell (k mod 32, k div 32) with texture `texlist[rand(start+k) mod BLOCKS]`, where start is the number of earlier `rand()` calls. The window is bound again, CELLS `rand()` calls are consumed and the bake of (cx, cy) is logged. |
| Residency.ChunkCache.Request | src/demo_pretex.c:332-342 | For a resident coordinate the list, its ends, the bake log and the GL state (names handed out, bound framebuffer, `rand()` calls) are unchanged. Otherwise one texture and one framebuffer name are used up and, when the framebuffer is complete, exactly one fresh chunk with that coordinate is appended at the tail. It holds those names and the bake of the next CELLS `rand()` values, the window is bound again and one bake is logged; when it is incomplete, that framebuffer stays bound and no `rand()` call is made. The existing chunks keep their order, the head changes only if the list was empty, and the list invariant, including one chunk per coordinate, is preserved. |
| Residency.ChunkCache.Link | src/demo_pretex.c:335-341 | The compiled chunk becomes the new tail, after the old tail if there is one, or as the head of an empty list. A null chunk in an empty list leaves both ends null. The invariant is preserved. |
| Residency.ChunkCache.LinkAfterTail | src/demo_pretex.c:335-337 | The non-empty branch: the chunk's `prev` is the old tail and the old tail's `next` is the chunk. The list becomes the old list plus the chunk, with the head unchanged. |
| Residency.ChunkCache.Free | src/demo_pretex.c:304-321 | Exactly the given chunk is removed; the others keep their order. The chunk was not released before and is released now. The invariant holds again: the predecessor's `next` (or the head) is the chunk's old successor, and the successor's `prev` (or the tail) is its old predecessor. |
| Residency.ChunkCache.EvictAndRender | src/demo_pretex.c:106-118 | After the walk the list is exactly the original chunks that pass the eviction test, in their original order. They are drawn once each, in that order. The released set grows by exactly the chunks that fail the test, each freed once, because the successor is read before the free. |
| Residency.ChunkCache.AdmitCell | src/demo_pretex.c:102 | One request of the inner loop: every coordinate up to and including (cx, cy) in admission order is resident afterwards, the earlier chunks stay in front, a chunk it appends is in the admission range, and the bake log and GL counters grow by one bake exactly when it appends. |
| Residency.ChunkCache.AdmitColumn | src/demo_pretex.c:101-103 | The inner loop for one column: extends "every coordinate before (cx, AdmitLo) in admission order is resident" to the whole column cx, keeps the earlier chunks in front and every appended chunk in the admission range, and keeps the bake log and GL counters in step with the number of appended chunks. |
| Residency.ChunkCache.Admit | src/demo_pretex.c:100-104 | After the nested loops every coordinate of the admission range is resident. The chunks resident before remain, in order, at the front. Every appended chunk has a coordinate in the range, and the bake log grows by exactly the appended coordinates. Texture and framebuffer names grow by the number of appended chunks, `rand()` calls by CELLS per appended chunk, and the bound framebuffer is the window once anything was baked and unchanged otherwise. |
| Residency.ChunkCache.Frame | src/demo_pretex.c:100-118 | After admission and eviction, a coordinate is resident exactly when it passes the eviction test, which is exactly when it is visible. Every resident chunk was drawn, in list order. The list after admission is the old list followed by chunks baked in this frame, each in the admission range. The final list is its order-preserving filter by the test, so a chunk resident before and still in view is the same node, not baked again. The admitted list keeps one chunk per coordinate and holds no chunk released before the frame, so exactly the admitted chunks that fail the test are released, each once. The bake log grows by exactly the chunks appended in this frame, and `pretex_texlist` is unchanged. Texture and framebuffer names grow by the number of chunks appended, `rand()` calls by CELLS per appended chunk, and the bound framebuffer is the window once anything was baked and unchanged otherwise. |

## Left out

- OpenGL, GLFW and stb_image calls: texture parameters, viewport, VAO and VBO
  setup, the per-block matrices and `glDrawArrays`, `stbi_load`, and
  `demo_pretex_free`. The same goes for the `printf` diagnostics, among them
  "demo_pretex: FBO init failed" on the failure path of
  `demo_pretex_compile_chunk` (src/demo_pretex.c:258). They are represented
  only by the name counters, the bound framebuffer, the bake log and the set
  of released chunks.
- `demo_pretex_render_chunk` (src/demo_pretex.c:224-233): a chunk is "drawn"
  when it is appended to the sequence `EvictAndRender` returns.
- The float camera integrator (src/demo_pretex.c:73-98) and all matrix
  arithmetic. The camera position is a parameter of each frame, and positions
  and `RATIO` are exact reals rather than `float`.
- C `int` overflow: of `cx * CHUNKSIZE` for very large chunk indexes, and of
  the atlas loader's size and offsets `w*h*4`, `j * rw` and `(h-1) * rw` for
  very large images (src/demo_pretex.c:139-142). Integers are unbounded.
- The results of `malloc` are not checked for NULL (src/demo_pretex.c:139 and
  :236). In the model `new` always succeeds, so allocation failure is not
  represented.
- `rand()` is a parameter indexed by call number. `demo_pretex_query_wdata`
  is called with (0, 0) whatever the chunk, and the model keeps that.
- The admission loop at src/demo_pretex.c:100-101 has no clamp for negative
  chunk coordinates. With the camera at or below 0 it requests negative
  indexes, and the model does too. Index -1 is requested already at 0, where
  the zero-initialised camera of src/demo_pretex.c:42 starts.
- Residency.ChunkCache.Request: requires that a failed bake happens only on an
  empty list or for a resident coordinate. On a non-empty list the C code
  writes through the null result (src/demo_pretex.c:334-337), so that case has
  no defined behaviour to model.
- Residency.ChunkCache.Admit: requires every framebuffer to be complete, so
  every request bakes.
- Residency.ChunkCache.AdmitColumn: has the same requirement as `Admit`,
  since it is the inner admission loop. A failed bake on an empty list, which
  `demo_pretex_request_chunk` survives (src/demo_pretex.c:338-341), is not
  covered.
- Residency.ChunkCache.AdmitCell: has the same requirement as `Admit`, since it
  is one pass of the inner admission loop. The same failed bake on an empty
  list is not covered.
- Residency.ChunkCache.Frame: has the same requirement as `Admit`.
- Residency.ChunkCache.Compile: on the failure path the node allocated by
  `malloc` is leaked. That leak is not represented: the model allocates the
  node only once the framebuffer is complete.
- Residency.ChunkCache.Compile: the texture and framebuffer names used up on
  the failure path are not recorded as leaked.
- Residency.ChunkCache.Free: `free(c)` is represented by membership in the
  ghost set `released`, so the order of releases is not kept.
- Residency.ChunkCache.Free: the node's own `next` and `prev` are left as they
  were.
- The rest of `demo_pretex_init` apart from the row-flip loop. src/text.c,
  src/tileproto.c and src/timer.c are not part of this model.
