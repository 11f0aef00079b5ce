/**
  The residency list of demo_pretex.c: a doubly linked list of live chunks
  with head `chunk_list` and tail `chunk_list_tail`, the membership scan, the
  request that bakes and appends a missing chunk, the unlink-and-free of one
  chunk, and the per-frame admission and eviction passes.

  OpenGL is represented by the state the core depends on, kept in a `Gl`
  object apart from the list: counters standing for the names glGenTextures
  and glGenFramebuffers hand out, the framebuffer currently bound, and a ghost
  log of the bakes performed. The completeness verdict of each framebuffer is
  a parameter, and the list keeps a ghost set of the chunks released.
  rand() is a parameter: rand(n) is the value of its n-th call.
*/
module Residency {
  import opened Config
  import opened View
  import opened WorldData

  /** One resident chunk: `live_chunk`. */
  class LiveChunk {
    const cx: int
    const cy: int
    /** GL names of the chunk texture and of its offscreen framebuffer. */
    const tex: nat
    const fbo: nat
    /** Width and height of the chunk texture in pixels. */
    const texSize: int
    var next: LiveChunk?
    var prev: LiveChunk?
    /** The draws made into this chunk's texture when it was baked. */
    ghost const baked: seq<BlockDraw>

    constructor (cx: int, cy: int, tex: nat, fbo: nat, ghost baked: seq<BlockDraw>)
      ensures this.cx == cx && this.cy == cy && this.tex == tex && this.fbo == fbo
      ensures texSize == TEXSIZE && this.baked == baked
      ensures next == null && prev == null
    {
      this.cx, this.cy := cx, cy;
      this.tex, this.fbo := tex, fbo;
      texSize := CHUNKSIZE * BLOCKPIXELS;
      this.baked := baked;
      next, prev := null, null;
    }
  }

  /** The coordinate of a chunk. */
  function CoordOf(n: LiveChunk): Coord
  {
    Coord(n.cx, n.cy)
  }

  /** The coordinates of a sequence of chunks, in order. */
  function CoordsOf(ns: seq<LiveChunk>): (r: seq<Coord>)
    ensures |r| == |ns|
    ensures forall i {:trigger r[i]} :: 0 <= i < |ns| ==> r[i] == CoordOf(ns[i])
  {
    if ns == [] then [] else CoordsOf(ns[..|ns| - 1]) + [CoordOf(ns[|ns| - 1])]
  }

  /** The chunk that must precede ns[i] in a well-linked list. */
  function PrevOf(ns: seq<LiveChunk>, i: int): LiveChunk?
    requires 0 <= i < |ns|
  {
    if i == 0 then null else ns[i - 1]
  }

  /** The chunk that must follow ns[i] in a well-linked list. */
  function NextOf(ns: seq<LiveChunk>, i: int): LiveChunk?
    requires 0 <= i < |ns|
  {
    if i == |ns| - 1 then null else ns[i + 1]
  }

  /** The coordinate of the i-th chunk of ns. */
  function CoordAt(ns: seq<LiveChunk>, i: int): Coord
    requires 0 <= i < |ns|
  {
    CoordOf(ns[i])
  }

  /** At most one chunk per coordinate. */
  predicate UniqueCoords(ns: seq<LiveChunk>)
  {
    forall i, j :: 0 <= i < j < |ns| ==> CoordAt(ns, i) != CoordAt(ns, j)
  }

  /** Chunks with distinct coordinates are distinct objects. */
  lemma DistinctAt(ns: seq<LiveChunk>, i: int, j: int)
    requires UniqueCoords(ns) && 0 <= i < |ns| && 0 <= j < |ns| && i != j
    ensures ns[i] != ns[j]
  {
    if i < j {
      assert CoordAt(ns, i) != CoordAt(ns, j);
    } else {
      assert CoordAt(ns, j) != CoordAt(ns, i);
    }
  }

  /** Element j of ns with its i-th element removed. */
  lemma RemoveIndex<T>(ns: seq<T>, i: int, j: int)
    requires 0 <= i < |ns| && 0 <= j < |ns| - 1
    ensures (ns[..i] + ns[i + 1..])[j] == ns[if j < i then j else j + 1]
  {
  }

  /** Removing one chunk keeps "at most one chunk per coordinate". */
  lemma RemoveUnique(ns: seq<LiveChunk>, i: int)
    requires UniqueCoords(ns) && 0 <= i < |ns|
    ensures UniqueCoords(ns[..i] + ns[i + 1..])
  {
    var r := ns[..i] + ns[i + 1..];
    forall j, k | 0 <= j < k < |r|
      ensures CoordAt(r, j) != CoordAt(r, k)
    {
      var j' := if j < i then j else j + 1;
      var k' := if k < i then k else k + 1;
      assert r[j] == ns[j'] && r[k] == ns[k'];
      assert CoordAt(ns, j') != CoordAt(ns, k');
    }
  }

  /** A prefix of a list with at most one chunk per coordinate has that property too. */
  lemma PrefixUnique(ns: seq<LiveChunk>, n: nat)
    requires UniqueCoords(ns) && n <= |ns|
    ensures UniqueCoords(ns[..n])
  {
    forall i, j | 0 <= i < j < n
      ensures CoordAt(ns[..n], i) != CoordAt(ns[..n], j)
    {
      assert CoordAt(ns, i) != CoordAt(ns, j);
    }
  }

  /** The chunks of ns that pass the eviction test, in their order. */
  function Kept(ns: seq<LiveChunk>, camx: real, camy: real): seq<LiveChunk>
  {
    if ns == [] then []
    else
      var last := ns[|ns| - 1];
      Kept(ns[..|ns| - 1], camx, camy) + (if OutOfView(camx, camy, CoordOf(last)) then [] else [last])
  }

  /** The chunks of ns that fail the eviction test, in their order. */
  function Evicted(ns: seq<LiveChunk>, camx: real, camy: real): seq<LiveChunk>
  {
    if ns == [] then []
    else
      var last := ns[|ns| - 1];
      Evicted(ns[..|ns| - 1], camx, camy) + (if OutOfView(camx, camy, CoordOf(last)) then [last] else [])
  }

  /** The chunks of a sequence, as a set. */
  ghost function Elems(ns: seq<LiveChunk>): set<LiveChunk>
  {
    if ns == [] then {} else Elems(ns[..|ns| - 1]) + {ns[|ns| - 1]}
  }

  /** In a list with at most one chunk per coordinate, a chunk sits at one index only. */
  lemma UniqueIndex(ns: seq<LiveChunk>, i: int, j: int)
    requires UniqueCoords(ns) && 0 <= i < |ns| && 0 <= j < |ns|
    ensures ns[i] == ns[j] ==> i == j
  {
    if i < j {
      assert CoordAt(ns, i) != CoordAt(ns, j);
    } else if j < i {
      assert CoordAt(ns, j) != CoordAt(ns, i);
    }
  }

  lemma ElemsAppend(ns: seq<LiveChunk>, n: LiveChunk)
    ensures Elems(ns + [n]) == Elems(ns) + {n}
  {
    assert (ns + [n])[..|ns|] == ns;
  }

  /** Dropping the entry at |kept| from kept + rest leaves kept + rest[1..]. */
  lemma DropFirstOfRest(kept: seq<LiveChunk>, rest: seq<LiveChunk>, before: seq<LiveChunk>, after: seq<LiveChunk>)
    requires rest != [] && before == kept + rest
    requires after == before[..|kept|] + before[|kept| + 1..]
    ensures after == kept + rest[1..]
  {
    assert before[..|kept|] == kept;
    assert before[|kept| + 1..] == rest[1..];
  }

  /** Moving the first entry of rest to the end of done keeps done + rest. */
  lemma ShiftOne(done: seq<LiveChunk>, rest: seq<LiveChunk>)
    requires rest != []
    ensures done + [rest[0]] + rest[1..] == done + rest
  {
    assert [rest[0]] + rest[1..] == rest;
  }

  /** The released set after one more evicted chunk. */
  lemma ReleasedStep(done: seq<LiveChunk>, n: LiveChunk, rel0: set<LiveChunk>, rel: set<LiveChunk>, rel': set<LiveChunk>, camx: real, camy: real)
    requires OutOfView(camx, camy, CoordOf(n))
    requires rel == rel0 + Elems(Evicted(done, camx, camy)) && rel' == rel + {n}
    ensures rel' == rel0 + Elems(Evicted(done + [n], camx, camy))
    ensures Kept(done + [n], camx, camy) == Kept(done, camx, camy)
  {
    KeptSnoc(done, n, camx, camy);
    ElemsAppend(Evicted(done, camx, camy), n);
  }

  /**
    One step of the eviction pass that frees the first chunk of rest, having
    walked past done: the list kept + rest loses the chunk at |kept|, which
    joins the released chunks.
  */
  lemma EvictedStep(done: seq<LiveChunk>, rest: seq<LiveChunk>, kept: seq<LiveChunk>, before: seq<LiveChunk>, after: seq<LiveChunk>,
                    rel0: set<LiveChunk>, rel: set<LiveChunk>, rel': set<LiveChunk>, camx: real, camy: real)
    requires rest != [] && OutOfView(camx, camy, CoordOf(rest[0]))
    requires kept == Kept(done, camx, camy) && before == kept + rest
    requires after == before[..|kept|] + before[|kept| + 1..]
    requires rel == rel0 + Elems(Evicted(done, camx, camy)) && rel' == rel + {rest[0]}
    ensures after == kept + rest[1..] && kept == Kept(done + [rest[0]], camx, camy)
    ensures rel' == rel0 + Elems(Evicted(done + [rest[0]], camx, camy))
    ensures done + [rest[0]] + rest[1..] == done + rest
  {
    DropFirstOfRest(kept, rest, before, after);
    ReleasedStep(done, rest[0], rel0, rel, rel', camx, camy);
    ShiftOne(done, rest);
  }

  /** The successor of the first chunk of rest in kept + rest is the second chunk of rest, if any. */
  lemma NextInRest(ns: seq<LiveChunk>, kept: seq<LiveChunk>, rest: seq<LiveChunk>)
    requires ns == kept + rest && rest != []
    ensures NextOf(ns, |kept|) == (if rest[1..] == [] then null else rest[1..][0])
  {
  }

  /** One step of the eviction pass that keeps the first chunk of rest, having walked past done. */
  lemma KeptStep(done: seq<LiveChunk>, rest: seq<LiveChunk>, kept: seq<LiveChunk>, camx: real, camy: real)
    requires rest != [] && !OutOfView(camx, camy, CoordOf(rest[0])) && kept == Kept(done, camx, camy)
    ensures kept + rest == kept + [rest[0]] + rest[1..] && kept + [rest[0]] == Kept(done + [rest[0]], camx, camy)
    ensures Evicted(done + [rest[0]], camx, camy) == Evicted(done, camx, camy)
    ensures done + [rest[0]] + rest[1..] == done + rest
  {
    KeptSnoc(done, rest[0], camx, camy);
    ShiftOne(kept, rest);
    ShiftOne(done, rest);
  }

  /** Kept and Evicted of a list with one more chunk at the end. */
  lemma KeptSnoc(ns: seq<LiveChunk>, n: LiveChunk, camx: real, camy: real)
    ensures Kept(ns + [n], camx, camy) == Kept(ns, camx, camy) + (if OutOfView(camx, camy, CoordOf(n)) then [] else [n])
    ensures Evicted(ns + [n], camx, camy) == Evicted(ns, camx, camy) + (if OutOfView(camx, camy, CoordOf(n)) then [n] else [])
  {
    assert (ns + [n])[..|ns|] == ns;
  }

  /**
    The coordinates the admission loops have requested once they reach
    column cx, row cy: all of the admission range in earlier columns, and the
    rows before cy in column cx.
  */
  predicate AdmittedBefore(camx: real, camy: real, cx: int, cy: int, p: Coord)
  {
    InAdmitRange(camx, camy, p) && (p.x < cx || (p.x == cx && p.y < cy))
  }

  /** A request for a resident coordinate moves the admission loops on by one row. */
  lemma ResidentStep(camx: real, camy: real, cx: int, cy: int, ns: seq<LiveChunk>)
    requires Coord(cx, cy) in CoordsOf(ns)
    requires forall p :: AdmittedBefore(camx, camy, cx, cy, p) ==> p in CoordsOf(ns)
    ensures forall p :: AdmittedBefore(camx, camy, cx, cy + 1, p) ==> p in CoordsOf(ns)
  {
  }

  /**
    A request that appends the chunk for (cx, cy), an admission-range
    coordinate, to ns moves the admission loops on by one row: the first n0
    chunks stay, the new chunk is in range, and its bake is logged.
  */
  lemma AppendStep(camx: real, camy: real, cx: int, cy: int, before: seq<LiveChunk>, after: seq<LiveChunk>, n0: nat,
                   prefix: seq<LiveChunk>, bakes0: seq<Coord>, bakes: seq<Coord>, bakes': seq<Coord>)
    requires InAdmitRange(camx, camy, Coord(cx, cy))
    requires n0 <= |before| && before[..n0] == prefix
    requires |after| == |before| + 1 && after == before + [after[|before|]]
    requires CoordsOf(after) == CoordsOf(before) + [Coord(cx, cy)]
    requires bakes == bakes0 + CoordsOf(before)[n0..] && bakes' == bakes + [Coord(cx, cy)]
    requires forall p :: AdmittedBefore(camx, camy, cx, cy, p) ==> p in CoordsOf(before)
    requires forall j :: n0 <= j < |before| ==> InAdmitRange(camx, camy, CoordsOf(before)[j])
    ensures n0 <= |after| && after[..n0] == prefix
    ensures bakes' == bakes0 + CoordsOf(after)[n0..]
    ensures forall p :: AdmittedBefore(camx, camy, cx, cy + 1, p) ==> p in CoordsOf(after)
    ensures forall j :: n0 <= j < |after| ==> InAdmitRange(camx, camy, CoordsOf(after)[j])
  {
    assert after[..n0] == before[..n0];
    assert CoordsOf(after)[n0..] == CoordsOf(before)[n0..] + [Coord(cx, cy)];
  }


  /** The chunks of ns are partitioned between Kept and Evicted. */
  lemma {:induction false} KeptEvictedPartition(ns: seq<LiveChunk>, camx: real, camy: real)
    ensures |Kept(ns, camx, camy)| + |Evicted(ns, camx, camy)| == |ns|
    ensures forall n :: n in Kept(ns, camx, camy) <==> n in ns && !OutOfView(camx, camy, CoordOf(n))
    ensures forall n :: n in Evicted(ns, camx, camy) <==> n in ns && OutOfView(camx, camy, CoordOf(n))
  {
    if ns != [] {
      var init := ns[..|ns| - 1];
      KeptEvictedPartition(init, camx, camy);
      assert ns == init + [ns[|ns| - 1]];
    }
  }

  /** A coordinate is among the kept chunks exactly when it was present and is in view. */
  lemma {:induction false} KeptCoords(ns: seq<LiveChunk>, camx: real, camy: real, p: Coord)
    ensures p in CoordsOf(Kept(ns, camx, camy)) <==> p in CoordsOf(ns) && !OutOfView(camx, camy, p)
  {
    if ns != [] {
      var init := ns[..|ns| - 1];
      var last := ns[|ns| - 1];
      KeptCoords(init, camx, camy, p);
      assert ns == init + [last];
      KeptSnoc(init, last, camx, camy);
      CoordsAppend(init, [last]);
      CoordsAppend(Kept(init, camx, camy), if OutOfView(camx, camy, CoordOf(last)) then [] else [last]);
    }
  }

  lemma CoordsAppend(a: seq<LiveChunk>, b: seq<LiveChunk>)
    ensures CoordsOf(a + b) == CoordsOf(a) + CoordsOf(b)
  {
  }

  /** Eviction keeps "at most one chunk per coordinate". */
  lemma {:induction false} KeptUnique(ns: seq<LiveChunk>, camx: real, camy: real)
    requires UniqueCoords(ns)
    ensures UniqueCoords(Kept(ns, camx, camy))
  {
    if ns != [] {
      var init := ns[..|ns| - 1];
      var last := ns[|ns| - 1];
      PrefixUnique(ns, |ns| - 1);
      KeptUnique(init, camx, camy);
      if !OutOfView(camx, camy, CoordOf(last)) {
        var k := Kept(init, camx, camy);
        KeptCoords(init, camx, camy, CoordOf(last));
        forall i | 0 <= i < |init|
          ensures CoordsOf(init)[i] != CoordOf(last)
        {
          assert CoordAt(ns, i) != CoordAt(ns, |ns| - 1);
        }
        assert CoordOf(last) !in CoordsOf(init);
        AppendUnique(k, last);
        assert Kept(ns, camx, camy) == k + [last];
      } else {
        assert Kept(ns, camx, camy) == Kept(init, camx, camy);
      }
    }
  }

  /** n is one of the chunks repr, not released, and fully baked. */
  ghost predicate Held(n: LiveChunk, repr: set<LiveChunk>, rel: set<LiveChunk>)
  {
    n in repr && n !in rel && Baked(n)
  }

  /** n holds a full-size texture into which every cell of its chunk was drawn. */
  ghost predicate Baked(n: LiveChunk)
  {
    n.texSize == TEXSIZE && CoversChunk(n.baked)
  }

  /** The OpenGL and C library state the chunk code touches. */
  class Gl {
    /** The next names glGenTextures and glGenFramebuffers hand out. */
    var nextTexture: nat
    var nextFramebuffer: nat
    /** The framebuffer currently bound; 0 is the window. */
    var boundFramebuffer: nat
    /** Number of rand() calls made so far. */
    var randCalls: nat
    /** Coordinates baked into a chunk framebuffer, in order. */
    ghost var bakes: seq<Coord>

    /** The context after the atlas was loaded, with the window bound. */
    constructor (texture: nat, framebuffer: nat)
      ensures nextTexture == texture && nextFramebuffer == framebuffer
      ensures boundFramebuffer == 0 && randCalls == 0 && bakes == []
    {
      nextTexture, nextFramebuffer := texture, framebuffer;
      boundFramebuffer, randCalls, bakes := 0, 0, [];
    }
  }

  /**
    The name counters, rand() count and bound framebuffer (tex, fbo, rnd,
    bound) after n successful bakes, starting from (tex0, fbo0, rnd0, bound0).
  */
  predicate GlCounts(tex: nat, fbo: nat, rnd: nat, bound: nat, tex0: nat, fbo0: nat, rnd0: nat, bound0: nat, n: nat)
  {
    tex == tex0 + n && fbo == fbo0 + n && rnd == rnd0 + CELLS * n && bound == (if n == 0 then bound0 else 0)
  }

  /** One more successful bake. */
  lemma GlCountsStep(tex: nat, fbo: nat, rnd: nat, bound: nat, tex0: nat, fbo0: nat, rnd0: nat, bound0: nat, n: nat)
    requires GlCounts(tex, fbo, rnd, bound, tex0, fbo0, rnd0, bound0, n)
    ensures GlCounts(tex + 1, fbo + 1, rnd + CELLS, 0, tex0, fbo0, rnd0, bound0, n + 1)
  {
  }

  /**
    The static state of demo_pretex.c that the residency subsystem uses.
    `nodes` is the list from `chunk_list` to `chunk_list_tail`, in link order.
  */
  class ChunkCache {
    /** chunk_list and chunk_list_tail. */
    var head: LiveChunk?
    var tail: LiveChunk?
    /** pretex_texlist: the atlas texture of each block type; 0 for type 0. */
    var texlist: seq<nat>
    const gl: Gl

    ghost var nodes: seq<LiveChunk>
    /** Chunks whose texture and framebuffer were deleted. */
    ghost var released: set<LiveChunk>
    /** Every chunk ever linked into the list. */
    ghost var Repr: set<LiveChunk>

    /**
      The list invariant: head and tail are the ends of `nodes`, every prev and
      next link agrees with `nodes`, at most one chunk per coordinate, no
      resident chunk has been released, and every resident chunk was fully
      baked.
    */
    ghost predicate Valid()
      reads this, nodes
    {
      |texlist| == BLOCKS
      && (nodes == [] ==> head == null && tail == null)
      && (nodes != [] ==> head == nodes[0] && tail == nodes[|nodes| - 1])
      && (forall i {:trigger nodes[i].prev} :: 0 <= i < |nodes| ==> nodes[i].prev == PrevOf(nodes, i))
      && (forall i {:trigger nodes[i].next} :: 0 <= i < |nodes| ==> nodes[i].next == NextOf(nodes, i))
      && UniqueCoords(nodes)
      && (forall i :: 0 <= i < |nodes| ==> Held(nodes[i], Repr, released))
    }

    /** The state before the first frame: an empty list and the atlas names. */
    constructor (atlas: seq<nat>, gl: Gl)
      requires |atlas| == BLOCKS - 1
      ensures Valid() && fresh(this) && this.gl == gl
      ensures nodes == [] && released == {} && texlist == [0] + atlas
    {
      head, tail := null, null;
      texlist := [0] + atlas;
      this.gl := gl;
      nodes, released, Repr := [], {}, {};
    }

    /** demo_pretex_chunk_loaded: a linear scan from the head; changes nothing. */
    method Loaded(cx: int, cy: int) returns (loaded: bool)
      requires Valid()
      ensures loaded <==> Coord(cx, cy) in CoordsOf(nodes)
    {
      var c := head;
      ghost var k := 0;
      while c != null
        invariant 0 <= k <= |nodes|
        invariant c == (if k < |nodes| then nodes[k] else null)
        invariant forall i :: 0 <= i < k ==> CoordsOf(nodes)[i] != Coord(cx, cy)
        decreases |nodes| - k
      {
        if c.cx == cx && c.cy == cy {
          assert CoordsOf(nodes)[k] == Coord(cx, cy);
          return true;
        }
        assert c.next == NextOf(nodes, k);
        c := c.next;
        k := k + 1;
      }
      return false;
    }

    /**
      demo_pretex_compile_chunk: allocate the node, its 512x512 texture and its
      framebuffer; if the framebuffer is incomplete, return null, leaving that
      framebuffer bound and the node and GL objects unreleased. Otherwise query
      the block data, draw every cell, rebind the window and return the node.
    */
    method Compile(cx: int, cy: int, rand: nat -> nat, fboComplete: nat -> bool) returns (c: LiveChunk?)
      requires |texlist| == BLOCKS
      modifies gl
      ensures gl.nextTexture == old(gl.nextTexture) + 1 && gl.nextFramebuffer == old(gl.nextFramebuffer) + 1
      ensures c != null <==> fboComplete(old(gl.nextFramebuffer))
      ensures c == null ==>
        gl.boundFramebuffer == old(gl.nextFramebuffer) && gl.bakes == old(gl.bakes) && gl.randCalls == old(gl.randCalls)
      ensures c != null ==>
        fresh(c) && c.cx == cx && c.cy == cy && c.next == null && c.prev == null
        && c.tex == old(gl.nextTexture) && c.fbo == old(gl.nextFramebuffer) && c.texSize == TEXSIZE
        && CoversChunk(c.baked)
        && (forall k :: 0 <= k < CELLS ==>
              c.baked[k] == BlockDraw(k % CHUNKSIZE, k / CHUNKSIZE, k, texlist[rand(old(gl.randCalls) + k) % BLOCKS]))
        && gl.boundFramebuffer == 0 && gl.bakes == old(gl.bakes) + [Coord(cx, cy)]
        && gl.randCalls == old(gl.randCalls) + CELLS
    {
      var tex := gl.nextTexture;
      gl.nextTexture := gl.nextTexture + 1;
      var fbo := gl.nextFramebuffer;
      gl.nextFramebuffer := gl.nextFramebuffer + 1;
      gl.boundFramebuffer := fbo;
      if !fboComplete(fbo) {
        return null;
      }
      var blockdata := new byte[CHUNKSIZE * CHUNKSIZE];
      QueryWData(0, 0, blockdata, rand, gl.randCalls);
      gl.randCalls := gl.randCalls + CELLS;
      var draws := BakeCells(blockdata, texlist);
      BakeCoversChunk(draws, blockdata[..], texlist);
      gl.boundFramebuffer := 0;
      gl.bakes := gl.bakes + [Coord(cx, cy)];
      c := new LiveChunk(cx, cy, tex, fbo, draws);
    }

    /**
      demo_pretex_request_chunk: nothing if the coordinate is resident;
      otherwise bake it and append the new chunk at the tail. A failed bake
      on a non-empty list dereferences null in demo_pretex.c, so callers must
      not let that happen; on an empty list it leaves the list empty.
    */
    method Request(cx: int, cy: int, rand: nat -> nat, fboComplete: nat -> bool)
      requires Valid()
      requires !fboComplete(gl.nextFramebuffer) ==> nodes == [] || Coord(cx, cy) in CoordsOf(nodes)
      modifies this, Repr, gl
      ensures Valid()
      ensures texlist == old(texlist) && released == old(released)
      ensures old(Repr) <= Repr && fresh(Repr - old(Repr))
      ensures Coord(cx, cy) in old(CoordsOf(nodes)) ==>
        nodes == old(nodes) && head == old(head) && tail == old(tail) && gl.bakes == old(gl.bakes)
      ensures Coord(cx, cy) !in old(CoordsOf(nodes)) && fboComplete(old(gl.nextFramebuffer)) ==>
        |nodes| == |old(nodes)| + 1 && nodes == old(nodes) + [nodes[|old(nodes)|]]
        && fresh(nodes[|old(nodes)|]) && CoordOf(nodes[|old(nodes)|]) == Coord(cx, cy)
        && CoordsOf(nodes) == old(CoordsOf(nodes)) + [Coord(cx, cy)]
        && gl.bakes == old(gl.bakes) + [Coord(cx, cy)]
        && (old(nodes) != [] ==> head == old(head))
      ensures Coord(cx, cy) !in old(CoordsOf(nodes)) && !fboComplete(old(gl.nextFramebuffer)) ==>
        nodes == [] && head == null && tail == null && gl.bakes == old(gl.bakes)
      ensures Coord(cx, cy) in CoordsOf(nodes) || !fboComplete(old(gl.nextFramebuffer))
      ensures Coord(cx, cy) in old(CoordsOf(nodes)) ==>
        gl.nextTexture == old(gl.nextTexture) && gl.nextFramebuffer == old(gl.nextFramebuffer)
        && gl.boundFramebuffer == old(gl.boundFramebuffer) && gl.randCalls == old(gl.randCalls)
      ensures Coord(cx, cy) !in old(CoordsOf(nodes)) ==>
        gl.nextTexture == old(gl.nextTexture) + 1 && gl.nextFramebuffer == old(gl.nextFramebuffer) + 1
      ensures Coord(cx, cy) !in old(CoordsOf(nodes)) && fboComplete(old(gl.nextFramebuffer)) ==>
        gl.boundFramebuffer == 0 && gl.randCalls == old(gl.randCalls) + CELLS
        && nodes[|old(nodes)|].tex == old(gl.nextTexture) && nodes[|old(nodes)|].fbo == old(gl.nextFramebuffer)
        && (forall k :: 0 <= k < CELLS ==>
              nodes[|old(nodes)|].baked[k]
              == BlockDraw(k % CHUNKSIZE, k / CHUNKSIZE, k, texlist[rand(old(gl.randCalls) + k) % BLOCKS]))
      ensures Coord(cx, cy) !in old(CoordsOf(nodes)) && !fboComplete(old(gl.nextFramebuffer)) ==>
        gl.boundFramebuffer == old(gl.nextFramebuffer) && gl.randCalls == old(gl.randCalls)
    {
      var loaded := Loaded(cx, cy);
      if loaded {
        return;
      }
      var c := Compile(cx, cy, rand, fboComplete);
      Link(c);
      if c != null {
        assert CoordsOf(nodes) == CoordsOf(old(nodes)) + [Coord(cx, cy)];
      }
    }

    /**
      The tail of demo_pretex_request_chunk: the compiled chunk c becomes the
      new tail, after the old tail if there is one and as the head otherwise.
      A null c is only linked into an empty list, where it leaves both ends null.
    */
    method Link(c: LiveChunk?)
      requires Valid()
      requires c == null ==> tail == null
      requires c != null ==> c.next == null && c.prev == null && c !in Repr && c !in released && Baked(c)
      requires c != null ==> CoordOf(c) !in CoordsOf(nodes)
      modifies this, c, tail
      ensures Valid()
      ensures c != null ==> nodes == old(nodes) + [c] && (old(nodes) != [] ==> head == old(head))
      ensures c == null ==> nodes == old(nodes) && head == null && tail == null
      ensures released == old(released) && texlist == old(texlist)
      ensures Repr == if c == null then old(Repr) else old(Repr) + {c}
    {
      if tail != null {
        LinkAfterTail(c);
      } else {
        head := c;
        tail := c;
        if c != null {
          nodes := nodes + [c];
          Repr := Repr + {c};
          assert nodes == [c];
        }
      }
    }

    /** The branch of Link for a non-empty list: c goes after the old tail. */
    method LinkAfterTail(c: LiveChunk)
      requires Valid() && tail != null
      requires c.next == null && c.prev == null && c !in Repr && c !in released && Baked(c)
      requires CoordOf(c) !in CoordsOf(nodes)
      modifies this, c, tail
      ensures Valid()
      ensures nodes == old(nodes) + [c] && head == old(head)
      ensures released == old(released) && texlist == old(texlist) && Repr == old(Repr) + {c}
    {
      ghost var t, before := tail, nodes;
      c.prev := tail;
      tail.next := c;
      tail := c;
      nodes := nodes + [c];
      Repr := Repr + {c};
      forall k | 0 <= k < |before| && before[k] != t
        ensures before[k].next == NextOf(before, k)
      {
        assert before[k].next == old(before[k].next);
      }
      forall k | 0 <= k < |before|
        ensures before[k].prev == PrevOf(before, k)
      {
        assert before[k] in old(Repr);
        assert before[k].prev == old(before[k].prev);
      }
      assert forall k :: 0 <= k < |before| ==> Held(before[k], old(Repr), released);
      AppendedValid(this, before, c, t, old(Repr), released);
    }

    /**
      demo_pretex_free_chunk: delete the chunk's texture and framebuffer and
      unlink it; its neighbours (or head and tail) are joined around it.
    */
    method Free(c: LiveChunk) returns (ghost i: nat)
      requires Valid() && c in nodes
      modifies this, Repr
      ensures Valid()
      ensures i < |old(nodes)| && old(nodes)[i] == c && nodes == old(nodes)[..i] + old(nodes)[i + 1..]
      ensures c !in old(released) && released == old(released) + {c}
      ensures texlist == old(texlist)
      ensures Repr == old(Repr)
    {
      ghost var before := nodes;
      i :| 0 <= i < |nodes| && nodes[i] == c;
      ghost var p, nx := c.prev, c.next;
      assert p == PrevOf(nodes, i) && nx == NextOf(nodes, i);
      if c.prev != null {
        c.prev.next := c.next;
      } else {
        head := c.next;
      }
      if c.next != null {
        c.next.prev := c.prev;
      } else {
        tail := c.prev;
      }
      nodes := nodes[..i] + nodes[i + 1..];
      released := released + {c};
      forall k | 0 <= k < |before| && before[k] != p
        ensures before[k].next == NextOf(before, k)
      {
        assert before[k].next == old(before[k].next);
      }
      forall k | 0 <= k < |before| && before[k] != nx
        ensures before[k].prev == PrevOf(before, k)
      {
        assert before[k].prev == old(before[k].prev);
      }
      UnlinkedValid(this, before, i, p, nx, old(released));
    }

    /**
      The eviction pass of demo_pretex_render: walk the list from the head;
      free every chunk that fails the eviction test, reading its successor
      first, and draw every other chunk. Afterwards exactly the chunks that
      pass the test remain, in their order, each drawn once; the others are
      released.
    */
    method EvictAndRender(camx: real, camy: real) returns (rendered: seq<LiveChunk>)
      requires Valid()
      modifies this, Repr
      ensures Valid()
      ensures nodes == Kept(old(nodes), camx, camy) && rendered == nodes
      ensures Repr == old(Repr)
      ensures released == old(released) + Elems(Evicted(old(nodes), camx, camy))
      ensures texlist == old(texlist)
    {
      ghost var done: seq<LiveChunk> := [];
      ghost var rest := nodes;
      rendered := [];
      var c := head;
      while c != null
        invariant Valid() && done + rest == old(nodes)
        invariant nodes == rendered + rest
        invariant c == (if rest == [] then null else rest[0])
        invariant rendered == Kept(done, camx, camy)
        invariant released == old(released) + Elems(Evicted(done, camx, camy))
        invariant texlist == old(texlist) && Repr == old(Repr)
        decreases |rest|
      {
        ghost var m := |rendered|;
        ghost var before := nodes;
        ghost var rel := released;
        assert before[m] == c && UniqueCoords(before);
        NextInRest(before, rendered, rest);
        if OutOfView(camx, camy, Coord(c.cx, c.cy)) {
          var tmp := c.next;
          assert tmp == NextOf(before, m);
          ghost var i := Free(c);
          UniqueIndex(before, i, m);
          EvictedStep(done, rest, rendered, before, nodes, old(released), rel, released, camx, camy);
          c := tmp;
        } else {
          assert c.next == NextOf(before, m);
          KeptStep(done, rest, rendered, camx, camy);
          rendered := rendered + [c];
          c := c.next;
        }
        done, rest := done + [rest[0]], rest[1..];
      }
      assert done == old(nodes);
    }

    /**
      The admission pass of demo_pretex_render: request every chunk of the
      columns from AdmitLo(camx) while the column starts at or before the right
      edge of the view, and in each the rows from AdmitLo(camy) while the row
      starts at or before the top edge. Resident chunks stay where they are, in
      order; each newly baked chunk is appended, has a coordinate of the
      admission range, and is baked exactly once.
    */
    method Admit(camx: real, camy: real, rand: nat -> nat, fboComplete: nat -> bool)
      requires Valid()
      requires forall n :: fboComplete(n)
      modifies this, Repr, gl
      ensures Valid()
      ensures texlist == old(texlist) && released == old(released)
      ensures old(Repr) <= Repr && fresh(Repr - old(Repr))
      ensures forall p :: InAdmitRange(camx, camy, p) ==> p in CoordsOf(nodes)
      ensures |old(nodes)| <= |nodes| && nodes[..|old(nodes)|] == old(nodes)
      ensures forall j :: |old(nodes)| <= j < |nodes| ==> InAdmitRange(camx, camy, CoordsOf(nodes)[j])
      ensures gl.bakes == old(gl.bakes) + CoordsOf(nodes)[|old(nodes)|..]
      ensures gl.nextTexture == old(gl.nextTexture) + (|nodes| - |old(nodes)|)
      ensures gl.nextFramebuffer == old(gl.nextFramebuffer) + (|nodes| - |old(nodes)|)
      ensures gl.randCalls == old(gl.randCalls) + CELLS * (|nodes| - |old(nodes)|)
      ensures gl.boundFramebuffer == if |nodes| == |old(nodes)| then old(gl.boundFramebuffer) else 0
    {
      ghost var n0 := |nodes|;
      var cx := AdmitLo(camx);
      while (cx * CHUNKSIZE) as real <= camx + VIEW_W
        invariant Valid() && AdmitLo(camx) <= cx
        invariant texlist == old(texlist) && released == old(released)
        invariant old(Repr) <= Repr && fresh(Repr - old(Repr))
        invariant forall p :: AdmittedBefore(camx, camy, cx, AdmitLo(camy), p) ==> p in CoordsOf(nodes)
        invariant n0 <= |nodes| && nodes[..n0] == old(nodes)
        invariant forall j :: n0 <= j < |nodes| ==> InAdmitRange(camx, camy, CoordsOf(nodes)[j])
        invariant gl.bakes == old(gl.bakes) + CoordsOf(nodes)[n0..]
        invariant GlCounts(gl.nextTexture, gl.nextFramebuffer, gl.randCalls, gl.boundFramebuffer,
            old(gl.nextTexture), old(gl.nextFramebuffer), old(gl.randCalls), old(gl.boundFramebuffer), |nodes| - n0)
        decreases (camx + VIEW_W).Floor - cx * CHUNKSIZE
      {
        AdmitColumn(camx, camy, cx, rand, fboComplete, old(nodes), old(gl.bakes),
                    old(gl.nextTexture), old(gl.nextFramebuffer), old(gl.randCalls), old(gl.boundFramebuffer));
        cx := cx + 1;
      }
    }

    /**
      The inner admission loop for column cx: request the rows from
      AdmitLo(camy) while the row starts at or before the top edge. The
      chunks resident when the pass began (prefix) stay in front, and the GL
      state and bake log grow by one bake per appended chunk, counted from
      the state when the pass began (bakes0, tex0, fbo0, rnd0, bound0).
    */
    method AdmitColumn(camx: real, camy: real, cx: int, rand: nat -> nat, fboComplete: nat -> bool,
                       ghost prefix: seq<LiveChunk>, ghost bakes0: seq<Coord>,
                       ghost tex0: nat, ghost fbo0: nat, ghost rnd0: nat, ghost bound0: nat)
      requires Valid() && InAdmitSpan(camx, VIEW_W, cx)
      requires forall n :: fboComplete(n)
      requires forall p :: AdmittedBefore(camx, camy, cx, AdmitLo(camy), p) ==> p in CoordsOf(nodes)
      requires |prefix| <= |nodes| && nodes[..|prefix|] == prefix
      requires forall j :: |prefix| <= j < |nodes| ==> InAdmitRange(camx, camy, CoordsOf(nodes)[j])
      requires gl.bakes == bakes0 + CoordsOf(nodes)[|prefix|..]
      requires GlCounts(gl.nextTexture, gl.nextFramebuffer, gl.randCalls, gl.boundFramebuffer,
                        tex0, fbo0, rnd0, bound0, |nodes| - |prefix|)
      modifies this, Repr, gl
      ensures Valid()
      ensures texlist == old(texlist) && released == old(released)
      ensures old(Repr) <= Repr && fresh(Repr - old(Repr))
      ensures forall p :: AdmittedBefore(camx, camy, cx + 1, AdmitLo(camy), p) ==> p in CoordsOf(nodes)
      ensures |prefix| <= |nodes| && nodes[..|prefix|] == prefix
      ensures forall j :: |prefix| <= j < |nodes| ==> InAdmitRange(camx, camy, CoordsOf(nodes)[j])
      ensures gl.bakes == bakes0 + CoordsOf(nodes)[|prefix|..]
      ensures GlCounts(gl.nextTexture, gl.nextFramebuffer, gl.randCalls, gl.boundFramebuffer,
                       tex0, fbo0, rnd0, bound0, |nodes| - |prefix|)
    {
      ghost var n0 := |prefix|;
      var cy := AdmitLo(camy);
      while (cy * CHUNKSIZE) as real <= camy + VIEW_H
        invariant Valid() && AdmitLo(camy) <= cy
        invariant texlist == old(texlist) && released == old(released)
        invariant old(Repr) <= Repr && fresh(Repr - old(Repr))
        invariant forall p :: AdmittedBefore(camx, camy, cx, cy, p) ==> p in CoordsOf(nodes)
        invariant n0 <= |nodes| && nodes[..n0] == prefix
        invariant forall j :: n0 <= j < |nodes| ==> InAdmitRange(camx, camy, CoordsOf(nodes)[j])
        invariant gl.bakes == bakes0 + CoordsOf(nodes)[n0..]
        invariant GlCounts(gl.nextTexture, gl.nextFramebuffer, gl.randCalls, gl.boundFramebuffer,
                           tex0, fbo0, rnd0, bound0, |nodes| - n0)
        decreases (camy + VIEW_H).Floor - cy * CHUNKSIZE
      {
        AdmitCell(camx, camy, cx, cy, rand, fboComplete, prefix, bakes0, tex0, fbo0, rnd0, bound0);
        cy := cy + 1;
      }
    }

    /**
      One pass of the inner admission loop: request (cx, cy) and extend the
      admitted-before coverage to the next row, keeping the earlier chunks in
      front and the bake log and GL counters in step with the appended chunks.
    */
    method AdmitCell(camx: real, camy: real, cx: int, cy: int, rand: nat -> nat, fboComplete: nat -> bool,
                     ghost prefix: seq<LiveChunk>, ghost bakes0: seq<Coord>,
                     ghost tex0: nat, ghost fbo0: nat, ghost rnd0: nat, ghost bound0: nat)
      requires Valid() && InAdmitSpan(camx, VIEW_W, cx) && InAdmitSpan(camy, VIEW_H, cy)
      requires forall n :: fboComplete(n)
      requires forall p :: AdmittedBefore(camx, camy, cx, cy, p) ==> p in CoordsOf(nodes)
      requires |prefix| <= |nodes| && nodes[..|prefix|] == prefix
      requires forall j :: |prefix| <= j < |nodes| ==> InAdmitRange(camx, camy, CoordsOf(nodes)[j])
      requires gl.bakes == bakes0 + CoordsOf(nodes)[|prefix|..]
      requires GlCounts(gl.nextTexture, gl.nextFramebuffer, gl.randCalls, gl.boundFramebuffer,
                        tex0, fbo0, rnd0, bound0, |nodes| - |prefix|)
      modifies this, Repr, gl
      ensures Valid()
      ensures texlist == old(texlist) && released == old(released)
      ensures old(Repr) <= Repr && fresh(Repr - old(Repr))
      ensures forall p :: AdmittedBefore(camx, camy, cx, cy + 1, p) ==> p in CoordsOf(nodes)
      ensures |prefix| <= |nodes| && nodes[..|prefix|] == prefix
      ensures forall j :: |prefix| <= j < |nodes| ==> InAdmitRange(camx, camy, CoordsOf(nodes)[j])
      ensures gl.bakes == bakes0 + CoordsOf(nodes)[|prefix|..]
      ensures GlCounts(gl.nextTexture, gl.nextFramebuffer, gl.randCalls, gl.boundFramebuffer,
                       tex0, fbo0, rnd0, bound0, |nodes| - |prefix|)
    {
      ghost var before, bakesBefore := nodes, gl.bakes;
      ghost var tex, fbo, rnd, bound := gl.nextTexture, gl.nextFramebuffer, gl.randCalls, gl.boundFramebuffer;
      Request(cx, cy, rand, fboComplete);
      if Coord(cx, cy) in CoordsOf(before) {
        ResidentStep(camx, camy, cx, cy, before);
      } else {
        AppendStep(camx, camy, cx, cy, before, nodes, |prefix|, prefix, bakes0, bakesBefore, gl.bakes);
        GlCountsStep(tex, fbo, rnd, bound, tex0, fbo0, rnd0, bound0, |before| - |prefix|);
      }
    }

    /**
      One frame of demo_pretex_render after the camera moved to (camx, camy):
      the admission pass, then the eviction pass that draws what it keeps.
      Afterwards the resident coordinates are exactly those that pass the
      eviction test, which are exactly the visible ones, and every resident
      chunk was drawn, in list order. The ghost result admitted is the list
      after admission: the chunks resident before the frame, followed by the
      chunks baked in this frame. Exactly the admitted chunks that fail the
      test are freed, so a chunk still in view stays resident as the same
      node, unbaked again.
    */
    method Frame(camx: real, camy: real, rand: nat -> nat, fboComplete: nat -> bool)
      returns (rendered: seq<LiveChunk>, ghost admitted: seq<LiveChunk>)
      requires Valid()
      requires forall n :: fboComplete(n)
      modifies this, Repr, gl
      ensures Valid() && rendered == nodes
      ensures |old(nodes)| <= |admitted| && admitted[..|old(nodes)|] == old(nodes)
      ensures forall j :: |old(nodes)| <= j < |admitted| ==> InAdmitRange(camx, camy, CoordsOf(admitted)[j])
      ensures nodes == Kept(admitted, camx, camy)
      ensures released == old(released) + Elems(Evicted(admitted, camx, camy))
      ensures gl.bakes == old(gl.bakes) + CoordsOf(admitted)[|old(nodes)|..]
      ensures texlist == old(texlist)
      ensures UniqueCoords(admitted) && forall j :: 0 <= j < |admitted| ==> admitted[j] !in old(released)
      ensures gl.nextTexture == old(gl.nextTexture) + (|admitted| - |old(nodes)|)
      ensures gl.nextFramebuffer == old(gl.nextFramebuffer) + (|admitted| - |old(nodes)|)
      ensures gl.randCalls == old(gl.randCalls) + CELLS * (|admitted| - |old(nodes)|)
      ensures gl.boundFramebuffer == if |admitted| == |old(nodes)| then old(gl.boundFramebuffer) else 0
      ensures forall p :: p in CoordsOf(nodes) <==> !OutOfView(camx, camy, p)
      ensures forall p :: p in CoordsOf(nodes) <==> Visible(camx, camy, p)
    {
      Admit(camx, camy, rand, fboComplete);
      admitted := nodes;
      rendered := EvictAndRender(camx, camy);
      forall p
        ensures p in CoordsOf(nodes) <==> !OutOfView(camx, camy, p)
        ensures p in CoordsOf(nodes) <==> Visible(camx, camy, p)
      {
        KeptCoords(admitted, camx, camy, p);
        AdmissionCovers(camx, camy, p);
        KeptIffVisible(camx, camy, p);
      }
    }
  }

  /**
    After the i-th chunk of ns is unlinked (its predecessor p points to its
    successor nx and back, every other link as in ns), chunk j of the
    shortened list r is linked to its neighbours in r.
  */
  lemma RelinkedAt(ns: seq<LiveChunk>, i: nat, r: seq<LiveChunk>, j: nat, p: LiveChunk?, nx: LiveChunk?)
    requires UniqueCoords(ns) && i < |ns| && r == ns[..i] + ns[i + 1..] && j < |r|
    requires p == PrevOf(ns, i) && nx == NextOf(ns, i)
    requires p != null ==> p.next == nx
    requires nx != null ==> nx.prev == p
    requires forall k {:trigger ns[k].next} :: 0 <= k < |ns| && ns[k] != p ==> ns[k].next == NextOf(ns, k)
    requires forall k {:trigger ns[k].prev} :: 0 <= k < |ns| && ns[k] != nx ==> ns[k].prev == PrevOf(ns, k)
    ensures r[j].prev == PrevOf(r, j) && r[j].next == NextOf(r, j)
  {
    var j' := if j < i then j else j + 1;
    RemoveIndex(ns, i, j);
    if 0 < j { RemoveIndex(ns, i, j - 1); }
    if j + 1 < |r| { RemoveIndex(ns, i, j + 1); }
    if j' != i - 1 && 0 < i {
      DistinctAt(ns, j', i - 1);
    }
    if j' != i + 1 && i + 1 < |ns| {
      DistinctAt(ns, j', i + 1);
    }
  }

  /** RelinkedAt for every chunk of the shortened list. */
  lemma Relinked(ns: seq<LiveChunk>, i: nat, r: seq<LiveChunk>, p: LiveChunk?, nx: LiveChunk?)
    requires UniqueCoords(ns) && i < |ns| && r == ns[..i] + ns[i + 1..]
    requires p == PrevOf(ns, i) && nx == NextOf(ns, i)
    requires p != null ==> p.next == nx
    requires nx != null ==> nx.prev == p
    requires forall k {:trigger ns[k].next} :: 0 <= k < |ns| && ns[k] != p ==> ns[k].next == NextOf(ns, k)
    requires forall k {:trigger ns[k].prev} :: 0 <= k < |ns| && ns[k] != nx ==> ns[k].prev == PrevOf(ns, k)
    ensures forall j {:trigger r[j].prev} :: 0 <= j < |r| ==> r[j].prev == PrevOf(r, j)
    ensures forall j {:trigger r[j].next} :: 0 <= j < |r| ==> r[j].next == NextOf(r, j)
  {
    forall j | 0 <= j < |r|
      ensures r[j].prev == PrevOf(r, j) && r[j].next == NextOf(r, j)
    {
      RelinkedAt(ns, i, r, j, p, nx);
    }
  }

  /**
    Removing the i-th chunk c of ns and adding it to the released chunks rel
    leaves every remaining chunk unreleased and baked, if that held before.
  */
  lemma RemoveKeeps(ns: seq<LiveChunk>, i: nat, r: seq<LiveChunk>, repr: set<LiveChunk>, rel: set<LiveChunk>, rel': set<LiveChunk>)
    requires UniqueCoords(ns) && i < |ns| && r == ns[..i] + ns[i + 1..] && rel' == rel + {ns[i]}
    requires forall k :: 0 <= k < |ns| ==> Held(ns[k], repr, rel)
    ensures forall j :: 0 <= j < |r| ==> Held(r[j], repr, rel')
  {
    forall j | 0 <= j < |r|
      ensures Held(r[j], repr, rel')
    {
      var j' := if j < i then j else j + 1;
      RemoveIndex(ns, i, j);
      DistinctAt(ns, j', i);
    }
  }

  /**
    The list invariant after the i-th chunk of ns, whose neighbours were p and
    nx, is unlinked and released: p points past it to nx and back, the ends
    move when it was one, and every other link is as it was in ns.
  */
  lemma UnlinkedValid(cache: ChunkCache, ns: seq<LiveChunk>, i: nat, p: LiveChunk?, nx: LiveChunk?, rel: set<LiveChunk>)
    requires UniqueCoords(ns) && i < |ns| && cache.nodes == ns[..i] + ns[i + 1..]
    requires |cache.texlist| == BLOCKS && cache.released == rel + {ns[i]}
    requires forall k :: 0 <= k < |ns| ==> Held(ns[k], cache.Repr, rel)
    requires p == PrevOf(ns, i) && nx == NextOf(ns, i)
    requires p != null ==> p.next == nx && cache.head == ns[0]
    requires p == null ==> cache.head == nx
    requires nx != null ==> nx.prev == p && cache.tail == ns[|ns| - 1]
    requires nx == null ==> cache.tail == p
    requires forall k {:trigger ns[k].next} :: 0 <= k < |ns| && ns[k] != p ==> ns[k].next == NextOf(ns, k)
    requires forall k {:trigger ns[k].prev} :: 0 <= k < |ns| && ns[k] != nx ==> ns[k].prev == PrevOf(ns, k)
    ensures cache.Valid()
  {
    Relinked(ns, i, cache.nodes, p, nx);
    RemoveKeeps(ns, i, cache.nodes, cache.Repr, rel, cache.released);
    RemoveUnique(ns, i);
    if cache.nodes != [] {
      RemoveIndex(ns, i, 0);
      RemoveIndex(ns, i, |cache.nodes| - 1);
    }
  }

  /** Appending a chunk with a new coordinate keeps "at most one chunk per coordinate". */
  lemma AppendUnique(ns: seq<LiveChunk>, c: LiveChunk)
    requires UniqueCoords(ns) && CoordOf(c) !in CoordsOf(ns)
    ensures UniqueCoords(ns + [c])
  {
    var r := ns + [c];
    forall j, k | 0 <= j < k < |r|
      ensures CoordAt(r, j) != CoordAt(r, k)
    {
      if k == |ns| {
        assert CoordOf(r[j]) == CoordsOf(ns)[j];
      } else {
        assert CoordAt(ns, j) != CoordAt(ns, k);
      }
    }
  }

  /**
    Linking a newly baked chunk c after the old tail t of ns (or as the only
    chunk of an empty list) keeps the list invariant, when every other link is
    as it was in ns.
  */
  lemma AppendedValid(cache: ChunkCache, ns: seq<LiveChunk>, c: LiveChunk, t: LiveChunk?, repr: set<LiveChunk>, rel: set<LiveChunk>)
    requires UniqueCoords(ns) && CoordOf(c) !in CoordsOf(ns) && Baked(c) && c !in rel
    requires forall k :: 0 <= k < |ns| ==> Held(ns[k], repr, rel)
    requires cache.nodes == ns + [c] && cache.released == rel && cache.Repr == repr + {c} && |cache.texlist| == BLOCKS
    requires t == (if ns == [] then null else ns[|ns| - 1])
    requires cache.tail == c && c.next == null && c.prev == t
    requires t == null ==> cache.head == c
    requires t != null ==> cache.head == ns[0] && t.next == c
    requires forall k {:trigger ns[k].next} :: 0 <= k < |ns| && ns[k] != t ==> ns[k].next == NextOf(ns, k)
    requires forall k {:trigger ns[k].prev} :: 0 <= k < |ns| ==> ns[k].prev == PrevOf(ns, k)
    ensures cache.Valid()
  {
    AppendedLinks(ns, c, cache.nodes, t);
    AppendKeeps(ns, c, cache.nodes, repr, rel);
    AppendUnique(ns, c);
    if ns != [] {
      assert cache.nodes[0] == ns[0];
    }
  }

  /** After c is linked behind the old tail t of ns, every chunk of r = ns + [c] is linked to its neighbours in r. */
  lemma AppendedLinks(ns: seq<LiveChunk>, c: LiveChunk, r: seq<LiveChunk>, t: LiveChunk?)
    requires UniqueCoords(ns) && r == ns + [c]
    requires t == (if ns == [] then null else ns[|ns| - 1])
    requires c.next == null && c.prev == t && (t != null ==> t.next == c)
    requires forall k {:trigger ns[k].next} :: 0 <= k < |ns| && ns[k] != t ==> ns[k].next == NextOf(ns, k)
    requires forall k {:trigger ns[k].prev} :: 0 <= k < |ns| ==> ns[k].prev == PrevOf(ns, k)
    ensures forall j {:trigger r[j].prev} :: 0 <= j < |r| ==> r[j].prev == PrevOf(r, j)
    ensures forall j {:trigger r[j].next} :: 0 <= j < |r| ==> r[j].next == NextOf(r, j)
  {
    forall j | 0 <= j < |r|
      ensures r[j].prev == PrevOf(r, j) && r[j].next == NextOf(r, j)
    {
      AppendedAt(ns, c, r, t, j);
    }
  }

  /** Appending an unreleased, baked chunk keeps every chunk unreleased and baked. */
  lemma AppendKeeps(ns: seq<LiveChunk>, c: LiveChunk, r: seq<LiveChunk>, repr: set<LiveChunk>, rel: set<LiveChunk>)
    requires r == ns + [c] && c !in rel && Baked(c)
    requires forall k :: 0 <= k < |ns| ==> Held(ns[k], repr, rel)
    ensures forall j :: 0 <= j < |r| ==> Held(r[j], repr + {c}, rel)
  {
    forall j | 0 <= j < |r|
      ensures Held(r[j], repr + {c}, rel)
    {
      if j < |ns| {
        assert r[j] == ns[j];
      }
    }
  }

  /** After c is linked behind the old tail t of ns, chunk j of r = ns + [c] is linked to its neighbours in r. */
  lemma AppendedAt(ns: seq<LiveChunk>, c: LiveChunk, r: seq<LiveChunk>, t: LiveChunk?, j: nat)
    requires UniqueCoords(ns) && r == ns + [c] && j < |r|
    requires t == (if ns == [] then null else ns[|ns| - 1])
    requires c.next == null && c.prev == t && (t != null ==> t.next == c)
    requires forall k {:trigger ns[k].next} :: 0 <= k < |ns| && ns[k] != t ==> ns[k].next == NextOf(ns, k)
    requires forall k {:trigger ns[k].prev} :: 0 <= k < |ns| ==> ns[k].prev == PrevOf(ns, k)
    ensures r[j].prev == PrevOf(r, j) && r[j].next == NextOf(r, j)
  {
    if j < |ns| {
      assert r[j] == ns[j];
      if 0 < j {
        assert r[j - 1] == ns[j - 1];
      }
      if j < |ns| - 1 {
        DistinctAt(ns, j, |ns| - 1);
        assert r[j + 1] == ns[j + 1];
      }
    }
  }
}
