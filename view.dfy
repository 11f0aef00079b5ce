/**
  The visible rectangle of demo_pretex_render and the two integer tests the
  residency list is driven by: the range of chunk coordinates the admission
  loop requests, and the eviction test applied to every resident chunk.
  Camera positions are exact reals; demo_pretex.c compares floats.
*/
module View {
  import opened Config

  /** Width and height of the visible rectangle in world units (blocks). */
  const VIEW_W: real := CAMERASIZE * RATIO
  const VIEW_H: real := CAMERASIZE

  /** C's conversion of a floating value to `int`: truncation toward zero. */
  function Trunc(r: real): (n: int)
    ensures 0.0 <= r ==> n as real <= r < n as real + 1.0
    ensures r < 0.0 ==> n as real - 1.0 < r <= n as real
  {
    if r >= 0.0 then r.Floor else -((-r).Floor)
  }

  /**
    The eviction test of the render loop: chunk c is dropped when it starts at or
    past the right (top) edge or ends at or before the left (bottom) edge of the
    rectangle whose lower-left corner is the camera (camx, camy).
  */
  predicate OutOfView(camx: real, camy: real, c: Coord)
  {
    (c.x * CHUNKSIZE) as real >= camx + VIEW_W
    || ((c.x + 1) * CHUNKSIZE) as real <= camx
    || ((c.y + 1) * CHUNKSIZE) as real <= camy
    || (c.y * CHUNKSIZE) as real >= camy + VIEW_H
  }

  /** First chunk index the admission loop requests for camera coordinate cam. */
  function AdmitLo(cam: real): int
  {
    Trunc(cam / CHUNKSIZE as real - 1.0)
  }

  /**
    c is visited by a loop that starts at AdmitLo(cam) and runs while
    c * CHUNKSIZE <= cam + extent; the guard only gets harder to meet as c
    grows, so the visited indices are exactly these.
  */
  predicate InAdmitSpan(cam: real, extent: real, c: int)
  {
    AdmitLo(cam) <= c && (c * CHUNKSIZE) as real <= cam + extent
  }

  /** The coordinates the nested admission loops pass to the request. */
  predicate InAdmitRange(camx: real, camy: real, c: Coord)
  {
    InAdmitSpan(camx, VIEW_W, c.x) && InAdmitSpan(camy, VIEW_H, c.y)
  }

  predicate Inside(p: real, lo: real, hi: real)
  {
    lo < p < hi
  }

  /** The open intervals (a0, a1) and (b0, b1) share a point. */
  ghost predicate Overlap(a0: real, a1: real, b0: real, b1: real)
  {
    exists p :: Inside(p, a0, a1) && Inside(p, b0, b1)
  }

  /**
    Reference definition of visibility: the chunk's square footprint and the
    visible rectangle share an interior point on both axes.
  */
  ghost predicate Visible(camx: real, camy: real, c: Coord)
  {
    Overlap((c.x * CHUNKSIZE) as real, ((c.x + 1) * CHUNKSIZE) as real, camx, camx + VIEW_W)
    && Overlap((c.y * CHUNKSIZE) as real, ((c.y + 1) * CHUNKSIZE) as real, camy, camy + VIEW_H)
  }

  lemma OverlapByBounds(a0: real, a1: real, b0: real, b1: real)
    requires a0 < a1 && b0 < b1
    ensures Overlap(a0, a1, b0, b1) <==> a0 < b1 && b0 < a1
  {
    if a0 < b1 && b0 < a1 {
      var lo := if a0 < b0 then b0 else a0;
      var hi := if a1 < b1 then a1 else b1;
      var p := (lo + hi) / 2.0;
      assert Inside(p, a0, a1) && Inside(p, b0, b1);
    }
  }

  /** A chunk survives the eviction test exactly when it is visible. */
  lemma KeptIffVisible(camx: real, camy: real, c: Coord)
    ensures !OutOfView(camx, camy, c) <==> Visible(camx, camy, c)
  {
    OverlapByBounds((c.x * CHUNKSIZE) as real, ((c.x + 1) * CHUNKSIZE) as real, camx, camx + VIEW_W);
    OverlapByBounds((c.y * CHUNKSIZE) as real, ((c.y + 1) * CHUNKSIZE) as real, camy, camy + VIEW_H);
  }

  /** Admission coverage: every chunk that survives the eviction test was requested. */
  lemma AdmissionCovers(camx: real, camy: real, c: Coord)
    ensures !OutOfView(camx, camy, c) ==> InAdmitRange(camx, camy, c)
  {
    if !OutOfView(camx, camy, c) {
      SpanCovers(camx, VIEW_W, c.x);
      SpanCovers(camy, VIEW_H, c.y);
    }
  }

  lemma SpanCovers(cam: real, extent: real, c: int)
    requires (c * CHUNKSIZE) as real < cam + extent && cam < ((c + 1) * CHUNKSIZE) as real
    ensures InAdmitSpan(cam, extent, c)
  {
    var v := cam / CHUNKSIZE as real - 1.0;
    assert v < c as real;
  }

  /**
    The one-chunk margin below the camera is wasted once the camera is at 32 or
    more: the first admitted column (row) then ends at or before the camera, so
    that chunk is requested and fails the eviction test in the same frame.
  */
  lemma MarginOutOfView(cam: real, extent: real)
    requires CHUNKSIZE as real <= cam && 0.0 <= extent
    ensures InAdmitSpan(cam, extent, AdmitLo(cam))
    ensures ((AdmitLo(cam) + 1) * CHUNKSIZE) as real <= cam
  {
    var v := cam / CHUNKSIZE as real - 1.0;
    assert AdmitLo(cam) as real <= v;
  }

  /**
    A scroll: with the camera at (33, 1) exactly one chunk, (1, 0), passes the
    eviction test; chunk (0, 0) does not.
  */
  lemma ScrollScenario()
    ensures forall c :: !OutOfView(33.0, 1.0, c) <==> c == Coord(1, 0)
  {
    forall c: Coord
      ensures !OutOfView(33.0, 1.0, c) <==> c == Coord(1, 0)
    {
      if !OutOfView(33.0, 1.0, c) {
        assert c.x * CHUNKSIZE < 60;
        assert (c.x + 1) * CHUNKSIZE > 33;
        assert c.y * CHUNKSIZE < 16;
        assert (c.y + 1) * CHUNKSIZE > 1;
      }
    }
  }
}
