/**
  The vertical flip applied to every block image when the atlas is loaded in
  demo_pretex_init: an image of h rows of rw bytes each is copied row by row
  into a new buffer, last row first.
*/
module Atlas {
  import opened WorldData

  /** Rows j < h of an image of h rows end within the image. */
  lemma RowBound(j: nat, h: nat, rw: nat)
    requires j < h
    ensures j * rw + rw <= h * rw
  {
    assert (j + 1) * rw == j * rw + rw;
    assert (j + 1) * rw <= h * rw;
  }

  /** Row j of an image whose rows are rw bytes long. */
  function RowOf<T>(s: seq<T>, rw: nat, j: nat): (r: seq<T>)
    requires j * rw + rw <= |s|
    ensures |r| == rw
  {
    s[j * rw..j * rw + rw]
  }

  /** The first j rows of the flipped image: rows h-1, h-2, ..., h-j of s. */
  function FlippedRows<T>(s: seq<T>, rw: nat, h: nat, j: nat): (r: seq<T>)
    requires |s| == h * rw && j <= h
    ensures |r| == j * rw
  {
    if j == 0 then []
    else
      RowBound(h - j, h, rw);
      assert (j - 1) * rw + rw == j * rw;
      FlippedRows(s, rw, h, j - 1) + RowOf(s, rw, h - j)
  }

  /** One more row of the flipped image is the next source row from the bottom. */
  lemma FlippedRowsStep<T>(s: seq<T>, rw: nat, h: nat, j: nat)
    requires |s| == h * rw && j < h
    ensures (h - 1 - j) * rw + rw <= h * rw
    ensures FlippedRows(s, rw, h, j + 1) == FlippedRows(s, rw, h, j) + RowOf(s, rw, h - 1 - j)
  {
    RowBound(h - 1 - j, h, rw);
  }

  /** The offsets of one row copy in the loader loop. */
  lemma CopyBounds(j: nat, h: nat, rw: nat)
    requires j < h
    ensures j * rw + rw <= h * rw && (j + 1) * rw == j * rw + rw
    ensures (h - 1) * rw - j * rw == (h - 1 - j) * rw
    ensures (h - 1 - j) * rw + rw <= h * rw
  {
    RowBound(j, h, rw);
    RowBound(h - 1 - j, h, rw);
  }

  /** The image s with its h rows in reverse order. */
  function Flipped<T>(s: seq<T>, rw: nat, h: nat): (r: seq<T>)
    requires |s| == h * rw
    ensures |r| == |s|
  {
    FlippedRows(s, rw, h, h)
  }

  /** Row j of a flipped prefix is row h-1-j of the original image. */
  lemma {:induction false} FlippedRowsRow<T>(s: seq<T>, rw: nat, h: nat, k: nat, j: nat)
    requires |s| == h * rw && j < k <= h
    ensures j * rw + rw <= k * rw && h - 1 - j < h && (h - 1 - j) * rw + rw <= h * rw
    ensures RowOf(FlippedRows(s, rw, h, k), rw, j) == RowOf(s, rw, h - 1 - j)
  {
    RowBound(j, k, rw);
    RowBound(h - 1 - j, h, rw);
    RowBound(h - k, h, rw);
    var prefix := FlippedRows(s, rw, h, k - 1);
    var last := RowOf(s, rw, h - k);
    assert (k - 1) * rw + rw == k * rw;
    assert FlippedRows(s, rw, h, k) == prefix + last;
    if j == k - 1 {
      assert RowOf(prefix + last, rw, j) == last;
    } else {
      FlippedRowsRow(s, rw, h, k - 1, j);
      assert RowOf(prefix + last, rw, j) == RowOf(prefix, rw, j);
    }
  }

  /** Destination row j of the flipped image is source row h-1-j. */
  lemma FlippedRow<T>(s: seq<T>, rw: nat, h: nat, j: nat)
    requires |s| == h * rw && j < h
    ensures j * rw + rw <= h * rw && (h - 1 - j) * rw + rw <= h * rw
    ensures RowOf(Flipped(s, rw, h), rw, j) == RowOf(s, rw, h - 1 - j)
  {
    FlippedRowsRow(s, rw, h, h, j);
  }

  /** Cutting an image after a whole number of rows keeps those rows. */
  lemma PrefixRow<T>(a: seq<T>, rw: nat, n: nat, j: nat)
    requires n <= |a| && j * rw + rw <= n
    ensures RowOf(a[..n], rw, j) == RowOf(a, rw, j)
  {
  }

  /** Two images of the same shape with the same rows are equal. */
  lemma {:induction false} RowsDetermine<T>(a: seq<T>, b: seq<T>, rw: nat, h: nat)
    requires |a| == h * rw && |b| == h * rw
    requires forall j :: 0 <= j < h ==> j * rw + rw <= h * rw && RowOf(a, rw, j) == RowOf(b, rw, j)
    ensures a == b
  {
    if h > 0 {
      var n := (h - 1) * rw;
      assert n + rw == h * rw;
      var a', b' := a[..n], b[..n];
      forall j | 0 <= j < h - 1
        ensures j * rw + rw <= (h - 1) * rw && RowOf(a', rw, j) == RowOf(b', rw, j)
      {
        RowBound(j, h - 1, rw);
        PrefixRow(a, rw, n, j);
        PrefixRow(b, rw, n, j);
      }
      RowsDetermine(a', b', rw, h - 1);
      assert a == a' + a[n..n + rw];
      assert b == b' + b[n..n + rw];
    }
  }

  /** Flipping twice gives back the original image. */
  lemma FlipInvolution<T>(s: seq<T>, rw: nat, h: nat)
    requires |s| == h * rw
    ensures Flipped(Flipped(s, rw, h), rw, h) == s
  {
    var f := Flipped(s, rw, h);
    forall j | 0 <= j < h
      ensures j * rw + rw <= h * rw && RowOf(Flipped(f, rw, h), rw, j) == RowOf(s, rw, j)
    {
      FlippedRow(f, rw, h, j);
      FlippedRow(s, rw, h, h - 1 - j);
    }
    RowsDetermine(Flipped(f, rw, h), s, rw, h);
  }

  /** memcpy(dst + doff, src + soff, n) between two distinct buffers. */
  method Memcpy(dst: array<byte>, doff: nat, src: array<byte>, soff: nat, n: nat)
    requires dst != src && doff + n <= dst.Length && soff + n <= src.Length
    modifies dst
    ensures dst[..doff] == old(dst[..doff])
    ensures dst[doff..doff + n] == src[soff..soff + n]
    ensures dst[doff + n..] == old(dst[doff + n..])
  {
    forall b | 0 <= b < n {
      dst[doff + b] := src[soff + b];
    }
  }

  /**
    The copy loop of the atlas loader: a fresh buffer of w*h*4 bytes whose row j
    is row h-1-j of the RGBA image stbd, rows being rw = 4*w bytes long.
  */
  method FlipImage(stbd: array<byte>, w: nat, h: nat) returns (next: array<byte>)
    requires stbd.Length == w * h * 4
    ensures fresh(next) && next.Length == w * h * 4 && next.Length == h * (4 * w)
    ensures next[..] == Flipped(stbd[..], 4 * w, h)
  {
    var rw := 4 * w;
    ImageSize(w, h);
    ghost var image := stbd[..];
    next := new byte[w * h * 4];
    var j := 0;
    while j < h
      invariant 0 <= j <= h
      invariant next.Length == h * rw && stbd[..] == image
      invariant next[..j * rw] == FlippedRows(image, rw, h, j)
    {
      CopyRow(next, stbd, image, rw, h, j);
      j := j + 1;
    }
    assert next[..] == next[..h * rw];
  }

  /** One pass of the copy loop: destination row j receives source row h-1-j. */
  method CopyRow(next: array<byte>, stbd: array<byte>, ghost image: seq<byte>, rw: nat, h: nat, j: nat)
    requires next != stbd && j < h && next.Length == h * rw && stbd.Length == h * rw && stbd[..] == image
    requires next[..j * rw] == FlippedRows(image, rw, h, j)
    modifies next
    ensures (j + 1) * rw <= next.Length
    ensures next[..(j + 1) * rw] == FlippedRows(image, rw, h, j + 1)
  {
    CopyBounds(j, h, rw);
    var off, soff := j * rw, (h - 1) * rw - j * rw;
    ghost var done := next[..off];
    ghost var row := RowOf(image, rw, h - 1 - j);
    assert row == stbd[soff..soff + rw];
    Memcpy(next, off, stbd, soff, rw);
    FlippedRowsStep(image, rw, h, j);
    ExtendPrefix(next[..], done, off, row);
  }

  /** A buffer whose first off bytes are done and whose next bytes are piece starts with done + piece. */
  lemma ExtendPrefix(a: seq<byte>, done: seq<byte>, off: nat, piece: seq<byte>)
    requires off + |piece| <= |a| && a[..off] == done && a[off..off + |piece|] == piece
    ensures a[..off + |piece|] == done + piece
  {
    assert a[..off + |piece|] == a[..off] + a[off..off + |piece|];
  }

  lemma ImageSize(w: nat, h: nat)
    ensures w * h * 4 == h * (4 * w)
  {
  }
}
