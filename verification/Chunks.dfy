/** Chunk lists: clipping to the target size, the ranged download of a chunk, and copying. */
module Chunks {
  import opened Wrappers
  import opened Bytes
  import opened Disk

  datatype Chunk = Chunk(offset: nat, length: nat) {
    predicate Covers(i: nat) { offset <= i < offset + length }
  }

  predicate Covered(cs: seq<Chunk>, i: nat) { exists c <- cs :: c.Covers(i) }

  // ----- Clipping ---------------------------------------------------------------------

  /** Chunks that start at or after the size are dropped; one that runs past it is shortened. */
  function Clip(cs: seq<Chunk>, size: nat): seq<Chunk> {
    if cs == [] then []
    else
      var front, c := Clip(cs[..|cs| - 1], size), cs[|cs| - 1];
      if c.offset < size then
        front + [if c.offset + c.length > size then c.(length := size - c.offset) else c]
      else
        front
  }

  method ClipChunks(chunks: seq<Chunk>, size: nat) returns (kept: seq<Chunk>)
    ensures kept == Clip(chunks, size)
  {
    kept := [];
    for k := 0 to |chunks|
      invariant kept == Clip(chunks[..k], size)
    {
      assert chunks[..k + 1][..k] == chunks[..k];
      var chunk := chunks[k];
      if chunk.offset < size {
        if chunk.offset + chunk.length > size {
          chunk := chunk.(length := size - chunk.offset);
        }
        kept := kept + [chunk];
      }
    }
    assert chunks[..|chunks|] == chunks;
  }

  /** Clipping keeps exactly the original coverage below the size. */
  lemma {:induction false} ClipCoverage(cs: seq<Chunk>, size: nat, i: nat)
    ensures Covered(Clip(cs, size), i) <==> Covered(cs, i) && i < size
    decreases |cs|
  {
    if cs != [] {
      var rest, c := cs[..|cs| - 1], cs[|cs| - 1];
      ClipCoverage(rest, size, i);
      assert cs == rest + [c];
      assert Covered(cs, i) <==> Covered(rest, i) || c.Covers(i);
      if c.offset < size {
        var d := if c.offset + c.length > size then c.(length := size - c.offset) else c;
        assert d.Covers(i) <==> c.Covers(i) && i < size;
        assert Clip(cs, size) == Clip(rest, size) + [d];
        assert Covered(Clip(cs, size), i) <==> Covered(Clip(rest, size), i) || d.Covers(i);
      }
    }
  }

  predicate Before(a: Chunk, b: Chunk) { a.offset + a.length <= b.offset }

  predicate Apart(cs: seq<Chunk>) {
    forall i, j :: 0 <= i < j < |cs| ==> Before(cs[i], cs[j]) || Before(cs[j], cs[i])
  }

  predicate Ascending(cs: seq<Chunk>) {
    forall i, j :: 0 <= i < j < |cs| ==> Before(cs[i], cs[j])
  }

  /** `d` is a shortened, still non-empty form of one of the chunks. */
  predicate CutFrom(d: Chunk, c: Chunk, size: nat) {
    && d.offset == c.offset < size && d.length <= c.length && d.offset + d.length <= size
    && (c.length > 0 ==> d.length > 0)
  }

  /** Position by position: which chunk each clipped chunk comes from, in unchanged order. */
  ghost predicate Origins(cs: seq<Chunk>, ds: seq<Chunk>, from: seq<nat>, size: nat) {
    && |from| == |ds|
    && (forall i | 0 <= i < |from| :: from[i] < |cs| && CutFrom(ds[i], cs[from[i]], size))
    && (forall i, j | 0 <= i < j < |from| :: from[i] < from[j])
  }

  lemma {:induction false} ClipOrigins(cs: seq<Chunk>, size: nat) returns (from: seq<nat>)
    ensures Origins(cs, Clip(cs, size), from, size)
    decreases |cs|
  {
    if cs == [] {
      from := [];
    } else {
      var rest, c := cs[..|cs| - 1], cs[|cs| - 1];
      from := ClipOrigins(rest, size);
      assert cs == rest + [c];
      if c.offset < size {
        var d := if c.offset + c.length > size then c.(length := size - c.offset) else c;
        OriginsAdd(rest, Clip(rest, size), from, size, c, d);
        from := from + [|rest|];
      } else {
        OriginsKeep(rest, Clip(rest, size), from, size, c);
      }
    }
  }

  lemma OriginsKeep(cs: seq<Chunk>, ds: seq<Chunk>, from: seq<nat>, size: nat, c: Chunk)
    requires Origins(cs, ds, from, size)
    ensures Origins(cs + [c], ds, from, size)
  {
    forall i | 0 <= i < |from| ensures from[i] < |cs| + 1 && CutFrom(ds[i], (cs + [c])[from[i]], size) {
      assert (cs + [c])[from[i]] == cs[from[i]];
    }
  }

  lemma OriginsAdd(cs: seq<Chunk>, ds: seq<Chunk>, from: seq<nat>, size: nat, c: Chunk, d: Chunk)
    requires Origins(cs, ds, from, size) && CutFrom(d, c, size)
    ensures Origins(cs + [c], ds + [d], from + [|cs|], size)
  {
    OriginsKeep(cs, ds, from, size, c);
    assert (cs + [c])[|cs|] == c;
  }

  /** Clipping never reaches past the size, never empties a chunk, and keeps the chunks apart and
      in order. */
  lemma ClipKeepsShape(cs: seq<Chunk>, size: nat)
    ensures forall d <- Clip(cs, size) :: d.offset + d.length <= size
    ensures (forall c <- cs :: c.length > 0) ==> forall d <- Clip(cs, size) :: d.length > 0
    ensures Apart(cs) ==> Apart(Clip(cs, size))
    ensures Ascending(cs) ==> Ascending(Clip(cs, size))
  {
    var from := ClipOrigins(cs, size);
    var ds := Clip(cs, size);
    forall i, j | 0 <= i < j < |ds|
      ensures Apart(cs) ==> Before(ds[i], ds[j]) || Before(ds[j], ds[i])
      ensures Ascending(cs) ==> Before(ds[i], ds[j])
    {
      var a, b := cs[from[i]], cs[from[j]];
      assert CutFrom(ds[i], a, size) && CutFrom(ds[j], b, size);
      assert Before(a, b) ==> Before(ds[i], ds[j]);
      assert Before(b, a) ==> Before(ds[j], ds[i]);
    }
    forall d | d in ds
      ensures d.offset + d.length <= size
      ensures (forall c <- cs :: c.length > 0) ==> d.length > 0
    {
      var i :| 0 <= i < |ds| && ds[i] == d;
      assert cs[from[i]] in cs;
    }
  }

  // ----- Downloading ------------------------------------------------------------------------

  /** A range request with inclusive ends, as section 14.1.2 of RFC 9110 has it answered: an invalid
      range is ignored and the whole content sent, an unsatisfiable one is an error. */
  function RangeGet(content: seq<byte>, first: nat, last: int): Option<seq<byte>> {
    if last < first then Some(content)
    else if first >= |content| then None
    else Some(content[first..if last + 1 <= |content| then last + 1 else |content|])
  }

  function DownloadChunk(content: seq<byte>, c: Chunk): Option<seq<byte>> {
    RangeGet(content, c.offset, c.offset + c.length - 1)
  }

  /** An empty chunk makes an invalid range, so the whole source is fetched. */
  lemma EmptyChunkFetchesAll(content: seq<byte>, offset: nat)
    ensures DownloadChunk(content, Chunk(offset, 0)) == Some(content)
  {
  }

  predicate Inside(cs: seq<Chunk>, size: nat) {
    forall c <- cs :: c.length > 0 && c.offset + c.length <= size
  }

  /** The piece of the source that a chunk stands for. */
  function Piece(content: seq<byte>, c: Chunk): Write
    requires c.offset + c.length <= |content|
  {
    Write(c.offset, content[c.offset..c.offset + c.length])
  }

  /** A non-empty chunk inside the source is downloaded exactly. */
  lemma DownloadIsExact(content: seq<byte>, c: Chunk)
    requires c.length > 0 && c.offset + c.length <= |content|
    ensures DownloadChunk(content, c) == Some(Piece(content, c).data)
  {
  }

  function Pieces(content: seq<byte>, cs: seq<Chunk>): (ws: seq<Write>)
    requires Inside(cs, |content|)
    ensures |ws| == |cs| && forall i | 0 <= i < |cs| :: ws[i] == Piece(content, cs[i])
  {
    seq(|cs|, i requires 0 <= i < |cs| => assert cs[i] in cs; Piece(content, cs[i]))
  }

  lemma TwoPiecesAgree(content: seq<byte>, c: Chunk, d: Chunk)
    requires c.offset + c.length <= |content| && d.offset + d.length <= |content|
    ensures Agree(Piece(content, c), Piece(content, d))
  {
    var a, b := Piece(content, c), Piece(content, d);
    forall i: nat | a.Covers(i) && b.Covers(i) ensures a.ByteAt(i) == b.ByteAt(i) {
      PieceByte(content, c, i);
      PieceByte(content, d, i);
    }
  }

  lemma PieceByte(content: seq<byte>, c: Chunk, i: nat)
    requires c.offset + c.length <= |content| && c.Covers(i)
    ensures Piece(content, c).Covers(i) && Piece(content, c).ByteAt(i) == content[i]
  {
    assert content[c.offset..c.offset + c.length][i - c.offset] == content[i];
  }

  /** Pieces of one source agree wherever they overlap. */
  lemma PiecesAgree(content: seq<byte>, cs: seq<Chunk>)
    requires Inside(cs, |content|)
    ensures PairwiseAgree(Pieces(content, cs))
  {
    var ws := Pieces(content, cs);
    forall a, b | a in ws && b in ws ensures Agree(a, b) {
      var i :| 0 <= i < |ws| && ws[i] == a;
      var j :| 0 <= j < |ws| && ws[j] == b;
      assert cs[i] in cs && cs[j] in cs;
      TwoPiecesAgree(content, cs[i], cs[j]);
    }
  }

  // ----- Copying -------------------------------------------------------------------------------

  /** The first `n` bytes of the target are those of the source. */
  predicate InSync(target: seq<byte>, content: seq<byte>, n: nat) {
    n <= |target| && n <= |content| && target[..n] == content[..n]
  }

  lemma PiecesCover(content: seq<byte>, cs: seq<Chunk>, i: nat)
    requires Inside(cs, |content|)
    ensures forall w <- Pieces(content, cs) :: w.Covers(i) ==> i < |content| && w.ByteAt(i) == content[i]
    ensures Covered(cs, i) ==> exists w <- Pieces(content, cs) :: w.Covers(i)
  {
    var ws := Pieces(content, cs);
    forall w | w in ws && w.Covers(i) ensures i < |content| && w.ByteAt(i) == content[i] {
      var k :| 0 <= k < |ws| && ws[k] == w;
      assert cs[k] in cs;
      PieceByte(content, cs[k], i);
    }
    if Covered(cs, i) {
      var c :| c in cs && c.Covers(i);
      var k :| 0 <= k < |cs| && cs[k] == c;
      assert ws[k] in ws && ws[k].Covers(i);
    }
  }

  lemma CopiedByte(target: seq<byte>, content: seq<byte>, cs: seq<Chunk>, i: nat)
    requires Inside(cs, |content|) && AllInBounds(Pieces(content, cs), |target|)
    requires i < |target| && i < |content|
    requires target[i] != content[i] ==> Covered(cs, i)
    ensures ApplyAll(target, Pieces(content, cs))[i] == content[i]
  {
    var ws := Pieces(content, cs);
    PiecesAgree(content, cs);
    PiecesCover(content, cs, i);
    ByteAfter(target, ws, i);
  }

  /** Copying chunks that cover every differing byte makes the two equal. */
  lemma CopyingSynchronises(target: seq<byte>, content: seq<byte>, cs: seq<Chunk>, n: nat)
    requires Inside(cs, |content|) && AllInBounds(Pieces(content, cs), |target|)
    requires n <= |target| && n <= |content|
    requires forall i: nat | i < n :: target[i] != content[i] ==> Covered(cs, i)
    ensures InSync(ApplyAll(target, Pieces(content, cs)), content, n)
  {
    var r := ApplyAll(target, Pieces(content, cs));
    forall i: nat | i < n ensures r[i] == content[i] {
      CopiedByte(target, content, cs, i);
    }
    BytewiseInSync(r, content, n);
  }

  lemma BytewiseInSync(target: seq<byte>, content: seq<byte>, n: nat)
    requires n <= |target| && n <= |content| && forall i: nat | i < n :: target[i] == content[i]
    ensures InSync(target, content, n)
  {
  }

  /** The device after the copy loop, and whether the loop came to its end. */
  datatype Copying = Copying(disk: seq<byte>, finished: bool)

  /** Copying chunk by chunk onto a device of fixed size. The loop ends early when a download fails or
      the device refuses a write past its end; what was written before stays. */
  function CopyChunks(target: seq<byte>, content: seq<byte>, cs: seq<Chunk>): (r: Copying) {
    if cs == [] then Copying(target, true)
    else
      var before := CopyChunks(target, content, cs[..|cs| - 1]);
      if before.finished then CopyChunk(before.disk, content, cs[|cs| - 1]) else before
  }

  function CopyChunk(disk: seq<byte>, content: seq<byte>, c: Chunk): Copying {
    match DownloadChunk(content, c)
    case None => Copying(disk, false)
    case Some(data) =>
      var w := Write(c.offset, data);
      if w.InBounds(|disk|) then Copying(Overwrite(disk, w), true) else Copying(disk, false)
  }

  /** On chunks inside both disks, the copy loop succeeds and applies exactly the pieces. */
  lemma {:induction false} CopySucceeds(target: seq<byte>, content: seq<byte>, cs: seq<Chunk>)
    requires Inside(cs, |content|) && Inside(cs, |target|)
    ensures AllInBounds(Pieces(content, cs), |target|)
    ensures CopyChunks(target, content, cs) == Copying(ApplyAll(target, Pieces(content, cs)), true)
    decreases |cs|
  {
    var ws := Pieces(content, cs);
    PiecesInBounds(content, cs, |target|);
    if cs != [] {
      var rest, c := cs[..|cs| - 1], cs[|cs| - 1];
      assert c in cs;
      CopySucceeds(target, content, rest);
      DownloadIsExact(content, c);
      assert ws[..|ws| - 1] == Pieces(content, rest);
    }
  }

  lemma PiecesInBounds(content: seq<byte>, cs: seq<Chunk>, size: nat)
    requires Inside(cs, |content|) && Inside(cs, size)
    ensures AllInBounds(Pieces(content, cs), size)
  {
    var ws := Pieces(content, cs);
    forall w | w in ws ensures w.InBounds(size) {
      var k :| 0 <= k < |ws| && ws[k] == w;
      assert cs[k] in cs;
    }
  }

  lemma UncoveredByte(target: seq<byte>, content: seq<byte>, cs: seq<Chunk>, i: nat)
    requires Inside(cs, |content|) && AllInBounds(Pieces(content, cs), |target|) && i < |target| && !Covered(cs, i)
    ensures ApplyAll(target, Pieces(content, cs))[i] == target[i]
  {
    PiecesAgree(content, cs);
    UncoveredByPieces(content, cs, i);
    ByteAfter(target, Pieces(content, cs), i);
  }

  lemma UncoveredByPieces(content: seq<byte>, cs: seq<Chunk>, i: nat)
    requires Inside(cs, |content|) && !Covered(cs, i)
    ensures forall w <- Pieces(content, cs) :: !w.Covers(i)
  {
    var ws := Pieces(content, cs);
    forall k | 0 <= k < |ws| ensures !ws[k].Covers(i) {
      assert cs[k] in cs;
    }
  }

  /** Bytes that no chunk covers stay; if they were right, all of the target is now right, and conversely. */
  lemma CopyingSynchronisesIff(target: seq<byte>, content: seq<byte>, cs: seq<Chunk>, n: nat)
    requires Inside(cs, |content|) && Inside(cs, |target|) && n <= |target| && n <= |content|
    ensures InSync(CopyChunks(target, content, cs).disk, content, n) <==>
            forall i: nat | i < n && !Covered(cs, i) :: target[i] == content[i]
  {
    CopySucceeds(target, content, cs);
    var disk := CopyChunks(target, content, cs).disk;
    if i: nat :| i < n && !Covered(cs, i) && target[i] != content[i] {
      UncoveredByte(target, content, cs, i);
      assert disk[..n][i] != content[..n][i];
    } else {
      CopyingSynchronises(target, content, cs, n);
    }
  }

  /** A loop that has ended early stays where it is. */
  lemma {:induction false} CopyStops(target: seq<byte>, content: seq<byte>, cs: seq<Chunk>, k: nat)
    requires k <= |cs| && !CopyChunks(target, content, cs[..k]).finished
    ensures CopyChunks(target, content, cs) == CopyChunks(target, content, cs[..k])
    decreases |cs| - k
  {
    if k == |cs| {
      assert cs[..k] == cs;
    } else {
      assert cs[..k + 1][..k] == cs[..k];
      CopyStops(target, content, cs, k + 1);
    }
  }

  predicate NonEmpty(cs: seq<Chunk>) { forall c <- cs :: c.length > 0 }

  /** Every byte is the one that was there or the one of the source. */
  predicate Harmless(before: seq<byte>, after: seq<byte>, content: seq<byte>) {
    && |after| == |before|
    && forall i: nat | i < |before| :: after[i] == before[i] || (i < |content| && after[i] == content[i])
  }

  lemma CopyChunkIsHarmless(disk: seq<byte>, content: seq<byte>, c: Chunk)
    requires c.length > 0
    ensures Harmless(disk, CopyChunk(disk, content, c).disk, content)
  {
  }

  lemma HarmlessTwice(a: seq<byte>, b: seq<byte>, c: seq<byte>, content: seq<byte>)
    requires Harmless(a, b, content) && Harmless(b, c, content)
    ensures Harmless(a, c, content)
  {
    forall i: nat | i < |a| ensures c[i] == a[i] || (i < |content| && c[i] == content[i]) {
      assert b[i] == a[i] || (i < |content| && b[i] == content[i]);
    }
  }

  /** However far the copy loop gets, it only ever moves bytes of the target towards the source. */
  lemma {:induction false} CopyIsHarmless(target: seq<byte>, content: seq<byte>, cs: seq<Chunk>)
    requires NonEmpty(cs)
    ensures Harmless(target, CopyChunks(target, content, cs).disk, content)
    decreases |cs|
  {
    if cs != [] {
      var rest, c := cs[..|cs| - 1], cs[|cs| - 1];
      assert c in cs;
      assert forall d <- rest :: d in cs;
      CopyIsHarmless(target, content, rest);
      var before := CopyChunks(target, content, rest);
      CopyChunkIsHarmless(before.disk, content, c);
      HarmlessTwice(target, before.disk, CopyChunk(before.disk, content, c).disk, content);
    }
  }

  // ----- The copy loop on any chunks ------------------------------------------------------------

  /** The chunk starts inside the source, and what the source has of it ends inside the target. */
  predicate Fits(c: Chunk, content: nat, target: nat) {
    c.offset < content && (if c.offset + c.length < content then c.offset + c.length else content) <= target
  }

  lemma CopyOneResult(disk: seq<byte>, content: seq<byte>, c: Chunk)
    requires c.length > 0
    ensures var r := CopyChunk(disk, content, c);
      && |r.disk| == |disk| && (r.finished <==> Fits(c, |content|, |disk|))
      && (r.finished ==> forall i: nat | i < |disk| ::
            r.disk[i] == if c.Covers(i) && i < |content| then content[i] else disk[i])
  {
    if Fits(c, |content|, |disk|) {
      var to := if c.offset + c.length < |content| then c.offset + c.length else |content|;
      assert DownloadChunk(content, c) == Some(content[c.offset..to]);
    }
  }

  /** Whether the copy loop comes to its end depends on the length of the target alone, which it keeps. */
  lemma {:induction false} CopyKeepsLength(a: seq<byte>, b: seq<byte>, content: seq<byte>, cs: seq<Chunk>)
    requires |a| == |b|
    ensures |CopyChunks(a, content, cs).disk| == |a| == |CopyChunks(b, content, cs).disk|
    ensures CopyChunks(a, content, cs).finished <==> CopyChunks(b, content, cs).finished
    decreases |cs|
  {
    if cs != [] {
      CopyKeepsLength(a, b, content, cs[..|cs| - 1]);
    }
  }

  /** On any chunks that are not empty, the copy loop comes to its end if and only if all of them fit; then the
      covered bytes are those of the source as far as it goes, and all others are as they were. */
  lemma {:induction false} CopyResult(target: seq<byte>, content: seq<byte>, cs: seq<Chunk>)
    requires NonEmpty(cs)
    ensures var r := CopyChunks(target, content, cs);
      && |r.disk| == |target|
      && (r.finished <==> forall c <- cs :: Fits(c, |content|, |target|))
      && (r.finished ==> forall i: nat | i < |target| ::
            r.disk[i] == if Covered(cs, i) && i < |content| then content[i] else target[i])
    decreases |cs|
  {
    if cs != [] {
      var rest, c := cs[..|cs| - 1], cs[|cs| - 1];
      assert cs == rest + [c];
      assert c in cs;
      assert forall d <- rest :: d in cs;
      CopyResult(target, content, rest);
      var before := CopyChunks(target, content, rest);
      CopyOneResult(before.disk, content, c);
      CoveredByMore(rest, c);
    }
  }

  lemma CoveredByMore(cs: seq<Chunk>, c: Chunk)
    ensures forall i: nat :: Covered(cs + [c], i) <==> Covered(cs, i) || c.Covers(i)
  {
    forall i: nat ensures Covered(cs + [c], i) <==> Covered(cs, i) || c.Covers(i) {
      if Covered(cs, i) {
        var d :| d in cs && d.Covers(i);
        assert d in cs + [c];
      }
      assert c in cs + [c];
    }
  }
}
