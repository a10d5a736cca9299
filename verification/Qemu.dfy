/** Extent scanning of a disk image through the block-status call of QEMU. */
module Qemu {

  const SECTOR := 512
  const ZERO_BIT := 2
  const ALLOCATED_BIT := 16

  datatype Flags = Flags(isAllocated: bool, isZero: bool)

  datatype Answer = Answer(status: int, pnum: int)

  /** The foreign call: first sector and number of sectors in, status and run length out. */
  type Probe = (int, int) -> Answer

  predicate HasBit(status: int, bit: nat)
    requires bit > 0
  {
    status / bit % 2 == 1
  }

  function FlagsOf(status: int): Flags {
    Flags(HasBit(status, ALLOCATED_BIT), HasBit(status, ZERO_BIT))
  }

  predicate Fails(a: Answer) { a.status < 0 || a.pnum == 0 }

  predicate Uniform(flags: seq<Flags>, start: nat, k: nat, f: Flags) {
    start + k <= |flags| && forall i | start <= i < start + k :: flags[i] == f
  }

  /** The answer speaks the truth about the sectors from `start`: they all are allocated or not, and zero or
      not, as bits 4 and 1 of its status say. */
  predicate Truthful(flags: seq<Flags>, start: nat, a: Answer) {
    && 0 < a.pnum && start + a.pnum <= |flags|
    && forall i | start <= i < start + a.pnum ::
         (flags[i].isAllocated <==> a.status / 16 % 2 == 1) && (flags[i].isZero <==> a.status / 2 % 2 == 1)
  }

  /** What is asked of the foreign call: an answer that is not a failure is a non-empty run of sectors
      that all have the reported flags; a request for no sectors fails. */
  ghost predicate Honest(probe: Probe, flags: seq<Flags>) {
    && (forall start: nat, n: int :: 0 < n && start + n <= |flags| ==>
          var a := probe(start, n); a.status < 0 || a.pnum == 0 || Truthful(flags, start, a))
    && (forall start: nat, n: int :: n <= 0 ==> var a := probe(start, n); a.status < 0 || a.pnum == 0)
  }

  lemma TruthfulIsUniform(flags: seq<Flags>, start: nat, a: Answer)
    requires Truthful(flags, start, a)
    ensures a.pnum > 0 && Uniform(flags, start, a.pnum, FlagsOf(a.status))
  {
  }

  ghost predicate NeverFails(probe: Probe, flags: seq<Flags>) {
    forall start: nat, n: int :: 0 < n && start + n <= |flags| ==>
      var a := probe(start, n); a.status >= 0 && a.pnum != 0
  }

  /** The requested stretch in sectors, cut off at the end of the image. */
  function Sectors(total: nat, offset: nat, size: nat): (nat, int) {
    var start := offset / SECTOR;
    (start, if total - start < size / SECTOR then total - start else size / SECTOR)
  }

  /** The sectors from `start` that share the first one's flags, at most `n` of them. */
  predicate MaximalRun(flags: seq<Flags>, start: nat, n: nat, k: nat, f: Flags) {
    && 1 <= k <= n && start + n <= |flags| && Uniform(flags, start, k, f)
    && (k < n ==> flags[start + k] != f)
  }

  datatype Status = Extent(flags: Flags, size: nat) | QemuError

  /** The answer is the maximal run of equal flags inside the request, in whole sectors; an error means
      that the request held no sector or that the foreign call failed. */
  method GetBlockStatus(probe: Probe, total: nat, offset: nat, size: nat, ghost flags: seq<Flags>) returns (r: Status)
    requires |flags| == total && Honest(probe, flags)
    ensures
      var start := offset / 512;
      var n := if total - start < size / 512 then total - start else size / 512;
      && (r.Extent? ==> n > 0 && r.size % 512 == 0 && MaximalRun(flags, start, n, r.size / 512, r.flags))
      && (NeverFails(probe, flags) && n > 0 ==> r.Extent?)
      && (n <= 0 ==> r.QemuError?)
  {
    var (start, n) := Sectors(total, offset, size);
    var sectors: nat, known, found := 0, false, Flags(false, false);
    while true
      invariant known <==> sectors > 0
      invariant known ==> n > 0 && sectors < n && Uniform(flags, start, sectors, found)
      decreases n - sectors
    {
      var a := probe(start + sectors, n - sectors);
      if Fails(a) {
        return QemuError;
      }
      TruthfulIsUniform(flags, start + sectors, a);
      var f := FlagsOf(a.status);
      if known && found != f {
        assert flags[start + sectors] == f;
        break;
      }
      known, found := true, f;
      sectors := sectors + a.pnum;
      if sectors >= n {
        break;
      }
    }
    var k := if n < sectors then n else sectors;
    r := Extent(found, k * SECTOR);
    assert r.size / SECTOR == k;
  }

  /** There is only one maximal run, so the answer does not depend on how the foreign call cuts. */
  lemma MaximalRunUnique(flags: seq<Flags>, start: nat, n: nat, k: nat, f: Flags, k': nat, f': Flags)
    requires MaximalRun(flags, start, n, k, f) && MaximalRun(flags, start, n, k', f')
    ensures k == k' && f == f'
  {
    assert flags[start] == f && flags[start] == f';
  }

  // ----- Scanning a whole image ---------------------------------------------------------------

  datatype Tile = Tile(start: nat, length: nat, flags: Flags) {
    predicate Holds(sector: nat) { start <= sector < start + length }
  }

  /** Tiles from `from` to the end: each begins where the last one ended, is not empty, and has the
      flags of all its sectors. */
  predicate Tiling(flags: seq<Flags>, from: nat, tiles: seq<Tile>)
    decreases |tiles|
  {
    if tiles == [] then from == |flags|
    else
      && tiles[0].start == from && tiles[0].length > 0 && Uniform(flags, from, tiles[0].length, tiles[0].flags)
      && Tiling(flags, from + tiles[0].length, tiles[1..])
  }

  lemma {:induction false} TilingAppend(flags: seq<Flags>, from: nat, tiles: seq<Tile>, t: Tile)
    requires t.start + t.length == |flags| && t.length > 0 && Tiling(flags[..t.start], from, tiles)
    requires Uniform(flags, t.start, t.length, t.flags)
    ensures Tiling(flags, from, tiles + [t])
    decreases |tiles|
  {
    if tiles == [] {
      assert tiles + [t] == [t];
      assert [t][1..] == [];
    } else {
      assert (tiles + [t])[1..] == tiles[1..] + [t];
      TilingAppend(flags, from + tiles[0].length, tiles[1..], t);
      forall i | from <= i < from + tiles[0].length ensures flags[i] == tiles[0].flags {
        assert flags[..t.start][i] == flags[i];
      }
    }
  }

  /** Asking again and again, each time from where the last extent ended, tiles the whole image without
      gap or overlap. */
  method ScanImage(probe: Probe, total: nat, request: nat, ghost flags: seq<Flags>) returns (tiles: seq<Tile>)
    requires |flags| == total && Honest(probe, flags) && NeverFails(probe, flags) && request >= SECTOR
    ensures Tiling(flags, 0, tiles)
  {
    tiles := [];
    var sector := 0;
    while sector < total
      invariant 0 <= sector <= total
      invariant Tiling(flags[..sector], 0, tiles)
    {
      var r := GetBlockStatus(probe, total, sector * SECTOR, request, flags);
      var t := Tile(sector, r.size / SECTOR, r.flags);
      var next := sector + t.length;
      assert flags[..next][..sector] == flags[..sector];
      TilingAppend(flags[..next], 0, tiles, t);
      tiles := tiles + [t];
      sector := next;
    }
    assert flags[..sector] == flags;
  }

  /** In a tiling every sector lies in exactly one tile, which has its flags. */
  lemma {:induction false} EverySectorInOneTile(flags: seq<Flags>, from: nat, tiles: seq<Tile>, i: nat)
    requires Tiling(flags, from, tiles) && from <= i < |flags|
    ensures exists t <- tiles :: t.Holds(i) && t.flags == flags[i]
    ensures forall a, b | 0 <= a < b < |tiles| :: !(tiles[a].Holds(i) && tiles[b].Holds(i))
    decreases |tiles|
  {
    var t := tiles[0];
    TilesStartLater(flags, from + t.length, tiles[1..]);
    if i < from + t.length {
      assert t in tiles;
    } else {
      EverySectorInOneTile(flags, from + t.length, tiles[1..], i);
    }
    forall a, b | 0 <= a < b < |tiles|
      ensures !(tiles[a].Holds(i) && tiles[b].Holds(i))
    {
      assert tiles[b] == tiles[1..][b - 1];
      if a > 0 { assert tiles[a] == tiles[1..][a - 1]; }
    }
  }

  lemma {:induction false} TilesStartLater(flags: seq<Flags>, from: nat, tiles: seq<Tile>)
    requires Tiling(flags, from, tiles)
    ensures forall t <- tiles :: t.start >= from
    decreases |tiles|
  {
    if tiles != [] {
      TilesStartLater(flags, from + tiles[0].length, tiles[1..]);
    }
  }
}
