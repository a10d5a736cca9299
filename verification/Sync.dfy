/** When a call of `replicate_disks`, and a run of many, leaves the targets equal to the sources. */
module Sync {
  import opened Wrappers
  import opened Bytes
  import opened Chunks
  import opened Replicate

  /** The names of a listed volume resolve. */
  predicate Known(src: Source, st: Repl, vol: SourceVolume) {
    && FindVolume(st.volumes, vol.diskId).Some?
    && DevName(vol.diskPath) in src.devices
    && vol.diskId in st.targets
  }

  function DeviceOf(src: Source, vol: SourceVolume): Device
    requires DevName(vol.diskPath) in src.devices
  {
    src.devices[DevName(vol.diskPath)]
  }

  function SetupOf(st: Repl, vol: SourceVolume): DstVolume
    requires FindVolume(st.volumes, vol.diskId).Some?
  {
    st.volumes[FindVolume(st.volumes, vol.diskId).value]
  }

  /** How much of the disk is replicated: up to `size`, or where that is absent or zero up to `size_bytes`, or
      else all of it, and never more than the source has. */
  function Extent(dev: Device, v: DstVolume): nat {
    match (v.size, v.sizeBytes)
    case (Some(n), _) => if 0 < n then Least(n, |dev.content|) else ExtentByBytes(dev, v)
    case (None, _) => ExtentByBytes(dev, v)
  }

  function ExtentByBytes(dev: Device, v: DstVolume): nat {
    match v.sizeBytes
    case Some(m) => if 0 < m then Least(m, |dev.content|) else |dev.content|
    case None => |dev.content|
  }

  function Least(a: nat, b: nat): nat { if a < b then a else b }

  /** The chunks cover exactly what the offered ones cover below `n`, and end there. */
  ghost predicate ClippedTo(cs: seq<Chunk>, offered: seq<Chunk>, n: nat) {
    && (forall i: nat :: Covered(cs, i) <==> Covered(offered, i) && i < n)
    && forall c <- cs :: c.offset + c.length <= n
  }

  lemma ClipIsClippedTo(offered: seq<Chunk>, n: nat)
    ensures ClippedTo(Clip(offered, n), offered, n)
  {
    ClipKeepsShape(offered, n);
    forall i: nat ensures Covered(Clip(offered, n), i) <==> Covered(offered, i) && i < n {
      ClipCoverage(offered, n, i);
    }
  }

  /** What is copied, by the fields of the volume: the changes, or on the first sync of a zeroed target the
      non-zero blocks, clipped to a positive `size`, or else to a positive `size_bytes`, or else not at all. */
  lemma ChunksBySize(dev: Device, v: DstVolume, initial: bool)
    ensures
      var offered := if initial && v.zeroed then dev.nonZero else dev.changes;
      var cs := ChunksToCopy(dev, v, initial);
      if v.size.Some? && v.size.value > 0 then ClippedTo(cs, offered, v.size.value)
      else if v.sizeBytes.Some? && v.sizeBytes.value > 0 then ClippedTo(cs, offered, v.sizeBytes.value)
      else cs == offered
  {
    var offered := if initial && v.zeroed then dev.nonZero else dev.changes;
    if v.size.Some? && v.size.value > 0 {
      ClipIsClippedTo(offered, v.size.value);
    } else if v.sizeBytes.Some? {
      ClipIsClippedTo(offered, v.sizeBytes.value);
    }
  }

  function ChunksOf(src: Source, initial: bool, st: Repl, vol: SourceVolume): seq<Chunk>
    requires Known(src, st, vol)
  {
    ChunksToCopy(DeviceOf(src, vol), SetupOf(st, vol), initial)
  }

  predicate Synced(src: Source, st: Repl, vol: SourceVolume) {
    && Known(src, st, vol)
    && InSync(st.targets[vol.diskId], DeviceOf(src, vol).content, Extent(DeviceOf(src, vol), SetupOf(st, vol)))
  }

  /** What is asked of the replicator service: chunks are non-empty pieces of its disk; on the first
      sync of a zeroed target they cover every non-zero byte, otherwise every differing byte. */
  predicate Honest(src: Source, initial: bool, st: Repl, vol: SourceVolume) {
    Known(src, st, vol) &&
    var dev, v, target := DeviceOf(src, vol), SetupOf(st, vol), st.targets[vol.diskId];
    && Extent(dev, v) <= |target|
    && Inside(Offered(dev, v, initial), |dev.content|)
    && if initial && v.zeroed then
         && (forall i: nat | i < Extent(dev, v) :: target[i] == 0)
         && (forall i: nat | i < |dev.content| :: dev.content[i] != 0 ==> Covered(dev.nonZero, i))
       else
         forall i: nat | i < Extent(dev, v) :: target[i] != dev.content[i] ==> Covered(dev.changes, i)
  }

  // ----- One disk --------------------------------------------------------------------------

  /** The clipped chunks lie inside both disks, so the receiver's bounds check cannot fire, and they
      cover every byte that is not yet right. */
  lemma ChunksAreEnough(src: Source, initial: bool, st: Repl, vol: SourceVolume)
    requires Honest(src, initial, st, vol)
    ensures
      var dev, v, target := DeviceOf(src, vol), SetupOf(st, vol), st.targets[vol.diskId];
      var cs := ChunksOf(src, initial, st, vol);
      && Inside(cs, |dev.content|) && Inside(cs, |target|)
      && forall i: nat | i < Extent(dev, v) :: target[i] != dev.content[i] ==> Covered(cs, i)
  {
    var dev, v := DeviceOf(src, vol), SetupOf(st, vol);
    var offered, size := Offered(dev, v, initial), DiskSize(v);
    if size != 0 {
      ClipKeepsShape(offered, size);
      ClipInside(offered, size, |dev.content|);
      forall i: nat ensures Covered(Clip(offered, size), i) <==> Covered(offered, i) && i < size {
        ClipCoverage(offered, size, i);
      }
    }
  }

  lemma ClipInside(cs: seq<Chunk>, size: nat, limit: nat)
    requires Inside(cs, limit)
    ensures Inside(Clip(cs, size), limit)
  {
    var from := ClipOrigins(cs, size);
    var ds := Clip(cs, size);
    forall d | d in ds ensures d.length > 0 && d.offset + d.length <= limit {
      var i :| 0 <= i < |ds| && ds[i] == d;
      assert cs[from[i]] in cs;
    }
  }

  lemma NothingToCopyIsSynced(src: Source, initial: bool, st: Repl, vol: SourceVolume)
    requires Honest(src, initial, st, vol) && ChunksOf(src, initial, st, vol) == []
    ensures Synced(src, st, vol)
  {
    ChunksAreEnough(src, initial, st, vol);
    var n := Extent(DeviceOf(src, vol), SetupOf(st, vol));
    var target, content := st.targets[vol.diskId], DeviceOf(src, vol).content;
    forall i: nat | i < n ensures target[..n][i] == content[..n][i] {
      assert !Covered([], i);
    }
  }

  /** The same volumes with the same sizes and flags. */
  predicate SameSetup(a: seq<DstVolume>, b: seq<DstVolume>) {
    && |a| == |b|
    && forall i | 0 <= i < |a| ::
         && a[i].diskId == b[i].diskId && a[i].zeroed == b[i].zeroed
         && a[i].size == b[i].size && a[i].sizeBytes == b[i].sizeBytes
  }

  lemma {:induction false} SameSetupFinds(a: seq<DstVolume>, b: seq<DstVolume>, id: string)
    requires SameSetup(a, b)
    ensures FindVolume(a, id) == FindVolume(b, id)
    decreases |a|
  {
    if a != [] {
      SameSetupFinds(a[1..], b[1..], id);
    }
  }

  /** Copying one disk makes it equal to its source and touches no other target. */
  lemma OneDisk(src: Source, initial: bool, st: Repl, vol: SourceVolume)
    requires Honest(src, initial, st, vol) && ChunksOf(src, initial, st, vol) != []
    ensures var r := SyncVolume(src, initial, st, vol);
      && r.Copied? && Synced(src, r.st, vol) && SameSetup(st.volumes, r.st.volumes)
      && SetupOf(r.st, vol).replicaState == FindState(src.status, DevName(vol.diskPath))
      && r.st.targets.Keys == st.targets.Keys && r.st.state == st.state
      && forall id <- st.targets :: id != vol.diskId ==> r.st.targets[id] == st.targets[id]
  {
    var dev, v, target := DeviceOf(src, vol), SetupOf(st, vol), st.targets[vol.diskId];
    var cs := ChunksOf(src, initial, st, vol);
    ChunksAreEnough(src, initial, st, vol);
    CopySucceeds(target, dev.content, cs);
    CopyingSynchronises(target, dev.content, cs, Extent(dev, v));
    var r := SyncVolume(src, initial, st, vol);
    SameSetupFinds(st.volumes, r.st.volumes, vol.diskId);
  }

  // ----- One call ------------------------------------------------------------------------------

  predicate DistinctDisks(vols: seq<SourceVolume>) {
    forall i, j :: 0 <= i < j < |vols| ==> vols[i].diskId != vols[j].diskId
  }

  predicate AllHonest(src: Source, initial: bool, st: Repl, vols: seq<SourceVolume>) {
    forall vol <- vols :: Honest(src, initial, st, vol)
  }

  predicate AllSynced(src: Source, st: Repl, vols: seq<SourceVolume>) {
    forall vol <- vols :: Synced(src, st, vol)
  }

  /** How many disks come before the first one without chunks. */
  function FirstWithoutChunks(src: Source, initial: bool, st: Repl, vols: seq<SourceVolume>): (k: nat)
    requires forall vol <- vols :: Known(src, st, vol)
    ensures k <= |vols|
    decreases |vols|
  {
    if vols == [] then 0
    else
      assert vols[0] in vols;
      if ChunksOf(src, initial, st, vols[0]) == [] then 0
      else 1 + FirstWithoutChunks(src, initial, st, vols[1..])
  }

  /** Two states that look the same to one volume. */
  predicate SameFor(a: Repl, b: Repl, vol: SourceVolume) {
    && SameSetup(a.volumes, b.volumes)
    && vol.diskId in a.targets && vol.diskId in b.targets && a.targets[vol.diskId] == b.targets[vol.diskId]
  }

  lemma SameForMeansSame(src: Source, initial: bool, a: Repl, b: Repl, vol: SourceVolume)
    requires SameFor(a, b, vol) && Known(src, a, vol)
    ensures Known(src, b, vol) && ChunksOf(src, initial, b, vol) == ChunksOf(src, initial, a, vol)
    ensures Honest(src, initial, a, vol) ==> Honest(src, initial, b, vol)
    ensures Synced(src, a, vol) <==> Synced(src, b, vol)
  {
    SameSetupFinds(a.volumes, b.volumes, vol.diskId);
    assert DiskSize(SetupOf(a, vol)) == DiskSize(SetupOf(b, vol));
  }

  lemma {:induction false} SameForAll(src: Source, initial: bool, a: Repl, b: Repl, vols: seq<SourceVolume>)
    requires forall vol <- vols :: SameFor(a, b, vol) && Known(src, a, vol)
    ensures forall vol <- vols :: Known(src, b, vol)
    ensures FirstWithoutChunks(src, initial, a, vols) == FirstWithoutChunks(src, initial, b, vols)
    ensures AllHonest(src, initial, a, vols) ==> AllHonest(src, initial, b, vols)
    decreases |vols|
  {
    forall vol | vol in vols
      ensures Known(src, b, vol)
      ensures Honest(src, initial, a, vol) ==> Honest(src, initial, b, vol)
    {
      SameForMeansSame(src, initial, a, b, vol);
    }
    if vols != [] {
      assert vols[0] in vols;
      SameForMeansSame(src, initial, a, b, vols[0]);
      SameForAll(src, initial, a, b, vols[1..]);
    }
  }

  /** What a call leaves behind: every listed disk up to and including the first without chunks is
      in sync; the targets of the disks after it, and of disks not listed, are untouched. */
  ghost predicate Prefix(src: Source, st: Repl, after: Repl, vols: seq<SourceVolume>, k: nat) {
    && SameSetup(st.volumes, after.volumes) && after.targets.Keys == st.targets.Keys
    && (forall j | 0 <= j < |vols| && j <= k :: Synced(src, after, vols[j]))
    && (forall j | k < j < |vols| ::
          vols[j].diskId in st.targets && after.targets[vols[j].diskId] == st.targets[vols[j].diskId])
    && (forall id <- st.targets :: (forall vol <- vols :: vol.diskId != id) ==> after.targets[id] == st.targets[id])
  }

  lemma OthersAreSame(src: Source, initial: bool, st: Repl, st': Repl, vols: seq<SourceVolume>)
    requires vols != [] && DistinctDisks(vols) && AllHonest(src, initial, st, vols)
    requires SameSetup(st.volumes, st'.volumes) && st'.targets.Keys == st.targets.Keys
    requires forall id <- st.targets :: id != vols[0].diskId ==> st'.targets[id] == st.targets[id]
    ensures forall vol <- vols[1..] :: Known(src, st, vol) && Known(src, st', vol)
    ensures FirstWithoutChunks(src, initial, st, vols[1..]) == FirstWithoutChunks(src, initial, st', vols[1..])
    ensures AllHonest(src, initial, st', vols[1..])
  {
    forall w | w in vols[1..] ensures SameFor(st, st', w) && Known(src, st, w) {
      assert w in vols;
      var j :| 1 <= j < |vols| && vols[j] == w;
    }
    SameForAll(src, initial, st, st', vols[1..]);
  }

  lemma HonestIsKnown(src: Source, initial: bool, st: Repl, vols: seq<SourceVolume>)
    requires AllHonest(src, initial, st, vols)
    ensures forall vol <- vols :: Known(src, st, vol)
  {
    forall vol | vol in vols ensures Known(src, st, vol) { assert Honest(src, initial, st, vol); }
  }

  /** The first disk is brought in sync, and the call goes on with the rest as if it had started there. */
  lemma FirstThenRest(src: Source, initial: bool, st: Repl, vols: seq<SourceVolume>) returns (st': Repl)
    requires vols != [] && DistinctDisks(vols) && AllHonest(src, initial, st, vols)
    requires Known(src, st, vols[0]) && ChunksOf(src, initial, st, vols[0]) != []
    ensures ReplicateFrom(src, initial, st, vols) == ReplicateFrom(src, initial, st', vols[1..])
    ensures Synced(src, st', vols[0]) && SameSetup(st.volumes, st'.volumes) && st'.targets.Keys == st.targets.Keys
    ensures forall id <- st.targets :: id != vols[0].diskId ==> st'.targets[id] == st.targets[id]
    ensures forall vol <- vols[1..] :: Known(src, st, vol) && Known(src, st', vol)
    ensures FirstWithoutChunks(src, initial, st, vols[1..]) == FirstWithoutChunks(src, initial, st', vols[1..])
    ensures AllHonest(src, initial, st', vols[1..])
  {
    assert vols[0] in vols;
    OneDisk(src, initial, st, vols[0]);
    st' := SyncVolume(src, initial, st, vols[0]).st;
    OthersAreSame(src, initial, st, st', vols);
  }

  lemma {:induction false} CallSynchronisesPrefix(src: Source, initial: bool, st: Repl, vols: seq<SourceVolume>)
    requires DistinctDisks(vols) && AllHonest(src, initial, st, vols)
    ensures forall vol <- vols :: Known(src, st, vol)
    ensures var (o, after) := ReplicateFrom(src, initial, st, vols);
      && o == Done && after.state == src.status
      && Prefix(src, st, after, vols, FirstWithoutChunks(src, initial, st, vols))
    decreases |vols|
  {
    HonestIsKnown(src, initial, st, vols);
    if vols != [] {
      assert vols[0] in vols;
      if ChunksOf(src, initial, st, vols[0]) == [] {
        PrefixStop(src, initial, st, vols);
      } else {
        var rest := vols[1..];
        var st' := FirstThenRest(src, initial, st, vols);
        CallSynchronisesPrefix(src, initial, st', rest);
        var after, k := ReplicateFrom(src, initial, st', rest).1, FirstWithoutChunks(src, initial, st', rest);
        PrefixCons(src, st, st', after, vols, k);
      }
    }
  }

  lemma PrefixStop(src: Source, initial: bool, st: Repl, vols: seq<SourceVolume>)
    requires vols != [] && AllHonest(src, initial, st, vols)
    requires Known(src, st, vols[0]) && ChunksOf(src, initial, st, vols[0]) == []
    ensures Prefix(src, st, st.(state := src.status), vols, 0)
  {
    assert vols[0] in vols;
    NothingToCopyIsSynced(src, initial, st, vols[0]);
    SameForMeansSame(src, initial, st, st.(state := src.status), vols[0]);
    forall j | 0 < j < |vols| ensures vols[j].diskId in st.targets { assert vols[j] in vols; }
  }

  lemma PrefixCons(src: Source, st: Repl, st': Repl, after: Repl, vols: seq<SourceVolume>, k: nat)
    requires vols != [] && DistinctDisks(vols)
    requires Synced(src, st', vols[0]) && SameSetup(st.volumes, st'.volumes) && st'.targets.Keys == st.targets.Keys
    requires forall id <- st.targets :: id != vols[0].diskId ==> st'.targets[id] == st.targets[id]
    requires Prefix(src, st', after, vols[1..], k)
    ensures Prefix(src, st, after, vols, k + 1)
  {
    var vol, rest := vols[0], vols[1..];
    forall w | w in rest ensures w.diskId != vol.diskId {
      var j :| 1 <= j < |vols| && vols[j] == w;
    }
    SameForMeansSame(src, false, st', after, vol);
    forall j | 0 <= j < |vols| && j <= k + 1 ensures Synced(src, after, vols[j]) {
      if j > 0 { assert vols[j] == rest[j - 1]; }
    }
    forall j | k + 1 < j < |vols|
      ensures vols[j].diskId in st.targets && after.targets[vols[j].diskId] == st.targets[vols[j].diskId]
    {
      assert vols[j] == rest[j - 1] && rest[j - 1] in rest;
    }
    forall id | id in st.targets && forall w <- vols :: w.diskId != id
      ensures after.targets[id] == st.targets[id]
    {
      assert vol in vols;
      assert forall w <- rest :: w in vols;
    }
  }

  /** Every listed disk is in sync after a call if and only if no disk listed after the first one
      without chunks was out of sync before it. */
  lemma CallSynchronisesAllIff(src: Source, st: Repl, vols: seq<SourceVolume>)
    requires DistinctDisks(vols) && AllHonest(src, st.state == [], st, vols)
    ensures forall vol <- vols :: Known(src, st, vol)
    ensures AllSynced(src, ReplicateDisks(src, st, vols).1, vols) <==>
            forall j | FirstWithoutChunks(src, st.state == [], st, vols) < j < |vols| :: Synced(src, st, vols[j])
  {
    CallSynchronisesPrefix(src, st.state == [], st, vols);
    var k, after := FirstWithoutChunks(src, st.state == [], st, vols), ReplicateDisks(src, st, vols).1;
    forall j | k < j < |vols| ensures Synced(src, after, vols[j]) <==> Synced(src, st, vols[j]) {
      assert vols[j] in vols;
      SameForMeansSame(src, false, st, after, vols[j]);
    }
    if AllSynced(src, after, vols) {
      forall j | k < j < |vols| ensures Synced(src, st, vols[j]) { assert vols[j] in vols; }
    }
  }

  // ----- Many calls ----------------------------------------------------------------------------

  /** The state after one call per element of `srcs`, each on the source as it was at that time. */
  function Rounds(st: Repl, vols: seq<SourceVolume>, srcs: seq<Source>): Repl {
    if srcs == [] then st
    else ReplicateDisks(srcs[|srcs| - 1], Rounds(st, vols, srcs[..|srcs| - 1]), vols).1
  }

  /** Between two rounds the service reports every byte of the disk that changed. */
  predicate Tracks(prev: Source, next: Source, vol: SourceVolume) {
    DevName(vol.diskPath) in prev.devices && DevName(vol.diskPath) in next.devices &&
    var was, now := DeviceOf(prev, vol), DeviceOf(next, vol);
    && |was.content| == |now.content| && Inside(now.changes, |now.content|)
    && forall i: nat | i < |now.content| :: was.content[i] != now.content[i] ==> Covered(now.changes, i)
  }

  /** No disk is left out: only the last one listed may be without chunks. */
  predicate SkipsNone(src: Source, st: Repl, vols: seq<SourceVolume>) {
    && (forall vol <- vols :: Known(src, st, vol))
    && FirstWithoutChunks(src, st.state == [], st, vols) + 1 >= |vols|
  }

  /** Each round: the source reports a status, no disk is left out, and the service is honest, about
      the targets in the first round and about the changes since the last round afterwards. */
  ghost predicate GoodRun(st: Repl, vols: seq<SourceVolume>, srcs: seq<Source>) {
    srcs == [] ||
    var front, src := srcs[..|srcs| - 1], srcs[|srcs| - 1];
    && GoodRun(st, vols, front)
    && src.status != [] && SkipsNone(src, Rounds(st, vols, front), vols)
    && if front == [] then AllHonest(src, st.state == [], st, vols)
       else forall vol <- vols :: Tracks(front[|front| - 1], src, vol)
  }

  lemma TrackedIsHonest(prev: Source, next: Source, st: Repl, vol: SourceVolume)
    requires Synced(prev, st, vol) && Tracks(prev, next, vol)
    ensures Honest(next, false, st, vol)
  {
    var was, now, v, target := DeviceOf(prev, vol), DeviceOf(next, vol), SetupOf(st, vol), st.targets[vol.diskId];
    var n := Extent(now, v);
    forall i: nat | i < n && target[i] != now.content[i] ensures Covered(now.changes, i) {
      assert target[..n][i] == was.content[..n][i];
    }
  }

  /** After every round of a run of any length, every listed disk equals its source as of that round,
      as long as no round left a disk out. */
  lemma {:induction false} EveryRoundSynchronises(st: Repl, vols: seq<SourceVolume>, srcs: seq<Source>)
    requires DistinctDisks(vols) && GoodRun(st, vols, srcs) && srcs != []
    ensures AllSynced(srcs[|srcs| - 1], Rounds(st, vols, srcs), vols)
    ensures Rounds(st, vols, srcs).state == srcs[|srcs| - 1].status
    decreases |srcs|
  {
    var front, src := srcs[..|srcs| - 1], srcs[|srcs| - 1];
    var before := Rounds(st, vols, front);
    if front != [] {
      EveryRoundSynchronises(st, vols, front);
      forall vol | vol in vols ensures Honest(src, false, before, vol) {
        TrackedIsHonest(front[|front| - 1], src, before, vol);
      }
    }
    CallSynchronisesPrefix(src, before.state == [], before, vols);
    forall vol | vol in vols ensures Synced(src, Rounds(st, vols, srcs), vol) {
      var j :| 0 <= j < |vols| && vols[j] == vol;
    }
  }

  // ----- Exactly when a call is done --------------------------------------------------------------

  /** The names of the volume and its device resolve. */
  predicate Resolves(src: Source, st: Repl, vol: SourceVolume) {
    FindVolume(st.volumes, vol.diskId).Some? && DevName(vol.diskPath) in src.devices
  }

  predicate NothingToCopy(src: Source, initial: bool, st: Repl, vol: SourceVolume) {
    Resolves(src, st, vol) && ChunksToCopy(DeviceOf(src, vol), SetupOf(st, vol), initial) == []
  }

  /** There is something to copy, and the copy loop comes to its end. */
  predicate CopyFinishes(src: Source, initial: bool, st: Repl, vol: SourceVolume) {
    && Resolves(src, st, vol) && vol.diskId in st.targets
    && var cs := ChunksToCopy(DeviceOf(src, vol), SetupOf(st, vol), initial);
    cs != [] && CopyChunks(st.targets[vol.diskId], DeviceOf(src, vol).content, cs).finished
  }

  /** The first `k` volumes are copied to their end, and either they are all or the next has nothing to copy. */
  ghost predicate DoneAfter(src: Source, initial: bool, st: Repl, vols: seq<SourceVolume>, k: nat) {
    && k <= |vols| && (forall j | 0 <= j < k :: CopyFinishes(src, initial, st, vols[j]))
    && (k < |vols| ==> NothingToCopy(src, initial, st, vols[k]))
  }

  lemma AfterCopy(src: Source, initial: bool, st: Repl, vol: SourceVolume)
    ensures SyncVolume(src, initial, st, vol).Copied? <==> CopyFinishes(src, initial, st, vol)
    ensures SyncVolume(src, initial, st, vol).NoChunks? <==> NothingToCopy(src, initial, st, vol)
    ensures CopyFinishes(src, initial, st, vol) ==>
      var st', cs := SyncVolume(src, initial, st, vol).st, ChunksToCopy(DeviceOf(src, vol), SetupOf(st, vol), initial);
      && SameSetup(st.volumes, st'.volumes)
      && st'.targets == st.targets[vol.diskId :=
                                     CopyChunks(st.targets[vol.diskId], DeviceOf(src, vol).content, cs).disk]
      && SameLengths(st.targets, st'.targets)
  {
    if CopyFinishes(src, initial, st, vol) {
      var target, content := st.targets[vol.diskId], DeviceOf(src, vol).content;
      CopyKeepsLength(target, target, content, ChunksToCopy(DeviceOf(src, vol), SetupOf(st, vol), initial));
    }
  }

  /** The same targets with the same lengths. */
  predicate SameLengths(a: map<string, seq<byte>>, b: map<string, seq<byte>>) {
    a.Keys == b.Keys && forall id <- a :: |a[id]| == |b[id]|
  }

  lemma SameProspects(src: Source, initial: bool, a: Repl, b: Repl, vol: SourceVolume)
    requires SameSetup(a.volumes, b.volumes) && SameLengths(a.targets, b.targets)
    ensures CopyFinishes(src, initial, a, vol) <==> CopyFinishes(src, initial, b, vol)
    ensures NothingToCopy(src, initial, a, vol) <==> NothingToCopy(src, initial, b, vol)
  {
    SameSetupFinds(a.volumes, b.volumes, vol.diskId);
    if Resolves(src, a, vol) && vol.diskId in a.targets {
      var cs := ChunksToCopy(DeviceOf(src, vol), SetupOf(a, vol), initial);
      CopyKeepsLength(a.targets[vol.diskId], b.targets[vol.diskId], DeviceOf(src, vol).content, cs);
    }
  }

  /** For any service, honest or not, and any list, also one that names a disk twice: a call does not fail if
      and only if, up to the end of the list or the first volume with nothing to copy, every name resolves and
      every copy comes to its end. */
  lemma {:induction false} DoneIff(src: Source, initial: bool, st: Repl, vols: seq<SourceVolume>)
    ensures ReplicateFrom(src, initial, st, vols).0 == Done <==> exists k: nat :: DoneAfter(src, initial, st, vols, k)
    decreases |vols|
  {
    if vols == [] {
      assert DoneAfter(src, initial, st, vols, 0);
    } else {
      AfterCopy(src, initial, st, vols[0]);
      if NothingToCopy(src, initial, st, vols[0]) {
        assert DoneAfter(src, initial, st, vols, 0);
      } else if CopyFinishes(src, initial, st, vols[0]) {
        var st', rest := SyncVolume(src, initial, st, vols[0]).st, vols[1..];
        DoneIff(src, initial, st', rest);
        DoneAfterFirst(src, initial, st, st', vols);
      }
    }
  }

  lemma DoneAfterFirst(src: Source, initial: bool, st: Repl, st': Repl, vols: seq<SourceVolume>)
    requires vols != [] && CopyFinishes(src, initial, st, vols[0])
    requires SameSetup(st.volumes, st'.volumes) && SameLengths(st.targets, st'.targets)
    ensures (exists k: nat :: DoneAfter(src, initial, st, vols, k)) <==>
            exists k: nat :: DoneAfter(src, initial, st', vols[1..], k)
  {
    var rest := vols[1..];
    forall j | 0 <= j < |rest|
      ensures CopyFinishes(src, initial, st, vols[j + 1]) <==> CopyFinishes(src, initial, st', rest[j])
      ensures NothingToCopy(src, initial, st, vols[j + 1]) <==> NothingToCopy(src, initial, st', rest[j])
    {
      assert rest[j] == vols[j + 1];
      SameProspects(src, initial, st, st', vols[j + 1]);
    }
    if k: nat :| DoneAfter(src, initial, st, vols, k) {
      assert k > 0;
      forall j | 0 <= j < k - 1 ensures CopyFinishes(src, initial, st', rest[j]) {
        assert CopyFinishes(src, initial, st, vols[j + 1]);
      }
      assert DoneAfter(src, initial, st', rest, k - 1);
    }
    if k: nat :| DoneAfter(src, initial, st', rest, k) {
      forall j | 0 <= j < k + 1 ensures CopyFinishes(src, initial, st, vols[j]) {
        if j > 0 { assert CopyFinishes(src, initial, st', rest[j - 1]); }
      }
      assert DoneAfter(src, initial, st, vols, k + 1);
    }
  }

  // ----- A call that fails -------------------------------------------------------------------------

  /** The service never reports an empty chunk. */
  predicate NoEmptyChunks(src: Source) {
    forall name <- src.devices :: NonEmpty(src.devices[name].changes) && NonEmpty(src.devices[name].nonZero)
  }

  /** What a call may do to the targets, however it ends: every byte of a listed disk is the old one or
      the one of its source; nothing else is touched. */
  predicate Untorn(src: Source, st: Repl, after: Repl, vols: seq<SourceVolume>) {
    && SameSetup(st.volumes, after.volumes) && after.targets.Keys == st.targets.Keys
    && (forall vol <- vols | vol.diskId in st.targets && DevName(vol.diskPath) in src.devices ::
          Harmless(st.targets[vol.diskId], after.targets[vol.diskId], DeviceOf(src, vol).content))
    && (forall id <- st.targets ::
          (forall vol <- vols :: vol.diskId == id ==> DevName(vol.diskPath) !in src.devices) ==>
            after.targets[id] == st.targets[id])
  }

  /** One volume, whatever comes of it. */
  predicate UntornBy(src: Source, st: Repl, st': Repl, vol: SourceVolume) {
    && SameSetup(st.volumes, st'.volumes) && st'.targets.Keys == st.targets.Keys && st'.state == st.state
    && (forall id <- st.targets :: id != vol.diskId ==> st'.targets[id] == st.targets[id])
    && (vol.diskId in st.targets ==>
          if DevName(vol.diskPath) in src.devices
          then Harmless(st.targets[vol.diskId], st'.targets[vol.diskId], DeviceOf(src, vol).content)
          else st'.targets[vol.diskId] == st.targets[vol.diskId])
  }

  lemma ChunksAreNonEmpty(dev: Device, v: DstVolume, initial: bool)
    requires NonEmpty(dev.changes) && NonEmpty(dev.nonZero)
    ensures NonEmpty(ChunksToCopy(dev, v, initial))
  {
    ClipKeepsShape(Offered(dev, v, initial), DiskSize(v));
  }

  lemma VolumeIsUntorn(src: Source, initial: bool, st: Repl, vol: SourceVolume)
    requires NoEmptyChunks(src)
    ensures match SyncVolume(src, initial, st, vol)
      case NoChunks => true
      case Copied(st') => UntornBy(src, st, st', vol)
      case Error(st') => UntornBy(src, st, st', vol)
  {
    if Known(src, st, vol) {
      var dev, cs := DeviceOf(src, vol), ChunksOf(src, initial, st, vol);
      ChunksAreNonEmpty(dev, SetupOf(st, vol), initial);
      CopyIsHarmless(st.targets[vol.diskId], dev.content, cs);
    }
  }

  lemma NothingDone(src: Source, st: Repl, after: Repl, vols: seq<SourceVolume>)
    requires after.volumes == st.volumes && after.targets == st.targets
    ensures Untorn(src, st, after, vols)
  {
  }

  lemma UntornCons(src: Source, st: Repl, st': Repl, after: Repl, vols: seq<SourceVolume>)
    requires vols != [] && DistinctDisks(vols)
    requires UntornBy(src, st, st', vols[0]) && Untorn(src, st', after, vols[1..])
    ensures Untorn(src, st, after, vols)
  {
    var first, rest := vols[0], vols[1..];
    forall w | w in rest ensures w.diskId != first.diskId {
      var j :| 1 <= j < |vols| && vols[j] == w;
    }
    if first.diskId in st.targets {
      assert after.targets[first.diskId] == st'.targets[first.diskId];
    }
    forall vol | vol in vols && vol.diskId in st.targets && DevName(vol.diskPath) in src.devices
      ensures Harmless(st.targets[vol.diskId], after.targets[vol.diskId], DeviceOf(src, vol).content)
    {
      assert vol == first || vol in rest;
    }
    forall id | id in st.targets && (forall vol <- vols :: vol.diskId == id ==> DevName(vol.diskPath) !in src.devices)
      ensures after.targets[id] == st.targets[id]
    {
      assert first in vols;
      assert forall w <- rest :: w in vols;
    }
  }

  /** However a call ends, and wherever it fails: a byte of a target is the old one or the one of its
      source, and the recorded state is replaced only by a call that does not fail. */
  lemma {:induction false} CallIsHarmless(src: Source, initial: bool, st: Repl, vols: seq<SourceVolume>)
    requires DistinctDisks(vols) && NoEmptyChunks(src)
    ensures var (o, after) := ReplicateFrom(src, initial, st, vols);
      Untorn(src, st, after, vols) && after.state == if o == Done then src.status else st.state
    decreases |vols|
  {
    var after := ReplicateFrom(src, initial, st, vols).1;
    if vols == [] {
      NothingDone(src, st, after, vols);
    } else {
      VolumeIsUntorn(src, initial, st, vols[0]);
      match SyncVolume(src, initial, st, vols[0]) {
        case NoChunks =>
          NothingDone(src, st, after, vols);
        case Error(st') =>
          NothingDone(src, st', after, vols[1..]);
          UntornCons(src, st, st', after, vols);
        case Copied(st') =>
          CallIsHarmless(src, initial, st', vols[1..]);
          UntornCons(src, st, st', after, vols);
      }
    }
  }

  /** What a failed call leaves can be finished by another one: on an unchanged source, the chunks that
      covered every byte that was not right still do. */
  lemma RetryIsEnough(src: Source, initial: bool, st: Repl, vols: seq<SourceVolume>, vol: SourceVolume)
    requires DistinctDisks(vols) && NoEmptyChunks(src) && vol in vols && Honest(src, initial, st, vol)
    ensures var after := ReplicateFrom(src, initial, st, vols).1;
      && Known(src, after, vol)
      && var dev, v, target := DeviceOf(src, vol), SetupOf(after, vol), after.targets[vol.diskId];
      var cs := ChunksOf(src, initial, after, vol);
      && Inside(cs, |dev.content|) && Inside(cs, |target|) && Extent(dev, v) <= |target|
      && forall i: nat | i < Extent(dev, v) :: target[i] != dev.content[i] ==> Covered(cs, i)
  {
    CallIsHarmless(src, initial, st, vols);
    ChunksAreEnough(src, initial, st, vol);
    var after := ReplicateFrom(src, initial, st, vols).1;
    SameSetupFinds(st.volumes, after.volumes, vol.diskId);
    var dev, v, was, now := DeviceOf(src, vol), SetupOf(st, vol), st.targets[vol.diskId], after.targets[vol.diskId];
    assert Harmless(was, now, dev.content);
    forall i: nat | i < Extent(dev, v) && now[i] != dev.content[i]
      ensures Covered(ChunksOf(src, initial, after, vol), i)
    {
      assert was[i] == now[i];
    }
  }

  // On a changed source that need not hold for the first sync, which is told of non-zero blocks only.

  /** The service's account of a zeroed disk: non-empty pieces that cover every non-zero byte. */
  predicate ReportsNonZero(src: Source, st: Repl, vol: SourceVolume) {
    Known(src, st, vol) &&
    var dev, v, target := DeviceOf(src, vol), SetupOf(st, vol), st.targets[vol.diskId];
    && v.zeroed && Extent(dev, v) <= |target| && Inside(dev.nonZero, |dev.content|)
    && forall i: nat | i < |dev.content| :: dev.content[i] != 0 ==> Covered(dev.nonZero, i)
  }

  /** The target is zero wherever the first sync will not write. */
  predicate ZeroElsewhere(src: Source, st: Repl, vol: SourceVolume)
    requires ReportsNonZero(src, st, vol)
  {
    forall i: nat | i < Extent(DeviceOf(src, vol), SetupOf(st, vol)) && !Covered(DeviceOf(src, vol).nonZero, i) ::
      st.targets[vol.diskId][i] == 0
  }

  lemma ClippedNonZero(src: Source, st: Repl, vol: SourceVolume)
    requires ReportsNonZero(src, st, vol)
    ensures
      var dev, v, target := DeviceOf(src, vol), SetupOf(st, vol), st.targets[vol.diskId];
      var cs := ChunksOf(src, true, st, vol);
      && Inside(cs, |dev.content|) && Inside(cs, |target|)
      && forall i: nat | i < Extent(dev, v) :: Covered(cs, i) <==> Covered(dev.nonZero, i)
  {
    var dev, v := DeviceOf(src, vol), SetupOf(st, vol);
    var size := DiskSize(v);
    if size != 0 {
      ClipKeepsShape(dev.nonZero, size);
      ClipInside(dev.nonZero, size, |dev.content|);
      forall i: nat ensures Covered(Clip(dev.nonZero, size), i) <==> Covered(dev.nonZero, i) && i < size {
        ClipCoverage(dev.nonZero, size, i);
      }
    }
  }

  /** The first sync of a disk marked as zeroed, given a true account of its non-zero blocks, makes it
      equal to its source if and only if the target really is zero everywhere else. */
  lemma FirstSyncIffZeroElsewhere(src: Source, st: Repl, vol: SourceVolume)
    requires ReportsNonZero(src, st, vol)
    ensures var r := SyncVolume(src, true, st, vol);
      && !r.Error?
      && (Synced(src, if r.Copied? then r.st else st, vol) <==> ZeroElsewhere(src, st, vol))
  {
    var dev, v, target := DeviceOf(src, vol), SetupOf(st, vol), st.targets[vol.diskId];
    var cs := ChunksOf(src, true, st, vol);
    ClippedNonZero(src, st, vol);
    CopySucceeds(target, dev.content, cs);
    CopyingSynchronisesIff(target, dev.content, cs, Extent(dev, v));
    var r := SyncVolume(src, true, st, vol);
    if r.Copied? {
      SameSetupFinds(st.volumes, r.st.volumes, vol.diskId);
    }
  }

  const ZEROED := DstVolume("a", true, None, None, None)
  const DISK := SourceVolume("a", "/dev/sda")
  const UNKNOWN := SourceVolume("b", "/dev/sdb")

  function OneByteDisk(b: byte, nonZero: seq<Chunk>): Source {
    Source(map["sda" := Device([b], [], nonZero)], [VolState("sda", 0)])
  }

  lemma FirstSyncCopies(st: Repl)
    requires st == Repl([ZEROED], map["a" := [0]], [])
    ensures var r := SyncVolume(OneByteDisk(5, [Chunk(0, 1)]), true, st, DISK);
      && r.Copied? && r.st.targets == map["a" := [5]] && r.st.state == []
      && |r.st.volumes| == 1 && r.st.volumes[0].diskId == "a"
      && r.st.volumes[0].zeroed && DiskSize(r.st.volumes[0]) == 0
  {
    assert DevName("/dev/sda") == "sda";
    assert FindVolume([ZEROED], "a") == Some(0);
    var cs := [Chunk(0, 1)];
    assert cs[..0] == [];
    assert CopyChunks([0], [5], []) == Copying([0], true);
    assert CopyChunk([0], [5], Chunk(0, 1)) == Copying([5], true);
    assert CopyChunks([0], [5], cs) == Copying([5], true);
  }

  lemma UnknownVolumeFails(src: Source, st: Repl)
    requires |st.volumes| == 1 && st.volumes[0].diskId == "a"
    ensures ReplicateFrom(src, true, st, [UNKNOWN]) == (Failed, st)
  {
    assert st.volumes[1..] == [];
    assert FindVolume(st.volumes, "b") == None;
  }

  lemma NothingNonZero(st: Repl)
    requires |st.volumes| == 1 && st.volumes[0].diskId == "a" && st.volumes[0].zeroed && DiskSize(st.volumes[0]) == 0
    requires st.state == [] && st.targets == map["a" := [5]]
    ensures var (o, st') := ReplicateDisks(OneByteDisk(0, []), st, [DISK]);
      o == Done && st'.state != [] && !Synced(OneByteDisk(0, []), st', DISK)
  {
    assert DevName("/dev/sda") == "sda";
    assert FindVolume(st.volumes, "a") == Some(0);
    assert st.targets["a"][..1][0] != 0;
  }

  /** One zeroed disk, copied by a call that then fails on an unknown volume; before the retry its one
      byte becomes zero. The retry finds no chunks, records the new state and leaves the old byte. */
  lemma RetriedFirstSyncStaysStale()
    ensures
      var src, later := OneByteDisk(5, [Chunk(0, 1)]), OneByteDisk(0, []);
      var (o, st) := ReplicateDisks(src, Repl([ZEROED], map["a" := [0]], []), [DISK, UNKNOWN]);
      var (o', st') := ReplicateDisks(later, st, [DISK]);
      o == Failed && o' == Done && st'.state != [] && !Synced(later, st', DISK)
  {
    var src, st := OneByteDisk(5, [Chunk(0, 1)]), Repl([ZEROED], map["a" := [0]], []);
    FirstSyncCopies(st);
    var st1 := SyncVolume(src, true, st, DISK).st;
    UnknownVolumeFails(src, st1);
    assert [DISK, UNKNOWN][1..] == [UNKNOWN];
    assert ReplicateDisks(src, st, [DISK, UNKNOWN]) == (Failed, st1);
    NothingNonZero(st1);
  }

  // ----- A disk that is left out ------------------------------------------------------------------

  const TWO_DISKS := [SourceVolume("a", "/dev/sda"), SourceVolume("b", "/dev/sdb")]

  function TwoDisks(b: byte, changes: seq<Chunk>): Source {
    Source(
      map["sda" := Device([7], [], []), "sdb" := Device([b], changes, [])],
      [VolState("sda", 0), VolState("sdb", 0)])
  }

  /** Both disks in sync, then only the second one changes: the round ends at the first disk, the
      second stays stale, and the next round, told of no further change, leaves it stale. */
  lemma SkippedDiskStaysStale()
    ensures
      var st := Repl([DstVolume("a", false, None, None, None), DstVolume("b", false, None, None, None)],
                     map["a" := [7], "b" := [7]], [VolState("sda", 0)]);
      var changed, later := TwoDisks(8, [Chunk(0, 1)]), TwoDisks(8, []);
      && AllSynced(TwoDisks(7, []), st, TWO_DISKS)
      && (forall vol <- TWO_DISKS :: Tracks(TwoDisks(7, []), changed, vol) && Tracks(changed, later, vol))
      && !Synced(changed, Rounds(st, TWO_DISKS, [changed]), TWO_DISKS[1])
      && !Synced(later, Rounds(st, TWO_DISKS, [changed, later]), TWO_DISKS[1])
  {
    var va, vb := DstVolume("a", false, None, None, None), DstVolume("b", false, None, None, None);
    var st := Repl([va, vb], map["a" := [7], "b" := [7]], [VolState("sda", 0)]);
    var changed, later := TwoDisks(8, [Chunk(0, 1)]), TwoDisks(8, []);
    assert DevName("/dev/sda") == "sda" && DevName("/dev/sdb") == "sdb";
    assert FindVolume(st.volumes, "a") == Some(0);
    assert st.volumes[1..] == [vb];
    assert FindVolume([vb], "b") == Some(0);
    assert FindVolume(st.volumes, "b") == Some(1);
    assert Covered([Chunk(0, 1)], 0) by { assert Chunk(0, 1) in [Chunk(0, 1)]; }
    assert SyncVolume(changed, false, st, TWO_DISKS[0]) == NoChunks;
    var st1 := st.(state := changed.status);
    assert Rounds(st, TWO_DISKS, []) == st;
    assert [changed][..0] == [];
    assert Rounds(st, TWO_DISKS, [changed]) == st1;
    assert SyncVolume(later, false, st1, TWO_DISKS[0]) == NoChunks;
    assert [changed, later][..1] == [changed];
    var st2 := st1.(state := later.status);
    assert Rounds(st, TWO_DISKS, [changed, later]) == st2;
    assert st1.targets["b"][..1][0] != 8;
  }
}
