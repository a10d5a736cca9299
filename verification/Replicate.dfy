/** `replicate_disks`: choosing, clipping and copying changed chunks, disk after disk. */
module Replicate {
  import opened Wrappers
  import opened Bytes
  import opened Disk
  import opened Chunks

  datatype SourceVolume = SourceVolume(diskId: string, diskPath: string)

  datatype VolState = VolState(deviceName: string, details: nat)

  datatype DstVolume = DstVolume(
    diskId: string, zeroed: bool, size: Option<nat>, sizeBytes: Option<nat>, replicaState: Option<VolState>)

  /** One source disk and the answers of the replicator service about it. */
  datatype Device = Device(content: seq<byte>, changes: seq<Chunk>, nonZero: seq<Chunk>)

  datatype Source = Source(devices: map<string, Device>, status: seq<VolState>)

  datatype Repl = Repl(volumes: seq<DstVolume>, targets: map<string, seq<byte>>, state: seq<VolState>)

  datatype Outcome = Done | Failed

  function DevName(path: string): string {
    if "/dev" <= path then (if |path| < 5 then "" else path[5..]) else path
  }

  /** `/dev` and the character after it are dropped; any other path is the name. */
  lemma DevNameIsTail(path: string)
    ensures "/dev" <= path && |path| >= 5 ==> path == "/dev" + [path[4]] + DevName(path)
    ensures path == "/dev" ==> DevName(path) == ""
    ensures !("/dev" <= path) ==> DevName(path) == path
  {
    if "/dev" <= path && |path| >= 5 {
      assert path == path[..4] + [path[4]] + path[5..];
    }
  }

  function FindVolume(volumes: seq<DstVolume>, id: string): (r: Option<nat>)
    ensures r.Some? ==> r.value < |volumes| && volumes[r.value].diskId == id
    ensures forall i | 0 <= i < (if r.Some? then r.value else |volumes|) :: volumes[i].diskId != id
  {
    if volumes == [] then None
    else if volumes[0].diskId == id then Some(0)
    else match FindVolume(volumes[1..], id)
      case None => None
      case Some(k) => Some(k + 1)
  }

  function FindState(status: seq<VolState>, name: string): (r: Option<VolState>)
    ensures r.Some? ==> exists i ::
      && 0 <= i < |status| && status[i] == r.value && r.value.deviceName == name
      && forall j | 0 <= j < i :: status[j].deviceName != name
    ensures r.None? ==> forall s <- status :: s.deviceName != name
  {
    if status == [] then None
    else if status[0].deviceName == name then Some(status[0])
    else
      assert forall i | 0 < i < |status| :: status[i] == status[1..][i - 1];
      FindState(status[1..], name)
  }

  /** The size the target was given, 0 when none was: `size`, or else `size_bytes`. */
  function DiskSize(v: DstVolume): nat {
    if v.size.Some? && v.size.value != 0 then v.size.value
    else if v.sizeBytes.Some? then v.sizeBytes.value
    else 0
  }

  /** Zero blocks are skipped only on the first sync of a zeroed target. */
  function Offered(dev: Device, v: DstVolume, initial: bool): seq<Chunk> {
    if initial && v.zeroed then dev.nonZero else dev.changes
  }

  function ChunksToCopy(dev: Device, v: DstVolume, initial: bool): seq<Chunk> {
    if DiskSize(v) != 0 then Clip(Offered(dev, v, initial), DiskSize(v)) else Offered(dev, v, initial)
  }

  datatype VolumeResult = NoChunks | Copied(st: Repl) | Error(st: Repl)

  function SyncVolume(src: Source, initial: bool, st: Repl, vol: SourceVolume): VolumeResult {
    var name := DevName(vol.diskPath);
    match FindVolume(st.volumes, vol.diskId)
    case None => Error(st)
    case Some(k) =>
      if name !in src.devices then Error(st)
      else
        var dev := src.devices[name];
        var chunks := ChunksToCopy(dev, st.volumes[k], initial);
        if chunks == [] then NoChunks
        else if vol.diskId !in st.targets then Error(st)
        else
          var r := CopyChunks(st.targets[vol.diskId], dev.content, chunks);
          var st' := st.(targets := st.targets[vol.diskId := r.disk]);
          if r.finished then
            Copied(st'.(volumes := st.volumes[k := st.volumes[k].(replicaState := FindState(src.status, name))]))
          else Error(st')
  }

  /** The disks in turn; the first one without chunks ends the whole call. */
  function ReplicateFrom(src: Source, initial: bool, st: Repl, vols: seq<SourceVolume>): (Outcome, Repl)
    decreases |vols|
  {
    if vols == [] then (Done, st.(state := src.status))
    else match SyncVolume(src, initial, st, vols[0])
      case NoChunks => (Done, st.(state := src.status))
      case Error(st') => (Failed, st')
      case Copied(st') => ReplicateFrom(src, initial, st', vols[1..])
  }

  function ReplicateDisks(src: Source, st: Repl, vols: seq<SourceVolume>): (Outcome, Repl) {
    ReplicateFrom(src, st.state == [], st, vols)
  }

  // ----- The same as the source runs it: nested loops over mutable state -----------------

  class Replicator {
    var volumes: seq<DstVolume>
    var targets: map<string, seq<byte>>
    var state: seq<VolState>

    function Now(): Repl
      reads this
    {
      Repl(volumes, targets, state)
    }

    method FindIndex(id: string) returns (found: Option<nat>)
      ensures found == FindVolume(volumes, id)
    {
      var k := 0;
      while k < |volumes|
        invariant 0 <= k <= |volumes|
        invariant FindVolume(volumes, id) ==
                    match FindVolume(volumes[k..], id) { case None => None case Some(j) => Some(k + j) }
      {
        if volumes[k].diskId == id {
          return Some(k);
        }
        assert volumes[k..][1..] == volumes[k + 1..];
        k := k + 1;
      }
      found := None;
    }

    /** The copy loop: every chunk is on the target before the next one is downloaded. */
    method Copy(id: string, content: seq<byte>, chunks: seq<Chunk>) returns (ok: bool)
      requires id in targets
      modifies this`targets
      ensures var r := CopyChunks(old(targets)[id], content, chunks);
        ok == r.finished && targets == old(targets)[id := r.disk]
    {
      ghost var target := targets[id];
      for k := 0 to |chunks|
        invariant id in targets && targets == old(targets)[id := targets[id]]
        invariant CopyChunks(target, content, chunks[..k]) == Copying(targets[id], true)
      {
        assert chunks[..k + 1][..k] == chunks[..k];
        var data := DownloadChunk(content, chunks[k]);
        if data.None? || !Write(chunks[k].offset, data.value).InBounds(|targets[id]|) {
          CopyStops(target, content, chunks, k + 1);
          return false;
        }
        targets := targets[id := Overwrite(targets[id], Write(chunks[k].offset, data.value))];
      }
      assert chunks[..|chunks|] == chunks;
      ok := true;
    }

    /** One volume; `more` says whether the call goes on to the next. */
    method SyncOne(src: Source, initial: bool, vol: SourceVolume) returns (outcome: Outcome, more: bool)
      modifies this`targets, this`volumes
      ensures match SyncVolume(src, initial, old(Now()), vol)
        case NoChunks => outcome == Done && !more && Now() == old(Now())
        case Error(st) => outcome == Failed && !more && Now() == st
        case Copied(st) => outcome == Done && more && Now() == st
    {
      var name := DevName(vol.diskPath);
      var found := FindIndex(vol.diskId);
      if found.None? || name !in src.devices {
        return Failed, false;
      }
      var dev, v := src.devices[name], volumes[found.value];
      var chunks := if initial && v.zeroed then dev.nonZero else dev.changes;
      var size := DiskSize(v);
      if size != 0 {
        chunks := ClipChunks(chunks, size);
      }
      if chunks == [] {
        return Done, false;
      }
      if vol.diskId !in targets {
        return Failed, false;
      }
      var ok := Copy(vol.diskId, dev.content, chunks);
      if !ok {
        return Failed, false;
      }
      volumes := volumes[found.value := v.(replicaState := FindState(src.status, name))];
      return Done, true;
    }

    method Run(src: Source, vols: seq<SourceVolume>) returns (outcome: Outcome)
      modifies this
      ensures (outcome, Now()) == ReplicateDisks(src, old(Now()), vols)
    {
      var initial := state == [];
      var k := 0;
      while k < |vols|
        invariant 0 <= k <= |vols|
        invariant ReplicateFrom(src, initial, Now(), vols[k..]) == ReplicateDisks(src, old(Now()), vols)
      {
        var more;
        outcome, more := SyncOne(src, initial, vols[k]);
        if outcome == Failed {
          return;
        }
        if !more {
          state := src.status;
          return;
        }
        assert vols[k..][1..] == vols[k + 1..];
        k := k + 1;
      }
      state := src.status;
      outcome := Done;
    }
  }
}
