/** The whole data path for one disk: chunks chosen by `replicate_disks`, pushed through a concurrent
    writer, and applied on the target. */
module Transfer {
  import opened Bytes
  import opened Disk
  import opened Framing
  import opened Receiver
  import opened Stream
  import opened Pipeline
  import opened Safety
  import opened Order
  import opened EndToEnd
  import opened Chunks
  import opened Replicate
  import opened Sync

  /** The calls the copy loop makes: one seek and one write per chunk. */
  function CopyCalls(content: seq<byte>, cs: seq<Chunk>): (calls: seq<Call>)
    requires Inside(cs, |content|)
  {
    if cs == [] then []
    else
      var c := cs[|cs| - 1];
      assert c in cs;
      CopyCalls(content, cs[..|cs| - 1]) + [Seek(c.offset), Put(Piece(content, c).data)]
  }

  lemma {:induction false} CopyCallsWrites(content: seq<byte>, cs: seq<Chunk>)
    requires Inside(cs, |content|)
    ensures WritesOf(CopyCalls(content, cs)) == Pieces(content, cs)
    decreases |cs|
  {
    if cs != [] {
      var rest, c := cs[..|cs| - 1], cs[|cs| - 1];
      assert c in cs;
      CopyCallsWrites(content, rest);
      SeekThenPut(CopyCalls(content, rest), Piece(content, c));
      assert Pieces(content, cs) == Pieces(content, rest) + [Piece(content, c)];
    }
  }

  lemma SeekThenPut(calls: seq<Call>, w: Write)
    ensures WritesOf(calls + [Seek(w.offset), Put(w.data)]) == WritesOf(calls) + [w]
  {
    var mid, all := calls + [Seek(w.offset)], calls + [Seek(w.offset), Put(w.data)];
    assert all[..|all| - 1] == mid && mid[..|mid| - 1] == calls;
    assert mid[|mid| - 1] == Seek(w.offset);
    assert PosAfter(mid) == w.offset;
  }

  /** What the copy loop of an honest volume asks of the writer is inside the target and agrees with
      itself, and carrying it out brings the target in sync. */
  lemma CopyIsAcceptable(src: Source, initial: bool, st: Repl, vol: SourceVolume)
    requires Honest(src, initial, st, vol)
    ensures
      var content, cs := DeviceOf(src, vol).content, ChunksOf(src, initial, st, vol);
      var target := st.targets[vol.diskId];
      && Inside(cs, |content|)
      && var ws := WritesOf(CopyCalls(content, cs));
      && AllInBounds(ws, |target|) && PairwiseAgree(ws)
      && InSync(ApplyAll(target, ws), content, Extent(DeviceOf(src, vol), SetupOf(st, vol)))
  {
    var dev, cs, target := DeviceOf(src, vol), ChunksOf(src, initial, st, vol), st.targets[vol.diskId];
    ChunksAreEnough(src, initial, st, vol);
    CopyCallsWrites(dev.content, cs);
    PiecesAgree(dev.content, cs);
    CopySucceeds(target, dev.content, cs);
    CopyingSynchronises(target, dev.content, cs, Extent(dev, SetupOf(st, vol)));
  }

  /** The calls made on the writer are those of the copy loop for this volume. */
  predicate CopiesVolume(s: State, src: Source, initial: bool, st: Repl, vol: SourceVolume)
    requires Known(src, st, vol)
  {
    var content, cs := DeviceOf(src, vol).content, ChunksOf(src, initial, st, vol);
    Inside(cs, |content|) && s.log.calls == CopyCalls(content, cs)
  }

  /** Any concurrent writer, any interleaving: once close() is past its exception check, what has
      arrived, in the order it arrived, brings the target in sync with the source. */
  lemma WriterSynchronisesDisk(cfg: Config, s: State, src: Source, initial: bool, st: Repl, vol: SourceVolume)
    requires Honest(src, initial, st, vol)
    requires Reachable(cfg, s) && CopiesVolume(s, src, initial, st, vol)
    requires s.caller.pc.Finishing? || s.caller.pc.Closed?
    ensures AllInBounds(WritesAmong(Arrived(s.log.wire)), |st.targets[vol.diskId]|)
    ensures InSync(ApplyAll(st.targets[vol.diskId], WritesAmong(Arrived(s.log.wire))), DeviceOf(src, vol).content,
                   Extent(DeviceOf(src, vol), SetupOf(st, vol)))
  {
    CopyIsAcceptable(src, initial, st, vol);
    CloseRefinesFileWriter(cfg, s, st.targets[vol.diskId]);
  }

  // ----- A transfer that stops anywhere -----------------------------------------------------------

  lemma {:induction false} WritesOfPrefix(calls: seq<Call>, k: nat)
    requires k <= |calls|
    ensures WritesOf(calls[..k]) <= WritesOf(calls)
    decreases |calls|
  {
    if k == |calls| {
      assert calls[..k] == calls;
    } else {
      var front := calls[..|calls| - 1];
      assert front[..k] == calls[..k];
      WritesOfPrefix(front, k);
    }
  }

  /** Whatever is on the wire is one of the writes asked for. */
  lemma ArrivedWasAsked(cfg: Config, s: State, w: Write)
    requires Reachable(cfg, s) && w in WritesAmong(Arrived(s.log.wire))
    ensures w in WritesOf(s.log.calls)
  {
    ReachableInv(cfg, s);
    var ms := Arrived(s.log.wire);
    var i :| 0 <= i < |ms| && ms[i].payload.w == w;
    assert ms[i] in ms;
    ArrivedIff(s.log.wire, ms[i]);
    assert Genuine(cfg, s.log.accepted, ms[i]);
    var a :| 0 <= a < |s.log.accepted| && s.log.accepted[a] == ms[i].payload;
    assert WritesOf(s.log.calls)[a] == w;
  }

  /** In every state of every run, failed or not and however far the copy loop got: what has arrived leaves
      every byte of the target as it was or as it is in the source. */
  lemma ArrivedIsHarmless(cfg: Config, s: State, content: seq<byte>, cs: seq<Chunk>, target: seq<byte>)
    requires Reachable(cfg, s) && Inside(cs, |content|) && Inside(cs, |target|)
    requires s.log.calls <= CopyCalls(content, cs)
    ensures AllInBounds(WritesAmong(Arrived(s.log.wire)), |target|)
    ensures Harmless(target, ApplyAll(target, WritesAmong(Arrived(s.log.wire))), content)
  {
    var ws, pieces := WritesAmong(Arrived(s.log.wire)), Pieces(content, cs);
    var all := CopyCalls(content, cs);
    assert all[..|s.log.calls|] == s.log.calls;
    WritesOfPrefix(all, |s.log.calls|);
    CopyCallsWrites(content, cs);
    forall w | w in ws ensures w in pieces { ArrivedWasAsked(cfg, s, w); }
    CopySucceeds(target, content, cs);
    PiecesAgree(content, cs);
    SomePiecesAreHarmless(target, content, cs, ws);
  }

  lemma SomePiecesAreHarmless(target: seq<byte>, content: seq<byte>, cs: seq<Chunk>, ws: seq<Write>)
    requires Inside(cs, |content|) && AllInBounds(Pieces(content, cs), |target|) && PairwiseAgree(Pieces(content, cs))
    requires forall w <- ws :: w in Pieces(content, cs)
    ensures AllInBounds(ws, |target|) && Harmless(target, ApplyAll(target, ws), content)
  {
    var r := ApplyAll(target, ws);
    forall i: nat | i < |target| ensures r[i] == target[i] || (i < |content| && r[i] == content[i]) {
      PiecesCover(content, cs, i);
      ByteAfter(target, ws, i);
      if w :| w in ws && w.Covers(i) {
        assert r[i] == w.ByteAt(i);
      }
    }
  }

  // ----- The SSH writer down to bytes ---------------------------------------------------------------

  lemma MessagesWereAsked(cfg: Config, s: State, w: Write)
    requires Reachable(cfg, s) && w in WritesIn(MessagesOn(s.log.wire))
    ensures w in WritesOf(s.log.calls)
  {
    var wire := s.log.wire;
    var k := if HasEod(wire) then BeforeEod(wire) else |wire|;
    assert wire[..|wire|] == wire;
    var ms, all := Arrived(wire[..k]), Arrived(wire);
    ArrivedPrefix(wire, k);
    var i :| 0 <= i < |ms| && SentOf(ms[i]).w == w;
    assert all[i] == ms[i];
    assert WritesAmong(all)[i] == w;
    ArrivedWasAsked(cfg, s, w);
  }

  /** A first part of a piece of the source. */
  lemma PartIsHarmless(disk: seq<byte>, content: seq<byte>, cs: seq<Chunk>, w: Write, kept: nat)
    requires Inside(cs, |content|) && w in Pieces(content, cs) && w.InBounds(|disk|)
    ensures Harmless(disk, Overwrite(disk, FirstPart(w, kept)), content)
  {
    var r := FirstPart(w, kept);
    var after := Overwrite(disk, r);
    forall i: nat | i < |disk| ensures after[i] == disk[i] || (i < |content| && after[i] == content[i]) {
      PiecesCover(content, cs, i);
      if r.Covers(i) {
        assert w.Covers(i) && r.ByteAt(i) == w.ByteAt(i);
      }
    }
  }

  lemma FirstWrites(sent: seq<Sent>, j: nat)
    requires j <= |sent|
    ensures forall w <- WritesIn(sent[..j]) :: w in WritesIn(sent)
    ensures j < |sent| ==> sent[j].w in WritesIn(sent)
  {
    var all := WritesIn(sent);
    assert WritesIn(sent[..j]) == all[..j];
    assert j < |sent| ==> all[j] == sent[j].w;
  }

  /** The messages up to any one of them. */
  lemma FirstMessagesAreHarmless(target: seq<byte>, content: seq<byte>, cs: seq<Chunk>, sent: seq<Sent>, j: nat)
    requires Inside(cs, |content|) && Inside(cs, |target|) && j <= |sent|
    requires forall w <- WritesIn(sent) :: w in Pieces(content, cs)
    ensures AllInBounds(WritesIn(sent[..j]), |target|)
    ensures Harmless(target, ApplyAll(target, WritesIn(sent[..j])), content)
    ensures j < |sent| ==> sent[j].w in Pieces(content, cs)
  {
    FirstWrites(sent, j);
    CopySucceeds(target, content, cs);
    PiecesAgree(content, cs);
    SomePiecesAreHarmless(target, content, cs, WritesIn(sent[..j]));
  }

  /** One message more, as far as it gets. */
  lemma NextMessageIsHarmless(
      path: Path, w: Write, files: Files, fault: Fault, e: Exit, target: seq<byte>, content: seq<byte>, cs: seq<Chunk>)
    requires path in files && Inside(cs, |content|) && w in Pieces(content, cs)
    requires Harmless(target, files[path], content)
    ensures var after := FilesAfter(path, w, files, fault, e);
      && after.Keys == files.Keys && (forall p <- files :: p != path ==> after[p] == files[p])
      && Harmless(target, after[path], content)
  {
    if w.InBounds(|files[path]|) {
      var kept := if fault.WriteFails? || fault.CloseFails? then fault.kept else |w.data|;
      PartIsHarmless(files[path], content, cs, w, |w.data|);
      HarmlessTwice(target, files[path], Overwrite(files[path], w), content);
      PartIsHarmless(files[path], content, cs, w, kept);
      HarmlessTwice(target, files[path], Overwrite(files[path], FirstPart(w, kept)), content);
    }
  }

  /** Whatever a run of the receiver over pieces of the source has left. */
  lemma StoredIsHarmless(
      host: Host, path: Path, sent: seq<Sent>, j: nat, eod: nat, rx: Rx, e: Exit, rx': Rx,
      content: seq<byte>, cs: seq<Chunk>)
    requires path in rx.files && j <= |sent| && StoredUpTo(host, path, sent, j, eod, rx, e, rx')
    requires Inside(cs, |content|) && Inside(cs, |rx.files[path]|)
    requires forall w <- WritesIn(sent) :: w in Pieces(content, cs)
    ensures rx'.files.Keys == rx.files.Keys && forall p <- rx.files :: p != path ==> rx'.files[p] == rx.files[p]
    ensures Harmless(rx.files[path], rx'.files[path], content)
  {
    FirstMessagesAreHarmless(rx.files[path], content, cs, sent, j);
    if j < |sent| {
      var before := After(path, sent[..j], rx);
      NextMessageIsHarmless(
        path, sent[j].w, before.files, host.faults(|before.acks|), e, rx.files[path], content, cs);
    }
  }

  /** Through the SSH writer down to bytes, whatever the interleaving, the resends, the compression and the
      refusals of the receiver's host: if the receiver exits with ERR_DONE, as it does when nothing is
      refused, the device file is in sync with the source; and in any case every byte of it is the old one
      or the one of the source, and no other file has changed. */
  lemma SshSynchronisesDisk(
      host: Host, path: Path, n: nat, s: State, files: Files,
      src: Source, initial: bool, st: Repl, vol: SourceVolume)
    requires Honest(src, initial, st, vol)
    requires Reachable(SshConfig(host.inflate, path, n), s) && CopiesVolume(s, src, initial, st, vol)
    requires s.caller.pc.Closed? && s.caller.connected
    requires path in files && files[path] == st.targets[vol.diskId]
    requires NulFree(path) && |files[path]| < LONG_LIMIT && |WritesOf(s.log.calls)| < U32_LIMIT
    requires forall w <- WritesOf(s.log.calls) :: |path| + 9 + |w.data| <= MAX_MSG_SIZE
    ensures
      var content := DeviceOf(src, vol).content;
      var (e, rx) := Receive(host, Start(s.log.wire, files));
      && rx.files.Keys == files.Keys && (forall p <- files :: p != path ==> rx.files[p] == files[p])
      && Harmless(files[path], rx.files[path], content)
      && ((forall i: nat :: host.faults(i).NoFault?) ==> e == Exit.Code(ERR_DONE))
      && (e == Exit.Code(ERR_DONE) ==> InSync(rx.files[path], content, Extent(DeviceOf(src, vol), SetupOf(st, vol))))
  {
    var content, cs := DeviceOf(src, vol).content, ChunksOf(src, initial, st, vol);
    CopyIsAcceptable(src, initial, st, vol);
    ChunksAreEnough(src, initial, st, vol);
    SshEndToEnd(host, path, n, s, files);
    var sent, rx := MessagesOn(s.log.wire), Start(s.log.wire, files);
    var (e, rx') := Receive(host, rx);
    CopyCallsWrites(content, cs);
    forall w | w in WritesIn(sent) ensures w in Pieces(content, cs) {
      MessagesWereAsked(SshConfig(host.inflate, path, n), s, w);
    }
    StoredIsHarmless(host, path, sent, FirstHit(path, sent, host.faults, 0), s.caller.msgId, rx, e, rx', content, cs);
  }
}
