/** From seek() and write() calls to the bytes of the target device: the concurrent writers leave
    what the plain file writer leaves. */
module EndToEnd {
  import opened Wrappers
  import opened Bytes
  import opened Disk
  import opened Framing
  import opened Receiver
  import opened Stream
  import opened Pipeline
  import opened Safety
  import opened Order

  // ----- Any writer: what reaches the target, as positioned writes -----------------------

  /** Data on the wire that is exactly the accepted payloads amounts to exactly the writes asked for. */
  lemma ArrivedAreTheWrites(accepted: seq<Payload>, asked: seq<Write>, wire: seq<Event>)
    requires |accepted| == |asked| && forall i | 0 <= i < |accepted| :: accepted[i] == Payload(i, asked[i])
    requires forall p :: p in accepted <==> OnWire(wire, p)
    ensures SameElements(asked, WritesAmong(Arrived(wire)))
  {
    var ms := Arrived(wire);
    var ws := WritesAmong(ms);
    forall w | w in asked ensures w in ws {
      var i :| 0 <= i < |asked| && asked[i] == w;
      assert accepted[i] in accepted;
      var e :| e in wire && e.Data? && e.m.payload == accepted[i];
      ArrivedIff(wire, e.m);
      var k :| 0 <= k < |ms| && ms[k] == e.m;
      assert ws[k] == w;
    }
    forall w | w in ws ensures w in asked {
      var k :| 0 <= k < |ws| && ws[k] == w;
      assert ms[k] in ms;
      ArrivedIff(wire, ms[k]);
      assert OnWire(wire, ms[k].payload);
      var i :| 0 <= i < |accepted| && accepted[i] == ms[k].payload;
      assert asked[i] == w;
    }
  }

  /** When the order of arrival cannot matter: a single encoder keeps it, and writes that agree wherever
      they overlap do not depend on it. */
  ghost predicate OrderSafe(encoderCount: nat, ws: seq<Write>) {
    encoderCount <= 1 || PairwiseAgree(ws)
  }

  lemma ArrivedAreNumbered(accepted: seq<Payload>, asked: seq<Write>, wire: seq<Event>)
    requires |accepted| == |asked| && forall i | 0 <= i < |accepted| :: accepted[i] == Payload(i, asked[i])
    requires forall p :: p in accepted <==> OnWire(wire, p)
    ensures Numbered(Arrived(wire), asked)
  {
    var ms := Arrived(wire);
    forall m | m in ms ensures m.payload.msgId < |asked| && m.payload.w == asked[m.payload.msgId] {
      ArrivedIff(wire, m);
      assert OnWire(wire, m.payload);
      assert m.payload in accepted;
    }
    forall i | 0 <= i < |asked| ensures Payload(i, asked[i]) in PayloadsOf(ms) {
      assert accepted[i] in accepted;
      var e :| e in wire && e.Data? && e.m.payload == accepted[i];
      ArrivedIff(wire, e.m);
      var k :| 0 <= k < |ms| && ms[k] == e.m;
      assert PayloadsOf(ms)[k] == accepted[i];
    }
  }

  /** Events that carry exactly the first `n` accepted payloads leave the disk that the first `n` writes
      leave in call order. */
  lemma SameDisk(cfg: Config, s: State, k: nat, n: nat, disk: seq<byte>)
    requires Reachable(cfg, s) && k <= |s.log.wire|
    requires Recorded(s.caller, s.log.calls, s.log.accepted) && n <= |s.log.accepted|
    requires forall p :: p in s.log.accepted[..n] <==> OnWire(s.log.wire[..k], p)
    requires AllInBounds(WritesOf(s.log.calls), |disk|) && OrderSafe(cfg.encoderCount, WritesOf(s.log.calls))
    ensures AllInBounds(WritesOf(s.log.calls)[..n], |disk|)
    ensures AllInBounds(WritesAmong(Arrived(s.log.wire[..k])), |disk|)
    ensures ApplyAll(disk, WritesAmong(Arrived(s.log.wire[..k]))) == ApplyAll(disk, WritesOf(s.log.calls)[..n])
  {
    var wire, asked := s.log.wire[..k], WritesOf(s.log.calls)[..n];
    forall w | w in asked ensures w in WritesOf(s.log.calls) { }
    if cfg.encoderCount <= 1 {
      OneEncoderKeepsOrder(cfg, s, k);
      ArrivedAreNumbered(s.log.accepted[..n], asked, wire);
      SortedArrival(disk, Arrived(wire), asked);
    } else {
      ArrivedAreTheWrites(s.log.accepted[..n], asked, wire);
      OrderAndRepeatsIrrelevant(disk, asked, WritesAmong(Arrived(wire)));
    }
  }

  lemma SameDiskAfterAll(cfg: Config, s: State, k: nat, disk: seq<byte>)
    requires Reachable(cfg, s) && k <= |s.log.wire|
    requires Recorded(s.caller, s.log.calls, s.log.accepted)
    requires forall p :: p in s.log.accepted <==> OnWire(s.log.wire[..k], p)
    requires AllInBounds(WritesOf(s.log.calls), |disk|) && OrderSafe(cfg.encoderCount, WritesOf(s.log.calls))
    ensures AllInBounds(WritesAmong(Arrived(s.log.wire[..k])), |disk|)
    ensures ApplyAll(disk, WritesAmong(Arrived(s.log.wire[..k]))) == ApplyAll(disk, WritesOf(s.log.calls))
  {
    var n := |s.log.accepted|;
    assert s.log.accepted[..n] == s.log.accepted && WritesOf(s.log.calls)[..n] == WritesOf(s.log.calls);
    SameDisk(cfg, s, k, n, disk);
  }

  /** Refinement, in every interleaving and for both writers: after a clean close, applying the
      messages in the order they arrived, resends included, gives the disk that the calls give
      when they are run one after another on a plain file. */
  lemma CloseRefinesFileWriter(cfg: Config, s: State, disk: seq<byte>)
    requires Reachable(cfg, s) && (s.caller.pc.Finishing? || s.caller.pc.Closed?)
    requires AllInBounds(WritesOf(s.log.calls), |disk|) && OrderSafe(cfg.encoderCount, WritesOf(s.log.calls))
    ensures AllInBounds(WritesAmong(Arrived(s.log.wire)), |disk|)
    ensures ApplyAll(disk, WritesAmong(Arrived(s.log.wire))) == ApplyAll(disk, WritesOf(s.log.calls))
  {
    ReachableInv(cfg, s);
    CloseIsSafe(cfg, s);
    assert s.log.wire[..|s.log.wire|] == s.log.wire;
    SameDiskAfterAll(cfg, s, |s.log.wire|, disk);
  }

  /** The same at the moment a checksum job is created: the job sees the disk a plain file would
      have after the writes made so far. */
  lemma ChecksumRefinesFileWriter(cfg: Config, s: State, j: nat, disk: seq<byte>)
    requires Reachable(cfg, s) && j < |s.log.wire| && s.log.wire[j].Checksum?
    requires AllInBounds(WritesOf(s.log.calls), |disk|) && OrderSafe(cfg.encoderCount, WritesOf(s.log.calls))
    ensures var n := s.log.wire[j].upTo;
      && n <= |WritesOf(s.log.calls)|
      && AllInBounds(WritesOf(s.log.calls)[..n], |disk|)
      && AllInBounds(WritesAmong(Arrived(s.log.wire[..j])), |disk|)
      && ApplyAll(disk, WritesAmong(Arrived(s.log.wire[..j]))) == ApplyAll(disk, WritesOf(s.log.calls)[..n])
  {
    ReachableInv(cfg, s);
    ChecksumSeesEveryWrite(cfg, s, j);
    SameDisk(cfg, s, j, s.log.wire[j].upTo, disk);
  }

  // ----- The SSH writer: what reaches the target, as bytes -------------------------------------

  function SentOf(m: Msg): Sent {
    Sent(m.payload.msgId, m.payload.w, m.code.comp, m.code.bytes)
  }

  function SshConfig(inflate: Inflate, path: Path, encoderCount: nat): Config {
    Config(Ssh, encoderCount, (p, code) => Framed(inflate, path, SentOf(Msg(p, code))))
  }

  function EventBytes(e: Event): seq<byte> {
    match e
    case Data(m) => m.code.bytes
    case Eod(id) => (match EncodeEod(id) case Some(b) => b case None => [])
    case _ => []
  }

  /** Everything the SSH writer put on the helper's standard input. */
  function WireBytes(wire: seq<Event>): seq<byte> {
    if wire == [] then [] else EventBytes(wire[0]) + WireBytes(wire[1..])
  }

  predicate HasEod(wire: seq<Event>) { exists e <- wire :: e.Eod? }

  predicate NoChecksum(pc: Pc) {
    match pc
    case ReadEnc(g) => g.ForClose?
    case ReadSend(g) => g.ForClose?
    case ReadExc(g) => g.ForClose?
    case Drained(g) => g.ForClose?
    case _ => true
  }

  /** The SSH wire carries only data and, past the exception check, the current message id as
      end-of-data; a connected writer that has closed has sent it. */
  predicate SshShape(s: State) {
    && NoChecksum(s.caller.pc)
    && (forall e <- s.log.wire :: e.Data? || (e == Eod(s.caller.msgId) && PastCheck(s.caller.pc)))
    && (s.caller.pc.Closed? && s.caller.connected ==> HasEod(s.log.wire))
  }

  lemma SshShapeControl(cfg: Config, s: State, c: Control)
    requires cfg.mode.Ssh? && ControlEnabled(cfg, s, c) && SshShape(s)
    ensures SshShape(DoControl(cfg, s, c))
  {
    if c.FinishOk? {
      assert Eod(s.caller.msgId) in DoControl(cfg, s, c).log.wire;
    }
  }

  lemma SshShapeStep(cfg: Config, s: State, step: Step)
    requires cfg.mode.Ssh? && Enabled(cfg, s, step) && SshShape(s)
    ensures SshShape(Do(cfg, s, step))
  {
    var t := Do(cfg, s, step);
    match step {
      case ByCaller(c) => SshShapeControl(cfg, s, c);
      case _ =>
        assert s.log.wire <= t.log.wire;
        if HasEod(s.log.wire) {
          var e :| e in s.log.wire && e.Eod?;
          assert e in t.log.wire;
        }
    }
  }

  lemma {:induction false} SshShapeOverRun(cfg: Config, run: seq<Step>)
    requires cfg.mode.Ssh?
    ensures var t := Exec(cfg, Init(cfg), run); t.Some? ==> SshShape(t.value)
    decreases |run|
  {
    if run != [] {
      SshShapeOverRun(cfg, run[..|run| - 1]);
      var t := Exec(cfg, Init(cfg), run[..|run| - 1]);
      if t.Some? && Enabled(cfg, t.value, run[|run| - 1]) {
        SshShapeStep(cfg, t.value, run[|run| - 1]);
      }
    }
  }

  /** The wire up to the first end-of-data, as messages. */
  function BeforeEod(wire: seq<Event>): (k: nat)
    requires HasEod(wire)
    ensures k < |wire| && wire[k].Eod? && forall i | 0 <= i < k :: !wire[i].Eod?
  {
    if wire[0].Eod? then 0
    else
      assert forall e :: e in wire ==> e == wire[0] || e in wire[1..];
      1 + BeforeEod(wire[1..])
  }

  function SentAmong(ms: seq<Msg>): (sent: seq<Sent>)
    ensures |sent| == |ms| && forall i | 0 <= i < |ms| :: sent[i] == SentOf(ms[i])
  {
    seq(|ms|, i requires 0 <= i < |ms| => SentOf(ms[i]))
  }

  lemma {:induction false} WireBytesAppend(xs: seq<Event>, ys: seq<Event>)
    ensures WireBytes(xs + ys) == WireBytes(xs) + WireBytes(ys)
    decreases |xs|
  {
    if xs == [] {
      assert xs + ys == ys;
    } else {
      assert (xs + ys)[1..] == xs[1..] + ys;
      WireBytesAppend(xs[1..], ys);
    }
  }

  lemma {:induction false} BytestreamAppend(xs: seq<Sent>, m: Sent)
    ensures Bytestream(xs + [m]) == Bytestream(xs) + m.frame
    decreases |xs|
  {
    if xs == [] {
      assert xs + [m] == [m];
    } else {
      assert (xs + [m])[1..] == xs[1..] + [m];
      BytestreamAppend(xs[1..], m);
    }
  }

  /** A stretch of data events is, byte for byte, the stream of its messages. */
  lemma {:induction false} DataBytes(wire: seq<Event>)
    requires forall e <- wire :: e.Data?
    ensures WireBytes(wire) == Bytestream(SentAmong(Arrived(wire)))
    ensures |Arrived(wire)| == |wire|
    decreases |wire|
  {
    if wire != [] {
      var rest, last := wire[..|wire| - 1], wire[|wire| - 1];
      assert last in wire;
      assert wire == rest + [last];
      DataBytes(rest);
      LastDataBytes(rest, last.m);
    }
  }

  lemma LastDataBytes(rest: seq<Event>, m: Msg)
    ensures WireBytes(rest + [Data(m)]) == WireBytes(rest) + m.code.bytes
    ensures Bytestream(SentAmong(Arrived(rest + [Data(m)]))) == Bytestream(SentAmong(Arrived(rest))) + m.code.bytes
    ensures |Arrived(rest + [Data(m)])| == |Arrived(rest)| + 1
  {
    OneEventBytes(m);
    WireBytesAppend(rest, [Data(m)]);
    ArrivedAppend(rest, Data(m));
    SentAmongAppend(Arrived(rest), m);
    BytestreamAppend(SentAmong(Arrived(rest)), SentOf(m));
  }

  lemma OneEventBytes(m: Msg)
    ensures WireBytes([Data(m)]) == m.code.bytes
  {
    assert [Data(m)][1..] == [];
  }

  lemma SentAmongAppend(ms: seq<Msg>, m: Msg)
    ensures SentAmong(ms + [m]) == SentAmong(ms) + [SentOf(m)]
  {
  }

  lemma SshFacts(cfg: Config, s: State)
    requires cfg.mode.Ssh? && Reachable(cfg, s)
    ensures SshShape(s)
  {
    var run :| Exec(cfg, Init(cfg), run) == Some(s);
    SshShapeOverRun(cfg, run);
  }

  /** What the device and the calls have to satisfy: the path can be named in a message, every
      message fits, every write is inside the device, and the order of arrival cannot matter. */
  ghost predicate Acceptable(path: Path, encoderCount: nat, calls: seq<Call>, size: nat) {
    && NulFree(path) && size < LONG_LIMIT
    && |WritesOf(calls)| < U32_LIMIT
    && AllInBounds(WritesOf(calls), size) && OrderSafe(encoderCount, WritesOf(calls))
    && forall w <- WritesOf(calls) :: |path| + 9 + |w.data| <= MAX_MSG_SIZE
  }

  /** Every data event of a run can be stored by the receiver. */
  lemma EventsAreDeliverable(inflate: Inflate, path: Path, n: nat, s: State, k: nat, size: nat)
    requires Reachable(SshConfig(inflate, path, n), s) && k <= |s.log.wire|
    requires Acceptable(path, n, s.log.calls, size)
    ensures Deliverable(inflate, path, SentAmong(Arrived(s.log.wire[..k])), size)
  {
    var cfg := SshConfig(inflate, path, n);
    ReachableInv(cfg, s);
    var ms := Arrived(s.log.wire[..k]);
    var sent := SentAmong(ms);
    forall m | m in sent ensures Framed(inflate, path, m) && Storable(path, m, size) {
      var i :| 0 <= i < |sent| && sent[i] == m;
      assert ms[i] in ms;
      ArrivedIff(s.log.wire[..k], ms[i]);
      assert Data(ms[i]) in s.log.wire;
      assert Genuine(cfg, s.log.accepted, ms[i]);
      assert cfg.encodes(ms[i].payload, ms[i].code);
      var a :| 0 <= a < |s.log.accepted| && s.log.accepted[a] == ms[i].payload;
      assert WritesOf(s.log.calls)[a] == m.w;
      assert m.w in WritesOf(s.log.calls);
    }
  }

  /** All data events lie before every end marker. */
  lemma DataIsBeforeEnd(cfg: Config, s: State, k: nat)
    requires Reachable(cfg, s) && s.caller.pc.Closed?
    requires k < |s.log.wire| && (s.log.wire[k].Eod? || s.log.wire[k] == Release(true))
    ensures forall p :: p in s.log.accepted <==> OnWire(s.log.wire[..k], p)
  {
    CloseIsSafe(cfg, s);
    forall p | OnWire(s.log.wire, p) ensures OnWire(s.log.wire[..k], p) {
      var e :| e in s.log.wire && e.Data? && e.m.payload == p;
      var i :| 0 <= i < |s.log.wire| && s.log.wire[i] == e;
      if i > k {
        NothingAfterEnd(cfg, s, k, i);
      }
      assert s.log.wire[..k][i] == e;
    }
    forall p | OnWire(s.log.wire[..k], p) ensures OnWire(s.log.wire, p) {
      OnWireMonotone(s.log.wire[..k], s.log.wire, p);
    }
  }

  lemma WireAt(wire: seq<Event>, k: nat)
    requires k < |wire|
    ensures WireBytes(wire) == WireBytes(wire[..k]) + (EventBytes(wire[k]) + WireBytes(wire[k + 1..]))
  {
    var tail := wire[k..];
    assert wire == wire[..k] + tail;
    WireBytesAppend(wire[..k], tail);
    assert tail[0] == wire[k] && tail[1..] == wire[k + 1..];
  }

  lemma OnlyDataBefore(s: State, k: nat)
    requires SshShape(s) && HasEod(s.log.wire) && k == BeforeEod(s.log.wire)
    ensures forall e <- s.log.wire[..k] :: e.Data?
    ensures s.log.wire[k] == Eod(s.caller.msgId)
  {
    var wire := s.log.wire;
    assert wire[k] in wire;
    forall e | e in wire[..k] ensures e.Data? {
      var i :| 0 <= i < k && wire[i] == e;
      assert wire[i] in wire;
    }
  }

  /** The bytes on a closed SSH wire: the messages up to the first end-of-data, then that. */
  lemma WireSplits(s: State, k: nat)
    requires SshShape(s) && s.caller.msgId < U32_LIMIT
    requires HasEod(s.log.wire) && k == BeforeEod(s.log.wire)
    ensures WireBytes(s.log.wire) ==
              Bytestream(SentAmong(Arrived(s.log.wire[..k]))) +
                (EncodeEod(s.caller.msgId).value + WireBytes(s.log.wire[k + 1..]))
  {
    WireAt(s.log.wire, k);
    OnlyDataBefore(s, k);
    DataBytes(s.log.wire[..k]);
  }

  /** The messages on an SSH wire up to the first end-of-data. */
  function MessagesOn(wire: seq<Event>): seq<Sent> {
    SentAmong(Arrived(if HasEod(wire) then wire[..BeforeEod(wire)] else wire))
  }

  function Start(wire: seq<Event>, files: Files): Rx { Rx(WireBytes(wire), 0, files, []) }

  /** A connected SSH writer that has closed, and what its calls have to satisfy. */
  ghost predicate ClosedOver(inflate: Inflate, path: Path, n: nat, s: State, files: Files) {
    && Reachable(SshConfig(inflate, path, n), s) && s.caller.pc.Closed? && s.caller.connected
    && path in files && Acceptable(path, n, s.log.calls, |files[path]|)
  }

  lemma SshReceived(host: Host, path: Path, n: nat, s: State, files: Files)
    requires ClosedOver(host.inflate, path, n, s, files)
    ensures
      var sent, rx := MessagesOn(s.log.wire), Start(s.log.wire, files);
      var (e, rx') := Receive(host, rx);
      StoredUpTo(host, path, sent, FirstHit(path, sent, host.faults, 0), s.caller.msgId, rx, e, rx')
  {
    var cfg := SshConfig(host.inflate, path, n);
    ReachableInv(cfg, s);
    SshFacts(cfg, s);
    var k, sent, rx := BeforeEod(s.log.wire), MessagesOn(s.log.wire), Start(s.log.wire, files);
    WireSplits(s, k);
    NextAtStart(rx, Bytestream(sent), EncodeEod(s.caller.msgId).value, WireBytes(s.log.wire[k + 1..]));
    EventsAreDeliverable(host.inflate, path, n, s, k, |files[path]|);
    ReceiveUnderFaults(host, path, sent, s.caller.msgId, rx);
  }

  /** All messages of a closed writer together are the plain file writer's disk and every accepted id. */
  lemma SshComplete(inflate: Inflate, path: Path, n: nat, s: State, files: Files)
    requires ClosedOver(inflate, path, n, s, files)
    ensures var sent := MessagesOn(s.log.wire);
      && AllInBounds(WritesIn(sent), |files[path]|)
      && ApplyAll(files[path], WritesIn(sent)) == ApplyAll(files[path], WritesOf(s.log.calls))
      && forall p <- s.log.accepted :: p.msgId in Ids(sent)
  {
    var cfg := SshConfig(inflate, path, n);
    ReachableInv(cfg, s);
    SshFacts(cfg, s);
    var k, sent := BeforeEod(s.log.wire), MessagesOn(s.log.wire);
    DataIsBeforeEnd(cfg, s, k);
    SameDiskAfterAll(cfg, s, k, files[path]);
    assert WritesIn(sent) == WritesAmong(Arrived(s.log.wire[..k]));
    forall p | p in s.log.accepted ensures p.msgId in Ids(sent) {
      IdIsEchoed(s.log.wire[..k], p);
    }
  }

  /** End to end, in every interleaving of the SSH writer's threads and whatever the receiver's host refuses:
      after a clean close of a connected writer, the receiver that reads the bytes sent to it has stored and
      echoed the messages up to the first that was refused something. If it exits with ERR_DONE it has echoed
      every accepted message and left on the device what the plain file writer leaves when it runs the same
      calls in order, with no other file changed; and so it does if nothing is refused. */
  lemma SshEndToEnd(host: Host, path: Path, n: nat, s: State, files: Files)
    requires ClosedOver(host.inflate, path, n, s, files)
    ensures
      var sent, rx := MessagesOn(s.log.wire), Start(s.log.wire, files);
      var (e, rx') := Receive(host, rx);
      && StoredUpTo(host, path, sent, FirstHit(path, sent, host.faults, 0), s.caller.msgId, rx, e, rx')
      && ((forall i: nat :: host.faults(i).NoFault?) ==> e == Exit.Code(ERR_DONE))
      && (e == Exit.Code(ERR_DONE) ==>
            && rx'.files == files[path := ApplyAll(files[path], WritesOf(s.log.calls))]
            && forall p <- s.log.accepted :: p.msgId in rx'.acks)
  {
    var sent, rx := MessagesOn(s.log.wire), Start(s.log.wire, files);
    var (e, rx') := Receive(host, rx);
    SshReceived(host, path, n, s, files);
    SshComplete(host.inflate, path, n, s, files);
    if forall i: nat :: host.faults(i).NoFault? {
      NothingHit(path, sent, host.faults, 0);
    }
    DoneMeansAll(host, path, sent, s.caller.msgId, rx, e, rx');
  }

  lemma DoneMeansAll(host: Host, path: Path, sent: seq<Sent>, eod: nat, rx: Rx, e: Exit, rx': Rx)
    requires path in rx.files && AllInBounds(WritesIn(sent), |rx.files[path]|) && rx.acks == []
    requires StoredUpTo(host, path, sent, FirstHit(path, sent, host.faults, 0), eod, rx, e, rx')
    ensures FirstHit(path, sent, host.faults, 0) == |sent| && !host.faults(|sent|).EchoFails? ==>
              e == Exit.Code(ERR_DONE)
    ensures e == Exit.Code(ERR_DONE) ==>
              && rx'.files == rx.files[path := ApplyAll(rx.files[path], WritesIn(sent))]
              && forall id <- Ids(sent) :: id in rx'.acks
  {
    assert sent[..|sent|] == sent;
  }

  lemma NextAtStart(rx: Rx, a: seq<byte>, b: seq<byte>, rest: seq<byte>)
    requires rx.pos == 0 && rx.input == a + (b + rest)
    ensures Next(rx, a + b)
  {
    assert rx.input == (a + b) + rest;
  }

  lemma IdIsEchoed(wire: seq<Event>, p: Payload)
    requires OnWire(wire, p)
    ensures p.msgId in Ids(SentAmong(Arrived(wire)))
  {
    var e :| e in wire && e.Data? && e.m.payload == p;
    var ms := Arrived(wire);
    ArrivedIff(wire, e.m);
    var i :| 0 <= i < |ms| && ms[i] == e.m;
    assert Ids(SentAmong(ms))[i] == p.msgId;
  }
}
