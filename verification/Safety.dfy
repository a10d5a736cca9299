/** What every interleaving of the writer pipeline keeps, and what that means for close(). */
module Safety {
  import opened Wrappers
  import opened Disk
  import opened Pipeline
  import opened Stages

  // ----- Conservation of accepted payloads ----------------------------------------------

  predicate Counts(s: State) { EncCounts(s.enc) && SndCounts(s.snd) }

  predicate ConservedFor(s: State, p: Payload) {
    multiset(s.log.accepted)[p] == EncHolds(s.enc, p) + SndHolds(s.snd, p) + s.log.done[p] + s.log.lost[p]
  }

  /** Every accepted payload is in exactly one place, and a payload is lost only with the
      exception already recorded. */
  ghost predicate Conserved(s: State) {
    && (forall p :: ConservedFor(s, p))
    && (s.log.lost != multiset{} ==> s.exception)
  }

  lemma EncConserves(cfg: Config, s: State, i: nat, e: EncStep, p: Payload)
    requires EncEnabled(cfg, s, i, e) && Counts(s) && ConservedFor(s, p)
    ensures Counts(DoEnc(cfg, s, i, e)) && ConservedFor(DoEnc(cfg, s, i, e), p)
  {
    var t := s.enc.threads[i];
    match e {
      case EncLoop => EncMoveEffect(s.enc, i, EIdle, p);
      case EncPoll => EncMoveEffect(s.enc, i, ETest, p);
      case EncGet => EncTakeEffect(s.enc, i, p);
      case EncEncode(code) => EncMoveEffect(s.enc, i, EPut(Msg(t.p, code)), p);
      case EncPut =>
        EncMoveEffect(s.enc, i, EDone, p);
        SndPushEffect(s.snd, t.m, p);
      case EncTaskDone => EncFinishEffect(s.enc, i, ETest, p);
      case EncFail => EncMoveEffect(s.enc, i, EFail, p);
      case EncDie => EncFinishEffect(s.enc, i, EExit, p);
      case EncExit => EncMoveEffect(s.enc, i, EExit, p);
    }
  }

  lemma SndConserves(s: State, e: SndStep, p: Payload)
    requires SndEnabled(s, e) && Counts(s) && ConservedFor(s, p)
    ensures Counts(DoSnd(s, e)) && ConservedFor(DoSnd(s, e), p)
  {
    if e.SndGet? {
      SndTakeEffect(s.snd, p);
    }
  }

  lemma StepConserves(cfg: Config, s: State, step: Step, p: Payload)
    requires Enabled(cfg, s, step) && Counts(s) && ConservedFor(s, p)
    ensures Counts(Do(cfg, s, step)) && ConservedFor(Do(cfg, s, step), p)
  {
    match step {
      case SeekCall(_) =>
      case PutStep =>
        EncPushEffect(s.enc, Payload(s.caller.msgId, Write(s.caller.offset, s.caller.pc.data)), p);
      case ByCaller(_) =>
      case ByEncoder(i, e) => EncConserves(cfg, s, i, e, p);
      case BySender(e) => SndConserves(s, e, p);
    }
  }

  lemma ConservedStep(cfg: Config, s: State, step: Step)
    requires Enabled(cfg, s, step) && Counts(s) && Conserved(s)
    ensures Counts(Do(cfg, s, step)) && Conserved(Do(cfg, s, step))
  {
    var any := Payload(0, Write(0, []));
    StepConserves(cfg, s, step, any);
    forall p ensures ConservedFor(Do(cfg, s, step), p) {
      StepConserves(cfg, s, step, p);
    }
  }

  // ----- What the calling thread knows ------------------------------------------------------

  predicate AllDone(s: State) { s.enc.unfinished == 0 && s.snd.unfinished == 0 }

  predicate CallerKnows(s: State) {
    match s.caller.pc
    case ReadSend(_) => s.enc.unfinished == 0
    case Drained(_) => s.exception || AllDone(s)
    case Stopping => s.exception || AllDone(s)
    case Finishing(_) => !s.exception && AllDone(s)
    case Closed => !s.exception && AllDone(s)
    case _ => true
  }

  /** With nothing unfinished in the encoder stage, its threads change nothing but themselves. */
  lemma EncQuiet(cfg: Config, s: State, i: nat, e: EncStep)
    requires EncEnabled(cfg, s, i, e) && Counts(s) && s.enc.unfinished == 0
    ensures e.EncLoop? || e.EncPoll? || e.EncExit?
  {
    ReplaceEncoder(s.enc.threads, i, EIdle, Payload(0, Write(0, [])));
  }

  lemma CallerKnowsStep(cfg: Config, s: State, step: Step)
    requires Enabled(cfg, s, step) && Counts(s) && CallerKnows(s)
    ensures CallerKnows(Do(cfg, s, step))
  {
    match step {
      case ByEncoder(i, e) =>
        if s.enc.unfinished == 0 { EncQuiet(cfg, s, i, e); }
      case _ =>
    }
  }

  predicate IsEnd(e: Event) { e.Eod? || e == Release(true) }

  predicate PastCheck(pc: Pc) { pc.Finishing? || pc.Closed? || pc.Raised? }

  /** Once an end marker is out, nothing is left to send and nobody can write again. */
  predicate EndMeansDone(s: State) {
    forall e <- s.log.wire :: IsEnd(e) ==> AllDone(s) && PastCheck(s.caller.pc)
  }

  lemma EndControl(cfg: Config, s: State, c: Control)
    requires ControlEnabled(cfg, s, c) && CallerKnows(s) && EndMeansDone(s)
    ensures EndMeansDone(DoControl(cfg, s, c))
  {
  }

  lemma EndEnc(cfg: Config, s: State, i: nat, e: EncStep)
    requires EncEnabled(cfg, s, i, e) && Counts(s) && EndMeansDone(s)
    ensures EndMeansDone(DoEnc(cfg, s, i, e))
  {
    if s.enc.unfinished == 0 { EncQuiet(cfg, s, i, e); }
  }

  lemma EndStep(cfg: Config, s: State, step: Step)
    requires Enabled(cfg, s, step) && Counts(s) && CallerKnows(s) && EndMeansDone(s)
    ensures EndMeansDone(Do(cfg, s, step))
  {
    match step {
      case ByCaller(c) => EndControl(cfg, s, c);
      case ByEncoder(i, e) => EndEnc(cfg, s, i, e);
      case _ =>
    }
  }

  /** Nothing data-bearing follows an end marker. */
  predicate NoDataAfterEnd(wire: seq<Event>) {
    forall i, j :: 0 <= i < j < |wire| && IsEnd(wire[i]) ==> !wire[j].Data?
  }

  lemma NoDataStep(cfg: Config, s: State, step: Step)
    requires Enabled(cfg, s, step) && Counts(s) && EndMeansDone(s) && NoDataAfterEnd(s.log.wire)
    ensures NoDataAfterEnd(Do(cfg, s, step).log.wire)
  {
  }

  // ----- The history of calls ---------------------------------------------------------------

  /** The accepted payloads are the writes the calls asked for, numbered from zero. */
  predicate Recorded(caller: Caller, calls: seq<Call>, accepted: seq<Payload>) {
    && caller.offset == PosAfter(calls)
    && caller.msgId == |accepted| == |WritesOf(calls)|
    && forall i | 0 <= i < |accepted| :: accepted[i] == Payload(i, WritesOf(calls)[i])
  }

  lemma RecordedStep(cfg: Config, s: State, step: Step)
    requires Enabled(cfg, s, step) && Recorded(s.caller, s.log.calls, s.log.accepted)
    ensures var t := Do(cfg, s, step); Recorded(t.caller, t.log.calls, t.log.accepted)
  {
    match step {
      case SeekCall(pos) =>
        assert (s.log.calls + [Seek(pos)])[..|s.log.calls|] == s.log.calls;
      case PutStep =>
        assert (s.log.calls + [Put(s.caller.pc.data)])[..|s.log.calls|] == s.log.calls;
      case _ =>
    }
  }

  // ----- The history of the wire ----------------------------------------------------------------

  /** The message is the encoding of an accepted payload. */
  predicate Genuine(cfg: Config, accepted: seq<Payload>, m: Msg) {
    m.payload in accepted && cfg.encodes(m.payload, m.code)
  }

  predicate EncGenuine(cfg: Config, accepted: seq<Payload>, enc: EncStage) {
    && (forall p <- enc.q :: p in accepted)
    && (forall e <- enc.threads :: e.EHold? ==> e.p in accepted)
    && (forall e <- enc.threads :: e.EPut? ==> Genuine(cfg, accepted, e.m))
  }

  predicate SndGenuine(cfg: Config, accepted: seq<Payload>, snd: SndStage) {
    && (forall m <- snd.q :: Genuine(cfg, accepted, m))
    && (snd.thread.SHold? ==> Genuine(cfg, accepted, snd.thread.m))
  }

  predicate WireGenuine(cfg: Config, accepted: seq<Payload>, wire: seq<Event>) {
    forall e <- wire :: e.Data? ==> Genuine(cfg, accepted, e.m)
  }

  predicate AllGenuine(cfg: Config, s: State) {
    && EncGenuine(cfg, s.log.accepted, s.enc)
    && SndGenuine(cfg, s.log.accepted, s.snd)
    && WireGenuine(cfg, s.log.accepted, s.log.wire)
  }

  lemma GenuineEnc(cfg: Config, s: State, i: nat, e: EncStep)
    requires EncEnabled(cfg, s, i, e) && AllGenuine(cfg, s)
    ensures AllGenuine(cfg, DoEnc(cfg, s, i, e))
  {
    var accepted, t := s.log.accepted, s.enc.threads[i];
    assert t in s.enc.threads;
    var after := DoEnc(cfg, s, i, e);
    forall u | u in after.enc.threads
      ensures u.EHold? ==> u.p in accepted
      ensures u.EPut? ==> Genuine(cfg, accepted, u.m)
    {
      if u !in s.enc.threads && e.EncGet? { assert s.enc.q[0] in s.enc.q; }
    }
  }

  lemma GenuineSnd(cfg: Config, s: State, e: SndStep)
    requires SndEnabled(s, e) && AllGenuine(cfg, s)
    ensures AllGenuine(cfg, DoSnd(s, e))
  {
    if e.SndGet? { assert s.snd.q[0] in s.snd.q; }
  }

  /** Accepting one more payload keeps everything genuine. */
  lemma GenuinePut(cfg: Config, s: State)
    requires PutEnabled(s) && AllGenuine(cfg, s)
    ensures AllGenuine(cfg, DoPut(s))
  {
  }

  lemma GenuineStep(cfg: Config, s: State, step: Step)
    requires Enabled(cfg, s, step) && AllGenuine(cfg, s)
    ensures AllGenuine(cfg, Do(cfg, s, step))
  {
    match step {
      case SeekCall(_) =>
      case PutStep => GenuinePut(cfg, s);
      case ByCaller(_) =>
      case ByEncoder(i, e) => GenuineEnc(cfg, s, i, e);
      case BySender(e) => GenuineSnd(cfg, s, e);
    }
  }

  predicate OnWire(wire: seq<Event>, p: Payload) {
    exists e <- wire :: e.Data? && e.m.payload == p
  }

  lemma OnWireMonotone(wire: seq<Event>, more: seq<Event>, p: Payload)
    requires wire <= more && OnWire(wire, p)
    ensures OnWire(more, p)
  {
    var e :| e in wire && e.Data? && e.m.payload == p;
    assert e in more;
  }

  /** Nothing is ever taken back from the wire or from the accepted writes. */
  lemma LogGrows(cfg: Config, s: State, step: Step)
    requires Enabled(cfg, s, step)
    ensures s.log.wire <= Do(cfg, s, step).log.wire
    ensures s.log.accepted <= Do(cfg, s, step).log.accepted
  {
  }

  predicate DoneIsOnWire(log: Log) {
    forall p <- log.done :: OnWire(log.wire, p)
  }

  lemma DoneStep(cfg: Config, s: State, step: Step)
    requires Enabled(cfg, s, step) && DoneIsOnWire(s.log)
    ensures DoneIsOnWire(Do(cfg, s, step).log)
  {
    var t := Do(cfg, s, step);
    LogGrows(cfg, s, step);
    forall p | p in t.log.done ensures OnWire(t.log.wire, p) {
      if p in s.log.done {
        OnWireMonotone(s.log.wire, t.log.wire, p);
      } else {
        assert step == BySender(SndAck);
        assert Data(s.snd.thread.m) in t.log.wire;
      }
    }
  }

  /** With both counters at zero and no exception, everything accepted has been sent. */
  lemma AllDoneIsSent(s: State)
    requires Counts(s) && Conserved(s) && DoneIsOnWire(s.log)
    requires AllDone(s) && !s.exception
    ensures s.log.done == multiset(s.log.accepted)
    ensures forall p <- s.log.accepted :: OnWire(s.log.wire, p)
  {
    forall p ensures s.log.done[p] == multiset(s.log.accepted)[p] {
      IdleCarriesNothing(s.enc.threads, p);
      assert ConservedFor(s, p);
    }
    forall p | p in s.log.accepted ensures OnWire(s.log.wire, p) {
      assert p in multiset(s.log.accepted);
    }
  }

  /** The data sent before position `j` is exactly the first `n` accepted writes. */
  predicate SentExactly(log: Log, j: nat, n: nat)
    requires j <= |log.wire|
  {
    && n <= |log.accepted|
    && (forall p <- log.accepted[..n] :: OnWire(log.wire[..j], p))
    && (forall e <- log.wire[..j] :: e.Data? ==> e.m.payload in log.accepted[..n])
  }

  predicate JobsSeeAll(log: Log) {
    forall j | 0 <= j < |log.wire| && log.wire[j].Checksum? :: SentExactly(log, j, log.wire[j].upTo)
  }

  lemma SentExactlyStays(log: Log, log': Log, j: nat, n: nat)
    requires log.wire <= log'.wire && log.accepted <= log'.accepted
    requires j <= |log.wire| && SentExactly(log, j, n)
    ensures SentExactly(log', j, n)
  {
    assert log'.wire[..j] == log.wire[..j];
    assert log'.accepted[..n] == log.accepted[..n];
  }

  /** A checksum job is created by the caller's own step only, and it records the writes accepted so far. */
  lemma ChecksumComesFromCaller(cfg: Config, s: State, step: Step)
    requires Enabled(cfg, s, step)
    ensures step == ByCaller(StartChecksum) ==> Do(cfg, s, step).log == Emit(s.log, true, Checksum(|s.log.accepted|))
    ensures step != ByCaller(StartChecksum) ==>
              forall j | |s.log.wire| <= j < |Do(cfg, s, step).log.wire| :: !Do(cfg, s, step).log.wire[j].Checksum?
  {
  }

  lemma NewJobSeesAll(s: State)
    requires Counts(s) && Conserved(s) && DoneIsOnWire(s.log) && AllDone(s) && !s.exception
    requires forall e <- s.log.wire :: e.Data? ==> e.m.payload in s.log.accepted
    ensures SentExactly(s.log, |s.log.wire|, |s.log.accepted|)
  {
    AllDoneIsSent(s);
    assert s.log.wire[..|s.log.wire|] == s.log.wire && s.log.accepted[..|s.log.accepted|] == s.log.accepted;
  }

  lemma JobsStep(cfg: Config, s: State, step: Step)
    requires Enabled(cfg, s, step) && Counts(s) && Conserved(s) && CallerKnows(s)
    requires DoneIsOnWire(s.log) && WireGenuine(cfg, s.log.accepted, s.log.wire) && JobsSeeAll(s.log)
    ensures JobsSeeAll(Do(cfg, s, step).log)
  {
    var log, log' := s.log, Do(cfg, s, step).log;
    LogGrows(cfg, s, step);
    ChecksumComesFromCaller(cfg, s, step);
    if step == ByCaller(StartChecksum) {
      NewJobSeesAll(s);
    }
    forall j | 0 <= j < |log'.wire| && log'.wire[j].Checksum? ensures SentExactly(log', j, log'.wire[j].upTo) {
      SentExactlyStays(log, log', j, log'.wire[j].upTo);
    }
  }

  // ----- The invariant over every run -----------------------------------------------------------------

  ghost predicate Inv(cfg: Config, s: State) {
    && Counts(s) && Conserved(s) && CallerKnows(s)
    && EndMeansDone(s) && NoDataAfterEnd(s.log.wire)
    && Recorded(s.caller, s.log.calls, s.log.accepted)
    && AllGenuine(cfg, s) && DoneIsOnWire(s.log) && JobsSeeAll(s.log)
  }

  lemma InitInv(cfg: Config)
    ensures Inv(cfg, Init(cfg))
  {
    var s := Init(cfg);
    NoneBusy(s.enc.threads, Payload(0, Write(0, [])));
    forall p ensures ConservedFor(s, p) {
      NoneBusy(s.enc.threads, p);
    }
  }

  lemma InvStep(cfg: Config, s: State, step: Step)
    requires Enabled(cfg, s, step) && Inv(cfg, s)
    ensures Inv(cfg, Do(cfg, s, step))
  {
    ConservedStep(cfg, s, step);
    CallerKnowsStep(cfg, s, step);
    EndStep(cfg, s, step);
    NoDataStep(cfg, s, step);
    RecordedStep(cfg, s, step);
    GenuineStep(cfg, s, step);
    DoneStep(cfg, s, step);
    JobsStep(cfg, s, step);
  }

  lemma {:induction false} InvOverRun(cfg: Config, s: State, run: seq<Step>)
    requires Inv(cfg, s)
    ensures var t := Exec(cfg, s, run); t.Some? ==> Inv(cfg, t.value)
    decreases |run|
  {
    if run != [] {
      InvOverRun(cfg, s, run[..|run| - 1]);
      var t := Exec(cfg, s, run[..|run| - 1]);
      if t.Some? && Enabled(cfg, t.value, run[|run| - 1]) {
        InvStep(cfg, t.value, run[|run| - 1]);
      }
    }
  }

  /** The invariant holds in every state of every interleaving. */
  lemma ReachableInv(cfg: Config, s: State)
    requires Reachable(cfg, s)
    ensures Inv(cfg, s)
  {
    var run :| Exec(cfg, Init(cfg), run) == Some(s);
    InitInv(cfg);
    InvOverRun(cfg, Init(cfg), run);
  }

  // ----- What close() and the checksum job may rely on --------------------------------------------------

  /** In every interleaving: once close() is past its exception check, every payload that
      write() accepted has been sent and acknowledged, each as often as it was accepted; the
      data on the wire is those payloads and no others; and both queues are empty. */
  lemma CloseIsSafe(cfg: Config, s: State)
    requires Reachable(cfg, s)
    requires s.caller.pc.Finishing? || s.caller.pc.Closed?
    ensures s.log.done == multiset(s.log.accepted) && s.log.lost == multiset{}
    ensures s.enc.q == [] && s.snd.q == []
    ensures forall p :: p in s.log.accepted <==> OnWire(s.log.wire, p)
  {
    ReachableInv(cfg, s);
    AllDoneIsSent(s);
  }

  /** In every interleaving, no data message follows end-of-data or the release of a clean close. */
  lemma NothingAfterEnd(cfg: Config, s: State, i: nat, j: nat)
    requires Reachable(cfg, s)
    requires i < j < |s.log.wire| && IsEnd(s.log.wire[i])
    ensures !s.log.wire[j].Data?
  {
    ReachableInv(cfg, s);
  }

  /** In every interleaving, a checksum job is created only when the data that has reached the
      target is exactly what the writes made before it asked for. */
  lemma ChecksumSeesEveryWrite(cfg: Config, s: State, j: nat)
    requires Reachable(cfg, s)
    requires j < |s.log.wire| && s.log.wire[j].Checksum?
    ensures s.log.wire[j].upTo <= |s.log.accepted|
    ensures forall p :: p in s.log.accepted[..s.log.wire[j].upTo] <==> OnWire(s.log.wire[..j], p)
  {
    ReachableInv(cfg, s);
    assert SentExactly(s.log, j, s.log.wire[j].upTo);
  }
}
