/** What a failure of one thread means for the others: when a blocked write() can still return, and when
    data can still follow the release after an error. */
module Failures {
  import opened Wrappers
  import opened Disk
  import opened Pipeline
  import opened Safety
  import opened Progress
  import opened Order
  import opened Witness

  // ----- When a write() waiting on a full queue can still return ----------------------------------------

  predicate EncoderDead(e: Encoder) { e.EFail? || e.EExit? }

  predicate SenderDead(e: Sender) { e.SFail? || e.SExit? }

  /** The encoder will take from the queue before it has to put anything. */
  predicate WillTake(e: Encoder) { e.ETest? || e.EIdle? || e.EDone? }

  /** The queue is full, no encoder is about to take from it, and none ever will: they are all dead, or
      the sender is dead with its own queue full. */
  predicate Stuck(s: State) {
    && s.caller.pc.Writing? && |s.enc.q| >= QUEUE_LIMIT
    && (forall e <- s.enc.threads :: !WillTake(e))
    && ((forall e <- s.enc.threads :: EncoderDead(e)) || (SenderDead(s.snd.thread) && |s.snd.q| >= QUEUE_LIMIT))
  }

  lemma StuckStep(cfg: Config, s: State, step: Step)
    requires Stuck(s) && Enabled(cfg, s, step)
    ensures Stuck(Do(cfg, s, step))
  {
    if step.ByEncoder? {
      assert s.enc.threads[step.i] in s.enc.threads;
    }
  }

  /** Nothing that any thread can still do lets the blocked write() return. */
  lemma {:induction false} StuckIsForever(cfg: Config, s: State, run: seq<Step>)
    requires Stuck(s)
    ensures var t := Exec(cfg, s, run); t.Some? ==> Stuck(t.value)
    decreases |run|
  {
    if run != [] {
      StuckIsForever(cfg, s, run[..|run| - 1]);
      var t := Exec(cfg, s, run[..|run| - 1]);
      if t.Some? && Enabled(cfg, t.value, run[|run| - 1]) {
        StuckStep(cfg, t.value, run[|run| - 1]);
      }
    }
  }

  /** Some continuation lets the put of write() succeed. */
  ghost predicate CanReturn(cfg: Config, s: State) {
    exists run :: Exec(cfg, s, run).Some? && PutEnabled(Exec(cfg, s, run).value)
  }

  lemma ReturnNow(cfg: Config, s: State)
    requires PutEnabled(s)
    ensures CanReturn(cfg, s)
  {
    assert Exec(cfg, s, []) == Some(s);
  }

  lemma ReturnAfter(cfg: Config, s: State, step: Step)
    requires Enabled(cfg, s, step) && CanReturn(cfg, Do(cfg, s, step))
    ensures CanReturn(cfg, s)
  {
    var t := Do(cfg, s, step);
    var run :| Exec(cfg, t, run).Some? && PutEnabled(Exec(cfg, t, run).value);
    ExecCons(cfg, s, step, run);
  }

  /** A full queue in front of a write() that is waiting to put. */
  predicate Blocked(s: State) {
    s.caller.pc.Writing? && !s.caller.stopped && |s.enc.q| == QUEUE_LIMIT
  }

  lemma TakerFrees(cfg: Config, s: State, i: nat)
    requires Blocked(s) && i < |s.enc.threads| && WillTake(s.enc.threads[i])
    ensures CanReturn(cfg, s)
    decreases if s.enc.threads[i].EDone? then 2 else if s.enc.threads[i].ETest? then 1 else 0
  {
    var step := ByEncoder(i, match s.enc.threads[i] case EDone => EncTaskDone case ETest => EncLoop case _ => EncGet);
    if s.enc.threads[i].EIdle? {
      ReturnNow(cfg, Do(cfg, s, step));
    } else {
      TakerFrees(cfg, Do(cfg, s, step), i);
    }
    ReturnAfter(cfg, s, step);
  }

  lemma PutterFrees(cfg: Config, s: State, i: nat)
    requires Blocked(s) && i < |s.enc.threads| && s.enc.threads[i].EPut? && |s.snd.q| <= QUEUE_LIMIT
    requires |s.snd.q| == QUEUE_LIMIT ==> !SenderDead(s.snd.thread)
    ensures CanReturn(cfg, s)
    decreases if |s.snd.q| < QUEUE_LIMIT then 0 else
              match s.snd.thread case SHold(_, _) => 4 case SDone => 3 case STest => 2 case _ => 1
  {
    if |s.snd.q| < QUEUE_LIMIT {
      TakerFrees(cfg, Do(cfg, s, ByEncoder(i, EncPut)), i);
      ReturnAfter(cfg, s, ByEncoder(i, EncPut));
    } else {
      var step := BySender(match s.snd.thread
                           case SHold(_, _) => SndAck case SDone => SndTaskDone case STest => SndLoop case _ => SndGet);
      PutterFrees(cfg, Do(cfg, s, step), i);
      ReturnAfter(cfg, s, step);
    }
  }

  lemma HolderFrees(cfg: Config, s: State, i: nat)
    requires Blocked(s) && i < |s.enc.threads| && (s.enc.threads[i].EHold? || s.enc.threads[i].EPut?)
    requires |s.snd.q| <= QUEUE_LIMIT && (|s.snd.q| == QUEUE_LIMIT ==> !SenderDead(s.snd.thread))
    requires s.enc.threads[i].EHold? ==> HasCode(cfg, s.enc.threads[i].p)
    ensures CanReturn(cfg, s)
  {
    if s.enc.threads[i].EHold? {
      var code :| cfg.encodes(s.enc.threads[i].p, code);
      PutterFrees(cfg, Do(cfg, s, ByEncoder(i, EncEncode(code))), i);
      ReturnAfter(cfg, s, ByEncoder(i, EncEncode(code)));
    } else {
      PutterFrees(cfg, s, i);
    }
  }

  /** In every reachable state with a write() waiting in put: it can still return exactly when the writer is
      not stuck, and a writer with encoders gets stuck only after a failure. */
  lemma WriteReturnsIffNotStuck(cfg: Config, s: State)
    requires Reachable(cfg, s) && s.caller.pc.Writing? && Encodable(cfg, s.log.accepted)
    ensures CanReturn(cfg, s) <==> !Stuck(s)
    ensures Stuck(s) && cfg.encoderCount > 0 ==> s.exception
  {
    ReachableLive(cfg, s);
    if Stuck(s) {
      if CanReturn(cfg, s) {
        var run :| Exec(cfg, s, run).Some? && PutEnabled(Exec(cfg, s, run).value);
        StuckIsForever(cfg, s, run);
      }
      if cfg.encoderCount > 0 {
        assert s.enc.threads[0] in s.enc.threads;
      }
    } else if |s.enc.q| < QUEUE_LIMIT {
      ReturnNow(cfg, s);
    } else if i :| 0 <= i < |s.enc.threads| && WillTake(s.enc.threads[i]) {
      TakerFrees(cfg, s, i);
    } else {
      var i :| 0 <= i < |s.enc.threads| && !EncoderDead(s.enc.threads[i]);
      assert s.enc.threads[i] in s.enc.threads;
      HolderFrees(cfg, s, i);
    }
  }

  /** A state on the way to the hang: `k` empty writes accepted, `first` encoders waiting in put, the
      other ones at their loop test. */
  predicate Filling(cfg: Config, s: State, k: nat, first: nat) {
    && s.caller.pc.Idle? && !s.caller.closing && !s.caller.stopped && !s.exception
    && s.caller.msgId == k && s.caller.offset == 0
    && s.enc.unfinished == |s.enc.q| + first && SndCounts(s.snd)
    && |s.enc.threads| == cfg.encoderCount && first <= cfg.encoderCount
    && (forall i | 0 <= i < first :: s.enc.threads[i].EPut?)
    && (forall i | first <= i < cfg.encoderCount :: s.enc.threads[i].ETest?)
  }

  lemma EmptyWrite(cfg: Config, s: State, k: nat, first: nat) returns (t: State)
    requires Reachable(cfg, s) && Filling(cfg, s, k, first) && |s.enc.q| < QUEUE_LIMIT
    ensures Reachable(cfg, t) && Filling(cfg, t, k + 1, first)
    ensures t.enc.q == s.enc.q + [Payload(k, Write(0, []))] && t.enc.threads == s.enc.threads && t.snd == s.snd
    ensures t.log.wire == s.log.wire
  {
    t := Take(cfg, s, ByCaller(BeginWrite([])));
    t := Take(cfg, t, PutStep);
  }

  /** One more write, taken by the next encoder and encoded. */
  lemma HoldOne(cfg: Config, s: State, k: nat, first: nat) returns (t: State)
    requires Reachable(cfg, s) && Filling(cfg, s, k, first) && s.enc.q == [] && first < cfg.encoderCount
    requires HasCode(cfg, Payload(k, Write(0, [])))
    ensures Reachable(cfg, t) && Filling(cfg, t, k + 1, first + 1) && t.enc.q == [] && t.snd == s.snd
    ensures t.log.wire == s.log.wire
  {
    var p := Payload(k, Write(0, []));
    var code :| cfg.encodes(p, code);
    t := EmptyWrite(cfg, s, k, first);
    t := Take(cfg, t, ByEncoder(first, EncLoop));
    t := Take(cfg, t, ByEncoder(first, EncGet));
    t := Take(cfg, t, ByEncoder(first, EncEncode(code)));
  }

  /** One more write, passed on to the sender's queue by the first encoder. */
  lemma QueueOne(cfg: Config, s: State, k: nat) returns (t: State)
    requires Reachable(cfg, s) && Filling(cfg, s, k, 0) && s.enc.q == []
    requires 0 < cfg.encoderCount && |s.snd.q| < QUEUE_LIMIT
    requires HasCode(cfg, Payload(k, Write(0, [])))
    ensures Reachable(cfg, t) && Filling(cfg, t, k + 1, 0) && t.enc.q == []
    ensures |t.snd.q| == |s.snd.q| + 1 && t.snd.thread == s.snd.thread && t.log.wire == s.log.wire
  {
    t := HoldOne(cfg, s, k, 0);
    t := Take(cfg, t, ByEncoder(0, EncPut));
    t := Take(cfg, t, ByEncoder(0, EncTaskDone));
  }

  /** One message with the sender and its queue full. */
  lemma FillSender(cfg: Config) returns (s: State)
    requires cfg.encoderCount > 0 && forall k: nat | k < 6 :: HasCode(cfg, Payload(k, Write(0, [])))
    ensures Reachable(cfg, s) && Filling(cfg, s, 6, 0) && s.enc.q == [] && |s.snd.q| == 5 && s.snd.thread.SHold?
  {
    s := Init(cfg);
    assert Exec(cfg, s, []) == Some(s);
    s := QueueOne(cfg, s, 0);
    s := Take(cfg, s, BySender(SndLoop));
    s := Take(cfg, s, BySender(SndGet));
    for k := 1 to 6
      invariant Reachable(cfg, s) && Filling(cfg, s, k, 0) && s.enc.q == [] && |s.snd.q| == k - 1 && s.snd.thread.SHold?
    {
      s := QueueOne(cfg, s, k);
    }
  }

  /** Then every encoder waiting to put and its queue full. */
  lemma FillEncoders(cfg: Config, s0: State) returns (s: State)
    requires forall k: nat | k < cfg.encoderCount + 6 :: HasCode(cfg, Payload(k, Write(0, [])))
    requires Reachable(cfg, s0) && Filling(cfg, s0, 6, 0) && s0.enc.q == []
    ensures Reachable(cfg, s) && Filling(cfg, s, 11 + cfg.encoderCount, cfg.encoderCount)
    ensures |s.enc.q| == 5 && s.snd == s0.snd
  {
    s := s0;
    for i := 0 to cfg.encoderCount
      invariant Reachable(cfg, s) && Filling(cfg, s, 6 + i, i) && s.enc.q == [] && s.snd == s0.snd
    {
      s := HoldOne(cfg, s, 6 + i, i);
    }
    for j := 0 to 5
      invariant Reachable(cfg, s) && Filling(cfg, s, 6 + cfg.encoderCount + j, cfg.encoderCount)
      invariant |s.enc.q| == j && s.snd == s0.snd
    {
      s := EmptyWrite(cfg, s, 6 + cfg.encoderCount + j, cfg.encoderCount);
    }
  }

  /** After a sender failure a write() that had already passed its checks can stay blocked for ever: such a
      state is reachable with any number of encoders, and no continuation leaves it. */
  lemma WriteCanHang(cfg: Config) returns (s: State)
    requires cfg.encoderCount > 0
    requires forall k: nat | k < cfg.encoderCount + 6 :: HasCode(cfg, Payload(k, Write(0, [])))
    ensures Reachable(cfg, s) && Stuck(s) && s.exception
    ensures forall run :: Exec(cfg, s, run).Some? ==> Exec(cfg, s, run).value.caller.pc.Writing?
  {
    s := FillSender(cfg);
    s := FillEncoders(cfg, s);
    s := Take(cfg, s, ByCaller(BeginWrite([])));
    s := Take(cfg, s, BySender(SndFail(false)));
    forall run | Exec(cfg, s, run).Some? ensures Exec(cfg, s, run).value.caller.pc.Writing? {
      StuckIsForever(cfg, s, run);
    }
  }

  // ----- The release after an error does not wait ------------------------------------------------------

  /** One payload with the sender. */
  lemma SendingFirst(cfg: Config) returns (s: State)
    requires cfg.encoderCount > 0 && HasCode(cfg, Payload(0, Write(0, [])))
    ensures Reachable(cfg, s) && Filling(cfg, s, 1, 0) && s.enc.q == []
    ensures s.snd.q == [] && s.snd.thread.SHold? && s.snd.thread.failures == 0 && s.log.wire == []
  {
    s := Init(cfg);
    assert Exec(cfg, s, []) == Some(s);
    s := QueueOne(cfg, s, 0);
    s := Take(cfg, s, BySender(SndLoop));
    s := Take(cfg, s, BySender(SndGet));
  }

  /** The next one lost in a failed compressor. */
  lemma FailWhileSending(cfg: Config) returns (s: State)
    requires cfg.encoderCount > 0 && HasCode(cfg, Payload(0, Write(0, [])))
    ensures Reachable(cfg, s) && s.caller.pc.Idle? && s.exception && s.enc.unfinished == 0
    ensures s.snd.thread.SHold? && s.snd.unfinished == 1 && s.log.wire == []
  {
    s := SendingFirst(cfg);
    s := EmptyWrite(cfg, s, 1, 0);
    s := Take(cfg, s, ByEncoder(0, EncLoop));
    s := Take(cfg, s, ByEncoder(0, EncGet));
    s := Take(cfg, s, ByEncoder(0, EncFail));
    s := Take(cfg, s, ByEncoder(0, EncDie));
  }

  /** When close() finds an error, the HTTP writer releases the device at once: a data message can still
      follow. Only the release of a clean close is the end. */
  lemma DataAfterErrorRelease(cfg: Config) returns (s: State)
    requires cfg.mode.Http? && cfg.encoderCount > 0 && HasCode(cfg, Payload(0, Write(0, [])))
    ensures Reachable(cfg, s) && |s.log.wire| == 2 && s.log.wire[0] == Release(false) && s.log.wire[1].Data?
  {
    s := FailWhileSending(cfg);
    s := Take(cfg, s, ByCaller(BeginClose));
    s := Take(cfg, s, ByCaller(LookEnc));
    s := Take(cfg, s, ByCaller(LookSend));
    s := Take(cfg, s, ByCaller(LookExc));
    s := Take(cfg, s, ByCaller(SetStopped));
    s := Take(cfg, s, ByCaller(ReleaseAfterError));
    s := Take(cfg, s, BySender(SndAck));
  }

  // Once `_stopped` is set, threads at their loop test leave; only what is past it can still move.

  /** What still lies in front of a sender waiting in get: queued, with an encoder, or about to be taken
      by an encoder waiting in get. */
  predicate InFront(s: State) {
    || s.snd.q != []
    || (exists e <- s.enc.threads :: e.EHold? || e.EPut?)
    || (s.enc.q != [] && exists e <- s.enc.threads :: e.EIdle?)
  }

  predicate CanDeliver(s: State) { s.snd.thread.SHold? || (s.snd.thread.SIdle? && InFront(s)) }

  predicate Spent(s: State) {
    s.caller.stopped && (s.caller.pc.Stopping? || PastCheck(s.caller.pc)) && !CanDeliver(s)
  }

  lemma SpentEnc(cfg: Config, s: State, i: nat, e: EncStep)
    requires Spent(s) && EncEnabled(cfg, s, i, e)
    ensures Spent(DoEnc(cfg, s, i, e))
  {
    assert s.enc.threads[i] in s.enc.threads;
  }

  lemma SpentSnd(s: State, d: SndStep)
    requires Spent(s) && SndEnabled(s, d)
    ensures Spent(DoSnd(s, d)) && DoSnd(s, d).log.wire == s.log.wire
  {
  }

  lemma SpentStep(cfg: Config, s: State, step: Step)
    requires Spent(s) && Enabled(cfg, s, step)
    ensures Spent(Do(cfg, s, step)) && Arrived(Do(cfg, s, step).log.wire) == Arrived(s.log.wire)
  {
    match step {
      case ByCaller(c) => ArrivedAppend(s.log.wire, EventOf(cfg, s, c));
      case ByEncoder(i, e) => SpentEnc(cfg, s, i, e);
      case BySender(d) => SpentSnd(s, d);
      case _ =>
    }
  }

  lemma {:induction false} SpentIsForever(cfg: Config, s: State, run: seq<Step>)
    requires Spent(s)
    ensures var t := Exec(cfg, s, run); t.Some? ==> Spent(t.value) && Arrived(t.value.log.wire) == Arrived(s.log.wire)
    decreases |run|
  {
    if run != [] {
      SpentIsForever(cfg, s, run[..|run| - 1]);
      var t := Exec(cfg, s, run[..|run| - 1]);
      if t.Some? && Enabled(cfg, t.value, run[|run| - 1]) {
        SpentStep(cfg, t.value, run[|run| - 1]);
      }
    }
  }

  /** Some continuation delivers more data. */
  ghost predicate MoreData(cfg: Config, s: State) {
    exists run :: Exec(cfg, s, run).Some? && |Arrived(Exec(cfg, s, run).value.log.wire)| > |Arrived(s.log.wire)|
  }

  lemma DeliverAfter(cfg: Config, s: State, step: Step)
    requires Enabled(cfg, s, step) && Do(cfg, s, step).log.wire == s.log.wire && MoreData(cfg, Do(cfg, s, step))
    ensures MoreData(cfg, s)
  {
    var t := Do(cfg, s, step);
    var run :| Exec(cfg, t, run).Some? && |Arrived(Exec(cfg, t, run).value.log.wire)| > |Arrived(t.log.wire)|;
    ExecCons(cfg, s, step, run);
  }

  lemma SenderDelivers(cfg: Config, s: State)
    requires s.snd.thread.SHold? || (s.snd.thread.SIdle? && s.snd.q != [])
    ensures MoreData(cfg, s)
    decreases if s.snd.thread.SHold? then 0 else 1
  {
    if s.snd.thread.SHold? {
      ArrivedAppend(s.log.wire, Data(s.snd.thread.m));
      ExecOne(cfg, s, BySender(SndAck));
    } else {
      SenderDelivers(cfg, Do(cfg, s, BySender(SndGet)));
      DeliverAfter(cfg, s, BySender(SndGet));
    }
  }

  lemma EncoderDelivers(cfg: Config, s: State, i: nat)
    requires s.snd.thread.SIdle? && s.snd.q == [] && i < |s.enc.threads|
    requires match s.enc.threads[i]
             case EIdle => s.enc.q != [] && HasCode(cfg, s.enc.q[0])
             case EHold(p) => HasCode(cfg, p)
             case EPut(_) => true
             case _ => false
    ensures MoreData(cfg, s)
    decreases match s.enc.threads[i] case EIdle => 2 case EHold(_) => 1 case _ => 0
  {
    match s.enc.threads[i]
    case EPut(_) =>
      SenderDelivers(cfg, Do(cfg, s, ByEncoder(i, EncPut)));
      DeliverAfter(cfg, s, ByEncoder(i, EncPut));
    case EHold(p) =>
      var code :| cfg.encodes(p, code);
      EncoderDelivers(cfg, Do(cfg, s, ByEncoder(i, EncEncode(code))), i);
      DeliverAfter(cfg, s, ByEncoder(i, EncEncode(code)));
    case EIdle =>
      EncoderDelivers(cfg, Do(cfg, s, ByEncoder(i, EncGet)), i);
      DeliverAfter(cfg, s, ByEncoder(i, EncGet));
  }

  lemma Delivers(cfg: Config, s: State)
    requires LiveInv(cfg, s) && CanDeliver(s) && Encodable(cfg, s.log.accepted)
    ensures MoreData(cfg, s)
  {
    if s.snd.thread.SHold? || s.snd.q != [] {
      SenderDelivers(cfg, s);
    } else if i :| 0 <= i < |s.enc.threads| && (s.enc.threads[i].EHold? || s.enc.threads[i].EPut?) {
      assert s.enc.threads[i] in s.enc.threads;
      EncoderDelivers(cfg, s, i);
    } else {
      var i :| 0 <= i < |s.enc.threads| && s.enc.threads[i].EIdle?;
      assert s.enc.q[0] in s.enc.q;
      EncoderDelivers(cfg, s, i);
    }
  }

  lemma NothingInFront(cfg: Config, s: State)
    requires Counts(s) && AllDone(s)
    ensures !CanDeliver(s)
  {
    forall i | 0 <= i < |s.enc.threads| ensures !s.enc.threads[i].EHold? && !s.enc.threads[i].EPut? {
      if s.enc.threads[i].EHold? || s.enc.threads[i].EPut? {
        EncQuiet(cfg, s, i, EncFail);
      }
    }
  }

  /** From the moment close() has set `_stopped`, data can still follow exactly when the sender is sending,
      or is waiting in get with something in front of it; that takes an error. */
  lemma MoreDataIff(cfg: Config, s: State)
    requires Reachable(cfg, s) && s.caller.stopped && Encodable(cfg, s.log.accepted)
    ensures MoreData(cfg, s) <==> CanDeliver(s)
    ensures CanDeliver(s) ==> s.exception
  {
    ReachableLive(cfg, s);
    if !s.exception {
      NothingInFront(cfg, s);
    }
    if CanDeliver(s) {
      Delivers(cfg, s);
    } else if MoreData(cfg, s) {
      var run :| Exec(cfg, s, run).Some? && |Arrived(Exec(cfg, s, run).value.log.wire)| > |Arrived(s.log.wire)|;
      SpentIsForever(cfg, s, run);
    }
  }
}
