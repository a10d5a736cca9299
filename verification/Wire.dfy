/** What the target can see of a writer: how a clean close is marked, how often a message can arrive, and
    that neither a closing nor a failed writer accepts anything new. */
module Wire {
  import opened Wrappers
  import opened Bytes
  import opened Disk
  import opened Pipeline
  import opened Safety
  import opened Progress
  import opened EndToEnd
  import opened Witness
  import opened Failures

  // ----- The HTTP writer's release --------------------------------------------------------------------

  /** An HTTP writer sends no end-of-data. It releases as after a clean close only past its exception check,
      without an error, and as after an error only with one; a writer that has closed has released. */
  predicate HttpShape(s: State) {
    && (forall e <- s.log.wire :: !e.Eod?)
    && (Release(true) in s.log.wire ==> PastCheck(s.caller.pc) && !s.exception)
    && (Release(false) in s.log.wire ==> s.exception)
    && (s.caller.pc.Closed? ==> Release(true) in s.log.wire)
  }

  lemma HttpShapeControl(cfg: Config, s: State, c: Control)
    requires cfg.mode.Http? && ControlEnabled(cfg, s, c) && CallerKnows(s) && HttpShape(s)
    ensures HttpShape(DoControl(cfg, s, c))
  {
    if c.FinishOk? {
      assert Release(true) in DoControl(cfg, s, c).log.wire;
    }
  }

  lemma HttpShapeSnd(s: State, d: SndStep)
    requires SndEnabled(s, d) && Counts(s) && CallerKnows(s) && EndMeansDone(s) && HttpShape(s)
    ensures HttpShape(DoSnd(s, d))
  {
    assert forall e <- DoSnd(s, d).log.wire :: e in s.log.wire || e.Data?;
  }

  lemma HttpShapeEnc(cfg: Config, s: State, i: nat, e: EncStep)
    requires EncEnabled(cfg, s, i, e) && Counts(s) && CallerKnows(s) && EndMeansDone(s) && HttpShape(s)
    ensures HttpShape(DoEnc(cfg, s, i, e))
  {
    if s.enc.unfinished == 0 {
      EncQuiet(cfg, s, i, e);
    }
  }

  lemma HttpShapeStep(cfg: Config, s: State, step: Step)
    requires cfg.mode.Http? && Enabled(cfg, s, step) && Inv(cfg, s) && HttpShape(s)
    ensures HttpShape(Do(cfg, s, step))
  {
    match step {
      case ByCaller(c) => HttpShapeControl(cfg, s, c);
      case ByEncoder(i, e) => HttpShapeEnc(cfg, s, i, e);
      case BySender(d) => HttpShapeSnd(s, d);
      case _ =>
    }
  }

  lemma {:induction false} HttpShapeOverRun(cfg: Config, run: seq<Step>)
    requires cfg.mode.Http?
    ensures var t := Exec(cfg, Init(cfg), run); t.Some? ==> HttpShape(t.value)
    decreases |run|
  {
    if run != [] {
      var front, last := run[..|run| - 1], run[|run| - 1];
      HttpShapeOverRun(cfg, front);
      var t := Exec(cfg, Init(cfg), front);
      if t.Some? && Enabled(cfg, t.value, last) {
        ReachableInv(cfg, t.value);
        HttpShapeStep(cfg, t.value, last);
      }
    }
  }

  /** The first position of an end marker. */
  function FirstEnd(wire: seq<Event>, mark: Event): (k: nat)
    requires mark in wire
    ensures k < |wire| && wire[k] == mark && mark !in wire[..k]
  {
    if wire[0] == mark then 0
    else
      var k := 1 + FirstEnd(wire[1..], mark);
      assert wire[..k] == [wire[0]] + wire[1..][..k - 1];
      k
  }

  /** In every interleaving of the HTTP writer: nothing is released as clean before the exception check or with
      an error, no end-of-data is ever sent, and a writer that has closed has released the device after all
      accepted payloads, and only those, had arrived. */
  lemma HttpCloseReleases(cfg: Config, s: State)
    requires cfg.mode.Http? && Reachable(cfg, s)
    ensures forall e <- s.log.wire :: !e.Eod?
    ensures Release(true) in s.log.wire ==> PastCheck(s.caller.pc) && !s.exception && AllDone(s)
    ensures Release(false) in s.log.wire ==> s.exception
    ensures s.caller.pc.Closed? ==>
      && Release(true) in s.log.wire
      && var k := FirstEnd(s.log.wire, Release(true));
      && (forall p :: p in s.log.accepted <==> OnWire(s.log.wire[..k], p))
      && forall i | k < i < |s.log.wire| :: !s.log.wire[i].Data?
  {
    var run :| Exec(cfg, Init(cfg), run) == Some(s);
    HttpShapeOverRun(cfg, run);
    ReachableInv(cfg, s);
    if s.caller.pc.Closed? {
      DataIsBeforeEnd(cfg, s, FirstEnd(s.log.wire, Release(true)));
    }
  }

  /** The same for the SSH writer, whose mark is the end-of-data with the number of messages; it is sent
      unless the connection was given up, and nothing is ever released. */
  lemma SshCloseSendsEod(cfg: Config, s: State)
    requires cfg.mode.Ssh? && Reachable(cfg, s)
    ensures forall e <- s.log.wire :: e.Data? || e == Eod(|s.log.accepted|)
    ensures Eod(|s.log.accepted|) in s.log.wire ==> PastCheck(s.caller.pc) && AllDone(s)
    ensures s.caller.pc.Closed? && s.caller.connected ==>
      && Eod(|s.log.accepted|) in s.log.wire
      && var k := FirstEnd(s.log.wire, Eod(|s.log.accepted|));
      && (forall p :: p in s.log.accepted <==> OnWire(s.log.wire[..k], p))
      && forall i | k < i < |s.log.wire| :: !s.log.wire[i].Data?
  {
    SshFacts(cfg, s);
    ReachableInv(cfg, s);
    if s.caller.pc.Closed? && s.caller.connected {
      DataIsBeforeEnd(cfg, s, FirstEnd(s.log.wire, Eod(|s.log.accepted|)));
    }
  }

  // ----- A closing writer accepts nothing -----------------------------------------------------------------

  /** close() has begun. */
  predicate InClose(pc: Pc) {
    match pc
    case Idle => false
    case Writing(_) => false
    case ReadEnc(g) => g.ForClose?
    case ReadSend(g) => g.ForClose?
    case ReadExc(g) => g.ForClose?
    case Drained(g) => g.ForClose?
    case _ => true
  }

  predicate ClosingIsInClose(s: State) { s.caller.closing <==> InClose(s.caller.pc) }

  lemma ClosingStep(cfg: Config, s: State, step: Step)
    requires Enabled(cfg, s, step) && ClosingIsInClose(s)
    ensures var t := Do(cfg, s, step);
      && ClosingIsInClose(t)
      && (s.caller.closing ==> t.caller.closing && t.log.calls == s.log.calls && t.log.accepted == s.log.accepted)
  {
  }

  lemma {:induction false} ClosingOverRun(cfg: Config, s: State, run: seq<Step>)
    requires ClosingIsInClose(s) && Exec(cfg, s, run).Some?
    ensures var t := Exec(cfg, s, run).value;
      && ClosingIsInClose(t)
      && (s.caller.closing ==> t.caller.closing && t.log.calls == s.log.calls && t.log.accepted == s.log.accepted)
    decreases |run|
  {
    if run != [] {
      var front, last := run[..|run| - 1], run[|run| - 1];
      ClosingOverRun(cfg, s, front);
      ClosingStep(cfg, Exec(cfg, s, front).value, last);
    }
  }

  /** Once close() has begun, no continuation accepts a write or a seek. */
  lemma ClosingIsFinal(cfg: Config, s: State, run: seq<Step>)
    requires Reachable(cfg, s) && s.caller.closing && Exec(cfg, s, run).Some?
    ensures Exec(cfg, s, run).value.log.calls == s.log.calls
    ensures Exec(cfg, s, run).value.log.accepted == s.log.accepted
  {
    var first :| Exec(cfg, Init(cfg), first) == Some(s);
    ClosingOverRun(cfg, Init(cfg), first);
    ClosingOverRun(cfg, s, run);
  }

  // ----- A failed writer accepts nothing new ---------------------------------------------------------------

  /** Accepted since `s`: nothing, or the payload of the write() that was waiting in `s`. */
  predicate OnlyTheWaiting(s: State, t: State) {
    && t.exception && s.log.accepted <= t.log.accepted
    && (t.caller.pc.Writing? ==> s.caller.pc.Writing? && t.log.accepted == s.log.accepted)
    && |t.log.accepted| <= |s.log.accepted| + (if s.caller.pc.Writing? then 1 else 0)
  }

  lemma FailedStep(cfg: Config, s: State, t: State, step: Step)
    requires OnlyTheWaiting(s, t) && Enabled(cfg, t, step)
    ensures OnlyTheWaiting(s, Do(cfg, t, step))
  {
  }

  lemma {:induction false} FailedOverRun(cfg: Config, s: State, run: seq<Step>)
    requires s.exception && Exec(cfg, s, run).Some?
    ensures OnlyTheWaiting(s, Exec(cfg, s, run).value)
    decreases |run|
  {
    if run != [] {
      var front, last := run[..|run| - 1], run[|run| - 1];
      FailedOverRun(cfg, s, front);
      FailedStep(cfg, s, Exec(cfg, s, front).value, last);
    }
  }

  /** After a failure no write() passes its checks: a continuation accepts at most the payload of a write()
      that had passed them before. */
  lemma NothingNewAfterFailure(cfg: Config, s: State, run: seq<Step>)
    requires s.exception && Exec(cfg, s, run).Some?
    ensures var t := Exec(cfg, s, run).value;
      if s.caller.pc.Writing? then s.log.accepted <= t.log.accepted && |t.log.accepted| <= |s.log.accepted| + 1
      else t.log.accepted == s.log.accepted
  {
    FailedOverRun(cfg, s, run);
  }

  // ----- How often a message can arrive ----------------------------------------------------------------------

  function Copies(wire: seq<Event>, p: Payload): nat {
    if wire == [] then 0
    else Copies(wire[..|wire| - 1], p) + if wire[|wire| - 1].Data? && wire[|wire| - 1].m.payload == p then 1 else 0
  }

  function Ends(wire: seq<Event>): nat {
    if wire == [] then 0 else Ends(wire[..|wire| - 1]) + if IsEnd(wire[|wire| - 1]) then 1 else 0
  }

  lemma CountOneMore(wire: seq<Event>, e: Event, p: Payload)
    ensures Copies(wire + [e], p) == Copies(wire, p) + if e.Data? && e.m.payload == p then 1 else 0
    ensures Ends(wire + [e]) == Ends(wire) + if IsEnd(e) then 1 else 0
  {
    assert (wire + [e])[..|wire|] == wire;
  }

  /** Copies on the wire: five at most for each time it was done with, and one for each failed attempt of the
      sender that holds it. */
  predicate FewCopies(log: Log, sender: Sender, p: Payload) {
    Copies(log.wire, p) <=
      5 * (log.done[p] + log.lost[p]) + (if sender.SHold? && sender.m.payload == p then sender.failures else 0)
  }

  /** End markers: one for each attempt. */
  predicate FewEnds(wire: seq<Event>, pc: Pc) {
    match pc
    case Finishing(failures) => failures < 5 && Ends(wire) <= failures
    case Closed => Ends(wire) <= 5
    case Raised => Ends(wire) <= 5
    case _ => Ends(wire) == 0
  }

  lemma FewControl(cfg: Config, s: State, c: Control, p: Payload)
    requires ControlEnabled(cfg, s, c) && FewCopies(s.log, s.snd.thread, p) && FewEnds(s.log.wire, s.caller.pc)
    ensures var t := DoControl(cfg, s, c); FewCopies(t.log, t.snd.thread, p) && FewEnds(t.log.wire, t.caller.pc)
  {
    CountOneMore(s.log.wire, EventOf(cfg, s, c), p);
  }

  lemma FewSnd(s: State, d: SndStep, p: Payload)
    requires SndEnabled(s, d) && FewCopies(s.log, s.snd.thread, p) && FewEnds(s.log.wire, s.caller.pc)
    requires s.snd.thread.SHold? ==> s.snd.thread.failures < 5
    ensures var t := DoSnd(s, d); FewCopies(t.log, t.snd.thread, p) && FewEnds(t.log.wire, t.caller.pc)
  {
    if s.snd.thread.SHold? {
      CountOneMore(s.log.wire, Data(s.snd.thread.m), p);
    }
  }

  lemma FewEnc(cfg: Config, s: State, i: nat, e: EncStep, p: Payload)
    requires EncEnabled(cfg, s, i, e) && FewCopies(s.log, s.snd.thread, p) && FewEnds(s.log.wire, s.caller.pc)
    ensures var t := DoEnc(cfg, s, i, e); FewCopies(t.log, t.snd.thread, p) && FewEnds(t.log.wire, t.caller.pc)
  {
  }

  lemma FewPut(s: State, p: Payload)
    requires PutEnabled(s) && FewCopies(s.log, s.snd.thread, p) && FewEnds(s.log.wire, s.caller.pc)
    ensures var t := DoPut(s); FewCopies(t.log, t.snd.thread, p) && FewEnds(t.log.wire, t.caller.pc)
  {
  }

  lemma FewStep(cfg: Config, s: State, step: Step, p: Payload)
    requires Enabled(cfg, s, step) && Bounded(s)
    requires FewCopies(s.log, s.snd.thread, p) && FewEnds(s.log.wire, s.caller.pc)
    ensures var t := Do(cfg, s, step); FewCopies(t.log, t.snd.thread, p) && FewEnds(t.log.wire, t.caller.pc)
  {
    match step {
      case ByCaller(c) => FewControl(cfg, s, c, p);
      case BySender(d) => FewSnd(s, d, p);
      case ByEncoder(i, e) => FewEnc(cfg, s, i, e, p);
      case PutStep => FewPut(s, p);
      case _ =>
    }
  }

  lemma {:induction false} FewOverRun(cfg: Config, run: seq<Step>, p: Payload)
    ensures var t := Exec(cfg, Init(cfg), run);
      t.Some? ==> FewCopies(t.value.log, t.value.snd.thread, p) && FewEnds(t.value.log.wire, t.value.caller.pc)
    decreases |run|
  {
    if run != [] {
      var front, last := run[..|run| - 1], run[|run| - 1];
      FewOverRun(cfg, front, p);
      var t := Exec(cfg, Init(cfg), front);
      if t.Some? && Enabled(cfg, t.value, last) {
        ReachableLive(cfg, t.value);
        FewStep(cfg, t.value, last, p);
      }
    }
  }

  lemma AcceptedOnce(accepted: seq<Payload>, p: Payload)
    requires forall i | 0 <= i < |accepted| :: accepted[i].msgId == i
    ensures multiset(accepted)[p] <= 1
  {
    var n := p.msgId;
    if p in accepted {
      assert accepted == accepted[..n] + [p] + accepted[n + 1..];
      assert p !in accepted[..n] && p !in accepted[n + 1..];
    }
  }

  /** In every interleaving a message arrives at most five times, and so does the mark of a clean close. */
  lemma AtMostFiveCopies(cfg: Config, s: State, p: Payload)
    requires Reachable(cfg, s)
    ensures Copies(s.log.wire, p) <= 5 && Ends(s.log.wire) <= 5
  {
    var run :| Exec(cfg, Init(cfg), run) == Some(s);
    FewOverRun(cfg, run, p);
    ReachableLive(cfg, s);
    assert ConservedFor(s, p);
    AcceptedOnce(s.log.accepted, p);
  }

  /** And five times is possible: every attempt but the last is delivered without being acknowledged. */
  lemma FiveCopiesArePossible(cfg: Config) returns (s: State, p: Payload)
    requires cfg.encoderCount > 0 && HasCode(cfg, Payload(0, Write(0, [])))
    ensures Reachable(cfg, s) && !s.exception && Copies(s.log.wire, p) == 5
  {
    s := SendingFirst(cfg);
    p := s.snd.thread.m.payload;
    for k := 0 to 4
      invariant Reachable(cfg, s) && SentSoFar(s, p, k)
    {
      s := DeliverAgain(cfg, s, p, k);
    }
    CountOneMore(s.log.wire, Data(s.snd.thread.m), p);
    s := Take(cfg, s, BySender(SndAck));
  }

  /** The sender has delivered a message `k` times and knows of none of them. */
  predicate SentSoFar(s: State, p: Payload, k: nat) {
    && !s.exception && s.snd.thread.SHold? && s.snd.thread.m.payload == p
    && s.snd.thread.failures == k && Copies(s.log.wire, p) == k
  }

  lemma DeliverAgain(cfg: Config, s: State, p: Payload, k: nat) returns (t: State)
    requires Reachable(cfg, s) && SentSoFar(s, p, k) && k < 4
    ensures Reachable(cfg, t) && SentSoFar(t, p, k + 1)
  {
    CountOneMore(s.log.wire, Data(s.snd.thread.m), p);
    t := Take(cfg, s, BySender(SndRetry(true)));
  }

  /** close() can give up waiting: it then raises although nothing has failed, while a payload is still on its
      way, and the checksum call can do the same and leaves the writer open. */
  lemma WaitCanTimeOut(cfg: Config, data: seq<byte>, g: Goal) returns (s: State)
    requires g.ForClose? || cfg.mode.Http?
    ensures Reachable(cfg, s) && s.caller.pc == if g.ForClose? then Raised else Idle
    ensures !s.exception && s.log.lost == multiset{} && s.log.done == multiset{} && |s.log.accepted| == 1
    ensures s.log.wire == []
  {
    s := Init(cfg);
    assert Exec(cfg, s, []) == Some(s);
    s := Take(cfg, s, ByCaller(BeginWrite(data)));
    s := Take(cfg, s, PutStep);
    s := Take(cfg, s, ByCaller(if g.ForClose? then BeginClose else BeginChecksum));
    s := Take(cfg, s, ByCaller(LookEnc));
    s := Take(cfg, s, ByCaller(TimeOut));
  }

  lemma FinishingReachable(cfg: Config) returns (s: State)
    ensures Reachable(cfg, s) && s.caller.pc == Finishing(0) && s.caller.connected && s.log.wire == []
  {
    s := Init(cfg);
    assert Exec(cfg, s, []) == Some(s);
    InitInv(cfg);
    s := Take(cfg, s, ByCaller(BeginClose));
    s := Take(cfg, s, ByCaller(LookEnc));
    s := Take(cfg, s, ByCaller(LookSend));
    s := Take(cfg, s, ByCaller(SetStopped));
    s := Take(cfg, s, ByCaller(PassCheck));
  }

  /** The mark of a clean close can arrive five times, and also when close() then raises. */
  lemma FiveEndsArePossible(cfg: Config, raises: bool) returns (s: State)
    ensures Reachable(cfg, s) && Ends(s.log.wire) == 5 && s.caller.pc == if raises then Raised else Closed
  {
    s := FinishingReachable(cfg);
    for k := 0 to 4
      invariant Reachable(cfg, s) && Marked(s, Finishing(k), k)
    {
      s := MarkAgain(cfg, s, k, FinishRetry(true));
    }
    s := MarkAgain(cfg, s, 4, if raises then FinishRaises(true) else FinishOk);
  }

  predicate Marked(s: State, pc: Pc, k: nat) { s.caller.pc == pc && s.caller.connected && Ends(s.log.wire) == k }

  lemma MarkAgain(cfg: Config, s: State, k: nat, c: Control) returns (t: State)
    requires Reachable(cfg, s) && Marked(s, Finishing(k), k) && k < 5
    requires c == FinishOk || c == FinishRaises(true) || (c == FinishRetry(true) && k < 4)
    ensures Reachable(cfg, t)
    ensures Marked(t, if c.FinishOk? then Closed else if c.FinishRaises? then Raised else Finishing(k + 1), k + 1)
  {
    CountOneMore(s.log.wire, EventOf(cfg, s, c), Payload(0, Write(0, [])));
    t := Take(cfg, s, ByCaller(c));
  }

  /** A payload that counts as lost may have arrived all the same. */
  lemma LostMayHaveArrived(cfg: Config) returns (s: State, p: Payload)
    requires cfg.encoderCount > 0 && HasCode(cfg, Payload(0, Write(0, [])))
    ensures Reachable(cfg, s) && s.exception && p in s.log.lost && Copies(s.log.wire, p) == 1
  {
    s := SendingFirst(cfg);
    p := s.snd.thread.m.payload;
    CountOneMore(s.log.wire, Data(s.snd.thread.m), p);
    s := Take(cfg, s, BySender(SndFail(true)));
  }

  // ----- A connection that was given up -----------------------------------------------------------------------

  /** Without a connection no end-of-data is on the wire. */
  predicate Silent(s: State) { s.caller.connected || forall e <- s.log.wire :: !e.Eod? }

  lemma {:induction false} SilentOverRun(cfg: Config, s: State, run: seq<Step>)
    requires cfg.mode.Ssh? && !s.caller.connected && Silent(s) && Exec(cfg, s, run).Some?
    ensures var t := Exec(cfg, s, run).value; !t.caller.connected && Silent(t)
    decreases |run|
  {
    if run != [] {
      var front, last := run[..|run| - 1], run[|run| - 1];
      SilentOverRun(cfg, s, front);
      SilentStep(cfg, Exec(cfg, s, front).value, last);
    }
  }

  lemma SilentStep(cfg: Config, s: State, step: Step)
    requires cfg.mode.Ssh? && !s.caller.connected && Silent(s) && Enabled(cfg, s, step)
    ensures !Do(cfg, s, step).caller.connected && Silent(Do(cfg, s, step))
  {
  }

  /** When the body of the `with` statement raises, the SSH writer gives its connection up: whatever happens
      then, no end-of-data is sent. */
  lemma RaisingBodySendsNoEod(cfg: Config, s: State, run: seq<Step>)
    requires cfg.mode.Ssh? && Reachable(cfg, s) && s.caller.pc.Idle?
    requires Exec(cfg, Do(cfg, s, ByCaller(BodyRaises)), run).Some?
    ensures forall e <- Exec(cfg, Do(cfg, s, ByCaller(BodyRaises)), run).value.log.wire :: !e.Eod?
  {
    ReachableInv(cfg, s);
    SilentOverRun(cfg, Do(cfg, s, ByCaller(BodyRaises)), run);
  }

  /** The close that follows does return, though nothing tells the helper that the data is complete. */
  lemma GivenUpCanClose(cfg: Config) returns (s: State)
    requires cfg.mode.Ssh?
    ensures Reachable(cfg, s) && s.caller.pc.Closed? && !s.exception && s.log.wire == []
  {
    s := Init(cfg);
    assert Exec(cfg, s, []) == Some(s);
    s := Take(cfg, s, ByCaller(BodyRaises));
    s := Take(cfg, s, ByCaller(BeginClose));
    s := Take(cfg, s, ByCaller(LookEnc));
    s := Take(cfg, s, ByCaller(LookSend));
    s := Take(cfg, s, ByCaller(SetStopped));
    s := Take(cfg, s, ByCaller(PassCheck));
    s := Take(cfg, s, ByCaller(SkipEod));
  }

  /** Between its calls and its end the caller waits for nobody, except in put: it can always go on, without a
      time-out and without a failure to finish. */
  lemma CallerCanGoOn(cfg: Config, s: State)
    requires Reachable(cfg, s)
    requires !s.caller.pc.Idle? && !s.caller.pc.Writing? && !s.caller.pc.Closed? && !s.caller.pc.Raised?
    ensures exists c :: ControlEnabled(cfg, s, c) && !c.TimeOut? && !c.FinishRaises?
  {
    var c := match s.caller.pc
      case ReadEnc(_) => LookEnc
      case ReadSend(_) => LookSend
      case ReadExc(_) => LookExc
      case Drained(g) =>
        if g.ForClose? then SetStopped else if s.exception then ChecksumRaises else StartChecksum
      case Stopping => if s.exception then CloseRaises else PassCheck
      case _ => if CanReach(cfg, s) then FinishOk else SkipEod;
    assert ControlEnabled(cfg, s, c);
  }
}
