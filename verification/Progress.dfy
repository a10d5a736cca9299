/** As long as no stage fails, the bounded queues cannot lock up and the wait loop is left. */
module Progress {
  import opened Wrappers
  import opened Disk
  import opened Pipeline
  import opened Stages
  import opened Safety

  // ----- Invariants that only matter for progress -----------------------------------------

  predicate Bounded(s: State) {
    && |s.enc.q| <= QUEUE_LIMIT && |s.snd.q| <= QUEUE_LIMIT
    && (s.snd.thread.SHold? ==> s.snd.thread.failures < MAX_ATTEMPTS)
  }

  /** Threads stop only after a failure or after `_stopped`, which is set only once nothing is left. */
  predicate Alive(s: State) {
    && (!s.exception && !s.caller.stopped ==>
          && (forall e <- s.enc.threads :: !e.EFail? && !e.EExit?)
          && !s.snd.thread.SFail? && !s.snd.thread.SExit?)
    && (s.caller.stopped ==> s.exception || AllDone(s))
    && (s.caller.stopped ==> s.caller.pc.Stopping? || PastCheck(s.caller.pc))
    && (s.caller.pc.Stopping? ==> s.caller.stopped)
  }

  lemma AliveStep(cfg: Config, s: State, step: Step)
    requires Enabled(cfg, s, step) && Counts(s) && CallerKnows(s) && Bounded(s) && Alive(s)
    ensures Bounded(Do(cfg, s, step)) && Alive(Do(cfg, s, step))
  {
    match step {
      case ByEncoder(i, e) =>
        assert s.enc.threads[i] in s.enc.threads;
        if s.enc.unfinished == 0 { EncQuiet(cfg, s, i, e); }
      case _ =>
    }
  }

  ghost predicate LiveInv(cfg: Config, s: State) {
    Inv(cfg, s) && Bounded(s) && Alive(s) && |s.enc.threads| == cfg.encoderCount
  }

  lemma {:induction false} LiveOverRun(cfg: Config, s: State, run: seq<Step>)
    requires LiveInv(cfg, s)
    ensures var t := Exec(cfg, s, run); t.Some? ==> LiveInv(cfg, t.value)
    decreases |run|
  {
    if run != [] {
      LiveOverRun(cfg, s, run[..|run| - 1]);
      var t := Exec(cfg, s, run[..|run| - 1]);
      if t.Some? && Enabled(cfg, t.value, run[|run| - 1]) {
        InvStep(cfg, t.value, run[|run| - 1]);
        AliveStep(cfg, t.value, run[|run| - 1]);
      }
    }
  }

  lemma ReachableLive(cfg: Config, s: State)
    requires Reachable(cfg, s)
    ensures LiveInv(cfg, s)
  {
    var run :| Exec(cfg, Init(cfg), run) == Some(s);
    InitInv(cfg);
    LiveOverRun(cfg, Init(cfg), run);
  }

  // ----- Failure-free steps and the work they leave -------------------------------------------------

  /** A step back from the loop test into the wait for the next item. */
  predicate IsLoop(step: Step) {
    (step.ByEncoder? && step.e.EncLoop?) || (step.BySender? && step.d.SndLoop?)
  }

  /** A wait for an item that timed out. */
  predicate IsPoll(step: Step) {
    (step.ByEncoder? && step.e.EncPoll?) || (step.BySender? && step.d.SndPoll?)
  }

  /** A read of the caller's wait loop. */
  predicate IsLook(step: Step) {
    step.ByCaller? && (step.c.LookEnc? || step.c.LookSend? || step.c.LookExc?)
  }

  /** A worker step that is neither a failure nor idle looping. */
  predicate Productive(step: Step) {
    && (|| (step.ByEncoder? && !step.e.EncFail? && !step.e.EncDie?)
        || (step.BySender? && !step.d.SndFail? && !step.d.SndDie?))
    && !IsLoop(step) && !IsPoll(step)
  }

  predicate WorkerOk(step: Step) { Productive(step) || IsLoop(step) }

  /** Everything that happens in a failure-free run while the caller waits. */
  predicate Waiting(step: Step) { WorkerOk(step) || IsPoll(step) || IsLook(step) }

  /** The weight of a thread at its loop test is a parameter: 1 leaves looping out of account, 2 makes
      every loop step count. */
  function EncoderWeight(e: Encoder, test: nat): nat {
    match e
    case ETest => test
    case EIdle => 1
    case EHold(_) => 19
    case EPut(_) => 18
    case EDone => 3
    case EFail => 1
    case EExit => 0
  }

  function EncodersWeight(es: seq<Encoder>, test: nat): nat {
    if es == [] then 0 else EncoderWeight(es[0], test) + EncodersWeight(es[1..], test)
  }

  function SenderWeight(e: Sender, test: nat): int {
    match e
    case STest => test
    case SIdle => 1
    case SHold(_, failures) => 4 + MAX_ATTEMPTS - failures
    case SDone => 3
    case SFail => 1
    case SExit => 0
  }

  /** Work left for the threads. */
  function Work(s: State, test: nat): int {
    20 * |s.enc.q| + EncodersWeight(s.enc.threads, test) + 12 * |s.snd.q| + SenderWeight(s.snd.thread, test)
  }

  lemma {:induction false} ReplaceWeight(es: seq<Encoder>, i: nat, e: Encoder, test: nat)
    requires i < |es|
    ensures EncodersWeight(es[i := e], test) ==
            EncodersWeight(es, test) - EncoderWeight(es[i], test) + EncoderWeight(e, test)
    decreases |es|
  {
    if i == 0 {
      assert es[i := e][1..] == es[1..];
    } else {
      ReplaceWeight(es[1..], i - 1, e, test);
      assert es[i := e][1..] == es[1..][i - 1 := e];
    }
  }

  /** Every productive step lowers the work; looping, polling and looking do not add to it. */
  lemma StepWork(cfg: Config, s: State, step: Step, test: nat)
    requires Enabled(cfg, s, step) && Waiting(step) && Bounded(s) && 1 <= test <= 2
    ensures Productive(step) ==> Work(Do(cfg, s, step), test) < Work(s, test)
    ensures IsLoop(step) ==> Work(Do(cfg, s, step), test) == Work(s, test) - (test - 1)
    ensures IsPoll(step) ==> Work(Do(cfg, s, step), test) == Work(s, test) + (test - 1)
    ensures IsLook(step) ==> Work(Do(cfg, s, step), test) == Work(s, test)
  {
    if step.ByEncoder? {
      ReplaceWeight(s.enc.threads, step.i, Do(cfg, s, step).enc.threads[step.i], test);
    }
  }

  lemma StepKeeps(cfg: Config, s: State, step: Step)
    requires Enabled(cfg, s, step) && Waiting(step)
    ensures var t := Do(cfg, s, step);
      && t.exception == s.exception && t.log.accepted == s.log.accepted && t.log.calls == s.log.calls
      && (!IsLook(step) ==> t.caller == s.caller)
  {
  }

  // ----- No lock-up --------------------------------------------------------------------------------

  /** Some encoding exists for every payload, so no encoder has to fail. */
  ghost predicate Encodable(cfg: Config, accepted: seq<Payload>) {
    forall p <- accepted :: HasCode(cfg, p)
  }

  ghost predicate HasCode(cfg: Config, p: Payload) { exists code :: cfg.encodes(p, code) }

  lemma SomeBusyThread(es: seq<Encoder>) returns (i: nat)
    requires Busy(es) > 0
    ensures i < |es| && EncoderBusy(es[i]) == 1
  {
    if EncoderBusy(es[0]) == 1 {
      i := 0;
    } else {
      var k := SomeBusyThread(es[1..]);
      i := k + 1;
    }
  }

  /** In every reachable state without a failure, unfinished work means that a worker can take a
      step other than polling, although both queues are bounded. */
  lemma WorkerCanStep(cfg: Config, s: State) returns (step: Step)
    requires LiveInv(cfg, s) && cfg.encoderCount > 0
    requires !s.exception && !AllDone(s) && Encodable(cfg, s.log.accepted)
    ensures WorkerOk(step) && Enabled(cfg, s, step)
  {
    if s.snd.unfinished > 0 {
      match s.snd.thread
      case STest => step := BySender(SndLoop);
      case SIdle => step := BySender(SndGet);
      case SHold(_, _) => step := BySender(SndAck);
      case SDone => step := BySender(SndTaskDone);
    } else {
      assert s.snd.q == [];
      if Busy(s.enc.threads) > 0 {
        var i := SomeBusyThread(s.enc.threads);
        assert s.enc.threads[i] in s.enc.threads;
        match s.enc.threads[i]
        case EHold(p) =>
          assert HasCode(cfg, p);
          var code :| cfg.encodes(p, code);
          step := ByEncoder(i, EncEncode(code));
        case EPut(_) => step := ByEncoder(i, EncPut);
        case EDone => step := ByEncoder(i, EncTaskDone);
      } else {
        assert s.enc.threads[0] in s.enc.threads;
        ReplaceEncoder(s.enc.threads, 0, EIdle, Payload(0, Write(0, [])));
        step := ByEncoder(0, if s.enc.threads[0].ETest? then EncLoop else EncGet);
      }
    }
  }

  predicate WaitingRun(run: seq<Step>) { forall step <- run :: Waiting(step) }

  function Productives(run: seq<Step>): nat {
    if run == [] then 0 else Productives(run[..|run| - 1]) + if Productive(run[|run| - 1]) then 1 else 0
  }

  /** However the workers' steps, their idle polling and the caller's reads are mixed, a failure-free run
      holds no more productive steps than there was work. */
  lemma {:induction false} ProductiveStepsAreFinite(cfg: Config, s: State, run: seq<Step>)
    requires LiveInv(cfg, s) && WaitingRun(run) && Exec(cfg, s, run).Some?
    ensures var t := Exec(cfg, s, run).value;
      && LiveInv(cfg, t) && Productives(run) + Work(t, 1) <= Work(s, 1)
      && t.exception == s.exception && t.log.accepted == s.log.accepted
    decreases |run|
  {
    LiveOverRun(cfg, s, run);
    if run != [] {
      var front, last := run[..|run| - 1], run[|run| - 1];
      assert last in run;
      ProductiveStepsAreFinite(cfg, s, front);
      StepWork(cfg, Exec(cfg, s, front).value, last, 1);
      StepKeeps(cfg, Exec(cfg, s, front).value, last);
    }
  }

  /** Such a run, extended until nothing but polling and looking is left to do, has met the wait loop's
      condition. */
  lemma StuckMeansDone(cfg: Config, s: State, run: seq<Step>)
    requires Reachable(cfg, s) && cfg.encoderCount > 0 && !s.exception && Encodable(cfg, s.log.accepted)
    requires WaitingRun(run) && Exec(cfg, s, run).Some?
    ensures Productives(run) <= Work(s, 1)
    ensures var t := Exec(cfg, s, run).value;
      (forall step | WorkerOk(step) :: !Enabled(cfg, t, step)) ==> AllDone(t)
  {
    ReachableLive(cfg, s);
    ProductiveStepsAreFinite(cfg, s, run);
    var t := Exec(cfg, s, run).value;
    if !AllDone(t) {
      var step := WorkerCanStep(cfg, t);
    }
  }

  predicate WorkersOnly(run: seq<Step>) { forall step <- run :: WorkerOk(step) }

  lemma {:induction false} DrainFrom(cfg: Config, s: State) returns (run: seq<Step>)
    requires LiveInv(cfg, s) && cfg.encoderCount > 0 && !s.exception && Encodable(cfg, s.log.accepted)
    ensures WorkersOnly(run) && Exec(cfg, s, run).Some?
    ensures var t := Exec(cfg, s, run).value;
      AllDone(t) && t.caller == s.caller && !t.exception && t.log.calls == s.log.calls && LiveInv(cfg, t)
    decreases Work(s, 2)
  {
    if AllDone(s) {
      run := [];
    } else {
      var step := WorkerCanStep(cfg, s);
      StepWork(cfg, s, step, 2);
      StepKeeps(cfg, s, step);
      InvStep(cfg, s, step);
      AliveStep(cfg, s, step);
      var rest := DrainFrom(cfg, Do(cfg, s, step));
      ExecCons(cfg, s, step, rest);
      run := [step] + rest;
    }
  }

  lemma {:induction false} ExecCons(cfg: Config, s: State, step: Step, rest: seq<Step>)
    requires Enabled(cfg, s, step)
    ensures Exec(cfg, s, [step] + rest) == Exec(cfg, Do(cfg, s, step), rest)
    decreases |rest|
  {
    var run := [step] + rest;
    if rest == [] {
      assert run[..|run| - 1] == [];
    } else {
      var front := rest[..|rest| - 1];
      assert run[..|run| - 1] == [step] + front;
      ExecCons(cfg, s, step, front);
    }
  }

  lemma ExecOne(cfg: Config, s: State, step: Step)
    requires Enabled(cfg, s, step)
    ensures Exec(cfg, s, [step]) == Some(Do(cfg, s, step))
  {
    ExecCons(cfg, s, step, []);
    assert [step] + [] == [step];
  }

  // ----- Leaving the wait loop -------------------------------------------------------------------------

  predicate InWaitLoop(pc: Pc) { pc.ReadEnc? || pc.ReadSend? || pc.ReadExc? }

  /** The reads that lead out of the wait loop from where the caller is in it. */
  function LooksFrom(pc: Pc): (run: seq<Step>)
    requires InWaitLoop(pc)
  {
    if pc.ReadSend? then [ByCaller(LookSend)]
    else if pc.ReadEnc? then [ByCaller(LookEnc), ByCaller(LookSend)]
    else [ByCaller(LookExc), ByCaller(LookEnc), ByCaller(LookSend)]
  }

  function AtPc(s: State, pc: Pc): State { s.(caller := s.caller.(pc := pc)) }

  lemma LeaveFromReadEnc(cfg: Config, t: State)
    requires AllDone(t) && t.caller.pc.ReadEnc?
    ensures Exec(cfg, t, [ByCaller(LookEnc), ByCaller(LookSend)]) == Some(AtPc(t, Drained(t.caller.pc.g)))
  {
    var t1 := AtPc(t, ReadSend(t.caller.pc.g));
    assert Do(cfg, t, ByCaller(LookEnc)) == t1;
    ExecCons(cfg, t, ByCaller(LookEnc), [ByCaller(LookSend)]);
    ExecOne(cfg, t1, ByCaller(LookSend));
    assert [ByCaller(LookEnc)] + [ByCaller(LookSend)] == [ByCaller(LookEnc), ByCaller(LookSend)];
  }

  /** With both counters at zero and no failure, the wait loop is left from every place in it. */
  lemma LeaveWaitLoop(cfg: Config, t: State)
    requires AllDone(t) && !t.exception && InWaitLoop(t.caller.pc)
    ensures Exec(cfg, t, LooksFrom(t.caller.pc)) == Some(AtPc(t, Drained(t.caller.pc.g)))
  {
    match t.caller.pc
    case ReadSend(_) => ExecOne(cfg, t, ByCaller(LookSend));
    case ReadEnc(_) => LeaveFromReadEnc(cfg, t);
    case ReadExc(g) =>
      var t1 := AtPc(t, ReadEnc(g));
      assert Do(cfg, t, ByCaller(LookExc)) == t1;
      LeaveFromReadEnc(cfg, t1);
      var rest := [ByCaller(LookEnc), ByCaller(LookSend)];
      ExecCons(cfg, t, ByCaller(LookExc), rest);
      assert [ByCaller(LookExc)] + rest == LooksFrom(t.caller.pc);
  }

  /** The workers alone bring `s` to `t`, where nothing is unfinished and the caller is where it was. */
  ghost predicate DrainsTo(cfg: Config, s: State, t: State) {
    && AllDone(t) && t.caller == s.caller
    && exists run :: WorkersOnly(run) && Exec(cfg, s, run) == Some(t)
  }

  /** From every failure-free state the workers alone can reach a state in which both counters are
      zero; then a writer blocked on a full queue can go on, and the wait loop is left wherever the
      caller is in it. */
  lemma WaitLoopIsLeft(cfg: Config, s: State) returns (t: State)
    requires Reachable(cfg, s) && cfg.encoderCount > 0 && !s.exception && Encodable(cfg, s.log.accepted)
    ensures DrainsTo(cfg, s, t)
    ensures s.caller.pc.Writing? ==> Enabled(cfg, t, PutStep)
    ensures InWaitLoop(s.caller.pc) ==>
              Exec(cfg, t, LooksFrom(s.caller.pc)) == Some(AtPc(t, Drained(s.caller.pc.g)))
  {
    ReachableLive(cfg, s);
    var run := DrainFrom(cfg, s);
    t := Exec(cfg, s, run).value;
    if InWaitLoop(s.caller.pc) {
      LeaveWaitLoop(cfg, t);
    }
  }
}
