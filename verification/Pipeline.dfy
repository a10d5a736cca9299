/** The two-stage writer pipeline shared by the SSH and HTTP backup writers: a caller, a pool of
    encoder (compressor) threads and one sender thread around two bounded queues. Each thread is
    a program counter; a step is one access to shared state, so a run is any interleaving. */
module Pipeline {
  import opened Wrappers
  import opened Bytes
  import opened Disk
  import opened Framing

  const QUEUE_LIMIT := 5
  const MAX_ATTEMPTS := 5

  datatype Mode = Ssh | Http

  datatype Payload = Payload(msgId: nat, w: Write)

  /** What an encoder makes of a payload: how it was compressed, and the bytes to send. */
  datatype Code = Code(comp: Compression, bytes: seq<byte>)

  datatype Msg = Msg(payload: Payload, code: Code)

  // ----- The encoder stage ------------------------------------------------------------

  datatype Encoder =
    | ETest                    // about to test _stopped
    | EIdle                    // past the test, waiting in get
    | EHold(p: Payload)        // has taken a payload, encoding it
    | EPut(m: Msg)             // encoded, waiting in put
    | EDone                    // put returned, task_done pending
    | EFail                    // exception recorded, task_done pending
    | EExit                    // loop left or thread dead

  function PayloadOf(e: Encoder): Payload
    requires e.EHold? || e.EPut?
  {
    if e.EHold? then e.p else e.m.payload
  }

  datatype EncStage = EncStage(q: seq<Payload>, unfinished: int, threads: seq<Encoder>)

  function EncPush(enc: EncStage, p: Payload): EncStage {
    enc.(q := enc.q + [p], unfinished := enc.unfinished + 1)
  }

  function EncTake(enc: EncStage, i: nat): EncStage
    requires i < |enc.threads| && enc.q != []
  {
    enc.(q := enc.q[1..], threads := enc.threads[i := EHold(enc.q[0])])
  }

  function EncMove(enc: EncStage, i: nat, e: Encoder): EncStage
    requires i < |enc.threads|
  {
    enc.(threads := enc.threads[i := e])
  }

  /** `task_done`, after which the thread is at `e`. */
  function EncFinish(enc: EncStage, i: nat, e: Encoder): EncStage
    requires i < |enc.threads|
  {
    enc.(threads := enc.threads[i := e], unfinished := enc.unfinished - 1)
  }

  // ----- The sender stage -------------------------------------------------------------

  datatype Sender =
    | STest
    | SIdle
    | SHold(m: Msg, failures: nat)  // sending, after some failed attempts
    | SDone
    | SFail
    | SExit

  datatype SndStage = SndStage(q: seq<Msg>, unfinished: int, thread: Sender)

  function SndPush(snd: SndStage, m: Msg): SndStage {
    snd.(q := snd.q + [m], unfinished := snd.unfinished + 1)
  }

  function SndTake(snd: SndStage): SndStage
    requires snd.q != []
  {
    snd.(q := snd.q[1..], thread := SHold(snd.q[0], 0))
  }

  function SndFinish(snd: SndStage, e: Sender): SndStage {
    snd.(thread := e, unfinished := snd.unfinished - 1)
  }

  // ----- The calling thread -------------------------------------------------------------

  datatype Goal = ForClose | ForChecksum

  /** The wait loop reads the two counters and the exception in three separate accesses, in
      this order. */
  datatype Pc =
    | Idle
    | Writing(data: seq<byte>)    // write() passed its checks, waiting in put
    | ReadEnc(g: Goal)
    | ReadSend(g: Goal)           // the encoder counter was read as zero
    | ReadExc(g: Goal)            // one of the counters was not zero
    | Drained(g: Goal)            // the wait loop was left
    | Stopping                    // _stopped set, about to test _exception
    | Finishing(failures: nat)    // past the exception check, sending EOD or the release
    | Closed
    | Raised

  datatype Caller = Caller(pc: Pc, closing: bool, stopped: bool, connected: bool, offset: nat, msgId: nat)

  // ----- The whole writer ------------------------------------------------------------------

  datatype Event =
    | Data(m: Msg)
    | Eod(id: nat)
    | Release(clean: bool)
    | Checksum(upTo: nat)         // job created after this many accepted writes

  /** History: the calls made, the payloads write() accepted, those sent and acknowledged, those
      a failed thread dropped, and everything that reached the target. */
  datatype Log = Log(
    calls: seq<Call>,
    accepted: seq<Payload>,
    done: multiset<Payload>,
    lost: multiset<Payload>,
    wire: seq<Event>)

  datatype State = State(caller: Caller, exception: bool, enc: EncStage, snd: SndStage, log: Log)

  datatype Config = Config(mode: Mode, encoderCount: nat, encodes: (Payload, Code) -> bool)

  function Init(cfg: Config): State {
    State(
      Caller(Idle, false, false, true, 0, 0),
      false,
      EncStage([], 0, seq(cfg.encoderCount, i => ETest)),
      SndStage([], 0, STest),
      Log([], [], multiset{}, multiset{}, []))
  }

  function Emit(log: Log, really: bool, e: Event): Log {
    if really then log.(wire := log.wire + [e]) else log
  }

  // ----- Steps of the caller -------------------------------------------------------------------

  /** Steps that move only the caller's own program counter and flags, and perhaps emit an event. */
  datatype Control =
    | BeginWrite(data: seq<byte>)
    | BodyRaises
    | BeginClose
    | BeginChecksum
    | LookEnc
    | LookSend
    | LookExc
    | TimeOut
    | StartChecksum
    | ChecksumRaises
    | SetStopped
    | CloseRaises
    | ReleaseAfterError
    | PassCheck
    | SkipEod
    | FinishOk
    | FinishRetry(delivered: bool)
    | FinishRaises(delivered: bool)

  predicate CanReach(cfg: Config, s: State) {
    cfg.mode.Ssh? ==> s.caller.connected
  }

  predicate ControlEnabled(cfg: Config, s: State, c: Control) {
    var pc := s.caller.pc;
    match c
    case BeginWrite(_) => pc.Idle? && !s.caller.closing && !s.exception
    case BodyRaises => pc.Idle?
    case BeginClose => pc.Idle?
    case BeginChecksum => pc.Idle? && cfg.mode.Http?
    case LookEnc => pc.ReadEnc?
    case LookSend => pc.ReadSend?
    case LookExc => pc.ReadExc?
    case TimeOut => pc.ReadExc? && !s.exception
    case StartChecksum => pc == Drained(ForChecksum) && !s.exception
    case ChecksumRaises => pc == Drained(ForChecksum)
    case SetStopped => pc == Drained(ForClose)
    case CloseRaises => pc.Stopping? && s.exception
    case ReleaseAfterError => pc.Stopping? && s.exception && cfg.mode.Http?
    case PassCheck => pc.Stopping? && !s.exception
    case SkipEod => pc.Finishing? && !CanReach(cfg, s)
    case FinishOk => pc.Finishing? && CanReach(cfg, s)
    case FinishRetry(_) => pc.Finishing? && CanReach(cfg, s) && pc.failures + 1 < MAX_ATTEMPTS
    case FinishRaises(_) => pc.Finishing? && CanReach(cfg, s)
  }

  function NextPc(cfg: Config, s: State, c: Control): Pc
    requires ControlEnabled(cfg, s, c)
  {
    var pc := s.caller.pc;
    match c
    case BeginWrite(d) => Writing(d)
    case BodyRaises => Idle
    case BeginClose => ReadEnc(ForClose)
    case BeginChecksum => ReadEnc(ForChecksum)
    case LookEnc => if s.enc.unfinished == 0 then ReadSend(pc.g) else ReadExc(pc.g)
    case LookSend => if s.snd.unfinished == 0 then Drained(pc.g) else ReadExc(pc.g)
    case LookExc => if s.exception then Drained(pc.g) else ReadEnc(pc.g)
    case TimeOut => if pc.g.ForClose? then Raised else Idle
    case StartChecksum => Idle
    case ChecksumRaises => Idle
    case SetStopped => Stopping
    case CloseRaises => Raised
    case ReleaseAfterError => Stopping
    case PassCheck => Finishing(0)
    case SkipEod => Closed
    case FinishOk => Closed
    case FinishRetry(_) => Finishing(pc.failures + 1)
    case FinishRaises(_) => Raised
  }

  predicate Emits(c: Control) {
    match c
    case StartChecksum => true
    case ReleaseAfterError => true
    case FinishOk => true
    case FinishRetry(delivered) => delivered
    case FinishRaises(delivered) => delivered
    case _ => false
  }

  function EventOf(cfg: Config, s: State, c: Control): Event {
    if c.StartChecksum? then Checksum(|s.log.accepted|)
    else if c.ReleaseAfterError? then Release(false)
    else if cfg.mode.Ssh? then Eod(s.caller.msgId)
    else Release(true)
  }

  function DoControl(cfg: Config, s: State, c: Control): State
    requires ControlEnabled(cfg, s, c)
  {
    s.(caller := s.caller.(
         pc := NextPc(cfg, s, c),
         closing := s.caller.closing || c.BeginClose?,
         stopped := s.caller.stopped || c.SetStopped?,
         connected := s.caller.connected && !(c.BodyRaises? && cfg.mode.Ssh?)),
       log := Emit(s.log, Emits(c), EventOf(cfg, s, c)))
  }

  function DoSeek(s: State, pos: nat): State {
    s.(caller := s.caller.(offset := pos), log := s.log.(calls := s.log.calls + [Seek(pos)]))
  }

  predicate PutEnabled(s: State) { s.caller.pc.Writing? && |s.enc.q| < QUEUE_LIMIT }

  /** The blocked put of write() succeeds: the payload is accepted. */
  function DoPut(s: State): State
    requires PutEnabled(s)
  {
    var data := s.caller.pc.data;
    var p := Payload(s.caller.msgId, Write(s.caller.offset, data));
    s.(caller := s.caller.(pc := Idle, offset := s.caller.offset + |data|, msgId := s.caller.msgId + 1),
       enc := EncPush(s.enc, p),
       log := s.log.(calls := s.log.calls + [Put(data)], accepted := s.log.accepted + [p]))
  }

  // ----- Steps of the workers --------------------------------------------------------------------

  /** `EncLoop` finds `_stopped` unset; `EncPoll` is a get that timed out on an empty queue. */
  datatype EncStep =
    | EncLoop | EncPoll | EncGet | EncEncode(code: Code) | EncPut | EncTaskDone | EncFail | EncDie | EncExit

  predicate EncEnabled(cfg: Config, s: State, i: nat, e: EncStep) {
    i < |s.enc.threads| &&
    var t := s.enc.threads[i];
    match e
    case EncLoop => t.ETest? && !s.caller.stopped
    case EncPoll => t.EIdle? && s.enc.q == []
    case EncGet => t.EIdle? && s.enc.q != []
    case EncEncode(code) => t.EHold? && cfg.encodes(t.p, code)
    case EncPut => t.EPut? && |s.snd.q| < QUEUE_LIMIT
    case EncTaskDone => t.EDone?
    case EncFail => t.EHold? || t.EPut?
    case EncDie => t.EFail?
    case EncExit => t.ETest? && s.caller.stopped
  }

  function DoEnc(cfg: Config, s: State, i: nat, e: EncStep): State
    requires EncEnabled(cfg, s, i, e)
  {
    var t := s.enc.threads[i];
    match e
    case EncLoop => s.(enc := EncMove(s.enc, i, EIdle))
    case EncPoll => s.(enc := EncMove(s.enc, i, ETest))
    case EncGet => s.(enc := EncTake(s.enc, i))
    case EncEncode(code) => s.(enc := EncMove(s.enc, i, EPut(Msg(t.p, code))))
    case EncPut => s.(enc := EncMove(s.enc, i, EDone), snd := SndPush(s.snd, t.m))
    case EncTaskDone => s.(enc := EncFinish(s.enc, i, ETest))
    case EncFail =>
      s.(exception := true,
         enc := EncMove(s.enc, i, EFail),
         log := s.log.(lost := s.log.lost + multiset{PayloadOf(t)}))
    case EncDie => s.(enc := EncFinish(s.enc, i, EExit))
    case EncExit => s.(enc := EncMove(s.enc, i, EExit))
  }

  datatype SndStep =
    | SndLoop | SndPoll | SndGet | SndAck | SndRetry(delivered: bool) | SndTaskDone
    | SndFail(delivered: bool) | SndDie | SndExit

  predicate SndEnabled(s: State, e: SndStep) {
    var t := s.snd.thread;
    match e
    case SndLoop => t.STest? && !s.caller.stopped
    case SndPoll => t.SIdle? && s.snd.q == []
    case SndGet => t.SIdle? && s.snd.q != []
    case SndAck => t.SHold?
    case SndRetry(_) => t.SHold? && t.failures + 1 < MAX_ATTEMPTS
    case SndTaskDone => t.SDone?
    case SndFail(_) => t.SHold?
    case SndDie => t.SFail?
    case SndExit => t.STest? && s.caller.stopped
  }

  function DoSnd(s: State, e: SndStep): State
    requires SndEnabled(s, e)
  {
    var t := s.snd.thread;
    match e
    case SndLoop => s.(snd := s.snd.(thread := SIdle))
    case SndPoll => s.(snd := s.snd.(thread := STest))
    case SndGet => s.(snd := SndTake(s.snd))
    case SndAck =>
      s.(snd := s.snd.(thread := SDone),
         log := Emit(s.log, true, Data(t.m)).(done := s.log.done + multiset{t.m.payload}))
    case SndRetry(delivered) =>
      s.(snd := s.snd.(thread := SHold(t.m, t.failures + 1)),
         log := Emit(s.log, delivered, Data(t.m)))
    case SndTaskDone => s.(snd := SndFinish(s.snd, STest))
    case SndFail(delivered) =>
      s.(exception := true,
         snd := s.snd.(thread := SFail),
         log := Emit(s.log, delivered, Data(t.m)).(lost := s.log.lost + multiset{t.m.payload}))
    case SndDie => s.(snd := SndFinish(s.snd, SExit))
    case SndExit => s.(snd := s.snd.(thread := SExit))
  }

  // ----- Runs ----------------------------------------------------------------------------------------

  datatype Step =
    | SeekCall(pos: nat)
    | PutStep
    | ByCaller(c: Control)
    | ByEncoder(i: nat, e: EncStep)
    | BySender(d: SndStep)

  predicate Enabled(cfg: Config, s: State, step: Step) {
    match step
    case SeekCall(_) => s.caller.pc.Idle?
    case PutStep => PutEnabled(s)
    case ByCaller(c) => ControlEnabled(cfg, s, c)
    case ByEncoder(i, e) => EncEnabled(cfg, s, i, e)
    case BySender(d) => SndEnabled(s, d)
  }

  function Do(cfg: Config, s: State, step: Step): State
    requires Enabled(cfg, s, step)
  {
    match step
    case SeekCall(pos) => DoSeek(s, pos)
    case PutStep => DoPut(s)
    case ByCaller(c) => DoControl(cfg, s, c)
    case ByEncoder(i, e) => DoEnc(cfg, s, i, e)
    case BySender(d) => DoSnd(s, d)
  }

  /** The state after the steps, taken in order from `s`; None if one of them is not enabled. */
  function Exec(cfg: Config, s: State, run: seq<Step>): Option<State> {
    if run == [] then Some(s)
    else match Exec(cfg, s, run[..|run| - 1])
      case None => None
      case Some(t) =>
        var step := run[|run| - 1];
        if Enabled(cfg, t, step) then Some(Do(cfg, t, step)) else None
  }

  /** `s` is the state some interleaving of the threads leads to. */
  ghost predicate Reachable(cfg: Config, s: State) {
    exists run :: Exec(cfg, Init(cfg), run) == Some(s)
  }

  // ----- How often the threads and queues are holding a payload ---------------------------------------

  function EncoderCarries(e: Encoder, p: Payload): nat {
    if (e.EHold? || e.EPut?) && PayloadOf(e) == p then 1 else 0
  }

  function EncoderBusy(e: Encoder): nat {
    if e.EHold? || e.EPut? || e.EDone? || e.EFail? then 1 else 0
  }

  function Carried(es: seq<Encoder>, p: Payload): nat {
    if es == [] then 0 else EncoderCarries(es[0], p) + Carried(es[1..], p)
  }

  function Busy(es: seq<Encoder>): nat {
    if es == [] then 0 else EncoderBusy(es[0]) + Busy(es[1..])
  }

  function EncHolds(enc: EncStage, p: Payload): nat {
    multiset(enc.q)[p] + Carried(enc.threads, p)
  }

  predicate EncCounts(enc: EncStage) {
    enc.unfinished == |enc.q| + Busy(enc.threads)
  }

  function SenderCarries(e: Sender, p: Payload): nat {
    if e.SHold? && e.m.payload == p then 1 else 0
  }

  function SenderBusy(e: Sender): nat {
    if e.SHold? || e.SDone? || e.SFail? then 1 else 0
  }

  function Queued(q: seq<Msg>, p: Payload): nat {
    if q == [] then 0 else (if q[0].payload == p then 1 else 0) + Queued(q[1..], p)
  }

  function SndHolds(snd: SndStage, p: Payload): nat {
    Queued(snd.q, p) + SenderCarries(snd.thread, p)
  }

  predicate SndCounts(snd: SndStage) {
    snd.unfinished == |snd.q| + SenderBusy(snd.thread)
  }
}
