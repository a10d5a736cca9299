/** What the writer's threads can do: finish what they are given, and let any write be overtaken. */
module Witness {
  import opened Wrappers
  import opened Bytes
  import opened Disk
  import opened Pipeline
  import opened Safety
  import opened Progress
  import opened Order
  import opened EndToEnd

  lemma {:induction false} ExecAppend(cfg: Config, s: State, xs: seq<Step>, ys: seq<Step>)
    requires Exec(cfg, s, xs).Some?
    ensures Exec(cfg, s, xs + ys) == Exec(cfg, Exec(cfg, s, xs).value, ys)
    decreases |ys|
  {
    if ys == [] {
      assert xs + ys == xs;
    } else {
      assert (xs + ys)[..|xs + ys| - 1] == xs + ys[..|ys| - 1];
      ExecAppend(cfg, s, xs, ys[..|ys| - 1]);
    }
  }

  lemma ReachMore(cfg: Config, s: State, run: seq<Step>)
    requires Reachable(cfg, s) && Exec(cfg, s, run).Some?
    ensures Reachable(cfg, Exec(cfg, s, run).value)
  {
    var first :| Exec(cfg, Init(cfg), first) == Some(s);
    ExecAppend(cfg, Init(cfg), first, run);
  }

  lemma ReachStep(cfg: Config, s: State, step: Step)
    requires Reachable(cfg, s) && Enabled(cfg, s, step)
    ensures Reachable(cfg, Do(cfg, s, step))
  {
    assert [step][..0] == [];
    assert Exec(cfg, s, []) == Some(s);
    assert Exec(cfg, s, [step]) == Some(Do(cfg, s, step));
    ReachMore(cfg, s, [step]);
  }

  lemma Take(cfg: Config, s: State, step: Step) returns (t: State)
    requires Reachable(cfg, s) && Enabled(cfg, s, step)
    ensures t == Do(cfg, s, step) && Reachable(cfg, t)
  {
    ReachStep(cfg, s, step);
    t := Do(cfg, s, step);
  }

  // ----- Every sequence of calls can be carried through to a clean close ----------------------

  /** Every write the calls ask for has an encoding. */
  ghost predicate CallsEncodable(cfg: Config, calls: seq<Call>) {
    forall i | 0 <= i < |WritesOf(calls)| :: HasCode(cfg, Payload(i, WritesOf(calls)[i]))
  }

  lemma CallsBefore(cfg: Config, calls: seq<Call>)
    requires calls != [] && CallsEncodable(cfg, calls)
    ensures CallsEncodable(cfg, calls[..|calls| - 1])
  {
    var before := calls[..|calls| - 1];
    forall i | 0 <= i < |WritesOf(before)|
      ensures HasCode(cfg, Payload(i, WritesOf(before)[i]))
    {
      assert WritesOf(before)[i] == WritesOf(calls)[i];
    }
  }

  predicate Open(s: State, calls: seq<Call>) {
    && s.caller.pc.Idle? && !s.caller.closing && s.caller.connected
    && !s.exception && AllDone(s) && s.log.calls == calls
  }

  lemma Drain(cfg: Config, s: State) returns (t: State)
    requires Reachable(cfg, s) && cfg.encoderCount > 0 && !s.exception && CallsEncodable(cfg, s.log.calls)
    ensures Reachable(cfg, t) && AllDone(t) && t.caller == s.caller && !t.exception && t.log.calls == s.log.calls
  {
    ReachableLive(cfg, s);
    forall p | p in s.log.accepted ensures HasCode(cfg, p) {
      var i :| 0 <= i < |s.log.accepted| && s.log.accepted[i] == p;
    }
    var run := DrainFrom(cfg, s);
    ReachMore(cfg, s, run);
    t := Exec(cfg, s, run).value;
  }

  lemma {:induction false} CallsCanBeMade(cfg: Config, calls: seq<Call>) returns (s: State)
    requires cfg.encoderCount > 0 && CallsEncodable(cfg, calls)
    ensures Reachable(cfg, s) && Open(s, calls)
    decreases |calls|
  {
    if calls == [] {
      s := Init(cfg);
      assert Exec(cfg, s, []) == Some(s);
    } else {
      var before, last := calls[..|calls| - 1], calls[|calls| - 1];
      assert calls == before + [last];
      CallsBefore(cfg, calls);
      var s0 := CallsCanBeMade(cfg, before);
      match last {
        case Seek(p) =>
          s := Do(cfg, s0, SeekCall(p));
          ReachStep(cfg, s0, SeekCall(p));
        case Put(d) =>
          s := MakeWrite(cfg, s0, before, d);
      }
    }
  }

  lemma MakeWrite(cfg: Config, s0: State, before: seq<Call>, d: seq<byte>) returns (s: State)
    requires cfg.encoderCount > 0 && Reachable(cfg, s0) && Open(s0, before)
    requires CallsEncodable(cfg, before + [Put(d)])
    ensures Reachable(cfg, s) && Open(s, before + [Put(d)])
  {
    ReachableInv(cfg, s0);
    var s1 := Do(cfg, s0, ByCaller(BeginWrite(d)));
    ReachStep(cfg, s0, ByCaller(BeginWrite(d)));
    assert s1.enc.q == [];
    var s2 := Do(cfg, s1, PutStep);
    ReachStep(cfg, s1, PutStep);
    s := Drain(cfg, s2);
  }

  /** From every reachable idle, failure-free state with nothing unfinished, a clean close is possible. */
  lemma CloseFrom(cfg: Config, s: State) returns (t: State)
    requires Reachable(cfg, s) && Open(s, s.log.calls)
    ensures Reachable(cfg, t) && t.caller.pc.Closed? && t.caller.connected && t.log.calls == s.log.calls
    ensures Arrived(t.log.wire) == Arrived(s.log.wire)
  {
    t := s;
    var path := [BeginClose, LookEnc, LookSend, SetStopped, PassCheck, FinishOk];
    for k := 0 to |path|
      invariant Reachable(cfg, t) && t.log.calls == s.log.calls && t.caller.connected && !t.exception && AllDone(t)
      invariant t.caller.pc ==
                  [Idle, ReadEnc(ForClose), ReadSend(ForClose), Drained(ForClose), Stopping, Finishing(0), Closed][k]
      invariant Arrived(t.log.wire) == Arrived(s.log.wire)
    {
      ArrivedAppend(t.log.wire, EventOf(cfg, t, path[k]));
      ReachStep(cfg, t, ByCaller(path[k]));
      t := Do(cfg, t, ByCaller(path[k]));
    }
  }

  /** Any sequence of calls whose writes can be encoded has an interleaving that ends in a clean close. */
  lemma CleanCloseExists(cfg: Config, calls: seq<Call>)
    requires cfg.encoderCount > 0 && CallsEncodable(cfg, calls)
    ensures exists s :: Reachable(cfg, s) && s.caller.pc.Closed? && s.caller.connected && s.log.calls == calls
  {
    var s := CallsCanBeMade(cfg, calls);
    var t := CloseFrom(cfg, s);
  }

  // ----- Any write can be overtaken by all the others ------------------------------------------------

  /** Between calls with nothing on its way, except that encoder 0 may be keeping one message in put. */
  predicate Quiet(cfg: Config, s: State, calls: seq<Call>, held: Option<Msg>) {
    && s.caller.pc.Idle? && !s.caller.closing && s.caller.connected && !s.caller.stopped && !s.exception
    && s.enc.q == [] && s.enc.unfinished == (if held.Some? then 1 else 0)
    && |s.enc.threads| == cfg.encoderCount >= 2
    && s.enc.threads[0] == (if held.Some? then EPut(held.value) else ETest) && s.enc.threads[1] == ETest
    && s.snd == SndStage([], 0, STest) && s.log.calls == calls
  }

  function Landed(s: State): seq<Write> { WritesAmong(Arrived(s.log.wire)) }

  lemma LandedAppend(wire: seq<Event>, m: Msg)
    ensures WritesAmong(Arrived(wire + [Data(m)])) == WritesAmong(Arrived(wire)) + [m.payload.w]
  {
    ArrivedAppend(wire, Data(m));
  }

  lemma AcceptOne(cfg: Config, s: State, calls: seq<Call>, held: Option<Msg>, d: seq<byte>)
      returns (t: State, p: Payload)
    requires Reachable(cfg, s) && Quiet(cfg, s, calls, held)
    ensures p == Payload(|WritesOf(calls)|, Write(PosAfter(calls), d))
    ensures t == s.(caller := s.caller.(offset := t.caller.offset, msgId := t.caller.msgId),
                    enc := EncPush(s.enc, p), log := t.log)
    ensures t.log.calls == calls + [Put(d)] && t.log.wire == s.log.wire && Reachable(cfg, t)
  {
    ReachableInv(cfg, s);
    t := Take(cfg, s, ByCaller(BeginWrite(d)));
    t := Take(cfg, t, PutStep);
    p := Payload(s.caller.msgId, Write(s.caller.offset, d));
  }

  /** An encoder takes the only queued payload and encodes it. */
  lemma EncodeOne(cfg: Config, s: State, i: nat, code: Code) returns (t: State)
    requires Reachable(cfg, s) && !s.caller.stopped && |s.enc.q| == 1 && i < |s.enc.threads| && s.enc.threads[i].ETest?
    requires cfg.encodes(s.enc.q[0], code)
    ensures Reachable(cfg, t)
    ensures t == s.(enc := s.enc.(q := [], threads := s.enc.threads[i := EPut(Msg(s.enc.q[0], code))]))
  {
    t := Take(cfg, s, ByEncoder(i, EncLoop));
    t := Take(cfg, t, ByEncoder(i, EncGet));
    t := Take(cfg, t, ByEncoder(i, EncEncode(code)));
  }

  /** An encoder puts its message and the sender sends it. */
  lemma SendOne(cfg: Config, s: State, i: nat) returns (t: State)
    requires Reachable(cfg, s) && !s.caller.stopped && s.snd == SndStage([], 0, STest)
    requires i < |s.enc.threads| && s.enc.threads[i].EPut?
    ensures Reachable(cfg, t)
    ensures t == s.(enc := EncFinish(s.enc, i, ETest), log := t.log)
    ensures t.log.calls == s.log.calls && t.log.wire == s.log.wire + [Data(s.enc.threads[i].m)]
  {
    t := Take(cfg, s, ByEncoder(i, EncPut));
    t := Take(cfg, t, ByEncoder(i, EncTaskDone));
    t := Take(cfg, t, BySender(SndLoop));
    t := Take(cfg, t, BySender(SndGet));
    t := Take(cfg, t, BySender(SndAck));
    t := Take(cfg, t, BySender(SndTaskDone));
  }

  /** Encoder 1 and the sender carry a write through while encoder 0 keeps what it has. */
  lemma CarryOne(cfg: Config, s: State, calls: seq<Call>, held: Option<Msg>, d: seq<byte>) returns (t: State)
    requires Reachable(cfg, s) && Quiet(cfg, s, calls, held)
    requires HasCode(cfg, Payload(|WritesOf(calls)|, Write(PosAfter(calls), d)))
    ensures Reachable(cfg, t) && Quiet(cfg, t, calls + [Put(d)], held)
    ensures Landed(t) == Landed(s) + [Write(PosAfter(calls), d)]
  {
    var p;
    t, p := AcceptOne(cfg, s, calls, held, d);
    var code :| cfg.encodes(p, code);
    t := EncodeOne(cfg, t, 1, code);
    LandedAppend(t.log.wire, Msg(p, code));
    t := SendOne(cfg, t, 1);
  }

  /** Encoder 0 takes a write and waits in put. */
  lemma KeepOne(cfg: Config, s: State, calls: seq<Call>, d: seq<byte>) returns (t: State, m: Msg)
    requires Reachable(cfg, s) && Quiet(cfg, s, calls, None)
    requires HasCode(cfg, Payload(|WritesOf(calls)|, Write(PosAfter(calls), d)))
    ensures Reachable(cfg, t) && Quiet(cfg, t, calls + [Put(d)], Some(m))
    ensures m.payload.w == Write(PosAfter(calls), d) && Landed(t) == Landed(s)
  {
    var p;
    t, p := AcceptOne(cfg, s, calls, None, d);
    var code :| cfg.encodes(p, code);
    t := EncodeOne(cfg, t, 0, code);
    m := Msg(p, code);
  }

  /** The writes other than the one at `k`, in order; all of them if there is none at `k`. */
  function Others(ws: seq<Write>, k: nat): seq<Write> {
    if k < |ws| then ws[..k] + ws[k + 1..] else ws
  }

  predicate KeepsThe(ws: seq<Write>, k: nat, held: Option<Msg>) {
    if k < |ws| then held.Some? && held.value.payload.w == ws[k] else held.None?
  }

  /** All calls made, all writes but the `k`-th sent in order, and that one still with encoder 0. */
  lemma {:induction false} AllButOneSent(cfg: Config, calls: seq<Call>, k: nat) returns (s: State, held: Option<Msg>)
    requires cfg.encoderCount >= 2 && CallsEncodable(cfg, calls)
    ensures Reachable(cfg, s) && Quiet(cfg, s, calls, held) && KeepsThe(WritesOf(calls), k, held)
    ensures Landed(s) == Others(WritesOf(calls), k)
    decreases |calls|
  {
    if calls == [] {
      s, held := Init(cfg), None;
      assert Exec(cfg, s, []) == Some(s);
    } else {
      var before, last := calls[..|calls| - 1], calls[|calls| - 1];
      assert calls == before + [last];
      CallsBefore(cfg, calls);
      s, held := AllButOneSent(cfg, before, k);
      match last {
        case Seek(p) =>
          s := Take(cfg, s, SeekCall(p));
        case Put(d) =>
          s, held := OneMore(cfg, s, before, held, d, k);
      }
    }
  }

  lemma OneMore(cfg: Config, s: State, before: seq<Call>, held: Option<Msg>, d: seq<byte>, k: nat)
      returns (t: State, now: Option<Msg>)
    requires cfg.encoderCount >= 2 && CallsEncodable(cfg, before + [Put(d)])
    requires Reachable(cfg, s) && Quiet(cfg, s, before, held) && KeepsThe(WritesOf(before), k, held)
    requires Landed(s) == Others(WritesOf(before), k)
    ensures Reachable(cfg, t) && Quiet(cfg, t, before + [Put(d)], now) && KeepsThe(WritesOf(before + [Put(d)]), k, now)
    ensures Landed(t) == Others(WritesOf(before + [Put(d)]), k)
  {
    var calls, ws, w := before + [Put(d)], WritesOf(before), Write(PosAfter(before), d);
    assert calls[..|calls| - 1] == before;
    assert WritesOf(calls) == ws + [w];
    assert WritesOf(calls)[|ws|] == w;
    assert HasCode(cfg, Payload(|ws|, w));
    now := held;
    if k == |ws| {
      var m;
      t, m := KeepOne(cfg, s, before, d);
      now := Some(m);
    } else {
      t := CarryOne(cfg, s, before, held, d);
      OthersAppend(ws, k, w);
    }
  }

  lemma OthersAppend(ws: seq<Write>, k: nat, w: Write)
    requires k != |ws|
    ensures Others(ws + [w], k) == Others(ws, k) + [w]
  {
    if k < |ws| {
      assert (ws + [w])[k + 1..] == ws[k + 1..] + [w];
      assert (ws + [w])[..k] == ws[..k];
    }
  }

  /** Whatever the calls, any one of their writes can arrive after all the others. */
  lemma OvertakenByAll(cfg: Config, calls: seq<Call>, k: nat) returns (s: State)
    requires cfg.encoderCount >= 2 && CallsEncodable(cfg, calls) && k < |WritesOf(calls)|
    ensures Reachable(cfg, s) && s.caller.pc.Closed? && s.log.calls == calls
    ensures Landed(s) == MoveLast(WritesOf(calls), k)
  {
    var held;
    s, held := AllButOneSent(cfg, calls, k);
    LandedAppend(s.log.wire, held.value);
    s := SendOne(cfg, s, 0);
    s := CloseFrom(cfg, s);
  }

  /** Every clean close of these calls leaves the plain file writer's disk. */
  ghost predicate AlwaysRefines(cfg: Config, calls: seq<Call>, disk: seq<byte>)
    requires AllInBounds(WritesOf(calls), |disk|)
  {
    forall s | Reachable(cfg, s) && s.caller.pc.Closed? && s.log.calls == calls ::
      AllInBounds(Landed(s), |disk|) && ApplyAll(disk, Landed(s)) == ApplyAll(disk, WritesOf(calls))
  }

  /** For any calls and any number of encoders: every interleaving leaves the disk that running the calls in
      order leaves exactly when there is at most one encoder or the writes agree wherever they overlap. */
  lemma RefinesIffOrderSafe(cfg: Config, calls: seq<Call>, disk: seq<byte>)
    requires CallsEncodable(cfg, calls) && AllInBounds(WritesOf(calls), |disk|)
    ensures AlwaysRefines(cfg, calls, disk) <==> OrderSafe(cfg.encoderCount, WritesOf(calls))
  {
    var ws := WritesOf(calls);
    if OrderSafe(cfg.encoderCount, ws) {
      forall s | Reachable(cfg, s) && s.caller.pc.Closed? && s.log.calls == calls
        ensures AllInBounds(Landed(s), |disk|) && ApplyAll(disk, Landed(s)) == ApplyAll(disk, ws)
      {
        CloseRefinesFileWriter(cfg, s, disk);
      }
    }
    if AlwaysRefines(cfg, calls, disk) && cfg.encoderCount >= 2 {
      forall a, b | a in ws && b in ws ensures Agree(a, b) {
        forall i: nat | a.Covers(i) && b.Covers(i) ensures a.ByteAt(i) == b.ByteAt(i) {
          EachWins(cfg, calls, disk, a, i);
          EachWins(cfg, calls, disk, b, i);
        }
      }
    }
  }

  lemma EachWins(cfg: Config, calls: seq<Call>, disk: seq<byte>, a: Write, i: nat)
    requires cfg.encoderCount >= 2 && CallsEncodable(cfg, calls)
    requires AllInBounds(WritesOf(calls), |disk|) && AlwaysRefines(cfg, calls, disk)
    requires a in WritesOf(calls) && a.Covers(i)
    ensures i < |disk| && ApplyAll(disk, WritesOf(calls))[i] == a.ByteAt(i)
  {
    var ws := WritesOf(calls);
    var k :| 0 <= k < |ws| && ws[k] == a;
    var s := OvertakenByAll(cfg, calls, k);
    ReorderingFacts(ws, MoveLast(ws, k), |disk|);
    assert ApplyAll(disk, Landed(s)) == ApplyAll(disk, ws);
  }
}
