/** With at most one encoder nothing overtakes: messages arrive in the order of the calls, resends
    back to back. */
module Order {
  import opened Wrappers
  import opened Bytes
  import opened Disk
  import opened Pipeline

  // ----- The order of arrival ---------------------------------------------------------------

  /** The data messages among the events, in order of arrival. */
  function Arrived(wire: seq<Event>): seq<Msg> {
    if wire == [] then []
    else
      var rest, last := wire[..|wire| - 1], wire[|wire| - 1];
      if last.Data? then Arrived(rest) + [last.m] else Arrived(rest)
  }

  lemma {:induction false} ArrivedIff(wire: seq<Event>, m: Msg)
    ensures m in Arrived(wire) <==> Data(m) in wire
    decreases |wire|
  {
    if wire != [] {
      var rest, last := wire[..|wire| - 1], wire[|wire| - 1];
      ArrivedIff(rest, m);
      assert wire == rest + [last];
    }
  }

  lemma ArrivedAppend(wire: seq<Event>, e: Event)
    ensures Arrived(wire + [e]) == if e.Data? then Arrived(wire) + [e.m] else Arrived(wire)
  {
    assert (wire + [e])[..|wire|] == wire;
  }

  lemma {:induction false} ArrivedPrefix(wire: seq<Event>, k: nat)
    requires k <= |wire|
    ensures Arrived(wire[..k]) <= Arrived(wire)
    decreases |wire|
  {
    if k == |wire| {
      assert wire[..k] == wire;
    } else {
      ArrivedPrefix(wire[..|wire| - 1], k);
      assert wire[..|wire| - 1][..k] == wire[..k];
    }
  }

  function PayloadsOf(ms: seq<Msg>): (ps: seq<Payload>)
    ensures |ps| == |ms| && forall i | 0 <= i < |ms| :: ps[i] == ms[i].payload
  {
    seq(|ms|, i requires 0 <= i < |ms| => ms[i].payload)
  }

  predicate Sorted(ps: seq<Payload>) {
    forall i, j | 0 <= i < j < |ps| :: ps[i].msgId <= ps[j].msgId
  }

  predicate Below(ps: seq<Payload>, n: nat) { forall p <- ps :: p.msgId < n }

  // ----- Everything under way, in the order in which it will have arrived -----------------------

  function Sending(e: Sender): seq<Payload> { if e.SHold? then [e.m.payload] else [] }

  function Encoding(es: seq<Encoder>): seq<Payload> {
    if |es| == 1 && (es[0].EHold? || es[0].EPut?) then [PayloadOf(es[0])] else []
  }

  function Ahead(enc: EncStage): seq<Payload> { Encoding(enc.threads) + enc.q }

  function Line(wire: seq<Event>, sender: Sender, rest: seq<Payload>): seq<Payload> {
    PayloadsOf(Arrived(wire)) + (Sending(sender) + rest)
  }

  function Flow(s: State): seq<Payload> {
    Line(s.log.wire, s.snd.thread, PayloadsOf(s.snd.q) + Ahead(s.enc))
  }

  function Behind(s: State): seq<Payload> {
    PayloadsOf(Arrived(s.log.wire)) + (Sending(s.snd.thread) + PayloadsOf(s.snd.q))
  }

  lemma FlowSplit(s: State)
    ensures Flow(s) == Behind(s) + Ahead(s.enc)
  {
  }

  predicate Ordered(s: State) {
    |s.enc.threads| <= 1 && Sorted(Flow(s)) && Below(Flow(s), s.caller.msgId)
  }

  // What a step may do to the flow: nothing, lose one payload, or send one payload again.

  function Without(ps: seq<Payload>, k: nat): seq<Payload>
    requires k < |ps|
  {
    ps[..k] + ps[k + 1..]
  }

  function Twice(ps: seq<Payload>, k: nat): seq<Payload>
    requires k < |ps|
  {
    ps[..k + 1] + ps[k..]
  }

  ghost predicate Shifts(from: seq<Payload>, to: seq<Payload>) {
    || to == from
    || (exists k: nat :: k < |from| && to == Without(from, k))
    || (exists k: nat :: k < |from| && to == Twice(from, k))
  }

  lemma Picked(ps: seq<Payload>, more: seq<Payload>, n: nat, at: int -> int)
    requires Sorted(ps) && Below(ps, n)
    requires forall i | 0 <= i < |more| :: 0 <= at(i) < |ps| && more[i] == ps[at(i)]
    requires forall i, j | 0 <= i < j < |more| :: at(i) <= at(j)
    ensures Sorted(more) && Below(more, n)
  {
    forall i, j | 0 <= i < j < |more| ensures more[i].msgId <= more[j].msgId {
      assert at(i) <= at(j);
    }
  }

  lemma ShiftsKeep(from: seq<Payload>, to: seq<Payload>, n: nat)
    requires Shifts(from, to) && Sorted(from) && Below(from, n)
    ensures Sorted(to) && Below(to, n)
  {
    if to != from {
      if k: nat :| k < |from| && to == Without(from, k) {
        Picked(from, to, n, i => if i < k then i else i + 1);
      } else {
        var k: nat :| k < |from| && to == Twice(from, k);
        Picked(from, to, n, i => if i <= k then i else i - 1);
      }
    }
  }

  lemma Shifting(a: seq<Payload>, x: Payload, b: seq<Payload>)
    ensures Shifts(a + ([x] + b), a + b)
    ensures Shifts(a + ([x] + b), (a + [x]) + b)
    ensures Shifts(a + ([x] + b), (a + [x]) + ([x] + b))
  {
    var f := a + ([x] + b);
    assert a + b == Without(f, |a|);
    assert (a + [x]) + b == f;
    assert (a + [x]) + ([x] + b) == Twice(f, |a|);
  }

  lemma Extend(a: seq<Payload>, x: Payload)
    requires Sorted(a) && Below(a, x.msgId)
    ensures Sorted(a + [x]) && Below(a + [x], x.msgId + 1)
  {
    assert forall i | 0 <= i < |a| :: a[i] in a;
  }

  lemma WireSays(wire: seq<Event>, m: Msg)
    ensures PayloadsOf(Arrived(wire + [Data(m)])) == PayloadsOf(Arrived(wire)) + [m.payload]
  {
    ArrivedAppend(wire, Data(m));
  }

  // ----- Every step keeps the order --------------------------------------------------------------

  /** Whatever becomes of the message being sent, and whether or not it is delivered. */
  lemma SentLine(wire: seq<Event>, m: Msg, failures: nat, next: Sender, delivered: bool, rest: seq<Payload>)
    requires next.SHold? ==> next.m == m
    ensures Shifts(Line(wire, SHold(m, failures), rest), Line(if delivered then wire + [Data(m)] else wire, next, rest))
  {
    WireSays(wire, m);
    Shifting(PayloadsOf(Arrived(wire)), m.payload, rest);
    assert [] + rest == rest;
  }

  lemma TakenLine(wire: seq<Event>, sender: Sender, q: seq<Msg>, ahead: seq<Payload>)
    requires !sender.SHold? && q != []
    ensures Line(wire, SHold(q[0], 0), PayloadsOf(q[1..]) + ahead) == Line(wire, sender, PayloadsOf(q) + ahead)
  {
    assert PayloadsOf(q) == [q[0].payload] + PayloadsOf(q[1..]);
  }

  lemma SndFlow(s: State, d: SndStep)
    requires SndEnabled(s, d)
    ensures Shifts(Flow(s), Flow(DoSnd(s, d)))
  {
    var t, next := s.snd.thread, DoSnd(s, d);
    if t.SHold? {
      var delivered := d.SndAck? || ((d.SndRetry? || d.SndFail?) && d.delivered);
      SentLine(s.log.wire, t.m, t.failures, next.snd.thread, delivered, PayloadsOf(s.snd.q) + Ahead(s.enc));
    } else if d.SndGet? {
      TakenLine(s.log.wire, t, s.snd.q, Ahead(s.enc));
    }
  }

  lemma AheadTake(enc: EncStage)
    requires |enc.threads| == 1 && enc.threads[0].EIdle? && enc.q != []
    ensures Ahead(EncTake(enc, 0)) == Ahead(enc)
  {
    assert enc.q == [enc.q[0]] + enc.q[1..];
  }

  lemma AheadHeld(enc: EncStage, e: Encoder)
    requires |enc.threads| == 1 && (enc.threads[0].EHold? || enc.threads[0].EPut?) && !e.EHold? && !e.EPut?
    ensures Ahead(enc) == [PayloadOf(enc.threads[0])] + enc.q
    ensures Ahead(EncMove(enc, 0, e)) == enc.q
  {
  }

  lemma BehindGrows(s: State, enc: EncStage, m: Msg)
    ensures Behind(s.(enc := enc, snd := SndPush(s.snd, m))) == Behind(s) + [m.payload]
  {
    assert PayloadsOf(s.snd.q + [m]) == PayloadsOf(s.snd.q) + [m.payload];
  }

  lemma EncFlow(cfg: Config, s: State, i: nat, e: EncStep)
    requires EncEnabled(cfg, s, i, e) && |s.enc.threads| == 1
    ensures Shifts(Flow(s), Flow(DoEnc(cfg, s, i, e)))
  {
    var t, s' := s.enc.threads[i], DoEnc(cfg, s, i, e);
    FlowSplit(s);
    FlowSplit(s');
    if e.EncGet? {
      AheadTake(s.enc);
    } else if e.EncPut? {
      AheadHeld(s.enc, EDone);
      BehindGrows(s, EncMove(s.enc, i, EDone), t.m);
      Shifting(Behind(s), t.m.payload, s.enc.q);
    } else if e.EncFail? {
      AheadHeld(s.enc, EFail);
      Shifting(Behind(s), PayloadOf(t), s.enc.q);
    }
  }

  lemma OrderedCaller(cfg: Config, s: State, c: Control)
    requires ControlEnabled(cfg, s, c) && Ordered(s)
    ensures Ordered(DoControl(cfg, s, c))
  {
    ArrivedAppend(s.log.wire, EventOf(cfg, s, c));
  }

  lemma OrderedPut(s: State)
    requires PutEnabled(s) && Ordered(s)
    ensures Ordered(DoPut(s))
  {
    var p := Payload(s.caller.msgId, Write(s.caller.offset, s.caller.pc.data));
    Extend(Flow(s), p);
    assert Flow(DoPut(s)) == Flow(s) + [p];
  }

  lemma OrderedStep(cfg: Config, s: State, step: Step)
    requires Enabled(cfg, s, step) && Ordered(s)
    ensures Ordered(Do(cfg, s, step))
  {
    match step {
      case SeekCall(_) =>
      case PutStep => OrderedPut(s);
      case ByCaller(c) => OrderedCaller(cfg, s, c);
      case ByEncoder(i, e) =>
        EncFlow(cfg, s, i, e);
        ShiftsKeep(Flow(s), Flow(DoEnc(cfg, s, i, e)), s.caller.msgId);
      case BySender(d) =>
        SndFlow(s, d);
        ShiftsKeep(Flow(s), Flow(DoSnd(s, d)), s.caller.msgId);
    }
  }

  lemma {:induction false} OrderedOverRun(cfg: Config, run: seq<Step>)
    requires cfg.encoderCount <= 1
    ensures var t := Exec(cfg, Init(cfg), run); t.Some? ==> Ordered(t.value)
    decreases |run|
  {
    if run != [] {
      OrderedOverRun(cfg, run[..|run| - 1]);
      var t := Exec(cfg, Init(cfg), run[..|run| - 1]);
      if t.Some? && Enabled(cfg, t.value, run[|run| - 1]) {
        OrderedStep(cfg, t.value, run[|run| - 1]);
      }
    }
  }

  /** With at most one encoder, in every interleaving and up to any event, messages have arrived in the
      order in which write() accepted them. */
  lemma OneEncoderKeepsOrder(cfg: Config, s: State, k: nat)
    requires cfg.encoderCount <= 1 && Reachable(cfg, s) && k <= |s.log.wire|
    ensures Sorted(PayloadsOf(Arrived(s.log.wire[..k])))
  {
    var run :| Exec(cfg, Init(cfg), run) == Some(s);
    OrderedOverRun(cfg, run);
    ArrivedPrefix(s.log.wire, k);
    var part, all := PayloadsOf(Arrived(s.log.wire[..k])), Flow(s);
    assert forall i | 0 <= i < |part| :: part[i] == all[i];
  }

  // ----- What a sorted arrival leaves ---------------------------------------------------------------

  function WritesAmong(ms: seq<Msg>): (ws: seq<Write>)
    ensures |ws| == |ms| && forall i | 0 <= i < |ms| :: ws[i] == ms[i].payload.w
  {
    seq(|ms|, i requires 0 <= i < |ms| => ms[i].payload.w)
  }

  predicate AllNumbered(ms: seq<Msg>, asked: seq<Write>) {
    forall m <- ms :: m.payload.msgId < |asked| && m.payload.w == asked[m.payload.msgId]
  }

  predicate AllThere(ps: seq<Payload>, asked: seq<Write>) {
    forall i | 0 <= i < |asked| :: Payload(i, asked[i]) in ps
  }

  /** The messages are encodings of the numbered writes, and each is there. */
  predicate Numbered(ms: seq<Msg>, asked: seq<Write>) {
    AllNumbered(ms, asked) && AllThere(PayloadsOf(ms), asked)
  }

  lemma LastIsNewest(ms: seq<Msg>, asked: seq<Write>)
    requires ms != [] && Sorted(PayloadsOf(ms)) && Numbered(ms, asked)
    ensures asked != [] && ms[|ms| - 1].payload == Payload(|asked| - 1, asked[|asked| - 1])
  {
    var ps, n := PayloadsOf(ms), |asked|;
    assert ms[|ms| - 1] in ms;
    assert Payload(n - 1, asked[n - 1]) in ps;
    var k :| 0 <= k < |ps| && ps[k] == Payload(n - 1, asked[n - 1]);
    assert k == |ms| - 1 || ps[k].msgId <= ps[|ms| - 1].msgId;
  }

  lemma FrontAllNumbered(front: seq<Msg>, asked: seq<Write>)
    requires AllNumbered(front, asked) && asked != []
    requires Payload(|asked| - 1, asked[|asked| - 1]) !in PayloadsOf(front)
    ensures AllNumbered(front, asked[..|asked| - 1])
  {
    forall m | m in front ensures m.payload.msgId < |asked| - 1 {
      var i :| 0 <= i < |front| && front[i] == m;
      assert PayloadsOf(front)[i] == m.payload;
    }
  }

  lemma StillThere(ps: seq<Payload>, asked: seq<Write>, n: nat)
    requires ps != [] && AllThere(ps, asked) && n <= |asked|
    requires forall i | 0 <= i < n :: Payload(i, asked[i]) == ps[|ps| - 1] ==> Payload(i, asked[i]) in ps[..|ps| - 1]
    ensures AllThere(ps[..|ps| - 1], asked[..n])
  {
    var fewer, front := asked[..n], ps[..|ps| - 1];
    forall i | 0 <= i < n ensures Payload(i, fewer[i]) in front {
      assert fewer[i] == asked[i];
      var p := Payload(i, asked[i]);
      assert p in ps;
      var k :| 0 <= k < |ps| && ps[k] == p;
      if k < |ps| - 1 { assert front[k] == p; }
    }
  }

  /** Without its last message a sorted arrival is a sorted arrival of all the writes, or of all but the last. */
  lemma FrontNumbered(ms: seq<Msg>, asked: seq<Write>)
    requires ms != [] && Sorted(PayloadsOf(ms)) && Numbered(ms, asked)
    ensures asked != [] && ms[|ms| - 1].payload == Payload(|asked| - 1, asked[|asked| - 1])
    ensures Sorted(PayloadsOf(ms[..|ms| - 1]))
    ensures Numbered(ms[..|ms| - 1], asked) || Numbered(ms[..|ms| - 1], asked[..|asked| - 1])
  {
    LastIsNewest(ms, asked);
    var front, ps, n := ms[..|ms| - 1], PayloadsOf(ms), |asked|;
    assert PayloadsOf(front) == ps[..|ms| - 1];
    assert AllNumbered(front, asked) by { assert forall m <- front :: m in ms; }
    if Payload(n - 1, asked[n - 1]) in PayloadsOf(front) {
      StillThere(ps, asked, n);
      assert asked[..n] == asked;
    } else {
      FrontAllNumbered(front, asked);
      StillThere(ps, asked, n - 1);
    }
  }

  lemma AskedIsThere(ps: seq<Payload>, asked: seq<Write>)
    requires AllThere(ps, asked)
    ensures asked != [] ==> ps != []
  {
    if asked != [] {
      assert Payload(0, asked[0]) in ps;
    }
  }

  lemma ApplyMore(disk: seq<byte>, ws: seq<Write>, w: Write)
    requires AllInBounds(ws, |disk|) && w.InBounds(|disk|)
    ensures AllInBounds(ws + [w], |disk|)
    ensures ApplyAll(disk, ws + [w]) == Overwrite(ApplyAll(disk, ws), w)
  {
    assert (ws + [w])[..|ws|] == ws;
  }

  /** Repeating the last write changes nothing. */
  lemma Again(disk: seq<byte>, ws: seq<Write>)
    requires AllInBounds(ws, |disk|) && ws != []
    ensures ws[|ws| - 1].InBounds(|disk|)
    ensures Overwrite(ApplyAll(disk, ws), ws[|ws| - 1]) == ApplyAll(disk, ws)
  {
    assert ws[|ws| - 1] in ws;
  }

  lemma FrontInBounds(ws: seq<Write>, size: nat)
    requires ws != [] && AllInBounds(ws, size)
    ensures AllInBounds(ws[..|ws| - 1], size) && ws[|ws| - 1].InBounds(size)
  {
    assert ws[|ws| - 1] in ws;
    assert forall w <- ws[..|ws| - 1] :: w in ws;
  }

  /** The last write, after it or everything before it has been applied. */
  lemma LastArrives(disk: seq<byte>, ws: seq<Write>, asked: seq<Write>)
    requires asked != [] && AllInBounds(asked, |disk|) && AllInBounds(ws, |disk|)
    requires AllInBounds(asked[..|asked| - 1], |disk|)
    requires ApplyAll(disk, ws) == ApplyAll(disk, asked) || ApplyAll(disk, ws) == ApplyAll(disk, asked[..|asked| - 1])
    ensures AllInBounds(ws + [asked[|asked| - 1]], |disk|)
    ensures ApplyAll(disk, ws + [asked[|asked| - 1]]) == ApplyAll(disk, asked)
  {
    FrontInBounds(asked, |disk|);
    ApplyMore(disk, ws, asked[|asked| - 1]);
    Again(disk, asked);
  }

  lemma LastWrite(ms: seq<Msg>, w: Write)
    requires ms != [] && ms[|ms| - 1].payload.w == w
    ensures WritesAmong(ms) == WritesAmong(ms[..|ms| - 1]) + [w]
  {
  }

  /** All numbered writes in ascending order, with any repetitions, leave what the writes in order leave. */
  lemma {:induction false} SortedArrival(disk: seq<byte>, ms: seq<Msg>, asked: seq<Write>)
    requires Sorted(PayloadsOf(ms)) && Numbered(ms, asked) && AllInBounds(asked, |disk|)
    ensures AllInBounds(WritesAmong(ms), |disk|)
    ensures ApplyAll(disk, WritesAmong(ms)) == ApplyAll(disk, asked)
    decreases |ms|
  {
    if ms == [] {
      AskedIsThere(PayloadsOf(ms), asked);
    } else {
      var front := ms[..|ms| - 1];
      FrontNumbered(ms, asked);
      FrontInBounds(asked, |disk|);
      LastWrite(ms, asked[|asked| - 1]);
      if Numbered(front, asked) {
        SortedArrival(disk, front, asked);
      } else {
        SortedArrival(disk, front, asked[..|asked| - 1]);
      }
      LastArrives(disk, WritesAmong(front), asked);
    }
  }
}
