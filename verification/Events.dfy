/** Throttled progress reports, and the database guard against reports that arrive out of order. */
module Events {
  import opened Wrappers

  // ----- One percentage step ---------------------------------------------------------------

  datatype Perc = Perc(lastPerc: int, lastValue: int, total: int)

  datatype Report = Report(step: int, sync: bool)

  function Percent(step: int, total: int): int {
    if total > 0 && step > 0 then step * 100 / total else 0
  }

  /** A new step; None where the initial value is larger than the total. */
  function NewStep(total: int, initial: int): Option<Perc> {
    var t := if total < 0 then 0 else total;
    if initial > t then None else Some(Perc(Percent(initial, t), initial, t))
  }

  /** One update: a report is sent only when the percentage has grown. The last value is reset with
      every report, so the rollback test works only until the first one. */
  function Advance(p: Perc, step: int): (Perc, Option<Report>) {
    var perc := Percent(step, p.total);
    if p.lastValue > step || perc <= p.lastPerc then (p, None)
    else (Perc(perc, 0, p.total), Some(Report(step, p.total > 0 && step >= p.total)))
  }

  function PercAfter(p: Perc, steps: seq<int>): Perc {
    if steps == [] then p else Advance(PercAfter(p, steps[..|steps| - 1]), steps[|steps| - 1]).0
  }

  function Reports(p: Perc, steps: seq<int>): seq<Report> {
    if steps == [] then []
    else
      var rest := steps[..|steps| - 1];
      match Advance(PercAfter(p, rest), steps[|steps| - 1]).1
      case None => Reports(p, rest)
      case Some(r) => Reports(p, rest) + [r]
  }

  // ----- The event manager -----------------------------------------------------------------

  type Id = string

  datatype Op = AddOp(id: Id, total: int, initial: int) | SetOp(id: Id, step: int)

  datatype Sent = Sent(id: Id, r: Report)

  datatype Manager = Manager(steps: map<Id, Perc>, sent: seq<Sent>)

  function Do(m: Manager, op: Op): Manager {
    match op
    case AddOp(id, total, initial) =>
      (match NewStep(total, initial)
       case None => m
       case Some(p) => m.(steps := m.steps[id := p]))
    case SetOp(id, step) =>
      if id !in m.steps then m
      else
        var (p, r) := Advance(m.steps[id], step);
        Manager(m.steps[id := p], if r.Some? then m.sent + [Sent(id, r.value)] else m.sent)
  }

  function DoAll(m: Manager, ops: seq<Op>): Manager {
    if ops == [] then m else Do(DoAll(m, ops[..|ops| - 1]), ops[|ops| - 1])
  }

  class EventManager {
    var steps: map<Id, Perc>
    var sent: seq<Sent>

    constructor()
      ensures Now() == Manager(map[], [])
    {
      steps, sent := map[], [];
    }

    function Now(): Manager
      reads this
    {
      Manager(steps, sent)
    }

    /** `id` is the identifier the event handler returned; false is the ValueError. */
    method AddPercentageStep(id: Id, totalSteps: int, initialStep: int) returns (ok: bool)
      modifies this`steps
      ensures Now() == Do(old(Now()), AddOp(id, totalSteps, initialStep))
      ensures ok <==> initialStep <= totalSteps || (totalSteps < 0 && initialStep <= 0)
    {
      var total := totalSteps;
      if total < 0 {
        total := 0;
      }
      if initialStep > total {
        return false;
      }
      var perc := 0;
      if initialStep > 0 && total > 0 {
        perc := initialStep * 100 / total;
      }
      steps := steps[id := Perc(perc, initialStep, total)];
      ok := true;
    }

    method SetPercentageStep(id: Id, newStep: int)
      modifies this
      ensures Now() == Do(old(Now()), SetOp(id, newStep))
    {
      if id !in steps {
        return;
      }
      var p := steps[id];
      if p.lastValue > newStep {
        assert steps[id := p] == steps;
        return;
      }
      var perc := 0;
      if p.total > 0 && newStep > 0 {
        perc := newStep * 100 / p.total;
      }
      if perc > p.lastPerc {
        sent := sent + [Sent(id, Report(newStep, p.total > 0 && newStep >= p.total))];
        steps := steps[id := Perc(perc, 0, p.total)];
      } else {
        assert steps[id := p] == steps;
      }
    }
  }

  // ----- Reports of one step ----------------------------------------------------------------

  lemma MulLe(a: int, b: int, d: int)
    requires a <= b && d >= 0
    ensures a * d <= b * d
  {
  }

  lemma QuotientAtLeast(x: int, d: int, k: int)
    requires d > 0
    ensures k <= x / d <==> k * d <= x
  {
    var q := x / d;
    assert q * d <= x < q * d + d;
    if k <= q {
      MulLe(k, q, d);
    } else {
      MulLe(q + 1, k, d);
      assert (q + 1) * d == q * d + d;
    }
  }

  lemma PercentMonotone(a: int, b: int, total: int)
    requires a <= b
    ensures 0 <= Percent(a, total) <= Percent(b, total)
  {
    if total > 0 && b > 0 {
      QuotientAtLeast(b * 100, total, 0);
      if a > 0 {
        QuotientAtLeast(a * 100, total, 0);
        QuotientAtLeast(a * 100, total, a * 100 / total);
        QuotientAtLeast(b * 100, total, a * 100 / total);
      }
    }
  }

  lemma PercentIsFull(step: int, total: int)
    requires total > 0 && step <= total
    ensures 0 <= Percent(step, total) <= 100
    ensures Percent(step, total) == 100 <==> step == total
  {
    if step > 0 {
      QuotientAtLeast(step * 100, total, 0);
      QuotientAtLeast(step * 100, total, 100);
      QuotientAtLeast(step * 100, total, 101);
    }
  }

  /** The percentage is the exact quotient rounded down, and nothing counts without a positive total and step. */
  lemma PercentIsFloor(step: int, total: int, k: int)
    ensures step <= 0 || total <= 0 ==> Percent(step, total) == 0
    ensures step > 0 && total > 0 ==> (Percent(step, total) == k <==> k * total <= step * 100 < (k + 1) * total)
  {
    if step > 0 && total > 0 {
      QuotientAtLeast(step * 100, total, k);
      QuotientAtLeast(step * 100, total, k + 1);
    }
  }

  predicate Within(p: Perc, steps: seq<int>) { forall s <- steps :: s <= p.total }

  /** What a sequence of updates leaves: percentages and steps of the reports rise strictly, the last
      one is the percentage kept, and there are no more reports than percentage points passed. */
  predicate Rising(p: Perc, rs: seq<Report>, last: int) {
    && (forall i | 0 <= i < |rs| :: p.lastPerc < Percent(rs[i].step, p.total) <= last)
    && (forall i, j | 0 <= i < j < |rs| :: Percent(rs[i].step, p.total) < Percent(rs[j].step, p.total))
    && |rs| <= last - p.lastPerc
    && (rs == [] ==> last == p.lastPerc)
    && (rs != [] ==> last == Percent(rs[|rs| - 1].step, p.total))
  }

  lemma {:induction false} ReportsRise(p: Perc, steps: seq<int>)
    ensures PercAfter(p, steps).total == p.total
    ensures Rising(p, Reports(p, steps), PercAfter(p, steps).lastPerc)
    decreases |steps|
  {
    if steps != [] {
      ReportsRise(p, steps[..|steps| - 1]);
    }
  }

  /** Reported steps rise strictly, also above the initial value. */
  lemma StepsRise(p: Perc, steps: seq<int>, i: nat, j: nat)
    requires i < j < |Reports(p, steps)|
    ensures Reports(p, steps)[i].step < Reports(p, steps)[j].step
  {
    ReportsRise(p, steps);
    var rs := Reports(p, steps);
    if rs[i].step >= rs[j].step { PercentMonotone(rs[j].step, rs[i].step, p.total); }
  }

  lemma FirstAboveInitial(total: int, initial: int, p: Perc, steps: seq<int>, i: nat)
    requires NewStep(total, initial) == Some(p) && i < |Reports(p, steps)|
    ensures Reports(p, steps)[i].step > initial
  {
    ReportsRise(p, steps);
    var rs := Reports(p, steps);
    if rs[i].step <= initial { PercentMonotone(rs[i].step, initial, p.total); }
  }

  /** At most one report per percentage point: never more than 100. */
  lemma AtMostHundredReports(total: int, initial: int, p: Perc, steps: seq<int>)
    requires NewStep(total, initial) == Some(p) && Within(p, steps)
    ensures |Reports(p, steps)| <= 100
  {
    ReportsRise(p, steps);
    var rs := Reports(p, steps);
    if rs != [] {
      var last := rs[|rs| - 1].step;
      ReportedIsGiven(p, steps, |rs| - 1);
      assert p.total > 0;
      PercentIsFull(last, p.total);
      PercentIsFull(initial, p.total);
    }
  }

  lemma {:induction false} ReportedIsGiven(p: Perc, steps: seq<int>, i: nat)
    requires i < |Reports(p, steps)|
    ensures Reports(p, steps)[i].step in steps
    ensures Reports(p, steps)[i].sync <==> p.total > 0 && Reports(p, steps)[i].step >= p.total
    decreases |steps|
  {
    var rest := steps[..|steps| - 1];
    ReportsRise(p, rest);
    if i < |Reports(p, rest)| {
      ReportedIsGiven(p, rest, i);
    }
  }

  /** Once the total has been given, it has been reported. */
  lemma {:induction false} TotalIsReported(p: Perc, steps: seq<int>)
    requires p.total > 0 && p.lastPerc < 100 && p.lastValue <= p.total && Within(p, steps) && p.total in steps
    ensures PercAfter(p, steps).lastPerc == 100 && Reports(p, steps) != []
    decreases |steps|
  {
    var rest, last := steps[..|steps| - 1], steps[|steps| - 1];
    assert last in steps;
    assert forall s <- rest :: s in steps;
    ReportsRise(p, rest);
    ReportsRise(p, steps);
    PercentIsFull(last, p.total);
    LastValueSmall(p, rest);
    if p.total in rest {
      TotalIsReported(p, rest);
    } else {
      LastPercBounded(p, rest);
    }
  }

  lemma {:induction false} LastValueSmall(p: Perc, steps: seq<int>)
    requires p.total > 0 && p.lastValue <= p.total
    ensures PercAfter(p, steps).lastValue <= p.total
    decreases |steps|
  {
    if steps != [] { LastValueSmall(p, steps[..|steps| - 1]); }
  }

  lemma LastPercBounded(p: Perc, steps: seq<int>)
    requires p.total > 0 && p.lastPerc < 100 && Within(p, steps) && p.total !in steps
    ensures PercAfter(p, steps).lastPerc < 100
  {
    ReportsRise(p, steps);
    var rs := Reports(p, steps);
    if rs != [] {
      ReportedIsGiven(p, steps, |rs| - 1);
      PercentIsFull(rs[|rs| - 1].step, p.total);
    }
  }

  /** A run that starts below a positive total and reaches it makes exactly one synchronous report:
      the last one, with the total as its step. */
  lemma OneFinalSync(total: int, initial: int, p: Perc, steps: seq<int>)
    requires NewStep(total, initial) == Some(p) && p.total > 0 && initial < p.total
    requires Within(p, steps) && p.total in steps
    ensures var rs := Reports(p, steps);
      && rs != [] && rs[|rs| - 1] == Report(p.total, true)
      && forall i | 0 <= i < |rs| - 1 :: !rs[i].sync
  {
    var rs := Reports(p, steps);
    PercentIsFull(initial, p.total);
    TotalIsReported(p, steps);
    ReportsRise(p, steps);
    ReportedIsGiven(p, steps, |rs| - 1);
    PercentIsFull(rs[|rs| - 1].step, p.total);
    forall i | 0 <= i < |rs| - 1 ensures !rs[i].sync {
      ReportedIsGiven(p, steps, i);
      PercentIsFull(rs[i].step, p.total);
      StepsRise(p, steps, i, |rs| - 1);
    }
  }

  // ----- Exactly which updates are reported ---------------------------------------------------

  /** The update exceeds, in percent, the initial value and every update before it. */
  predicate IsRecord(total: int, initial: int, steps: seq<int>, i: nat)
    requires i < |steps|
  {
    && Percent(initial, total) < Percent(steps[i], total)
    && forall j | 0 <= j < i :: Percent(steps[j], total) < Percent(steps[i], total)
  }

  /** The records among the updates, each marked when it reaches a positive total. */
  function Records(total: int, initial: int, steps: seq<int>): seq<Report> {
    if steps == [] then []
    else
      var n := |steps| - 1;
      var earlier := Records(total, initial, steps[..n]);
      if IsRecord(total, initial, steps, n) then earlier + [Report(steps[n], total > 0 && steps[n] >= total)]
      else earlier
  }

  /** The largest percentage of the initial value and the updates. */
  predicate Peak(total: int, initial: int, steps: seq<int>, perc: int) {
    && Percent(initial, total) <= perc && (forall s <- steps :: Percent(s, total) <= perc)
    && (perc == Percent(initial, total) || exists s <- steps :: perc == Percent(s, total))
  }

  /** After any updates the step keeps the largest percentage, and no value above it. */
  predicate AtPeak(p: Perc, total: int, initial: int, steps: seq<int>) {
    p.total == total && Peak(total, initial, steps, p.lastPerc) && Percent(p.lastValue, total) <= p.lastPerc
  }

  lemma AdvancePastPeak(p: Perc, total: int, initial: int, steps: seq<int>)
    requires steps != [] && AtPeak(p, total, initial, steps[..|steps| - 1])
    ensures var n := |steps| - 1;
      var (p', r) := Advance(p, steps[n]);
      && AtPeak(p', total, initial, steps)
      && r == if IsRecord(total, initial, steps, n) then Some(Report(steps[n], total > 0 && steps[n] >= total))
              else None
  {
    var n := |steps| - 1;
    var front, last := steps[..n], steps[n];
    assert steps == front + [last];
    assert last in steps;
    assert forall s <- front :: s in steps;
    assert forall j | 0 <= j < n :: steps[j] in front;
    if p.lastValue > last { PercentMonotone(last, p.lastValue, total); }
    if IsRecord(total, initial, steps, n) { RecordIsHigher(total, initial, steps, p.lastPerc); }
  }

  lemma RecordIsHigher(total: int, initial: int, steps: seq<int>, perc: int)
    requires steps != [] && Peak(total, initial, steps[..|steps| - 1], perc)
    requires IsRecord(total, initial, steps, |steps| - 1)
    ensures perc < Percent(steps[|steps| - 1], total)
  {
    var front := steps[..|steps| - 1];
    if perc != Percent(initial, total) {
      var s :| s in front && perc == Percent(s, total);
      var j :| 0 <= j < |front| && front[j] == s;
      assert steps[j] == s;
    }
  }

  lemma {:induction false} RunReachesPeak(total: int, initial: int, p: Perc, steps: seq<int>)
    requires NewStep(total, initial) == Some(p)
    ensures AtPeak(PercAfter(p, steps), p.total, initial, steps)
    ensures Reports(p, steps) == Records(p.total, initial, steps)
    decreases |steps|
  {
    if steps == [] {
    } else {
      var front := steps[..|steps| - 1];
      RunReachesPeak(total, initial, p, front);
      AdvancePastPeak(PercAfter(p, front), p.total, initial, steps);
    }
  }

  /** For every new step and any updates, in any order and below the initial value or not: an update is
      reported if and only if its percentage exceeds the initial one and those of all earlier updates, so the
      last report carries the largest percentage. */
  lemma ReportsAreRecords(total: int, initial: int, steps: seq<int>)
    ensures var t := if total < 0 then 0 else total;
      if initial > t then NewStep(total, initial) == None
      else
        && NewStep(total, initial).Some?
        && var p := NewStep(total, initial).value;
        && Reports(p, steps) == Records(t, initial, steps)
        && Peak(t, initial, steps, PercAfter(p, steps).lastPerc)
  {
    var t := if total < 0 then 0 else total;
    if initial <= t {
      RunReachesPeak(total, initial, NewStep(total, initial).value, steps);
    }
  }

  /** An update below the initial value, whenever it comes, changes nothing and is not reported. */
  lemma BelowInitialIsIgnored(total: int, initial: int, p: Perc, steps: seq<int>, low: int)
    requires NewStep(total, initial) == Some(p) && low < initial
    ensures PercAfter(p, steps + [low]) == PercAfter(p, steps) && Reports(p, steps + [low]) == Reports(p, steps)
  {
    assert (steps + [low])[..|steps|] == steps;
    RunReachesPeak(total, initial, p, steps);
    PercentMonotone(low, initial, p.total);
  }

  // ----- Steps with different identifiers -----------------------------------------------------

  function OpsOf(ops: seq<Op>, id: Id): seq<Op> {
    if ops == [] then []
    else
      var rest, last := OpsOf(ops[..|ops| - 1], id), ops[|ops| - 1];
      if last.id == id then rest + [last] else rest
  }

  function SentOf(sent: seq<Sent>, id: Id): seq<Report> {
    if sent == [] then []
    else
      var rest, last := SentOf(sent[..|sent| - 1], id), sent[|sent| - 1];
      if last.id == id then rest + [last.r] else rest
  }

  /** The two managers are in the same position about one step. */
  predicate SameAbout(a: Manager, b: Manager, id: Id) {
    && (id in a.steps <==> id in b.steps)
    && (id in a.steps ==> a.steps[id] == b.steps[id])
    && SentOf(a.sent, id) == SentOf(b.sent, id)
  }

  lemma SentOfAppend(sent: seq<Sent>, x: Sent, id: Id)
    ensures SentOf(sent + [x], id) == if x.id == id then SentOf(sent, id) + [x.r] else SentOf(sent, id)
  {
    assert (sent + [x])[..|sent|] == sent;
  }

  lemma OtherOpChangesNothing(m: Manager, op: Op, id: Id)
    requires op.id != id
    ensures SameAbout(Do(m, op), m, id)
  {
    if op.SetOp? && op.id in m.steps {
      var r := Advance(m.steps[op.id], op.step).1;
      if r.Some? { SentOfAppend(m.sent, Sent(op.id, r.value), id); }
    }
  }

  lemma SameOpStaysSame(a: Manager, b: Manager, op: Op, id: Id)
    requires op.id == id && SameAbout(a, b, id)
    ensures SameAbout(Do(a, op), Do(b, op), id)
  {
    if op.SetOp? && id in a.steps {
      var r := Advance(a.steps[id], op.step).1;
      if r.Some? {
        SentOfAppend(a.sent, Sent(id, r.value), id);
        SentOfAppend(b.sent, Sent(id, r.value), id);
      }
    }
  }

  /** The reports and the position of one step are what they would be if only that step had been
      used, whatever happens to the others in between. */
  lemma {:induction false} StepsDoNotInterfere(m: Manager, ops: seq<Op>, id: Id)
    ensures SameAbout(DoAll(m, ops), DoAll(m, OpsOf(ops, id)), id)
    decreases |ops|
  {
    if ops != [] {
      var rest, last := ops[..|ops| - 1], ops[|ops| - 1];
      StepsDoNotInterfere(m, rest, id);
      if last.id == id {
        var mine := OpsOf(ops, id);
        assert mine[..|mine| - 1] == OpsOf(rest, id);
        SameOpStaysSame(DoAll(m, rest), DoAll(m, OpsOf(rest, id)), last, id);
      } else {
        OtherOpChangesNothing(DoAll(m, rest), last, id);
      }
    }
  }

  function SetOps(id: Id, steps: seq<int>): (ops: seq<Op>)
    ensures |ops| == |steps| && forall i | 0 <= i < |steps| :: ops[i] == SetOp(id, steps[i])
  {
    seq(|steps|, i requires 0 <= i < |steps| => SetOp(id, steps[i]))
  }

  /** A manager whose updates concern one step keeps that step's position and sends its reports. */
  lemma {:induction false} SoloRun(m: Manager, id: Id, steps: seq<int>)
    requires id in m.steps
    ensures var after := DoAll(m, SetOps(id, steps));
      && id in after.steps && after.steps[id] == PercAfter(m.steps[id], steps)
      && SentOf(after.sent, id) == SentOf(m.sent, id) + Reports(m.steps[id], steps)
    decreases |steps|
  {
    if steps != [] {
      var rest, last := steps[..|steps| - 1], steps[|steps| - 1];
      SoloRun(m, id, rest);
      var ops := SetOps(id, steps);
      assert ops[..|ops| - 1] == SetOps(id, rest);
      var before := DoAll(m, SetOps(id, rest));
      var r := Advance(before.steps[id], last).1;
      if r.Some? { SentOfAppend(before.sent, Sent(id, r.value), id); }
    }
  }

  lemma {:induction false} DoAllAppend(m: Manager, xs: seq<Op>, ys: seq<Op>)
    ensures DoAll(m, xs + ys) == DoAll(DoAll(m, xs), ys)
    decreases |ys|
  {
    if ys == [] {
      assert xs + ys == xs;
    } else {
      assert (xs + ys)[..|xs + ys| - 1] == xs + ys[..|ys| - 1];
      DoAllAppend(m, xs, ys[..|ys| - 1]);
    }
  }

  /** A manager used for any number of steps at once, and for this one already, sends after the step is added
      (again) exactly the records among its updates. */
  lemma ManagerSendsRecords(ops: seq<Op>, id: Id, before: seq<Op>, total: int, initial: int, steps: seq<int>)
    requires OpsOf(ops, id) == before + [AddOp(id, total, initial)] + SetOps(id, steps)
    ensures var t := if total < 0 then 0 else total;
      var m := Manager(map[], []);
      initial <= t ==>
        SentOf(DoAll(m, ops).sent, id) == SentOf(DoAll(m, before).sent, id) + Records(t, initial, steps)
  {
    var m := Manager(map[], []);
    var added := before + [AddOp(id, total, initial)];
    StepsDoNotInterfere(m, ops, id);
    DoAllAppend(m, added, SetOps(id, steps));
    ReportsAreRecords(total, initial, steps);
    if NewStep(total, initial).Some? {
      assert added[..|added| - 1] == before;
      SoloRun(DoAll(m, added), id, steps);
    }
  }

  // ----- The stored progress ----------------------------------------------------------------------

  const MAX_MESSAGE := 1024

  function Truncated(message: string): (r: string)
    ensures |message| <= 1024 ==> r == message
    ensures |message| > 1024 ==> |r| == 1024 && r[..1021] == message[..1021] && r[1021..] == "..."
  {
    if |message| > MAX_MESSAGE then message[..MAX_MESSAGE - 3] + "..." else message
  }

  datatype Update = Update(step: int, total: Option<int>, message: Option<string>)

  datatype Row = Row(current: int, total: int, message: string)

  /** An update that is behind the stored step is ignored as a whole. */
  function Store(row: Row, u: Update): Row {
    if u.step < row.current then row
    else Row(
      u.step,
      if u.total.Some? then u.total.value else row.total,
      if u.message.Some? then Truncated(u.message.value) else row.message)
  }

  function StoreAll(row: Row, us: seq<Update>): Row {
    if us == [] then row else Store(StoreAll(row, us[..|us| - 1]), us[|us| - 1])
  }

  class ProgressRow {
    var current: int
    var total: int
    var message: string

    method UpdateProgress(newStep: int, newTotal: Option<int>, newMessage: Option<string>)
      modifies this
      ensures Row(current, total, message) ==
              Store(old(Row(current, total, message)), Update(newStep, newTotal, newMessage))
    {
      if newStep < current {
        return;
      }
      current := newStep;
      if newTotal.Some? {
        total := newTotal.value;
      }
      if newMessage.Some? {
        message := Truncated(newMessage.value);
      }
    }
  }

  /** The stored step ends as the largest of the initial one and all delivered ones. */
  lemma {:induction false} StoredIsMaximum(row: Row, us: seq<Update>)
    ensures var c := StoreAll(row, us).current;
      && c >= row.current && (forall u <- us :: c >= u.step)
      && (c == row.current || exists u <- us :: c == u.step)
    decreases |us|
  {
    if us != [] {
      var rest, last := us[..|us| - 1], us[|us| - 1];
      StoredIsMaximum(row, rest);
      assert us == rest + [last];
      assert last in us;
      assert forall u <- rest :: u in us;
    }
  }

  /** The update is behind neither the stored step nor any update delivered before it. */
  predicate Taken(row: Row, us: seq<Update>, i: nat)
    requires i < |us|
  {
    row.current <= us[i].step && forall j | 0 <= j < i :: us[j].step <= us[i].step
  }

  /** `i` is the last taken update of those that `carries` selects; -1 if there is none. */
  predicate LastTaken(row: Row, us: seq<Update>, carries: Update -> bool, i: int) {
    && -1 <= i < |us| && (i >= 0 ==> Taken(row, us, i) && carries(us[i]))
    && forall j | i < j < |us| :: !(Taken(row, us, j) && carries(us[j]))
  }

  lemma LastTakenFront(row: Row, us: seq<Update>, carries: Update -> bool, i: int)
    requires us != [] && LastTaken(row, us, carries, i) && i < |us| - 1
    ensures LastTaken(row, us[..|us| - 1], carries, i)
  {
    var front := us[..|us| - 1];
    forall j | 0 <= j < |front| ensures Taken(row, front, j) <==> Taken(row, us, j) {
      assert forall k | 0 <= k <= j :: front[k] == us[k];
    }
  }

  lemma TakenIff(row: Row, us: seq<Update>)
    requires us != []
    ensures Taken(row, us, |us| - 1) <==> us[|us| - 1].step >= StoreAll(row, us[..|us| - 1]).current
  {
    var front, last := us[..|us| - 1], us[|us| - 1];
    StoredIsMaximum(row, front);
    assert forall j | 0 <= j < |front| :: us[j] == front[j] && front[j] in front;
  }

  predicate HasTotal(u: Update) { u.total.Some? }

  predicate HasMessage(u: Update) { u.message.Some? }

  /** The stored total is that of the last update taken that carries one; without one it is as it was. */
  lemma {:induction false} StoredTotal(row: Row, us: seq<Update>, i: int)
    requires LastTaken(row, us, HasTotal, i)
    ensures StoreAll(row, us).total == if i >= 0 then us[i].total.value else row.total
    decreases |us|
  {
    if us != [] {
      TakenIff(row, us);
      if i < |us| - 1 {
        LastTakenFront(row, us, HasTotal, i);
        StoredTotal(row, us[..|us| - 1], i);
      }
    }
  }

  /** The same for the stored message, which is cut to its limit. */
  lemma {:induction false} StoredMessage(row: Row, us: seq<Update>, i: int)
    requires LastTaken(row, us, HasMessage, i)
    ensures StoreAll(row, us).message == if i >= 0 then Truncated(us[i].message.value) else row.message
    decreases |us|
  {
    if us != [] {
      TakenIff(row, us);
      if i < |us| - 1 {
        LastTakenFront(row, us, HasMessage, i);
        StoredMessage(row, us[..|us| - 1], i);
      }
    }
  }

  function Deliveries(rs: seq<Report>): (us: seq<Update>)
    ensures |us| == |rs| && forall i | 0 <= i < |rs| :: us[i] == Update(rs[i].step, None, None)
  {
    seq(|rs|, i requires 0 <= i < |rs| => Update(rs[i].step, None, None))
  }

  /** From the manager to the database: in whatever order the reports of one step are delivered, the
      stored step ends as the last one reported, or as the initial one if there was none. */
  lemma DeliveryOrderIrrelevant(total: int, initial: int, p: Perc, steps: seq<int>, us: seq<Update>, row: Row)
    requires NewStep(total, initial) == Some(p) && row.current == initial
    requires multiset(us) == multiset(Deliveries(Reports(p, steps)))
    ensures var rs := Reports(p, steps);
      StoreAll(row, us).current == if rs == [] then initial else rs[|rs| - 1].step
  {
    var rs := Reports(p, steps);
    var sent := Deliveries(rs);
    StoredIsMaximum(row, us);
    forall u | u in us ensures exists i :: 0 <= i < |rs| && u == sent[i] {
      assert u in multiset(us);
      assert u in sent;
    }
    if rs == [] {
      assert |us| == |multiset(us)| == |multiset(sent)|;
    } else {
      var n := |rs| - 1;
      assert sent[n] in multiset(sent);
      assert sent[n] in us;
      FirstAboveInitial(total, initial, p, steps, n);
      forall u | u in us ensures u.step <= rs[n].step {
        var i :| 0 <= i < |rs| && u == sent[i];
        if i < n { StepsRise(p, steps, i, n); }
      }
    }
  }
}
