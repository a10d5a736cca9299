/** How each stage operation changes what the stage holds and counts. */
module Stages {
  import opened Pipeline

  lemma {:induction false} ReplaceEncoder(es: seq<Encoder>, i: nat, e: Encoder, p: Payload)
    requires i < |es|
    ensures Carried(es[i := e], p) == Carried(es, p) - EncoderCarries(es[i], p) + EncoderCarries(e, p)
    ensures Busy(es[i := e]) == Busy(es) - EncoderBusy(es[i]) + EncoderBusy(e)
    ensures Busy(es) >= EncoderBusy(es[i])
    decreases |es|
  {
    if i == 0 {
      assert es[i := e][1..] == es[1..];
    } else {
      ReplaceEncoder(es[1..], i - 1, e, p);
      assert es[i := e][1..] == es[1..][i - 1 := e];
    }
  }

  lemma {:induction false} QueuedAppend(q: seq<Msg>, m: Msg, p: Payload)
    ensures Queued(q + [m], p) == Queued(q, p) + if m.payload == p then 1 else 0
    decreases |q|
  {
    if q == [] {
      assert q + [m] == [m];
    } else {
      assert (q + [m])[1..] == q[1..] + [m];
      QueuedAppend(q[1..], m, p);
    }
  }

  lemma {:induction false} IdleCarriesNothing(es: seq<Encoder>, p: Payload)
    ensures Busy(es) == 0 ==> Carried(es, p) == 0
    decreases |es|
  {
    if es != [] {
      IdleCarriesNothing(es[1..], p);
    }
  }

  lemma {:induction false} NoneBusy(es: seq<Encoder>, p: Payload)
    requires forall e <- es :: e.ETest?
    ensures Busy(es) == 0 && Carried(es, p) == 0
    decreases |es|
  {
    if es != [] {
      assert es[0] in es;
      NoneBusy(es[1..], p);
    }
  }

  lemma EncPushEffect(enc: EncStage, x: Payload, p: Payload)
    requires EncCounts(enc)
    ensures EncCounts(EncPush(enc, x))
    ensures EncHolds(EncPush(enc, x), p) == EncHolds(enc, p) + if x == p then 1 else 0
  {
  }

  lemma EncTakeEffect(enc: EncStage, i: nat, p: Payload)
    requires EncCounts(enc) && i < |enc.threads| && enc.threads[i].EIdle? && enc.q != []
    ensures EncCounts(EncTake(enc, i))
    ensures EncHolds(EncTake(enc, i), p) == EncHolds(enc, p)
  {
    ReplaceEncoder(enc.threads, i, EHold(enc.q[0]), p);
    assert enc.q == [enc.q[0]] + enc.q[1..];
  }

  lemma EncMoveEffect(enc: EncStage, i: nat, e: Encoder, p: Payload)
    requires EncCounts(enc) && i < |enc.threads| && EncoderBusy(e) == EncoderBusy(enc.threads[i])
    ensures EncCounts(EncMove(enc, i, e)) && enc.unfinished >= EncoderBusy(e)
    ensures EncHolds(EncMove(enc, i, e), p) ==
            EncHolds(enc, p) - EncoderCarries(enc.threads[i], p) + EncoderCarries(e, p)
  {
    ReplaceEncoder(enc.threads, i, e, p);
  }

  lemma EncFinishEffect(enc: EncStage, i: nat, e: Encoder, p: Payload)
    requires EncCounts(enc) && i < |enc.threads|
    requires EncoderBusy(enc.threads[i]) == 1 && EncoderBusy(e) == 0
    ensures EncCounts(EncFinish(enc, i, e)) && enc.unfinished >= 1
    ensures EncHolds(EncFinish(enc, i, e), p) ==
            EncHolds(enc, p) - EncoderCarries(enc.threads[i], p) + EncoderCarries(e, p)
  {
    ReplaceEncoder(enc.threads, i, e, p);
  }

  lemma SndPushEffect(snd: SndStage, m: Msg, p: Payload)
    requires SndCounts(snd)
    ensures SndCounts(SndPush(snd, m))
    ensures SndHolds(SndPush(snd, m), p) == SndHolds(snd, p) + if m.payload == p then 1 else 0
  {
    QueuedAppend(snd.q, m, p);
  }

  lemma SndTakeEffect(snd: SndStage, p: Payload)
    requires SndCounts(snd) && snd.thread.SIdle? && snd.q != []
    ensures SndCounts(SndTake(snd)) && SndHolds(SndTake(snd), p) == SndHolds(snd, p)
  {
  }
}
