/** The retry counters of the two loops, over whole histories of what `recvfrom` returned. */
module Retries {
  import opened Bytes
  import opened Wire
  import opened Endpoints

  function Timeouts(es: seq<Event>): nat {
    if es == [] then 0
    else Timeouts(es[..|es| - 1]) + (if es[|es| - 1].Timeout? then 1 else 0)
  }

  function Packets(es: seq<Event>): nat {
    if es == [] then 0
    else Packets(es[..|es| - 1]) + (if es[|es| - 1].Received? then 1 else 0)
  }

  /** How many timeouts the history ends with. */
  function Trailing(es: seq<Event>): (n: nat)
    ensures n <= |es|
    ensures forall i :: |es| - n <= i < |es| ==> es[i].Timeout?
    ensures n < |es| ==> !es[|es| - n - 1].Timeout?
  {
    if es == [] || !es[|es| - 1].Timeout? then 0 else 1 + Trailing(es[..|es| - 1])
  }

  function GetRun(es: seq<Event>): Receiver {
    if es == [] then GET_START else GetStep(GetRun(es[..|es| - 1]), es[|es| - 1]).0
  }

  function PutRun(v: Variant, f: seq<byte>, es: seq<Event>): Sender {
    if es == [] then PUT_START else PutStep(v, f, PutRun(v, f, es[..|es| - 1]), es[|es| - 1]).0
  }

  /** The loop was still there to take the last event: it consumed the whole history. */
  predicate GetTakes(es: seq<Event>) {
    es == [] || GetRun(es[..|es| - 1]).verdict == Running
  }

  /** Likewise for the main receive at line 242, and not the single receive at line 310. */
  predicate PutTakes(v: Variant, f: seq<byte>, es: seq<Event>) {
    es == [] || (var s := PutRun(v, f, es[..|es| - 1]);
                 s.verdict == Running && !(v == AsWritten && s.final))
  }

  /** The sender was still there, in its main loop or in the single receive. */
  predicate PutConsumes(v: Variant, f: seq<byte>, es: seq<Event>) {
    es == [] || PutRun(v, f, es[..|es| - 1]).verdict == Running
  }

  /** What the loop does about the event at `i` of a history. */
  function GetAnswer(es: seq<Event>, i: nat): Output
    requires i < |es|
  {
    GetStep(GetRun(es[..i]), es[i]).1
  }

  function PutAnswer(v: Variant, f: seq<byte>, es: seq<Event>, i: nat): Output
    requires i < |es|
  {
    PutStep(v, f, PutRun(v, f, es[..i]), es[i]).1
  }

  /** What the retry counter says about the history consumed so far. */
  ghost predicate Accounted(es: seq<Event>, retries: nat, verdict: Verdict) {
    && Timeouts(es) <= MAX_RETRIES * Packets(es) + retries
    && |es| <= Timeouts(es) + Packets(es) + (if verdict == Failed then 1 else 0)
    && (verdict != Failed ==> retries == Trailing(es))
    && retries <= MAX_RETRIES + 1
    && (verdict == MaxRetries <==> retries == MAX_RETRIES + 1)
  }

  /** An error, of the socket or sent by the peer. */
  predicate IsFailure(e: Event) {
    e.ReceiveError? || (e.Received? && e.packet.Error?)
  }

  lemma {:induction false} GetAccounted(es: seq<Event>)
    requires GetTakes(es)
    ensures Accounted(es, GetRun(es).retries, GetRun(es).verdict)
  {
    if es != [] {
      var before, e := es[..|es| - 1], es[|es| - 1];
      assert GetTakes(before);
      GetAccounted(before);
    }
  }

  lemma PutStepAccounted(v: Variant, f: seq<byte>, before: seq<Event>, s: Sender, e: Event)
    requires s.verdict == Running && !(v == AsWritten && s.final)
    requires Accounted(before, s.retries, s.verdict)
    ensures var s' := PutStep(v, f, s, e).0; Accounted(before + [e], s'.retries, s'.verdict)
  {
    var es := before + [e];
    assert es[..|es| - 1] == before;
  }

  lemma {:induction false} PutAccounted(v: Variant, f: seq<byte>, es: seq<Event>)
    requires PutTakes(v, f, es)
    ensures Accounted(es, PutRun(v, f, es).retries, PutRun(v, f, es).verdict)
  {
    if es != [] {
      var before, e := es[..|es| - 1], es[|es| - 1];
      assert PutTakes(v, f, before);
      PutAccounted(v, f, before);
      PutStepAccounted(v, f, before, PutRun(v, f, before), e);
      assert before + [e] == es;
    }
  }

  /**
   The get loop: a history of p packets that it consumed has at most 5p + 6 timeouts, so the loop
   ends within 6p + 6 receives; and it fails with "max retries" exactly when the history ends with
   six timeouts in a row, and otherwise only when it ends with an error.
   */
  lemma {:induction false} GetRetries(es: seq<Event>)
    requires GetTakes(es)
    ensures Timeouts(es) <= 5 * Packets(es) + 6
    ensures |es| <= 6 * Packets(es) + 6
    ensures GetRun(es).verdict == MaxRetries <==> Trailing(es) == 6
    ensures Trailing(es) <= 6
    ensures GetRun(es).verdict == Failed <==> es != [] && IsFailure(es[|es| - 1])
  {
    GetAccounted(es);
  }

  lemma {:induction false} PutRetries(v: Variant, f: seq<byte>, es: seq<Event>)
    requires PutTakes(v, f, es)
    ensures Timeouts(es) <= 5 * Packets(es) + 6
    ensures |es| <= 6 * Packets(es) + 6
    ensures PutRun(v, f, es).verdict == MaxRetries <==> Trailing(es) == 6
    ensures Trailing(es) <= 6
    ensures PutRun(v, f, es).verdict == Failed <==> es != [] && IsFailure(es[|es| - 1])
  {
    PutAccounted(v, f, es);
  }

  lemma CountSnoc(es: seq<Event>, e: Event)
    ensures Timeouts(es + [e]) == Timeouts(es) + if e.Timeout? then 1 else 0
    ensures Packets(es + [e]) == Packets(es) + if e.Received? then 1 else 0
  {
    assert (es + [e])[..|es|] == es;
  }

  lemma PutRunSnoc(v: Variant, f: seq<byte>, es: seq<Event>, e: Event)
    ensures PutRun(v, f, es + [e]) == PutStep(v, f, PutRun(v, f, es), e).0
    ensures PutConsumes(v, f, es + [e]) <==> PutRun(v, f, es).verdict == Running
  {
    assert (es + [e])[..|es|] == es;
  }

  lemma GetRunSnoc(es: seq<Event>, e: Event)
    ensures GetRun(es + [e]) == GetStep(GetRun(es), e).0
    ensures GetTakes(es + [e]) <==> GetRun(es).verdict == Running
  {
    assert (es + [e])[..|es|] == es;
  }

  /** The single receive is the last: all before it is the main loop's, so the bounds carry over. */
  lemma SingleReceiveIsLast(v: Variant, f: seq<byte>, es: seq<Event>)
    requires PutConsumes(v, f, es)
    ensures es != [] ==> PutTakes(v, f, es[..|es| - 1])
    ensures Timeouts(es) <= 5 * Packets(es) + 7
    ensures |es| <= 6 * Packets(es) + 7
  {
    if es != [] {
      var before, e := es[..|es| - 1], es[|es| - 1];
      if before != [] {
        assert before == before[..|before| - 1] + [before[|before| - 1]];
        PutRunSnoc(v, f, before[..|before| - 1], before[|before| - 1]);
      }
      PutRetries(v, f, before);
    }
  }

  lemma {:induction false} ConsumesBefore(v: Variant, f: seq<byte>, es: seq<Event>, k: nat)
    requires PutConsumes(v, f, es) && k <= |es|
    ensures PutConsumes(v, f, es[..k])
  {
    if k < |es| {
      var before := es[..|es| - 1];
      SingleReceiveIsLast(v, f, es);
      ConsumesBefore(v, f, before, k);
      assert before[..k] == es[..k];
    } else {
      assert es[..k] == es;
    }
  }
}
