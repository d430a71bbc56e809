/**
 What the two ends take in and send, in runs of any labels: no growth under duplication (RFC 1123
 section 4.2.3.1), and every run matched by one that only replays.
 */
module Traffic {
  import opened Bytes
  import opened Blocks
  import opened Endpoints
  import opened Network
  import opened Retries
  import opened UnorderedSafety

  function After(v: Variant, f: seq<byte>, trace: seq<Label>): Net {
    Run(v, f, START, trace)
  }

  lemma AfterSnoc(v: Variant, f: seq<byte>, trace: seq<Label>, l: Label)
    ensures After(v, f, trace + [l]) == Step(v, f, After(v, f, trace), l)
  {
    RunConcat(v, f, START, trace, [l]);
    var n := After(v, f, trace);
    assert Run(v, f, n, [l]) == Run(v, f, Step(v, f, n, l), [l][1..]);
  }

  /** What the step `l` brings to an end that is still in its loop. */
  datatype Arrival = Nothing | Arrives(event: Event, stamp: nat) {
    function Events(): seq<Event> {
      if Arrives? then [event] else []
    }
  }

  function Pick(q: seq<Copy>, i: nat): Arrival {
    if i < |q| then Arrives(Received(q[i].packet), q[i].stamp) else Nothing
  }

  function ToSender(n: Net, l: Label): Arrival {
    if n.s.verdict != Running then Nothing
    else match l
      case SenderTimeout => Arrives(Timeout, n.s.fetched)
      case TakeAck => Pick(n.acks, 0)
      case ReplayAck(i) => Pick(n.acks, i)
      case _ => Nothing
  }

  function ToReceiver(n: Net, l: Label): Arrival {
    if n.r.verdict != Running then Nothing
    else match l
      case ReceiverTimeout => Arrives(Timeout, |n.r.writes|)
      case TakeData => Pick(n.data, 0)
      case ReplayData(i) => Pick(n.data, i)
      case _ => Nothing
  }

  function SenderSends(v: Variant, f: seq<byte>, n: Net, a: Arrival): seq<Copy> {
    if a.Arrives? then SenderSees(v, f, n.(data := []), a.event).data else []
  }

  function ReceiverSends(n: Net, a: Arrival): seq<Copy> {
    if a.Arrives? then ReceiverSees(n.(acks := []), a.event, a.stamp).acks else []
  }

  /** A run as the two ends see it: the events each took in, and the datagrams each sent. */
  datatype Record = Record(toSender: seq<Event>, toReceiver: seq<Event>, data: seq<Copy>, acks: seq<Copy>)

  function Extended(v: Variant, f: seq<byte>, rec: Record, n: Net, l: Label): Record {
    var a, b := ToSender(n, l), ToReceiver(n, l);
    Record(rec.toSender + a.Events(), rec.toReceiver + b.Events(),
           rec.data + SenderSends(v, f, n, a), rec.acks + ReceiverSends(n, b))
  }

  function Recorded(v: Variant, f: seq<byte>, trace: seq<Label>): Record {
    if trace == [] then Record([], [], [], [])
    else
      var before := trace[..|trace| - 1];
      Extended(v, f, Recorded(v, f, before), After(v, f, before), trace[|trace| - 1])
  }

  lemma RecordedSnoc(v: Variant, f: seq<byte>, trace: seq<Label>, l: Label)
    ensures var n, rec, rec' := After(v, f, trace), Recorded(v, f, trace), Recorded(v, f, trace + [l]);
            && rec' == Extended(v, f, rec, n, l)
            && (ToSender(n, l).Nothing? ==> rec'.toSender == rec.toSender && rec'.data == rec.data)
            && (ToReceiver(n, l).Nothing? ==> rec'.toReceiver == rec.toReceiver && rec'.acks == rec.acks)
  {
    assert (trace + [l])[..|trace|] == trace;
  }

  /** `part` holds nothing but datagrams of `whole`. */
  ghost predicate Within(part: seq<Copy>, whole: seq<Copy>) {
    forall i :: 0 <= i < |part| ==> part[i] in whole
  }

  /** What a step does to the ends, in terms of what arrives. */
  lemma StepEnds(v: Variant, f: seq<byte>, n: Net, l: Label)
    ensures var n' := Step(v, f, n, l);
            var a, b := ToSender(n, l), ToReceiver(n, l);
            && n'.s == (if a.Arrives? then PutStep(v, f, n.s, a.event).0 else n.s)
            && n'.r == (if b.Arrives? then GetStep(n.r, b.event).0 else n.r)
            && (a.Nothing? || b.Nothing?)
  {
  }

  /** A step puts into a channel what the end sends, and nothing else. */
  lemma StepSends(v: Variant, f: seq<byte>, n: Net, l: Label)
    ensures var n' := Step(v, f, n, l);
            && Within(n'.data, n.data + SenderSends(v, f, n, ToSender(n, l)))
            && Within(n'.acks, n.acks + ReceiverSends(n, ToReceiver(n, l)))
  {
  }

  /** A step that only replays takes nothing out either. */
  lemma ReplaySends(v: Variant, f: seq<byte>, n: Net, l: Label)
    requires Unordered(l)
    ensures var n' := Step(v, f, n, l);
            && n'.data == n.data + SenderSends(v, f, n, ToSender(n, l))
            && n'.acks == n.acks + ReceiverSends(n, ToReceiver(n, l))
  {
  }

  /** The stamps of the datagrams that are not retransmissions, in sending order. */
  function Firsts(q: seq<Copy>): seq<nat> {
    if q == [] then []
    else Firsts(q[..|q| - 1]) + (if q[|q| - 1].again then [] else [q[|q| - 1].stamp])
  }

  lemma FirstsSnoc(q: seq<Copy>, c: Copy)
    ensures Firsts(q + [c]) == Firsts(q) + (if c.again then [] else [c.stamp])
  {
    assert (q + [c])[..|q|] == q;
  }

  function UpTo(k: nat): seq<nat> {
    seq(k, i => i + 1)
  }

  lemma UpToSnoc(k: nat)
    ensures UpTo(k + 1) == UpTo(k) + [k + 1]
  {
  }

  /** Blocks started: all that were read, but for the empty last one that the code does not send. */
  function Started(v: Variant, f: seq<byte>, s: Sender): nat {
    if v == AsWritten && s.fetched >= 1 && Block(f, s.fetched) == [] then s.fetched - 1 else s.fetched
  }

  ghost predicate SenderCounted(f: seq<byte>, s: Sender) {
    s.fetched <= Count(f) && s.final == (s.fetched == Count(f))
  }

  /** All that one event can do to the sender's side of the traffic. */
  lemma SenderEffect(v: Variant, f: seq<byte>, n: Net, e: Event)
    requires SenderCounted(f, n.s)
    ensures var s' := PutStep(v, f, n.s, e).0;
            var sent := SenderSends(v, f, n, Arrives(e, n.s.fetched));
            var k := n.s.fetched + 1;
            && SenderCounted(f, s')
            && (|| (s'.fetched == n.s.fetched && sent == [])
                || (s'.fetched == n.s.fetched && e.Timeout?
                    && exists c: Copy :: c.again && sent == [c])
                || (s'.fetched == k && sent == [] && v == AsWritten && Block(f, k) == [])
                || (s'.fetched == k && !(v == AsWritten && Block(f, k) == [])
                    && exists c: Copy :: !c.again && c.stamp == k && sent == [c]))
  {
    var s' := PutStep(v, f, n.s, e).0;
    var sent := SenderSends(v, f, n, Arrives(e, n.s.fetched));
    if s'.fetched != n.s.fetched {
      OnlyLastShort(f, n.s.fetched + 1);
    }
    if sent != [] {
      assert sent == [sent[0]];
    }
  }

  /** Each block started was sent for the first time exactly once, in order; the rest are timeouts. */
  ghost predicate FirstOnce(v: Variant, f: seq<byte>, s: Sender, data: seq<Copy>, timeouts: nat) {
    && SenderCounted(f, s)
    && Firsts(data) == UpTo(Started(v, f, s))
    && |data| <= Started(v, f, s) + timeouts
  }

  lemma SenderTraffic(v: Variant, f: seq<byte>, n: Net, e: Event, data: seq<Copy>, timeouts: nat)
    requires FirstOnce(v, f, n.s, data, timeouts)
    ensures FirstOnce(v, f, PutStep(v, f, n.s, e).0,
                      data + SenderSends(v, f, n, Arrives(e, n.s.fetched)),
                      timeouts + if e.Timeout? then 1 else 0)
  {
    var s' := PutStep(v, f, n.s, e).0;
    var sent := SenderSends(v, f, n, Arrives(e, n.s.fetched));
    var k := n.s.fetched + 1;
    SenderEffect(v, f, n, e);
    UpToSnoc(n.s.fetched);
    if s'.fetched == k && k > 1 {
      OnlyLastShort(f, k - 1);
    }
    if sent == [] {
      assert data + sent == data;
    } else {
      FirstsSnoc(data, sent[0]);
    }
  }

  lemma {:induction false} DataTraffic(v: Variant, f: seq<byte>, trace: seq<Label>)
    ensures var rec := Recorded(v, f, trace);
            FirstOnce(v, f, After(v, f, trace).s, rec.data, Timeouts(rec.toSender))
  {
    if trace != [] {
      var before, l := trace[..|trace| - 1], trace[|trace| - 1];
      assert before + [l] == trace;
      var n, rec := After(v, f, before), Recorded(v, f, before);
      DataTraffic(v, f, before);
      AfterSnoc(v, f, before, l);
      RecordedSnoc(v, f, before, l);
      StepEnds(v, f, n, l);
      var a := ToSender(n, l);
      if a.Arrives? {
        SenderTraffic(v, f, n, a.event, rec.data, Timeouts(rec.toSender));
        CountSnoc(rec.toSender, a.event);
      }
    }
  }

  lemma {:induction false} AckTraffic(v: Variant, f: seq<byte>, trace: seq<Label>)
    ensures var rec := Recorded(v, f, trace);
            |rec.acks| <= Packets(rec.toReceiver) + Timeouts(rec.toReceiver)
  {
    if trace != [] {
      var before, l := trace[..|trace| - 1], trace[|trace| - 1];
      assert before + [l] == trace;
      AckTraffic(v, f, before);
      RecordedSnoc(v, f, before, l);
      var b := ToReceiver(After(v, f, before), l);
      if b.Arrives? {
        CountSnoc(Recorded(v, f, before).toReceiver, b.event);
      }
    }
  }

  /**
   In every run, whatever the network loses, duplicates, replays and reorders: each block is first
   sent exactly once and in order, so a duplicate ACK never triggers a DATA; the DATA sent are at most
   the blocks started plus the sender's timeouts; and the ACKs sent are at most the DATA that the
   receiver took in plus its timeouts.
   */
  lemma NoSorcerersApprentice(v: Variant, f: seq<byte>, trace: seq<Label>)
    ensures var s, rec := After(v, f, trace).s, Recorded(v, f, trace);
            && Firsts(rec.data) == UpTo(Started(v, f, s))
            && |rec.data| <= Started(v, f, s) + Timeouts(rec.toSender)
            && |rec.acks| <= Packets(rec.toReceiver) + Timeouts(rec.toReceiver)
  {
    DataTraffic(v, f, trace);
    AckTraffic(v, f, trace);
  }

  /** Each end of a run is where its own loop, alone with the events it took in, would be. */
  lemma {:induction false} EndsRunAlone(v: Variant, f: seq<byte>, trace: seq<Label>)
    ensures var n, rec := After(v, f, trace), Recorded(v, f, trace);
            && PutConsumes(v, f, rec.toSender) && n.s == PutRun(v, f, rec.toSender)
            && GetTakes(rec.toReceiver) && n.r == GetRun(rec.toReceiver)
  {
    if trace != [] {
      var before, l := trace[..|trace| - 1], trace[|trace| - 1];
      assert before + [l] == trace;
      var n, rec := After(v, f, before), Recorded(v, f, before);
      var a, b := ToSender(n, l), ToReceiver(n, l);
      EndsRunAlone(v, f, before);
      AfterSnoc(v, f, before, l);
      RecordedSnoc(v, f, before, l);
      StepEnds(v, f, n, l);
      if a.Arrives? {
        PutRunSnoc(v, f, rec.toSender, a.event);
      }
      if b.Arrives? {
        GetRunSnoc(rec.toReceiver, b.event);
      }
    }
  }

  /** With the retry limit: what either end sends is bounded by what the network brings it. */
  lemma BoundedByDeliveries(v: Variant, f: seq<byte>, trace: seq<Label>)
    ensures var s, rec := After(v, f, trace).s, Recorded(v, f, trace);
            && |rec.data| <= Started(v, f, s) + 5 * Packets(rec.toSender) + 7
            && |rec.acks| <= 6 * Packets(rec.toReceiver) + 6
  {
    NoSorcerersApprentice(v, f, trace);
    EndsRunAlone(v, f, trace);
    GetRetries(Recorded(v, f, trace).toReceiver);
    SingleReceiveIsLast(v, f, Recorded(v, f, trace).toSender);
  }

  /** A run `u` that the ends cannot tell from `trace`, over channels that keep all that was sent. */
  ghost predicate Matches(v: Variant, f: seq<byte>, trace: seq<Label>, u: seq<Label>) {
    var n, m := After(v, f, trace), After(v, f, u);
    && m.s == n.s && m.r == n.r
    && Recorded(v, f, u) == Recorded(v, f, trace)
    && m.data == Recorded(v, f, trace).data
    && m.acks == Recorded(v, f, trace).acks
  }

  /** The label that brings an end, out of the whole past of its channel, what `l` brings it. */
  lemma Mimic(n: Net, m: Net, l: Label) returns (u: seq<Label>)
    requires m.s == n.s && m.r == n.r && Within(n.data, m.data) && Within(n.acks, m.acks)
    ensures Every(Unordered, u) && |u| <= 1
    ensures u == [] ==> ToSender(n, l).Nothing? && ToReceiver(n, l).Nothing?
    ensures u != [] ==> ToSender(m, u[0]) == ToSender(n, l) && ToReceiver(m, u[0]) == ToReceiver(n, l)
  {
    var a, b := ToSender(n, l), ToReceiver(n, l);
    if a.Nothing? && b.Nothing? {
      u := [];
    } else if l.SenderTimeout? || l.ReceiverTimeout? {
      u := [l];
    } else if a.Arrives? {
      var i := if l.TakeAck? then 0 else l.i;
      assert n.acks[i] in m.acks;
      var j :| 0 <= j < |m.acks| && m.acks[j] == n.acks[i];
      u := [ReplayAck(j)];
    } else {
      var i := if l.TakeData? then 0 else l.i;
      assert n.data[i] in m.data;
      var j :| 0 <= j < |m.data| && m.data[j] == n.data[i];
      u := [ReplayData(j)];
    }
  }

  lemma WithinSnoc(part: seq<Copy>, part': seq<Copy>, whole: seq<Copy>, more: seq<Copy>)
    requires Within(part, whole) && Within(part', part + more)
    ensures Within(part', whole + more)
  {
    forall i | 0 <= i < |part'| ensures part'[i] in whole + more {
      assert part'[i] in part + more;
    }
  }

  /** The same arrivals at the same ends extend the two runs alike. */
  lemma MatchesSnoc(v: Variant, f: seq<byte>, trace: seq<Label>, l: Label, u: seq<Label>, x: Label)
    requires Matches(v, f, trace, u) && Unordered(x)
    requires var n, m := After(v, f, trace), After(v, f, u);
             ToSender(m, x) == ToSender(n, l) && ToReceiver(m, x) == ToReceiver(n, l)
    ensures Matches(v, f, trace + [l], u + [x])
  {
    var n, m := After(v, f, trace), After(v, f, u);
    AfterSnoc(v, f, trace, l);
    AfterSnoc(v, f, u, x);
    RecordedSnoc(v, f, trace, l);
    RecordedSnoc(v, f, u, x);
    StepEnds(v, f, n, l);
    StepEnds(v, f, m, x);
    ReplaySends(v, f, m, x);
  }

  /** What is in the channels was sent. */
  ghost predicate ChannelsWithin(n: Net, rec: Record) {
    Within(n.data, rec.data) && Within(n.acks, rec.acks)
  }

  lemma ChannelsWithinSnoc(v: Variant, f: seq<byte>, trace: seq<Label>, l: Label)
    requires ChannelsWithin(After(v, f, trace), Recorded(v, f, trace))
    ensures ChannelsWithin(After(v, f, trace + [l]), Recorded(v, f, trace + [l]))
  {
    var n, rec := After(v, f, trace), Recorded(v, f, trace);
    AfterSnoc(v, f, trace, l);
    RecordedSnoc(v, f, trace, l);
    StepSends(v, f, n, l);
    var n' := After(v, f, trace + [l]);
    WithinSnoc(n.data, n'.data, rec.data, SenderSends(v, f, n, ToSender(n, l)));
    WithinSnoc(n.acks, n'.acks, rec.acks, ReceiverSends(n, ToReceiver(n, l)));
  }

  /**
   Every run, of the FIFO network in particular, is matched by one of the network that only replays:
   what holds of the ends, their output and their traffic there holds here.
   */
  lemma {:induction false} MatchedByReplays(v: Variant, f: seq<byte>, trace: seq<Label>) returns (u: seq<Label>)
    ensures Every(Unordered, u) && Matches(v, f, trace, u)
    ensures ChannelsWithin(After(v, f, trace), Recorded(v, f, trace))
  {
    if trace == [] {
      u := [];
    } else {
      var before, l := trace[..|trace| - 1], trace[|trace| - 1];
      assert before + [l] == trace;
      u := MatchedByReplays(v, f, before);
      ChannelsWithinSnoc(v, f, before, l);
      var n := After(v, f, before);
      var x := Mimic(n, After(v, f, u), l);
      if x == [] {
        AfterSnoc(v, f, before, l);
        RecordedSnoc(v, f, before, l);
        StepEnds(v, f, n, l);
      } else {
        MatchesSnoc(v, f, before, l, u, x[0]);
        u := u + [x[0]];
      }
    }
  }

  /** In particular the safety of short files, in runs of any mix of labels. */
  lemma ShortFileSafeInEveryRun(v: Variant, f: seq<byte>, trace: seq<Label>)
    requires |f| < 65535 * BLOCK_SIZE
    ensures var n := After(v, f, trace);
            && n.s.fetched <= |n.r.writes| + 1 <= n.s.fetched + 1
            && FileOf(n.r) <= f
            && (n.s.verdict == Complete ==> n.r.verdict == Complete && FileOf(n.r) == f)
  {
    var u := MatchedByReplays(v, f, trace);
    ShortFileSafe(v, f, u);
  }

  /** The 16-bit numbers follow the unbounded ones, at both ends and on every DATA. */
  ghost predicate Numbered(n: Net) {
    && n.s.blockNum == n.s.fetched % WRAP
    && n.r.expected == (|n.r.writes| + 1) % WRAP
    && forall c <- n.data :: NumberedData(c)
  }

  ghost predicate NumberedData(c: Copy) {
    c.packet.Data? && c.packet.block == c.stamp % WRAP
  }

  lemma NumberedEnds(v: Variant, f: seq<byte>, n: Net, l: Label)
    requires Numbered(n)
    ensures var n' := Step(v, f, n, l);
            && n'.s.blockNum == n'.s.fetched % WRAP
            && n'.r.expected == (|n'.r.writes| + 1) % WRAP
    ensures forall c <- SenderSends(v, f, n, ToSender(n, l)) :: NumberedData(c)
  {
    StepEnds(v, f, n, l);
    NextOf(n.s.fetched);
    NextOf(|n.r.writes| + 1);
  }

  lemma {:induction false} NumberedRun(v: Variant, f: seq<byte>, trace: seq<Label>)
    ensures Numbered(After(v, f, trace))
  {
    if trace != [] {
      var before, l := trace[..|trace| - 1], trace[|trace| - 1];
      assert before + [l] == trace;
      var n := After(v, f, before);
      NumberedRun(v, f, before);
      AfterSnoc(v, f, before, l);
      NumberedEnds(v, f, n, l);
      StepSends(v, f, n, l);
    }
  }

  /**
   Which DATA a running receiver acknowledges, in any run and however old they are: those whose number,
   of 16 bits, is not above the number it waits for. It is the datagram's own block that the ACK names.
   */
  lemma OldDataAnswered(v: Variant, f: seq<byte>, trace: seq<Label>, i: nat)
    requires var n := After(v, f, trace); n.r.verdict == Running && i < |n.data|
    ensures var n := After(v, f, trace);
            var c, due := n.data[i], (|n.r.writes| + 1) % WRAP;
            var ack := if c.stamp % WRAP <= due then [Copy(c.stamp, AckOf(c.stamp), false)] else [];
            && Step(v, f, n, ReplayData(i)).acks == n.acks + ack
            && (i == 0 ==> Step(v, f, n, TakeData).acks == n.acks + ack)
            && Step(v, f, n, ReplayData(i)).r.writes
               == n.r.writes + if c.stamp % WRAP == due then [c.packet.payload] else []
  {
    var n := After(v, f, trace);
    NumberedRun(v, f, trace);
    assert n.data[i] in n.data && NumberedData(n.data[i]);
  }
}
