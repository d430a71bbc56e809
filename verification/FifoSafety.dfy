/** Safety over FIFO channels that lose and duplicate, for files of any length, through every wrap. */
module FifoSafety {
  import opened Bytes
  import opened Blocks
  import opened Endpoints
  import opened Network

  /** A channel whose stamps lie in lo..hi, oldest first. */
  ghost predicate Flow(q: seq<Copy>, lo: int, hi: int) {
    && (forall i :: 0 <= i < |q| ==> lo <= q[i].stamp <= hi)
    && (forall i, j :: 0 <= i < j < |q| ==> q[i].stamp <= q[j].stamp)
  }

  /** Every packet is the one its stamp names. */
  ghost predicate AllData(f: seq<byte>, q: seq<Copy>) {
    forall c <- q :: IsData(f, c)
  }

  ghost predicate IsData(f: seq<byte>, c: Copy) {
    1 <= c.stamp && c.packet == DataOf(f, c.stamp)
  }

  ghost predicate AllAcks(q: seq<Copy>) {
    forall c <- q :: IsAck(c)
  }

  ghost predicate IsAck(c: Copy) {
    c.packet == AckOf(c.stamp)
  }

  lemma WithoutAt<T>(q: seq<T>, i: nat, j: nat)
    requires j < |Without(q, i)|
    ensures var k := if j < i then j else j + 1;
            if i < |q| then k < |q| && Without(q, i)[j] == q[k] else Without(q, i)[j] == q[j]
  {
  }

  lemma DoubledAt<T>(q: seq<T>, i: nat, j: nat)
    requires j < |Doubled(q, i)|
    ensures var k := if j <= i then j else j - 1;
            if i < |q| then k < |q| && Doubled(q, i)[j] == q[k] else Doubled(q, i)[j] == q[j]
  {
  }

  /** Losing a datagram keeps a channel in order, and so does duplicating one in place. */
  lemma FlowWithout(q: seq<Copy>, i: nat, lo: int, hi: int)
    requires Flow(q, lo, hi)
    ensures Flow(Without(q, i), lo, hi)
    ensures forall c <- Without(q, i) :: c in q
  {
    var e := Without(q, i);
    forall j, k | 0 <= j < k < |e|
      ensures e[j].stamp <= e[k].stamp
    {
      WithoutAt(q, i, j);
      WithoutAt(q, i, k);
    }
    forall j | 0 <= j < |e|
      ensures lo <= e[j].stamp <= hi && e[j] in q
    {
      WithoutAt(q, i, j);
    }
  }

  lemma FlowDoubled(q: seq<Copy>, i: nat, lo: int, hi: int)
    requires Flow(q, lo, hi)
    ensures Flow(Doubled(q, i), lo, hi)
    ensures forall c <- Doubled(q, i) :: c in q
  {
    var e := Doubled(q, i);
    forall j, k | 0 <= j < k < |e|
      ensures e[j].stamp <= e[k].stamp
    {
      DoubledAt(q, i, j);
      DoubledAt(q, i, k);
    }
    forall j | 0 <= j < |e|
      ensures lo <= e[j].stamp <= hi && e[j] in q
    {
      DoubledAt(q, i, j);
    }
  }

  /**
   With B blocks fetched and W written: W <= B <= W + 1, every DATA in flight is block W or B, and
   every ACK in flight is B - 1 or W.
   */
  ghost predicate Lockstep(f: seq<byte>, n: Net) {
    var B, W := n.s.fetched, |n.r.writes|;
    && Counted(f, n) && Faithful(f, n.r)
    && W <= B <= W + 1
    && Flow(n.data, W, B) && AllData(f, n.data)
    && Flow(n.acks, B - 1, W) && AllAcks(n.acks)
    && (n.s.verdict == Complete ==> n.r.verdict == Complete)
  }

  lemma FlowTail(q: seq<Copy>, lo: int, hi: int)
    requires Flow(q, lo, hi) && q != []
    ensures Flow(q[1..], q[0].stamp, hi)
    ensures forall c <- q[1..] :: c in q
  {
  }

  lemma FlowSnoc(q: seq<Copy>, lo: int, hi: int, c: Copy)
    requires Flow(q, lo, hi) && lo <= c.stamp && hi <= c.stamp
    ensures Flow(q + [c], lo, c.stamp)
  {
  }

  lemma ReceiverTimeoutKeeps(v: Variant, f: seq<byte>, n: Net)
    requires Lockstep(f, n)
    ensures Lockstep(f, Step(v, f, n, ReceiverTimeout))
  {
    var W := |n.r.writes|;
    ReceiverTimesOut(n);
    FlowSnoc(n.acks, n.s.fetched - 1, W, Copy(W, AckOf(W), true));
  }

  lemma SenderTimeoutKeeps(v: Variant, f: seq<byte>, n: Net)
    requires Lockstep(f, n)
    ensures Lockstep(f, Step(v, f, n, SenderTimeout))
  {
    var B := n.s.fetched;
    SenderTimesOut(v, f, n);
    if B >= 1 {
      FlowSnoc(n.data, |n.r.writes|, B, Copy(B, DataOf(f, B), true));
    }
  }

  /** The DATA the receiver waits for arrives: nothing older is left behind it. */
  lemma WriteKeeps(f: seq<byte>, n: Net)
    requires Lockstep(f, n) && n.r.verdict == Running
    requires n.data != [] && n.data[0].stamp == |n.r.writes| + 1
    ensures var k := |n.r.writes| + 1;
            Lockstep(f, ReceiverSees(n.(data := n.data[1..]), Received(DataOf(f, k)), k))
  {
    var k := |n.r.writes| + 1;
    FlowTail(n.data, k - 1, n.s.fetched);
    ReceiverWrites(f, n.(data := n.data[1..]), k);
    FlowSnoc(n.acks, k - 1, k - 1, Copy(k, AckOf(k), false));
  }

  /** Any other DATA is the one already written last. */
  lemma DuplicateKeeps(f: seq<byte>, n: Net)
    requires Lockstep(f, n) && n.data != []
    requires n.r.verdict != Running || n.data[0].stamp == |n.r.writes|
    ensures var c := n.data[0];
            Lockstep(f, ReceiverSees(n.(data := n.data[1..]), Received(c.packet), c.stamp))
  {
    var c, W := n.data[0], |n.r.writes|;
    var m := n.(data := n.data[1..]);
    assert c in n.data && IsData(f, c);
    SameBlock(c.stamp, W + 1);
    FlowTail(n.data, W, n.s.fetched);
    ReceiverStays(m, c.packet, c.stamp);
    if n.r.verdict == Running {
      FlowSnoc(n.acks, n.s.fetched - 1, W, Copy(W, AckOf(W), false));
    }
  }

  lemma TakeDataKeeps(v: Variant, f: seq<byte>, n: Net)
    requires Lockstep(f, n)
    ensures Lockstep(f, Step(v, f, n, TakeData))
  {
    if n.data != [] {
      var c := n.data[0];
      assert c in n.data && IsData(f, c);
      if n.r.verdict == Running && c.stamp == |n.r.writes| + 1 {
        WriteKeeps(f, n);
      } else {
        DuplicateKeeps(f, n);
      }
    }
  }

  /** The ACK the sender waits for arrives: nothing older than its block is left in either channel. */
  lemma AdvanceKeeps(v: Variant, f: seq<byte>, n: Net)
    requires Lockstep(f, n) && n.s.verdict == Running && !n.s.final
    requires n.acks != [] && n.acks[0].stamp == n.s.fetched
    ensures Lockstep(f, SenderSees(v, f, n.(acks := n.acks[1..]), Received(AckOf(n.s.fetched))))
  {
    var k := n.s.fetched + 1;
    var n' := SenderSees(v, f, n.(acks := n.acks[1..]), Received(AckOf(k - 1)));
    FlowTail(n.acks, k - 2, k - 1);
    SenderAdvances(v, f, n.(acks := n.acks[1..]));
    FlowSnoc(n.data, k - 1, k - 1, Copy(k, DataOf(f, k), false));
    assert Flow(n'.data, k - 1, k) && AllData(f, n'.data);
    assert Flow(n'.acks, k - 1, k - 1) && AllAcks(n'.acks);
  }

  lemma TakeAckKeeps(v: Variant, f: seq<byte>, n: Net)
    requires Lockstep(f, n)
    ensures Lockstep(f, Step(v, f, n, TakeAck))
  {
    if n.acks != [] {
      var c := n.acks[0];
      var m := n.(acks := n.acks[1..]);
      assert c in n.acks && IsAck(c);
      assert Step(v, f, n, TakeAck) == SenderSees(v, f, m, Received(c.packet));
      SameBlock(c.stamp, n.s.fetched);
      if n.s.verdict == Running && !n.s.final && c.stamp == n.s.fetched {
        AdvanceKeeps(v, f, n);
      } else {
        FlowTail(n.acks, n.s.fetched - 1, |n.r.writes|);
        SenderStays(v, f, m, c.packet);
      }
    }
  }

  lemma ChannelKeeps(v: Variant, f: seq<byte>, n: Net, l: Label)
    requires Lockstep(f, n)
    requires l.DropData? || l.DropAck? || l.RepeatData? || l.RepeatAck?
    ensures Lockstep(f, Step(v, f, n, l))
  {
    match l
    case DropData(i) => FlowWithout(n.data, i, |n.r.writes|, n.s.fetched);
    case DropAck(i) => FlowWithout(n.acks, i, n.s.fetched - 1, |n.r.writes|);
    case RepeatData(i) => FlowDoubled(n.data, i, |n.r.writes|, n.s.fetched);
    case RepeatAck(i) => FlowDoubled(n.acks, i, n.s.fetched - 1, |n.r.writes|);
  }

  lemma StepKeeps(v: Variant, f: seq<byte>, n: Net, l: Label)
    requires Lockstep(f, n) && Fifo(l)
    ensures Lockstep(f, Step(v, f, n, l))
  {
    match l
    case SenderTimeout => SenderTimeoutKeeps(v, f, n);
    case ReceiverTimeout => ReceiverTimeoutKeeps(v, f, n);
    case TakeData => TakeDataKeeps(v, f, n);
    case TakeAck => TakeAckKeeps(v, f, n);
    case _ => ChannelKeeps(v, f, n, l);
  }

  lemma {:induction false} RunKeeps(v: Variant, f: seq<byte>, n: Net, trace: seq<Label>)
    requires Lockstep(f, n) && Every(Fifo, trace)
    ensures Lockstep(f, Run(v, f, n, trace))
    decreases trace
  {
    if trace != [] {
      StepKeeps(v, f, n, trace[0]);
      RunKeeps(v, f, Step(v, f, n, trace[0]), trace[1..]);
    }
  }

  lemma StartIsLockstep(f: seq<byte>)
    ensures Lockstep(f, START)
  {
  }

  /**
   In every state a FIFO run reaches, with B blocks fetched by the sender and E the block the
   receiver expects: B <= E <= B + 1, the DATA in flight are blocks B - 1 and B, the ACKs in flight
   are B - 1 and B, and the output is the first E - 1 blocks, though each end compares 16 bits.
   */
  lemma FifoSafe(v: Variant, f: seq<byte>, trace: seq<Label>)
    requires Every(Fifo, trace)
    ensures var n := Run(v, f, START, trace);
            var B, E := n.s.fetched, |n.r.writes| + 1;
            && n.s.blockNum == B % WRAP && n.r.expected == E % WRAP
            && B <= E <= B + 1
            && (forall c <- n.data :: c.stamp >= 1 && c.stamp in {B - 1, B} && c.packet == DataOf(f, c.stamp))
            && (forall c <- n.acks :: c.stamp in {B - 1, B} && c.packet == AckOf(c.stamp))
            && n.r.writes == Prefix(f, E - 1)
            && FileOf(n.r) == f[..Min((E - 1) * BLOCK_SIZE, |f|)]
  {
    StartIsLockstep(f);
    RunKeeps(v, f, START, trace);
    ConcatPrefix(f, |Run(v, f, START, trace).r.writes|);
  }

  /**
   Agreement: the receiver stops at the whole file and nowhere else, and once the sender reports
   "Transfer complete!" the receiver already has it.
   */
  lemma Agreement(v: Variant, f: seq<byte>, trace: seq<Label>)
    requires Every(Fifo, trace)
    ensures var n := Run(v, f, START, trace);
            && (n.r.verdict == Complete <==> |n.r.writes| == Count(f))
            && (n.r.verdict == Complete ==> FileOf(n.r) == f)
            && (n.s.verdict == Complete ==> n.r.verdict == Complete)
  {
    StartIsLockstep(f);
    RunKeeps(v, f, START, trace);
    ConcatAll(f);
  }
}
