/** Safety over a network that may also reorder and replay any datagram it ever carried. */
module UnorderedSafety {
  import opened Bytes
  import opened Blocks
  import opened Wire
  import opened Endpoints
  import opened Network
  import opened FifoSafety

  /** With W blocks written and B fetched: W <= B <= W + 1, and no datagram is ahead of its source. */
  ghost predicate Loose(f: seq<byte>, n: Net) {
    var B, W := n.s.fetched, |n.r.writes|;
    && Counted(f, n) && Faithful(f, n.r)
    && W <= B <= W + 1
    && AllData(f, n.data) && (forall c <- n.data :: c.stamp <= B)
    && AllAcks(n.acks) && (forall c <- n.acks :: c.stamp <= W)
    && (n.s.verdict == Complete ==> n.r.verdict == Complete)
  }

  /** The datagram delivered is less than 65536 blocks behind the end it reaches. */
  predicate Fresh(n: Net, l: Label) {
    match l
    case ReplayData(i) => i < |n.data| ==> |n.r.writes| + 1 < n.data[i].stamp + WRAP
    case ReplayAck(i) => i < |n.acks| ==> n.s.fetched < n.acks[i].stamp + WRAP
    case _ => true
  }

  predicate FreshRun(v: Variant, f: seq<byte>, n: Net, trace: seq<Label>)
    decreases trace
  {
    trace != [] ==> Fresh(n, trace[0]) && FreshRun(v, f, Step(v, f, n, trace[0]), trace[1..])
  }

  lemma ReplayDataKeeps(v: Variant, f: seq<byte>, n: Net, i: nat)
    requires Loose(f, n) && i < |n.data| && Fresh(n, ReplayData(i))
    ensures Loose(f, Step(v, f, n, ReplayData(i)))
  {
    var c, due := n.data[i], |n.r.writes| + 1;
    assert c in n.data && IsData(f, c);
    SameBlock(c.stamp, due);
    if n.r.verdict == Running && c.stamp == due {
      ReceiverWrites(f, n, due);
    } else {
      ReceiverStays(n, c.packet, c.stamp);
    }
  }

  lemma ReplayAckKeeps(v: Variant, f: seq<byte>, n: Net, i: nat)
    requires Loose(f, n) && i < |n.acks| && Fresh(n, ReplayAck(i))
    ensures Loose(f, Step(v, f, n, ReplayAck(i)))
  {
    var c := n.acks[i];
    assert c in n.acks && IsAck(c);
    SameBlock(c.stamp, n.s.fetched);
    if n.s.verdict == Running && c.stamp == n.s.fetched && !n.s.final {
      SenderAdvances(v, f, n);
    } else {
      SenderStays(v, f, n, c.packet);
    }
  }

  lemma LooseStep(v: Variant, f: seq<byte>, n: Net, l: Label)
    requires Loose(f, n) && Unordered(l) && Fresh(n, l)
    ensures Loose(f, Step(v, f, n, l))
  {
    match l
    case ReplayData(i) => if i < |n.data| { ReplayDataKeeps(v, f, n, i); }
    case ReplayAck(i) => if i < |n.acks| { ReplayAckKeeps(v, f, n, i); }
    case ReceiverTimeout => ReceiverTimesOut(n);
    case SenderTimeout => SenderTimesOut(v, f, n);
  }

  lemma {:induction false} LooseRun(v: Variant, f: seq<byte>, n: Net, trace: seq<Label>)
    requires Loose(f, n) && Every(Unordered, trace) && FreshRun(v, f, n, trace)
    ensures Loose(f, Run(v, f, n, trace))
    decreases trace
  {
    if trace != [] {
      LooseStep(v, f, n, trace[0]);
      LooseRun(v, f, Step(v, f, n, trace[0]), trace[1..]);
    }
  }

  /**
   Under any loss, duplication and reordering, as long as no datagram delivered is 65536 or more
   blocks stale: lock-step, an output that begins the file, and agreement at completion.
   */
  lemma UnorderedSafe(v: Variant, f: seq<byte>, trace: seq<Label>)
    requires Every(Unordered, trace) && FreshRun(v, f, START, trace)
    ensures var n := Run(v, f, START, trace);
            var B, E := n.s.fetched, |n.r.writes| + 1;
            && B <= E <= B + 1
            && FileOf(n.r) == f[..Min((E - 1) * BLOCK_SIZE, |f|)]
            && (n.r.verdict == Complete <==> E == Count(f) + 1)
            && (n.s.verdict == Complete ==> n.r.verdict == Complete && FileOf(n.r) == f)
  {
    LooseRun(v, f, START, trace);
    ConcatPrefix(f, |Run(v, f, START, trace).r.writes|);
    ConcatAll(f);
  }

  /** With fewer than 65536 blocks nothing can get that stale. */
  lemma {:induction false} ShortIsFresh(v: Variant, f: seq<byte>, n: Net, trace: seq<Label>)
    requires Count(f) < WRAP && Loose(f, n) && Every(Unordered, trace)
    ensures FreshRun(v, f, n, trace)
    decreases trace
  {
    if trace != [] {
      var l := trace[0];
      assert l.ReplayData? && l.i < |n.data| ==> n.data[l.i] in n.data && IsData(f, n.data[l.i]);
      LooseStep(v, f, n, l);
      ShortIsFresh(v, f, Step(v, f, n, l), trace[1..]);
    }
  }

  /** So for a file shorter than 65535 * 512 bytes all of it holds in every unordered run. */
  lemma ShortFileSafe(v: Variant, f: seq<byte>, trace: seq<Label>)
    requires |f| < 65535 * BLOCK_SIZE && Every(Unordered, trace)
    ensures var n := Run(v, f, START, trace);
            && n.s.fetched <= |n.r.writes| + 1 <= n.s.fetched + 1
            && FileOf(n.r) <= f
            && (n.s.verdict == Complete ==> n.r.verdict == Complete && FileOf(n.r) == f)
  {
    ShortIsFresh(v, f, START, trace);
    UnorderedSafe(v, f, trace);
  }

  // The threshold for the output, exactly.

  /** Blocks with the same 16-bit number have the same content. */
  ghost predicate TwinsAgree(f: seq<byte>) {
    forall i, j :: 1 <= i < j <= Count(f) && i % WRAP == j % WRAP ==> Block(f, i) == Block(f, j)
  }

  /** What holds in every unordered run, however stale its deliveries, when twins agree. */
  ghost predicate OutputSafe(f: seq<byte>, n: Net) {
    && Counted(f, n) && Faithful(f, n.r)
    && AllData(f, n.data) && (forall c <- n.data :: c.stamp <= Count(f))
  }

  lemma OutputSafeData(v: Variant, f: seq<byte>, n: Net, i: nat)
    requires TwinsAgree(f) && OutputSafe(f, n) && i < |n.data|
    ensures OutputSafe(f, Step(v, f, n, ReplayData(i)))
  {
    var c, due := n.data[i], |n.r.writes| + 1;
    assert c in n.data && IsData(f, c);
    if n.r.verdict == Running && c.stamp % WRAP == due % WRAP {
      ReceiverWrites(f, n, c.stamp);
      assert Block(f, c.stamp) == Block(f, due) by {
        if c.stamp < due {
        } else if due < c.stamp {
        }
      }
    } else {
      ReceiverStays(n, c.packet, c.stamp);
    }
  }

  lemma OutputSafeAck(v: Variant, f: seq<byte>, n: Net, i: nat)
    requires OutputSafe(f, n) && i < |n.acks|
    ensures OutputSafe(f, Step(v, f, n, ReplayAck(i)))
  {
    var p := n.acks[i].packet;
    if n.s.verdict == Running && !n.s.final && p == AckOf(n.s.fetched) {
      SenderAdvances(v, f, n);
    } else if p.Ack? {
      SenderStays(v, f, n, p);
    } else {
      var n' := SenderSees(v, f, n, Received(p));
      assert n' == n.(s := n'.s);
    }
  }

  lemma OutputSafeStep(v: Variant, f: seq<byte>, n: Net, l: Label)
    requires TwinsAgree(f) && OutputSafe(f, n) && Unordered(l)
    ensures OutputSafe(f, Step(v, f, n, l))
  {
    match l
    case ReplayData(i) => if i < |n.data| { OutputSafeData(v, f, n, i); }
    case ReplayAck(i) => if i < |n.acks| { OutputSafeAck(v, f, n, i); }
    case ReceiverTimeout => ReceiverTimesOut(n);
    case SenderTimeout => SenderTimesOut(v, f, n);
  }

  lemma {:induction false} OutputSafeRun(v: Variant, f: seq<byte>, n: Net, trace: seq<Label>)
    requires TwinsAgree(f) && OutputSafe(f, n) && Every(Unordered, trace)
    ensures OutputSafe(f, Run(v, f, n, trace))
    decreases trace
  {
    if trace != [] {
      OutputSafeStep(v, f, n, trace[0]);
      OutputSafeRun(v, f, Step(v, f, n, trace[0]), trace[1..]);
    }
  }

  /** After `k` undisturbed rounds every block and every ACK so far is there to be replayed. */
  ghost predicate AfterRound(f: seq<byte>, n: Net, k: nat) {
    && Loose(f, n)
    && n.s.fetched == k && |n.r.writes| == k
    && n.s.verdict == Running && (k < Count(f) ==> n.r.verdict == Running)
    && (forall i :: 1 <= i <= k ==> Carried(n.data, i))
    && (forall i :: 0 <= i <= k ==> Carried(n.acks, i))
  }

  ghost predicate Carried(q: seq<Copy>, stamp: nat) {
    exists c <- q :: c.stamp == stamp
  }

  lemma CarriedMore(q: seq<Copy>, c: Copy, k: nat)
    requires forall i :: 1 <= i < k ==> Carried(q, i)
    requires c.stamp == k
    ensures forall i :: 1 <= i <= k ==> Carried(q + [c], i)
    ensures Carried(q, 0) || k == 0 ==> Carried(q + [c], 0)
  {
    assert c in q + [c];
    forall i: nat | i < k && Carried(q, i)
      ensures Carried(q + [c], i)
    {
      var d :| d in q && d.stamp == i;
      assert d in q + [c];
    }
  }

  /** Where block `i`, or its ACK, is to be found. */
  lemma DataAt(f: seq<byte>, n: Net, k: nat, i: nat) returns (at: nat)
    requires AfterRound(f, n, k) && 1 <= i <= k
    ensures at < |n.data| && n.data[at].stamp == i && n.data[at].packet == DataOf(f, i)
  {
    assert Carried(n.data, i);
    at :| at < |n.data| && n.data[at].stamp == i;
    assert n.data[at] in n.data && IsData(f, n.data[at]);
  }

  lemma AckAt(q: seq<Copy>, i: nat) returns (at: nat)
    requires AllAcks(q) && Carried(q, i)
    ensures at < |q| && q[at].stamp == i && q[at].packet == AckOf(i)
  {
    at :| at < |q| && q[at].stamp == i;
    assert q[at] in q && IsAck(q[at]);
  }

  lemma Round(v: Variant, f: seq<byte>, n: Net, k: nat) returns (t: seq<Label>)
    requires AfterRound(f, n, k) && k + 1 < Count(f)
    ensures Every(Unordered, t) && AfterRound(f, Run(v, f, n, t), k + 1)
  {
    var i := AckAt(n.acks, k);
    t := [ReplayAck(i), ReplayData(|n.data|)];
    RunTwo(v, f, n, t[0], t[1]);
    var m := Step(v, f, n, t[0]);
    ReplayAckKeeps(v, f, n, i);
    OnlyLastShort(f, k + 1);
    SenderAdvances(v, f, n);
    assert m == SenderSees(v, f, n, Received(AckOf(k)));
    CarriedMore(n.data, Copy(k + 1, DataOf(f, k + 1), false), k + 1);
    RoundEnds(v, f, m, k + 1, |n.data|);
  }

  lemma RoundEnds(v: Variant, f: seq<byte>, m: Net, k: nat, i: nat)
    requires Loose(f, m) && 1 <= k < Count(f)
    requires m.s.fetched == k == |m.r.writes| + 1 && m.s.verdict == Running && m.r.verdict == Running
    requires i < |m.data| && m.data[i] == Copy(k, DataOf(f, k), false)
    requires forall i :: 1 <= i <= k ==> Carried(m.data, i)
    requires forall i :: 0 <= i < k ==> Carried(m.acks, i)
    ensures AfterRound(f, Step(v, f, m, ReplayData(i)), k)
  {
    ReplayDataKeeps(v, f, m, i);
    ReceiverWrites(f, m, k);
    assert Step(v, f, m, ReplayData(i)) == ReceiverSees(m, Received(DataOf(f, k)), k);
    assert forall i :: 1 <= i < k ==> Carried(m.acks, i);
    assert Carried(m.acks, 0);
    CarriedMore(m.acks, Copy(k, AckOf(k), false), k);
  }

  /** By induction over rounds: any number of rounds short of the last block can be played. */
  lemma {:induction false} Rounds(v: Variant, f: seq<byte>, k: nat) returns (t: seq<Label>)
    requires k < Count(f)
    ensures Every(Unordered, t) && AfterRound(f, Run(v, f, START, t), k)
  {
    if k == 0 {
      t := [ReceiverTimeout];
      var n := Step(v, f, START, ReceiverTimeout);
      assert Run(v, f, START, t) == n;
      NextOf(0);
      LooseStep(v, f, START, ReceiverTimeout);
      assert n.acks == [Copy(0, AckOf(0), true)];
      assert n.acks[0] in n.acks;
    } else {
      var before := Rounds(v, f, k - 1);
      var round := Round(v, f, Run(v, f, START, before), k - 1);
      t := before + round;
      RunConcat(v, f, START, before, round);
    }
  }

  /** A full block that is not what the file has at `lo` does not continue it. */
  lemma NotContinued(f: seq<byte>, j: nat, x: seq<byte>)
    requires 1 <= j <= Count(f) && |x| == BLOCK_SIZE && x != Block(f, j)
    ensures !(f[..Min((j - 1) * BLOCK_SIZE, |f|)] + x <= f)
  {
    OnlyLastShort(f, j);
    var lo := (j - 1) * BLOCK_SIZE;
    var y := f[..lo] + x;
    assert y[lo..] == x;
    if |y| <= |f| {
      assert f[..|y|][lo..] == Block(f, j);
    }
  }

  lemma StaleStep(v: Variant, f: seq<byte>, n: Net, at: nat, i: nat, j: nat)
    requires 1 <= i < j <= Count(f) && i % WRAP == j % WRAP && Block(f, i) != Block(f, j)
    requires Faithful(f, n.r) && n.r.verdict == Running && |n.r.writes| == j - 1
    requires n.r.expected == j % WRAP
    requires at < |n.data| && n.data[at].packet == DataOf(f, i)
    ensures !(FileOf(Step(v, f, n, ReplayData(at)).r) <= f)
  {
    assert Step(v, f, n, ReplayData(at)).r.writes == n.r.writes + [Block(f, i)];
    ConcatSnoc(n.r.writes, Block(f, i));
    ConcatPrefix(f, j - 1);
    OnlyLastShort(f, i);
    NotContinued(f, j, Block(f, i));
  }

  lemma StaleIsWritten(v: Variant, f: seq<byte>, i: nat, j: nat) returns (t: seq<Label>)
    requires 1 <= i < j <= Count(f) && i % WRAP == j % WRAP && Block(f, i) != Block(f, j)
    ensures Every(Unordered, t) && !(FileOf(Run(v, f, START, t).r) <= f)
  {
    var before := Rounds(v, f, j - 1);
    var n := Run(v, f, START, before);
    var at := DataAt(f, n, j - 1, i);
    t := before + [ReplayData(at)];
    RunConcat(v, f, START, before, [ReplayData(at)]);
    assert Run(v, f, n, [ReplayData(at)]) == Step(v, f, n, ReplayData(at));
    StaleStep(v, f, n, at, i, j);
  }

  /**
   The output is a beginning of the file in every unordered run, if and only if any two blocks
   65536, or a multiple of it, apart are equal: one stale DATA after a wrap is otherwise written.
   */
  lemma OutputSafeIff(v: Variant, f: seq<byte>)
    ensures (forall t :: Every(Unordered, t) ==> FileOf(Run(v, f, START, t).r) <= f) <==> TwinsAgree(f)
  {
    if TwinsAgree(f) {
      forall t | Every(Unordered, t)
        ensures FileOf(Run(v, f, START, t).r) <= f
      {
        OutputSafeRun(v, f, START, t);
        ConcatPrefix(f, |Run(v, f, START, t).r.writes|);
      }
    } else {
      var i, j :| 1 <= i < j <= Count(f) && i % WRAP == j % WRAP && Block(f, i) != Block(f, j);
      var t := StaleIsWritten(v, f, i, j);
    }
  }

  // The threshold for agreement, exactly.

  /** Stale ACKs carry the sender to the end of the file on its own. */
  lemma {:induction false} RunAway(v: Variant, f: seq<byte>, n: Net) returns (t: seq<Label>)
    requires Counted(f, n) && n.s.verdict == Running
    requires AllAcks(n.acks) && forall i :: 0 <= i < WRAP ==> Carried(n.acks, i)
    ensures Every(Unordered, t)
    ensures var n' := Run(v, f, n, t); n'.s.verdict == Complete && n'.r == n.r
    decreases Count(f) - n.s.fetched
  {
    var i := AckAt(n.acks, n.s.fetched % WRAP);
    var n' := Step(v, f, n, ReplayAck(i));
    assert Run(v, f, n, [ReplayAck(i)]) == n';
    if n.s.final {
      t := [ReplayAck(i)];
    } else {
      NextOf(n.s.fetched);
      OnlyLastShort(f, n.s.fetched + 1);
      var rest := RunAway(v, f, n');
      t := [ReplayAck(i)] + rest;
      RunConcat(v, f, n, [ReplayAck(i)], rest);
    }
  }

  /**
   "Transfer complete!" at the sender means that the receiver is complete in every unordered run, if
   and only if the file is shorter than 65535 * 512 bytes.
   */
  lemma AgreementIff(v: Variant, f: seq<byte>)
    ensures (forall t :: Every(Unordered, t) ==>
               var n := Run(v, f, START, t); n.s.verdict == Complete ==> n.r.verdict == Complete)
       <==> |f| < 65535 * BLOCK_SIZE
  {
    if |f| < 65535 * BLOCK_SIZE {
      forall t | Every(Unordered, t)
        ensures var n := Run(v, f, START, t); n.s.verdict == Complete ==> n.r.verdict == Complete
      {
        ShortIsFresh(v, f, START, t);
        LooseRun(v, f, START, t);
      }
    } else {
      var before := Rounds(v, f, WRAP - 1);
      var n := Run(v, f, START, before);
      var rest := RunAway(v, f, n);
      RunConcat(v, f, START, before, rest);
      var n' := Run(v, f, START, before + rest);
      assert Every(Unordered, before + rest);
      assert n'.s.verdict == Complete && n'.r.verdict == Running;
    }
  }
}
