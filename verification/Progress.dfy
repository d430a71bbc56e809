/** When the intended protocol can still complete, exactly, over FIFO channels. */
module Progress {
  import opened Bytes
  import opened Blocks
  import opened Endpoints
  import opened Network
  import opened FifoSafety

  ghost predicate Done(n: Net) {
    n.s.verdict == Complete && n.r.verdict == Complete
  }

  /** A datagram is under way, or an end that can restart the exchange may still time out. */
  predicate Alive(n: Net) {
    || n.data != [] || n.acks != []
    || n.r.retries < MAX_RETRIES
    || (n.s.retries < MAX_RETRIES && n.s.fetched >= 1)
  }

  /** The receiver runs and the exchange is alive, or it is done and its last ACK is on the way. */
  ghost predicate Hopeful(f: seq<byte>, n: Net) {
    && n.s.verdict == Running
    && (|| (n.r.verdict == Running && Alive(n))
        || (n.r.verdict == Complete && exists c <- n.acks :: c.stamp == Count(f)))
  }

  /** Blocks left for both ends. */
  ghost function Left(f: seq<byte>, n: Net): nat
    requires Lockstep(f, n)
  {
    2 * Count(f) - n.s.fetched - |n.r.writes|
  }

  /** Datagrams under way; an unanswered DATA counts twice, as its ACK is still to come. */
  function Pending(n: Net): nat {
    2 * |n.data| + |n.acks|
  }

  ghost predicate Closer(f: seq<byte>, n: Net, n': Net)
    requires Lockstep(f, n) && Lockstep(f, n')
  {
    Left(f, n') < Left(f, n) || (Left(f, n') == Left(f, n) && Pending(n') < Pending(n))
  }

  lemma DeliverData(f: seq<byte>, n: Net)
    requires Lockstep(f, n) && Hopeful(f, n) && n.data != []
    ensures var n' := Step(Intended, f, n, TakeData);
            Lockstep(f, n') && Hopeful(f, n') && Closer(f, n, n')
  {
    TakeDataKeeps(Intended, f, n);
    var n' := Step(Intended, f, n, TakeData);
    var c := n.data[0];
    assert c in n.data && IsData(f, c);
    SameBlock(c.stamp, |n.r.writes| + 1);
    if n'.acks != n.acks {
      assert n'.acks[|n.acks|].stamp == c.stamp;
    }
  }

  lemma DeliverAck(f: seq<byte>, n: Net)
    requires Lockstep(f, n) && Hopeful(f, n) && n.acks != []
    ensures var n' := Step(Intended, f, n, TakeAck);
            Lockstep(f, n') && (Done(n') || (Hopeful(f, n') && Closer(f, n, n')))
  {
    TakeAckKeeps(Intended, f, n);
    var c := n.acks[0];
    assert c in n.acks && IsAck(c);
    SameBlock(c.stamp, n.s.fetched);
    var n' := Step(Intended, f, n, TakeAck);
    if n.r.verdict == Complete && c.stamp != Count(f) {
      var last :| last in n.acks && last.stamp == Count(f);
      assert last in n.acks[1..];
    }
  }

  /** The ACK of the last block written, alone in flight, reaches the sender. */
  lemma LoneAck(f: seq<byte>, m: Net)
    requires Lockstep(f, m) && m.s.verdict == Running && m.r.verdict == Running && m.data == []
    requires |m.acks| == 1 && m.acks[0].packet == AckOf(|m.r.writes|)
    ensures var n' := Step(Intended, f, m, TakeAck);
            && Lockstep(f, n') && n'.r == m.r
            && (m.s.fetched == |m.r.writes| ==> n'.s.fetched == m.s.fetched + 1 && n'.data != [])
            && (m.s.fetched != |m.r.writes| ==> n' == m.(s := m.s.(retries := 0), acks := []))
  {
    var W := |m.r.writes|;
    TakeAckKeeps(Intended, f, m);
    SameBlock(W, m.s.fetched);
    assert Step(Intended, f, m, TakeAck) == SenderSees(Intended, f, m.(acks := []), Received(AckOf(W)));
    if m.s.fetched == W {
      SenderAdvances(Intended, f, m.(acks := []));
    }
  }

  /** Both channels are empty and the receiver may time out: its ACK reaches the sender. */
  lemma ReceiverSpeaks(f: seq<byte>, n: Net)
    requires Lockstep(f, n) && n.data == [] && n.acks == []
    requires n.s.verdict == Running && n.r.verdict == Running && n.r.retries < MAX_RETRIES
    ensures var n' := Run(Intended, f, n, [ReceiverTimeout, TakeAck]);
            && Lockstep(f, n') && Hopeful(f, n') && n'.r.writes == n.r.writes
            && (n.s.fetched == |n.r.writes| ==> n'.s.fetched == n.s.fetched + 1)
            && (n.s.fetched != |n.r.writes| ==>
                  n' == n.(s := n.s.(retries := 0), r := n.r.(retries := n.r.retries + 1)))
  {
    var W := |n.r.writes|;
    RunTwo(Intended, f, n, ReceiverTimeout, TakeAck);
    ReceiverTimeoutKeeps(Intended, f, n);
    NextOf(W);
    var m := Step(Intended, f, n, ReceiverTimeout);
    assert m == n.(r := n.r.(retries := n.r.retries + 1), acks := [Copy(W, AckOf(W), true)]);
    LoneAck(f, m);
  }

  /** The DATA of the sender's block, alone in flight, reaches the receiver. */
  lemma LoneData(f: seq<byte>, m: Net)
    requires Lockstep(f, m) && m.s.verdict == Running && m.r.verdict == Running && m.acks == []
    requires m.s.fetched >= 1 && |m.data| == 1
    requires m.data[0].stamp == m.s.fetched && m.data[0].packet == DataOf(f, m.s.fetched)
    ensures var n' := Step(Intended, f, m, TakeData);
            && Lockstep(f, n') && n'.s == m.s && n'.data == []
            && (m.s.fetched == |m.r.writes| + 1 ==>
                  |n'.r.writes| == |m.r.writes| + 1 && n'.acks != [] && n'.acks[0].stamp == m.s.fetched)
            && (m.s.fetched == |m.r.writes| ==> n'.r == m.r.(retries := 0))
  {
    var B := m.s.fetched;
    TakeDataKeeps(Intended, f, m);
    SameBlock(B, |m.r.writes| + 1);
    assert Step(Intended, f, m, TakeData) == ReceiverSees(m.(data := []), Received(DataOf(f, B)), B);
    if B == |m.r.writes| + 1 {
      ReceiverWrites(f, m.(data := []), B);
    } else {
      ReceiverStays(m.(data := []), DataOf(f, B), B);
    }
  }

  /** Both channels are empty and the sender may time out: its DATA reaches the receiver. */
  lemma SenderSpeaks(f: seq<byte>, n: Net)
    requires Lockstep(f, n) && n.data == [] && n.acks == []
    requires n.s.verdict == Running && n.r.verdict == Running
    requires n.s.retries < MAX_RETRIES && n.s.fetched >= 1
    ensures var n' := Run(Intended, f, n, [SenderTimeout, TakeData]);
            && Lockstep(f, n') && Hopeful(f, n') && n'.s.fetched == n.s.fetched && n'.data == []
            && (n.s.fetched == |n.r.writes| + 1 ==> |n'.r.writes| == |n.r.writes| + 1)
            && (n.s.fetched == |n.r.writes| ==>
                  n'.r.writes == n.r.writes && n'.r.retries == 0 && n'.r.verdict == Running)
  {
    RunTwo(Intended, f, n, SenderTimeout, TakeData);
    var B := n.s.fetched;
    SenderTimeoutKeeps(Intended, f, n);
    var m := Step(Intended, f, n, SenderTimeout);
    assert m == n.(s := n.s.(retries := n.s.retries + 1), data := [Copy(B, DataOf(f, B), true)]);
    LoneData(f, m);
  }

  /** The receiver should speak and has no timeout left: a duplicate DATA gives it new ones. */
  lemma ReceiverHelped(f: seq<byte>, n: Net) returns (t: seq<Label>)
    requires Lockstep(f, n) && Hopeful(f, n) && n.data == [] && n.acks == []
    requires n.s.fetched == |n.r.writes| && n.r.retries >= MAX_RETRIES
    ensures Every(Lossless, t)
    ensures var n' := Run(Intended, f, n, t);
            Lockstep(f, n') && Hopeful(f, n') && Left(f, n') < Left(f, n)
  {
    var data := [SenderTimeout, TakeData];
    SenderSpeaks(f, n);
    var m := Run(Intended, f, n, data);
    var leg := if m.acks == [] then [ReceiverTimeout, TakeAck] else [TakeAck];
    t := data + leg;
    Joined(Intended, f, n, Lossless, data, leg);
    if m.acks == [] {
      ReceiverSpeaks(f, m);
    } else {
      DeliverAck(f, m);
      assert Run(Intended, f, m, [TakeAck]) == Step(Intended, f, m, TakeAck);
    }
  }

  /** The sender should speak and has no timeout left: an old ACK gives it new ones. */
  lemma SenderHelped(f: seq<byte>, n: Net) returns (t: seq<Label>)
    requires Lockstep(f, n) && Hopeful(f, n) && n.data == [] && n.acks == []
    requires n.s.fetched == |n.r.writes| + 1 && n.s.retries >= MAX_RETRIES
    ensures Every(Lossless, t)
    ensures var n' := Run(Intended, f, n, t);
            Lockstep(f, n') && Hopeful(f, n') && Left(f, n') < Left(f, n)
  {
    var ack, data := [ReceiverTimeout, TakeAck], [SenderTimeout, TakeData];
    ReceiverSpeaks(f, n);
    SenderSpeaks(f, Run(Intended, f, n, ack));
    Joined(Intended, f, n, Lossless, ack, data);
    t := ack + data;
  }

  /**
   Both channels are empty: a schedule that takes one end a block further. In particular at
   E % 65536 == 0, where the receiver leaves a duplicate unanswered, its own timeout is what helps.
   */
  lemma {:induction false} Nudge(f: seq<byte>, n: Net) returns (t: seq<Label>)
    requires Lockstep(f, n) && Hopeful(f, n) && n.data == [] && n.acks == []
    ensures Every(Lossless, t)
    ensures var n' := Run(Intended, f, n, t);
            Lockstep(f, n') && Hopeful(f, n') && Left(f, n') < Left(f, n)
  {
    if n.s.fetched == |n.r.writes| {
      if n.r.retries < MAX_RETRIES {
        ReceiverSpeaks(f, n);
        t := [ReceiverTimeout, TakeAck];
      } else {
        t := ReceiverHelped(f, n);
      }
    } else if n.s.retries < MAX_RETRIES {
      SenderSpeaks(f, n);
      t := [SenderTimeout, TakeData];
    } else {
      t := SenderHelped(f, n);
    }
  }

  /** From a hopeful state a lossless schedule completes at both ends. */
  lemma Completes(f: seq<byte>, n: Net) returns (t: seq<Label>)
    requires Lockstep(f, n) && Hopeful(f, n)
    ensures Every(Lossless, t) && Done(Run(Intended, f, n, t))
    decreases Left(f, n), Pending(n)
  {
    var leg: seq<Label>;
    if n.data != [] {
      DeliverData(f, n);
      leg := [TakeData];
    } else if n.acks != [] {
      DeliverAck(f, n);
      leg := [TakeAck];
    } else {
      leg := Nudge(f, n);
    }
    var n' := Run(Intended, f, n, leg);
    assert |leg| == 1 ==> n' == Step(Intended, f, n, leg[0]);
    if Done(n') {
      t := leg;
    } else {
      var rest := Completes(f, n');
      Joined(Intended, f, n, Lossless, leg, rest);
      t := leg + rest;
    }
  }

  /** Neither done nor hopeful is for ever: no step, lossy or not, leads out of it. */
  lemma HopelessKeeps(f: seq<byte>, n: Net, l: Label)
    requires Lockstep(f, n) && !Done(n) && !Hopeful(f, n) && Fifo(l)
    ensures var n' := Step(Intended, f, n, l); !Done(n') && !Hopeful(f, n')
  {
    var n' := Step(Intended, f, n, l);
    match l
    case TakeAck =>
      if n.acks != [] {
        assert n.acks[0] in n.acks && IsAck(n.acks[0]);
        SameBlock(n.acks[0].stamp, n.s.fetched);
        assert forall c <- n'.acks :: c in n.acks;
      }
    case DropAck(i) => FlowWithout(n.acks, i, n.s.fetched - 1, |n.r.writes|);
    case RepeatAck(i) => FlowDoubled(n.acks, i, n.s.fetched - 1, |n.r.writes|);
    case _ =>
  }

  lemma {:induction false} Hopeless(f: seq<byte>, n: Net, trace: seq<Label>)
    requires Lockstep(f, n) && !Done(n) && !Hopeful(f, n) && Every(Fifo, trace)
    ensures !Done(Run(Intended, f, n, trace))
    decreases trace
  {
    if trace != [] {
      HopelessKeeps(f, n, trace[0]);
      StepKeeps(Intended, f, n, trace[0]);
      Hopeless(f, Step(Intended, f, n, trace[0]), trace[1..]);
    }
  }

  /**
   Progress, exactly: from a reachable state with both ends running, some lossless schedule of
   timeouts and deliveries completes if and only if the state is alive; and when it is not, no run
   at all completes.
   */
  lemma {:induction false} ProgressIff(f: seq<byte>, trace: seq<Label>)
    requires Every(Fifo, trace)
    requires var n := Run(Intended, f, START, trace); n.s.verdict == Running && n.r.verdict == Running
    ensures var n := Run(Intended, f, START, trace);
            && (Alive(n) <==> exists t :: Every(Lossless, t) && Done(Run(Intended, f, n, t)))
            && (!Alive(n) ==> forall t :: Every(Fifo, t) ==> !Done(Run(Intended, f, n, t)))
  {
    var n := Run(Intended, f, START, trace);
    StartIsLockstep(f);
    RunKeeps(Intended, f, START, trace);
    if Alive(n) {
      var t := Completes(f, n);
    } else {
      forall t | Every(Fifo, t)
        ensures !Done(Run(Intended, f, n, t))
      {
        Hopeless(f, n, t);
      }
      assert forall t :: Every(Lossless, t) ==> Every(Fifo, t);
    }
  }

  /** The last ACK: once the receiver has gone, the sender completes only if that ACK is in flight. */
  lemma LastAckIff(f: seq<byte>, trace: seq<Label>)
    requires Every(Fifo, trace)
    requires var n := Run(Intended, f, START, trace); n.s.verdict == Running && n.r.verdict == Complete
    ensures var n := Run(Intended, f, START, trace);
            (exists c <- n.acks :: c.stamp == Count(f)) <==>
            (exists t :: Every(Fifo, t) && Run(Intended, f, n, t).s.verdict == Complete)
  {
    var n := Run(Intended, f, START, trace);
    StartIsLockstep(f);
    RunKeeps(Intended, f, START, trace);
    if Hopeful(f, n) {
      var t := Completes(f, n);
      assert Every(Fifo, t);
    } else {
      forall t | Every(Fifo, t)
        ensures Run(Intended, f, n, t).s.verdict != Complete
      {
        Hopeless(f, n, t);
        RunKeeps(Intended, f, n, t);
      }
    }
  }

  /** A duplicate is answered unless the expected number has wrapped to 0, whatever its block. */
  lemma WrapLeavesDuplicateUnanswered(v: Variant, f: seq<byte>, trace: seq<Label>)
    requires Every(Fifo, trace)
    requires var n := Run(v, f, START, trace);
             n.r.verdict == Running && n.data != [] && n.data[0].stamp == |n.r.writes|
    ensures var n := Run(v, f, START, trace);
            var n' := Step(v, f, n, TakeData);
            && n'.r.writes == n.r.writes
            && ((|n.r.writes| + 1) % WRAP == 0 <==> n'.acks == n.acks)
  {
    var n := Run(v, f, START, trace);
    StartIsLockstep(f);
    RunKeeps(v, f, START, trace);
    assert n.data[0] in n.data && IsData(f, n.data[0]);
    NextOf(|n.r.writes|);
  }
}
