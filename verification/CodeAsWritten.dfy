/** What the differences between the code and the intended protocol cost, exactly. */
module CodeAsWritten {
  import opened Bytes
  import opened Blocks
  import opened Endpoints
  import opened Network
  import opened FifoSafety
  import opened Progress

  /** `k` undisturbed rounds are over: both ends have block `k` and its ACK is under way. */
  ghost predicate AfterRound(f: seq<byte>, n: Net, k: nat) {
    && Lockstep(f, n)
    && n.s.fetched == k && |n.r.writes| == k
    && n.data == [] && |n.acks| == 1 && n.acks[0].stamp == k
    && n.s.verdict == Running && (k < Count(f) ==> n.r.verdict == Running)
  }

  /** Block `k` gets sent: always in the intended protocol, in the code only if it is not empty. */
  predicate Sends(v: Variant, f: seq<byte>, k: nat)
    requires 1 <= k
  {
    v == Intended || Block(f, k) != []
  }

  lemma Round(v: Variant, f: seq<byte>, n: Net, k: nat)
    requires AfterRound(f, n, k) && k < Count(f) && Sends(v, f, k + 1)
    ensures AfterRound(f, Run(v, f, n, [TakeAck, TakeData]), k + 1)
  {
    RunTwo(v, f, n, TakeAck, TakeData);
    assert n.acks[0] in n.acks && IsAck(n.acks[0]);
    var m := Step(v, f, n, TakeAck);
    TakeAckKeeps(v, f, n);
    SenderAdvances(v, f, n.(acks := []));
    assert m == SenderSees(v, f, n.(acks := []), Received(AckOf(k)));
    assert m.data == [Copy(k + 1, DataOf(f, k + 1), false)];
    RoundEnds(v, f, m, k + 1);
  }

  lemma RoundEnds(v: Variant, f: seq<byte>, m: Net, k: nat)
    requires Lockstep(f, m) && 1 <= k <= Count(f)
    requires m.s.fetched == k == |m.r.writes| + 1 && m.s.verdict == Running && m.r.verdict == Running
    requires m.acks == [] && |m.data| == 1 && m.data[0].stamp == k && m.data[0].packet == DataOf(f, k)
    ensures AfterRound(f, Step(v, f, m, TakeData), k)
  {
    TakeDataKeeps(v, f, m);
    ReceiverWrites(f, m.(data := []), k);
    assert Step(v, f, m, TakeData) == ReceiverSees(m.(data := []), Received(DataOf(f, k)), k);
  }

  /** Rounds follow one another. */
  lemma {:induction false} RoundsOn(v: Variant, f: seq<byte>, n: Net, k: nat, m: nat) returns (t: seq<Label>)
    requires AfterRound(f, n, k) && k <= m <= Count(f) && forall i :: k < i <= m ==> Sends(v, f, i)
    ensures Every(Lossless, t) && AfterRound(f, Run(v, f, n, t), m)
    decreases m - k
  {
    if k == m {
      t := [];
    } else {
      var round := [TakeAck, TakeData];
      Round(v, f, n, k);
      var rest := RoundsOn(v, f, Run(v, f, n, round), k + 1, m);
      RunConcat(v, f, n, round, rest);
      t := round + rest;
    }
  }

  /** The receiver's first timeout starts the sender. */
  lemma Rounds(v: Variant, f: seq<byte>, m: nat) returns (t: seq<Label>)
    requires m <= Count(f) && forall i :: 1 <= i <= m ==> Sends(v, f, i)
    ensures Every(Lossless, t) && AfterRound(f, Run(v, f, START, t), m)
  {
    StartIsLockstep(f);
    ReceiverTimeoutKeeps(v, f, START);
    assert Run(v, f, START, [ReceiverTimeout]) == Step(v, f, START, ReceiverTimeout);
    var rest := RoundsOn(v, f, Step(v, f, START, ReceiverTimeout), 0, m);
    RunConcat(v, f, START, [ReceiverTimeout], rest);
    t := [ReceiverTimeout] + rest;
  }

  /** After a round, undisturbed rounds and the last ACK complete a file the code can send whole. */
  lemma Finishes(f: seq<byte>, n: Net, k: nat) returns (t: seq<Label>)
    requires |f| % BLOCK_SIZE != 0 && AfterRound(f, n, k) && k <= Count(f)
    ensures Every(Lossless, t) && Done(Run(AsWritten, f, n, t))
  {
    forall i | k < i <= Count(f)
      ensures Sends(AsWritten, f, i)
    {
      OnlyLastShort(f, i);
    }
    var rounds := RoundsOn(AsWritten, f, n, k, Count(f));
    var m := Run(AsWritten, f, n, rounds);
    assert m.acks[0] in m.acks && IsAck(m.acks[0]);
    t := rounds + [TakeAck];
    RunConcat(AsWritten, f, n, rounds, [TakeAck]);
    assert Run(AsWritten, f, m, [TakeAck]) == Step(AsWritten, f, m, TakeAck);
  }

  /** No DATA of the sender's block is in flight, and the receiver still waits for it. */
  ghost predicate Lost(n: Net) {
    n.s.fetched == |n.r.writes| + 1 && forall c <- n.data :: c.stamp < n.s.fetched
  }

  lemma LostTakeAck(f: seq<byte>, n: Net)
    requires Lockstep(f, n) && Lost(n)
    ensures var n' := Step(AsWritten, f, n, TakeAck);
            n'.s.fetched == n.s.fetched && n'.r == n.r && n'.data == n.data
  {
    if n.acks != [] {
      assert n.acks[0] in n.acks && IsAck(n.acks[0]);
      SameBlock(n.acks[0].stamp, n.s.fetched);
    }
  }

  lemma LostTakeData(f: seq<byte>, n: Net)
    requires Lockstep(f, n) && Lost(n)
    ensures var n' := Step(AsWritten, f, n, TakeData);
            n'.r.writes == n.r.writes && n'.s == n.s && (n.data != [] ==> n'.data == n.data[1..])
  {
    if n.data != [] {
      assert n.data[0] in n.data && IsData(f, n.data[0]);
      SameBlock(n.data[0].stamp, n.s.fetched);
    }
  }

  lemma LostKeeps(f: seq<byte>, n: Net, l: Label)
    requires Lockstep(f, n) && Lost(n) && Fifo(l)
    ensures var n' := Step(AsWritten, f, n, l);
            Lost(n') && n'.s.fetched == n.s.fetched && n'.r.writes == n.r.writes
  {
    match l
    case TakeAck => LostTakeAck(f, n);
    case TakeData => LostTakeData(f, n);
    case DropData(i) => FlowWithout(n.data, i, |n.r.writes|, n.s.fetched);
    case RepeatData(i) => FlowDoubled(n.data, i, |n.r.writes|, n.s.fetched);
    case _ =>
  }

  /**
   The sender as written never sends a block twice, so one lost DATA ends the transfer: from then
   on, in every run, neither end gets one block further.
   */
  lemma {:induction false} LostForEver(f: seq<byte>, n: Net, trace: seq<Label>)
    requires Lockstep(f, n) && Lost(n) && Every(Fifo, trace)
    ensures var n' := Run(AsWritten, f, n, trace);
            n'.s.fetched == n.s.fetched && n'.r.writes == n.r.writes
    decreases trace
  {
    if trace != [] {
      LostKeeps(f, n, trace[0]);
      StepKeeps(AsWritten, f, n, trace[0]);
      LostForEver(f, Step(AsWritten, f, n, trace[0]), trace[1..]);
    }
  }

  /** The last block is empty and unsent. */
  ghost predicate LastUnsent(f: seq<byte>, n: Net) {
    && |n.r.writes| < Count(f)
    && forall c <- n.data :: c.stamp < Count(f)
  }

  lemma UnsentTakeAck(f: seq<byte>, n: Net)
    requires |f| % BLOCK_SIZE == 0 && Lockstep(f, n) && LastUnsent(f, n)
    ensures LastUnsent(f, Step(AsWritten, f, n, TakeAck))
  {
    if n.acks != [] && n.s.verdict == Running && !n.s.final {
      OnlyLastShort(f, n.s.fetched + 1);
      assert n.acks[0] in n.acks && IsAck(n.acks[0]);
    }
  }

  lemma UnsentTakeData(f: seq<byte>, n: Net)
    requires |f| % BLOCK_SIZE == 0 && Lockstep(f, n) && LastUnsent(f, n)
    ensures LastUnsent(f, Step(AsWritten, f, n, TakeData))
  {
    if n.data != [] {
      assert n.data[0] in n.data && IsData(f, n.data[0]);
      SameBlock(n.data[0].stamp, |n.r.writes| + 1);
    }
  }

  lemma LastUnsentKeeps(f: seq<byte>, n: Net, l: Label)
    requires |f| % BLOCK_SIZE == 0 && Lockstep(f, n) && LastUnsent(f, n) && Fifo(l)
    ensures LastUnsent(f, Step(AsWritten, f, n, l))
  {
    match l
    case TakeAck => UnsentTakeAck(f, n);
    case TakeData => UnsentTakeData(f, n);
    case DropData(i) => FlowWithout(n.data, i, |n.r.writes|, n.s.fetched);
    case RepeatData(i) => FlowDoubled(n.data, i, |n.r.writes|, n.s.fetched);
    case _ =>
  }

  lemma {:induction false} NeverWhole(f: seq<byte>, n: Net, trace: seq<Label>)
    requires |f| % BLOCK_SIZE == 0
    requires Lockstep(f, n) && LastUnsent(f, n) && Every(Fifo, trace)
    ensures |Run(AsWritten, f, n, trace).r.writes| < Count(f)
    decreases trace
  {
    if trace != [] {
      LastUnsentKeeps(f, n, trace[0]);
      StepKeeps(AsWritten, f, n, trace[0]);
      NeverWhole(f, Step(AsWritten, f, n, trace[0]), trace[1..]);
    }
  }

  /** A file that does not end on a block boundary gets through, given an undisturbed run. */
  lemma CodeCompletes(f: seq<byte>) returns (t: seq<Label>)
    requires |f| % BLOCK_SIZE != 0
    ensures Every(Lossless, t) && Done(Run(AsWritten, f, START, t))
  {
    var start := Rounds(AsWritten, f, 0);
    var rest := Finishes(f, Run(AsWritten, f, START, start), 0);
    RunConcat(AsWritten, f, START, start, rest);
    t := start + rest;
  }

  /**
   The code can complete a transfer if and only if the file's length is not a multiple of 512: the
   receiver's end-of-file test waits for the empty last block that lines 300-307 never send.
   */
  lemma CodeCompletesIff(f: seq<byte>)
    ensures |f| % BLOCK_SIZE != 0 <==>
            exists t :: Every(Fifo, t) && Done(Run(AsWritten, f, START, t))
    ensures |f| % BLOCK_SIZE == 0 ==>
            forall t :: Every(Fifo, t) ==> Run(AsWritten, f, START, t).r.verdict != Complete
                                           && Run(AsWritten, f, START, t).s.verdict != Complete
  {
    if |f| % BLOCK_SIZE != 0 {
      var t := CodeCompletes(f);
      assert Every(Fifo, t);
    } else {
      StartIsLockstep(f);
      forall t | Every(Fifo, t)
        ensures Run(AsWritten, f, START, t).r.verdict != Complete
        ensures Run(AsWritten, f, START, t).s.verdict != Complete
      {
        NeverWhole(f, START, t);
        RunKeeps(AsWritten, f, START, t);
      }
    }
  }

  /** The receiver stops just when its output is the whole file: true but for multiples of 512. */
  ghost predicate StopsWhenWhole(v: Variant, f: seq<byte>, t: seq<Label>) {
    var r := Run(v, f, START, t).r;
    r.verdict == Complete <==> FileOf(r) == f
  }

  /**
   A file whose length is a multiple of 512 (the empty file, before anything arrives) can be whole
   while the receiver still waits for the empty last block; no other file can.
   */
  lemma StopsWhenWholeIff(v: Variant, f: seq<byte>)
    ensures (forall t :: Every(Fifo, t) ==> StopsWhenWhole(v, f, t)) <==> |f| % BLOCK_SIZE != 0
  {
    StartIsLockstep(f);
    if |f| % BLOCK_SIZE != 0 {
      forall t | Every(Fifo, t)
        ensures StopsWhenWhole(v, f, t)
      {
        RunKeeps(v, f, START, t);
        var k := |Run(v, f, START, t).r.writes|;
        ConcatPrefix(f, k);
        assert k < Count(f) ==> k * BLOCK_SIZE < |f|;
      }
    } else {
      var k := Count(f) - 1;
      forall i | 1 <= i <= k
        ensures Sends(v, f, i)
      {
        OnlyLastShort(f, i);
      }
      var t := Rounds(v, f, k);
      ConcatPrefix(f, k);
      assert Every(Fifo, t) && !StopsWhenWhole(v, f, t);
    }
  }
}
