/** From which states the code as written can still complete, exactly. */
module CodeProgress {
  import opened Bytes
  import opened Blocks
  import opened Endpoints
  import opened Network
  import opened FifoSafety
  import opened Progress
  import opened CodeAsWritten

  ghost predicate InFlight(q: seq<Copy>, stamp: nat) {
    exists i :: 0 <= i < |q| && q[i].stamp == stamp
  }

  /**
   The DATA that the receiver waits for is under way; or both ends have the block and its ACK is under
   way, or the receiver can still be made to repeat it. Only the receiver's timeouts help: the
   sender's send nothing.
   */
  ghost predicate CodeHopeful(n: Net) {
    && n.s.verdict == Running
    && (n.r.verdict == Running || n.r.verdict == Complete)
    && if n.s.fetched == |n.r.writes| then
         || InFlight(n.acks, n.s.fetched)
         || (n.r.verdict == Running && (n.r.retries < MAX_RETRIES || n.data != []))
       else InFlight(n.data, n.s.fetched)
  }

  lemma Slices<T>(q: seq<T>, lo: nat, hi: nat)
    requires lo <= hi <= |q| && q != []
    ensures Without(q, |q| - 1) == q[..|q| - 1] && Without(q, 0) == q[1..]
    ensures hi < |q| ==> q[..|q| - 1][lo..hi] == q[lo..hi]
    ensures lo > 0 ==> q[1..][lo - 1..hi - 1] == q[lo..hi]
  {
  }

  datatype Channel = DataChannel | AckChannel {
    function In(n: Net): seq<Copy> {
      if DataChannel? then n.data else n.acks
    }

    function Put(n: Net, q: seq<Copy>): Net {
      if DataChannel? then n.(data := q) else n.(acks := q)
    }

    function Drop(i: nat): Label {
      if DataChannel? then DropData(i) else DropAck(i)
    }
  }

  lemma DropIs(f: seq<byte>, n: Net, ch: Channel, i: nat)
    ensures Step(AsWritten, f, n, ch.Drop(i)) == ch.Put(n, Without(ch.In(n), i))
    ensures Fifo(ch.Drop(i))
  {
  }

  /** A lossy network can leave any one stretch of a channel: it drops first or last datagrams. */
  lemma {:induction false} Keep(f: seq<byte>, n: Net, ch: Channel, lo: nat, hi: nat) returns (t: seq<Label>)
    requires lo <= hi <= |ch.In(n)|
    ensures Every(Fifo, t) && Run(AsWritten, f, n, t) == ch.Put(n, ch.In(n)[lo..hi])
    decreases |ch.In(n)|
  {
    var q := ch.In(n);
    if lo == 0 && hi == |q| {
      t := [];
      assert q[lo..hi] == q;
    } else {
      Slices(q, lo, hi);
      var i, shift := if hi < |q| then |q| - 1 else 0, if hi < |q| then 0 else 1;
      DropIs(f, n, ch, i);
      var rest := Keep(f, Step(AsWritten, f, n, ch.Drop(i)), ch, lo - shift, hi - shift);
      t := [ch.Drop(i)] + rest;
      assert t[1..] == rest;
    }
  }

  lemma Prune(f: seq<byte>, n: Net, dlo: nat, dhi: nat, alo: nat, ahi: nat) returns (t: seq<Label>)
    requires Lockstep(f, n) && dlo <= dhi <= |n.data| && alo <= ahi <= |n.acks|
    ensures Every(Fifo, t)
    ensures Run(AsWritten, f, n, t) == n.(data := n.data[dlo..dhi], acks := n.acks[alo..ahi])
    ensures Lockstep(f, Run(AsWritten, f, n, t))
  {
    var d := Keep(f, n, DataChannel, dlo, dhi);
    var a := Keep(f, Run(AsWritten, f, n, d), AckChannel, alo, ahi);
    Joined(AsWritten, f, n, Fifo, d, a);
    t := d + a;
    RunKeeps(AsWritten, f, n, t);
  }

  /** The block that the receiver waits for is under way: let only it through. */
  lemma DataThrough(f: seq<byte>, n: Net) returns (t: seq<Label>)
    requires Lockstep(f, n) && n.s.verdict == Running && n.r.verdict == Running
    requires n.s.fetched == |n.r.writes| + 1 && InFlight(n.data, n.s.fetched)
    ensures Every(Fifo, t) && AfterRound(f, Run(AsWritten, f, n, t), n.s.fetched)
  {
    var i :| 0 <= i < |n.data| && n.data[i].stamp == n.s.fetched;
    assert n.data[i] in n.data && IsData(f, n.data[i]);
    var prune := Prune(f, n, i, i + 1, 0, 0);
    var m := Run(AsWritten, f, n, prune);
    RoundEnds(AsWritten, f, m, n.s.fetched);
    assert Run(AsWritten, f, m, [TakeData]) == Step(AsWritten, f, m, TakeData);
    Joined(AsWritten, f, n, Fifo, prune, [TakeData]);
    t := prune + [TakeData];
  }

  /** The ACK that the sender waits for is under way. */
  lemma AckThrough(f: seq<byte>, n: Net) returns (t: seq<Label>)
    requires Lockstep(f, n) && n.s.verdict == Running
    requires n.r.verdict == Running || n.r.verdict == Complete
    requires n.s.fetched == |n.r.writes| && InFlight(n.acks, n.s.fetched)
    ensures Every(Fifo, t) && AfterRound(f, Run(AsWritten, f, n, t), n.s.fetched)
  {
    var i :| 0 <= i < |n.acks| && n.acks[i].stamp == n.s.fetched;
    t := Prune(f, n, 0, 0, i, i + 1);
  }

  /** The receiver may time out: its ACK is the one the sender waits for. */
  lemma TimeoutThrough(f: seq<byte>, n: Net) returns (t: seq<Label>)
    requires Lockstep(f, n) && n.s.verdict == Running && n.r.verdict == Running
    requires n.s.fetched == |n.r.writes| && n.r.retries < MAX_RETRIES
    ensures Every(Fifo, t) && AfterRound(f, Run(AsWritten, f, n, t), n.s.fetched)
  {
    var prune := Prune(f, n, 0, 0, 0, 0);
    var m := Run(AsWritten, f, n, prune);
    ReceiverTimeoutKeeps(AsWritten, f, m);
    ReceiverTimesOut(m);
    assert Run(AsWritten, f, m, [ReceiverTimeout]) == Step(AsWritten, f, m, ReceiverTimeout);
    Joined(AsWritten, f, n, Fifo, prune, [ReceiverTimeout]);
    t := prune + [ReceiverTimeout];
  }

  /** A duplicate gives the receiver new timeouts, and its ACK may do without them. */
  lemma DuplicateThrough(f: seq<byte>, n: Net) returns (t: seq<Label>)
    requires Lockstep(f, n) && n.s.verdict == Running && n.r.verdict == Running
    requires n.s.fetched == |n.r.writes| && n.data != []
    ensures Every(Fifo, t) && AfterRound(f, Run(AsWritten, f, n, t), n.s.fetched)
  {
    var prune := Prune(f, n, 0, 1, 0, 0);
    var m := Run(AsWritten, f, n, prune);
    var c := m.data[0];
    assert c in m.data && IsData(f, c);
    SameBlock(c.stamp, |n.r.writes| + 1);
    TakeDataKeeps(AsWritten, f, m);
    ReceiverStays(m.(data := []), c.packet, c.stamp);
    var m' := Step(AsWritten, f, m, TakeData);
    assert m' == ReceiverSees(m.(data := []), Received(c.packet), c.stamp);
    assert Run(AsWritten, f, m, [TakeData]) == m';
    Joined(AsWritten, f, n, Fifo, prune, [TakeData]);
    t := prune + [TakeData];
    if m'.acks == [] {
      var rest := TimeoutThrough(f, m');
      Joined(AsWritten, f, n, Fifo, t, rest);
      t := t + rest;
    }
  }

  lemma CodeCanComplete(f: seq<byte>, n: Net) returns (t: seq<Label>)
    requires |f| % BLOCK_SIZE != 0 && Lockstep(f, n) && CodeHopeful(n)
    ensures Every(Fifo, t) && Done(Run(AsWritten, f, n, t))
  {
    var start;
    if n.s.fetched == |n.r.writes| + 1 {
      start := DataThrough(f, n);
    } else if InFlight(n.acks, n.s.fetched) {
      start := AckThrough(f, n);
    } else if n.r.retries < MAX_RETRIES {
      start := TimeoutThrough(f, n);
    } else {
      start := DuplicateThrough(f, n);
    }
    var rest := Finishes(f, Run(AsWritten, f, n, start), n.s.fetched);
    assert Every(Fifo, rest);
    Joined(AsWritten, f, n, Fifo, start, rest);
    t := start + rest;
  }

  /** A channel that only lost or kept its datagrams has none that was not there. */
  lemma NotInFlight(q: seq<Copy>, q': seq<Copy>, stamp: nat)
    requires !InFlight(q, stamp) && forall c <- q' :: c in q
    ensures !InFlight(q', stamp)
  {
    assert forall i :: 0 <= i < |q'| ==> q'[i] in q;
  }

  lemma HopelessTake(f: seq<byte>, n: Net, l: Label)
    requires Lockstep(f, n) && !Done(n) && !CodeHopeful(n) && (l.TakeData? || l.TakeAck?)
    ensures var n' := Step(AsWritten, f, n, l); !Done(n') && !CodeHopeful(n')
  {
    if l.TakeAck? && n.acks != [] {
      var c, m := n.acks[0], n.(acks := n.acks[1..]);
      assert c in n.acks && IsAck(c);
      SameBlock(c.stamp, n.s.fetched);
      if n.s.verdict == Running && (n.r.verdict == Running || n.r.verdict == Complete) {
        SenderStays(AsWritten, f, m, c.packet);
        assert forall d <- m.acks :: d in n.acks;
        if !InFlight(n.acks, n.s.fetched) {
          NotInFlight(n.acks, m.acks, n.s.fetched);
        }
      }
    } else if l.TakeData? && n.data != [] {
      var c, m := n.data[0], n.(data := n.data[1..]);
      assert c in n.data && IsData(f, c);
      SameBlock(c.stamp, |n.r.writes| + 1);
      if n.s.verdict == Running && (n.r.verdict == Running || n.r.verdict == Complete) {
        ReceiverStays(m, c.packet, c.stamp);
        assert forall d <- m.data :: d in n.data;
        if !InFlight(n.data, n.s.fetched) {
          NotInFlight(n.data, m.data, n.s.fetched);
        }
      }
    }
  }

  lemma HopelessEdit(f: seq<byte>, n: Net, l: Label)
    requires Lockstep(f, n) && !Done(n) && !CodeHopeful(n)
    requires l.DropData? || l.DropAck? || l.RepeatData? || l.RepeatAck?
    ensures var n' := Step(AsWritten, f, n, l); !Done(n') && !CodeHopeful(n')
  {
    var n' := Step(AsWritten, f, n, l);
    match l {
      case DropData(i) => FlowWithout(n.data, i, |n.r.writes|, n.s.fetched);
      case RepeatData(i) => FlowDoubled(n.data, i, |n.r.writes|, n.s.fetched);
      case DropAck(i) => FlowWithout(n.acks, i, n.s.fetched - 1, |n.r.writes|);
      case RepeatAck(i) => FlowDoubled(n.acks, i, n.s.fetched - 1, |n.r.writes|);
    }
    if !InFlight(n.data, n.s.fetched) {
      NotInFlight(n.data, n'.data, n.s.fetched);
    }
    if !InFlight(n.acks, n.s.fetched) {
      NotInFlight(n.acks, n'.acks, n.s.fetched);
    }
  }

  lemma HopelessTimeout(f: seq<byte>, n: Net, l: Label)
    requires Lockstep(f, n) && !Done(n) && !CodeHopeful(n) && (l.SenderTimeout? || l.ReceiverTimeout?)
    ensures var n' := Step(AsWritten, f, n, l); !Done(n') && !CodeHopeful(n')
  {
    var n' := Step(AsWritten, f, n, l);
    if l.SenderTimeout? {
      assert n' == n.(s := n'.s) && n'.s.fetched == n.s.fetched;
    } else {
      ReceiverTimesOut(n);
      assert n'.data == n.data && n'.s == n.s;
    }
  }

  lemma {:induction false} CodeHopeless(f: seq<byte>, n: Net, trace: seq<Label>)
    requires Lockstep(f, n) && !Done(n) && !CodeHopeful(n) && Every(Fifo, trace)
    ensures !Done(Run(AsWritten, f, n, trace))
    decreases trace
  {
    if trace != [] {
      var l := trace[0];
      if l.TakeData? || l.TakeAck? {
        HopelessTake(f, n, l);
      } else if l.SenderTimeout? || l.ReceiverTimeout? {
        HopelessTimeout(f, n, l);
      } else {
        HopelessEdit(f, n, l);
      }
      StepKeeps(AsWritten, f, n, l);
      CodeHopeless(f, Step(AsWritten, f, n, l), trace[1..]);
    }
  }

  /**
   Progress of the code, exactly: from a state that a run of the code reaches, some run completes at
   both ends if and only if both are complete already, or the file's length is not a multiple of 512
   and the state is hopeful.
   */
  lemma {:induction false} CodeProgressIff(f: seq<byte>, trace: seq<Label>)
    requires Every(Fifo, trace)
    ensures var n := Run(AsWritten, f, START, trace);
            (exists t :: Every(Fifo, t) && Done(Run(AsWritten, f, n, t)))
            <==> Done(n) || (|f| % BLOCK_SIZE != 0 && CodeHopeful(n))
  {
    var n := Run(AsWritten, f, START, trace);
    StartIsLockstep(f);
    RunKeeps(AsWritten, f, START, trace);
    if Done(n) {
      assert Every(Fifo, []) && Run(AsWritten, f, n, []) == n;
    } else if |f| % BLOCK_SIZE == 0 {
      forall t | Every(Fifo, t)
        ensures !Done(Run(AsWritten, f, n, t))
      {
        Joined(AsWritten, f, START, Fifo, trace, t);
        CodeCompletesIff(f);
      }
    } else if CodeHopeful(n) {
      var t := CodeCanComplete(f, n);
    } else {
      forall t | Every(Fifo, t)
        ensures !Done(Run(AsWritten, f, n, t))
      {
        CodeHopeless(f, n, t);
      }
    }
  }
}
