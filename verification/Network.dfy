/**
 `tftp_put` and `tftp_get` at the two ends of two unreliable channels.

 Every datagram in a channel carries a stamp, the unbounded number of the block it is about.
 Neither end sees it: on the wire there is only the 16-bit number.

 A run is a list of labels. `Take` delivers the oldest datagram of a channel, `Drop` loses one and
 `Repeat` duplicates one in place: these and the timeouts make the FIFO runs. `Replay` delivers any
 datagram ever put in the channel and leaves it there: with the timeouts alone it makes the runs of
 a network that loses, duplicates, reorders and delays without bound.
 */
module Network {
  import opened Bytes
  import opened Blocks
  import opened Wire
  import opened Endpoints

  datatype Copy = Copy(stamp: nat, packet: Packet, again: bool)

  datatype Net = Net(s: Sender, r: Receiver, data: seq<Copy>, acks: seq<Copy>)

  datatype Label =
    | SenderTimeout | ReceiverTimeout
    | TakeData | TakeAck
    | DropData(i: nat) | DropAck(i: nat)
    | RepeatData(i: nat) | RepeatAck(i: nat)
    | ReplayData(i: nat) | ReplayAck(i: nat)

  const START := Net(PUT_START, GET_START, [], [])

  predicate Fifo(l: Label) {
    !l.ReplayData? && !l.ReplayAck?
  }

  predicate Unordered(l: Label) {
    l.SenderTimeout? || l.ReceiverTimeout? || l.ReplayData? || l.ReplayAck?
  }

  /** A schedule that loses nothing: timeouts and deliveries only. */
  predicate Lossless(l: Label) {
    l.SenderTimeout? || l.ReceiverTimeout? || l.TakeData? || l.TakeAck?
  }

  predicate Every(p: Label -> bool, trace: seq<Label>) {
    forall i :: 0 <= i < |trace| ==> p(trace[i])
  }

  function SenderSees(v: Variant, f: seq<byte>, n: Net, e: Event): Net {
    var (s, out) := PutStep(v, f, n.s, e);
    n.(s := s, data := if out.ToPeer? then n.data + [Copy(s.fetched, out.packet, e.Timeout?)] else n.data)
  }

  function ReceiverSees(n: Net, e: Event, stamp: nat): Net {
    var (r, out) := GetStep(n.r, e);
    n.(r := r, acks := if out.ToPeer? then n.acks + [Copy(stamp, out.packet, e.Timeout?)] else n.acks)
  }

  function Without<T>(s: seq<T>, i: nat): seq<T> {
    if i < |s| then s[..i] + s[i + 1..] else s
  }

  function Doubled<T>(s: seq<T>, i: nat): seq<T> {
    if i < |s| then s[..i + 1] + s[i..] else s
  }

  function Step(v: Variant, f: seq<byte>, n: Net, l: Label): Net {
    match l
    case SenderTimeout => SenderSees(v, f, n, Timeout)
    case ReceiverTimeout => ReceiverSees(n, Timeout, |n.r.writes|)
    case TakeData =>
      if n.data == [] then n
      else ReceiverSees(n.(data := n.data[1..]), Received(n.data[0].packet), n.data[0].stamp)
    case TakeAck =>
      if n.acks == [] then n
      else SenderSees(v, f, n.(acks := n.acks[1..]), Received(n.acks[0].packet))
    case DropData(i) => n.(data := Without(n.data, i))
    case DropAck(i) => n.(acks := Without(n.acks, i))
    case RepeatData(i) => n.(data := Doubled(n.data, i))
    case RepeatAck(i) => n.(acks := Doubled(n.acks, i))
    case ReplayData(i) =>
      if i < |n.data| then ReceiverSees(n, Received(n.data[i].packet), n.data[i].stamp) else n
    case ReplayAck(i) =>
      if i < |n.acks| then SenderSees(v, f, n, Received(n.acks[i].packet)) else n
  }

  lemma DoubledIs<T>(s: seq<T>, i: nat)
    requires i < |s|
    ensures |Doubled(s, i)| == |s| + 1 && Doubled(s, i)[i] == s[i] == Doubled(s, i)[i + 1]
    ensures Without(Doubled(s, i), i) == s
  {
  }

  /** A duplicate lies next to its original, and losing it restores the channel. */
  lemma DuplicateInPlace(v: Variant, f: seq<byte>, n: Net, i: nat)
    ensures i < |n.data| ==>
              var n' := Step(v, f, n, RepeatData(i));
              |n'.data| == |n.data| + 1 && n'.data[i] == n'.data[i + 1] && Step(v, f, n', DropData(i)) == n
    ensures i < |n.acks| ==>
              var n' := Step(v, f, n, RepeatAck(i));
              |n'.acks| == |n.acks| + 1 && n'.acks[i] == n'.acks[i + 1] && Step(v, f, n', DropAck(i)) == n
  {
    if i < |n.data| {
      DoubledIs(n.data, i);
    }
    if i < |n.acks| {
      DoubledIs(n.acks, i);
    }
  }

  function Run(v: Variant, f: seq<byte>, n: Net, trace: seq<Label>): Net
    decreases trace
  {
    if trace == [] then n else Run(v, f, Step(v, f, n, trace[0]), trace[1..])
  }

  lemma {:induction false} RunConcat(v: Variant, f: seq<byte>, n: Net, a: seq<Label>, b: seq<Label>)
    ensures Run(v, f, n, a + b) == Run(v, f, Run(v, f, n, a), b)
    decreases a
  {
    if a == [] {
      assert a + b == b;
    } else {
      RunConcat(v, f, Step(v, f, n, a[0]), a[1..], b);
      assert (a + b)[1..] == a[1..] + b;
    }
  }

  /** Two legs of a run, end to end. */
  lemma Joined(v: Variant, f: seq<byte>, n: Net, allowed: Label -> bool, a: seq<Label>, b: seq<Label>)
    requires Every(allowed, a) && Every(allowed, b)
    ensures Every(allowed, a + b)
    ensures Run(v, f, n, a + b) == Run(v, f, Run(v, f, n, a), b)
  {
    RunConcat(v, f, n, a, b);
  }

  lemma RunTwo(v: Variant, f: seq<byte>, n: Net, a: Label, b: Label)
    ensures Run(v, f, n, [a, b]) == Step(v, f, Step(v, f, n, a), b)
  {
    assert [a, b][1..] == [b];
    assert Run(v, f, Step(v, f, n, a), [b]) == Run(v, f, Step(v, f, Step(v, f, n, a), b), [b][1..]);
  }

  /** The DATA of block `k`, as it is on the wire. */
  function DataOf(f: seq<byte>, k: nat): Packet
    requires 1 <= k
  {
    Data(k % WRAP, Block(f, k))
  }

  function AckOf(k: nat): Packet {
    Ack(k % WRAP)
  }

  /** The 16-bit counters follow the unbounded ones, and the sender's stage follows its block. */
  ghost predicate Counted(f: seq<byte>, n: Net) {
    && n.s.blockNum == n.s.fetched % WRAP
    && n.r.expected == (|n.r.writes| + 1) % WRAP
    && n.s.fetched <= Count(f)
    && n.s.final == (n.s.fetched == Count(f))
    && (n.s.verdict == Complete ==> n.s.final)
  }

  /** What the receiver has written is a beginning of the file, and it stops exactly at the end. */
  ghost predicate Faithful(f: seq<byte>, r: Receiver) {
    && |r.writes| <= Count(f)
    && r.writes == Prefix(f, |r.writes|)
    && (r.verdict == Complete <==> |r.writes| == Count(f))
  }

  lemma NextOf(k: nat)
    ensures Next(k % WRAP) == (k + 1) % WRAP
    ensures Prev((k + 1) % WRAP) == k % WRAP
  {
  }

  /** Blocks less than 65536 apart have different numbers on the wire. */
  lemma SameBlock(a: nat, b: nat)
    requires a - WRAP < b < a + WRAP
    ensures a % WRAP == b % WRAP <==> a == b
  {
  }

  /** Writing the block that is due keeps the output a beginning of the file. */
  lemma WriteDue(f: seq<byte>, r: Receiver)
    requires Faithful(f, r) && r.verdict == Running
    requires r.expected == (|r.writes| + 1) % WRAP
    ensures |r.writes| < Count(f)
    ensures var due := |r.writes| + 1;
            var r' := GetData(r, r.expected, Block(f, due)).0;
            Faithful(f, r') && |r'.writes| == due && r'.expected == (due + 1) % WRAP
  {
    var due := |r.writes| + 1;
    assert Prefix(f, due) == Prefix(f, due - 1) + [Block(f, due)];
    OnlyLastShort(f, due);
    NextOf(due);
  }

  /** The ACK the sender waits for: it goes on to the next block. */
  lemma SenderAdvances(v: Variant, f: seq<byte>, n: Net)
    requires Counted(f, n) && n.s.verdict == Running && !n.s.final
    ensures var k := n.s.fetched + 1;
            var n' := SenderSees(v, f, n, Received(AckOf(k - 1)));
            && Counted(f, n')
            && n'.s == Sender(k % WRAP, 0, k, k == Count(f), Running)
            && n'.r == n.r && n'.acks == n.acks
            && n'.data == if v == AsWritten && Block(f, k) == [] then n.data
                          else n.data + [Copy(k, DataOf(f, k), false)]
  {
    NextOf(n.s.fetched);
    OnlyLastShort(f, n.s.fetched + 1);
  }

  /** The DATA the receiver waits for: it writes it and acknowledges it. */
  lemma ReceiverWrites(f: seq<byte>, n: Net, stamp: nat)
    requires Faithful(f, n.r) && n.r.verdict == Running
    requires n.r.expected == (|n.r.writes| + 1) % WRAP
    ensures var k := |n.r.writes| + 1;
            var n' := ReceiverSees(n, Received(DataOf(f, k)), stamp);
            && k <= Count(f) && Faithful(f, n'.r)
            && n'.r == Receiver((k + 1) % WRAP, 0, Prefix(f, k), if k == Count(f) then Complete else Running)
            && n'.s == n.s && n'.data == n.data
            && n'.acks == n.acks + [Copy(stamp, AckOf(k), false)]
  {
    WriteDue(f, n.r.(retries := 0));
  }

  /** Any other ACK moves neither the sender's block nor a channel; a final one may complete it. */
  lemma SenderStays(v: Variant, f: seq<byte>, n: Net, p: Packet)
    requires Counted(f, n) && p.Ack?
    requires n.s.verdict != Running || n.s.final || p.block != n.s.blockNum
    ensures var n' := SenderSees(v, f, n, Received(p));
            && Counted(f, n')
            && n' == n.(s := n'.s) && n'.s.fetched == n.s.fetched
            && (n'.s.verdict == Complete ==>
                  n.s.verdict == Complete || (n.s.final && p.block == n.s.blockNum))
  {
  }

  /** Any other DATA is at most acknowledged again. */
  lemma ReceiverStays(n: Net, p: Packet, stamp: nat)
    requires p.Data? && (n.r.verdict != Running || p.block != n.r.expected)
    ensures var n' := ReceiverSees(n, Received(p), stamp);
            && n' == n.(r := n.r.(retries := n'.r.retries), acks := n'.acks)
            && (n'.acks == n.acks || n'.acks == n.acks + [Copy(stamp, Ack(p.block), false)])
  {
  }

  lemma ReceiverTimesOut(n: Net)
    requires n.r.expected == (|n.r.writes| + 1) % WRAP
    ensures var n' := ReceiverSees(n, Timeout, |n.r.writes|);
            && n' == n.(r := n.r.(retries := n'.r.retries, verdict := n'.r.verdict), acks := n'.acks)
            && (n'.r.verdict == Complete <==> n.r.verdict == Complete)
            && (n'.acks == n.acks || n'.acks == n.acks + [Copy(|n.r.writes|, AckOf(|n.r.writes|), true)])
  {
    NextOf(|n.r.writes|);
  }

  lemma SenderTimesOut(v: Variant, f: seq<byte>, n: Net)
    requires Counted(f, n)
    ensures var n' := SenderSees(v, f, n, Timeout);
            && Counted(f, n')
            && n' == n.(s := n'.s, data := n'.data) && n'.s.fetched == n.s.fetched
            && (n'.s.verdict == Complete ==> n.s.verdict == Complete)
            && (n'.data == n.data
                || (n.s.fetched >= 1
                    && n'.data == n.data + [Copy(n.s.fetched, DataOf(f, n.s.fetched), true)]))
  {
  }
}
