/**
 The two TFTP loops as step functions: one call is one iteration of `while (1)`, that is one
 return of `recvfrom` and what the loop does about it.

 The receiver is `tftp_get`. The sender is `tftp_put` in two variants. `AsWritten` is the code.
 `Intended` is what it sets out to do, and differs at four points:
  - line 254 means to resend the DATA saved at line 305, but the `n` it computes a length from is
    the -1 just returned by `recvfrom`, so nothing is sent;
  - line 250 takes a block number that has wrapped to 0 for "no block sent yet" and sends the
    head of the buffer to the server's well-known port, not to the peer of the transfer;
  - lines 300-307 send nothing for an empty last block;
  - lines 309-323 leave the loop after one receive, whatever it brought.
 */
module Endpoints {
  import opened Bytes
  import opened Blocks
  import opened Wire

  const MAX_RETRIES := 5

  datatype Variant = AsWritten | Intended

  datatype Event = Timeout | ReceiveError | Received(packet: Packet)

  /** `ToServer` is a datagram to port 69, outside the transfer; `ToPeer` one to the other end. */
  datatype Output = Silent | ToServer | ToPeer(packet: Packet)

  /** `Complete` is "Transfer complete!"; `GaveUp` is line 322, which also returns 0. */
  datatype Verdict = Running | Complete | MaxRetries | Failed | GaveUp

  /** `writes` lists the `fwrite` calls, so the local file is their concatenation. */
  datatype Receiver = Receiver(expected: u16, retries: nat, writes: seq<seq<byte>>, verdict: Verdict)

  /** `fetched` counts the `fread` calls; `final` says that the last one came up short. */
  datatype Sender = Sender(blockNum: u16, retries: nat, fetched: nat, final: bool, verdict: Verdict)

  const GET_START := Receiver(1, 0, [], Running)
  const PUT_START := Sender(0, 0, 0, false, Running)

  function FileOf(r: Receiver): seq<byte> {
    Concat(r.writes)
  }

  function GetData(r: Receiver, block: u16, payload: seq<byte>): (Receiver, Output) {
    if block == r.expected then
      (r.(expected := Next(block), writes := r.writes + [payload],
          verdict := if |payload| < BLOCK_SIZE then Complete else Running),
       ToPeer(Ack(block)))
    else if block < r.expected then (r, ToPeer(Ack(block)))
    else (r, Silent)
  }

  function GetStep(r: Receiver, e: Event): (Receiver, Output) {
    if r.verdict != Running then (r, Silent)
    else match e
      case Timeout =>
        if r.retries < MAX_RETRIES then (r.(retries := r.retries + 1), ToPeer(Ack(Prev(r.expected))))
        else (r.(retries := r.retries + 1, verdict := MaxRetries), Silent)
      case ReceiveError => (r.(verdict := Failed), Silent)
      case Received(Error(_, _)) => (r.(retries := 0, verdict := Failed), Silent)
      case Received(Data(block, payload)) => GetData(r.(retries := 0), block, payload)
      case Received(_) => (r.(retries := 0), Silent)
  }

  /** Read the next block and send it. */
  function PutNext(v: Variant, f: seq<byte>, s: Sender): (Sender, Output) {
    var chunk := Block(f, s.fetched + 1);
    (s.(blockNum := Next(s.blockNum), fetched := s.fetched + 1, final := |chunk| < BLOCK_SIZE),
     if v == AsWritten && chunk == [] then Silent else ToPeer(Data(Next(s.blockNum), chunk)))
  }

  function Resend(v: Variant, f: seq<byte>, s: Sender): Output {
    match v
    case AsWritten => if s.blockNum == 0 then ToServer else Silent
    case Intended => if s.fetched == 0 then ToServer else ToPeer(Data(s.blockNum, Block(f, s.fetched)))
  }

  function PutStep(v: Variant, f: seq<byte>, s: Sender, e: Event): (Sender, Output) {
    if s.verdict != Running then (s, Silent)
    else if v == AsWritten && s.final then
      (s.(verdict := if e == Received(Ack(s.blockNum)) then Complete else GaveUp), Silent)
    else match e
      case Timeout =>
        if s.retries < MAX_RETRIES then (s.(retries := s.retries + 1), Resend(v, f, s))
        else (s.(retries := s.retries + 1, verdict := MaxRetries), Silent)
      case ReceiveError => (s.(verdict := Failed), Silent)
      case Received(Error(_, _)) => (s.(retries := 0, verdict := Failed), Silent)
      case Received(Ack(block)) =>
        if block != s.blockNum then (s.(retries := 0), Silent)
        else if s.final then (s.(retries := 0, verdict := Complete), Silent)
        else PutNext(v, f, s.(retries := 0))
      case Received(_) => (s.(retries := 0), Silent)
  }
}
