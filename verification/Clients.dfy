/**
 The two TFTP endpoints as they run: objects over the packet buffer that `recvfrom` overwrites and
 the loops read in place. Each method is tied to the step functions of `Endpoints`.
 */
module Clients {
  import opened Bytes
  import opened Blocks
  import opened Wire
  import opened Endpoints
  import opened Retries
  import opened Answers

  /** What one `recvfrom` comes back with; its datagram is what the server or the network chose. */
  datatype Arrival = TimedOut | Broken | Datagram(bytes: seq<byte>)

  /** A datagram has a header and fits the buffer. */
  predicate Fits(a: Arrival) {
    a.Datagram? ==> 4 <= |a.bytes| <= 516
  }

  function EventOf(a: Arrival): Event
    requires Fits(a)
  {
    match a
    case TimedOut => Timeout
    case Broken => ReceiveError
    case Datagram(bytes) => Received(Decode(bytes))
  }

  function Events(history: seq<Arrival>): (es: seq<Event>)
    requires forall a <- history :: Fits(a)
    ensures |es| == |history|
  {
    seq(|history|, i requires 0 <= i < |history| => EventOf(history[i]))
  }

  /** A datagram handed to `sendto`, if any, and where to. */
  datatype Sent = Nothing | ToPort69(bytes: seq<byte>) | Peer(bytes: seq<byte>)

  ghost predicate Carries(d: Sent, out: Output) {
    match out
    case Silent => d == Nothing
    case ToServer => d.ToPort69?
    case ToPeer(p) => d == Peer(Encode(p))
  }

  /** A packet that one end sends is the event that the other end handles when it arrives. */
  lemma ArrivesAsSent(p: Packet)
    requires p.Ack? || (p.Data? && |p.payload| <= BLOCK_SIZE)
    ensures Fits(Datagram(Encode(p))) && EventOf(Datagram(Encode(p))) == Received(p)
  {
    DecodeEncode(p);
  }

  /** `recvfrom` into the buffer: the first bytes are the datagram's, the rest stay. */
  method Fill(buffer: array<byte>, bytes: seq<byte>, at: nat)
    requires at + |bytes| <= buffer.Length
    modifies buffer
    ensures buffer[at..at + |bytes|] == bytes
    ensures forall i :: 0 <= i < buffer.Length && !(at <= i < at + |bytes|) ==> buffer[i] == old(buffer[i])
  {
    var i := 0;
    while i < |bytes|
      invariant 0 <= i <= |bytes|
      invariant forall j :: 0 <= j < i ==> buffer[at + j] == bytes[j]
      invariant forall j :: 0 <= j < buffer.Length && !(at <= j < at + i) ==> buffer[j] == old(buffer[j])
    {
      buffer[at + i] := bytes[i];
      i := i + 1;
    }
  }

  /** `htons` of a word, stored in the buffer, and `ntohs` of one read from it. */
  method PutWord(buffer: array<byte>, at: nat, x: u16)
    requires at + 2 <= buffer.Length
    modifies buffer
    ensures buffer[at..at + 2] == BigEndian(x)
    ensures forall i :: 0 <= i < buffer.Length && i != at && i != at + 1 ==> buffer[i] == old(buffer[i])
  {
    buffer[at] := x / 256;
    buffer[at + 1] := x % 256;
  }

  method AckDatagram(block: u16) returns (bytes: seq<byte>)
    ensures bytes == Encode(Ack(block))
  {
    var ackBuffer := new byte[4](_ => 0);
    PutWord(ackBuffer, 0, OP_ACK);
    PutWord(ackBuffer, 2, block);
    bytes := ackBuffer[..];
    assert bytes == ackBuffer[0..2] + ackBuffer[2..4];
  }

  method DataDatagram(block: u16, chunk: seq<byte>) returns (bytes: seq<byte>)
    requires |chunk| <= BLOCK_SIZE
    ensures bytes == Encode(Data(block, chunk))
  {
    var dataBuffer := new byte[BUFFER_SIZE](_ => 0);
    PutWord(dataBuffer, 0, OP_DATA);
    PutWord(dataBuffer, 2, block);
    Fill(dataBuffer, chunk, HEADER);
    bytes := dataBuffer[..HEADER + |chunk|];
    assert bytes == dataBuffer[0..2] + dataBuffer[2..4] + dataBuffer[HEADER..HEADER + |chunk|];
  }

  /** Lines 95-104 and 226-235: the request, built in the packet buffer. */
  method BuildRequest(buffer: array<byte>, opcode: u16, name: seq<byte>) returns (len: nat)
    requires |name| + 9 <= buffer.Length
    modifies buffer
    ensures len == |name| + 9 && buffer[..len] == Request(opcode, name)
  {
    PutWord(buffer, 0, opcode);
    Fill(buffer, name + [0], 2);
    var at := |name| + 3;
    Fill(buffer, Ascii("octet") + [0], at);
    len := at + 6;
    assert buffer[2..at] == name + [0];
    assert buffer[..len] == buffer[0..2] + buffer[2..at] + buffer[at..len];
    assert BigEndian(opcode) + (name + [0]) + (Ascii("octet") + [0]) == Request(opcode, name);
  }

  /** A datagram of `n` bytes sits at the front of the buffer. */
  lemma HeaderInBuffer(buffer: seq<byte>, bytes: seq<byte>)
    requires HEADER <= |bytes| <= |buffer| && buffer[..|bytes|] == bytes
    ensures Word(buffer, 0) == Word(bytes, 0) && Word(buffer, 2) == Word(bytes, 2)
    ensures buffer[HEADER..|bytes|] == bytes[HEADER..]
  {
    assert forall i :: 0 <= i < |bytes| ==> buffer[i] == buffer[..|bytes|][i];
  }

  /** `tftp_get` after its request is out. */
  class GetClient {
    const buffer: array<byte>
    var expectedBlock: u16
    var retries: nat
    var file: seq<seq<byte>>
    var verdict: Verdict

    ghost predicate Valid() {
      buffer.Length == BUFFER_SIZE
    }

    ghost function State(): Receiver
      reads this
    {
      Receiver(expectedBlock, retries, file, verdict)
    }

    /** Lines 71-104, up to the request for the remote file. */
    constructor (remoteFile: seq<byte>)
      requires |remoteFile| + 9 <= 516
      ensures Valid() && fresh(buffer) && State() == GET_START
      ensures buffer[..|remoteFile| + 9] == Request(1, remoteFile)
    {
      buffer := new byte[BUFFER_SIZE](_ => 0);
      expectedBlock, retries, file, verdict := 1, 0, [], Running;
      new;
      var len := BuildRequest(buffer, OP_RRQ, remoteFile);
    }

    /** One iteration of the loop at lines 110-189. */
    method Iterate(a: Arrival) returns (sent: Sent)
      requires Valid() && verdict == Running && Fits(a)
      modifies this, buffer
      ensures State() == GetStep(old(State()), EventOf(a)).0
      ensures Carries(sent, GetStep(old(State()), EventOf(a)).1)
    {
      sent := Nothing;
      match a {
        case TimedOut =>
          var left := retries < MAX_RETRIES;
          retries := retries + 1;
          if left {
            var ack := AckDatagram(Prev(expectedBlock));
            sent := Peer(ack);
          } else {
            verdict := MaxRetries;
          }
        case Broken =>
          verdict := Failed;
        case Datagram(bytes) =>
          Fill(buffer, bytes, 0);
          HeaderInBuffer(buffer[..], bytes);
          retries := 0;
          var opcode := Word(buffer[..], 0);
          if opcode == OP_ERROR {
            verdict := Failed;
          } else if opcode == OP_DATA {
            sent := HandleData(|bytes|);
          }
      }
    }

    /** Lines 155-188: the DATA of `n` bytes in the buffer. */
    method HandleData(n: nat) returns (sent: Sent)
      requires Valid() && verdict == Running && HEADER <= n <= BUFFER_SIZE
      modifies this
      ensures var step := GetData(old(State()), Word(buffer[..], 2), buffer[HEADER..n]);
              State() == step.0 && Carries(sent, step.1)
    {
      sent := Nothing;
      var blockNum := Word(buffer[..], 2);
      if blockNum == expectedBlock {
        file := file + [buffer[HEADER..n]];
        var ack := AckDatagram(blockNum);
        sent := Peer(ack);
        expectedBlock := Next(expectedBlock);
        if n - HEADER < BLOCK_SIZE {
          verdict := Complete;
        }
      } else if blockNum < expectedBlock {
        var ack := AckDatagram(blockNum);
        sent := Peer(ack);
      }
    }

    /**
     The whole loop on a history of arrivals, with what each made it send; it stops early when a
     verdict is reached.
     */
    method Receive(history: seq<Arrival>) returns (used: nat, sent: seq<Sent>)
      requires Valid() && State() == GET_START && forall a <- history :: Fits(a)
      modifies this, buffer
      ensures used <= |history|
      ensures var es := Events(history)[..used];
              && State() == GetRun(es) && GetTakes(es)
              && |sent| == used && (forall i :: 0 <= i < used ==> Carries(sent[i], GetAnswer(es, i)))
      ensures used < |history| ==> verdict != Running
    {
      used, sent := 0, [];
      ghost var es := Events(history);
      while used < |history| && verdict == Running
        invariant used <= |history|
        invariant State() == GetRun(es[..used])
        invariant GetTakes(es[..used])
        invariant |sent| == used
        invariant forall i :: 0 <= i < used ==> Carries(sent[i], GetAnswer(es, i))
      {
        var datagram := Iterate(history[used]);
        sent := sent + [datagram];
        used := used + 1;
        assert es[..used][..used - 1] == es[..used - 1];
      }
      forall i | 0 <= i < used
        ensures GetAnswer(es[..used], i) == GetAnswer(es, i)
      {
        assert es[..used][..i] == es[..i];
      }
    }
  }

  /** `tftp_put` after its request is out, as written. */
  class PutClient {
    const source: seq<byte>
    const buffer: array<byte>
    const requestLen: nat
    var blockNum: u16
    var retries: nat
    var pos: nat
    var final: bool
    var verdict: Verdict
    ghost var fetched: nat

    ghost predicate Valid()
      reads this
    {
      && buffer.Length == BUFFER_SIZE && requestLen <= BUFFER_SIZE
      && pos == Min(fetched * BLOCK_SIZE, |source|)
    }

    ghost function State(): Sender
      reads this
    {
      Sender(blockNum, retries, fetched, final, verdict)
    }

    /** Lines 204-235, up to the request to write the remote file. */
    constructor (source: seq<byte>, remoteFile: seq<byte>)
      requires |remoteFile| + 9 <= 516
      ensures Valid() && fresh(buffer) && this.source == source && State() == PUT_START
      ensures requestLen == |remoteFile| + 9 && buffer[..requestLen] == Request(2, remoteFile)
    {
      this.source, requestLen := source, |remoteFile| + 9;
      buffer := new byte[BUFFER_SIZE](_ => 0);
      blockNum, retries, pos, final, verdict, fetched := 0, 0, 0, false, Running, 0;
      new;
      var len := BuildRequest(buffer, OP_WRQ, remoteFile);
    }

    /**
     One receive and what follows it: an iteration of the loop at lines 241-326 or, once `final` is
     set, the single receive at lines 310-322.
     */
    method Iterate(a: Arrival) returns (sent: Sent)
      requires Valid() && verdict == Running && Fits(a)
      modifies this, buffer
      ensures Valid()
      ensures State() == PutStep(AsWritten, source, old(State()), EventOf(a)).0
      ensures Carries(sent, PutStep(AsWritten, source, old(State()), EventOf(a)).1)
      ensures a.TimedOut? ==> buffer[..] == old(buffer[..])
      ensures sent.ToPort69? ==> sent.bytes == old(buffer[..requestLen])
    {
      sent := Nothing;
      match a {
        case TimedOut =>
          if final {
            verdict := GaveUp;
            return;
          }
          var left := retries < MAX_RETRIES;
          retries := retries + 1;
          if !left {
            verdict := MaxRetries;
          } else if blockNum == 0 {
            sent := ToPort69(buffer[..requestLen]);
          }
        case Broken =>
          verdict := if final then GaveUp else Failed;
        case Datagram(bytes) =>
          Fill(buffer, bytes, 0);
          HeaderInBuffer(buffer[..], bytes);
          var opcode, ackBlock := Word(buffer[..], 0), Word(buffer[..], 2);
          if final {
            verdict := if opcode == OP_ACK && ackBlock == blockNum then Complete else GaveUp;
            return;
          }
          retries := 0;
          if opcode == OP_ERROR {
            verdict := Failed;
          } else if opcode == OP_ACK && ackBlock == blockNum {
            sent := SendNext();
          }
      }
    }

    /** Lines 289-307: read the next block, send it, and keep a copy in the receive buffer. */
    method SendNext() returns (sent: Sent)
      requires Valid() && verdict == Running && !final
      modifies this, buffer
      ensures Valid()
      ensures State() == PutNext(AsWritten, source, old(State())).0
      ensures Carries(sent, PutNext(AsWritten, source, old(State())).1) && !sent.ToPort69?
      ensures sent.Peer? ==> |sent.bytes| <= BUFFER_SIZE && buffer[..|sent.bytes|] == sent.bytes
      ensures forall i :: (if sent.Peer? then |sent.bytes| else 0) <= i < BUFFER_SIZE ==>
                buffer[i] == old(buffer[i])
    {
      sent := Nothing;
      blockNum := Next(blockNum);
      var end := if pos + BLOCK_SIZE < |source| then pos + BLOCK_SIZE else |source|;
      var chunk := source[pos..end];
      assert (fetched + 1) * BLOCK_SIZE == fetched * BLOCK_SIZE + BLOCK_SIZE;
      assert chunk == Block(source, fetched + 1);
      pos, fetched := end, fetched + 1;
      if |chunk| > 0 {
        var bytes := DataDatagram(blockNum, chunk);
        sent := Peer(bytes);
        Fill(buffer, bytes, 0);
      }
      if |chunk| < BLOCK_SIZE {
        final := true;
      }
    }

    /**
     The whole transfer on a history of arrivals, with what each made it send: the main loop, and
     after the last block the single receive that ends it. Until a packet arrives, what a timeout sends
     again is the request as it was built.
     */
    method Send(history: seq<Arrival>) returns (used: nat, sent: seq<Sent>)
      requires Valid() && State() == PUT_START && forall a <- history :: Fits(a)
      modifies this, buffer
      ensures Valid() && used <= |history|
      ensures var es := Events(history)[..used];
              && State() == PutRun(AsWritten, source, es) && PutConsumes(AsWritten, source, es)
              && |sent| == used
              && (forall i :: 0 <= i < used ==> Carries(sent[i], PutAnswer(AsWritten, source, es, i)))
      ensures used < |history| ==> verdict != Running
      ensures var es := Events(history)[..used];
              forall i :: 0 <= i < used && es[i].Timeout? && Packets(es[..i + 1]) == 0 ==>
                sent[i] == if Timeouts(es[..i + 1]) <= 5 then ToPort69(old(buffer[..requestLen])) else Nothing
    {
      used, sent := 0, [];
      ghost var es := Events(history);
      ghost var request := buffer[..requestLen];
      while used < |history| && verdict == Running
        invariant used <= |history| && Valid()
        invariant State() == PutRun(AsWritten, source, es[..used])
        invariant PutConsumes(AsWritten, source, es[..used])
        invariant |sent| == used && forall i :: 0 <= i < used ==> Right(es, i, sent[i], request)
        invariant verdict == Running && Packets(es[..used]) == 0 ==> buffer[..requestLen] == request
      {
        var datagram := Iterate(history[used]);
        assert Right(es, used, datagram, request);
        PutRunSnoc(AsWritten, source, es[..used], es[used]);
        CountSnoc(es[..used], es[used]);
        assert es[..used + 1] == es[..used] + [es[used]];
        sent := sent + [datagram];
        used := used + 1;
      }
      AllRight(es, used, sent, request);
    }

    /** The datagram is the answer to event `i`; to port 69 goes, before any packet, the request. */
    ghost predicate Right(es: seq<Event>, i: nat, datagram: Sent, request: seq<byte>) {
      && i < |es| && Carries(datagram, PutAnswer(AsWritten, source, es, i))
      && (datagram.ToPort69? && Packets(es[..i]) == 0 ==> datagram.bytes == request)
    }

    lemma AllRight(es: seq<Event>, used: nat, sent: seq<Sent>, request: seq<byte>)
      requires used == |sent| <= |es| && PutConsumes(AsWritten, source, es[..used])
      requires forall i :: 0 <= i < used ==> Right(es, i, sent[i], request)
      ensures forall i :: 0 <= i < used ==> Carries(sent[i], PutAnswer(AsWritten, source, es[..used], i))
      ensures var consumed := es[..used];
              forall i :: 0 <= i < used && consumed[i].Timeout? && Packets(consumed[..i + 1]) == 0 ==>
                sent[i] == if Timeouts(consumed[..i + 1]) <= 5 then ToPort69(request) else Nothing
    {
      var consumed := es[..used];
      forall i | 0 <= i < used
        ensures Carries(sent[i], PutAnswer(AsWritten, source, consumed, i))
        ensures consumed[i].Timeout? && Packets(consumed[..i + 1]) == 0 ==>
                  sent[i] == if Timeouts(consumed[..i + 1]) <= 5 then ToPort69(request) else Nothing
      {
        assert Right(es, i, sent[i], request);
        assert consumed[..i] == es[..i];
        ConsumesBefore(AsWritten, source, consumed, i + 1);
        if consumed[i].Timeout? && Packets(consumed[..i + 1]) == 0 {
          assert consumed[..i + 1] == consumed[..i] + [consumed[i]];
          CountSnoc(consumed[..i], consumed[i]);
          RequestRepeated(AsWritten, source, consumed[..i + 1]);
        }
      }
    }
  }
}
