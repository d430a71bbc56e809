/** The two clients against a peer that answers as the protocol has it, on the bytes of the datagrams. */
module Transfers {
  import opened Bytes
  import opened Blocks
  import opened Wire
  import opened Endpoints
  import opened Retries
  import opened Clients

  /** Block `k` of a file as a datagram. */
  function DataBytes(f: seq<byte>, k: nat): seq<byte>
    requires 1 <= k
  {
    [0, 3, k / 256 % 256, k % 256] + f[Min(512 * (k - 1), |f|)..Min(512 * k, |f|)]
  }

  function AckBytes(k: nat): seq<byte> {
    [0, 4, k / 256 % 256, k % 256]
  }

  lemma WrappedBytes(k: nat)
    ensures k % 0x1_0000 / 256 == k / 256 % 256 && k % 0x1_0000 % 256 == k % 256
  {
    assert k == k / 0x1_0000 * 0x1_0000 + k % 0x1_0000;
    assert k / 256 == k / 0x1_0000 * 256 + k % 0x1_0000 / 256;
  }

  lemma DataBytesIs(f: seq<byte>, k: nat)
    requires 1 <= k
    ensures DataBytes(f, k) == Encode(Data(k % 0x1_0000, Block(f, k)))
    ensures Fits(Datagram(DataBytes(f, k)))
    ensures EventOf(Datagram(DataBytes(f, k))) == Received(Data(k % 0x1_0000, Block(f, k)))
  {
    LayoutIs(k % 0x1_0000, Block(f, k));
    WrappedBytes(k);
    ArrivesAsSent(Data(k % 0x1_0000, Block(f, k)));
  }

  lemma AckBytesIs(k: nat)
    ensures AckBytes(k) == Encode(Ack(k % 0x1_0000))
    ensures Fits(Datagram(AckBytes(k))) && EventOf(Datagram(AckBytes(k))) == Received(Ack(k % 0x1_0000))
  {
    LayoutIs(k % 0x1_0000, []);
    WrappedBytes(k);
    ArrivesAsSent(Ack(k % 0x1_0000));
  }

  /** The datagrams of a whole file, one after the other. */
  ghost predicate WholeFile(f: seq<byte>, history: seq<Arrival>) {
    |history| == Count(f) && forall i :: 0 <= i < |history| ==> history[i] == Datagram(DataBytes(f, i + 1))
  }

  /** The receiver that has the first `k` blocks. */
  function Has(f: seq<byte>, k: nat): Receiver {
    Receiver((k + 1) % 0x1_0000, 0, Prefix(f, k), if k == Count(f) then Complete else Running)
  }

  lemma GetsBlock(f: seq<byte>, k: nat)
    requires 1 <= k <= Count(f)
    ensures GetStep(Has(f, k - 1), Received(Data(k % 0x1_0000, Block(f, k))))
         == (Has(f, k), ToPeer(Ack(k % 0x1_0000)))
  {
    OnlyLastShort(f, k);
    assert Prefix(f, k) == Prefix(f, k - 1) + [Block(f, k)];
    assert Next(k % 0x1_0000) == (k + 1) % 0x1_0000;
  }

  lemma {:induction false} GetWhole(f: seq<byte>, es: seq<Event>, k: nat)
    requires k <= |es| <= Count(f)
    requires forall i :: 0 <= i < |es| ==> es[i] == Received(Data((i + 1) % 0x1_0000, Block(f, i + 1)))
    ensures GetRun(es[..k]) == Has(f, k)
    ensures forall i :: 0 <= i < k ==> GetAnswer(es, i) == ToPeer(Ack((i + 1) % 0x1_0000))
  {
    if k > 0 {
      GetWhole(f, es, k - 1);
      GetRunSnoc(es[..k - 1], es[k - 1]);
      assert es[..k] == es[..k - 1] + [es[k - 1]];
      GetsBlock(f, k);
    }
  }

  /**
   A download of any file, of any length, from the datagrams of its blocks: the file arrives, each
   block is acknowledged by its own number, and the last one ends the transfer.
   */
  method DownloadWhole(name: seq<byte>, history: seq<Arrival>, ghost f: seq<byte>)
    returns (file: seq<byte>, sent: seq<Sent>, verdict: Verdict)
    requires |name| + 9 <= 516 && WholeFile(f, history)
    ensures file == f && verdict == Complete
    ensures |sent| == |history| && forall i :: 0 <= i < |sent| ==> sent[i] == Peer(AckBytes(i + 1))
  {
    forall i | 0 <= i < |history|
      ensures Fits(history[i]) && EventOf(history[i]) == Received(Data((i + 1) % 0x1_0000, Block(f, i + 1)))
    {
      DataBytesIs(f, i + 1);
    }
    var client := new GetClient(name);
    var used;
    used, sent := client.Receive(history);
    ghost var es := Events(history);
    GetWhole(f, es, used);
    assert used == |history|;
    assert es[..used] == es;
    forall i | 0 <= i < |sent|
      ensures sent[i] == Peer(AckBytes(i + 1))
    {
      AckBytesIs(i + 1);
    }
    ConcatAll(f);
    file, verdict := Concat(client.file), client.verdict;
  }

  /** The ACKs of a whole upload: of the request, number 0, and of each block. */
  ghost predicate WholeAcks(f: seq<byte>, history: seq<Arrival>) {
    |history| == Count(f) + 1 && forall i :: 0 <= i < |history| ==> history[i] == Datagram(AckBytes(i))
  }

  /** The sender after the ACKs 0 to `k - 1`: it has read `k` blocks, or is done. */
  function PutAfter(f: seq<byte>, k: nat): Sender {
    if k <= Count(f) then Sender(k % 0x1_0000, 0, k, k == Count(f), Running)
    else Sender(Count(f) % 0x1_0000, 0, Count(f), true, Complete)
  }

  function BlockSent(f: seq<byte>, k: nat): Output
    requires 1 <= k
  {
    if 512 * (k - 1) < |f| then ToPeer(Data(k % 0x1_0000, Block(f, k))) else Silent
  }

  function AckEvent(k: nat): Event {
    Received(Ack(k % 0x1_0000))
  }

  lemma PutsBlock(f: seq<byte>, k: nat)
    requires 1 <= k <= Count(f) + 1
    ensures PutStep(AsWritten, f, PutAfter(f, k - 1), AckEvent(k - 1)) == (PutAfter(f, k), BlockSent(f, k))
  {
    if k <= Count(f) {
      OnlyLastShort(f, k);
      assert Next((k - 1) % 0x1_0000) == k % 0x1_0000;
      assert Block(f, k) == [] <==> 512 * (k - 1) >= |f|;
    } else {
      assert 512 * Count(f) > |f|;
    }
  }

  lemma {:induction false} PutWhole(f: seq<byte>, es: seq<Event>, k: nat)
    requires k <= |es| <= Count(f) + 1 && forall i :: 0 <= i < |es| ==> es[i] == AckEvent(i)
    ensures PutRun(AsWritten, f, es[..k]) == PutAfter(f, k)
    ensures forall i :: 0 <= i < k ==> PutAnswer(AsWritten, f, es, i) == BlockSent(f, i + 1)
  {
    if k > 0 {
      PutWhole(f, es, k - 1);
      PutRunSnoc(AsWritten, f, es[..k - 1], es[k - 1]);
      assert es[..k] == es[..k - 1] + [es[k - 1]];
      PutsBlock(f, k);
    }
  }

  /**
   An upload of any file to a peer that acknowledges the request and every block: the datagrams sent
   are the file's blocks in order, each once, but for an empty last one; the last ACK completes it.
   */
  method UploadWhole(name: seq<byte>, f: seq<byte>, history: seq<Arrival>) returns (sent: seq<Sent>, verdict: Verdict)
    requires |name| + 9 <= 516 && WholeAcks(f, history)
    ensures verdict == Complete && |sent| == Count(f) + 1
    ensures forall i :: 0 <= i < |sent| ==>
              sent[i] == if 512 * i < |f| then Peer(DataBytes(f, i + 1)) else Nothing
  {
    forall i | 0 <= i < |history|
      ensures Fits(history[i]) && EventOf(history[i]) == AckEvent(i)
    {
      AckBytesIs(i);
    }
    var client := new PutClient(f, name);
    var used;
    used, sent := client.Send(history);
    ghost var es := Events(history);
    PutWhole(f, es, used);
    assert used == |history|;
    assert es[..used] == es;
    forall i | 0 <= i < |sent|
      ensures sent[i] == if 512 * i < |f| then Peer(DataBytes(f, i + 1)) else Nothing
    {
      DataBytesIs(f, i + 1);
    }
    verdict := client.verdict;
  }
}
