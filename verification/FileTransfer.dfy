/** The length-prefixed file transfer between two clients: 4 bytes of size, then the file. */
module FileTransfer {
  import opened Bytes
  import opened Streams

  const U32_LIMIT: int := 0x1_0000_0000
  const CHUNK := 4096

  type u32 = x: int | 0 <= x < 0x1_0000_0000

  /** `htonl` and `ntohl`. */
  function Header(size: u32): (h: seq<byte>)
    ensures |h| == 4
  {
    [size / 0x100_0000, size / 0x1_0000 % 256, size / 256 % 256, size % 256]
  }

  function SizeOf(h: seq<byte>): u32
    requires |h| == 4
  {
    var a: int, b: int, c: int := h[0], h[1], h[2];
    a * 0x100_0000 + b * 0x1_0000 + c * 256 + h[3]
  }

  lemma HeaderRoundTrip(size: u32)
    ensures SizeOf(Header(size)) == size
  {
    var top := size / 256;
    assert size / 0x1_0000 == top / 256;
    assert size / 0x100_0000 == top / 256 / 256;
    assert top == top / 256 * 256 + top % 256;
    assert top / 256 == top / 256 / 256 * 256 + top / 256 % 256;
  }

  /** The size that four bytes of a stream say, the most significant first. */
  ghost predicate Says(h: seq<byte>, size: int) {
    |h| == 4 && h[0] as int * 16777216 + h[1] as int * 65536 + h[2] as int * 256 + h[3] as int == size
  }

  lemma HeaderSays(size: u32)
    ensures Says(Header(size), size)
  {
    HeaderRoundTrip(size);
  }

  /**
   What the receiver makes of a byte stream whose first `recv` brings `k` bytes of the header: the
   rest of the size is what was in memory, since the result of that `recv` is not looked at.
   */
  function ReceivedAfter(stream: seq<byte>, k: nat, memory: seq<byte>): seq<byte>
    requires k <= 4 == |memory| && k <= |stream|
  {
    var size, payload := SizeOf(stream[..k] + memory[k..]), stream[k..];
    payload[..if size < |payload| then size else |payload|]
  }

  /** What it makes of a stream that delivers the header whole. */
  function Received(stream: seq<byte>): seq<byte>
    requires 4 <= |stream|
  {
    var size, payload := SizeOf(stream[..4]), stream[4..];
    payload[..if size < |payload| then size else |payload|]
  }

  /** `ftell` into a `uint32_t`, the header, then the file in blocks. */
  method SendFile(file: seq<byte>) returns (stream: seq<byte>)
    ensures stream == Header(|file| % U32_LIMIT) + file
    ensures Says(stream[..4], |file| % 0x1_0000_0000) && stream[4..] == file
  {
    var fileSize: u32 := |file| % U32_LIMIT;
    stream := Header(fileSize);
    var pos := 0;
    while pos < |file|
      invariant pos <= |file|
      invariant stream == Header(fileSize) + file[..pos]
    {
      var end := if pos + CHUNK < |file| then pos + CHUNK else |file|;
      Assoc(Header(fileSize), file[..pos], file[pos..end]);
      assert file[..end] == file[..pos] + file[pos..end];
      stream := stream + file[pos..end];
      pos := end;
    }
    assert file[..pos] == file;
    HeaderSays(fileSize);
    assert stream[..4] == Header(fileSize);
  }

  /** How much of the header the first `recv` brings. */
  function HeaderBytes(segments: seq<seq<byte>>): (k: nat)
    ensures k <= 4
  {
    if segments == [] then 0 else if |segments[0]| < 4 then |segments[0]| else 4
  }

  /**
   The receive loop, for any segmentation of the stream; `memory` is what `file_size` held before.
   It consumes the payload it writes and no more, and `received` never wraps nor passes the size.
   When the header arrives whole, memory does not matter.
   */
  method ReceiveFile(connection: Connection, memory: seq<byte>) returns (file: seq<byte>, received: u32)
    requires connection.Valid() && |memory| == 4
    modifies connection
    ensures connection.Valid()
    ensures var stream, k := old(connection.Rest()), HeaderBytes(old(connection.pending));
            && k <= |stream|
            && file == ReceivedAfter(stream, k, memory)
            && stream[k..] == file + connection.Rest()
            && (k == 4 ==> file == Received(stream))
            && (forall size :: k == 4 && Says(stream[..4], size) ==>
                  file == stream[4..4 + if size < |stream| - 4 then size else |stream| - 4])
    ensures received == |file|
  {
    ghost var stream := connection.Rest();
    var header := connection.Recv(4);
    ghost var k := |header|;
    assert stream[..k] == header && stream[k..] == connection.Rest();
    var fileSize := SizeOf(header + memory[|header|..]);
    assert k == 4 ==> header + memory[k..] == header;
    file, received := ReceivePayload(connection, fileSize);
  }

  /** Lines 178-185. */
  method ReceivePayload(connection: Connection, fileSize: u32) returns (file: seq<byte>, received: u32)
    requires connection.Valid()
    modifies connection
    ensures connection.Valid()
    ensures var payload := old(connection.Rest());
            && payload == file + connection.Rest()
            && file == payload[..if fileSize < |payload| then fileSize else |payload|]
    ensures received == |file| <= fileSize
  {
    ghost var payload := connection.Rest();
    file, received := [], 0;
    while received < fileSize
      invariant connection.Valid()
      invariant received == |file| <= fileSize
      invariant payload == file + connection.Rest()
      decreases fileSize - received
    {
      var want := if fileSize - received < CHUNK then fileSize - received else CHUNK;
      var bytes := connection.Recv(want);
      if bytes == [] {
        break;
      }
      Assoc(file, bytes, connection.Rest());
      file, received := file + bytes, received + |bytes|;
    }
    assert received < fileSize ==> connection.Rest() == [];
    assert payload[..|file|] == file;
  }

  /**
   However the stream is cut up, and whatever follows it, the receiver's file is the sender's if and
   only if the file is shorter than 2^32 bytes.
   */
  lemma {:induction false} TransferIff(file: seq<byte>, after: seq<byte>)
    ensures Received(Header(|file| % U32_LIMIT) + file + after) == file <==> |file| < U32_LIMIT
  {
    var size: u32 := |file| % U32_LIMIT;
    var stream := Header(size) + file + after;
    HeaderRoundTrip(size);
    assert stream[..4] == Header(size);
    assert stream[4..] == file + after;
    assert |Received(stream)| == size;
    if |file| < U32_LIMIT {
      assert (file + after)[..size] == file;
    }
  }

  /** A stream that ends early leaves exactly the part of the file that was delivered. */
  lemma EarlyEnd(file: seq<byte>, cut: nat)
    requires |file| < U32_LIMIT && 4 <= cut <= 4 + |file|
    ensures Received((Header(|file|) + file)[..cut]) == file[..cut - 4]
  {
    HeaderRoundTrip(|file|);
    var stream := (Header(|file|) + file)[..cut];
    assert stream[..4] == Header(|file|);
    assert stream[4..] == file[..cut - 4];
  }

  /** When a part of the header is missing, memory can be such that the receiver's file is wrong. */
  lemma MissingHeader(file: seq<byte>, k: nat) returns (memory: seq<byte>)
    requires k < 4
    ensures |memory| == 4
    ensures ReceivedAfter(Header(|file| % U32_LIMIT) + file, k, memory) != file
  {
    var size: u32 := |file| % U32_LIMIT;
    var other := Neighbour(size);
    memory := Header(other);
    SameTop(size, other);
    HeaderRoundTrip(other);
    var stream := Header(size) + file;
    assert stream[..k] == Header(size)[..k] == memory[..k];
    assert stream[..k] + memory[k..] == memory;
    assert |ReceivedAfter(stream, k, memory)| == (if other < |stream| - k then other else |stream| - k);
  }

  /** A size that differs in the last byte only. */
  lemma Neighbour(size: u32) returns (other: u32)
    ensures other / 256 == size / 256
    ensures other == size - 1 || other == size + 1
  {
    assert size == size / 256 * 256 + size % 256;
    other := if size % 256 == 0 then size + 1 else size - 1;
  }

  lemma SameTop(a: u32, b: u32)
    requires a / 256 == b / 256
    ensures Header(a)[..3] == Header(b)[..3]
  {
    var top := a / 256;
    assert a / 0x1_0000 == top / 256 && b / 0x1_0000 == top / 256;
    assert a / 0x100_0000 == top / 0x1_0000 && b / 0x100_0000 == top / 0x1_0000;
  }

  /**
   The receiver's file is the sender's whatever its memory held, if and only if the first `recv` brings
   the whole header and the file is shorter than 2^32 bytes.
   */
  lemma WholeHeaderIff(file: seq<byte>, k: nat)
    requires k <= 4
    ensures (forall memory: seq<byte> :: |memory| == 4 ==>
               ReceivedAfter(Header(|file| % U32_LIMIT) + file, k, memory) == file)
            <==> k == 4 && |file| < U32_LIMIT
  {
    var stream := Header(|file| % U32_LIMIT) + file;
    if k < 4 {
      var memory := MissingHeader(file, k);
    } else {
      TransferIff(file, []);
      assert stream + [] == stream;
      forall memory: seq<byte> | |memory| == 4
        ensures ReceivedAfter(stream, k, memory) == Received(stream)
      {
        assert stream[..k] + memory[k..] == stream[..4];
      }
      assert |Header(0)| == 4;
    }
  }
}
