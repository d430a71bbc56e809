/** The TFTP packet layout: a big-endian opcode and word, then the payload (RFC 1350 section 5). */
module Wire {
  import opened Bytes

  const OP_RRQ: u16 := 1
  const OP_WRQ: u16 := 2
  const OP_DATA: u16 := 3
  const OP_ACK: u16 := 4
  const OP_ERROR: u16 := 5
  const HEADER := 4
  const BUFFER_SIZE := 516

  /** What the two loops tell apart in a datagram; `Other` is any other opcode. */
  datatype Packet =
    | Data(block: u16, payload: seq<byte>)
    | Ack(block: u16)
    | Error(code: u16, message: seq<byte>)
    | Other(opcode: u16)

  /** `htons` and `ntohs`. */
  function BigEndian(x: u16): seq<byte> {
    [x / 256, x % 256]
  }

  function Word(b: seq<byte>, at: nat): u16
    requires at + 2 <= |b|
  {
    var high: int := b[at];
    high * 256 + b[at + 1]
  }

  function Encode(p: Packet): seq<byte> {
    match p
    case Data(block, payload) => BigEndian(OP_DATA) + BigEndian(block) + payload
    case Ack(block) => BigEndian(OP_ACK) + BigEndian(block)
    case Error(code, message) => BigEndian(OP_ERROR) + BigEndian(code) + message
    case Other(opcode) => BigEndian(opcode) + BigEndian(0)
  }

  function Decode(b: seq<byte>): Packet
    requires HEADER <= |b|
  {
    var opcode := Word(b, 0);
    if opcode == OP_DATA then Data(Word(b, 2), b[HEADER..])
    else if opcode == OP_ACK then Ack(Word(b, 2))
    else if opcode == OP_ERROR then Error(Word(b, 2), b[HEADER..])
    else Other(opcode)
  }

  ghost predicate WellFormed(p: Packet) {
    p.Other? ==> p.opcode !in {OP_DATA, OP_ACK, OP_ERROR}
  }

  /** What one end puts on the wire, the other end reads back. */
  lemma DecodeEncode(p: Packet)
    requires WellFormed(p)
    ensures HEADER <= |Encode(p)| && Decode(Encode(p)) == p
  {
    var b := Encode(p);
    match p
    case Data(block, payload) => assert Word(b, 2) == block && b[HEADER..] == payload;
    case Ack(block) => assert Word(b, 2) == block;
    case Error(code, message) => assert Word(b, 2) == code && b[HEADER..] == message;
    case Other(opcode) => assert Word(b, 0) == opcode;
  }

  /** A DATA datagram is its decoding, byte for byte; of an ACK only the first four bytes matter. */
  lemma EncodeDecode(b: seq<byte>)
    requires HEADER <= |b|
    ensures Decode(b).Data? || Decode(b).Error? ==> Encode(Decode(b)) == b
    ensures Decode(b).Ack? ==> Encode(Decode(b)) == b[..HEADER]
  {
    assert BigEndian(Word(b, 0)) == b[..2];
    assert BigEndian(Word(b, 2)) == b[2..4];
    assert b == b[..2] + b[2..4] + b[4..];
  }

  /** The bytes that a packet is on the wire. */
  lemma LayoutIs(block: u16, payload: seq<byte>)
    ensures Encode(Data(block, payload)) == [0, 3, block / 256, block % 256] + payload
    ensures Encode(Ack(block)) == [0, 4, block / 256, block % 256]
    ensures Encode(Error(block, payload)) == [0, 5, block / 256, block % 256] + payload
  {
    assert Encode(Data(block, payload))[..4] == [0, 3, block / 256, block % 256];
    assert Encode(Error(block, payload))[..4] == [0, 5, block / 256, block % 256];
  }

  /** What the loops make of any datagram, byte by byte. */
  lemma ReadsAs(b: seq<byte>)
    requires 4 <= |b|
    ensures var high: int := b[2];
            var x: u16 := 256 * high + b[3];
            && (b[..2] == [0, 3] ==> Decode(b) == Data(x, b[4..]))
            && (b[..2] == [0, 4] ==> Decode(b) == Ack(x))
            && (b[..2] == [0, 5] ==> Decode(b) == Error(x, b[4..]))
            && (b[..2] !in {[0, 3], [0, 4], [0, 5]} ==> Decode(b).Other?)
  {
    assert b[..2] == [b[0], b[1]];
  }

  /** A read or write request for a file, in binary mode. */
  function Request(opcode: u16, name: seq<byte>): seq<byte> {
    BigEndian(opcode) + name + [0] + Ascii("octet") + [0]
  }

  /** The server reads the file name and the mode back as the two C strings after the opcode. */
  lemma RequestReads(opcode: u16, name: seq<byte>)
    requires 0 !in name
    ensures var b := Request(opcode, name);
            && |b| == |name| + 9 && b[..2] == [opcode / 256, opcode % 256]
            && UpToNul(b[2..]) == name
            && UpToNul(b[|name| + 3..]) == [111, 99, 116, 101, 116]
  {
    var b, mode := Request(opcode, name), Ascii("octet");
    assert b[2..][..|name|] == name && b[2..][|name|] == 0;
    UpToNulIs(b[2..], |name|);
    assert b[|name| + 3..] == mode + [0];
    assert mode == [111, 99, 116, 101, 116];
    UpToNulIs(mode + [0], 5);
    assert (mode + [0])[..5] == mode;
  }
}
