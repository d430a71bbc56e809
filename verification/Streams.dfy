/** A TCP connection as the reader sees it: a byte stream that arrives in segments of any sizes. */
module Streams {
  import opened Bytes

  class Connection {
    var pending: seq<seq<byte>>

    ghost predicate Valid()
      reads this
    {
      forall segment <- pending :: segment != []
    }

    /** The bytes still to be read before the peer's end of stream. */
    ghost function Rest(): seq<byte>
      reads this
    {
      Concat(pending)
    }

    constructor (segments: seq<seq<byte>>)
      requires forall segment <- segments :: segment != []
      ensures Valid() && pending == segments
    {
      pending := segments;
    }

    /** `recv`: up to `max` bytes, no further than the segment at hand; nothing at end of stream. */
    method Recv(max: nat) returns (bytes: seq<byte>)
      requires Valid() && max > 0
      modifies this
      ensures Valid()
      ensures old(Rest()) == bytes + Rest()
      ensures |bytes| <= max && (bytes == [] <==> old(Rest()) == [])
      ensures old(pending) != [] ==> |bytes| == if |old(pending)[0]| < max then |old(pending)[0]| else max
    {
      if pending == [] {
        return [];
      }
      var segment, later := pending[0], pending[1..];
      assert segment in pending && forall s <- later :: s in pending;
      if |segment| <= max {
        bytes, pending := segment, later;
      } else {
        bytes, pending := segment[..max], [segment[max..]] + later;
        assert pending[1..] == later;
        assert segment == segment[..max] + segment[max..];
        Assoc(segment[..max], segment[max..], Concat(later));
      }
    }
  }
}
