/** The HTTP server's byte-at-a-time header scanner, its upload loop and its sending loop. */
module Upload {
  import opened Bytes
  import opened Streams

  const END: seq<byte> := [13, 10, 13, 10]
  const DATA_SIZE := 1024

  predicate Contains(text: seq<byte>, needle: seq<byte>) {
    exists i | 0 <= i <= |text| - |needle| :: FoundAt(text, needle, i)
  }

  predicate FoundAt(text: seq<byte>, needle: seq<byte>, i: nat) {
    i + |needle| <= |text| && text[i..i + |needle|] == needle
  }

  /** `strstr(body, "\r\n\r\n")` sees the C string only. */
  predicate HasEnd(body: seq<byte>) {
    Contains(UpToNul(body), END)
  }

  /** `body` is a header: it has its end, and no shorter part of it does. */
  ghost predicate Shortest(body: seq<byte>) {
    HasEnd(body) && forall k :: 0 <= k < |body| ==> !HasEnd(body[..k])
  }

  /** Lines 166-177, and 268-280 for a part: read one byte at a time until the end is there. */
  method ReadHeader(connection: Connection) returns (body: seq<byte>)
    requires connection.Valid()
    modifies connection
    ensures connection.Valid()
    ensures old(connection.Rest()) == body + connection.Rest()
    ensures Shortest(body) ||
            (connection.Rest() == [] && forall k :: 0 <= k <= |body| ==> !HasEnd(body[..k]))
  {
    body := [];
    while !HasEnd(body)
      invariant connection.Valid()
      invariant old(connection.Rest()) == body + connection.Rest()
      invariant forall k :: 0 <= k < |body| ==> !HasEnd(body[..k])
      decreases |connection.Rest()|
    {
      var byte := connection.Recv(1);
      assert body[..|body|] == body;
      if byte == [] {
        return;
      }
      Assoc(body, byte, connection.Rest());
      ghost var before := body;
      body := body + byte;
      assert forall k :: 0 <= k < |body| ==> body[..k] == before[..k];
    }
  }

  lemma FoundInPrefix(text: seq<byte>, needle: seq<byte>, i: nat, n: nat)
    requires FoundAt(text, needle, i) && i + |needle| <= n <= |text|
    ensures Contains(text[..n], needle)
  {
    assert text[..n][i..i + |needle|] == text[i..i + |needle|];
    assert FoundAt(text[..n], needle, i);
  }

  /** A header without NUL ends with the CR LF CR LF that it was read up to. */
  lemma HeaderEndsWithEnd(body: seq<byte>)
    requires Shortest(body) && 0 !in body
    ensures 4 <= |body| && body[|body| - 4..] == [13, 10, 13, 10]
  {
    UpToNulIs(body, |body|);
    assert body[..|body|] == body;
    var i :| 0 <= i <= |body| - |END| && FoundAt(body, END, i);
    var n := i + |END|;
    FoundInPrefix(body, END, i, n);
    UpToNulIs(body[..n], n);
    assert body[..n][..n] == body[..n];
    assert HasEnd(body[..n]);
  }

  /**
   The scanner stops at the shortest prefix that contains CR LF CR LF if and only if that prefix has
   no NUL: `strstr` does not see past one.
   */
  lemma ScanIff(body: seq<byte>)
    requires Contains(body, [13, 10, 13, 10])
    requires forall k :: 0 <= k < |body| ==> !Contains(body[..k], [13, 10, 13, 10])
    ensures Shortest(body) <==> 0 !in body
  {
    var s := UpToNul(body);
    if 0 in body {
      assert s != body;
      assert s == body[..|s|];
    } else {
      UpToNulIs(body, |body|);
      assert body[..|body|] == body;
      forall k | 0 <= k < |body|
        ensures !HasEnd(body[..k])
      {
        UpToNulIs(body[..k], k);
        assert body[..k][..k] == body[..k];
      }
    }
  }

  /**
   Lines 306-325, after a part header of `partLen` bytes: at each turn what was read is the header
   plus what was written. The loop stops in the `recv` that reaches the content length.
   */
  method Store(connection: Connection, partLen: nat, contentLength: int)
    returns (file: seq<byte>, contentRead: nat, totalWritten: nat)
    requires connection.Valid()
    modifies connection
    ensures connection.Valid()
    ensures contentRead == partLen + totalWritten && totalWritten == |file|
    ensures old(connection.Rest()) == file + connection.Rest()
    ensures partLen >= contentLength ==> file == []
    ensures partLen < contentLength ==> partLen + |file| < contentLength + DATA_SIZE
    ensures partLen + |file| < contentLength ==> connection.Rest() == []
  {
    contentRead, totalWritten := partLen, 0;
    file := [];
    while contentRead < contentLength
      invariant connection.Valid()
      invariant contentRead == partLen + totalWritten && totalWritten == |file|
      invariant old(connection.Rest()) == file + connection.Rest()
      invariant partLen >= contentLength ==> file == []
      invariant partLen < contentLength ==> contentRead < contentLength + DATA_SIZE
      decreases contentLength - contentRead
    {
      var data := connection.Recv(DATA_SIZE);
      if data == [] {
        break;
      }
      Assoc(file, data, connection.Rest());
      file := file + data;
      totalWritten, contentRead := totalWritten + |data|, contentRead + |data|;
    }
  }

  /**
   A whole POST body: the part header, then the file. What is stored follows the header without a
   gap. It ends where the stream does, if that is by the content length, the closing boundary
   included; on a longer stream it passes the content length by less than one buffer.
   */
  method Post(connection: Connection, contentLength: int) returns (part: seq<byte>, file: seq<byte>)
    requires connection.Valid()
    modifies connection
    ensures connection.Valid()
    ensures old(connection.Rest()) == part + file + connection.Rest()
    ensures !HasEnd(part) ==> part == old(connection.Rest())
    ensures HasEnd(part) ==> Shortest(part)
    ensures HasEnd(part) && |part| >= contentLength ==> file == []
    ensures HasEnd(part) && |part| < contentLength ==> |part + file| < contentLength + 1024
    ensures HasEnd(part) && |part + file| < contentLength ==> part + file == old(connection.Rest())
    ensures HasEnd(part) && |old(connection.Rest())| == contentLength ==>
              file == old(connection.Rest())[|part|..contentLength]
  {
    ghost var body := connection.Rest();
    part := ReadHeader(connection);
    file := [];
    assert part[..|part|] == part;
    if HasEnd(part) {
      ghost var rest := connection.Rest();
      var contentRead, totalWritten;
      file, contentRead, totalWritten := Store(connection, |part|, contentLength);
      Assoc(part, file, connection.Rest());
      assert |body| <= contentLength ==> connection.Rest() == [];
      assert connection.Rest() == [] ==> part + file == body;
      assert body[|part|..] == rest;
    } else {
      assert part + file + connection.Rest() == part;
    }
  }

  lemma HeadersAgree(a: seq<byte>, b: seq<byte>, stream: seq<byte>)
    requires Shortest(a) && Shortest(b) && a <= stream && b <= stream
    ensures a == b
  {
    assert |a| <= |b| ==> b[..|a|] == a;
    assert |b| <= |a| ==> a[..|b|] == b;
  }

  const DASHES: seq<byte> := [45, 45]
  const LINE: seq<byte> := [13, 10]

  /** The line that closes a multipart body. */
  function Closing(boundary: seq<byte>): seq<byte> {
    LINE + DASHES + boundary + DASHES + LINE
  }

  /** A part header, the client's data and the closing boundary. */
  function Form(header: seq<byte>, data: seq<byte>, boundary: seq<byte>): seq<byte> {
    header + (data + Closing(boundary))
  }

  lemma EndKept(header: seq<byte>, after: seq<byte>)
    requires HasEnd(header)
    ensures HasEnd(header + after)
  {
    var s, all := UpToNul(header), UpToNul(header + after);
    var i :| 0 <= i <= |s| - |END| && FoundAt(s, END, i);
    assert |s| <= |all| by {
      UpToNulPrefix(header, after);
    }
    UpToNulPrefix(header, after);
    assert all[i..i + |END|] == s[i..i + |END|];
    assert FoundAt(all, END, i);
  }

  lemma {:induction false} UpToNulPrefix(a: seq<byte>, b: seq<byte>)
    ensures UpToNul(a) <= UpToNul(a + b)
  {
    if a != [] && a[0] != 0 {
      UpToNulPrefix(a[1..], b);
      assert (a + b)[1..] == a[1..] + b;
    }
  }

  /** In a form, what `Post` takes for the part header is the form's own. */
  lemma FormSplit(header: seq<byte>, data: seq<byte>, boundary: seq<byte>, part: seq<byte>)
    requires Shortest(header) && part <= Form(header, data, boundary)
    requires Shortest(part) || (!HasEnd(part) && part == Form(header, data, boundary))
    ensures part == header
    ensures Form(header, data, boundary)[|part|..] == data + Closing(boundary)
  {
    EndKept(header, data + Closing(boundary));
    HeadersAgree(header, part, Form(header, data, boundary));
  }

  /**
   An upload of any data, by a client whose form ends at its content length: the part header is found
   whole, and what is stored is the data and the closing boundary after it. So no upload of a form,
   whatever its header, data and boundary, stores the data as sent.
   */
  method PostForm(connection: Connection, contentLength: int,
                  ghost header: seq<byte>, ghost data: seq<byte>, ghost boundary: seq<byte>)
    returns (part: seq<byte>, file: seq<byte>)
    requires connection.Valid() && Shortest(header)
    requires connection.Rest() == Form(header, data, boundary) && contentLength == |connection.Rest()|
    modifies connection
    ensures connection.Valid() && connection.Rest() == []
    ensures part == header
    ensures file == data + [13, 10, 45, 45] + boundary + [45, 45, 13, 10] && file != data
  {
    ghost var body := connection.Rest();
    part, file := Post(connection, contentLength);
    assert part <= body by {
      Assoc(part, file, connection.Rest());
    }
    FormSplit(header, data, boundary, part);
    assert body[|part|..contentLength] == data + Closing(boundary);
    assert file == data + [13, 10, 45, 45] + boundary + [45, 45, 13, 10];
  }

  function Sum(amounts: seq<int>): int {
    if amounts == [] then 0 else Sum(amounts[..|amounts| - 1]) + amounts[|amounts| - 1]
  }

  /**
   `Send`: repeat `send` from where the last one stopped, until all is sent or one fails. `amounts`
   says how much the kernel is ready to take at each call. Every call before the last one succeeds and
   leaves something to send, and what is sent is what the calls took together, from the front.
   */
  method SendAll(data: seq<byte>, amounts: seq<int>) returns (wire: seq<byte>, calls: nat)
    ensures calls <= |amounts| && forall i :: 0 <= i < calls ==> amounts[i] > 0
    ensures wire <= data && |wire| == if Sum(amounts[..calls]) < |data| then Sum(amounts[..calls]) else |data|
    ensures calls > 0 ==> Sum(amounts[..calls - 1]) < |data|
    ensures wire == data || calls == |amounts| || amounts[calls] <= 0
  {
    wire, calls := [], 0;
    var sent := 0;
    while sent < |data| && calls < |amounts|
      invariant calls <= |amounts| && forall i :: 0 <= i < calls ==> amounts[i] > 0
      invariant 0 <= sent <= |data| && wire == data[..sent]
      invariant sent == if Sum(amounts[..calls]) < |data| then Sum(amounts[..calls]) else |data|
      invariant calls > 0 ==> Sum(amounts[..calls - 1]) < |data|
    {
      var tmp := if amounts[calls] < |data| - sent then amounts[calls] else |data| - sent;
      if tmp <= 0 {
        break;
      }
      assert amounts[..calls + 1][..calls] == amounts[..calls];
      wire := wire + data[sent..sent + tmp];
      sent, calls := sent + tmp, calls + 1;
    }
  }
}
