/** `url_encode` and `url_decode`, the loops over C strings, against `Percent`. */
module PercentCodec {
  import opened Bytes
  import opened Percent

  const HEX: seq<byte> := [48, 49, 50, 51, 52, 53, 54, 55, 56, 57, 65, 66, 67, 68, 69, 70]

  lemma StopsStep(s: seq<byte>, limit: nat, k: nat)
    requires k < |s| && |Encode(s[..k])| < limit
    requires forall j :: 0 <= j < k ==> |Encode(s[..j])| < limit
    ensures Encode(s[..k + 1]) == Encode(s[..k]) + EncodeByte(s[k])
    ensures forall j :: 0 <= j < k + 1 ==> |Encode(s[..j])| < limit
  {
    assert s[..k + 1] == s[..k] + [s[k]];
    EncodeSnoc(s[..k], s[k]);
  }

  /** Lines 35-43: one character, bare or as an escape. */
  method PutEncoded(dst: array<byte>, pos: nat, b: byte) returns (next: nat)
    requires pos + 3 <= dst.Length
    modifies dst
    ensures next == pos + |EncodeByte(b)|
    ensures dst[..next] == old(dst[..pos]) + EncodeByte(b)
    ensures forall i :: next <= i < dst.Length ==> dst[i] == old(dst[i])
  {
    if Plain(b) {
      dst[pos] := b;
      next := pos + 1;
    } else {
      dst[pos], dst[pos + 1], dst[pos + 2] := PERCENT, HEX[b / 16], HEX[b % 16];
      next := pos + 3;
    }
  }

  /**
   `url_encode`. The source is a NUL-terminated buffer; `dst_size - 4` is unsigned, so a smaller
   size would wrap. `kept` says how much of the source was encoded.
   */
  method UrlEncode(src: array<byte>, dst: array<byte>, dstSize: nat) returns (ghost kept: nat)
    requires src != dst && 0 in src[..] && 4 <= dstSize <= dst.Length
    modifies dst
    ensures var s := UpToNul(src[..]);
            && StopsAt(s, dstSize - 4, kept)
            && (var e := Encode(s[..kept]);
                && |e| <= dstSize - 2
                && dst[..|e|] == e && dst[|e|] == 0
                && (forall i :: |e| < i < dst.Length ==> dst[i] == old(dst[i]))
                && e == WrittenAll(s[..kept])
                && (kept == |s| ==> (dst[..|e|] == s <==> forall b <- s :: Bare(b))))
  {
    ghost var s := UpToNul(src[..]);
    var pos, r := 0, 0;
    while src[r] != 0 && pos < dstSize - 4
      invariant r <= |s| < src.Length
      invariant pos == |Encode(s[..r])| <= dstSize - 2
      invariant forall j :: 0 <= j < r ==> |Encode(s[..j])| < dstSize - 4
      invariant dst[..pos] == Encode(s[..r])
      invariant forall i :: pos <= i < dst.Length ==> dst[i] == old(dst[i])
      decreases src.Length - r
    {
      StopsStep(s, dstSize - 4, r);
      pos := PutEncoded(dst, pos, src[r]);
      r := r + 1;
    }
    dst[pos] := 0;
    kept := r;
    EncodeIs(s[..kept]);
    if kept == |s| {
      assert s[..kept] == s;
      EncodeFixedIff(s);
    }
  }

  /** Lines 121-126: lower case is folded to upper, and letters start at 10. */
  function Nibble(c: byte): (n: nat)
    requires IsHex(c)
    ensures n == HexValue(c)
  {
    var upper := if c >= 'a' as int then c - 32 else c;
    if upper >= 'A' as int then upper - ('A' as int - 10) else upper - '0' as int
  }

  /** Lines 119-138: the byte that the input at `r` stands for, and how much input it takes. */
  method Take(src: array<byte>, r: nat, ghost x: seq<byte>) returns (b: byte, n: nat)
    requires r < |x| && Unread(src, r, x)
    ensures 1 <= n <= |x| - r
    ensures Decode(x[r..]) == [b] + Decode(x[r + n..])
  {
    if src[r] == PERCENT && src[r + 1] != 0 && src[r + 2] != 0 && IsHex(src[r + 1]) && IsHex(src[r + 2]) {
      assert x[r..][3..] == x[r + 3..];
      b, n := 16 * Nibble(src[r + 1]) + Nibble(src[r + 2]), 3;
    } else {
      assert x[r..][1..] == x[r + 1..];
      b, n := if src[r] == PLUS then SPACE else src[r], 1;
    }
  }

  lemma Advance(x: seq<byte>, r: nat, n: nat, b: byte, done: seq<byte>)
    requires r + n <= |x| && Decode(x) == done + Decode(x[r..])
    requires Decode(x[r..]) == [b] + Decode(x[r + n..])
    ensures Decode(x) == (done + [b]) + Decode(x[r + n..])
  {
    Assoc(done, [b], Decode(x[r + n..]));
  }

  /**
   `url_decode`, which may be given the same buffer twice: the write index never passes the read
   index, so what is still to be read is untouched.
   */
  method UrlDecode(dst: array<byte>, src: array<byte>)
    requires 0 in src[..] && |UpToNul(src[..])| < dst.Length
    modifies dst
    ensures var d := Decode(UpToNul(old(src[..])));
            && |d| < dst.Length && dst[..|d|] == d && dst[|d|] == 0
            && (forall i :: |d| < i < dst.Length ==> dst[i] == old(dst[i]))
  {
    ghost var x := UpToNul(src[..]);
    var w, r := 0, 0;
    while src[r] != 0
      invariant w <= r <= |x| && Unread(src, r, x)
      invariant Decode(x) == dst[..w] + Decode(x[r..])
      invariant forall i :: w <= i < dst.Length ==> dst[i] == old(dst[i])
      decreases |x| - r
    {
      w, r := Turn(dst, src, w, r, x);
    }
    assert x[r..] == [];
    dst[w] := 0;
  }

  /** From `r` on the buffer still holds what is left of the string `x`. */
  ghost predicate Unread(src: array<byte>, r: nat, x: seq<byte>)
    reads src
  {
    && |x| < src.Length && 0 !in x && src[|x|] == 0
    && forall i :: r <= i < |x| ==> src[i] == x[i]
  }

  /** One turn of the loop at lines 117-139. */
  method Turn(dst: array<byte>, src: array<byte>, w: nat, r: nat, ghost x: seq<byte>) returns (w': nat, r': nat)
    requires w <= r < |x| < dst.Length && Unread(src, r, x)
    requires Decode(x) == dst[..w] + Decode(x[r..])
    modifies dst
    ensures w' == w + 1 && r < r' <= |x| && Unread(src, r', x)
    ensures Decode(x) == dst[..w'] + Decode(x[r'..])
    ensures forall i :: w' <= i < dst.Length ==> dst[i] == old(dst[i])
  {
    var b, n := Take(src, r, x);
    Advance(x, r, n, b, dst[..w]);
    dst[w] := b;
    w', r' := w + 1, r + n;
    assert dst[..w'] == old(dst[..w]) + [b];
  }

  /** A buffer that holds `d`, NUL-free, and then a NUL holds `d` as its C string. */
  lemma HoldsString(buffer: seq<byte>, d: seq<byte>)
    requires |d| < |buffer| && buffer[..|d|] == d && buffer[|d|] == 0 && 0 !in d
    ensures 0 in buffer && UpToNul(buffer) == d
  {
    UpToNulIs(buffer, |d|);
  }

  /**
   The two loops one after the other, on buffers: the result always is a beginning of the source, and
   it is the source if and only if all of it but the last character encodes within the limit of the
   buffer between them. Three bytes a character and two to spare are always enough.
   */
  method EncodeThenDecode(src: array<byte>, mid: array<byte>, dst: array<byte>)
    requires src != mid && 0 in src[..] && 4 <= mid.Length <= dst.Length
    modifies mid, dst
    ensures var s, result := UpToNul(old(src[..])), UpToNul(dst[..]);
            && result <= s
            && (result == s <==> s == [] || |Encode(s[..|s| - 1])| < mid.Length - 4)
            && (3 * |s| + 2 <= mid.Length ==> result == s)
  {
    ghost var s := UpToNul(src[..]);
    ghost var k := UrlEncode(src, mid, mid.Length);
    KeptOf(s, mid.Length, k);
    HoldsString(mid[..], Encode(s[..k]));
    UrlDecode(dst, mid);
    HoldsString(dst[..], s[..k]);
  }

  /** What the encoder keeps of a string, and what its encoding is good for. */
  lemma KeptOf(s: seq<byte>, size: nat, k: nat)
    requires 4 <= size && StopsAt(s, size - 4, k) && 0 !in s
    ensures 0 !in s[..k] && 0 !in Encode(s[..k]) && Decode(Encode(s[..k])) == s[..k]
    ensures |Encode(s[..k])| <= size - 2 && k <= |Encode(s[..k])|
    ensures s[..k] == s <==> s == [] || |Encode(s[..|s| - 1])| < size - 4
    ensures 3 * |s| + 2 <= size ==> s[..k] == s
  {
    Truncation(s, size, k);
    EncodeHasNoNul(s[..k]);
    EncodeLength(s[..k]);
    assert k == |s| ==> s[..k] == s;
    if s != [] {
      EncodeLength(s[..|s| - 1]);
    }
  }
}
