/**
 Percent-encoding as `url_encode` writes it and `url_decode` reads it (RFC 3986 sections 2.1 and
 2.3; the `+` rule is from section 17.13.4 of HTML 4.01), on byte strings.
 */
module Percent {
  import opened Bytes

  const PERCENT: byte := 37
  const PLUS: byte := 43
  const SPACE: byte := 32

  predicate Between(lo: char, b: byte, hi: char) {
    lo as int <= b <= hi as int
  }

  /** The bytes left as they are. Bytes from 128 are negative as `char`, so never among them. */
  predicate Plain(b: byte) {
    || Between('A', b, 'Z') || Between('a', b, 'z') || Between('0', b, '9')
    || b in {'-' as int, '_' as int, '.' as int, '~' as int, '/' as int}
  }

  function HexDigit(n: nat): byte
    requires n < 16
  {
    if n < 10 then '0' as int + n else 'A' as int + n - 10
  }

  predicate IsHex(b: byte) {
    Between('0', b, '9') || Between('A', b, 'F') || Between('a', b, 'f')
  }

  predicate IsUpperHex(b: byte) {
    Between('0', b, '9') || Between('A', b, 'F')
  }

  function HexValue(b: byte): (n: nat)
    requires IsHex(b)
    ensures n < 16
  {
    if b >= 'a' as int then b - 'a' as int + 10
    else if b >= 'A' as int then b - 'A' as int + 10
    else b - '0' as int
  }

  function EncodeByte(b: byte): (e: seq<byte>)
    ensures 1 <= |e| <= 3
  {
    if Plain(b) then [b] else [PERCENT, HexDigit(b / 16), HexDigit(b % 16)]
  }

  function Encode(s: seq<byte>): seq<byte> {
    if s == [] then [] else EncodeByte(s[0]) + Encode(s[1..])
  }

  /** An escape stands at the front. */
  predicate Escape(x: seq<byte>) {
    |x| >= 3 && x[0] == PERCENT && IsHex(x[1]) && IsHex(x[2])
  }

  function Escaped(x: seq<byte>): byte
    requires Escape(x)
  {
    16 * HexValue(x[1]) + HexValue(x[2])
  }

  /** What is not an escape stands for itself, a malformed or cut escape included, but for `+`. */
  function Decode(x: seq<byte>): (d: seq<byte>)
    ensures |d| <= |x|
  {
    if x == [] then []
    else if Escape(x) then [Escaped(x)] + Decode(x[3..])
    else if x[0] == PLUS then [SPACE] + Decode(x[1..])
    else [x[0]] + Decode(x[1..])
  }

  /** The 66 characters that the encoder's condition lists, as bytes. */
  predicate Bare(b: byte) {
    65 <= b <= 90 || 97 <= b <= 122 || 48 <= b <= 57 || b == 45 || b == 95 || b == 46 || b == 126 || b == 47
  }

  const UPPER: seq<byte> := Ascii("0123456789ABCDEF")
  const LOWER: seq<byte> := Ascii("0123456789abcdef")

  /** One character of the encoder's output, character by character. */
  function Written(b: byte): seq<byte> {
    if Bare(b) then [b] else [37, UPPER[b / 16], UPPER[b % 16]]
  }

  function WrittenAll(s: seq<byte>): seq<byte> {
    if s == [] then [] else Written(s[0]) + WrittenAll(s[1..])
  }

  lemma EncodeByteIs(b: byte)
    ensures EncodeByte(b) == Written(b)
  {
  }

  /** What the encoder writes, for any string: its bare characters, and `%XX` for each other one. */
  lemma {:induction false} EncodeIs(s: seq<byte>)
    ensures Encode(s) == WrittenAll(s)
  {
    if s != [] {
      EncodeIs(s[1..]);
      EncodeByteIs(s[0]);
    }
  }

  /** The encoder leaves a string alone if and only if all its characters are bare. */
  lemma {:induction false} EncodeFixedIff(s: seq<byte>)
    ensures Encode(s) == s <==> forall b <- s :: Bare(b)
    ensures |Encode(s)| == |s| <==> forall b <- s :: Bare(b)
  {
    if s != [] {
      EncodeFixedIff(s[1..]);
      EncodeLength(s[1..]);
      assert s == [s[0]] + s[1..];
      if Bare(s[0]) {
        assert Encode(s) == [s[0]] + Encode(s[1..]);
        SameHead([s[0]], Encode(s[1..]), s[1..]);
        assert forall b <- s :: b == s[0] || b in s[1..];
      } else {
        assert s[0] in s;
      }
    }
  }

  lemma {:induction false} EncodeConcat(a: seq<byte>, b: seq<byte>)
    ensures Encode(a + b) == Encode(a) + Encode(b)
  {
    if a == [] {
      assert a + b == b;
    } else {
      EncodeConcat(a[1..], b);
      assert (a + b)[1..] == a[1..] + b;
      Assoc(EncodeByte(a[0]), Encode(a[1..]), Encode(b));
    }
  }

  lemma EncodeSnoc(a: seq<byte>, b: byte)
    ensures Encode(a + [b]) == Encode(a) + EncodeByte(b)
  {
    EncodeConcat(a, [b]);
    assert Encode([b]) == EncodeByte(b) + Encode([b][1..]);
  }

  lemma {:induction false} EncodeLength(s: seq<byte>)
    ensures |s| <= |Encode(s)| <= 3 * |s|
  {
    if s != [] {
      EncodeLength(s[1..]);
    }
  }

  lemma HexRoundTrip(b: byte)
    ensures IsUpperHex(HexDigit(b / 16)) && IsUpperHex(HexDigit(b % 16))
    ensures IsHex(HexDigit(b / 16)) && IsHex(HexDigit(b % 16))
    ensures 16 * HexValue(HexDigit(b / 16)) + HexValue(HexDigit(b % 16)) == b
  {
  }

  lemma DecodeEncodeByte(b: byte, rest: seq<byte>)
    ensures Decode(EncodeByte(b) + rest) == [b] + Decode(rest)
  {
    var x := EncodeByte(b) + rest;
    if Plain(b) {
      assert x[1..] == rest;
    } else {
      HexRoundTrip(b);
      assert x[3..] == rest;
    }
  }

  /** Decoding undoes encoding, for every byte string. */
  lemma {:induction false} RoundTrip(s: seq<byte>)
    ensures Decode(Encode(s)) == s
  {
    if s != [] {
      RoundTrip(s[1..]);
      DecodeEncodeByte(s[0], Encode(s[1..]));
    }
  }

  /** So no two byte strings are encoded alike. */
  lemma EncodeInjective(s: seq<byte>, t: seq<byte>)
    requires Encode(s) == Encode(t)
    ensures s == t
  {
    RoundTrip(s);
    RoundTrip(t);
  }

  /** The encodings, told by looking: bare plain bytes, and upper-case escapes of the others. */
  predicate Canonical(x: seq<byte>) {
    || x == []
    || (Plain(x[0]) && Canonical(x[1..]))
    || (Escape(x) && IsUpperHex(x[1]) && IsUpperHex(x[2]) && !Plain(Escaped(x)) && Canonical(x[3..]))
  }

  lemma UpperHexDigits(h: byte, l: byte)
    requires IsHex(h) && IsHex(l)
    ensures var b: byte := 16 * HexValue(h) + HexValue(l);
            (HexDigit(b / 16) == h && HexDigit(b % 16) == l) <==> IsUpperHex(h) && IsUpperHex(l)
  {
    var b: byte := 16 * HexValue(h) + HexValue(l);
    assert b / 16 == HexValue(h) && b % 16 == HexValue(l);
  }

  lemma CanonicalEscape(x: seq<byte>)
    requires Escape(x)
    ensures var b := Escaped(x);
            Plain(b) ==> EncodeByte(b)[0] != x[0]
    ensures var b := Escaped(x);
            !Plain(b) ==> (EncodeByte(b) == x[..3] <==> IsUpperHex(x[1]) && IsUpperHex(x[2]))
  {
    UpperHexDigits(x[1], x[2]);
  }

  /** Encoding undoes decoding on the canonical strings and on no others. */
  lemma {:induction false} CanonicalIff(x: seq<byte>)
    ensures Encode(Decode(x)) == x <==> Canonical(x)
  {
    if x != [] {
      var n, b := FirstToken(x, []);
      assert x[n..] + [] == x[n..];
      CanonicalIff(x[n..]);
      var e, rest := EncodeByte(b), Encode(Decode(x[n..]));
      assert Encode(Decode(x)) == e + rest by {
        assert Decode(x)[1..] == Decode(x[n..]);
      }
      assert x == x[..n] + x[n..];
      if Escape(x) {
        CanonicalEscape(x);
        SameLengthHeads(e, rest, x[..3], x[3..]);
      } else {
        CanonicalByte(x, rest);
      }
    }
  }

  lemma CanonicalByte(x: seq<byte>, rest: seq<byte>)
    requires x != [] && !Escape(x)
    ensures var b := if x[0] == PLUS then SPACE else x[0];
            EncodeByte(b) + rest == x <==> Plain(x[0]) && rest == x[1..]
  {
    var e := EncodeByte(if x[0] == PLUS then SPACE else x[0]);
    if Plain(x[0]) {
      assert x == [x[0]] + x[1..];
      SameHead(e, rest, x[1..]);
    } else if x[0] == PERCENT {
      assert (e + rest)[..3] == [PERCENT, HexDigit(2), HexDigit(5)];
    } else {
      assert (e + rest)[0] == PERCENT;
    }
  }

  lemma SameLengthHeads(a: seq<byte>, b: seq<byte>, c: seq<byte>, d: seq<byte>)
    requires a != [] && c != [] && (|a| == |c| || a[0] != c[0])
    ensures a + b == c + d <==> a == c && b == d
  {
    assert (a + b)[0] == a[0] && (c + d)[0] == c[0];
    if |a| == |c| {
      assert (a + b)[..|a|] == a && (c + d)[..|c|] == c;
      assert (a + b)[|a|..] == b && (c + d)[|c|..] == d;
    }
  }

  /** A hexadecimal digit of value `v`, in either case. */
  predicate DigitOf(c: byte, v: nat)
    requires v < 16
  {
    c == UPPER[v] || c == LOWER[v]
  }

  /** The ways to spell a character: as itself, as `+` for a blank, or as an escape in either case. */
  predicate Spells(piece: seq<byte>, b: byte) {
    || (piece == [b] && b != 37 && b != 43)
    || (piece == [43] && b == 32)
    || (|piece| == 3 && piece[0] == 37 && DigitOf(piece[1], b / 16) && DigitOf(piece[2], b % 16))
  }

  lemma DigitIs(c: byte, v: nat)
    requires v < 16 && DigitOf(c, v)
    ensures IsHex(c) && HexValue(c) == v
  {
    assert v < 10 ==> UPPER[v] == 48 + v && LOWER[v] == 48 + v;
    assert v >= 10 ==> UPPER[v] == 55 + v && LOWER[v] == 87 + v;
  }

  /** However the characters of a string are spelled, decoding gives the string. */
  lemma {:induction false} SpellingsDecode(pieces: seq<seq<byte>>, s: seq<byte>)
    requires |pieces| == |s| && forall i :: 0 <= i < |s| ==> Spells(pieces[i], s[i])
    ensures Decode(Concat(pieces)) == s
  {
    if s != [] {
      SpellingsDecode(pieces[1..], s[1..]);
      var piece, rest := pieces[0], Concat(pieces[1..]);
      var x := piece + rest;
      if |piece| == 3 {
        DigitIs(piece[1], s[0] / 16);
        DigitIs(piece[2], s[0] % 16);
        assert x[3..] == rest;
      } else {
        assert x[1..] == rest;
      }
    }
  }

  ghost predicate Digit(c: byte) {
    exists v: nat | v < 16 :: DigitOf(c, v)
  }

  lemma IsHexIff(c: byte)
    ensures IsHex(c) <==> Digit(c)
  {
    if IsHex(c) {
      var v := HexValue(c);
      assert v < 10 ==> UPPER[v] == 48 + v;
      assert v >= 10 ==> UPPER[v] == 55 + v && LOWER[v] == 87 + v;
      assert DigitOf(c, v);
    }
    if Digit(c) {
      var v: nat :| v < 16 && DigitOf(c, v);
      DigitIs(c, v);
    }
  }

  /** A percent sign without two hexadecimal digits after it stands for itself. */
  lemma LoneSign(x: seq<byte>)
    requires x != [] && x[0] == 37 && (|x| >= 3 ==> !Digit(x[1]) || !Digit(x[2]))
    ensures Decode(x) == [37] + Decode(x[1..])
  {
    if |x| >= 3 {
      IsHexIff(x[1]);
      IsHexIff(x[2]);
    }
  }

  /** The two functions on C strings: encoding writes no NUL, and decoding may, which ends a string. */
  lemma {:induction false} EncodeHasNoNul(s: seq<byte>)
    ensures 0 !in Encode(s)
  {
    if s != [] {
      EncodeHasNoNul(s[1..]);
      if !Plain(s[0]) {
        HexRoundTrip(s[0]);
      }
    }
  }

  lemma CanonicalCStringIff(x: seq<byte>)
    ensures Encode(UpToNul(Decode(x))) == x <==> Canonical(x) && 0 !in Decode(x)
  {
    CanonicalIff(x);
    var d := Decode(x);
    if 0 !in d {
      UpToNulIs(d, |d|);
    } else {
      RoundTrip(UpToNul(d));
    }
  }

  /** The cut between `x` and `y` falls inside an escape. */
  predicate CutsEscape(x: seq<byte>, y: seq<byte>) {
    || (|x| >= 1 && |y| >= 2 && x[|x| - 1] == PERCENT && IsHex(y[0]) && IsHex(y[1]))
    || (|x| >= 2 && |y| >= 1 && x[|x| - 2] == PERCENT && IsHex(x[|x| - 1]) && IsHex(y[0]))
  }

  lemma CutLengths(x: seq<byte>, y: seq<byte>)
    requires 1 <= |x| <= 2 && !Escape(x) && Escape(x + y)
    ensures CutsEscape(x, y) && |Decode(x + y)| < |Decode(x)| + |Decode(y)|
  {
    assert (x + y)[3..] == y[3 - |x|..];
    if |y| >= 2 {
      assert y[1..][1..] == y[2..];
    }
    assert |Decode(y)| == 3 - |x| + |Decode(y[3 - |x|..])|;
    assert |Decode(x)| == |x|;
  }

  /** Past a first token of `n` bytes nothing about the cut changes. */
  lemma CutsLater(x: seq<byte>, y: seq<byte>, n: nat)
    requires (n == 3 && Escape(x)) || (n == 1 && x != [] && !Escape(x + y))
    ensures CutsEscape(x, y) == CutsEscape(x[n..], y)
  {
    var rest := x[n..];
    if |rest| >= 2 {
      assert rest[|rest| - 1] == x[|x| - 1] && rest[|rest| - 2] == x[|x| - 2];
    } else if |rest| == 1 {
      assert rest[0] == x[|x| - 1];
    }
  }

  lemma SplitToken(x: seq<byte>, y: seq<byte>, n: nat, b: byte)
    requires n <= |x| && Decode(x) == [b] + Decode(x[n..])
    requires Decode(x + y) == [b] + Decode(x[n..] + y)
    ensures Decode(x + y) == Decode(x) + Decode(y) <==>
            Decode(x[n..] + y) == Decode(x[n..]) + Decode(y)
  {
    Assoc([b], Decode(x[n..]), Decode(y));
    SameHead([b], Decode(x[n..] + y), Decode(x[n..]) + Decode(y));
  }

  /** Decoding distributes over a cut exactly when the cut does not fall inside an escape. */
  lemma {:induction false} DecodeSplitIff(x: seq<byte>, y: seq<byte>)
    ensures Decode(x + y) == Decode(x) + Decode(y) <==> !CutsEscape(x, y)
  {
    if x == [] {
      assert x + y == y;
    } else if Escape(x + y) && !Escape(x) {
      CutLengths(x, y);
    } else {
      var n, b := FirstToken(x, y);
      DecodeSplitIff(x[n..], y);
      CutsLater(x, y, n);
      SplitToken(x, y, n, b);
    }
  }

  /** A first token that the cut leaves whole is read the same with and without what follows. */
  lemma FirstToken(x: seq<byte>, y: seq<byte>) returns (n: nat, b: byte)
    requires x != [] && (Escape(x + y) ==> Escape(x))
    ensures (n == 3 && Escape(x)) || (n == 1 && !Escape(x + y))
    ensures n <= |x| && Decode(x) == [b] + Decode(x[n..])
    ensures Decode(x + y) == [b] + Decode(x[n..] + y)
  {
    if Escape(x) {
      n, b := 3, Escaped(x);
    } else {
      n, b := 1, if x[0] == PLUS then SPACE else x[0];
    }
    assert (x + y)[n..] == x[n..] + y;
  }

  /**
   Where the bounded encoder stops in `s`: at the end, or as soon as what it has written reaches the
   limit, which it checks only between characters.
   */
  ghost predicate StopsAt(s: seq<byte>, limit: nat, k: nat) {
    && k <= |s|
    && (k < |s| ==> limit <= |Encode(s[..k])|)
    && (forall j :: 0 <= j < k ==> |Encode(s[..j])| < limit)
  }

  /**
   Safe truncation: what is written fits two short of the buffer, is the whole encoding of a prefix
   and so decodes to that prefix; the prefix has at least a third of the limit, and it is all of the
   source exactly when everything but the last character encodes below the limit.
   */
  lemma Truncation(s: seq<byte>, dstSize: nat, k: nat)
    requires 4 <= dstSize && StopsAt(s, dstSize - 4, k)
    ensures |Encode(s[..k])| <= dstSize - 2
    ensures Decode(Encode(s[..k])) == s[..k]
    ensures k == |s| || dstSize - 4 <= 3 * k
    ensures k == |s| <==> s == [] || |Encode(s[..|s| - 1])| < dstSize - 4
  {
    RoundTrip(s[..k]);
    EncodeLength(s[..k]);
    if k > 0 {
      assert s[..k] == s[..k - 1] + [s[k - 1]];
      EncodeSnoc(s[..k - 1], s[k - 1]);
    }
    if k < |s| {
      EncodeConcat(s[..k], s[k..|s| - 1]);
      assert s[..|s| - 1] == s[..k] + s[k..|s| - 1];
    }
  }
}
