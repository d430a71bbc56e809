/** Whitespace-separated words, as `istringstream >>` and `sscanf("%s")` read them. */
module Words {
  import opened Bytes

  type Text = seq<byte>

  const BLANK: byte := 32
  const SLASH: byte := 47

  predicate IsSpace(b: byte) {
    b == 32 || 9 <= b <= 13
  }

  function SkipSpace(t: Text): (r: Text)
    ensures |r| <= |t| && (r != [] ==> !IsSpace(r[0]))
  {
    if t != [] && IsSpace(t[0]) then SkipSpace(t[1..]) else t
  }

  /** The longest beginning without whitespace. */
  function Word(t: Text): (w: Text)
    ensures |w| <= |t| && t[..|w|] == w && (|w| < |t| ==> IsSpace(t[|w|]))
    ensures forall c <- w :: !IsSpace(c)
  {
    if t == [] || IsSpace(t[0]) then [] else [t[0]] + Word(t[1..])
  }

  /** `iss >> s`: the next word, empty at the end of the text, and what is left. */
  function ReadWord(t: Text): (r: (Text, Text))
    ensures |r.1| <= |t|
  {
    var s := SkipSpace(t);
    (Word(s), s[|Word(s)|..])
  }

  /** One word: not empty, and without blank, tab, newline, vertical tab, form feed or return. */
  predicate IsToken(t: Text) {
    t != [] && forall c <- t :: c != 32 && c != 9 && c != 10 && c != 11 && c != 12 && c != 13
  }

  lemma {:induction false} WordIs(w: Text, rest: Text)
    requires forall c <- w :: !IsSpace(c)
    requires rest == [] || IsSpace(rest[0])
    ensures Word(w + rest) == w
  {
    if w == [] {
      assert w + rest == rest;
    } else {
      WordIs(w[1..], rest);
      assert (w + rest)[1..] == w[1..] + rest;
    }
  }

  /** A blank, a token, and what follows it. */
  lemma ReadWordIs(w: Text, rest: Text)
    requires IsToken(w) && (rest == [] || IsSpace(rest[0]))
    ensures ReadWord([BLANK] + w + rest) == (w, rest)
  {
    var t := [BLANK] + w + rest;
    assert t[1..] == w + rest;
    assert w[0] in w;
    assert SkipSpace(t) == w + rest;
    WordIs(w, rest);
  }

  lemma ReadFirstWord(w: Text, rest: Text)
    requires IsToken(w) && (rest == [] || IsSpace(rest[0]))
    ensures ReadWord(w + rest) == (w, rest)
  {
    WordIs(w, rest);
  }
}
