/**
 The registry of the file-sharing server: REG datagrams fill the table, LIST prints it, and the
 client reads it back with `istringstream`.
 */
module ClientList {
  import opened Bytes
  import opened Words

  const REG: Text := [82, 69, 71, 32]
  const LIST: Text := [76, 73, 83, 84]
  const REPLY_SIZE := 4096

  datatype Entry = Entry(name: Text, ip: Text)

  /** A datagram on the registration port, and the printed address it came from. */
  datatype Registration = Registration(datagram: Text, ip: Text)

  /** `std::string` order: unsigned bytes, first difference, shorter first. */
  predicate Less(a: Text, b: Text) {
    b != [] && (a == [] || a[0] < b[0] || (a[0] == b[0] && Less(a[1..], b[1..])))
  }

  lemma {:induction false} LessTotal(a: Text, b: Text)
    ensures Less(a, b) || a == b || Less(b, a)
    ensures !(Less(a, b) && Less(b, a)) && (a == b ==> !Less(a, b))
  {
    if a != [] && b != [] && a[0] == b[0] {
      LessTotal(a[1..], b[1..]);
      assert a == [a[0]] + a[1..] && b == [b[0]] + b[1..];
    }
  }

  lemma {:induction false} LessTransitive(a: Text, b: Text, c: Text)
    requires Less(a, b) && Less(b, c)
    ensures Less(a, c)
  {
    if a != [] && a[0] == b[0] && b[0] == c[0] {
      LessTransitive(a[1..], b[1..], c[1..]);
    }
  }

  /** `a` comes before `b`: a proper beginning of it, or smaller at the first byte that differs. */
  ghost predicate Before(a: Text, b: Text) {
    || (a <= b && a != b)
    || exists i: nat :: SmallerAt(a, b, i)
  }

  /** The bytes at `i` are the first that differ, and `a` has the smaller one. */
  ghost predicate SmallerAt(a: Text, b: Text, i: nat) {
    i < |a| && i < |b| && a[..i] == b[..i] && a[i] < b[i]
  }

  lemma SmallerLater(a: Text, b: Text, i: nat)
    requires a != [] && b != [] && a[0] == b[0]
    ensures SmallerAt(a, b, i + 1) <==> SmallerAt(a[1..], b[1..], i)
  {
    if i + 1 < |a| && i + 1 < |b| {
      assert a[..i + 1] == [a[0]] + a[1..][..i] && b[..i + 1] == [b[0]] + b[1..][..i];
      SameHead([a[0]], a[1..][..i], b[1..][..i]);
    }
  }

  lemma {:induction false} LessIff(a: Text, b: Text)
    ensures Less(a, b) <==> Before(a, b)
  {
    if a != [] && b != [] && a[0] == b[0] {
      LessIff(a[1..], b[1..]);
      BeforeLater(a, b);
    } else if a != [] && b != [] {
      assert a[0] < b[0] ==> SmallerAt(a, b, 0);
      assert forall i: nat :: 0 < i <= |a| && i <= |b| ==> a[..i][0] == a[0] && b[..i][0] == b[0];
    }
  }

  lemma BeforeLater(a: Text, b: Text)
    requires a != [] && b != [] && a[0] == b[0]
    ensures Before(a, b) <==> Before(a[1..], b[1..])
  {
    assert a == [a[0]] + a[1..] && b == [b[0]] + b[1..];
    if i: nat :| SmallerAt(a[1..], b[1..], i) {
      SmallerLater(a, b, i);
    }
    if i: nat :| SmallerAt(a, b, i) {
      assert i > 0;
      SmallerLater(a, b, i - 1);
    }
  }

  /** The table lists its names in increasing order, each once. */
  ghost predicate InNameOrder(table: seq<Entry>) {
    forall i, j :: 0 <= i < j < |table| ==> Before(table[i].name, table[j].name)
  }

  lemma SortedIsInNameOrder(table: seq<Entry>)
    requires Sorted(table)
    ensures InNameOrder(table)
  {
    forall i, j | 0 <= i < j < |table|
      ensures Before(table[i].name, table[j].name)
    {
      LessIff(table[i].name, table[j].name);
    }
  }

  ghost predicate Sorted(table: seq<Entry>) {
    forall i, j :: 0 <= i < j < |table| ==> Less(table[i].name, table[j].name)
  }

  /** `clients[name] = ip` in an ordered map, kept as its entries in key order. */
  function Insert(table: seq<Entry>, name: Text, ip: Text): seq<Entry> {
    if table == [] || Less(name, table[0].name) then [Entry(name, ip)] + table
    else if table[0].name == name then [Entry(name, ip)] + table[1..]
    else [table[0]] + Insert(table[1..], name, ip)
  }

  ghost predicate Inserted(table: seq<Entry>, name: Text, ip: Text, result: seq<Entry>) {
    forall e :: e in result <==> e == Entry(name, ip) || (e in table && e.name != name)
  }

  lemma {:induction false} InsertIs(table: seq<Entry>, name: Text, ip: Text)
    requires Sorted(table)
    ensures Sorted(Insert(table, name, ip))
    ensures Inserted(table, name, ip, Insert(table, name, ip))
  {
    if table == [] {
    } else if Less(name, table[0].name) {
      InsertFront(table, name, ip);
    } else if table[0].name == name {
      LessTotal(name, name);
      assert forall e <- table[1..] :: Less(name, e.name);
      assert forall e :: e in table <==> e == table[0] || e in table[1..];
    } else {
      LessTotal(table[0].name, name);
      InsertIs(table[1..], name, ip);
      var rest := Insert(table[1..], name, ip);
      assert forall e <- rest :: Less(table[0].name, e.name);
      assert forall e :: e in table <==> e == table[0] || e in table[1..];
    }
  }

  lemma InsertFront(table: seq<Entry>, name: Text, ip: Text)
    requires Sorted(table) && table != [] && Less(name, table[0].name)
    ensures Sorted([Entry(name, ip)] + table)
    ensures Inserted(table, name, ip, [Entry(name, ip)] + table)
  {
    forall i | 0 <= i < |table|
      ensures Less(name, table[i].name) && table[i].name != name
    {
      if i > 0 {
        LessTransitive(name, table[0].name, table[i].name);
      }
      LessTotal(name, table[i].name);
    }
  }

  /** A datagram that registers a name, and the name: what follows "REG " up to the first NUL. */
  predicate Registers(r: Registration) {
    REG <= UpToNul(r.datagram)
  }

  function NameOf(r: Registration): Text
    requires Registers(r)
  {
    UpToNul(r.datagram)[|REG|..]
  }

  function TableOf(rs: seq<Registration>): seq<Entry> {
    if rs == [] then []
    else
      var last, before := rs[|rs| - 1], TableOf(rs[..|rs| - 1]);
      if Registers(last) then Insert(before, NameOf(last), last.ip) else before
  }

  /** The entry is of the last datagram that registered its name. */
  ghost predicate IsLast(rs: seq<Registration>, e: Entry, i: nat) {
    && i < |rs| && Registers(rs[i]) && e == Entry(NameOf(rs[i]), rs[i].ip)
    && forall j :: i < j < |rs| && Registers(rs[j]) ==> NameOf(rs[j]) != e.name
  }

  ghost predicate LastWins(rs: seq<Registration>, table: seq<Entry>) {
    forall e :: e in table <==> exists i: nat :: IsLast(rs, e, i)
  }

  lemma LastWinsStep(rs: seq<Registration>, r: Registration, e: Entry)
    ensures (exists i: nat :: IsLast(rs + [r], e, i)) <==>
            if Registers(r) && e.name == NameOf(r) then e.ip == r.ip
            else exists i: nat :: IsLast(rs, e, i)
  {
    var all := rs + [r];
    assert forall j :: 0 <= j < |rs| ==> all[j] == rs[j];
    if Registers(r) && e.name == NameOf(r) {
      if e.ip == r.ip {
        assert IsLast(all, e, |rs|);
      }
      assert forall i: nat :: i < |rs| ==> !IsLast(all, e, i) by {
        assert all[|rs|] == r;
      }
    } else {
      forall i: nat
        ensures IsLast(all, e, i) <==> IsLast(rs, e, i)
      {
      }
    }
  }

  /** The table, after any sequence of datagrams: for each name the last one registered, in name order. */
  lemma {:induction false} TableIs(rs: seq<Registration>)
    ensures Sorted(TableOf(rs)) && InNameOrder(TableOf(rs)) && LastWins(rs, TableOf(rs))
  {
    if rs != [] {
      var before, r := rs[..|rs| - 1], rs[|rs| - 1];
      TableIs(before);
      assert rs == before + [r];
      if Registers(r) {
        InsertIs(TableOf(before), NameOf(r), r.ip);
      }
      forall e: Entry
        ensures e in TableOf(rs) <==> exists i: nat :: IsLast(rs, e, i)
      {
        LastWinsStep(before, r, e);
      }
    }
    SortedIsInNameOrder(TableOf(rs));
  }

  /** A datagram registers a name exactly when its text is `REG`, a blank and that name. */
  lemma RegistersIff(r: Registration, name: Text)
    ensures Registers(r) && NameOf(r) == name <==> UpToNul(r.datagram) == [82, 69, 71, 32] + name
  {
    var t := UpToNul(r.datagram);
    if Registers(r) {
      assert t == REG + t[|REG|..];
      SameHead(REG, t[|REG|..], name);
    }
  }

  /** Decimal, as `<<` prints a size. */
  function Decimal(n: nat): (d: Text)
    ensures d != [] && forall c <- d :: IsDigit(c)
  {
    if n < 10 then [48 + n] else Decimal(n / 10) + [48 + n % 10]
  }

  predicate IsDigit(b: byte) {
    48 <= b <= 57
  }

  function Line(e: Entry): Text {
    ([BLANK] + e.name) + ([BLANK] + e.ip)
  }

  function Lines(table: seq<Entry>): Text {
    if table == [] then [] else Line(table[0]) + Lines(table[1..])
  }

  /** Lines 98-104. */
  function Print(table: seq<Entry>): Text {
    LIST + ([BLANK] + Decimal(|table|) + Lines(table))
  }

  /** The longest beginning of digits. */
  function Digits(t: Text): (w: Text)
    ensures |w| <= |t| && t[..|w|] == w && (|w| < |t| ==> !IsDigit(t[|w|]))
    ensures forall c <- w :: IsDigit(c)
  {
    if t == [] || !IsDigit(t[0]) then [] else [t[0]] + Digits(t[1..])
  }

  function Value(digits: Text): nat
    requires forall c <- digits :: IsDigit(c)
  {
    if digits == [] then 0
    else
      var last: int := digits[|digits| - 1];
      assert IsDigit(digits[|digits| - 1]);
      Value(digits[..|digits| - 1]) * 10 + (last - 48)
  }

  /** `iss >> count`: 0 when there is no number, as when the sign is followed by none. */
  function ReadCount(t: Text): (int, Text) {
    var s := SkipSpace(t);
    var signed := s != [] && s[0] in {43, 45};
    var u := if signed then s[1..] else s;
    var d := Digits(u);
    var magnitude: int := Value(d);
    (if signed && s[0] == 45 then -magnitude else magnitude, u[|d|..])
  }

  function ReadEntries(count: int, t: Text): seq<Entry>
    decreases count
  {
    if count <= 0 then []
    else
      var (name, t1) := ReadWord(t);
      var (ip, t2) := ReadWord(t1);
      [Entry(name, ip)] + ReadEntries(count - 1, t2)
  }

  /** The reply as the client's zeroed buffer holds it. */
  function Reply(t: Text): Text {
    UpToNul(if |t| < REPLY_SIZE then t else t[..REPLY_SIZE])
  }

  /** Lines 223-234. */
  function Parse(t: Text): seq<Entry> {
    var (cmd, t1) := ReadWord(t);
    var (count, t2) := ReadCount(t1);
    ReadEntries(count, t2)
  }

  lemma {:induction false} DigitsIs(w: Text, rest: Text)
    requires forall c <- w :: IsDigit(c)
    requires rest == [] || !IsDigit(rest[0])
    ensures Digits(w + rest) == w
  {
    if w == [] {
      assert w + rest == rest;
    } else {
      DigitsIs(w[1..], rest);
      assert (w + rest)[1..] == w[1..] + rest;
    }
  }

  lemma {:induction false} ValueOfDecimal(n: nat)
    ensures Value(Decimal(n)) == n
  {
    if n < 10 {
      assert Decimal(n)[..0] == [];
    } else {
      ValueOfDecimal(n / 10);
      assert Decimal(n)[..|Decimal(n)| - 1] == Decimal(n / 10);
    }
  }

  function Pow10(k: nat): nat {
    if k == 0 then 1 else 10 * Pow10(k - 1)
  }

  /** Digits, the most significant first. */
  function Positional(d: Text): int {
    if d == [] then 0 else (d[0] - 48) * Pow10(|d| - 1) + Positional(d[1..])
  }

  lemma {:induction false} PositionalSnoc(d: Text, x: byte)
    ensures Positional(d + [x]) == 10 * Positional(d) + (x - 48)
  {
    if d == [] {
      assert Positional([x]) == (x - 48) * Pow10(0) + Positional([x][1..]);
      assert d + [x] == [x];
    } else {
      PositionalSnoc(d[1..], x);
      assert (d + [x])[1..] == d[1..] + [x];
      assert Pow10(|d|) == 10 * Pow10(|d| - 1);
      assert (d[0] - 48) * (10 * Pow10(|d| - 1)) == 10 * ((d[0] - 48) * Pow10(|d| - 1));
    }
  }

  /** The printed count is the number in decimal, without leading zeros. */
  lemma {:induction false} DecimalIs(n: nat)
    ensures Positional(Decimal(n)) == n
    ensures forall c <- Decimal(n) :: 48 <= c <= 57
    ensures n > 0 ==> Decimal(n)[0] != 48
  {
    if n < 10 {
      PositionalSnoc([], 48 + n);
      assert [] + [48 + n as byte] == [48 + n];
    } else {
      DecimalIs(n / 10);
      PositionalSnoc(Decimal(n / 10), 48 + n % 10);
    }
  }

  /** The answer to LIST, character by character. */
  lemma {:induction false} PrintIs(table: seq<Entry>)
    ensures Print(table) == [76, 73, 83, 84, 32] + Decimal(|table|)
                            + Concat(seq(|table|, i requires 0 <= i < |table| =>
                                           [32] + table[i].name + [32] + table[i].ip))
  {
    LinesAre(table);
    Assoc([BLANK], Decimal(|table|), Lines(table));
    Assoc(LIST, [BLANK], Decimal(|table|) + Lines(table));
    assert LIST + [BLANK] == [76, 73, 83, 84, 32];
  }

  lemma {:induction false} LinesAre(table: seq<Entry>)
    ensures Lines(table) == Concat(seq(|table|, i requires 0 <= i < |table| =>
                                         [32] + table[i].name + [32] + table[i].ip))
  {
    if table != [] {
      LinesAre(table[1..]);
      var pieces := seq(|table|, i requires 0 <= i < |table| => [32] + table[i].name + [32] + table[i].ip);
      assert pieces[1..] == seq(|table[1..]|, i requires 0 <= i < |table[1..]| =>
                                  [32] + table[1..][i].name + [32] + table[1..][i].ip);
      assert Line(table[0]) == pieces[0];
    }
  }

  /** A count with a sign in front of it, and one that is no number. */
  lemma SignedCount(n: nat, rest: Text)
    requires rest == [] || !IsDigit(rest[0])
    ensures var r := ReadCount([45] + (Decimal(n) + rest)); r.0 + n == 0 && r.1 == rest
    ensures ReadCount([43] + (Decimal(n) + rest)) == (n, rest)
    ensures rest != [] && rest[0] !in [43, 45] && !IsSpace(rest[0]) ==> ReadCount(rest) == (0, rest)
  {
    var t := Decimal(n) + rest;
    DigitsIs(Decimal(n), rest);
    ValueOfDecimal(n);
    assert ([45] + t)[1..] == t && ([43] + t)[1..] == t;
    assert t[|Decimal(n)|..] == rest;
  }

  lemma LinesStart(table: seq<Entry>)
    ensures Lines(table) == [] || Lines(table)[0] == BLANK
  {
  }

  lemma ReadCountIs(n: nat, rest: Text)
    requires rest == [] || (!IsDigit(rest[0]))
    ensures ReadCount([BLANK] + Decimal(n) + rest) == (n, rest)
  {
    var d := Decimal(n);
    var t := [BLANK] + d + rest;
    assert IsDigit(d[0]);
    assert t[1..] == d + rest;
    assert SkipSpace(t) == d + rest;
    DigitsIs(d, rest);
    ValueOfDecimal(n);
  }

  lemma ParseSteps(t: Text, cmd: Text, t1: Text, count: int, t2: Text)
    requires ReadWord(t) == (cmd, t1) && ReadCount(t1) == (count, t2)
    ensures Parse(t) == ReadEntries(count, t2)
  {
  }

  lemma ListIsToken()
    ensures IsToken(LIST)
  {
    assert forall i :: 0 <= i < |LIST| ==> !IsSpace(LIST[i]);
  }

  /** The count is read back, whatever the names in the table. */
  lemma ParseIsEntries(table: seq<Entry>)
    ensures Parse(Print(table)) == ReadEntries(|table|, Lines(table))
  {
    var t1 := [BLANK] + Decimal(|table|) + Lines(table);
    LinesStart(table);
    ListIsToken();
    ReadFirstWord(LIST, t1);
    ReadCountIs(|table|, Lines(table));
    ParseSteps(Print(table), LIST, t1, |table|, Lines(table));
  }

  lemma {:induction false} ReadLines(table: seq<Entry>)
    requires forall e <- table :: IsToken(e.name) && IsToken(e.ip)
    ensures ReadEntries(|table|, Lines(table)) == table
  {
    if table != [] {
      var e, rest := table[0], Lines(table[1..]);
      LinesStart(table[1..]);
      Assoc([BLANK] + e.name, [BLANK] + e.ip, rest);
      ReadWordIs(e.name, [BLANK] + e.ip + rest);
      ReadWordIs(e.ip, rest);
      ReadLines(table[1..]);
    }
  }

  /** What the client reads: no name has whitespace, and a name is empty only when all text is used up. */
  lemma {:induction false} ReadShape(count: int, t: Text)
    ensures forall e <- ReadEntries(count, t) :: (forall c <- e.name :: !IsSpace(c)) && (e.name == [] ==> e.ip == [])
    decreases count
  {
    if count > 0 {
      var (name, t1) := ReadWord(t);
      var (ip, t2) := ReadWord(t1);
      ReadShape(count - 1, t2);
    }
  }

  /** The client reads the table back if and only if every name in it is a token. */
  lemma ParsePrintIff(table: seq<Entry>)
    requires forall e <- table :: IsToken(e.ip)
    ensures Parse(Print(table)) == table <==> forall e <- table :: IsToken(e.name)
  {
    ParseIsEntries(table);
    if forall e <- table :: IsToken(e.name) {
      ReadLines(table);
    } else {
      ReadShape(|table|, Lines(table));
    }
  }

  lemma {:induction false} LinesHaveNoNul(table: seq<Entry>)
    requires forall e <- table :: 0 !in e.name && 0 !in e.ip
    ensures 0 !in Lines(table)
  {
    if table != [] {
      LinesHaveNoNul(table[1..]);
    }
  }

  /** A registered name stays in the table, though its address may change. */
  lemma {:induction false} NameKept(rs: seq<Registration>, r: Registration)
    requires r in rs && Registers(r)
    ensures exists e <- TableOf(rs) :: e.name == NameOf(r)
  {
    var before, last := rs[..|rs| - 1], rs[|rs| - 1];
    TableIs(before);
    if Registers(last) {
      InsertIs(TableOf(before), NameOf(last), last.ip);
      assert Entry(NameOf(last), last.ip) in TableOf(rs);
    }
    if r != last {
      assert rs == before + [last];
      NameKept(before, r);
    }
  }

  /** The entries of the table come from the datagrams, and every registered name has one. */
  lemma FromDatagrams(rs: seq<Registration>)
    ensures forall e <- TableOf(rs) ::
              exists i :: 0 <= i < |rs| && Registers(rs[i]) && e == Entry(NameOf(rs[i]), rs[i].ip)
    ensures forall r <- rs :: Registers(r) ==> exists e <- TableOf(rs) :: e.name == NameOf(r)
  {
    TableIs(rs);
    forall e <- TableOf(rs)
      ensures exists i :: 0 <= i < |rs| && Registers(rs[i]) && e == Entry(NameOf(rs[i]), rs[i].ip)
    {
      var i: nat :| IsLast(rs, e, i);
    }
    forall r <- rs | Registers(r)
      ensures exists e <- TableOf(rs) :: e.name == NameOf(r)
    {
      NameKept(rs, r);
    }
  }

  lemma ReplyIsWhole(table: seq<Entry>)
    requires forall e <- table :: 0 !in e.name && 0 !in e.ip
    requires |Print(table)| < REPLY_SIZE
    ensures Reply(Print(table)) == Print(table)
  {
    LinesHaveNoNul(table);
    var d := Decimal(|table|);
    assert 0 !in d && 0 !in LIST && 0 !in [BLANK];
    assert 0 !in [BLANK] + d + Lines(table);
    var t := Print(table);
    assert 0 !in t && t[..|t|] == t;
    UpToNulIs(t, |t|);
  }

  /**
   The whole way round, for any datagrams from printable addresses: when the answer fits the reply
   buffer, the client's list is the last registration of each name, in name order, if and only if
   every registered name is non-empty and without whitespace.
   */
  lemma {:induction false} ListRoundTripIff(rs: seq<Registration>)
    requires forall r <- rs :: IsToken(r.ip) && 0 !in r.ip
    requires |Print(TableOf(rs))| < 4096
    ensures Parse(Reply(Print(TableOf(rs)))) == TableOf(rs)
            <==> forall r <- rs :: Registers(r) ==> IsToken(NameOf(r))
    ensures InNameOrder(TableOf(rs)) && LastWins(rs, TableOf(rs))
  {
    var table := TableOf(rs);
    TableIs(rs);
    FromDatagrams(rs);
    forall e <- table
      ensures 0 !in e.name && 0 !in e.ip && IsToken(e.ip)
    {
      var i :| 0 <= i < |rs| && Registers(rs[i]) && e == Entry(NameOf(rs[i]), rs[i].ip);
    }
    ReplyIsWhole(table);
    ParsePrintIff(table);
  }
}
