/**
 What the two TFTP loops do about every event, told from the history alone: from how many blocks were
 accepted before it, and how many timeouts came just before it.
 */
module Answers {
  import opened Bytes
  import opened Blocks
  import opened Wire
  import opened Endpoints
  import opened Retries

  /** The payloads a receiver takes: each the first DATA to carry the number after the one before it. */
  function Accepted(es: seq<Event>): seq<seq<byte>> {
    if es == [] then []
    else
      var before, e := Accepted(es[..|es| - 1]), es[|es| - 1];
      if e.Received? && e.packet.Data? && e.packet.block == (|before| + 1) % 0x1_0000
      then before + [e.packet.payload] else before
  }

  /** How many blocks a sender has read: one for each ACK of the block before it, up to the last. */
  function Moved(f: seq<byte>, es: seq<Event>): (m: nat)
    ensures m <= Count(f)
  {
    if es == [] then 0
    else
      var before := Moved(f, es[..|es| - 1]);
      if es[|es| - 1] == Received(Ack(before % 0x1_0000)) && before < Count(f) then before + 1 else before
  }

  lemma GetStepTakes(r: Receiver, e: Event)
    requires r.verdict == Running && r.expected == (|r.writes| + 1) % 0x1_0000
    ensures var r' := GetStep(r, e).0;
            var due := e.Received? && e.packet.Data? && e.packet.block == r.expected;
            && r'.writes == (if due then r.writes + [e.packet.payload] else r.writes)
            && r'.expected == (|r'.writes| + 1) % 0x1_0000
            && (r'.verdict == Complete <==> due && |e.packet.payload| < 512)
  {
    assert Next((|r.writes| + 1) % 0x1_0000) == (|r.writes| + 2) % 0x1_0000;
  }

  /** The receiver's registers hold what the history says. */
  lemma {:induction false} GetStateIs(es: seq<Event>)
    requires GetTakes(es)
    ensures var r := GetRun(es);
            && r.writes == Accepted(es)
            && r.expected == (|Accepted(es)| + 1) % 0x1_0000
            && (r.verdict == Complete <==>
                  es != [] && var before := Accepted(es[..|es| - 1]);
                              |before| < |Accepted(es)| && |Accepted(es)[|before|]| < 512)
  {
    if es != [] {
      var before := es[..|es| - 1];
      GetTakesBefore(es);
      GetStateIs(before);
      GetStepTakes(GetRun(before), es[|es| - 1]);
    }
  }

  lemma GetStepAnswers(r: Receiver, e: Event, w: nat)
    requires r.verdict == Running && r.expected == (w + 1) % 0x1_0000
    ensures GetStep(r, e).1 ==
              if e.Timeout? && r.retries < 5 then ToPeer(Ack(w % 0x1_0000))
              else if e.Received? && e.packet.Data? && e.packet.block <= (w + 1) % 0x1_0000
              then ToPeer(Ack(e.packet.block))
              else Silent
  {
    assert Prev((w + 1) % 0x1_0000) == w % 0x1_0000;
  }

  /**
   The receiver, event by event: a timeout makes it repeat the ACK of the last block it took, five
   times in a row; a DATA is acknowledged if and only if its number is not above the one it waits for;
   nothing else is answered.
   */
  lemma {:induction false} GetAnswerIs(es: seq<Event>)
    requires es != [] && GetTakes(es)
    ensures var before, e := es[..|es| - 1], es[|es| - 1];
            var w := |Accepted(before)|;
            GetAnswer(es, |es| - 1) ==
              if e.Timeout? && Trailing(before) < 5 then ToPeer(Ack(w % 0x1_0000))
              else if e.Received? && e.packet.Data? && e.packet.block <= (w + 1) % 0x1_0000
              then ToPeer(Ack(e.packet.block))
              else Silent
  {
    var before := es[..|es| - 1];
    assert GetTakes(before) by {
      GetTakesBefore(es);
    }
    GetStateIs(before);
    GetAccounted(before);
    GetStepAnswers(GetRun(before), es[|es| - 1], |Accepted(before)|);
  }

  lemma GetTakesBefore(es: seq<Event>)
    requires es != [] && GetTakes(es)
    ensures GetTakes(es[..|es| - 1])
  {
    var before := es[..|es| - 1];
    if before != [] {
      assert GetRun(before) == GetStep(GetRun(before[..|before| - 1]), before[|before| - 1]).0;
    }
  }

  /** The sender's registers with `m` blocks read. */
  ghost predicate At(f: seq<byte>, s: Sender, m: nat) {
    s.fetched == m <= Count(f) && s.blockNum == m % 0x1_0000 && s.final == (m == Count(f))
  }

  lemma PutStepMoves(v: Variant, f: seq<byte>, s: Sender, e: Event, m: nat)
    requires s.verdict == Running && At(f, s, m)
    ensures var s' := PutStep(v, f, s, e).0;
            var awaited := e == Received(Ack(m % 0x1_0000));
            && At(f, s', if awaited && m < Count(f) then m + 1 else m)
            && (s'.verdict == Complete <==> awaited && m == Count(f))
            && (s'.verdict == GaveUp <==> v == AsWritten && !awaited && m == Count(f))
  {
    if m < Count(f) {
      OnlyLastShort(f, m + 1);
      assert Next(m % 0x1_0000) == (m + 1) % 0x1_0000;
    }
  }

  /**
   The sender's registers hold what the history says. It completes on the ACK of the last block; as
   written, anything else in its place makes it give up.
   */
  lemma {:induction false} PutStateIs(v: Variant, f: seq<byte>, es: seq<Event>)
    requires PutConsumes(v, f, es)
    ensures var s := PutRun(v, f, es);
            && At(f, s, Moved(f, es))
            && (s.verdict == Complete <==>
                  es != [] && Moved(f, es[..|es| - 1]) == Count(f)
                  && es[|es| - 1] == Received(Ack(Count(f) % 0x1_0000)))
            && (s.verdict == GaveUp <==>
                  v == AsWritten && es != [] && Moved(f, es[..|es| - 1]) == Count(f)
                  && es[|es| - 1] != Received(Ack(Count(f) % 0x1_0000)))
  {
    if es != [] {
      var before := es[..|es| - 1];
      SingleReceiveIsLast(v, f, es);
      PutStateIs(v, f, before);
      PutStepMoves(v, f, PutRun(v, f, before), es[|es| - 1], Moved(f, before));
    }
  }

  /** What a timeout makes the sender send again, with `m` blocks read. */
  function Again(v: Variant, f: seq<byte>, m: nat): Output {
    if (if v == AsWritten then m % 0x1_0000 == 0 else m == 0) then ToServer
    else if v == AsWritten then Silent
    else ToPeer(Data(m % 0x1_0000, Block(f, m)))
  }

  lemma PutStepAnswers(v: Variant, f: seq<byte>, s: Sender, e: Event, m: nat)
    requires s.verdict == Running && At(f, s, m)
    ensures PutStep(v, f, s, e).1 ==
              if e == Received(Ack(m % 0x1_0000)) && m < Count(f)
                 && !(v == AsWritten && m * 512 >= |f|)
              then ToPeer(Data((m + 1) % 0x1_0000, Block(f, m + 1)))
              else if e.Timeout? && s.retries < 5 && !(v == AsWritten && m == Count(f))
              then Again(v, f, m)
              else Silent
  {
    assert Next(m % 0x1_0000) == (m + 1) % 0x1_0000;
    assert Block(f, m + 1) == [] <==> m * 512 >= |f|;
  }

  /**
   The sender, event by event: the ACK of the block it is at brings the next one, if there is one (and,
   as written, if it is not empty); up to five timeouts in a row repeat what `Again` says, but not in
   the single receive; nothing else is answered.
   */
  lemma {:induction false} PutAnswerIs(v: Variant, f: seq<byte>, es: seq<Event>)
    requires es != [] && PutConsumes(v, f, es)
    ensures var before, e := es[..|es| - 1], es[|es| - 1];
            var m := Moved(f, before);
            PutAnswer(v, f, es, |es| - 1) ==
              if e == Received(Ack(m % 0x1_0000)) && m < Count(f)
                 && !(v == AsWritten && m * 512 >= |f|)
              then ToPeer(Data((m + 1) % 0x1_0000, Block(f, m + 1)))
              else if e.Timeout? && Trailing(before) < 5 && !(v == AsWritten && m == Count(f))
              then Again(v, f, m)
              else Silent
  {
    var before := es[..|es| - 1];
    SingleReceiveIsLast(v, f, es);
    PutStateIs(v, f, before);
    PutAccounted(v, f, before);
    PutStepAnswers(v, f, PutRun(v, f, before), es[|es| - 1], Moved(f, before));
  }

  /** Until a packet arrives, all that a sender does is count timeouts. */
  lemma {:induction false} QuietStart(v: Variant, f: seq<byte>, es: seq<Event>)
    requires PutConsumes(v, f, es) && Packets(es) == 0
    requires es != [] ==> es[|es| - 1].Timeout?
    ensures Timeouts(es) == |es| == Trailing(es) <= 6
    ensures PutRun(v, f, es) == PUT_START.(retries := |es|, verdict := if |es| <= 5 then Running else MaxRetries)
  {
    if es != [] {
      var before := es[..|es| - 1];
      SingleReceiveIsLast(v, f, es);
      if before != [] {
        PutRunSnoc(v, f, before[..|before| - 1], before[|before| - 1]);
        assert before[..|before| - 1] + [before[|before| - 1]] == before;
      }
      QuietStart(v, f, before);
    }
  }

  /**
   A lost write request: as long as nothing has arrived, each of the first five timeouts sends the
   request to port 69 again, and the sixth ends the transfer.
   */
  lemma RequestRepeated(v: Variant, f: seq<byte>, es: seq<Event>)
    requires PutConsumes(v, f, es) && Packets(es) == 0 && es != [] && es[|es| - 1].Timeout?
    ensures PutAnswer(v, f, es, |es| - 1) == if Timeouts(es) <= 5 then ToServer else Silent
    ensures PutRun(v, f, es).verdict == if Timeouts(es) <= 5 then Running else MaxRetries
  {
    var before := es[..|es| - 1];
    QuietStart(v, f, es);
    SingleReceiveIsLast(v, f, es);
    if before != [] {
      PutRunSnoc(v, f, before[..|before| - 1], before[|before| - 1]);
      assert before[..|before| - 1] + [before[|before| - 1]] == before;
    }
    QuietStart(v, f, before);
  }

  /**
   When the sender turns to port 69: on a timeout with retries left and no block read yet. As written,
   it also does so in the middle of a transfer, whenever the number of blocks read has wrapped to 0.
   */
  lemma ToServerIff(v: Variant, f: seq<byte>, es: seq<Event>)
    requires es != [] && PutConsumes(v, f, es)
    ensures var before := es[..|es| - 1];
            var m := Moved(f, before);
            PutAnswer(v, f, es, |es| - 1) == ToServer <==>
              && es[|es| - 1].Timeout? && Trailing(before) < 5
              && if v == AsWritten then m % 0x1_0000 == 0 && m < Count(f) else m == 0
  {
    PutAnswerIs(v, f, es);
  }
}
