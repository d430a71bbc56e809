/**
 What the chatroom's threads can always still do: nobody is stuck behind the lock, a client's thread
 goes on after each broadcast until its peer hangs up, and every descriptor is closed in the end.
 */
module ChatProgress {
  import opened Chatroom

  /** The thread is in its loop. */
  predicate Listening(client: Client) {
    client.phase.Receiving? || client.phase.Holding? || client.phase.Broadcasting?
  }

  /** In the run, `recv` tells the thread of client `c` that its peer is gone. */
  predicate HangsUp(s: Room, trace: seq<Label>, c: nat)
    decreases trace
  {
    trace != [] &&
    ((trace[0] == Hangup(c) && Enabled(s, trace[0])) || HangsUp(Step(s, trace[0]), trace[1..], c))
  }

  lemma {:induction false} ListensFrom(s: Room, trace: seq<Label>, c: nat)
    requires c < |Run(s, trace).clients|
    ensures Listening(Run(s, trace).clients[c]) <==>
            (c < |s.clients| ==> Listening(s.clients[c])) && !HangsUp(s, trace, c)
    decreases trace
  {
    if trace != [] {
      ListensFrom(Step(s, trace[0]), trace[1..], c);
    }
  }

  /** A client's thread stays in its loop, whatever it relays, if and only if its peer has not hung up. */
  lemma ListensIff(trace: seq<Label>, c: nat)
    requires c < |Run(START, trace).clients|
    ensures Listening(Run(START, trace).clients[c]) <==> !HangsUp(START, trace, c)
  {
    ListensFrom(START, trace, c);
  }

  /** Each descriptor in the kernel's table is that of a client not yet closed, or the pending one. */
  ghost predicate OpenOwned(s: Room) {
    forall fd <- s.owner ::
      var k := s.owner[fd];
      || (k < |s.clients| && s.clients[k].fd == fd && s.clients[k].phase != Closed)
      || (k == |s.clients| && s.pending == Some(fd))
  }

  lemma OpenOwnedStep(s: Room, l: Label)
    requires Safe(s) && OpenOwned(s)
    ensures OpenOwned(Step(s, l))
  {
    if l.SendNext? && Enabled(s, l) {
      SendEffect(s, l.c);
    }
  }

  lemma {:induction false} OpenOwnedRun(s: Room, trace: seq<Label>)
    requires Safe(s) && OpenOwned(s)
    ensures OpenOwned(Run(s, trace))
    decreases trace
  {
    if trace != [] {
      SafeStep(s, trace[0]);
      OpenOwnedStep(s, trace[0]);
      OpenOwnedRun(Step(s, trace[0]), trace[1..]);
    }
  }

  /** No descriptor leaks: the open ones are those of the clients not yet closed, and the pending one. */
  lemma OpenIff(trace: seq<Label>, fd: int)
    ensures var s := Run(START, trace);
            fd in s.owner <==>
            s.pending == Some(fd) ||
            exists c :: 0 <= c < |s.clients| && s.clients[c].fd == fd && s.clients[c].phase != Closed
  {
    var s := Run(START, trace);
    SafeRun(START, trace);
    OpenOwnedRun(START, trace);
    forall c | 0 <= c < |s.clients| && s.clients[c].phase != Closed
      ensures s.clients[c].fd in s.owner
    {
      assert SlotSafe(s, c);
    }
  }

  /** While a broadcast is on, all clients registered before it. */
  ghost predicate JoinedBefore(s: Room) {
    s.holder.Some? ==> forall d :: 0 <= d < |s.clients| ==> s.clients[d].joined < |s.log|
  }

  ghost predicate Sound(s: Room) {
    Safe(s) && InOrder(s) && JoinedBefore(s)
  }

  lemma JoinedBeforeStep(s: Room, l: Label)
    requires Sound(s)
    ensures JoinedBefore(Step(s, l))
  {
    forall d | 0 <= d < |s.clients|
      ensures s.clients[d].joined <= |s.log|
    {
      assert StreamInOrder(s, d);
    }
    if l.SendNext? && Enabled(s, l) {
      SendEffect(s, l.c);
    }
  }

  lemma {:induction false} SoundRun(s: Room, trace: seq<Label>)
    requires Sound(s)
    ensures Sound(Run(s, trace))
    decreases trace
  {
    if trace != [] {
      JoinedBeforeStep(s, trace[0]);
      InOrderRun(s, [trace[0]]);
      assert Run(s, [trace[0]]) == Run(Step(s, trace[0]), [trace[0]][1..]);
      SoundRun(Step(s, trace[0]), trace[1..]);
    }
  }

  /** What the threads do by themselves: no connection, message or hangup from outside. */
  predicate Inside(l: Label) {
    !l.Accept? && !l.Receive? && !l.Hangup?
  }

  ghost predicate AllInside(t: seq<Label>) {
    forall l <- t :: Inside(l)
  }

  lemma {:induction false} RunConcat(s: Room, a: seq<Label>, b: seq<Label>)
    ensures Run(s, a + b) == Run(Run(s, a), b)
    decreases a
  {
    if a == [] {
      assert a + b == b;
    } else {
      RunConcat(Step(s, a[0]), a[1..], b);
      assert (a + b)[1..] == a[1..] + b;
    }
  }

  lemma RunOne(s: Room, l: Label)
    ensures Run(s, [l]) == Step(s, l)
  {
    assert Run(s, [l]) == Run(Step(s, l), [l][1..]);
  }

  /** The room once client `c` is back in `recv` and the lock is free, with nothing else changed. */
  ghost predicate BackInRecv(s: Room, s': Room, c: nat)
    requires c < |s.clients|
  {
    && s'.clients == s.clients[c := s.clients[c].(phase := Receiving)]
    && s'.holder == None && s'.log == s.log && s'.pending == s.pending
  }

  /** The loop that holds the lock runs to its end. */
  lemma {:induction false} Finish(s: Room, c: nat) returns (t: seq<Label>)
    requires Sound(s) && c < |s.clients| && s.clients[c].phase.Broadcasting?
    ensures AllInside(t) && BackInRecv(s, Run(s, t), c) && Sound(Run(s, t))
    decreases s.count - s.clients[c].phase.i
  {
    assert SlotSafe(s, c);
    if s.clients[c].phase.i < s.count {
      var s' := Step(s, SendNext(c));
      SendEffect(s, c);
      RunOne(s, SendNext(c));
      SoundRun(s, [SendNext(c)]);
      var rest := Finish(s', c);
      t := [SendNext(c)] + rest;
      assert t[1..] == rest;
    } else {
      t := [Unlock(c)];
      RunOne(s, Unlock(c));
      SoundRun(s, t);
    }
  }

  /** Whoever holds the lock lets it go. */
  lemma FreeLock(s: Room) returns (t: seq<Label>)
    requires Sound(s)
    ensures var s' := Run(s, t);
            && AllInside(t) && Sound(s') && s'.holder == None
            && s'.log == s.log && s'.pending == s.pending && |s'.clients| == |s.clients|
            && (forall d :: 0 <= d < |s.clients| ==>
                  s'.clients[d] == if s.holder == Some(d) then s.clients[d].(phase := Receiving) else s.clients[d])
  {
    if s.holder.Some? {
      t := Finish(s, s.holder.value);
    } else {
      t := [];
    }
  }

  ghost predicate EndsWith(stream: seq<Message>, message: Message) {
    stream != [] && stream[|stream| - 1] == message
  }

  /** The last broadcast is the last thing that every other registered client was sent. */
  ghost predicate Heeded(s: Room, c: nat, message: Message) {
    && |s.clients| <= |s.inbox|
    && forall d :: 0 <= d < |s.clients| && d != c && Registered(s.clients[d]) ==> EndsWith(s.inbox[d], message)
  }

  lemma LastIsHeeded(s: Room, c: nat, message: Message)
    requires Sound(s) && s.holder == None && s.log != [] && s.log[|s.log| - 1] == Entry(c, message)
    requires forall d :: 0 <= d < |s.clients| ==> s.clients[d].joined < |s.log|
    ensures Heeded(s, c, message)
  {
    forall d | 0 <= d < |s.clients| && d != c && Registered(s.clients[d])
      ensures EndsWith(s.inbox[d], message)
    {
      assert StreamInOrder(s, d);
      LastHeard(d, s.log, s.clients[d].joined);
    }
  }

  /** A thread with a message broadcasts it to all others and is back in `recv`. */
  lemma Broadcasts(s: Room, c: nat) returns (t: seq<Label>)
    requires Sound(s) && c < |s.clients| && (s.clients[c].phase.Holding? || s.clients[c].phase.Broadcasting?)
    ensures var s' := Run(s, t);
            && AllInside(t) && Sound(s') && s'.holder == None && s'.pending == s.pending
            && |s'.clients| == |s.clients| && s'.clients[c].phase == Receiving
            && (forall d :: 0 <= d < |s.clients| && d != c ==>
                  s'.clients[d] == if s.holder == Some(d) then s.clients[d].(phase := Receiving) else s.clients[d])
            && Heeded(s', c, s.clients[c].phase.message)
  {
    assert SlotSafe(s, c);
    forall d | 0 <= d < |s.clients|
      ensures s.clients[d].joined <= |s.log|
    {
      assert StreamInOrder(s, d);
    }
    var message := s.clients[c].phase.message;
    if s.clients[c].phase.Broadcasting? {
      t := Finish(s, c);
      LastIsHeeded(Run(s, t), c, message);
    } else {
      var free := FreeLock(s);
      var s1 := Run(s, free);
      RunOne(s1, Lock(c));
      SoundRun(s1, [Lock(c)]);
      var s2 := Step(s1, Lock(c));
      var finish := Finish(s2, c);
      t := free + ([Lock(c)] + finish);
      RunConcat(s, free, [Lock(c)] + finish);
      RunConcat(s1, [Lock(c)], finish);
      LastIsHeeded(Run(s, t), c, message);
    }
  }

  lemma SoundStart(trace: seq<Label>)
    ensures Sound(Run(START, trace))
  {
    SoundRun(START, trace);
  }

  /**
   Every message gets through: from every reachable room where a client's thread has one, or is about
   to receive one, the threads can bring it to all other registered clients, as the last thing in
   their streams, and the thread back to `recv`, without any hangup.
   */
  lemma GetsThrough(trace: seq<Label>, c: nat, message: Message) returns (t: seq<Label>)
    requires var s := Run(START, trace);
             && c < |s.clients|
             && (|| (s.clients[c].phase.Receiving? && message != [])
                 || (s.clients[c].phase.Holding? && s.clients[c].phase.message == message)
                 || (s.clients[c].phase.Broadcasting? && s.clients[c].phase.message == message))
    ensures var s, s' := Run(START, trace), Run(START, trace + t);
            && (forall l <- t :: Inside(l) || (s.clients[c].phase.Receiving? && l == Receive(c, message)))
            && |s'.clients| == |s.clients| && s'.clients[c].phase == Receiving
            && (forall d :: 0 <= d < |s.clients| ==> Registered(s'.clients[d]) == Registered(s.clients[d]))
            && Heeded(s', c, message)
  {
    var s := Run(START, trace);
    SoundStart(trace);
    if s.clients[c].phase.Receiving? {
      var receive := [Receive(c, message)];
      RunOne(s, receive[0]);
      SoundRun(s, receive);
      var rest := Broadcasts(Run(s, receive), c);
      t := receive + rest;
      RunConcat(s, receive, rest);
    } else {
      t := Broadcasts(s, c);
    }
    RunConcat(START, trace, t);
    forall d | 0 <= d < |s.clients|
      ensures Registered(Run(s, t).clients[d]) == Registered(s.clients[d])
    {
      assert SlotSafe(s, d);
    }
  }

  /** In `recv`, or gone for good. */
  predicate Settled(client: Client) {
    client.phase.Receiving? || client.phase.Closed?
  }

  function Unsettled(clients: seq<Client>): nat {
    if clients == [] then 0
    else Unsettled(clients[..|clients| - 1]) + (if Settled(clients[|clients| - 1]) then 0 else 1)
  }

  lemma {:induction false} FewerUnsettled(before: seq<Client>, after: seq<Client>, c: int)
    requires |after| == |before| && -1 <= c < |before|
    requires forall d :: 0 <= d < |before| && Settled(before[d]) ==> Settled(after[d])
    requires c >= 0 ==> Settled(after[c]) && !Settled(before[c])
    ensures Unsettled(after) + (if c >= 0 then 1 else 0) <= Unsettled(before)
  {
    if before != [] {
      var k := |before| - 1;
      FewerUnsettled(before[..k], after[..k], if c == k then -1 else c);
    }
  }

  /** One client settles, and no other is unsettled by it. */
  ghost predicate OneSettles(s: Room, s': Room, c: nat) {
    && Sound(s') && s'.pending == s.pending
    && |s'.clients| == |s.clients| && c < |s.clients|
    && Settled(s'.clients[c]) && !Settled(s.clients[c])
    && (forall d :: 0 <= d < |s.clients| && Settled(s.clients[d]) ==> Settled(s'.clients[d]))
    && (forall d :: 0 <= d < |s.clients| ==> Listening(s.clients[d]) == Listening(s'.clients[d]))
  }

  lemma SettleOne(s: Room, c: nat) returns (t: seq<Label>)
    requires Sound(s) && c < |s.clients| && !Settled(s.clients[c])
    ensures AllInside(t) && OneSettles(s, Run(s, t), c)
  {
    forall d | 0 <= d < |s.clients|
      ensures s.holder == Some(d) ==> s.clients[d].phase.Broadcasting?
    {
      assert SlotSafe(s, d);
    }
    match s.clients[c].phase {
      case Leaving =>
        var free := FreeLock(s);
        var s1 := Run(s, free);
        var close := Departs(s1, c);
        t := free + close;
        RunConcat(s, free, close);
      case Closing =>
        t := [Close(c)];
        RunOne(s, Close(c));
        SoundRun(s, t);
      case _ =>
        t := Broadcasts(s, c);
    }
  }

  /** A thread whose peer is gone clears its slot and closes its descriptor. */
  lemma Departs(s: Room, c: nat) returns (t: seq<Label>)
    requires Sound(s) && c < |s.clients| && s.clients[c].phase == Leaving && s.holder == None
    ensures var s' := Run(s, t);
            && AllInside(t) && Sound(s') && s'.holder == None && s'.pending == s.pending
            && |s'.clients| == |s.clients| <= |s'.slots|
            && s'.clients[c].phase == Closed && s'.slots[c] == 0 && s.clients[c].fd !in s'.owner
            && (forall d :: 0 <= d < |s.clients| && d != c ==> s'.clients[d] == s.clients[d])
  {
    t := [Deregister(c), Close(c)];
    RunConcat(s, [Deregister(c)], [Close(c)]);
    assert [Deregister(c)] + [Close(c)] == t;
    RunOne(s, Deregister(c));
    RunOne(Step(s, Deregister(c)), Close(c));
    SoundRun(s, t);
    assert SlotSafe(Run(s, t), c);
  }

  ghost predicate Quiet(s: Room) {
    && s.holder == None
    && (s.pending.Some? ==> |s.clients| == CAPACITY)
    && (forall c :: 0 <= c < |s.clients| ==> Settled(s.clients[c]))
  }

  lemma {:induction false} QuietFrom(s: Room) returns (t: seq<Label>)
    requires Sound(s)
    ensures AllInside(t) && Quiet(Run(s, t)) && |s.clients| <= |Run(s, t).clients|
    ensures forall c :: 0 <= c < |s.clients| ==> Listening(s.clients[c]) == Listening(Run(s, t).clients[c])
    decreases Unsettled(s.clients)
  {
    if c :| 0 <= c < |s.clients| && !Settled(s.clients[c]) {
      var first := SettleOne(s, c);
      var s' := Run(s, first);
      FewerUnsettled(s.clients, s'.clients, c);
      var rest := QuietFrom(s');
      t := first + rest;
      RunConcat(s, first, rest);
    } else {
      t := if s.pending.Some? && |s.clients| < CAPACITY then [Register] else [];
      if t != [] {
        RunOne(s, Register);
      }
    }
  }

  /** The descriptor is that of a client in `recv`. */
  ghost predicate InRecv(s: Room, fd: int) {
    exists c :: 0 <= c < |s.clients| && s.clients[c].fd == fd && s.clients[c].phase == Receiving
  }

  /**
   No deadlock: from every reachable room the threads alone can come to rest. Then every accepted
   connection is registered while there are slots, each client whose peer has not hung up is in `recv`,
   each other one is closed, and the open descriptors are exactly those of the clients in `recv` (and
   the one connection that found no slot).
   */
  lemma ComesToRest(trace: seq<Label>) returns (t: seq<Label>)
    ensures var s, s' := Run(START, trace), Run(START, trace + t);
            && AllInside(t) && s'.holder == None && |s.clients| <= |s'.clients|
            && (s'.pending.Some? ==> |s'.clients| == 1024)
            && (forall c :: 0 <= c < |s'.clients| ==>
                  s'.clients[c].phase == if HangsUp(START, trace, c) then Closed else Receiving)
            && (forall fd :: fd in s'.owner <==> s'.pending == Some(fd) || InRecv(s', fd))
  {
    var s := Run(START, trace);
    SoundStart(trace);
    t := QuietFrom(s);
    RunConcat(START, trace, t);
    var s' := Run(START, trace + t);
    forall c | 0 <= c < |s'.clients|
      ensures s'.clients[c].phase == if HangsUp(START, trace, c) then Closed else Receiving
    {
      assert Settled(s'.clients[c]);
      ListensIff(trace + t, c);
      HangsUpInside(START, trace, t, c);
    }
    forall fd: int
      ensures fd in s'.owner <==> s'.pending == Some(fd) || InRecv(s', fd)
    {
      OpenIff(trace + t, fd);
      assert forall c :: 0 <= c < |s'.clients| ==> Settled(s'.clients[c]);
    }
  }

  /** The threads' own steps hang nobody up. */
  lemma {:induction false} HangsUpInside(s: Room, trace: seq<Label>, t: seq<Label>, c: nat)
    requires AllInside(t)
    ensures HangsUp(s, trace + t, c) == HangsUp(s, trace, c)
    decreases |trace| + |t|
  {
    if trace != [] {
      HangsUpInside(Step(s, trace[0]), trace[1..], t, c);
      assert (trace + t)[1..] == trace[1..] + t;
    } else if t != [] {
      assert t[0] in t && AllInside(t[1..]);
      HangsUpInside(Step(s, t[0]), [], t[1..], c);
      assert [] + t[1..] == t[1..] && trace + t == t;
    }
  }

  /**
   Nobody is kept out: while there are slots and no other connection is being registered, a new
   connection gets the next slot, and its stream starts empty at the end of the log.
   */
  lemma Joins(trace: seq<Label>, fd: int) returns (t: seq<Label>)
    requires var s := Run(START, trace);
             fd > 0 && fd !in s.owner && s.pending == None && |s.clients| < 1024
    ensures var s, s' := Run(START, trace), Run(START, trace + t);
            && (forall l <- t :: Inside(l) || l == Accept(fd))
            && s'.log == s.log && s'.count == |s'.clients| == |s.clients| + 1
            && s'.clients[|s.clients|] == Client(fd, Receiving, |s.log|, 0, [])
            && |s.slots| == 1024 == |s'.slots| && s'.slots[|s.clients|] == fd
            && |s'.inbox| == |s'.clients| && s'.inbox[|s.clients|] == []
  {
    var s := Run(START, trace);
    SoundStart(trace);
    var free := FreeLock(s);
    var s1 := Run(s, free);
    OwnersStay(s, free);
    var s2 := Step(s1, Accept(fd));
    t := free + ([Accept(fd)] + [Register]);
    RunOne(s1, Accept(fd));
    RunOne(s2, Register);
    RunConcat(s1, [Accept(fd)], [Register]);
    RunConcat(s, free, [Accept(fd)] + [Register]);
    RunConcat(START, trace, t);
    SoundStart(trace + t);
    var s' := Run(START, trace + t);
    assert StreamInOrder(s', |s.clients|) && SlotSafe(s', |s.clients|);
  }

  /**
   A peer that hangs up is done with: its slot is cleared, its descriptor number is free again, and
   nobody else's registration changes.
   */
  lemma GoesAway(trace: seq<Label>, c: nat) returns (t: seq<Label>)
    requires var s := Run(START, trace); c < |s.clients| && s.clients[c].phase == Receiving
    ensures var s, s' := Run(START, trace), Run(START, trace + t);
            && (forall l <- t :: Inside(l) || l == Hangup(c))
            && |s'.clients| == |s.clients| <= |s'.slots|
            && s'.clients[c].phase == Closed && s'.slots[c] == 0 && s.clients[c].fd !in s'.owner
            && (forall d :: 0 <= d < |s.clients| && d != c ==>
                  Registered(s'.clients[d]) == Registered(s.clients[d]))
  {
    var s := Run(START, trace);
    SoundStart(trace);
    var hangup := [Hangup(c)];
    RunOne(s, hangup[0]);
    SoundRun(s, hangup);
    var s1 := Run(s, hangup);
    var free := FreeLock(s1);
    var s2 := Run(s1, free);
    var close := Departs(s2, c);
    t := hangup + (free + close);
    RunConcat(s1, free, close);
    RunConcat(s, hangup, free + close);
    RunConcat(START, trace, t);
    forall d | 0 <= d < |s.clients| && d != c
      ensures Registered(Run(s, t).clients[d]) == Registered(s.clients[d])
    {
      assert SlotSafe(s1, d);
    }
  }

  /** The threads' own steps open no descriptor. */
  lemma {:induction false} OwnersStay(s: Room, t: seq<Label>)
    requires AllInside(t)
    ensures forall fd <- Run(s, t).owner :: fd in s.owner
    decreases t
  {
    if t != [] {
      assert t[0] in t && AllInside(t[1..]);
      OwnersStay(Step(s, t[0]), t[1..]);
    }
  }
}
