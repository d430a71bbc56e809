/**
 The chatroom server as interleaved steps: the accepting main thread, one thread per client, the
 kernel's descriptor table and `g_mutex`. A client is known by its slot, which is never reused; its
 descriptor number may be reused once closed.
 */
module Chatroom {
  const CAPACITY := 1024

  type Message = seq<int>

  datatype Option<T> = None | Some(value: T)

  /**
   Where a client's thread is: in `recv`, with a message and waiting for the lock, in the sending
   loop at slot `i`, told that the peer is gone, past the clearing of its slot, or finished.
   */
  datatype Phase =
    | Receiving | Holding(message: Message) | Broadcasting(message: Message, i: nat)
    | Leaving | Closing | Closed

  /**
   `joined` and `left` are the lengths of the log when the slot was filled and cleared; `received`
   lists what `recv` has given the client's thread.
   */
  datatype Client = Client(fd: int, phase: Phase, joined: nat, left: nat, received: seq<Message>)

  /** One broadcast: the client that sent it, and the bytes. */
  datatype Entry = Entry(sender: nat, message: Message)

  /**
   `slots` and `count` are `g_sockets` and `g_count`; `pending` is a descriptor accepted and not yet
   registered; `owner` says which connection an open descriptor number belongs to; `inbox` is the
   stream each connection has been sent; `log` lists the broadcasts in the order the lock was taken.
   */
  datatype Room = Room(slots: seq<int>, count: nat, clients: seq<Client>, pending: Option<int>,
                       holder: Option<nat>, owner: map<int, nat>, inbox: seq<seq<Message>>, log: seq<Entry>)

  datatype Label =
    | Accept(fd: int) | Register
    | Receive(c: nat, message: Message) | Hangup(c: nat)
    | Lock(c: nat) | SendNext(c: nat) | Unlock(c: nat)
    | Deregister(c: nat) | Close(c: nat)

  const START := Room(seq(CAPACITY, i => 0), 0, [], None, None, map[], [], [])

  function SetPhase(s: Room, c: nat, phase: Phase): Room
    requires c < |s.clients|
  {
    s.(clients := s.clients[c := s.clients[c].(phase := phase)])
  }

  /** `send` on a descriptor number reaches the connection that holds that number now, if any. */
  function Deliver(s: Room, fd: int, message: Message): Room {
    if fd in s.owner && s.owner[fd] < |s.inbox| then
      s.(inbox := s.inbox[s.owner[fd] := s.inbox[s.owner[fd]] + [message]])
    else s
  }

  /** When a step can happen. A free lock is what `pthread_mutex_lock` waits for. */
  predicate Enabled(s: Room, l: Label) {
    match l
    case Accept(fd) => s.pending == None && fd > 0 && fd !in s.owner
    case Register => s.pending.Some? && s.holder == None && s.count < CAPACITY <= |s.slots|
    case Receive(c, message) => c < |s.clients| && s.clients[c].phase == Receiving && message != []
    case Hangup(c) => c < |s.clients| && s.clients[c].phase == Receiving
    case Lock(c) => c < |s.clients| && s.clients[c].phase.Holding? && s.holder == None
    case SendNext(c) =>
      c < |s.clients| && s.clients[c].phase.Broadcasting? && s.clients[c].phase.i < s.count <= |s.slots|
    case Unlock(c) => c < |s.clients| && s.clients[c].phase.Broadcasting? && s.count <= s.clients[c].phase.i
    case Deregister(c) => c < |s.clients| && c < |s.slots| && s.clients[c].phase == Leaving && s.holder == None
    case Close(c) => c < |s.clients| && s.clients[c].phase == Closing
  }

  function SendTo(s: Room, c: nat, i: nat, message: Message): Room
    requires c < |s.clients| && i < |s.slots|
  {
    if s.slots[i] != 0 && s.slots[i] != s.clients[c].fd then Deliver(s, s.slots[i], message) else s
  }

  function Step(s: Room, l: Label): Room {
    if !Enabled(s, l) then s
    else match l
      case Accept(fd) =>
        s.(pending := Some(fd), owner := s.owner[fd := |s.clients|], inbox := s.inbox + [[]])
      case Register =>
        s.(slots := s.slots[s.count := s.pending.value], count := s.count + 1, pending := None,
           clients := s.clients + [Client(s.pending.value, Receiving, |s.log|, 0, [])])
      case Receive(c, message) =>
        var client := s.clients[c];
        s.(clients := s.clients[c := client.(phase := Holding(message), received := client.received + [message])])
      case Hangup(c) => SetPhase(s, c, Leaving)
      case Lock(c) =>
        var message := s.clients[c].phase.message;
        SetPhase(s, c, Broadcasting(message, 0)).(holder := Some(c), log := s.log + [Entry(c, message)])
      case SendNext(c) =>
        var Broadcasting(message, i) := s.clients[c].phase;
        SetPhase(SendTo(s, c, i, message), c, Broadcasting(message, i + 1))
      case Unlock(c) => SetPhase(s, c, Receiving).(holder := None)
      case Deregister(c) =>
        s.(slots := s.slots[c := 0],
           clients := s.clients[c := s.clients[c].(phase := Closing, left := |s.log|)])
      case Close(c) => SetPhase(s, c, Closed).(owner := s.owner - {s.clients[c].fd})
  }

  function Run(s: Room, trace: seq<Label>): Room
    decreases trace
  {
    if trace == [] then s else Run(Step(s, trace[0]), trace[1..])
  }

  /** The slot of the client is filled. */
  predicate Registered(c: Client) {
    c.phase != Closing && c.phase != Closed
  }

  /** What keeps descriptor reuse safe. */
  ghost predicate Safe(s: Room) {
    && s.count == |s.clients| <= CAPACITY == |s.slots|
    && |s.inbox| == |s.clients| + (if s.pending.Some? then 1 else 0)
    && (forall c :: 0 <= c < |s.clients| ==> SlotSafe(s, c))
    && (forall i :: |s.clients| <= i < CAPACITY ==> s.slots[i] == 0)
    && (s.pending.Some? ==>
          s.pending.value > 0 && s.pending.value in s.owner && s.owner[s.pending.value] == |s.clients|)
    && (s.holder.Some? ==> s.holder.value < |s.clients| && s.clients[s.holder.value].phase.Broadcasting?)
  }

  ghost predicate SlotSafe(s: Room, c: nat)
    requires c < |s.clients| && c < |s.slots|
  {
    var client := s.clients[c];
    && client.fd > 0
    && s.slots[c] == (if Registered(client) then client.fd else 0)
    && (client.phase != Closed ==> client.fd in s.owner && s.owner[client.fd] == c)
    && (client.phase.Broadcasting? ==> s.holder == Some(c) && client.phase.i <= s.count)
  }

  /** No two open clients share a descriptor number. */
  lemma DistinctFds(s: Room, c: nat, d: nat)
    requires Safe(s) && c < |s.clients| && d < |s.clients| && c != d
    requires s.clients[c].phase != Closed && s.clients[d].phase != Closed
    ensures s.clients[c].fd != s.clients[d].fd
  {
    assert SlotSafe(s, c) && SlotSafe(s, d);
  }

  lemma TargetIs(s: Room, c: nat)
    requires Safe(s) && c < |s.clients| && Enabled(s, SendNext(c))
    ensures var i := s.clients[c].phase.i;
            s.slots[i] != 0 && s.slots[i] != s.clients[c].fd <==> i != c && Registered(s.clients[i])
  {
    var i := s.clients[c].phase.i;
    assert SlotSafe(s, c) && SlotSafe(s, i);
    if i != c && Registered(s.clients[i]) {
      DistinctFds(s, c, i);
    }
  }

  /** What one turn of the sending loop does: the client at its slot gets the message, if another's. */
  lemma SendEffect(s: Room, c: nat)
    requires Safe(s) && Enabled(s, SendNext(c))
    ensures var Broadcasting(message, i) := s.clients[c].phase;
            Step(s, SendNext(c)) == SetPhase(s, c, Broadcasting(message, i + 1)).(
              inbox := if i != c && Registered(s.clients[i]) then s.inbox[i := s.inbox[i] + [message]]
                       else s.inbox)
  {
    assert SlotSafe(s, c) && SlotSafe(s, s.clients[c].phase.i);
    TargetIs(s, c);
  }

  lemma SafeClose(s: Room, c: nat)
    requires Safe(s) && Enabled(s, Close(c))
    ensures Safe(Step(s, Close(c)))
  {
    var s' := Step(s, Close(c));
    assert SlotSafe(s, c);
    forall d | 0 <= d < |s.clients|
      ensures SlotSafe(s', d)
    {
      assert SlotSafe(s, d);
      if d != c && s.clients[d].phase != Closed {
        DistinctFds(s, c, d);
      }
    }
  }

  lemma SafeSend(s: Room, c: nat)
    requires Safe(s) && Enabled(s, SendNext(c))
    ensures Safe(Step(s, SendNext(c)))
  {
    var s' := Step(s, SendNext(c));
    SendEffect(s, c);
    forall d | 0 <= d < |s.clients|
      ensures SlotSafe(s', d)
    {
      assert SlotSafe(s, d);
    }
  }

  lemma SafeOther(s: Room, l: Label)
    requires Safe(s) && Enabled(s, l) && !l.Close? && !l.SendNext?
    ensures Safe(Step(s, l))
  {
    var s' := Step(s, l);
    assert l.Unlock? ==> SlotSafe(s, l.c);
    forall c | 0 <= c < |s.clients|
      ensures SlotSafe(s', c)
    {
      assert SlotSafe(s, c);
    }
  }

  lemma SafeStep(s: Room, l: Label)
    requires Safe(s)
    ensures Safe(Step(s, l))
  {
    if Enabled(s, l) {
      if l.Close? {
        SafeClose(s, l.c);
      } else if l.SendNext? {
        SafeSend(s, l.c);
      } else {
        SafeOther(s, l);
      }
    }
  }

  lemma {:induction false} SafeRun(s: Room, trace: seq<Label>)
    requires Safe(s)
    ensures Safe(Run(s, trace))
    decreases trace
  {
    if trace != [] {
      SafeStep(s, trace[0]);
      SafeRun(Step(s, trace[0]), trace[1..]);
    }
  }

  /**
   Descriptor reuse is safe, in every interleaving: filled slots are pairwise distinct, the filled
   slot i holds an open descriptor of the client registered there, and what the sending loop
   addresses from client c is such a descriptor of a client other than c.
   */
  lemma DescriptorSafety(trace: seq<Label>)
    ensures var s := Run(START, trace);
            && |s.slots| == 1024 && s.count == |s.clients|
            && (forall i, j :: 0 <= i < j < 1024 && s.slots[i] != 0 ==> s.slots[i] != s.slots[j])
            && (forall i :: 0 <= i < 1024 && s.slots[i] != 0 ==>
                  i < |s.clients| && Registered(s.clients[i])
                  && s.slots[i] == s.clients[i].fd
                  && s.slots[i] in s.owner && s.owner[s.slots[i]] == i)
            && (forall c :: 0 <= c < |s.clients| && Enabled(s, SendNext(c)) ==>
                  var i := s.clients[c].phase.i;
                  s.slots[i] != 0 && s.slots[i] != s.clients[c].fd <==>
                  i != c && Registered(s.clients[i]))
  {
    var s := Run(START, trace);
    SafeRun(START, trace);
    forall i | 0 <= i < CAPACITY && s.slots[i] != 0
      ensures i < |s.clients| && SlotSafe(s, i)
    {
    }
    forall c | 0 <= c < |s.clients| && Enabled(s, SendNext(c))
      ensures var i := s.clients[c].phase.i;
              s.slots[i] != 0 && s.slots[i] != s.clients[c].fd <==> i != c && Registered(s.clients[i])
    {
      TargetIs(s, c);
    }
  }

  /** The messages of a stretch of the log that client `c` is to get: all but its own. */
  function Heard(c: nat, log: seq<Entry>): seq<Message> {
    if log == [] then []
    else
      var last := log[|log| - 1];
      Heard(c, log[..|log| - 1]) + (if last.sender == c then [] else [last.message])
  }

  /**
   How far into the log client `c` has been served: to where it left, or to the end, short of the
   broadcast in progress when the loop has not reached its slot.
   */
  function Served(s: Room, c: nat): nat
    requires c < |s.clients|
  {
    if !Registered(s.clients[c]) then s.clients[c].left
    else if s.holder.Some? && s.holder.value < |s.clients|
            && s.clients[s.holder.value].phase.Broadcasting? && s.clients[s.holder.value].phase.i <= c
            && s.log != [] then |s.log| - 1
    else |s.log|
  }

  /** Each client's stream is the log over its interval, without its own messages. */
  ghost predicate InOrder(s: Room) {
    && |s.clients| <= |s.inbox|
    && (forall c :: 0 <= c < |s.clients| ==> StreamInOrder(s, c))
    && (s.pending.Some? ==> |s.clients| < |s.inbox| && s.inbox[|s.clients|] == [])
    && (s.holder.Some? && s.holder.value < |s.clients| && s.clients[s.holder.value].phase.Broadcasting? ==>
          s.log != [] && s.log[|s.log| - 1] == Entry(s.holder.value, s.clients[s.holder.value].phase.message))
  }

  ghost predicate StreamInOrder(s: Room, c: nat)
    requires c < |s.clients| && c < |s.inbox|
  {
    && s.clients[c].joined <= Served(s, c) <= |s.log|
    && s.inbox[c] == Heard(c, s.log[s.clients[c].joined..Served(s, c)])
  }

  lemma LockInOrder(s: Room, c: nat)
    requires Safe(s) && InOrder(s) && Enabled(s, Lock(c))
    ensures InOrder(Step(s, Lock(c)))
  {
    var s' := Step(s, Lock(c));
    forall d | 0 <= d < |s.clients|
      ensures StreamInOrder(s', d)
    {
      assert StreamInOrder(s, d);
      assert Served(s', d) == Served(s, d);
      assert s'.log[s.clients[d].joined..Served(s, d)] == s.log[s.clients[d].joined..Served(s, d)];
    }
  }

  /** The broadcast in progress reaches slot `i`: the client there gets the last entry, or skips its own. */
  lemma SendInOrder(s: Room, c: nat)
    requires Safe(s) && InOrder(s) && Enabled(s, SendNext(c))
    ensures InOrder(Step(s, SendNext(c)))
  {
    SendEffect(s, c);
    assert SlotSafe(s, c);
    forall d | 0 <= d < |s.clients|
      ensures StreamInOrder(Step(s, SendNext(c)), d)
    {
      SendKeepsStream(s, c, d);
    }
  }

  lemma SendKeepsStream(s: Room, c: nat, d: nat)
    requires Safe(s) && InOrder(s) && Enabled(s, SendNext(c)) && d < |s.clients|
    ensures d < |Step(s, SendNext(c)).clients| == |s.clients| <= |Step(s, SendNext(c)).inbox|
    ensures StreamInOrder(Step(s, SendNext(c)), d)
  {
    var s' := Step(s, SendNext(c));
    var i := s.clients[c].phase.i;
    SendEffect(s, c);
    assert SlotSafe(s, c) && StreamInOrder(s, d);
    if d == i && Registered(s.clients[i]) {
      LastHeard(i, s.log, s.clients[i].joined);
    } else {
      assert Served(s', d) == Served(s, d);
    }
  }

  lemma LastHeard(c: nat, log: seq<Entry>, joined: nat)
    requires joined < |log|
    ensures var last := log[|log| - 1];
            Heard(c, log[joined..|log|])
            == Heard(c, log[joined..|log| - 1]) + (if last.sender == c then [] else [last.message])
  {
    assert log[joined..|log|][..|log| - joined - 1] == log[joined..|log| - 1];
  }

  /** The steps that neither send nor lengthen the log. */
  lemma QuietInOrder(s: Room, l: Label)
    requires Safe(s) && InOrder(s) && Enabled(s, l)
    requires !l.Lock? && !l.SendNext? && !l.Register? && !l.Accept?
    ensures InOrder(Step(s, l))
  {
    var s' := Step(s, l);
    assert SlotSafe(s, l.c);
    forall d | 0 <= d < |s.clients|
      ensures StreamInOrder(s', d)
    {
      assert StreamInOrder(s, d) && SlotSafe(s, d);
      assert Served(s', d) == Served(s, d);
    }
  }

  lemma JoinInOrder(s: Room, l: Label)
    requires Safe(s) && InOrder(s) && Enabled(s, l) && (l.Register? || l.Accept?)
    ensures InOrder(Step(s, l))
  {
    var s' := Step(s, l);
    forall d | 0 <= d < |s.clients|
      ensures StreamInOrder(s', d)
    {
      assert StreamInOrder(s, d);
      assert Served(s', d) == Served(s, d);
    }
    if l.Register? {
      assert s'.log[|s.log|..|s.log|] == [];
    }
  }

  lemma {:induction false} InOrderRun(s: Room, trace: seq<Label>)
    requires Safe(s) && InOrder(s)
    ensures Safe(Run(s, trace)) && InOrder(Run(s, trace))
    decreases trace
  {
    if trace != [] {
      var l := trace[0];
      SafeStep(s, l);
      if Enabled(s, l) {
        match l
        case Lock(c) => LockInOrder(s, c);
        case SendNext(c) => SendInOrder(s, c);
        case Register => JoinInOrder(s, l);
        case Accept(_) => JoinInOrder(s, l);
        case _ => QuietInOrder(s, l);
      }
      InOrderRun(Step(s, l), trace[1..]);
    }
  }

  /**
   Total-order broadcast: in every interleaving there is one log such that what each client has been
   sent is that log, cut to the interval in which it was registered (short of the broadcast in
   progress if its slot is still to come), without its own messages.
   */
  lemma TotalOrder(trace: seq<Label>, c: nat)
    requires c < |Run(START, trace).clients|
    ensures var s := Run(START, trace);
            && c < |s.inbox| && s.clients[c].joined <= Served(s, c) <= |s.log|
            && s.inbox[c] == Heard(c, s.log[s.clients[c].joined..Served(s, c)])
            && (Registered(s.clients[c]) ==>
                  Served(s, c) == |s.log| || (s.holder.Some? && Served(s, c) == |s.log| - 1))
  {
    InOrderRun(START, trace);
    assert StreamInOrder(Run(START, trace), c);
  }

  /** A stream is what the log has at the given positions. */
  ghost predicate ReadsAt(stream: seq<Message>, log: seq<Entry>, ps: seq<nat>) {
    |stream| == |ps| && forall k :: 0 <= k < |ps| ==> ps[k] < |log| && stream[k] == log[ps[k]].message
  }

  /** Positions common to both lists come in the same order. */
  ghost predicate SameOrder(ps: seq<nat>, qs: seq<nat>) {
    forall i, j, k, l ::
      0 <= i < |ps| && 0 <= j < |ps| && 0 <= k < |qs| && 0 <= l < |qs| && ps[i] == qs[k] && ps[j] == qs[l]
      ==> (i < j <==> k < l)
  }

  ghost predicate Ascending(ps: seq<nat>, bound: nat) {
    && (forall k :: 0 <= k < |ps| ==> ps[k] < bound)
    && (forall j, k :: 0 <= j < k < |ps| ==> ps[j] < ps[k])
  }

  /** The log positions a client's stream is made of. */
  function Positions(c: nat, log: seq<Entry>, lo: nat, hi: nat): seq<nat>
    requires lo <= hi <= |log|
    decreases hi - lo
  {
    if lo == hi then []
    else Positions(c, log, lo, hi - 1) + (if log[hi - 1].sender == c then [] else [hi - 1])
  }

  lemma {:induction false} HeardAt(c: nat, log: seq<Entry>, lo: nat, hi: nat)
    requires lo <= hi <= |log|
    ensures ReadsAt(Heard(c, log[lo..hi]), log, Positions(c, log, lo, hi))
    ensures Ascending(Positions(c, log, lo, hi), hi)
    decreases hi - lo
  {
    if lo < hi {
      HeardAt(c, log, lo, hi - 1);
      assert log[lo..hi][..hi - lo - 1] == log[lo..hi - 1];
    }
  }

  /** The log positions that make up the stream of client `c`: its interval, without its own. */
  function StreamPositions(s: Room, c: nat): seq<nat>
    requires c < |s.clients| && s.clients[c].joined <= Served(s, c) <= |s.log|
  {
    Positions(c, s.log, s.clients[c].joined, Served(s, c))
  }

  /**
   Two clients never see two broadcasts, both sent to each of them, in opposite orders: each stream
   is the log read at the client's own positions, those ascend, and common ones come in one order.
   */
  lemma CommonOrder(trace: seq<Label>, c: nat, d: nat)
    requires var s := Run(START, trace); c < |s.clients| && d < |s.clients|
    ensures var s := Run(START, trace);
            && c < |s.inbox| && d < |s.inbox|
            && s.clients[c].joined <= Served(s, c) <= |s.log|
            && s.clients[d].joined <= Served(s, d) <= |s.log|
            && (var ps, qs := StreamPositions(s, c), StreamPositions(s, d);
                && ReadsAt(s.inbox[c], s.log, ps) && Ascending(ps, Served(s, c))
                && ReadsAt(s.inbox[d], s.log, qs) && Ascending(qs, Served(s, d))
                && SameOrder(ps, qs))
  {
    var s := Run(START, trace);
    TotalOrder(trace, c);
    TotalOrder(trace, d);
    HeardAt(c, s.log, s.clients[c].joined, Served(s, c));
    HeardAt(d, s.log, s.clients[d].joined, Served(s, d));
    AscendingAgree(StreamPositions(s, c), StreamPositions(s, d), Served(s, c), Served(s, d));
  }

  lemma AscendingAgree(ps: seq<nat>, qs: seq<nat>, m: nat, n: nat)
    requires Ascending(ps, m) && Ascending(qs, n)
    ensures SameOrder(ps, qs)
  {
    forall i, j, k, l | 0 <= i < |ps| && 0 <= j < |ps| && 0 <= k < |qs| && 0 <= l < |qs|
                        && ps[i] == qs[k] && ps[j] == qs[l]
      ensures i < j <==> k < l
    {
      assert i < j ==> ps[i] < ps[j];
      assert j < i ==> ps[j] < ps[i];
    }
  }

  /** The messages that client `c` broadcast, in the order of the log. */
  function Authored(c: nat, log: seq<Entry>): seq<Message> {
    if log == [] then []
    else
      var last := log[|log| - 1];
      Authored(c, log[..|log| - 1]) + (if last.sender == c then [last.message] else [])
  }

  lemma AuthoredSnoc(c: nat, log: seq<Entry>, e: Entry)
    ensures Authored(c, log + [e]) == Authored(c, log) + (if e.sender == c then [e.message] else [])
  {
    assert (log + [e])[..|log|] == log;
  }

  lemma {:induction false} AuthoredByNone(c: nat, log: seq<Entry>)
    requires forall e <- log :: e.sender != c
    ensures Authored(c, log) == []
  {
    if log != [] {
      assert log[|log| - 1] in log;
      AuthoredByNone(c, log[..|log| - 1]);
    }
  }

  /** The message received and still waiting for the lock. */
  function Held(client: Client): seq<Message> {
    if client.phase.Holding? then [client.phase.message] else []
  }

  /** What a client's thread received is what it broadcast, and then what it holds. */
  ghost predicate Relayed(s: Room) {
    && (forall e <- s.log :: e.sender < |s.clients|)
    && (forall c :: 0 <= c < |s.clients| ==> ClientRelayed(s, c))
  }

  ghost predicate ClientRelayed(s: Room, c: nat)
    requires c < |s.clients|
  {
    s.clients[c].received == Authored(c, s.log) + Held(s.clients[c])
  }

  lemma RelayedStep(s: Room, l: Label)
    requires Relayed(s)
    ensures Relayed(Step(s, l))
  {
    var s' := Step(s, l);
    forall c | 0 <= c < |s'.clients|
      ensures ClientRelayed(s', c)
    {
      if l.Register? && c == |s.clients| {
        AuthoredByNone(c, s.log);
      } else {
        assert ClientRelayed(s, c);
        ClientRelayedStep(s, l, c);
      }
    }
  }

  lemma ClientRelayedStep(s: Room, l: Label, c: nat)
    requires c < |s.clients| && ClientRelayed(s, c)
    ensures ClientRelayed(Step(s, l), c)
  {
    ReceivedStep(s, l, c);
    HeldStep(s, l, c);
    LogStep(s, l);
    if Enabled(s, l) && l.Lock? {
      AuthoredSnoc(c, s.log, Entry(l.c, s.clients[l.c].phase.message));
    }
  }

  lemma HeldStep(s: Room, l: Label, c: nat)
    requires c < |s.clients|
    ensures var locks := l == Lock(c) && Enabled(s, l);
            && |s.clients| <= |Step(s, l).clients|
            && (Brought(s, l, c) != [] ==> Held(s.clients[c]) == [])
            && (locks ==> Held(s.clients[c]) == [s.clients[c].phase.message])
            && Held(Step(s, l).clients[c]) ==
               if Brought(s, l, c) != [] then Brought(s, l, c) else if locks then [] else Held(s.clients[c])
  {
  }

  lemma LogStep(s: Room, l: Label)
    ensures Step(s, l).log ==
            if l.Lock? && Enabled(s, l) then s.log + [Entry(l.c, s.clients[l.c].phase.message)] else s.log
  {
  }

  lemma {:induction false} RelayedRun(s: Room, trace: seq<Label>)
    requires Relayed(s)
    ensures Relayed(Run(s, trace))
    decreases trace
  {
    if trace != [] {
      RelayedStep(s, trace[0]);
      RelayedRun(Step(s, trace[0]), trace[1..]);
    }
  }

  /** What a step brings to the thread of client `c`. */
  function Brought(s: Room, l: Label, c: nat): seq<Message> {
    if l.Receive? && l.c == c && Enabled(s, l) then [l.message] else []
  }

  /** What `recv` gives the thread of client `c` in a run. */
  function Arrived(s: Room, trace: seq<Label>, c: nat): seq<Message>
    decreases trace
  {
    if trace == [] then [] else Brought(s, trace[0], c) + Arrived(Step(s, trace[0]), trace[1..], c)
  }

  function ReceivedBy(s: Room, c: nat): seq<Message> {
    if c < |s.clients| then s.clients[c].received else []
  }

  lemma ReceivedStep(s: Room, l: Label, c: nat)
    ensures ReceivedBy(Step(s, l), c) == ReceivedBy(s, c) + Brought(s, l, c)
  {
  }

  lemma {:induction false} ReceivedIsArrived(s: Room, trace: seq<Label>, c: nat)
    ensures ReceivedBy(Run(s, trace), c) == ReceivedBy(s, c) + Arrived(s, trace, c)
    decreases trace
  {
    if trace != [] {
      ReceivedStep(s, trace[0], c);
      ReceivedIsArrived(Step(s, trace[0]), trace[1..], c);
    }
  }

  /**
   Nothing is invented, lost or reordered on the way into the log: in every interleaving the messages
   that arrived from a client are exactly what the log has of that client, in order, followed by the
   one message its thread may be holding; and every entry of the log is some client's.
   */
  lemma LogIsReceived(trace: seq<Label>, c: nat)
    requires c < |Run(START, trace).clients|
    ensures var s := Run(START, trace);
            && Arrived(START, trace, c) == Authored(c, s.log) + Held(s.clients[c])
            && (forall e <- s.log :: e.sender < |s.clients|)
  {
    RelayedRun(START, trace);
    ReceivedIsArrived(START, trace, c);
    assert ClientRelayed(Run(START, trace), c);
  }
}
