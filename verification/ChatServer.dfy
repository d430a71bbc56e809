/** The shared array and counter of the chatroom server, and its three critical sections. */
module ChatServer {
  import opened Chatroom

  /** The descriptors that the sending loop of a client addresses in the first `n` slots, in order. */
  function Targets(slots: seq<int>, n: nat, fd: int): seq<int>
    requires n <= |slots|
  {
    if n == 0 then []
    else Targets(slots, n - 1, fd)
           + (if slots[n - 1] != 0 && slots[n - 1] != fd then [slots[n - 1]] else [])
  }

  /** The descriptors of the clients registered in the first `n` slots, but for client `c`. */
  function Others(s: Room, c: nat, n: nat): seq<int> {
    if n == 0 then []
    else Others(s, c, n - 1)
           + (if n - 1 < |s.clients| && n - 1 != c && Registered(s.clients[n - 1]) then [s.clients[n - 1].fd] else [])
  }

  /** The client with this descriptor holds the lock, in a safe room. */
  ghost predicate InLoop(s: Room, c: nat, fd: int) {
    Safe(s) && c < |s.clients| && s.clients[c].phase.Broadcasting? && s.clients[c].fd == fd
  }

  /** Though the loop compares descriptor numbers, it leaves out its own client and no other. */
  lemma {:induction false} TargetsAreOthers(s: Room, c: nat, n: nat)
    requires c < |s.clients| && InLoop(s, c, s.clients[c].fd) && n <= s.count
    ensures Targets(s.slots, n, s.clients[c].fd) == Others(s, c, n)
  {
    if n > 0 {
      TargetsAreOthers(s, c, n - 1);
      assert SlotSafe(s, c) && SlotSafe(s, n - 1);
      if n - 1 != c && Registered(s.clients[n - 1]) {
        DistinctFds(s, c, n - 1);
      }
    }
  }

  class Server {
    const sockets: array<int>
    var count: nat

    ghost predicate Valid()
      reads this
    {
      sockets.Length == CAPACITY && count <= CAPACITY
    }

    /** The shared variables are those of the room. */
    ghost predicate Mirrors(s: Room)
      reads this, sockets
    {
      sockets[..] == s.slots && count == s.count
    }

    constructor ()
      ensures Valid() && fresh(sockets) && Mirrors(START)
    {
      sockets := new int[CAPACITY](_ => 0);
      count := 0;
    }

    /** Lines 93-97: the registering step of the interleaved model, on the shared variables. */
    method Register(fd: int) returns (index: nat)
      requires Valid() && count < CAPACITY
      modifies this, sockets
      ensures Valid()
      ensures index == old(count) && count == old(count) + 1
      ensures sockets[..] == old(sockets[..])[index := fd]
      ensures forall s: Room :: old(Mirrors(s)) && s.pending == Some(fd) && Enabled(s, Label.Register) ==>
                Mirrors(Step(s, Label.Register))
    {
      sockets[count] := fd;
      index := count;
      count := count + 1;
    }

    /** Lines 38-40: the clearing step. */
    method Deregister(index: nat)
      requires Valid() && index < CAPACITY
      modifies sockets
      ensures sockets[..] == old(sockets[..])[index := 0]
      ensures forall s: Room :: old(Mirrors(s)) && Enabled(s, Label.Deregister(index)) ==>
                Mirrors(Step(s, Label.Deregister(index)))
    {
      sockets[index] := 0;
    }

    /**
     Lines 47-53; the result lists the calls to `send`. In a safe room they go to the other registered
     clients.
     */
    method Broadcast(fd: int) returns (sent: seq<int>)
      requires Valid()
      ensures sent == Targets(sockets[..], count, fd)
      ensures forall s: Room, c: nat :: Mirrors(s) && InLoop(s, c, fd) ==> sent == Others(s, c, count)
    {
      sent := [];
      var i := 0;
      while i < count
        invariant i <= count
        invariant sent == Targets(sockets[..], i, fd)
      {
        if sockets[i] != 0 && sockets[i] != fd {
          sent := sent + [sockets[i]];
        }
        i := i + 1;
      }
      forall s: Room, c: nat | Mirrors(s) && InLoop(s, c, fd)
        ensures sent == Others(s, c, count)
      {
        TargetsAreOthers(s, c, count);
      }
    }
  }

  /** `send` to each descriptor of a list in turn. */
  function DeliverAll(s: Room, fds: seq<int>, message: Message): (r: Room)
    ensures r == s.(inbox := r.inbox)
  {
    if fds == [] then s
    else Deliver(DeliverAll(s, fds[..|fds| - 1], message), fds[|fds| - 1], message)
  }

  function Repeat(l: Label, n: nat): seq<Label> {
    seq(n, _ => l)
  }

  lemma {:induction false} RunSnoc(s: Room, trace: seq<Label>, l: Label)
    ensures Run(s, trace + [l]) == Step(Run(s, trace), l)
    decreases trace
  {
    if trace == [] {
      assert Run(Step(s, l), [l][1..]) == Step(s, l);
      assert trace + [l] == [l];
    } else {
      RunSnoc(Step(s, trace[0]), trace[1..], l);
      assert (trace + [l])[1..] == trace[1..] + [l];
    }
  }

  /** The room when the loop of client `c` has made its `send` calls for the first `n` slots. */
  function AfterSends(s: Room, c: nat, n: nat, message: Message): Room
    requires c < |s.clients| && n <= |s.slots|
  {
    SetPhase(DeliverAll(s, Targets(s.slots, n, s.clients[c].fd), message), c, Broadcasting(message, n))
  }

  lemma OneMoreSend(s: Room, c: nat, n: nat, message: Message)
    requires c < |s.clients| && n < s.count <= |s.slots|
    ensures Step(AfterSends(s, c, n, message), SendNext(c)) == AfterSends(s, c, n + 1, message)
  {
    var fd := s.clients[c].fd;
    var before, after := Targets(s.slots, n, fd), Targets(s.slots, n + 1, fd);
    var t, t' := DeliverAll(s, before, message), DeliverAll(s, after, message);
    var now := AfterSends(s, c, n, message);
    if s.slots[n] != 0 && s.slots[n] != fd {
      assert after[..|before|] == before;
      assert t' == Deliver(t, s.slots[n], message);
    } else {
      assert after == before;
    }
    assert SendTo(now, c, n, message) == t'.(clients := now.clients);
    var client := s.clients[c].(phase := Broadcasting(message, n + 1));
    assert now.clients[c := client] == s.clients[c := client];
  }

  /**
   The loop of `Broadcast` is the sending steps of the interleaved model: `n` of them, from the
   moment the lock is taken, make exactly the `send` calls that the loop makes for `n` slots.
   */
  lemma {:induction false} LoopIsSteps(s: Room, c: nat, n: nat)
    requires c < |s.clients| && s.clients[c].phase.Broadcasting? && s.clients[c].phase.i == 0
    requires n <= s.count <= |s.slots|
    ensures Run(s, Repeat(SendNext(c), n)) == AfterSends(s, c, n, s.clients[c].phase.message)
  {
    var message := s.clients[c].phase.message;
    if n == 0 {
      assert s.clients[c := s.clients[c].(phase := Broadcasting(message, 0))] == s.clients;
    } else {
      LoopIsSteps(s, c, n - 1);
      assert Repeat(SendNext(c), n) == Repeat(SendNext(c), n - 1) + [SendNext(c)];
      RunSnoc(s, Repeat(SendNext(c), n - 1), SendNext(c));
      OneMoreSend(s, c, n - 1, message);
    }
  }
}
