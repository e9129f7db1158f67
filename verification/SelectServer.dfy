/** The select server: one array of descriptors, and an index of type size_t that is stepped back
    after a removal so that the slot is looked at again. */
module SelectServer {
  import opened ClientTable
  import opened Sockets
  import opened FrameServer
  import opened PassEffects
  import opened ServerRuns

  /** One more than the largest size_t. */
  const SIZE_MODULUS: int := 0x1_0000_0000_0000_0000

  /** i++ and i-- on a size_t. */
  function Increment(i: nat): nat {
    (i + 1) % SIZE_MODULUS
  }

  function Decrement(i: nat): nat {
    if i == 0 then SIZE_MODULUS - 1 else i - 1
  }

  /** Stepping back and forth again is sound, at index 0 too, where it wraps around twice. */
  lemma StepBackAndForth(i: nat)
    requires i < SIZE_MODULUS - 1
    ensures Increment(Decrement(i)) == i && Increment(i) == i + 1
    ensures i == 0 ==> Decrement(i) == 0xffff_ffff_ffff_ffff
  {
  }

  predicate FdInSelectRange(fd: int) {
    0 <= fd < FD_SETSIZE
  }

  ghost predicate InRange(t: seq<int>) {
    forall x :: x in t ==> FdInSelectRange(x)
  }

  /** The rebuilding loop has dealt with the first i entries of t, which began as t0. */
  ghost predicate Built(t0: seq<int>, t: seq<int>, i: nat, listener: int, readfds: set<int>, maxFd: int) {
    && i <= |t| && Distinct(t)
    && (forall x :: x in t ==> x in t0)
    && (forall x :: x in t0 && FdInSelectRange(x) ==> x in t)
    && InRange(t[..i])
    && (forall x :: x in readfds <==> x == listener || x in t[..i])
    && maxFd in readfds && (forall x :: x in readfds ==> x <= maxFd)
  }

  /** With the greatest descriptor and one more, select looks at all of them. */
  lemma LooksAtAll(listener: int, t: seq<int>, readfds: set<int>, maxFd: int)
    requires forall x :: x in readfds <==> x == listener || x in t
    requires forall x :: x in readfds ==> x <= maxFd
    ensures LookedAt(maxFd + 1, readfds) == Watched(listener, t)
  {
    forall x ensures x in LookedAt(maxFd + 1, readfds) <==> x in Watched(listener, t) {
    }
  }

  lemma BuiltDrop(t0: seq<int>, t: seq<int>, i: nat, listener: int, readfds: set<int>, maxFd: int)
    requires Built(t0, t, i, listener, readfds, maxFd) && i < |t| && !FdInSelectRange(t[i])
    ensures Built(t0, SwapRemove(t, i), i, listener, readfds, maxFd)
  {
    SwapRemoveMembers(t, i);
    SwapRemoveTail(t, i);
  }

  lemma BuiltKeep(t0: seq<int>, t: seq<int>, i: nat, listener: int, readfds: set<int>, maxFd: int)
    requires Built(t0, t, i, listener, readfds, maxFd) && i < |t| && FdInSelectRange(t[i])
    ensures Built(t0, t, i + 1, listener, readfds + {t[i]}, if t[i] > maxFd then t[i] else maxFd)
  {
    assert t[..i + 1] == t[..i] + [t[i]];
  }

  class Server {
    const k: Kernel
    var clientSockets: array<int>
    var clientCount: nat
    var clientCapacity: nat
    /** How many entries all growths together have moved. */
    ghost var copied: nat

    ghost predicate Shape()
      reads this
    {
      clientSockets.Length == clientCapacity && clientCount <= clientCapacity
    }

    ghost function Table(): seq<int>
      reads this, clientSockets
      requires clientCount <= clientSockets.Length
    {
      clientSockets[..][..clientCount]
    }

    ghost predicate Valid()
      reads this, clientSockets, k
    {
      Shape() && k.Valid() && Lists(Table(), k.open) && Settled(k.sessions)
    }

    ghost function Stored(): Storage
      reads this
    {
      Storage(clientCapacity, copied)
    }

    ghost function Now(): Snapshot
      reads this, clientSockets, k
      requires clientCount <= clientSockets.Length
    {
      Snapshot(Table(), k.sessions, k.open, Stored())
    }

    constructor (k: Kernel)
      requires k.Valid() && k.open == map[] && k.sessions == []
      ensures Valid() && this.k == k && Now() == Snapshot([], [], map[], FirstStorage(Recheck))
      ensures fresh(clientSockets)
    {
      this.k := k;
      clientCapacity, clientCount := 0, 0;
      clientSockets := new int[0];
      copied := 0;
    }

    /** The count is far below the range of size_t, so i++ in a loop over the table does not wrap. */
    lemma IndexFits()
      requires Valid()
      ensures clientCount < SIZE_MODULUS - 1
    {
      DistinctBelow(Table(), INT_MAX + 1);
    }

    /** remove_client; the freed slot keeps what it held. */
    method RemoveClient(idx: nat)
      requires Shape() && idx < clientCount
      modifies this`clientCount, clientSockets
      ensures Shape() && clientCount == old(clientCount) - 1
      ensures Table() == SwapRemove(old(Table()), idx)
    {
      ghost var t := Table();
      var last := clientCount - 1;
      if idx != last {
        clientSockets[idx] := clientSockets[last];
      }
      clientCount := clientCount - 1;
      forall j | 0 <= j < last ensures Table()[j] == SwapRemove(t, idx)[j] {
        SwapRemoveAt(t, idx, j);
      }
    }

    /** close and remove_client, as both loops do for a client they drop. */
    method DropClient(idx: nat)
      requires Shape() && k.Valid() && Lists(Table(), k.open) && idx < clientCount
      modifies this`clientCount, clientSockets, k`sessions, k`open
      ensures Shape() && clientCount == old(clientCount) - 1
      ensures Table() == SwapRemove(old(Table()), idx)
      ensures k.Valid() && Lists(Table(), k.open) && old(clientSockets[idx]) in old(k.open)
      ensures k.open == old(k.open) - {old(clientSockets[idx])}
      ensures ClosedOne(old(k.sessions), k.sessions, old(k.open)[old(clientSockets[idx])])
    {
      ghost var t, cs := Table(), clientSockets[..];
      assert t[idx] == clientSockets[idx] && t[idx] in t;
      ListsWithout(t, k.open, idx);
      k.Close(clientSockets[idx]);
      assert clientSockets[..] == cs;
      RemoveClient(idx);
    }

    /** grow_clients */
    method GrowClients()
      requires Shape() && clientCount == clientCapacity
      modifies this`clientSockets, this`clientCapacity, this`copied
      ensures Shape() && clientCount < clientCapacity && fresh(clientSockets)
      ensures Table() == old(Table()) && Stored() == Room(old(Stored()), clientCount)
    {
      var newCap := if clientCapacity == 0 then 4 else clientCapacity * 2;
      var cs := clientSockets;
      ghost var t := Table();
      clientSockets := new int[newCap](i requires 0 <= i reads cs => if i < cs.Length then cs[i] else -1);
      assert Table() == t;
      copied := copied + clientCount;
      clientCapacity := newCap;
    }

    /** The loop that rebuilds the set for select, dropping any client whose descriptor is out of
        range. */
    method BuildSet() returns (readfds: set<int>, maxFd: int)
      requires Valid() && FdInSelectRange(k.listener)
      modifies this`clientCount, clientSockets, k`sessions, k`open
      ensures Valid() && InRange(Table())
      ensures forall x :: x in Table() <==> x in old(Table()) && FdInSelectRange(x)
      ensures InRange(old(Table())) ==> Now() == old(Now())
      ensures forall x :: x in readfds <==> x == k.listener || x in Table()
      ensures maxFd in readfds && forall x :: x in readfds ==> x <= maxFd
    {
      maxFd := k.listener;
      readfds := {};
      if FdInSelectRange(k.listener) {
        readfds := readfds + {k.listener};
      }
      ghost var t0 := Table();
      var i := 0;
      while i < clientCount
        invariant 0 <= i <= clientCount && Valid()
        invariant Built(t0, Table(), i, k.listener, readfds, maxFd)
        invariant InRange(t0) ==> Now() == old(Now())
        decreases clientCount - i
      {
        ghost var t, ss := Table(), k.sessions;
        IndexFits();
        StepBackAndForth(i);
        var sd := clientSockets[i];
        assert t[i] == sd && sd in t && sd in k.open;
        ghost var s, next := k.open[sd], i;
        assert sd >= 0;  // so the source's branch for a free slot is never taken
        if sd >= FD_SETSIZE {
          BuiltDrop(t0, t, i, k.listener, readfds, maxFd);
          DropClient(i);
          ClosedStaysSettled(ss, k.sessions, s);
          i := Decrement(i);
        } else {
          BuiltKeep(t0, t, i, k.listener, readfds, maxFd);
          readfds := readfds + {sd};
          if sd > maxFd {
            maxFd := sd;
          }
          next := i + 1;
        }
        assert Increment(i) == next && next <= clientCount;
        assert Built(t0, Table(), next, k.listener, readfds, maxFd);
        i := Increment(i);
      }
      assert Table()[..i] == Table();
    }

    /** Appends a client, growing the array if it is full. */
    method AddClient(fd: int)
      requires Shape()
      modifies this`clientCount, this`clientSockets, this`clientCapacity, this`copied, clientSockets
      ensures Shape() && Table() == old(Table()) + [fd]
      ensures clientSockets == old(clientSockets) || fresh(clientSockets)
      ensures Stored() == Room(old(Stored()), old(clientCount))
    {
      if clientCount == clientCapacity {
        GrowClients();
      }
      clientSockets[clientCount] := fd;
      clientCount := clientCount + 1;
      assert Table() == old(Table()) + [fd];
    }

    /** The accept part of the main loop; false if accept fails, which ends the program. A new
        client is never among those select found ready. */
    method AcceptClient(ready: set<int>) returns (ok: bool, ghost accepted: seq<int>)
      requires Valid() && FdInSelectRange(k.listener) && InRange(Table())
      requires forall x :: x in ready ==> x == k.listener || x in Table()
      modifies this`clientCount, this`clientSockets, this`clientCapacity, this`copied, clientSockets
      modifies k`sessions, k`open, k`failures
      ensures Valid() && InRange(Table())
      ensures clientSockets == old(clientSockets) || fresh(clientSockets)
      ensures Stored() == StorageAfter(old(Now()), accepted)
      ensures Table() == old(Table()) + accepted && old(k.sessions) <= k.sessions
      ensures ok ==> Admitted(Recheck, k.listener, old(Now()), ready, accepted, k.sessions)
      ensures k.failures == old(k.failures) + if ok then 0 else 1
    {
      accepted := [];
      assert Table() + [] == Table();
      if !(FdInSelectRange(k.listener) && k.listener in ready) {
        return true, [];
      }
      ghost var t, cs, ss, open := Table(), clientSockets[..], k.sessions, k.open;
      var fd := k.Accept();
      assert clientSockets[..] == cs;
      if fd == -1 {
        return false, [];
      }
      NewSessionSettled(ss, fd);
      ListsWith(t, open, fd, |ss|);
      if fd >= FD_SETSIZE {
        ghost var now := k.sessions;
        k.Close(fd);
        assert clientSockets[..] == cs;
        ClosedStaysSettled(now, k.sessions, |ss|);
        return true, [];
      }
      AddClient(fd);
      return true, [fd];
    }

    /** One client with input: true if a word was received, false if the client was dropped. */
    method ServeReady(i: nat) returns (alive: bool)
      requires Valid() && i < clientCount
      modifies this`clientCount, clientSockets, k`sessions, k`open, k`signals, k`waits
      ensures Valid()
      ensures alive ==> clientCount == old(clientCount) && Table() == old(Table()) && k.open == old(k.open)
      ensures !alive ==> clientCount == old(clientCount) - 1 && Table() == SwapRemove(old(Table()), i)
      ensures old(clientSockets[i]) in old(k.open)
      ensures !alive ==> k.open == old(k.open) - {old(clientSockets[i])}
      ensures Turn(old(k.sessions), k.sessions, old(k.open)[old(clientSockets[i])], alive)
      ensures old(CanServe(k.sessions[k.open[clientSockets[i]]])) ==> k.waits == old(k.waits)
    {
      ghost var ss, cs := k.sessions, clientSockets[..];
      var sd := clientSockets[i];
      assert Table()[i] == sd && sd in Table();
      ghost var s := k.open[sd];
      alive := ServeFrame(k, sd);
      assert clientSockets[..] == cs;
      if !alive {
        DropClient(i);
        OthersStaySettled(ss, k.sessions, s);
      }
    }

    /** A pass that began at start has reached position i, and has so far had to wait for a client only
        if one that was ready then could not be served at once. waits: how many waits there were. */
    ghost predicate Passing(start: Snapshot, ready: set<int>, waits: nat, i: nat, served: seq<int>, gone: set<int>)
      reads this, clientSockets, k
      requires clientCount <= clientSockets.Length
    {
      && i <= clientCount
      && InPass(Recheck, start, ready, Table(), i, k.sessions, k.open, served, gone)
      && (WellRead(start.sessions) && NobodyStalls(start.sessions, ready) ==> k.waits == waits)
    }

    lemma TurnSkipped(start: Snapshot, ready: set<int>, waits: nat, i: nat, served: seq<int>, gone: set<int>)
      requires Valid() && Passing(start, ready, waits, i, served, gone) && i < clientCount && clientSockets[i] !in ready
      ensures Passing(start, ready, waits, i + 1, served, gone)
    {
      PassSkips(Recheck, start.table, ready, Table(), i, served, gone);
    }

    /** The turn of the client at index i in a pass over the table. */
    method TakeTurn(i: nat, ready: set<int>, ghost start: Snapshot, ghost waits: nat,
                    ghost served: seq<int>, ghost gone: set<int>)
      returns (alive: bool, ghost served': seq<int>, ghost gone': set<int>)
      requires Valid() && i < clientCount && clientSockets[i] in ready
      requires Passing(start, ready, waits, i, served, gone)
      modifies this`clientCount, clientSockets, k`sessions, k`open, k`signals, k`waits
      ensures Valid() && clientCount == old(clientCount) - if alive then 0 else 1
      ensures Passing(start, ready, waits, if alive then i + 1 else i, served', gone')
    {
      ghost var t, ss, open := Table(), k.sessions, k.open;
      assert t[i] == clientSockets[i] && t[i] in t;
      if WellRead(start.sessions) && NobodyStalls(start.sessions, ready) {
        InPassCanServe(Recheck, start, ready, t, i, ss, open, served, gone);
      }
      alive := ServeReady(i);
      InPassTurn(Recheck, start, ready, t, i, ss, open, served, gone, k.sessions, alive);
      served', gone' := served + [t[i]], if alive then gone else gone + {t[i]};
    }

    /** The client part of the main loop: one pass over the table. served lists the clients
        served, gone those of them that were dropped. */
    method ServeClients(ready: set<int>) returns (ghost served: seq<int>, ghost gone: set<int>)
      requires Valid() && forall x :: x in ready ==> FdInSelectRange(x)
      modifies this`clientCount, clientSockets, k`sessions, k`open, k`signals, k`waits
      ensures Valid()
      ensures Pass(Table(), served) == ServePass(Recheck, old(Table()), 0, ready, gone)
      ensures PassEffect(old(k.sessions), k.sessions, served, gone)
      ensures NobodyStalls(old(k.sessions), ready) ==> k.waits == old(k.waits)
    {
      served, gone := [], {};
      ghost var start := Now();
      ghost var waits := k.waits;
      InPassBegins(Recheck, start, ready);
      var i := 0;
      while i < clientCount
        invariant 0 <= i <= clientCount && Valid()
        invariant Passing(start, ready, waits, i, served, gone)
        decreases clientCount - i
      {
        ghost var t, next := Table(), i + 1;
        IndexFits();
        StepBackAndForth(i);
        var sd := clientSockets[i];
        assert t[i] == sd && sd in t;
        if FdInSelectRange(sd) && sd in ready {
          var alive;
          alive, served, gone := TakeTurn(i, ready, start, waits, served, gone);
          if !alive {
            next := i;
            i := Decrement(i);
          }
        } else {
          TurnSkipped(start, ready, waits, i, served, gone);
        }
        assert Increment(i) == next && next <= clientCount;
        assert Passing(start, ready, waits, next, served, gone);
        i := Increment(i);
      }
      PassEnds(Recheck, start.table, ready, Table(), served, gone);
    }

    /** The rest of a turn, once a new connection has been handled. before: how things stood when
        the turn began; polled: the sessions when select returned. */
    method FinishTurn(ghost before: Snapshot, ghost polled: seq<Session>, ghost call: Call, ready: set<int>,
                      ghost accepted: seq<int>)
      returns (ghost r: RoundRecord)
      requires Valid() && InRange(Table()) && Consistent(k.listener, before) && FdInSelectRange(k.listener)
      requires call.asked == Watched(k.listener, before.table) && call.ready == ready <= call.asked
      requires AllUntouched(before.sessions, polled) && polled <= k.sessions
      requires Table() == before.table + accepted && Stored() == StorageAfter(before, accepted)
      requires Admitted(Recheck, k.listener, before, ready, accepted, k.sessions)
      modifies this`clientCount, clientSockets, k`sessions, k`open, k`signals, k`waits
      ensures Valid() && InRange(Table()) && r.call == call && r.accepted == accepted
      ensures RoundEffect(Recheck, k.listener, before, r, Now())
    {
      ghost var t, admitted := Table(), k.sessions;
      assert forall x :: x in before.table ==> x in t;
      ghost var served, gone := ServeClients(ready);
      r := RoundRecord(call, accepted, served, gone);
      SelectPassServesAll(t, 0, ready, gone);
      RoundOfParts(Recheck, k.listener, before, r, Now(), polled, admitted);
    }

    /** One turn of the main loop; false if select or accept fails, which ends the program. An
        interrupted select is a turn in which nothing was ready. */
    method Round() returns (ok: bool, ghost r: RoundRecord)
      requires Valid() && FdInSelectRange(k.listener) && InRange(Table())
      modifies this`clientCount, this`clientSockets, this`clientCapacity, this`copied, clientSockets
      modifies k`sessions, k`open, k`signals, k`waits, k`calls, k`interruptions, k`failures
      ensures Valid() && InRange(Table())
      ensures clientSockets == old(clientSockets) || fresh(clientSockets)
      ensures k.calls == old(k.calls) + [r.call] && r.call.asked == Watched(k.listener, old(Table()))
      ensures k.failures == old(k.failures) + if ok then 0 else 1
      ensures k.interruptions == old(k.interruptions) ||
        (k.interruptions == old(k.interruptions) + 1 && ok && r == RoundRecord(Call(r.call.asked, {}), [], [], {}))
      ensures ok ==> RoundEffect(Recheck, k.listener, old(Now()), r, Now())
    {
      ghost var before := Now();
      var readfds, maxFd := BuildSet();
      ghost var cs := clientSockets[..];
      LooksAtAll(k.listener, before.table, readfds, maxFd);
      var activity, interrupted, ready := k.Select(maxFd + 1, readfds);
      AllUntouchedStaySettled(before.sessions, k.sessions);
      assert clientSockets[..] == cs && Now().table == before.table;
      ghost var call := k.calls[|k.calls| - 1];
      r := RoundRecord(call, [], [], {});
      if activity < 0 {
        IdleRound(Recheck, k.listener, before, Now());
        return interrupted, r;
      }
      ghost var polled := k.sessions;
      ghost var accepted;
      ok, accepted := AcceptClient(ready);
      if ok {
        r := FinishTurn(before, polled, call, ready, accepted);
      }
    }

    /** The main loop, for a number of turns, or up to the one that ends the program. */
    method MainLoop(rounds: nat) returns (normal: bool, ghost states: seq<Snapshot>, ghost rs: seq<RoundRecord>)
      requires Valid() && FdInSelectRange(k.listener) && InRange(Table())
      requires k.calls == [] && k.failures == 0
      requires Now() == Snapshot([], [], map[], FirstStorage(Recheck))
      modifies this`clientCount, this`clientSockets, this`clientCapacity, this`copied, clientSockets
      modifies k`sessions, k`open, k`signals, k`waits, k`calls, k`interruptions, k`failures
      ensures Valid() && InRange(Table())
      ensures clientSockets == old(clientSockets) || fresh(clientSockets)
      ensures |k.calls| == |rs| + if normal then 0 else 1
      ensures |rs| < |states| && |rs| <= |k.calls|
      ensures WatchesAll(k.listener, k.calls, states)
      ensures Recorded(Recheck, k.listener, states, rs, k.calls[..|rs|], states[|rs|])
      ensures normal <==> k.failures == 0
      ensures !normal ==> k.failures == 1
      ensures normal ==> |rs| == rounds && states[rounds] == Now()
      ensures |rs| <= rounds
    {
      states, rs := [Now()], [];
      RecordedStarts(Recheck, k.listener);
      var round := 0;
      while round < rounds
        invariant Valid() && InRange(Table())
        invariant clientSockets == old(clientSockets) || fresh(clientSockets)
        invariant |rs| == round <= rounds && k.failures == 0
        invariant Recorded(Recheck, k.listener, states, rs, k.calls, Now())
      {
        ghost var before, calls := Now(), k.calls;
        var ok, r := Round();
        if !ok {
          assert k.calls[..round] == calls;
          LastCallWatches(Recheck, k.listener, states, rs, calls, before, r.call);
          return false, states, rs;
        }
        RecordedExtends(Recheck, k.listener, states, rs, calls, before, r, Now());
        states, rs := states + [Now()], rs + [r];
        round := round + 1;
      }
      assert k.calls[..round] == k.calls;
      RecordedWatchesAll(Recheck, k.listener, states, rs, k.calls, Now());
      return true, states, rs;
    }

    /** The loop after the main loop. */
    method Cleanup()
      requires Valid()
      modifies k`sessions, k`open
      ensures k.Valid() && Settled(k.sessions)
      ensures CleanedUp(0, old(k.sessions), k.sessions) && ClosedOnce(0, k.sessions)
    {
      ghost var before := Now();
      CleaningStarts(0, before);
      var i := 0;
      while i < clientCount
        invariant 0 <= i <= clientCount
        invariant k.Valid() && Cleaning(0, before, i, k.sessions, k.open)
      {
        ghost var now, open := k.sessions, k.open;
        CleaningAt(0, before, i, now, open);
        if clientSockets[i] >= 0 {
          k.Close(clientSockets[i]);
        }
        CleaningStep(0, before, i, now, open, k.sessions, k.open);
        i := i + 1;
      }
      CleaningEnds(0, before, k.sessions, k.open);
    }
  }

  /** The server from start to normal exit after a number of rounds, or to the early exit when its
      own descriptor is out of range, or select or accept fails. However the clients behave, its
      rounds make a run, in which every report of select is dealt with; every log is sound; and a
      normal exit leaves every session closed exactly once. */
  method Serve(listener: int, signals: nat, rounds: nat)
    returns (k: Kernel, normal: bool, ghost states: seq<Snapshot>, ghost rs: seq<RoundRecord>)
    ensures Run(Recheck, listener, states, rs) && Settled(k.sessions)
    ensures Frugal(states[|rs|].storage, Peak(states, rs, |rs|))
    ensures |rs| <= rounds && |k.calls| == |rs| + k.failures
    ensures forall n :: 0 <= n < |rs| ==> rs[n].call == k.calls[n]
    ensures WatchesAll(listener, k.calls, states)
    ensures normal <==> 0 <= listener < 1024 && k.failures == 0
    ensures normal ==> |rs| == rounds && CleanedUp(0, states[rounds].sessions, k.sessions)
    ensures normal ==> ClosedOnce(0, k.sessions)
  {
    k := new Kernel(listener, signals);
    normal, states, rs := FdInSelectRange(listener), [Snapshot([], [], map[], FirstStorage(Recheck))], [];
    RecordedStarts(Recheck, listener);
    if normal {
      var server := new Server(k);
      normal, states, rs := server.MainLoop(rounds);
      if normal {
        server.Cleanup();
      }
    }
  }
}
