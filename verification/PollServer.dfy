/** The poll server: two parallel arrays, one with an extra slot in front for the listening
    socket, kept in step through accepts, growth and swap removal. */
module PollServer {
  import opened ClientTable
  import opened Sockets
  import opened FrameServer
  import opened PassEffects
  import opened ServerRuns

  datatype Event = PollIn | PollHup | PollErr

  datatype PollFd = PollFd(fd: int, events: set<Event>, revents: set<Event>)

  const CLEARED := PollFd(-1, {}, {})

  // ----- The two arrays, as sequences

  /** cs is client_sockets and fs is fds: the slots in use agree, the slots above the count are
      cleared, and the first slot of fs is the listening socket. */
  ghost predicate Mirrors(listener: int, cs: seq<int>, fs: seq<PollFd>, count: nat) {
    && |fs| == |cs| + 1 && count <= |cs|
    && fs[0].fd == listener && fs[0].events == {PollIn}
    && (forall i :: 0 <= i < count ==> SlotInUse(cs, fs, i))
    && (forall i :: count <= i < |cs| ==> SlotCleared(cs, fs, i))
  }

  predicate SlotInUse(cs: seq<int>, fs: seq<PollFd>, i: nat)
    requires i < |cs| && i + 1 < |fs|
  {
    fs[i + 1].fd == cs[i] && fs[i + 1].events == {PollIn}
  }

  predicate SlotCleared(cs: seq<int>, fs: seq<PollFd>, i: nat)
    requires i < |cs| && i + 1 < |fs|
  {
    cs[i] == -1 && fs[i + 1] == CLEARED
  }

  /** The clients in slots from i on with input pending are those in ready. */
  ghost predicate ReadyFrom(fs: seq<PollFd>, count: nat, i: nat, ready: set<int>)
    requires count < |fs|
  {
    forall j :: i <= j < count ==> HasInput(fs, j, ready)
  }

  ghost predicate HasInput(fs: seq<PollFd>, i: nat, ready: set<int>)
    requires i + 1 < |fs|
  {
    PollIn in fs[i + 1].revents <==> fs[i + 1].fd in ready
  }

  function SocketsWithout(cs: seq<int>, count: nat, i: nat): seq<int>
    requires i < count <= |cs|
  {
    cs[i := cs[count - 1]][count - 1 := -1]
  }

  function FdsWithout(fs: seq<PollFd>, count: nat, i: nat): seq<PollFd>
    requires i < count < |fs|
  {
    fs[i + 1 := fs[count]][count := CLEARED]
  }

  /** Removal keeps the arrays in step ... */
  lemma RemovalMirrors(listener: int, cs: seq<int>, fs: seq<PollFd>, count: nat, i: nat)
    requires Mirrors(listener, cs, fs, count) && i < count
    ensures Mirrors(listener, SocketsWithout(cs, count, i), FdsWithout(fs, count, i), count - 1)
  {
    var cs', fs' := SocketsWithout(cs, count, i), FdsWithout(fs, count, i);
    forall j | 0 <= j < count - 1 ensures SlotInUse(cs', fs', j) {
      assert SlotInUse(cs, fs, if j == i then count - 1 else j);
    }
    forall j | count - 1 <= j < |cs'| ensures SlotCleared(cs', fs', j) {
      assert j == count - 1 || SlotCleared(cs, fs, j);
    }
  }

  /** ... and is a swap removal of the table. */
  lemma RemovalSwaps(cs: seq<int>, count: nat, i: nat)
    requires i < count <= |cs|
    ensures SocketsWithout(cs, count, i)[..count - 1] == SwapRemove(cs[..count], i)
  {
    forall j | 0 <= j < count - 1
      ensures SocketsWithout(cs, count, i)[..count - 1][j] == SwapRemove(cs[..count], i)[j]
    {
      SwapRemoveAt(cs[..count], i, j);
    }
  }

  function FdsServed(fs: seq<PollFd>, i: nat): seq<PollFd>
    requires i + 1 < |fs|
  {
    fs[i + 1 := fs[i + 1].(revents := {})]
  }

  lemma ServedMirrors(listener: int, cs: seq<int>, fs: seq<PollFd>, count: nat, i: nat)
    requires Mirrors(listener, cs, fs, count) && i < count
    ensures Mirrors(listener, cs, FdsServed(fs, i), count)
  {
    var fs' := FdsServed(fs, i);
    forall j | 0 <= j < count ensures SlotInUse(cs, fs', j) {
      assert SlotInUse(cs, fs, j);
    }
    forall j | count <= j < |cs| ensures SlotCleared(cs, fs', j) {
      assert SlotCleared(cs, fs, j);
    }
  }

  lemma ReadyAfterTurn(fs: seq<PollFd>, count: nat, i: nat, ready: set<int>)
    requires i < count < |fs| && ReadyFrom(fs, count, i, ready)
    ensures ReadyFrom(fs, count, i + 1, ready)
    ensures ReadyFrom(FdsServed(fs, i), count, i + 1, ready)
    ensures ReadyFrom(FdsWithout(fs, count, i), count - 1, i + 1, ready)
  {
    forall j | i + 1 <= j < count
      ensures HasInput(FdsServed(fs, i), j, ready)
      ensures j < count - 1 ==> HasInput(FdsWithout(fs, count, i), j, ready)
    {
      assert HasInput(fs, j, ready);
    }
  }

  /** The client in slot i, and what the loop tests of it. */
  lemma CurrentSlot(k: Kernel, cs: seq<int>, fs: seq<PollFd>, count: nat, i: nat, ready: set<int>)
    requires k.Valid() && Mirrors(k.listener, cs, fs, count) && i < count && Lists(cs[..count], k.open)
    requires ReadyFrom(fs, count, i, ready)
    ensures cs[i] in k.open && cs[i] >= 0 && cs[..count][i] == cs[i]
    ensures PollIn in fs[i + 1].revents <==> cs[i] in ready
  {
    assert cs[..count][i] in cs[..count];
    assert SlotInUse(cs, fs, i) && HasInput(fs, i, ready);
  }

  class Server {
    const k: Kernel
    var clientSockets: array<int>
    var fds: array<PollFd>
    var clientCount: nat
    var clientCapacity: nat
    /** How many entries all growths together have moved. */
    ghost var copied: nat

    ghost predicate Shape()
      reads this, clientSockets, fds
    {
      && clientSockets.Length == clientCapacity && clientCapacity > 0
      && Mirrors(k.listener, clientSockets[..], fds[..], clientCount)
    }

    ghost function Table(): seq<int>
      reads this, clientSockets
      requires clientCount <= clientSockets.Length
    {
      clientSockets[..][..clientCount]
    }

    ghost predicate Valid()
      reads this, clientSockets, fds, k
    {
      Shape() && k.Valid() && Lists(Table(), k.open) && Settled(k.sessions)
    }

    ghost function Stored(): Storage
      reads this
    {
      Storage(clientCapacity, copied)
    }

    ghost function Now(): Snapshot
      reads this, clientSockets, k
      requires clientCount <= clientSockets.Length
    {
      Snapshot(Table(), k.sessions, k.open, Stored())
    }

    /** initialize_pollfds */
    constructor (k: Kernel)
      requires k.Valid() && k.open == map[] && k.sessions == []
      ensures Valid() && this.k == k && Now() == Snapshot([], [], map[], FirstStorage(SkipSwapped))
      ensures fresh(clientSockets) && fresh(fds)
    {
      this.k := k;
      clientCapacity := 4;
      clientCount := 0;
      clientSockets := new int[4](_ => -1);
      fds := new PollFd[5](i => if i == 0 then PollFd(k.listener, {PollIn}, {}) else CLEARED);
      copied := 0;
    }

    /** The array part of handle_client_disconnection. */
    method RemoveSlot(i: nat)
      requires Shape() && i < clientCount
      modifies this`clientCount, clientSockets, fds
      ensures Shape() && clientCount == old(clientCount) - 1
      ensures Table() == SwapRemove(old(Table()), i)
      ensures fds[..] == FdsWithout(old(fds[..]), old(clientCount), i)
    {
      ghost var cs, fs := clientSockets[..], fds[..];
      RemovalMirrors(k.listener, cs, fs, clientCount, i);
      RemovalSwaps(cs, clientCount, i);
      var last := clientCount - 1;
      if i != last {
        clientSockets[i] := clientSockets[last];
        fds[i + 1] := fds[last + 1];
      }
      clientSockets[last] := -1;
      fds[last + 1] := CLEARED;
      clientCount := clientCount - 1;
      assert clientSockets[..] == SocketsWithout(cs, last + 1, i);
      assert fds[..] == FdsWithout(fs, last + 1, i);
    }

    /** handle_client_disconnection */
    method HandleClientDisconnection(i: nat)
      requires Shape() && k.Valid() && Lists(Table(), k.open) && i < clientCount
      modifies this`clientCount, clientSockets, fds, k`sessions, k`open
      ensures Shape() && clientCount == old(clientCount) - 1
      ensures Table() == SwapRemove(old(Table()), i)
      ensures fds[..] == FdsWithout(old(fds[..]), old(clientCount), i)
      ensures k.Valid() && Lists(Table(), k.open) && old(clientSockets[i]) in old(k.open)
      ensures k.open == old(k.open) - {old(clientSockets[i])}
      ensures ClosedOne(old(k.sessions), k.sessions, old(k.open)[old(clientSockets[i])])
    {
      ghost var t, cs, fs := Table(), clientSockets[..], fds[..];
      assert t[i] == clientSockets[i] && t[i] in t;
      ListsWithout(t, k.open, i);
      k.Close(clientSockets[i]);
      assert clientSockets[..] == cs && fds[..] == fs;
      RemoveSlot(i);
    }

    /** The body of the loop of handle_client_data, for a client with input. */
    method HandleReady(i: nat) returns (alive: bool)
      requires Valid() && i < clientCount
      modifies this`clientCount, clientSockets, fds, k`sessions, k`open, k`signals, k`waits
      ensures Valid()
      ensures alive ==> clientCount == old(clientCount) && Table() == old(Table()) && k.open == old(k.open)
      ensures alive ==> fds[..] == FdsServed(old(fds[..]), i)
      ensures !alive ==> clientCount == old(clientCount) - 1 && Table() == SwapRemove(old(Table()), i)
      ensures !alive ==> fds[..] == FdsWithout(old(fds[..]), old(clientCount), i)
      ensures old(clientSockets[i]) in old(k.open)
      ensures !alive ==> k.open == old(k.open) - {old(clientSockets[i])}
      ensures Turn(old(k.sessions), k.sessions, old(k.open)[old(clientSockets[i])], alive)
      ensures old(CanServe(k.sessions[k.open[clientSockets[i]]])) ==> k.waits == old(k.waits)
    {
      ghost var ss, cs, fs := k.sessions, clientSockets[..], fds[..];
      var fd := clientSockets[i];
      assert Table()[i] == fd && fd in Table();
      ghost var s := k.open[fd];
      alive := ServeFrame(k, fd);
      assert clientSockets[..] == cs && fds[..] == fs;
      if !alive {
        HandleClientDisconnection(i);
        OthersStaySettled(ss, k.sessions, s);
      } else {
        ServedMirrors(k.listener, cs, fs, clientCount, i);
        fds[i + 1] := fds[i + 1].(revents := {});
        assert fds[..] == FdsServed(fs, i);
        assert clientSockets[..] == cs;
      }
    }

    /** A pass that began at start has reached position i, and has so far had to wait for a client only
        if one that was ready then could not be served at once. waits: how many waits there were. */
    ghost predicate Passing(start: Snapshot, ready: set<int>, waits: nat, i: nat, served: seq<int>, gone: set<int>)
      reads this, clientSockets, k
      requires clientCount <= clientSockets.Length
    {
      && i <= clientCount
      && InPass(SkipSwapped, start, ready, Table(), i, k.sessions, k.open, served, gone)
      && (WellRead(start.sessions) && NobodyStalls(start.sessions, ready) ==> k.waits == waits)
    }

    lemma TurnSkipped(start: Snapshot, ready: set<int>, waits: nat, i: nat, served: seq<int>, gone: set<int>)
      requires Valid() && Passing(start, ready, waits, i, served, gone) && i < clientCount && clientSockets[i] !in ready
      ensures Passing(start, ready, waits, i + 1, served, gone)
    {
      PassSkips(SkipSwapped, start.table, ready, Table(), i, served, gone);
    }

    /** The turn of the client at index i in a pass over the table; next is where the pass goes on,
        unless it is over. */
    method TakeTurn(i: nat, ghost ready: set<int>, ghost start: Snapshot, ghost waits: nat,
                    ghost served: seq<int>, ghost gone: set<int>)
      returns (ghost next: nat, ghost served': seq<int>, ghost gone': set<int>)
      requires Valid() && i < clientCount && clientSockets[i] in ready && ReadyFrom(fds[..], clientCount, i, ready)
      requires Passing(start, ready, waits, i, served, gone)
      modifies this`clientCount, clientSockets, fds, k`sessions, k`open, k`signals, k`waits
      ensures Valid() && ReadyFrom(fds[..], clientCount, i + 1, ready)
      ensures i <= clientCount <= old(clientCount) && next == if i + 1 <= clientCount then i + 1 else clientCount
      ensures Passing(start, ready, waits, next, served', gone')
    {
      ghost var t, ss, open := Table(), k.sessions, k.open;
      assert t[i] == clientSockets[i] && t[i] in t;
      ReadyAfterTurn(fds[..], clientCount, i, ready);
      if WellRead(start.sessions) && NobodyStalls(start.sessions, ready) {
        InPassCanServe(SkipSwapped, start, ready, t, i, ss, open, served, gone);
      }
      var alive := HandleReady(i);
      InPassTurn(SkipSwapped, start, ready, t, i, ss, open, served, gone, k.sessions, alive);
      served', gone' := served + [t[i]], if alive then gone else gone + {t[i]};
      next := if alive then i + 1 else NextAfterRemoval(SkipSwapped, t, i);
    }

    /** handle_client_data, after poll has found the clients in ready to have input: one pass over
        the table. served lists the clients served, gone those of them it had to drop. */
    method HandleClientData(ghost ready: set<int>) returns (ghost served: seq<int>, ghost gone: set<int>)
      requires Valid() && ReadyFrom(fds[..], clientCount, 0, ready)
      modifies this`clientCount, clientSockets, fds, k`sessions, k`open, k`signals, k`waits
      ensures Valid()
      ensures Pass(Table(), served) == ServePass(SkipSwapped, old(Table()), 0, ready, gone)
      ensures PassEffect(old(k.sessions), k.sessions, served, gone)
      ensures NobodyStalls(old(k.sessions), ready) ==> k.waits == old(k.waits)
    {
      served, gone := [], {};
      ghost var start := Now();
      ghost var waits := k.waits;
      InPassBegins(SkipSwapped, start, ready);
      var i := 0;
      ghost var pos := 0;
      while i < clientCount
        invariant 0 <= i <= clientCount + 1 && pos == (if i <= clientCount then i else clientCount)
        invariant Valid() && ReadyFrom(fds[..], clientCount, i, ready)
        invariant Passing(start, ready, waits, pos, served, gone)
        decreases clientCount - i
      {
        CurrentSlot(k, clientSockets[..], fds[..], clientCount, i, ready);
        ReadyAfterTurn(fds[..], clientCount, i, ready);
        if clientSockets[i] != -1 && PollIn in fds[i + 1].revents {
          pos, served, gone := TakeTurn(i, ready, start, waits, served, gone);
        } else {
          TurnSkipped(start, ready, waits, i, served, gone);
          pos := i + 1;
        }
        i := i + 1;
      }
      PassEnds(SkipSwapped, start.table, ready, Table(), served, gone);
    }

    /** poll(2) over the slots in use, with no timeout. ready: the descriptors with input. */
    method Poll() returns (activity: int, ghost ready: set<int>)
      requires Valid()
      modifies fds, k`sessions, k`calls, k`interruptions, k`failures
      ensures Valid() && AllUntouched(old(k.sessions), k.sessions) && clientSockets[..] == old(clientSockets[..])
      ensures ReadyFrom(fds[..], clientCount, 0, ready) && (PollIn in fds[0].revents <==> k.listener in ready)
      ensures forall x :: x in ready ==> x == k.listener || x in Table()
      ensures k.calls == old(k.calls) + [Call(Watched(k.listener, Table()), ready)]
      ensures k.interruptions + k.failures == old(k.interruptions + k.failures) + if activity < 0 then 1 else 0
    {
      ghost var cs := clientSockets[..];
      var asked := Asked(fds[..], clientCount + 1);
      AskedIsWatched(k.listener, cs, fds[..], clientCount);
      var interrupted, found;
      activity, interrupted, found := k.Wait(asked);
      ready := found;
      AllUntouchedStaySettled(old(k.sessions), k.sessions);
      Report(found);
    }

    /** The kernel sets POLLIN in the slots of the descriptors in ready, and other bits at will. */
    method Report(ready: set<int>)
      requires Shape()
      modifies fds
      ensures Shape() && clientSockets[..] == old(clientSockets[..])
      ensures ReadyFrom(fds[..], clientCount, 0, ready) && (PollIn in fds[0].revents <==> k.listener in ready)
    {
      ghost var cs := clientSockets[..];
      var i := 0;
      while i <= clientCount
        invariant 0 <= i <= clientCount + 1 && clientSockets[..] == cs
        invariant Mirrors(k.listener, cs, fds[..], clientCount)
        invariant forall j :: 0 <= j < i ==> (PollIn in fds[j].revents <==> fds[j].fd in ready)
        modifies fds
      {
        var others: set<Event> := *;
        var revents := if fds[i].fd in ready then others + {PollIn} else others - {PollIn};
        ghost var fs := fds[..];
        fds[i] := fds[i].(revents := revents);
        assert fds[..] == fs[i := fs[i].(revents := revents)];
        ReventsMirrors(k.listener, cs, fs, clientCount, i, revents);
        i := i + 1;
      }
      forall j | 0 <= j < clientCount ensures HasInput(fds[..], j, ready) {
        assert fds[..][j + 1] == fds[j + 1];
      }
    }

    /** Doubles both arrays; the new slots are cleared. */
    method Grow()
      requires Shape() && clientCount == clientCapacity
      modifies this`clientSockets, this`fds, this`clientCapacity, this`copied
      ensures Shape() && clientCount < clientCapacity && fresh(clientSockets) && fresh(fds)
      ensures clientSockets[..] == old(clientSockets[..]) + seq(old(clientCapacity), _ => -1)
      ensures fds[..] == old(fds[..]) + seq(old(clientCapacity), _ => CLEARED)
      ensures Stored() == Room(old(Stored()), clientCount)
    {
      var newCap := if clientCapacity == 0 then 4 else clientCapacity * 2;
      var cs, fs := clientSockets, fds;
      ghost var cs0, fs0 := cs[..], fs[..];
      clientSockets := new int[newCap](i requires 0 <= i reads cs => if i < cs.Length then cs[i] else -1);
      fds := new PollFd[newCap + 1](i requires 0 <= i reads fs => if i < fs.Length then fs[i] else CLEARED);
      assert clientSockets[..] == cs0 + seq(clientCapacity, _ => -1);
      assert fds[..] == fs0 + seq(clientCapacity, _ => CLEARED);
      GrowthMirrors(k.listener, cs0, fs0, clientCount);
      copied := copied + clientCount;
      clientCapacity := newCap;
    }

    /** Appends a client at index client_count. */
    method Append(fd: int)
      requires Shape() && clientCount < clientCapacity
      modifies this`clientCount, clientSockets, fds
      ensures Shape() && clientCount == old(clientCount) + 1 && Table() == old(Table()) + [fd]
      ensures fds[..] == old(fds[..])[old(clientCount) + 1 := PollFd(fd, {PollIn}, {})]
    {
      ghost var cs, fs := clientSockets[..], fds[..];
      clientSockets[clientCount] := fd;
      fds[clientCount + 1] := PollFd(fd, {PollIn}, {});
      assert clientSockets[..] == cs[clientCount := fd];
      assert fds[..] == fs[clientCount + 1 := PollFd(fd, {PollIn}, {})];
      AppendMirrors(k.listener, cs, fs, clientCount, fd);
      clientCount := clientCount + 1;
    }

    /** Grows the arrays if they are full and appends the new client. */
    method AddClient(fd: int, ghost ready: set<int>)
      requires Shape() && ReadyFrom(fds[..], clientCount, 0, ready) && fd !in ready
      modifies this`clientCount, this`clientSockets, this`fds, this`clientCapacity, this`copied
      modifies clientSockets, fds
      ensures Shape() && Table() == old(Table()) + [fd] && ReadyFrom(fds[..], clientCount, 0, ready)
      ensures clientSockets == old(clientSockets) || fresh(clientSockets)
      ensures fds == old(fds) || fresh(fds)
      ensures Stored() == Room(old(Stored()), old(clientCount))
    {
      ghost var t, fs := Table(), fds[..];
      if clientCount == clientCapacity {
        Grow();
        assert Table() == t;
      }
      ReadyAfterAppend(fs, fds[..], clientCount, ready, fd);
      Append(fd);
    }

    /** handle_new_connection; false if accept fails, which ends the program. A new client is not
        among those poll found ready. */
    method HandleNewConnection(ghost ready: set<int>) returns (ok: bool, ghost accepted: seq<int>)
      requires Valid() && ReadyFrom(fds[..], clientCount, 0, ready)
      requires forall x :: x in ready ==> x == k.listener || x in Table()
      requires PollIn in fds[0].revents <==> k.listener in ready
      modifies this`clientCount, this`clientSockets, this`fds, this`clientCapacity, this`copied
      modifies clientSockets, fds, k`sessions, k`open, k`failures
      ensures Valid() && ReadyFrom(fds[..], clientCount, 0, ready)
      ensures clientSockets == old(clientSockets) || fresh(clientSockets)
      ensures fds == old(fds) || fresh(fds)
      ensures Stored() == StorageAfter(old(Now()), accepted)
      ensures Table() == old(Table()) + accepted && old(k.sessions) <= k.sessions
      ensures ok ==> Admitted(SkipSwapped, k.listener, old(Now()), ready, accepted, k.sessions)
      ensures k.failures == old(k.failures) + if ok then 0 else 1
    {
      accepted := [];
      assert Table() + [] == Table();
      if PollIn !in fds[0].revents {
        return true, [];
      }
      ghost var t, cs, fs := Table(), clientSockets[..], fds[..];
      var fd := k.Accept();
      assert clientSockets[..] == cs && fds[..] == fs;
      if fd == -1 {
        return false, [];
      }
      NewSessionSettled(old(k.sessions), fd);
      ListsWith(t, old(k.open), fd, |old(k.sessions)|);
      AddClient(fd, ready);
      return true, [fd];
    }

    /** What the main loop does last in each turn. */
    method ClearListener()
      requires Valid()
      modifies fds
      ensures Valid() && Now() == old(Now()) && fds[..] == old(fds[..])[0 := old(fds[0]).(revents := {})]
    {
      ghost var cs, fs := clientSockets[..], fds[..];
      fds[0] := fds[0].(revents := {});
      assert fds[..] == fs[0 := fs[0].(revents := {})] && clientSockets[..] == cs;
      ReventsMirrors(k.listener, cs, fs, clientCount, 0, {});
    }

    /** The rest of a turn, once new connections have been handled. before: how things stood when
        the turn began; polled: the sessions when poll returned. */
    method FinishTurn(ghost before: Snapshot, ghost polled: seq<Session>, ghost call: Call, ghost ready: set<int>,
                      ghost accepted: seq<int>)
      returns (ghost r: RoundRecord)
      requires Valid() && Consistent(k.listener, before) && ReadyFrom(fds[..], clientCount, 0, ready)
      requires call.asked == Watched(k.listener, before.table) && call.ready == ready <= call.asked
      requires AllUntouched(before.sessions, polled) && polled <= k.sessions
      requires Table() == before.table + accepted && Stored() == StorageAfter(before, accepted)
      requires Admitted(SkipSwapped, k.listener, before, ready, accepted, k.sessions)
      modifies this`clientCount, clientSockets, fds, k`sessions, k`open, k`signals, k`waits
      ensures Valid() && r.call == call && r.accepted == accepted
      ensures RoundEffect(SkipSwapped, k.listener, before, r, Now())
    {
      ghost var admitted := k.sessions;
      ghost var served, gone := [], {};
      if clientCount > 0 {
        served, gone := HandleClientData(ready);
      } else {
        EffectStarts(admitted);
      }
      ClearListener();
      r := RoundRecord(call, accepted, served, gone);
      RoundOfParts(SkipSwapped, k.listener, before, r, Now(), polled, admitted);
    }

    /** One turn of the main loop; false if poll or accept fails, which ends the program. */
    method Round() returns (ok: bool, ghost r: RoundRecord)
      requires Valid()
      modifies this`clientCount, this`clientSockets, this`fds, this`clientCapacity, this`copied
      modifies clientSockets, fds, k`sessions, k`open, k`signals, k`waits, k`calls, k`interruptions, k`failures
      ensures Valid()
      ensures clientSockets == old(clientSockets) || fresh(clientSockets)
      ensures fds == old(fds) || fresh(fds)
      ensures k.calls == old(k.calls) + [r.call] && r.call.asked == Watched(k.listener, old(Table()))
      ensures k.interruptions + k.failures == old(k.interruptions + k.failures) + if ok then 0 else 1
      ensures ok ==> RoundEffect(SkipSwapped, k.listener, old(Now()), r, Now())
    {
      ghost var before := Now();
      var activity, ready := Poll();
      ghost var call := k.calls[|k.calls| - 1];
      r := RoundRecord(call, [], [], {});
      if activity < 0 {
        return false, r;
      }
      ghost var polled := k.sessions;
      assert Now().table == before.table;
      ghost var accepted;
      ok, accepted := HandleNewConnection(ready);
      if ok {
        r := FinishTurn(before, polled, call, ready, accepted);
      }
    }

    /** The main loop, for a number of turns, or up to the one that ends the program. */
    method MainLoop(rounds: nat) returns (normal: bool, ghost states: seq<Snapshot>, ghost rs: seq<RoundRecord>)
      requires Valid()
      requires k.calls == [] && k.failures == 0 && k.interruptions == 0
      requires Now() == Snapshot([], [], map[], FirstStorage(SkipSwapped))
      modifies this`clientCount, this`clientSockets, this`fds, this`clientCapacity, this`copied
      modifies clientSockets, fds, k`sessions, k`open, k`signals, k`waits, k`calls, k`interruptions, k`failures
      ensures Valid()
      ensures clientSockets == old(clientSockets) || fresh(clientSockets)
      ensures fds == old(fds) || fresh(fds)
      ensures |k.calls| == |rs| + if normal then 0 else 1
      ensures |rs| < |states| && |rs| <= |k.calls|
      ensures WatchesAll(k.listener, k.calls, states)
      ensures Recorded(SkipSwapped, k.listener, states, rs, k.calls[..|rs|], states[|rs|])
      ensures normal <==> k.interruptions == 0 && k.failures == 0
      ensures !normal ==> k.interruptions + k.failures == 1
      ensures normal ==> |rs| == rounds && states[rounds] == Now()
      ensures |rs| <= rounds
    {
      states, rs := [Now()], [];
      RecordedStarts(SkipSwapped, k.listener);
      var round := 0;
      while round < rounds
        invariant Valid()
        invariant clientSockets == old(clientSockets) || fresh(clientSockets)
        invariant fds == old(fds) || fresh(fds)
        invariant |rs| == round <= rounds && k.failures == 0 && k.interruptions == 0
        invariant Recorded(SkipSwapped, k.listener, states, rs, k.calls, Now())
      {
        ghost var before, calls := Now(), k.calls;
        var ok, r := Round();
        if !ok {
          assert k.calls[..round] == calls;
          LastCallWatches(SkipSwapped, k.listener, states, rs, calls, before, r.call);
          return false, states, rs;
        }
        RecordedExtends(SkipSwapped, k.listener, states, rs, calls, before, r, Now());
        states, rs := states + [Now()], rs + [r];
        round := round + 1;
      }
      assert k.calls[..round] == k.calls;
      RecordedWatchesAll(SkipSwapped, k.listener, states, rs, k.calls, Now());
      return true, states, rs;
    }

    /** The loop after the main loop: closes the entries above 0. */
    method Cleanup()
      requires Valid()
      modifies k`sessions, k`open
      ensures k.Valid() && Settled(k.sessions)
      ensures CleanedUp(1, old(k.sessions), k.sessions) && ClosedOnce(1, k.sessions)
    {
      ghost var before := Now();
      CleaningStarts(1, before);
      var i := 0;
      while i < clientCount
        invariant 0 <= i <= clientCount
        invariant k.Valid() && Cleaning(1, before, i, k.sessions, k.open)
      {
        ghost var now, open := k.sessions, k.open;
        CleaningAt(1, before, i, now, open);
        if clientSockets[i] > 0 {
          k.Close(clientSockets[i]);
        }
        CleaningStep(1, before, i, now, open, k.sessions, k.open);
        i := i + 1;
      }
      CleaningEnds(1, before, k.sessions, k.open);
    }
  }

  /** The server from start to normal exit after a number of rounds, or to the early exit when poll
      or accept fails. However the clients behave, its rounds make a run, in which every report of
      poll is dealt with; every log is sound; and a normal exit closes every session that is still
      live, except one on descriptor 0. */
  method Serve(listener: int, signals: nat, rounds: nat)
    returns (k: Kernel, normal: bool, ghost states: seq<Snapshot>, ghost rs: seq<RoundRecord>)
    ensures Run(SkipSwapped, listener, states, rs) && Settled(k.sessions)
    ensures Frugal(states[|rs|].storage, Peak(states, rs, |rs|))
    ensures |rs| <= rounds && |k.calls| == |rs| + if normal then 0 else 1
    ensures forall n :: 0 <= n < |rs| ==> rs[n].call == k.calls[n]
    ensures WatchesAll(listener, k.calls, states)
    ensures normal <==> k.interruptions == 0 && k.failures == 0
    ensures normal ==> |rs| == rounds && CleanedUp(1, states[rounds].sessions, k.sessions)
    ensures normal ==> ClosedOnce(1, k.sessions)
  {
    k := new Kernel(listener, signals);
    var server := new Server(k);
    normal, states, rs := server.MainLoop(rounds);
    if normal {
      server.Cleanup();
    }
  }

  lemma GrowthMirrors(listener: int, cs: seq<int>, fs: seq<PollFd>, count: nat)
    requires Mirrors(listener, cs, fs, count) && count == |cs|
    ensures Mirrors(listener, cs + seq(|cs|, _ => -1), fs + seq(|cs|, _ => CLEARED), count)
  {
    var cs', fs' := cs + seq(|cs|, _ => -1), fs + seq(|cs|, _ => CLEARED);
    forall j | 0 <= j < count ensures SlotInUse(cs', fs', j) {
      assert SlotInUse(cs, fs, j);
    }
    forall j | count <= j < |cs'| ensures SlotCleared(cs', fs', j) {
    }
  }

  lemma AppendMirrors(listener: int, cs: seq<int>, fs: seq<PollFd>, count: nat, fd: int)
    requires Mirrors(listener, cs, fs, count) && count < |cs|
    ensures Mirrors(listener, cs[count := fd], fs[count + 1 := PollFd(fd, {PollIn}, {})], count + 1)
  {
    var cs', fs' := cs[count := fd], fs[count + 1 := PollFd(fd, {PollIn}, {})];
    forall j | 0 <= j < count + 1 ensures SlotInUse(cs', fs', j) {
      assert j < count ==> SlotInUse(cs, fs, j);
    }
    forall j | count + 1 <= j < |cs| ensures SlotCleared(cs', fs', j) {
      assert SlotCleared(cs, fs, j);
    }
  }

  lemma ReadyAfterAppend(fs: seq<PollFd>, fs': seq<PollFd>, count: nat, ready: set<int>, fd: int)
    requires count < |fs| <= |fs'| && fs'[..|fs|] == fs && count + 1 < |fs'|
    requires ReadyFrom(fs, count, 0, ready) && fd !in ready
    ensures ReadyFrom(fs'[count + 1 := PollFd(fd, {PollIn}, {})], count + 1, 0, ready)
  {
    var fs'' := fs'[count + 1 := PollFd(fd, {PollIn}, {})];
    forall j | 0 <= j < count + 1 ensures HasInput(fs'', j, ready) {
      assert j < count ==> HasInput(fs, j, ready) && fs'[j + 1] == fs'[..|fs|][j + 1];
    }
  }

  /** The descriptors that poll looks at when it is given the first n slots. */
  function Asked(fs: seq<PollFd>, n: nat): set<int>
    requires n <= |fs|
  {
    set i | 0 <= i < n && PollIn in fs[i].events :: fs[i].fd
  }

  /** In the slots in use they are the listening socket and the table. */
  lemma AskedIsWatched(listener: int, cs: seq<int>, fs: seq<PollFd>, count: nat)
    requires Mirrors(listener, cs, fs, count)
    ensures Asked(fs, count + 1) == Watched(listener, cs[..count])
  {
    var asked := Asked(fs, count + 1);
    assert fs[0].fd in asked;
    forall x | x in asked && x != listener ensures x in cs[..count] {
      var i :| 0 <= i < count + 1 && PollIn in fs[i].events && fs[i].fd == x;
      assert SlotInUse(cs, fs, i - 1) && cs[..count][i - 1] == x;
    }
    forall x | x in cs[..count] ensures x in asked {
      var i :| 0 <= i < count && cs[i] == x;
      assert SlotInUse(cs, fs, i) && fs[i + 1].fd == x;
    }
  }

  lemma ReventsMirrors(listener: int, cs: seq<int>, fs: seq<PollFd>, count: nat, i: nat, revents: set<Event>)
    requires Mirrors(listener, cs, fs, count) && i <= count
    ensures Mirrors(listener, cs, fs[i := fs[i].(revents := revents)], count)
  {
    var fs' := fs[i := fs[i].(revents := revents)];
    forall j | 0 <= j < count ensures SlotInUse(cs, fs', j) {
      assert SlotInUse(cs, fs, j);
    }
    forall j | count <= j < |cs| ensures SlotCleared(cs, fs', j) {
      assert SlotCleared(cs, fs, j);
    }
  }
}
