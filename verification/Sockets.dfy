/** What the socket servers see of the kernel: descriptors, the byte streams behind them, and
    the clients at the other ends, which send and hang up at any time. Each accepted
    connection is a session of its own, so that reusing a descriptor does no harm. */
module Sockets {
  import opened Words
  import opened Framing
  import opened Counting

  /** Descriptors are C ints. */
  const INT_MAX: int := 0x7fff_ffff

  /** select(2) takes descriptors below this. */
  const FD_SETSIZE: int := 1024

  /** sent: everything the client has sent. taken: how much of it the server has read.
      hungUp: the client will send no more. failed: a read from it has failed.
      log: the words the server has printed for it. closes: how often the server closed it. */
  datatype Session = Session(fd: int, sent: seq<Byte>, taken: nat, hungUp: bool, failed: bool,
                             log: seq<Word>, closes: nat)

  /** As accept opens it. */
  function NewSession(fd: int): Session {
    Session(fd, [], 0, false, false, [], 0)
  }

  /** The server has read everything, and nothing more will come. */
  predicate Drained(s: Session) {
    s.hungUp && s.taken == |s.sent|
  }

  /** The log holds exactly the complete frames among the bytes read. */
  ghost predicate Sound(s: Session) {
    s.taken <= |s.sent| && Frames(s.sent[..s.taken]) == s.log
  }

  /** The bytes read are exactly the frames in the log: the rest of the stream is unread. */
  ghost predicate Aligned(s: Session) {
    s.taken <= |s.sent| && AllFit(s.log) && s.sent[..s.taken] == Encode(s.log)
  }

  lemma AlignedIsSound(s: Session)
    requires Aligned(s)
    ensures Sound(s)
  {
    FramesOfEncode(s.log, []);
    assert Encode(s.log) + [] == Encode(s.log) && s.log + Frames([]) == s.log;
  }

  /** A read would have to wait for the client. */
  predicate NothingThere(s: Session) {
    s.taken >= |s.sent| && !s.hungUp
  }

  // ----- What can happen to a session

  /** Only the client was active. */
  predicate Untouched(a: Session, b: Session) {
    && b.fd == a.fd && b.taken == a.taken && b.failed == a.failed && b.log == a.log && b.closes == a.closes
    && a.sent <= b.sent && (a.hungUp ==> b.sent == a.sent && b.hungUp)
  }

  /** The server has printed one more word of its stream. */
  predicate Logged(a: Session, b: Session) {
    && b.fd == a.fd && b.failed == a.failed && b.closes == a.closes && a.sent <= b.sent
    && |b.log| == |a.log| + 1 && a.log <= b.log
  }

  /** The server has closed it, and had a reason to. */
  predicate Closed(a: Session, b: Session) {
    && b.fd == a.fd && b.closes == a.closes + 1 && a.sent <= b.sent && b.log == a.log
    && (b.failed || Drained(b))
  }

  /** The server has read some bytes without printing anything. */
  predicate Advanced(a: Session, b: Session, n: nat) {
    && b.fd == a.fd && b.taken == a.taken + n && b.log == a.log && b.closes == a.closes
    && a.sent <= b.sent && b.taken <= |b.sent| && (a.hungUp ==> b.sent == a.sent && b.hungUp)
  }

  predicate AllUntouched(a: seq<Session>, b: seq<Session>) {
    |a| == |b| && forall i :: 0 <= i < |a| ==> Untouched(a[i], b[i])
  }

  predicate OthersUntouched(a: seq<Session>, b: seq<Session>, except: nat) {
    |a| == |b| && forall i :: 0 <= i < |a| && i != except ==> Untouched(a[i], b[i])
  }

  /** close(2) on the descriptor of session s. */
  predicate ClosedOne(a: seq<Session>, b: seq<Session>, s: nat) {
    s < |a| && b == a[s := a[s].(closes := a[s].closes + 1)]
  }

  /** Open descriptors and unclosed sessions correspond one to one. */
  ghost predicate Corresponds(ss: seq<Session>, open: map<int, nat>) {
    && (forall fd :: fd in open ==> 0 <= fd <= INT_MAX && open[fd] < |ss|)
    && (forall fd :: fd in open ==> ss[open[fd]].fd == fd && ss[open[fd]].closes == 0)
    && (forall i :: 0 <= i < |ss| && ss[i].closes == 0 ==> ss[i].fd in open && open[ss[i].fd] == i)
  }

  lemma OpenSession(ss: seq<Session>, open: map<int, nat>, fd: int)
    requires Corresponds(ss, open) && fd in open
    ensures open[fd] < |ss| && ss[open[fd]].fd == fd && ss[open[fd]].closes == 0
  {
  }

  lemma SessionChanges(ss: seq<Session>, open: map<int, nat>, i: nat, s: Session)
    requires Corresponds(ss, open) && i < |ss| && s.fd == ss[i].fd && s.closes == ss[i].closes
    ensures Corresponds(ss[i := s], open)
  {
  }

  /** How many of the sessions have been closed. */
  function ClosedCount(ss: seq<Session>): nat {
    if ss == [] then 0 else ClosedCount(ss[..|ss| - 1]) + if ss[|ss| - 1].closes == 0 then 0 else 1
  }

  lemma CorrespondsBefore(ss: seq<Session>, open: map<int, nat>)
    requires Corresponds(ss, open) && ss != []
    ensures var last := |ss| - 1;
      Corresponds(ss[..last], if ss[last].closes == 0 then open - {ss[last].fd} else open)
  {
    var last := |ss| - 1;
    var rest := ss[..last];
    var open' := if ss[last].closes == 0 then open - {ss[last].fd} else open;
    forall fd | fd in open' ensures open'[fd] < |rest| {
      assert ss[open[fd]].fd == fd;
    }
    forall i | 0 <= i < |rest| && rest[i].closes == 0 ensures rest[i].fd in open' && open'[rest[i].fd] == i {
      assert rest[i] == ss[i];
    }
  }

  /** Every accepted connection is either open or closed: none is lost and none counted twice. */
  lemma {:induction false} DescriptorConservation(ss: seq<Session>, open: map<int, nat>)
    requires Corresponds(ss, open)
    ensures |ss| == |open| + ClosedCount(ss)
    decreases |ss|
  {
    if ss == [] {
      assert forall fd :: fd in open ==> open[fd] < |ss|;
      assert open == map[];
    } else {
      var s := ss[|ss| - 1];
      CorrespondsBefore(ss, open);
      var open' := if s.closes == 0 then open - {s.fd} else open;
      DescriptorConservation(ss[..|ss| - 1], open');
      if s.closes == 0 {
        assert open.Keys == open'.Keys + {s.fd};
      }
    }
  }

  /** Moves bytes into a buffer. */
  method Transfer(buf: array<Byte>, from: nat, bytes: seq<Byte>)
    requires from + |bytes| <= buf.Length
    modifies buf
    ensures buf[..from] == old(buf[..from]) && buf[from..from + |bytes|] == bytes
  {
    forall k | 0 <= k < |bytes| {
      buf[from + k] := bytes[k];
    }
  }

  /** The descriptors that select looks at. */
  function LookedAt(nfds: int, readfds: set<int>): set<int> {
    set x | x in readfds && x < nfds
  }

  /** One call of poll or select: the descriptors it was asked about, and those it reported. */
  datatype Call = Call(asked: set<int>, ready: set<int>)

  class Kernel {
    const listener: int
    var sessions: seq<Session>
    /** The session behind each open client descriptor. No session is closed twice. */
    var open: map<int, nat>
    /** How many more signals will interrupt a read. */
    var signals: nat
    /** How many reads have found nothing to deliver and had to wait for their client. */
    ghost var waits: nat
    /** The calls of poll and select, in order. */
    ghost var calls: seq<Call>
    /** How often one of them was interrupted by a signal, and how often one of them or accept
        failed otherwise. */
    ghost var interruptions: nat
    ghost var failures: nat

    ghost predicate Valid()
      reads this
    {
      && listener !in open && Corresponds(sessions, open)
      && (forall i :: 0 <= i < |sessions| ==> sessions[i].closes <= 1 && sessions[i].taken <= |sessions[i].sent|)
    }

    constructor (listener: int, signals: nat)
      ensures Valid() && sessions == [] && open == map[]
      ensures calls == [] && interruptions == 0 && failures == 0 && waits == 0
      ensures this.listener == listener
    {
      this.listener := listener;
      this.signals := signals;
      sessions := [];
      open := map[];
      calls, interruptions, failures, waits := [], 0, 0, 0;
    }

    /** The clients send and hang up as they please. */
    method ClientsRun()
      requires Valid()
      modifies this`sessions
      ensures Valid() && AllUntouched(old(sessions), sessions)
    {
      var next: seq<Session> := *;
      if AllUntouched(sessions, next) {
        sessions := next;
      }
    }

    /** poll(2) and select(2): block while the clients run, then fail, perhaps because of a signal,
        or report which of the descriptors asked about are ready. */
    method Wait(asked: set<int>) returns (activity: int, interrupted: bool, ready: set<int>)
      requires Valid()
      modifies this`sessions, this`calls, this`interruptions, this`failures
      ensures Valid() && AllUntouched(old(sessions), sessions)
      ensures ready <= asked && (activity < 0 ==> ready == {})
      ensures calls == old(calls) + [Call(asked, ready)]
      ensures interruptions == old(interruptions) + if activity < 0 && interrupted then 1 else 0
      ensures failures == old(failures) + if activity < 0 && !interrupted then 1 else 0
    {
      ClientsRun();
      activity, interrupted, ready := *, *, *;
      if activity >= 0 {
        ready := ready * asked;
      } else {
        ready := {};
        if interrupted {
          interruptions := interruptions + 1;
        } else {
          failures := failures + 1;
        }
      }
      calls := calls + [Call(asked, ready)];
    }

    /** select(2) on the read set alone: it looks at the descriptors below nfds. */
    method Select(nfds: int, readfds: set<int>) returns (activity: int, interrupted: bool, ready: set<int>)
      requires Valid()
      modifies this`sessions, this`calls, this`interruptions, this`failures
      ensures Valid() && AllUntouched(old(sessions), sessions)
      ensures ready <= readfds && (activity < 0 ==> ready == {})
      ensures calls == old(calls) + [Call(LookedAt(nfds, readfds), ready)]
      ensures interruptions == old(interruptions) + if activity < 0 && interrupted then 1 else 0
      ensures failures == old(failures) + if activity < 0 && !interrupted then 1 else 0
    {
      activity, interrupted, ready := Wait(LookedAt(nfds, readfds));
    }

    /** accept(2): fails, or opens a descriptor that was not open for a new session. */
    method Accept() returns (fd: int)
      requires Valid()
      modifies this`sessions, this`open, this`failures
      ensures Valid()
      ensures fd == -1 ==> sessions == old(sessions) && open == old(open) && failures == old(failures) + 1
      ensures fd != -1 ==> failures == old(failures)
      ensures fd != -1 ==> 0 <= fd <= INT_MAX && fd != listener && fd !in old(open)
      ensures fd != -1 ==> sessions == old(sessions) + [NewSession(fd)]
      ensures fd != -1 ==> open == old(open)[fd := |old(sessions)|]
    {
      var choice: int := *;
      if choice < 0 || choice > INT_MAX || choice == listener || choice in open {
        failures := failures + 1;
        return -1;
      }
      fd := choice;
      open := open[fd := |sessions|];
      sessions := sessions + [NewSession(fd)];
    }

    /** close(2) on an open client descriptor. */
    method Close(fd: int)
      requires Valid() && fd in open
      modifies this`sessions, this`open
      ensures Valid() && open == old(open) - {fd}
      ensures ClosedOne(old(sessions), sessions, old(open)[fd])
    {
      var i := open[fd];
      sessions := sessions[i := sessions[i].(closes := sessions[i].closes + 1)];
      open := open - {fd};
    }

    /** read(2) from a client: blocks until the client has sent something or hung up. It moves at
        least one byte, or reports end of file (0), an interruption or an error (-1). */
    method Read(fd: int, buf: array<Byte>, from: nat, count: nat) returns (r: int, interrupted: bool)
      requires Valid() && fd in open && from + count <= buf.Length && count > 0
      modifies this`sessions, this`signals, this`waits, buf
      ensures Valid() && -1 <= r <= count
      ensures interrupted ==> r == -1 && signals < old(signals)
      ensures signals <= old(signals)
      ensures waits == old(waits) + Flag(NothingThere(old(sessions)[open[fd]]))
      ensures OthersUntouched(old(sessions), sessions, open[fd])
      ensures var a, b := old(sessions)[open[fd]], sessions[open[fd]];
        && Advanced(a, b, if r < 0 then 0 else r)
        && (b.failed <==> a.failed || (r < 0 && !interrupted))
        && (r == 0 ==> Drained(b))
        && (r > 0 ==> buf[from..from + r] == b.sent[a.taken..a.taken + r])
      ensures buf[..from] == old(buf[..from])
    {
      if NothingThere(sessions[open[fd]]) {
        waits := waits + 1;
      }
      ClientsRun();
      interrupted := *;
      if interrupted && signals > 0 {
        signals := signals - 1;
        return -1, true;
      }
      r := TakeBytes(fd, buf, from, count);
      return r, false;
    }

    /** The read itself, once there is something to deliver. */
    method TakeBytes(fd: int, buf: array<Byte>, from: nat, count: nat) returns (r: int)
      requires Valid() && fd in open && from + count <= buf.Length && count > 0
      modifies this`sessions, buf
      ensures Valid() && -1 <= r <= count
      ensures |sessions| == |old(sessions)| && sessions == old(sessions)[open[fd] := sessions[open[fd]]]
      ensures var a, b := old(sessions)[open[fd]], sessions[open[fd]];
        && Advanced(a, b, if r < 0 then 0 else r)
        && (b.failed <==> a.failed || r < 0)
        && (r == 0 ==> Drained(b))
        && (r > 0 ==> buf[from..from + r] == b.sent[a.taken..a.taken + r])
      ensures buf[..from] == old(buf[..from])
    {
      var i := open[fd];
      var s := sessions[i];
      var next := s.(failed := true);
      r := *;
      if s.taken == |s.sent| && r == 0 {
        next := s.(hungUp := true);
      } else if 1 <= r <= count && r <= |s.sent| - s.taken {
        Transfer(buf, from, s.sent[s.taken..s.taken + r]);
        next := s.(taken := s.taken + r);
      } else {
        r := -1;
      }
      SessionChanges(sessions, open, i, next);
      sessions := sessions[i := next];
    }

    /** printf of a word received on fd. */
    method Print(fd: int, word: Word)
      requires Valid() && fd in open
      modifies this`sessions
      ensures Valid()
      ensures sessions == old(sessions)[open[fd] := old(sessions)[open[fd]].(log := old(sessions)[open[fd]].log + [word])]
    {
      var i := open[fd];
      sessions := sessions[i := sessions[i].(log := sessions[i].log + [word])];
    }
  }
}
