/** What one pass of a server over its table does to the sessions behind it. */
module PassEffects {
  import opened ClientTable
  import opened Sockets
  import opened FrameServer

  ghost predicate Effect(a: Session, b: Session, served: bool, gone: bool) {
    if !served then Untouched(a, b) else if gone then Closed(a, b) else Logged(a, b)
  }

  /** One client served: it has one more word in its log or has been closed. */
  ghost predicate Turn(before: seq<Session>, after: seq<Session>, i: nat, alive: bool) {
    && i < |before| && OthersUntouched(before, after, i)
    && if alive then Logged(before[i], after[i]) else Closed(before[i], after[i])
  }

  /** Each live client that was served has one more word in its log or has been closed; nobody
      else was touched. */
  ghost predicate PassEffect(before: seq<Session>, after: seq<Session>, served: seq<int>, gone: set<int>) {
    && |before| == |after|
    && forall j :: 0 <= j < |before| ==>
         Effect(before[j], after[j], before[j].closes == 0 && before[j].fd in served, before[j].fd in gone)
  }

  /** Between two turns of a pass: no descriptor has been opened since it began. */
  ghost predicate OpenedBefore(open0: map<int, nat>, open: map<int, nat>) {
    forall fd :: fd in open ==> fd in open0 && open0[fd] == open[fd]
  }

  lemma StillOpen(open0: map<int, nat>, open: map<int, nat>, fd: int)
    requires OpenedBefore(open0, open) && fd in open
    ensures fd in open0 && open0[fd] == open[fd]
  {
  }

  lemma EffectStarts(ss: seq<Session>)
    ensures PassEffect(ss, ss, [], {})
  {
  }

  lemma EffectTurn(before: seq<Session>, open0: map<int, nat>, now: seq<Session>, next: seq<Session>,
                   served: seq<int>, gone: set<int>, fd: int, alive: bool)
    requires PassEffect(before, now, served, gone) && Corresponds(before, open0)
    requires fd in open0 && fd !in served && fd !in gone
    requires Turn(now, next, open0[fd], alive)
    ensures PassEffect(before, next, served + [fd], if alive then gone else gone + {fd})
  {
    var gone' := if alive then gone else gone + {fd};
    forall j | 0 <= j < |before|
      ensures Effect(before[j], next[j], before[j].closes == 0 && before[j].fd in served + [fd], before[j].fd in gone')
    {
      assert Effect(before[j], now[j], before[j].closes == 0 && before[j].fd in served, before[j].fd in gone);
    }
  }

  // ----- A pass in progress: the table and the sessions together

  /** How things stand between two steps of a server: its table, the sessions behind it, and the
      memory the table takes. */
  datatype Snapshot = Snapshot(table: seq<int>, sessions: seq<Session>, open: map<int, nat>, storage: Storage)

  ghost predicate InPass(policy: Policy, start: Snapshot, ready: set<int>, t: seq<int>, i: nat,
                         now: seq<Session>, open: map<int, nat>, served: seq<int>, gone: set<int>)
  {
    && Corresponds(start.sessions, start.open)
    && OpenedBefore(start.open, open)
    && Reached(policy, start.table, ready, t, i, served, gone)
    && PassEffect(start.sessions, now, served, gone)
  }

  lemma InPassBegins(policy: Policy, start: Snapshot, ready: set<int>)
    requires Distinct(start.table) && Corresponds(start.sessions, start.open)
    ensures InPass(policy, start, ready, start.table, 0, start.sessions, start.open, [], {})
  {
    PassBegins(policy, start.table, ready);
    EffectStarts(start.sessions);
  }

  /** The session of the client whose turn it is has not been touched since the pass began. */
  lemma InPassUntouched(policy: Policy, start: Snapshot, ready: set<int>, t: seq<int>, i: nat,
                        now: seq<Session>, open: map<int, nat>, served: seq<int>, gone: set<int>)
    requires InPass(policy, start, ready, t, i, now, open, served, gone) && i < |t| && t[i] in open
    ensures var j := open[t[i]];
      && j < |start.sessions| && j < |now| && start.sessions[j].closes == 0 && start.sessions[j].fd == t[i]
      && Untouched(start.sessions[j], now[j])
  {
    var j := open[t[i]];
    NotYetServed(t, i, served, gone);
    StillOpen(start.open, open, t[i]);
    OpenSession(start.sessions, start.open, t[i]);
    assert Effect(start.sessions[j], now[j], start.sessions[j].closes == 0 && start.sessions[j].fd in served,
                  start.sessions[j].fd in gone);
  }

  /** No more has been read of any stream than was sent. */
  ghost predicate WellRead(ss: seq<Session>) {
    forall j :: 0 <= j < |ss| ==> ss[j].taken <= |ss[j].sent|
  }

  /** Every live client in ready can be served without waiting for it. */
  ghost predicate NobodyStalls(ss: seq<Session>, ready: set<int>)
    requires WellRead(ss)
  {
    forall j :: 0 <= j < |ss| && ss[j].closes == 0 && ss[j].fd in ready ==> CanServe(ss[j])
  }

  lemma InPassCanServe(policy: Policy, start: Snapshot, ready: set<int>, t: seq<int>, i: nat,
                       now: seq<Session>, open: map<int, nat>, served: seq<int>, gone: set<int>)
    requires InPass(policy, start, ready, t, i, now, open, served, gone) && i < |t| && t[i] in open
    requires WellRead(start.sessions) && NobodyStalls(start.sessions, ready) && t[i] in ready
    ensures open[t[i]] < |now| && now[open[t[i]]].taken <= |now[open[t[i]]].sent| && CanServe(now[open[t[i]]])
  {
    InPassUntouched(policy, start, ready, t, i, now, open, served, gone);
    UntouchedCanServe(start.sessions[open[t[i]]], now[open[t[i]]]);
  }

  lemma InPassTurn(policy: Policy, start: Snapshot, ready: set<int>, t: seq<int>, i: nat,
                   now: seq<Session>, open: map<int, nat>, served: seq<int>, gone: set<int>,
                   next: seq<Session>, alive: bool)
    requires InPass(policy, start, ready, t, i, now, open, served, gone)
    requires i < |t| && t[i] in ready && t[i] in open && Turn(now, next, open[t[i]], alive)
    ensures alive ==> InPass(policy, start, ready, t, i + 1, next, open, served + [t[i]], gone)
    ensures !alive ==> InPass(policy, start, ready, SwapRemove(t, i), NextAfterRemoval(policy, t, i),
                              next, open - {t[i]}, served + [t[i]], gone + {t[i]})
  {
    assert t[i] in t;
    if alive {
      PassServes(policy, start.table, ready, t, i, served, gone);
    } else {
      PassRemoves(policy, start.table, ready, t, i, served, gone);
    }
    EffectTurn(start.sessions, start.open, now, next, served, gone, t[i], alive);
  }
}
