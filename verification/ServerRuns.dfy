/** The main loop of a server: what one turn of it does, and what follows for whole runs. */
module ServerRuns {
  import opened Counting
  import opened Words
  import opened Framing
  import opened LineClient
  import opened SocketClient
  import opened Agreement
  import opened ClientTable
  import opened Sockets
  import opened FrameServer
  import opened PassEffects

  /** One turn: the call of poll or select, the client added to the table if there was one, the
      clients served, in order, and those of them that were dropped. */
  datatype RoundRecord = RoundRecord(call: Call, accepted: seq<int>, served: seq<int>, gone: set<int>)

  /** What a server waits for: new connections, and input from each client in the table. */
  function Watched(listener: int, t: seq<int>): (w: set<int>)
    ensures forall x :: x in w <==> x == listener || x in t
  {
    {listener} + set x | x in t
  }

  ghost predicate Consistent(listener: int, s: Snapshot) {
    && Lists(s.table, s.open) && Corresponds(s.sessions, s.open) && Settled(s.sessions)
    && listener !in s.table
  }

  /** The select server turns away connections with a descriptor out of range. */
  predicate Refused(policy: Policy, s: Session) {
    policy.Recheck? && s.fd >= FD_SETSIZE
  }

  /** Exactly if the listening socket was reported, there is a new session: in the table, or
      closed at once if its descriptor is out of range. */
  ghost predicate Admitted(policy: Policy, listener: int, a: Snapshot, ready: set<int>, accepted: seq<int>,
                           ss: seq<Session>)
  {
    if listener !in ready then accepted == [] && |ss| == |a.sessions|
    else
      && |ss| == |a.sessions| + 1
      && var s := ss[|a.sessions|];
      && s.fd !in a.table && s.fd != listener
      && if Refused(policy, s) then accepted == [] && Untouched(NewSession(s.fd).(closes := 1), s)
         else accepted == [s.fd] && Untouched(NewSession(s.fd), s)
  }

  /** The table grows only to make room for an accepted client. */
  ghost function StorageAfter(a: Snapshot, accepted: seq<int>): Storage {
    if accepted == [] then a.storage else Room(a.storage, |a.table|)
  }

  ghost predicate SessionEffect(a: Session, b: Session, r: RoundRecord) {
    Effect(a, b, a.closes == 0 && a.fd in r.served, a.fd in r.gone)
  }

  /** One turn takes the server from a to b: it makes one pass over the table, the new client
      included; each live client the pass serves gets one more word of its stream printed, or is
      closed because a read failed or its stream has ended; no other session is touched. */
  ghost predicate RoundEffect(policy: Policy, listener: int, a: Snapshot, r: RoundRecord, b: Snapshot) {
    && Consistent(listener, a) && Consistent(listener, b)
    && r.call.asked == Watched(listener, a.table) && r.call.ready <= r.call.asked
    && Admitted(policy, listener, a, r.call.ready, r.accepted, b.sessions)
    && Pass(b.table, r.served) == ServePass(policy, a.table + r.accepted, 0, r.call.ready, r.gone)
    && b.storage == StorageAfter(a, r.accepted)
    && forall j :: 0 <= j < |a.sessions| ==> SessionEffect(a.sessions[j], b.sessions[j], r)
  }

  lemma DistinctWithAccepted(policy: Policy, listener: int, a: Snapshot, ready: set<int>, accepted: seq<int>,
                             ss: seq<Session>)
    requires Distinct(a.table) && Admitted(policy, listener, a, ready, accepted, ss)
    requires forall x :: x in ready ==> x == listener || x in a.table
    ensures Distinct(a.table + accepted)
    ensures forall x :: x in accepted ==> x !in ready && x !in a.table
  {
    var t := a.table + accepted;
    forall i, j | 0 <= i < j < |t| ensures t[i] != t[j] {
      assert t[i] == a.table[i] && a.table[i] in a.table;
    }
  }

  lemma {:induction false} ServedAreReady(policy: Policy, t: seq<int>, i: nat, ready: set<int>, gone: set<int>)
    requires i <= |t|
    ensures forall x :: x in ServePass(policy, t, i, ready, gone).served ==> x in ready
    decreases |t| - i
  {
    if i < |t| {
      if t[i] !in ready || t[i] !in gone {
        ServedAreReady(policy, t, i + 1, ready, gone);
      } else {
        ServedAreReady(policy, SwapRemove(t, i), NextAfterRemoval(policy, t, i), ready, gone);
      }
    }
  }

  /** Nothing is served when nothing is ready. */
  lemma {:induction false} EmptyPass(policy: Policy, t: seq<int>, i: nat, gone: set<int>)
    requires i <= |t|
    ensures ServePass(policy, t, i, {}, gone) == Pass(t, [])
    decreases |t| - i
  {
    if i < |t| {
      EmptyPass(policy, t, i + 1, gone);
    }
  }

  /** A turn from its parts: waiting, accepting, and the pass. */
  lemma RoundOfParts(policy: Policy, listener: int, a: Snapshot, r: RoundRecord, b: Snapshot,
                     polled: seq<Session>, admitted: seq<Session>)
    requires Consistent(listener, a) && Consistent(listener, b)
    requires r.call.asked == Watched(listener, a.table) && r.call.ready <= r.call.asked
    requires AllUntouched(a.sessions, polled) && polled <= admitted
    requires Admitted(policy, listener, a, r.call.ready, r.accepted, admitted)
    requires Pass(b.table, r.served) == ServePass(policy, a.table + r.accepted, 0, r.call.ready, r.gone)
    requires PassEffect(admitted, b.sessions, r.served, r.gone)
    requires b.storage == StorageAfter(a, r.accepted)
    ensures RoundEffect(policy, listener, a, r, b)
  {
    DistinctWithAccepted(policy, listener, a, r.call.ready, r.accepted, admitted);
    ServedAreReady(policy, a.table + r.accepted, 0, r.call.ready, r.gone);
    var n := |a.sessions|;
    forall j | 0 <= j < |admitted|
      ensures j < n ==> SessionEffect(a.sessions[j], b.sessions[j], r)
      ensures j == n ==> Untouched(admitted[n], b.sessions[n])
    {
      assert Effect(admitted[j], b.sessions[j], admitted[j].closes == 0 && admitted[j].fd in r.served,
                    admitted[j].fd in r.gone);
      assert j < n ==> admitted[j] == polled[j] && Untouched(a.sessions[j], polled[j]);
    }
  }

  /** A turn in which nothing was ready. */
  lemma IdleRound(policy: Policy, listener: int, a: Snapshot, b: Snapshot)
    requires Consistent(listener, a) && Consistent(listener, b)
    requires AllUntouched(a.sessions, b.sessions) && b.table == a.table && b.storage == a.storage
    ensures RoundEffect(policy, listener, a, RoundRecord(Call(Watched(listener, a.table), {}), [], [], {}), b)
  {
    assert a.table + [] == a.table;
    EmptyPass(policy, a.table, 0, {});
  }

  // ----- One turn

  /** A turn of the select server: every live client reported ready is served, whichever others
      are dropped; nobody else is. */
  lemma SelectRoundServesAll(listener: int, a: Snapshot, r: RoundRecord, b: Snapshot, j: nat)
    requires RoundEffect(Recheck, listener, a, r, b) && j < |a.sessions| && a.sessions[j].closes == 0
    ensures a.sessions[j].fd in r.call.ready ==>
      Logged(a.sessions[j], b.sessions[j]) || Closed(a.sessions[j], b.sessions[j])
    ensures a.sessions[j].fd !in r.call.ready ==> Untouched(a.sessions[j], b.sessions[j])
  {
    DistinctWithAccepted(Recheck, listener, a, r.call.ready, r.accepted, b.sessions);
    var t := a.table + r.accepted;
    SelectPassServesAll(t, 0, r.call.ready, r.gone);
    assert t[0..] == t;
    assert SessionEffect(a.sessions[j], b.sessions[j], r);
    assert a.sessions[j].fd in a.open;
    assert a.sessions[j].fd in a.table;
  }

  /** A turn of the poll server serves at least half of the clients reported ready. */
  lemma PollRoundServesHalf(listener: int, a: Snapshot, r: RoundRecord, b: Snapshot)
    requires RoundEffect(SkipSwapped, listener, a, r, b)
    ensures Distinct(r.served) && forall x :: x in r.served ==> x in a.table && x in r.call.ready
    ensures |set x | x in a.table && x in r.call.ready| <= 2 * |r.served|
  {
    DistinctWithAccepted(SkipSwapped, listener, a, r.call.ready, r.accepted, b.sessions);
    var t := a.table + r.accepted;
    PollPassIsFair(t, r.call.ready, r.gone);
    assert (set x | x in a.table && x in r.call.ready) == (set x | x in t && x in r.call.ready);
  }

  /** The clients that a turn of the poll server misses are those reported ready and not served. */
  lemma MissedInRound(listener: int, a: Snapshot, r: RoundRecord, b: Snapshot)
    requires RoundEffect(SkipSwapped, listener, a, r, b)
    ensures var t := a.table + r.accepted;
      && Distinct(t)
      && forall x :: x in Missed(t, 0, r.call.ready, r.gone) <==> x in a.table && x in r.call.ready && x !in r.served
  {
    DistinctWithAccepted(SkipSwapped, listener, a, r.call.ready, r.accepted, b.sessions);
    assert (a.table + r.accepted)[0..] == a.table + r.accepted;
  }

  /** Exactly which of the clients reported ready a turn of the poll server does not get to. */
  lemma PollRoundMissesExactly(listener: int, a: Snapshot, r: RoundRecord, b: Snapshot, x: int)
    requires RoundEffect(SkipSwapped, listener, a, r, b) && x in a.table && x in r.call.ready
    ensures x !in r.served <==> Overtaken(a.table + r.accepted, x, r.call.ready, r.gone)
  {
    MissedInRound(listener, a, r, b);
    PollPassMissesExactly(a.table + r.accepted, r.call.ready, r.gone);
  }

  /** Exactly when it gets to all of them. */
  lemma PollRoundMissesNobodyIff(listener: int, a: Snapshot, r: RoundRecord, b: Snapshot)
    requires RoundEffect(SkipSwapped, listener, a, r, b)
    ensures (forall x :: x in a.table && x in r.call.ready ==> x in r.served)
      <==> NobodyOvertaken(a.table + r.accepted, r.call.ready, r.gone)
  {
    var t := a.table + r.accepted;
    MissedInRound(listener, a, r, b);
    PollPassMissesNobodyIff(t, r.call.ready, r.gone);
    var missed := Missed(t, 0, r.call.ready, r.gone);
    assert missed == {} <==> forall x :: x !in missed;
  }

  /** For the sessions: a live one that was reported ready is left alone if and only if its client
      is overtaken; otherwise it gets a word printed or is closed. */
  lemma PollRoundLeavesOvertaken(listener: int, a: Snapshot, r: RoundRecord, b: Snapshot, j: nat)
    requires RoundEffect(SkipSwapped, listener, a, r, b) && j < |a.sessions| && a.sessions[j].closes == 0
    requires a.sessions[j].fd in r.call.ready
    ensures var s, s' := a.sessions[j], b.sessions[j];
      if Overtaken(a.table + r.accepted, s.fd, r.call.ready, r.gone) then Untouched(s, s')
      else Logged(s, s') || Closed(s, s')
  {
    assert SessionEffect(a.sessions[j], b.sessions[j], r);
    assert a.sessions[j].fd in a.open;
    assert a.sessions[j].fd in a.table;
    PollRoundMissesExactly(listener, a, r, b, a.sessions[j].fd);
  }

  // ----- Runs

  /** The poll server starts with four slots, the select server with none. */
  function FirstStorage(policy: Policy): Storage {
    Storage(if policy.Recheck? then 0 else 4, 0)
  }

  /** states are how things stood before the first turn and after each of them. */
  ghost predicate Run(policy: Policy, listener: int, states: seq<Snapshot>, rounds: seq<RoundRecord>) {
    && |states| == |rounds| + 1 && states[0] == Snapshot([], [], map[], FirstStorage(policy))
    && forall n :: 0 <= n < |rounds| ==> RoundEffect(policy, listener, states[n], rounds[n], states[n + 1])
  }

  lemma RunRound(policy: Policy, listener: int, states: seq<Snapshot>, rounds: seq<RoundRecord>, m: nat)
    requires Run(policy, listener, states, rounds) && m < |rounds|
    ensures RoundEffect(policy, listener, states[m], rounds[m], states[m + 1])
  {
  }

  /** A session is live, was turned away, had a read fail, or came to its end with every complete
      frame of it printed. */
  ghost predicate Explained(policy: Policy, s: Session) {
    && InOrder(s)
    && (s.closes == 0 || (Refused(policy, s) && s.log == []) || s.failed || (s.hungUp && s.log == Frames(s.sent)))
  }

  lemma EffectExplained(policy: Policy, a: Session, b: Session, served: bool, gone: bool)
    requires Explained(policy, a) && InOrder(b) && Effect(a, b, served, gone)
    requires served ==> a.closes == 0
    ensures Explained(policy, b)
  {
    if Drained(b) {
      assert b.sent[..b.taken] == b.sent;
    }
  }

  lemma RoundExplains(policy: Policy, listener: int, a: Snapshot, r: RoundRecord, b: Snapshot)
    requires RoundEffect(policy, listener, a, r, b)
    requires forall j :: 0 <= j < |a.sessions| ==> Explained(policy, a.sessions[j])
    ensures forall j :: 0 <= j < |b.sessions| ==> Explained(policy, b.sessions[j])
  {
    forall j | 0 <= j < |b.sessions| ensures Explained(policy, b.sessions[j]) {
      assert InOrder(b.sessions[j]);
      if j < |a.sessions| {
        var s := a.sessions[j];
        assert SessionEffect(s, b.sessions[j], r);
        EffectExplained(policy, s, b.sessions[j], s.closes == 0 && s.fd in r.served, s.fd in r.gone);
      }
    }
  }

  /** In every run, no session is ever dropped without a reason, and none that ends by itself
      loses a word. */
  lemma {:induction false} NoWordLost(policy: Policy, listener: int, states: seq<Snapshot>, rounds: seq<RoundRecord>, n: nat)
    requires Run(policy, listener, states, rounds) && n <= |rounds|
    ensures forall j :: 0 <= j < |states[n].sessions| ==> Explained(policy, states[n].sessions[j])
  {
    if n > 0 {
      NoWordLost(policy, listener, states, rounds, n - 1);
      RoundExplains(policy, listener, states[n - 1], rounds[n - 1], states[n]);
    }
  }

  /** From file to server: however far a client has come with its file (SocketClient.SendFile says
      what it sends), and whatever all the others do, the words printed for it are a prefix of those
      the client sends. */
  lemma FileArrives(policy: Policy, listener: int, states: seq<Snapshot>, rounds: seq<RoundRecord>,
                    n: nat, j: nat, file: seq<Byte>)
    requires Run(policy, listener, states, rounds) && n <= |rounds| && j < |states[n].sessions|
    requires states[n].sessions[j].sent <= Encode(ClientWords(file))
    ensures states[n].sessions[j].log <= ClientWords(file)
  {
    NoWordLost(policy, listener, states, rounds, n);
    assert Explained(policy, states[n].sessions[j]);
    LogIsPrefix(states[n].sessions[j], ClientWords(file));
  }

  /** If the client sent everything, no read failed and its session has been closed, they are all of
      those words; and for a file with harmless chunks, they are the words of the file, cut at spaces,
      newlines and tabs, up to the first one too long. */
  lemma WholeFileArrives(policy: Policy, listener: int, states: seq<Snapshot>, rounds: seq<RoundRecord>,
                         n: nat, j: nat, file: seq<Byte>)
    requires Run(policy, listener, states, rounds) && n <= |rounds| && j < |states[n].sessions|
    requires var s := states[n].sessions[j];
      s.closes > 0 && !s.failed && !Refused(policy, s) && s.sent == Encode(ClientWords(file))
    ensures states[n].sessions[j].log == ClientWords(file)
    ensures Harmless(file, LINE_LEN - 1) ==> states[n].sessions[j].log == Deliver(Split(file)).words
  {
    var s, ws := states[n].sessions[j], ClientWords(file);
    NoWordLost(policy, listener, states, rounds, n);
    assert Explained(policy, s);
    FramesOfEncode(ws, []);
    assert Encode(ws) + [] == Encode(ws) && ws + Frames([]) == ws;
    SendersAgree(file, LINE_LEN - 1);
  }

  /** In particular, for a file without NULs in which every line has at most 1023 bytes, its newline
      included: the words printed are exactly those of the file up to the first one too long. */
  lemma ShortLinedFileArrives(policy: Policy, listener: int, states: seq<Snapshot>, rounds: seq<RoundRecord>,
                              n: nat, j: nat, file: seq<Byte>)
    requires Run(policy, listener, states, rounds) && n <= |rounds| && j < |states[n].sessions|
    requires var s := states[n].sessions[j];
      s.closes > 0 && !s.failed && !Refused(policy, s) && s.sent == Encode(ClientWords(file))
    requires NUL !in file && LinesFit(file, 1023)
    ensures states[n].sessions[j].log == Deliver(Split(file)).words
  {
    WholeFileArrives(policy, listener, states, rounds, n, j, file);
    ShortLinesAreNotCut(file, 1023);
    TokenisersAgree(file, LINE_LEN - 1);
  }

  /** The turn served session j and it stayed. */
  ghost predicate GotTurn(a: Snapshot, r: RoundRecord, j: nat) {
    && j < |a.sessions| && a.sessions[j].closes == 0
    && a.sessions[j].fd in r.served && a.sessions[j].fd !in r.gone
  }

  ghost function TurnsOf(states: seq<Snapshot>, rounds: seq<RoundRecord>, n: nat, j: nat): nat
    requires n <= |rounds| <= |states|
  {
    if n == 0 then 0
    else TurnsOf(states, rounds, n - 1, j) + Flag(GotTurn(states[n - 1], rounds[n - 1], j))
  }

  lemma SessionsStay(policy: Policy, listener: int, a: Snapshot, r: RoundRecord, b: Snapshot)
    requires RoundEffect(policy, listener, a, r, b)
    ensures |a.sessions| <= |b.sessions|
  {
  }

  lemma {:induction false} NoTurnBeforeItsTime(policy: Policy, listener: int, states: seq<Snapshot>, rounds: seq<RoundRecord>,
                                               n: nat, j: nat)
    requires Run(policy, listener, states, rounds) && n <= |rounds| && j >= |states[n].sessions|
    ensures TurnsOf(states, rounds, n, j) == 0
  {
    if n > 0 {
      SessionsStay(policy, listener, states[n - 1], rounds[n - 1], states[n]);
      NoTurnBeforeItsTime(policy, listener, states, rounds, n - 1, j);
    }
  }

  /** One turn adds a word to the log of a session exactly if it was its turn. */
  lemma WordForTurn(policy: Policy, listener: int, a: Snapshot, r: RoundRecord, b: Snapshot, j: nat)
    requires RoundEffect(policy, listener, a, r, b) && j < |b.sessions|
    ensures |b.sessions[j].log| == (if j < |a.sessions| then |a.sessions[j].log| else 0) + Flag(GotTurn(a, r, j))
  {
    if j < |a.sessions| {
      assert SessionEffect(a.sessions[j], b.sessions[j], r);
    }
  }

  lemma TurnsInRound(states: seq<Snapshot>, rounds: seq<RoundRecord>, m: nat, j: nat)
    requires m < |rounds| <= |states|
    ensures TurnsOf(states, rounds, m + 1, j) == TurnsOf(states, rounds, m, j) + Flag(GotTurn(states[m], rounds[m], j))
  {
  }

  lemma WordInRound(policy: Policy, listener: int, states: seq<Snapshot>, rounds: seq<RoundRecord>, m: nat, j: nat)
    requires Run(policy, listener, states, rounds) && m < |rounds| && j < |states[m + 1].sessions|
    ensures |states[m + 1].sessions[j].log|
         == (if j < |states[m].sessions| then |states[m].sessions[j].log| else 0) + Flag(GotTurn(states[m], rounds[m], j))
  {
    RunRound(policy, listener, states, rounds, m);
    WordForTurn(policy, listener, states[m], rounds[m], states[m + 1], j);
  }

  /** In every run, a session has had exactly as many words printed as it has had turns. */
  lemma {:induction false} OneWordPerTurn(policy: Policy, listener: int, states: seq<Snapshot>, rounds: seq<RoundRecord>,
                                          n: nat, j: nat)
    requires Run(policy, listener, states, rounds) && n <= |rounds| && j < |states[n].sessions|
    ensures |states[n].sessions[j].log| == TurnsOf(states, rounds, n, j)
  {
    if n > 0 {
      var m := n - 1;
      WordInRound(policy, listener, states, rounds, m, j);
      TurnsInRound(states, rounds, m, j);
      if j < |states[m].sessions| {
        OneWordPerTurn(policy, listener, states, rounds, m, j);
      } else {
        NoTurnBeforeItsTime(policy, listener, states, rounds, m, j);
      }
    }
  }

  /** In every run, accepted connections are the entries of the table plus the closed ones. */
  lemma NoDescriptorLost(policy: Policy, listener: int, states: seq<Snapshot>, rounds: seq<RoundRecord>, n: nat)
    requires Run(policy, listener, states, rounds) && n <= |rounds|
    ensures |states[n].sessions| == |states[n].table| + ClosedCount(states[n].sessions)
    ensures Distinct(states[n].table) && listener !in states[n].table
  {
    var s := states[n];
    assert Consistent(listener, s) by {
      if n < |rounds| {
        assert RoundEffect(policy, listener, s, rounds[n], states[n + 1]);
      } else if n > 0 {
        assert RoundEffect(policy, listener, states[n - 1], rounds[n - 1], s);
      }
    }
    DescriptorConservation(s.sessions, s.open);
    DistinctSize(s.table);
    assert (set x | x in s.table) == s.open.Keys;
  }

  /** The most entries the table has held in the first n turns. */
  ghost function Peak(states: seq<Snapshot>, rounds: seq<RoundRecord>, n: nat): nat
    requires n <= |rounds| <= |states|
  {
    if n == 0 then 0 else Max(Peak(states, rounds, n - 1), |states[n - 1].table| + |rounds[n - 1].accepted|)
  }

  lemma {:induction false} PassShrinks(policy: Policy, t: seq<int>, i: nat, ready: set<int>, gone: set<int>)
    requires i <= |t|
    ensures |ServePass(policy, t, i, ready, gone).table| <= |t|
    decreases |t| - i
  {
    if i < |t| {
      if t[i] !in ready || t[i] !in gone {
        PassShrinks(policy, t, i + 1, ready, gone);
      } else {
        PassShrinks(policy, SwapRemove(t, i), NextAfterRemoval(policy, t, i), ready, gone);
      }
    }
  }

  lemma RoundIsFrugal(policy: Policy, listener: int, a: Snapshot, r: RoundRecord, b: Snapshot, peak: nat)
    requires RoundEffect(policy, listener, a, r, b)
    requires Frugal(a.storage, peak) && Doubled(a.storage) && |a.table| <= a.storage.capacity
    requires a.storage.capacity == 0 || a.storage.capacity >= 4
    ensures Frugal(b.storage, Max(peak, |a.table| + |r.accepted|)) && Doubled(b.storage)
    ensures |b.table| <= b.storage.capacity && b.storage.capacity >= a.storage.capacity
    ensures b.storage.capacity == 0 || b.storage.capacity >= 4
  {
    PassShrinks(policy, a.table + r.accepted, 0, r.call.ready, r.gone);
    if r.accepted != [] {
      RoomIsFrugal(a.storage, |a.table|, peak);
    }
  }

  /** In every run, the table always fits, its capacity follows the law of doubling and never
      shrinks, and all growths together copy fewer entries than twice the most it has held. */
  lemma {:induction false} GrowthInRun(policy: Policy, listener: int, states: seq<Snapshot>, rounds: seq<RoundRecord>,
                                       n: nat)
    requires Run(policy, listener, states, rounds) && n <= |rounds|
    ensures Frugal(states[n].storage, Peak(states, rounds, n)) && Doubled(states[n].storage)
    ensures |states[n].table| <= states[n].storage.capacity
    ensures states[n].storage.capacity == 0 || states[n].storage.capacity >= 4
    ensures n > 0 ==> states[n - 1].storage.capacity <= states[n].storage.capacity
  {
    if n == 0 {
      assert 4 == 4 * Pow2(0);
    } else {
      GrowthInRun(policy, listener, states, rounds, n - 1);
      RoundIsFrugal(policy, listener, states[n - 1], rounds[n - 1], states[n], Peak(states, rounds, n - 1));
    }
  }

  /** A run that has come to now, with the calls of poll or select as they were made. */
  ghost predicate Recorded(policy: Policy, listener: int, states: seq<Snapshot>, rounds: seq<RoundRecord>,
                           calls: seq<Call>, now: Snapshot)
  {
    && Run(policy, listener, states, rounds) && states[|rounds|] == now
    && Frugal(now.storage, Peak(states, rounds, |rounds|))
    && |calls| == |rounds| && forall n :: 0 <= n < |rounds| ==> rounds[n].call == calls[n]
  }

  lemma RecordedStarts(policy: Policy, listener: int)
    ensures var s := Snapshot([], [], map[], FirstStorage(policy));
      Recorded(policy, listener, [s], [], [], s)
  {
    GrowthInRun(policy, listener, [Snapshot([], [], map[], FirstStorage(policy))], [], 0);
  }

  lemma RunExtends(policy: Policy, listener: int, states: seq<Snapshot>, rounds: seq<RoundRecord>,
                   a: Snapshot, r: RoundRecord, b: Snapshot)
    requires Run(policy, listener, states, rounds) && states[|rounds|] == a
    requires RoundEffect(policy, listener, a, r, b)
    ensures Run(policy, listener, states + [b], rounds + [r])
  {
    var states', rounds' := states + [b], rounds + [r];
    forall n | 0 <= n < |rounds'| ensures RoundEffect(policy, listener, states'[n], rounds'[n], states'[n + 1]) {
      if n == |rounds| {
        assert states'[n] == a && states'[n + 1] == b && rounds'[n] == r;
      } else {
        assert states'[n] == states[n] && states'[n + 1] == states[n + 1] && rounds'[n] == rounds[n];
      }
    }
  }

  lemma RecordedExtends(policy: Policy, listener: int, states: seq<Snapshot>, rounds: seq<RoundRecord>,
                        calls: seq<Call>, a: Snapshot, r: RoundRecord, b: Snapshot)
    requires Recorded(policy, listener, states, rounds, calls, a)
    requires RoundEffect(policy, listener, a, r, b)
    ensures Recorded(policy, listener, states + [b], rounds + [r], calls + [r.call], b)
  {
    RunExtends(policy, listener, states, rounds, a, r, b);
    GrowthInRun(policy, listener, states + [b], rounds + [r], |rounds| + 1);
  }

  /** A ready client that is not served moves down the table. */
  lemma PassedOver(listener: int, a: Snapshot, r: RoundRecord, b: Snapshot, p: nat) returns (p': nat)
    requires RoundEffect(SkipSwapped, listener, a, r, b) && p < |a.table|
    requires a.table[p] in r.call.ready && a.table[p] !in r.served
    ensures p' < p && p' < |b.table| && b.table[p'] == a.table[p]
  {
    DistinctWithAccepted(SkipSwapped, listener, a, r.call.ready, r.accepted, b.sessions);
    var t, fd := a.table + r.accepted, a.table[p];
    PollPassMisses(t, 0, r.call.ready, r.gone);
    assert t[0..] == t && t[p] == fd;
    assert fd in Missed(t, 0, r.call.ready, r.gone);
    assert MovedDown(t, b.table, fd);
    var j, k :| 0 <= j < |b.table| && j < k < |t| && b.table[j] == fd && t[k] == fd;
    assert k == p;
    p' := j;
  }

  /** Each call was asked about exactly the listening socket and the table as it was then. */
  ghost predicate WatchesAll(listener: int, calls: seq<Call>, states: seq<Snapshot>) {
    && |calls| <= |states|
    && forall n :: 0 <= n < |calls| ==> calls[n].asked == Watched(listener, states[n].table)
  }

  lemma RecordedWatchesAll(policy: Policy, listener: int, states: seq<Snapshot>, rounds: seq<RoundRecord>,
                           calls: seq<Call>, now: Snapshot)
    requires Recorded(policy, listener, states, rounds, calls, now)
    ensures WatchesAll(listener, calls, states)
  {
    forall n | 0 <= n < |calls| ensures calls[n].asked == Watched(listener, states[n].table) {
      RunRound(policy, listener, states, rounds, n);
    }
  }

  /** The call of the turn that ends the program. */
  lemma LastCallWatches(policy: Policy, listener: int, states: seq<Snapshot>, rounds: seq<RoundRecord>,
                        calls: seq<Call>, now: Snapshot, call: Call)
    requires Recorded(policy, listener, states, rounds, calls, now) && call.asked == Watched(listener, now.table)
    ensures WatchesAll(listener, calls + [call], states)
  {
    RecordedWatchesAll(policy, listener, states, rounds, calls, now);
  }

  /** A client that a turn does not drop stays in the table, no further down than before. */
  lemma StaysInTable(listener: int, a: Snapshot, r: RoundRecord, b: Snapshot, p: nat) returns (p': nat)
    requires RoundEffect(SkipSwapped, listener, a, r, b) && p < |a.table|
    requires a.table[p] !in r.served || a.table[p] !in r.gone
    ensures p' <= p && p' < |b.table| && b.table[p'] == a.table[p]
  {
    DistinctWithAccepted(SkipSwapped, listener, a, r.call.ready, r.accepted, b.sessions);
    var t, fd := a.table + r.accepted, a.table[p];
    PollPassServes(t, 0, r.call.ready, r.gone);
    PassRaisesNone(SkipSwapped, t, 0, r.call.ready, r.gone);
    assert t[p] == fd && fd in b.table;
    var j :| 0 <= j < |b.table| && b.table[j] == fd;
    assert WasAt(t, b.table[j], j);
    var k :| j <= k < |t| && t[k] == fd;
    assert k == p;
    p' := j;
  }

  /** In how many of the q turns from n on the client was reported ready ... */
  ghost function Reports(rounds: seq<RoundRecord>, n: nat, q: nat, fd: int): nat
    requires n + q <= |rounds|
    decreases q
  {
    if q == 0 then 0 else Reports(rounds, n + 1, q - 1, fd) + Flag(fd in rounds[n].call.ready)
  }

  /** ... and in how many of those it was not served. */
  ghost function Misses(rounds: seq<RoundRecord>, n: nat, q: nat, fd: int): nat
    requires n + q <= |rounds|
    decreases q
  {
    if q == 0 then 0
    else Misses(rounds, n + 1, q - 1, fd) + Flag(fd in rounds[n].call.ready && fd !in rounds[n].served)
  }

  /** The client is not dropped in the q turns from n on. */
  ghost predicate Kept(rounds: seq<RoundRecord>, n: nat, q: nat, fd: int)
    requires n + q <= |rounds|
  {
    forall m :: n <= m < n + q ==> fd !in rounds[m].served || fd !in rounds[m].gone
  }

  /** In every run of the poll server, a client at position p of the table is missed, from then on
      until it is dropped, at most p times in all. */
  lemma {:induction false} NoStarvation(listener: int, states: seq<Snapshot>, rounds: seq<RoundRecord>,
                                        n: nat, q: nat, p: nat, fd: int)
    requires Run(SkipSwapped, listener, states, rounds) && n + q <= |rounds| && Kept(rounds, n, q, fd)
    requires p < |states[n].table| && states[n].table[p] == fd
    ensures Misses(rounds, n, q, fd) <= p
    decreases q
  {
    if q > 0 {
      var p';
      if fd in rounds[n].call.ready && fd !in rounds[n].served {
        p' := PassedOver(listener, states[n], rounds[n], states[n + 1], p);
      } else {
        p' := StaysInTable(listener, states[n], rounds[n], states[n + 1], p);
      }
      NoStarvation(listener, states, rounds, n + 1, q - 1, p', fd);
    }
  }

  /** One turn, for the session of a client that it does not drop: one more word if it is served. */
  lemma KeptSession(listener: int, a: Snapshot, r: RoundRecord, b: Snapshot, j: nat)
    requires RoundEffect(SkipSwapped, listener, a, r, b) && j < |a.sessions| && a.sessions[j].closes == 0
    requires a.sessions[j].fd !in r.served || a.sessions[j].fd !in r.gone
    ensures j < |b.sessions| && b.sessions[j].closes == 0 && b.sessions[j].fd == a.sessions[j].fd
    ensures |b.sessions[j].log| == |a.sessions[j].log| + Flag(a.sessions[j].fd in r.served)
  {
    assert SessionEffect(a.sessions[j], b.sessions[j], r);
  }

  /** Each report is of a client that is served or missed. */
  lemma {:induction false} WordsSince(listener: int, states: seq<Snapshot>, rounds: seq<RoundRecord>,
                                      n: nat, q: nat, j: nat, fd: int)
    requires Run(SkipSwapped, listener, states, rounds) && n + q <= |rounds| && Kept(rounds, n, q, fd)
    requires j < |states[n].sessions| && states[n].sessions[j].closes == 0 && states[n].sessions[j].fd == fd
    ensures j < |states[n + q].sessions| && states[n + q].sessions[j].closes == 0
    ensures |states[n + q].sessions[j].log| + Misses(rounds, n, q, fd)
         >= |states[n].sessions[j].log| + Reports(rounds, n, q, fd)
    decreases q
  {
    if q > 0 {
      KeptSession(listener, states[n], rounds[n], states[n + 1], j);
      WordsSince(listener, states, rounds, n + 1, q - 1, j, fd);
    }
  }

  /** So a live session at position p has a word printed for every report of its client but at most
      p of them, as long as it is not dropped. */
  lemma WordsForReports(listener: int, states: seq<Snapshot>, rounds: seq<RoundRecord>,
                        n: nat, q: nat, p: nat, j: nat)
    requires Run(SkipSwapped, listener, states, rounds) && n + q <= |rounds| && p < |states[n].table|
    requires j < |states[n].sessions| && states[n].sessions[j].closes == 0
    requires states[n].sessions[j].fd == states[n].table[p] && Kept(rounds, n, q, states[n].table[p])
    ensures j < |states[n + q].sessions|
    ensures |states[n + q].sessions[j].log| + p >= |states[n].sessions[j].log| + Reports(rounds, n, q, states[n].table[p])
  {
    NoStarvation(listener, states, rounds, n, q, p, states[n].table[p]);
    WordsSince(listener, states, rounds, n, q, j, states[n].table[p]);
  }

  // ----- The end of a run

  /** The sessions after the closing loop: those still live, with a descriptor from lowest up,
      have been closed. */
  ghost predicate CleanedUp(lowest: int, a: seq<Session>, b: seq<Session>) {
    && |a| == |b|
    && forall j :: 0 <= j < |a| ==>
         b[j] == if a[j].closes == 0 && a[j].fd >= lowest then a[j].(closes := 1) else a[j]
  }

  /** Every session has been closed exactly once, unless its descriptor is below lowest. */
  ghost predicate ClosedOnce(lowest: int, ss: seq<Session>) {
    forall j :: 0 <= j < |ss| ==> ss[j].closes == 1 || (ss[j].closes == 0 && ss[j].fd < lowest)
  }

  /** The closing loop has dealt with the first i entries of the table of a; now and open are how
      things stand. */
  ghost predicate Cleaning(lowest: int, a: Snapshot, i: nat, now: seq<Session>, open: map<int, nat>) {
    && Lists(a.table, a.open) && Corresponds(a.sessions, a.open)
    && i <= |a.table| && |now| == |a.sessions|
    && (forall fd :: fd in open <==> fd in a.open && (fd < lowest || fd in a.table[i..]))
    && (forall fd :: fd in open ==> open[fd] == a.open[fd])
    && forall j :: 0 <= j < |now| ==> now[j] == Cleaned(lowest, a.table[i..], a.sessions[j])
  }

  /** A session after the closing loop, apart from the entries of the table in left. */
  function Cleaned(lowest: int, left: seq<int>, s: Session): Session {
    if s.closes == 0 && s.fd >= lowest && s.fd !in left then s.(closes := 1) else s
  }

  lemma CleaningStarts(lowest: int, a: Snapshot)
    requires Lists(a.table, a.open) && Corresponds(a.sessions, a.open)
    ensures Cleaning(lowest, a, 0, a.sessions, a.open)
  {
    assert a.table[0..] == a.table;
  }

  lemma CleaningAt(lowest: int, a: Snapshot, i: nat, now: seq<Session>, open: map<int, nat>)
    requires Cleaning(lowest, a, i, now, open) && i < |a.table|
    ensures a.table[i] >= lowest ==> a.table[i] in open
  {
    assert a.table[i] == a.table[i..][0] && a.table[i] in a.table;
  }

  lemma CleaningStep(lowest: int, a: Snapshot, i: nat, now: seq<Session>, open: map<int, nat>,
                     next: seq<Session>, open': map<int, nat>)
    requires Cleaning(lowest, a, i, now, open) && i < |a.table|
    requires var fd := a.table[i];
      if fd >= lowest then fd in open && ClosedOne(now, next, open[fd]) && open' == open - {fd}
      else next == now && open' == open
    ensures Cleaning(lowest, a, i + 1, next, open')
  {
    var fd, left := a.table[i], a.table[i + 1..];
    assert a.table[i..] == [fd] + left && fd in a.table && fd !in left;
    forall j | 0 <= j < |next| ensures next[j] == Cleaned(lowest, left, a.sessions[j]) {
      assert now[j] == Cleaned(lowest, a.table[i..], a.sessions[j]);
    }
  }

  lemma CleaningEnds(lowest: int, a: Snapshot, now: seq<Session>, open: map<int, nat>)
    requires Cleaning(lowest, a, |a.table|, now, open)
    requires Settled(a.sessions) && forall j :: 0 <= j < |a.sessions| ==> a.sessions[j].closes <= 1
    ensures CleanedUp(lowest, a.sessions, now) && ClosedOnce(lowest, now) && Settled(now)
  {
    assert a.table[|a.table|..] == [];
  }

  /** A closing loop that starts above 0, as the poll server's does, leaves a client open if its
      descriptor is 0: here the only client of a run of one turn. */
  lemma DescriptorZeroStaysOpen(listener: int) returns (states: seq<Snapshot>, rounds: seq<RoundRecord>)
    requires listener != 0
    ensures Run(SkipSwapped, listener, states, rounds) && |rounds| == 1
    ensures var ss := states[1].sessions;
      ss == [NewSession(0)] && CleanedUp(1, ss, ss) && !ClosedOnce(0, ss)
  {
    var a := Snapshot([], [], map[], FirstStorage(SkipSwapped));
    var b := Snapshot([0], [NewSession(0)], map[0 := 0], FirstStorage(SkipSwapped));
    var r := RoundRecord(Call({listener}, {listener}), [0], [], {});
    ZeroAccepted(listener, a, r, b);
    states, rounds := [a, b], [r];
    assert b.sessions[0] == NewSession(0);
  }

  lemma ZeroAccepted(listener: int, a: Snapshot, r: RoundRecord, b: Snapshot)
    requires listener != 0 && r == RoundRecord(Call({listener}, {listener}), [0], [], {})
    requires a == Snapshot([], [], map[], FirstStorage(SkipSwapped))
    requires b == Snapshot([0], [NewSession(0)], map[0 := 0], FirstStorage(SkipSwapped))
    ensures RoundEffect(SkipSwapped, listener, a, r, b)
  {
    ZeroConsistent(listener, a, b);
    ZeroNotServed(r.call.ready, r.gone);
    assert a.table + r.accepted == [0];
  }

  lemma ZeroConsistent(listener: int, a: Snapshot, b: Snapshot)
    requires listener != 0
    requires a == Snapshot([], [], map[], FirstStorage(SkipSwapped))
    requires b == Snapshot([0], [NewSession(0)], map[0 := 0], FirstStorage(SkipSwapped))
    ensures Consistent(listener, a) && Consistent(listener, b)
  {
    NewSessionSettled(a.sessions, 0);
    assert a.sessions + [NewSession(0)] == b.sessions;
  }

  lemma ZeroNotServed(ready: set<int>, gone: set<int>)
    requires 0 !in ready
    ensures ServePass(SkipSwapped, [0], 0, ready, gone) == Pass([0], [])
  {
    assert ServePass(SkipSwapped, [0], 1, ready, gone) == Pass([0], []);
  }

  // ----- A run in which a client gets everything through

  /** The session of a client that has sent the frames of ws and hung up, with the first m printed. */
  function Served(fd: int, ws: seq<Word>, m: nat): Session
    requires AllFit(ws) && m <= |ws|
  {
    Session(fd, Encode(ws), |Encode(ws[..m])|, true, false, ws[..m], 0)
  }

  function ServedState(fd: int, ws: seq<Word>, m: nat): Snapshot
    requires AllFit(ws) && m <= |ws|
  {
    Snapshot([fd], [Served(fd, ws, m)], map[fd := 0], Storage(4, 0))
  }

  function AllServed(fd: int, ws: seq<Word>): Snapshot
    requires AllFit(ws)
  {
    Snapshot([], [Served(fd, ws, |ws|).(closes := 1)], map[], Storage(4, 0))
  }

  lemma ServedIsAligned(fd: int, ws: seq<Word>, m: nat)
    requires AllFit(ws) && m <= |ws|
    ensures Aligned(Served(fd, ws, m)) && InOrder(Served(fd, ws, m))
    ensures InOrder(Served(fd, ws, m).(closes := 1))
  {
    EncodePrefix(ws[..m], ws);
    AlignedIsSound(Served(fd, ws, m));
  }

  lemma ServedConsistent(listener: int, fd: int, ws: seq<Word>, m: nat)
    requires AllFit(ws) && m <= |ws| && 0 <= fd <= INT_MAX && fd != listener
    ensures Consistent(listener, ServedState(fd, ws, m)) && Consistent(listener, AllServed(fd, ws))
  {
    ServedIsAligned(fd, ws, m);
    ServedIsAligned(fd, ws, |ws|);
  }

  lemma OneClientPass(policy: Policy, fd: int, listener: int)
    requires fd != listener
    ensures ServePass(policy, [fd], 0, {listener}, {}) == Pass([fd], [])
    ensures ServePass(policy, [fd], 0, {fd}, {}) == Pass([fd], [fd])
    ensures ServePass(policy, [fd], 0, {fd}, {fd}) == Pass([], [fd])
  {
    assert ServePass(policy, [fd], 1, {listener}, {}) == Pass([fd], []);
    assert ServePass(policy, [fd], 1, {fd}, {}) == Pass([fd], []);
    assert SwapRemove([fd], 0) == [];
    assert ServePass(policy, [], 0, {fd}, {fd}) == Pass([], []);
  }

  lemma AcceptedRound(policy: Policy, listener: int, fd: int, ws: seq<Word>)
    requires AllFit(ws) && 0 <= fd <= INT_MAX && fd != listener && (policy.Recheck? ==> fd < FD_SETSIZE)
    ensures RoundEffect(policy, listener, Snapshot([], [], map[], FirstStorage(policy)),
              RoundRecord(Call({listener}, {listener}), [fd], [], {}), ServedState(fd, ws, 0))
  {
    ServedConsistent(listener, fd, ws, 0);
    OneClientPass(policy, fd, listener);
    assert [] + [fd] == [fd] && ws[..0] == [];
  }

  lemma WordRound(policy: Policy, listener: int, fd: int, ws: seq<Word>, m: nat)
    requires AllFit(ws) && m < |ws| && 0 <= fd <= INT_MAX && fd != listener
    ensures RoundEffect(policy, listener, ServedState(fd, ws, m),
              RoundRecord(Call({listener, fd}, {fd}), [], [fd], {}), ServedState(fd, ws, m + 1))
  {
    ServedConsistent(listener, fd, ws, m);
    ServedConsistent(listener, fd, ws, m + 1);
    OneClientPass(policy, fd, listener);
    assert [fd] + [] == [fd] && ws[..m + 1] == ws[..m] + [ws[m]];
    assert Watched(listener, [fd]) == {listener, fd};
  }

  lemma ClosingRound(policy: Policy, listener: int, fd: int, ws: seq<Word>)
    requires AllFit(ws) && 0 <= fd <= INT_MAX && fd != listener
    ensures RoundEffect(policy, listener, ServedState(fd, ws, |ws|),
              RoundRecord(Call({listener, fd}, {fd}), [], [fd], {fd}), AllServed(fd, ws))
  {
    ServedConsistent(listener, fd, ws, |ws|);
    OneClientPass(policy, fd, listener);
    assert [fd] + [] == [fd] && ws[..|ws|] == ws;
    assert Watched(listener, [fd]) == {listener, fd};
  }

  lemma {:induction false} WordsPrintedSoFar(policy: Policy, listener: int, fd: int, ws: seq<Word>, m: nat)
    returns (states: seq<Snapshot>, rounds: seq<RoundRecord>)
    requires AllFit(ws) && m <= |ws| && 0 <= fd <= INT_MAX && fd != listener && (policy.Recheck? ==> fd < FD_SETSIZE)
    ensures Run(policy, listener, states, rounds) && |rounds| == m + 1 && states[m + 1] == ServedState(fd, ws, m)
  {
    if m == 0 {
      var first := Snapshot([], [], map[], FirstStorage(policy));
      AcceptedRound(policy, listener, fd, ws);
      var r := RoundRecord(Call({listener}, {listener}), [fd], [], {});
      RunExtends(policy, listener, [first], [], first, r, ServedState(fd, ws, 0));
      states, rounds := [first] + [ServedState(fd, ws, 0)], [] + [r];
    } else {
      var states', rounds' := WordsPrintedSoFar(policy, listener, fd, ws, m - 1);
      WordRound(policy, listener, fd, ws, m - 1);
      var r := RoundRecord(Call({listener, fd}, {fd}), [], [fd], {});
      RunExtends(policy, listener, states', rounds', ServedState(fd, ws, m - 1), r, ServedState(fd, ws, m));
      states, rounds := states' + [ServedState(fd, ws, m)], rounds' + [r];
    }
  }

  /** Whatever words a client has and whatever descriptor it gets, there is a run of either server in
      which it connects, sends their frames and hangs up, and all of them are printed and its session
      closed. */
  lemma AllWordsCanBePrinted(policy: Policy, listener: int, fd: int, ws: seq<Word>)
    returns (states: seq<Snapshot>, rounds: seq<RoundRecord>)
    requires AllFit(ws) && 0 <= fd <= 0x7fff_ffff && fd != listener && (policy.Recheck? ==> fd < 1024)
    ensures Run(policy, listener, states, rounds)
    ensures states[|rounds|].sessions ==
      [Session(fd, Encode(ws), |Encode(ws)|, true, false, ws, 1)]
  {
    var n := |ws|;
    var states', rounds' := WordsPrintedSoFar(policy, listener, fd, ws, n);
    ClosingRound(policy, listener, fd, ws);
    var r := RoundRecord(Call({listener, fd}, {fd}), [], [fd], {fd});
    RunExtends(policy, listener, states', rounds', ServedState(fd, ws, n), r, AllServed(fd, ws));
    states, rounds := states' + [AllServed(fd, ws)], rounds' + [r];
    assert ws[..n] == ws;
  }
}
