/** The shared-memory rendezvous: a client writes words into a shared buffer byte by byte, a
    server prints them, and two semaphores pass the turn. Every byte written, byte read, post
    and wait is one step. */
module SharedMemory {
  import opened Counting
  import opened Words
  import opened LineClient
  import opened Agreement

  const SHM_SIZE: nat := 1024

  /** The client's line buffer; one byte of it is kept for the NUL. */
  const BUFFER_LEN: nat := 100

  datatype Client =
    | Next                   // about to take the next word
    | Copy(pos: nat)         // in strncpy, pos bytes written
    | Terminate | Post | Wait
    | Sentinel | PostLast | WaitLast
    | ClientDone | TooLong

  datatype Server =
    | ServerWait
    | Check                  // strcmp with the empty string
    | Print(read: seq<Byte>) // in printf, these bytes read
    | ServerPost(last: bool)
    | ServerWaitLast
    | ServerDone

  /** next: how many words the client has posted. */
  datatype State = State(client: Client, server: Server, buffer: seq<Byte>, clientSem: nat, serverSem: nat,
                         next: nat, printed: seq<Word>)

  function Init(stale: seq<Byte>): State {
    State(Next, ServerWait, stale, 0, 0, 0, [])
  }

  datatype Action = ClientStep | ServerStep

  predicate Enabled(s: State, a: Action) {
    match a
    case ClientStep =>
      (s.client.Wait? || s.client.WaitLast? ==> s.serverSem > 0) && !s.client.ClientDone? && !s.client.TooLong?
    case ServerStep =>
      && (s.server.ServerWait? ==> s.clientSem > 0)
      && (s.server.ServerWaitLast? ==> s.serverSem > 0)
      && !s.server.ServerDone?
  }

  function Store(s: State, at: nat, b: Byte): State {
    if at < |s.buffer| then s.(buffer := s.buffer[at := b]) else s
  }

  function ClientTurn(s: State, words: seq<Word>): State {
    match s.client
    case Next =>
      if s.next >= |words| then s.(client := Sentinel)
      else if |words[s.next]| >= SHM_SIZE - 1 then s.(client := TooLong)
      else s.(client := Copy(0))
    case Copy(pos) =>
      if s.next < |words| && pos < |words[s.next]|
      then Store(s, pos, words[s.next][pos]).(client := Copy(pos + 1))
      else s.(client := Terminate)
    case Terminate =>
      Store(s, if s.next < |words| then |words[s.next]| else 0, NUL).(client := Post)
    case Post => s.(client := Wait, clientSem := s.clientSem + 1, next := s.next + 1)
    case Wait => if s.serverSem > 0 then s.(client := Next, serverSem := s.serverSem - 1) else s
    case Sentinel => Store(s, 0, NUL).(client := PostLast)
    case PostLast => s.(client := WaitLast, clientSem := s.clientSem + 1)
    case WaitLast => if s.serverSem > 0 then s.(client := ClientDone, serverSem := s.serverSem - 1) else s
    case _ => s
  }

  function ServerTurn(s: State): State {
    match s.server
    case ServerWait => if s.clientSem > 0 then s.(server := Check, clientSem := s.clientSem - 1) else s
    case Check => s.(server := if s.buffer != [] && s.buffer[0] == NUL then ServerPost(true) else Print([]))
    case Print(read) =>
      if |read| < |s.buffer| && s.buffer[|read|] != NUL then s.(server := Print(read + [s.buffer[|read|]]))
      else s.(server := ServerPost(false), printed := s.printed + [read])
    case ServerPost(last) =>
      s.(server := if last then ServerWaitLast else ServerWait, serverSem := s.serverSem + 1)
    case ServerWaitLast => if s.serverSem > 0 then s.(server := ServerDone, serverSem := s.serverSem - 1) else s
    case ServerDone => s
  }

  function Step(s: State, a: Action, words: seq<Word>): State {
    if a.ClientStep? then ClientTurn(s, words) else ServerTurn(s)
  }

  // ----- The invariant

  /** The client may touch the buffer. */
  predicate ClientTurnHeld(s: State) {
    s.client.Next? || s.client.Copy? || s.client.Terminate? || s.client.Post? || s.client.Sentinel?
    || s.client.PostLast? || s.client.TooLong?
  }

  /** The server may look at the buffer. */
  predicate ServerTurnHeld(s: State) {
    s.server.Check? || s.server.Print? || s.server.ServerPost?
  }

  /** Exactly one turn exists, until one of the two final waits has taken it. */
  predicate OneTurn(s: State) {
    Flag(ClientTurnHeld(s)) + s.clientSem + Flag(ServerTurnHeld(s)) + s.serverSem
      + Flag(s.client.ClientDone?) + Flag(s.server.ServerDone?) == 1
  }

  /** The buffer holds w as a C string. */
  predicate Holds(buffer: seq<Byte>, w: Word) {
    |w| < |buffer| && buffer[..|w|] == w && buffer[|w|] == NUL
  }

  /** Words as strtok yields them. */
  ghost predicate Tokens(words: seq<Word>) {
    forall w :: w in words ==> w != [] && NUL !in w
  }

  ghost predicate ClientInv(s: State, words: seq<Word>) {
    && s.next <= |words| && SHM_SIZE <= |s.buffer|
    && (s.client.Copy? || s.client.Terminate? || s.client.Post? ==>
          s.next < |words| && |words[s.next]| < SHM_SIZE - 1)
    && (s.client.Copy? ==> s.client.pos <= |words[s.next]| && s.buffer[..s.client.pos] == words[s.next][..s.client.pos])
    && (s.client.Terminate? ==> s.buffer[..|words[s.next]|] == words[s.next])
    && (s.client.Post? ==> Holds(s.buffer, words[s.next]))
    && (s.client.Wait? ==> s.next > 0)
    && (s.client.Sentinel? || s.client.PostLast? || s.client.WaitLast? || s.client.ClientDone? ==> s.next == |words|)
    && (s.client.PostLast? ==> s.buffer[0] == NUL)
    && (s.client.TooLong? ==> s.next < |words| && |words[s.next]| >= SHM_SIZE - 1)
  }

  /** The turn is on its way to the server or with it, and it has not printed the word yet. */
  predicate Unprinted(s: State) {
    s.clientSem > 0 || s.server.Check? || s.server.Print?
  }

  predicate ServerLeft(s: State) {
    s.server.ServerWaitLast? || s.server.ServerDone? || s.server == ServerPost(true)
  }

  ghost predicate ServerInv(s: State, words: seq<Word>) {
    && s.next <= |words|
    && (s.client.Wait? && Unprinted(s) ==>
          s.next > 0 && Holds(s.buffer, words[s.next - 1]) && s.printed == words[..s.next - 1])
    && (!(s.client.Wait? && Unprinted(s)) ==> s.printed == words[..s.next])
    && (s.server.Print? ==> s.client.Wait? && s.next > 0 && s.server.read <= words[s.next - 1])
    && (s.client.WaitLast? && Unprinted(s) ==> s.buffer != [] && s.buffer[0] == NUL)
    && (ServerLeft(s) <==> (s.client.WaitLast? && !Unprinted(s)) || s.client.ClientDone?)
  }

  ghost predicate Inv(s: State, words: seq<Word>) {
    OneTurn(s) && ClientInv(s, words) && ServerInv(s, words)
  }

  lemma InitInv(stale: seq<Byte>, words: seq<Word>)
    requires |stale| >= SHM_SIZE
    ensures Inv(Init(stale), words)
  {
  }

  lemma ClientKeepsInv(s: State, words: seq<Word>)
    requires Inv(s, words) && Tokens(words) && Enabled(s, ClientStep)
    ensures Inv(ClientTurn(s, words), words)
  {
    var s' := ClientTurn(s, words);
    if s.client.Copy? && s.client.pos < |words[s.next]| {
      var pos := s.client.pos;
      assert s'.buffer[..pos + 1] == s.buffer[..pos] + [words[s.next][pos]];
      assert words[s.next][..pos + 1] == words[s.next][..pos] + [words[s.next][pos]];
    } else if s.client.Terminate? {
      assert s'.buffer[..|words[s.next]|] == s.buffer[..|words[s.next]|];
    }
  }

  lemma ServerKeepsInv(s: State, words: seq<Word>)
    requires Inv(s, words) && Tokens(words) && Enabled(s, ServerStep)
    ensures Inv(ServerTurn(s), words)
  {
    if s.client.Wait? && Unprinted(s) {
      var w := words[s.next - 1];
      assert w in words;
      assert s.buffer[0] == s.buffer[..|w|][0] == w[0];
      assert words[..s.next] == words[..s.next - 1] + [w];
      if s.server.Print? && |s.server.read| < |w| {
        var n := |s.server.read|;
        assert s.buffer[n] == s.buffer[..|w|][n] == w[n];
        assert w[n] in w;
        assert w[..n + 1] == s.server.read + [w[n]];
      } else if s.server.Print? {
        assert s.server.read == w;
      }
    }
  }

  lemma StepKeepsInv(s: State, a: Action, words: seq<Word>)
    requires Inv(s, words) && Tokens(words) && Enabled(s, a)
    ensures Inv(Step(s, a, words), words)
  {
    if a.ClientStep? {
      ClientKeepsInv(s, words);
    } else {
      ServerKeepsInv(s, words);
    }
  }

  /** No read of the buffer overlaps a write, and while the server reads the buffer it holds a
      complete C string: the last word posted, or the empty one at the end. */
  lemma ReadsAndWritesAlternate(s: State, words: seq<Word>)
    requires Inv(s, words) && ServerTurnHeld(s)
    ensures !ClientTurnHeld(s) && s.clientSem == 0 && s.serverSem == 0
    ensures s.server.Check? || s.server.Print? ==>
      if s.client.Wait? then s.next > 0 && Holds(s.buffer, words[s.next - 1]) else Holds(s.buffer, [])
  {
    assert s.buffer[..0] == [];
  }

  // ----- What can hold up a process

  /** Each process is held up only by the semaphore it waits for. */
  lemma StepsAreLocal(s: State, s': State)
    requires s'.serverSem == s.serverSem
    ensures s'.client == s.client ==> (Enabled(s, ClientStep) <==> Enabled(s', ClientStep))
    ensures s'.server == s.server && s'.clientSem == s.clientSem ==> (Enabled(s, ServerStep) <==> Enabled(s', ServerStep))
  {
  }

  // ----- Where runs end

  predicate Stuck(s: State) {
    !Enabled(s, ClientStep) && !Enabled(s, ServerStep)
  }

  /** The two final waits share one post: a run that cannot be continued has exactly one process
      done and the other waiting for good, with every word printed -- or, if some word is too long
      for the buffer, the client has given up there and the server waits for good. */
  lemma Outcome(s: State, words: seq<Word>)
    requires Inv(s, words) && Stuck(s)
    ensures s.client.TooLong? || ((s.client.ClientDone? && s.server.ServerWaitLast?)
                                  || (s.client.WaitLast? && s.server.ServerDone?))
    ensures !s.client.TooLong? ==> s.printed == words
    ensures s.client.TooLong? ==>
      s.server.ServerWait? && s.printed == words[..s.next] && |words[s.next]| >= SHM_SIZE - 1
  {
    assert words[..|words|] == words;
  }

  /** When both have come to their final waits, either can be the one that finishes, and the other then
      waits for good. */
  lemma EitherCanFinish(s: State, words: seq<Word>)
    requires Inv(s, words) && s.client.WaitLast? && s.server.ServerWaitLast?
    ensures Enabled(s, ClientStep) && ClientTurn(s, words).client.ClientDone? && Stuck(ClientTurn(s, words))
    ensures Enabled(s, ServerStep) && ServerTurn(s).server.ServerDone? && Stuck(ServerTurn(s))
  {
  }

  /** Once the server has left its loop it has printed every word, and never before a prefix. */
  lemma PrintedIsPrefix(s: State, words: seq<Word>)
    requires Inv(s, words)
    ensures s.printed <= words
    ensures ServerLeft(s) ==> s.printed == words
  {
    assert words[..|words|] == words;
  }

  // ----- Termination

  const LAST_WORK: nat := 12

  function WordsWork(words: seq<Word>): nat {
    if words == [] then LAST_WORK else 2 * |words[0]| + 13 + WordsWork(words[1..])
  }

  /** The word the client is publishing, or the server reading. */
  function Current(s: State, words: seq<Word>): Word {
    if (s.client.Copy? || s.client.Terminate? || s.client.Post?) && s.next < |words| then words[s.next]
    else if s.client.Wait? && 0 < s.next <= |words| then words[s.next - 1]
    else []
  }

  function ClientWork(s: State, words: seq<Word>): int
    requires s.next <= |words|
  {
    var n := |Current(s, words)|;
    var rest := if s.client.Copy? || s.client.Terminate? || s.client.Post?
                then WordsWork(words[if s.next < |words| then s.next + 1 else s.next..])
                else WordsWork(words[s.next..]);
    match s.client
    case Next => rest
    case Copy(pos) => rest + 2 * n + 12 - pos
    case Terminate => rest + n + 11
    case Post => rest + n + 10
    case Wait => rest
    case Sentinel => 11
    case PostLast => 10
    case _ => 0
  }

  function ServerWork(s: State, words: seq<Word>): int
    requires s.next <= |words|
  {
    var n := |Current(s, words)|;
    2 * s.serverSem +
    (if s.clientSem > 0 then n + 8 else 0) +
    match s.server
    case Check => n + 7
    case Print(read) => n + 6 - |read|
    case ServerPost(_) => 3
    case _ => 0
  }

  function Measure(s: State, words: seq<Word>): int
    requires s.next <= |words|
  {
    ClientWork(s, words) + ServerWork(s, words)
  }

  lemma MeasureBounded(s: State, words: seq<Word>)
    requires Inv(s, words)
    ensures Measure(s, words) >= 0
  {
  }

  lemma WordsWorkFrom(words: seq<Word>, i: nat)
    requires i < |words|
    ensures WordsWork(words[i..]) == 2 * |words[i]| + 13 + WordsWork(words[i + 1..])
  {
    assert words[i..][1..] == words[i + 1..];
  }

  lemma ClientStepDecreases(s: State, words: seq<Word>)
    requires Inv(s, words) && Enabled(s, ClientStep)
    requires ClientTurn(s, words).next <= |words|
    ensures Measure(ClientTurn(s, words), words) < Measure(s, words)
  {
    match s.client
    case Next => if s.next < |words| { WordsWorkFrom(words, s.next); }
    case Post => PostDecreases(s, words);
    case _ =>
  }

  lemma PostDecreases(s: State, words: seq<Word>)
    requires Inv(s, words) && s.client.Post?
    ensures Measure(ClientTurn(s, words), words) < Measure(s, words)
  {
    assert s.clientSem == 0 && !ServerTurnHeld(s);
  }

  lemma ServerStepDecreases(s: State, words: seq<Word>)
    requires Inv(s, words) && Enabled(s, ServerStep)
    ensures Measure(ServerTurn(s), words) < Measure(s, words)
  {
  }

  // ----- Runs

  ghost predicate Legal(s: State, run: seq<Action>, words: seq<Word>)
    decreases |run|
  {
    run == [] || (Enabled(s, run[0]) && Legal(Step(s, run[0], words), run[1..], words))
  }

  ghost function Last(s: State, run: seq<Action>, words: seq<Word>): State
    requires Legal(s, run, words)
    decreases |run|
  {
    if run == [] then s else Last(Step(s, run[0], words), run[1..], words)
  }

  lemma {:induction false} RunKeepsInv(s: State, run: seq<Action>, words: seq<Word>)
    requires Inv(s, words) && Tokens(words) && Legal(s, run, words)
    ensures Inv(Last(s, run, words), words)
    ensures |run| <= Measure(s, words)
    decreases |run|
  {
    if run == [] {
      MeasureBounded(s, words);
    } else {
      StepKeepsInv(s, run[0], words);
      if run[0].ClientStep? {
        ClientStepDecreases(s, words);
      } else {
        ServerStepDecreases(s, words);
      }
      RunKeepsInv(Step(s, run[0], words), run[1..], words);
    }
  }

  /** For every file and whatever the buffer held before: in every run the server has printed a
      prefix of the words the client finds; every run is finite; and a run that cannot be
      continued has printed them all and left exactly one of the two processes waiting. */
  lemma Rendezvous(file: seq<Byte>, stale: seq<Byte>, run: seq<Action>)
    requires |stale| >= SHM_SIZE
    requires Legal(Init(stale), run, LineTokens(file, BUFFER_LEN - 1))
    ensures var words, t := LineTokens(file, BUFFER_LEN - 1), Last(Init(stale), run, LineTokens(file, BUFFER_LEN - 1));
      && OneTurn(t) && t.printed <= words
      && (ServerLeft(t) ==> t.printed == words)
      && |run| <= WordsWork(words)
      && (Stuck(t) ==> t.printed == words && (t.client.ClientDone? <==> !t.server.ServerDone?))
  {
    var words := LineTokens(file, BUFFER_LEN - 1);
    LineTokensHaveNoNul(file, BUFFER_LEN - 1);
    InitInv(stale, words);
    assert words[0..] == words;
    RunKeepsInv(Init(stale), run, words);
    var t := Last(Init(stale), run, words);
    PrintedIsPrefix(t, words);
    assert t.next < |words| ==> words[t.next] in words;
    if Stuck(t) {
      Outcome(t, words);
    }
  }

  /** For a file without NULs in which every line has at most 99 bytes, its newline included, the server
      prints the words of the file. */
  lemma ShortLinesArePrinted(file: seq<Byte>, stale: seq<Byte>, run: seq<Action>)
    requires |stale| >= 1024 && NUL !in file && LinesFit(file, 99)
    requires Legal(Init(stale), run, LineTokens(file, BUFFER_LEN - 1))
    requires Stuck(Last(Init(stale), run, LineTokens(file, BUFFER_LEN - 1)))
    ensures Last(Init(stale), run, LineTokens(file, BUFFER_LEN - 1)).printed == Split(file)
  {
    Rendezvous(file, stale, run);
    ShortLinesAreNotCut(file, 99);
    TokenisersAgree(file, BUFFER_LEN - 1);
  }

  /** The handshake by itself, for words from anywhere: a run that cannot be continued has printed all of
      them if and only if each has fewer than 1023 bytes, and otherwise exactly those before the first
      that has not. */
  lemma WordsArePrintedIff(words: seq<Word>, stale: seq<Byte>, run: seq<Action>)
    requires |stale| >= 1024 && Tokens(words) && Legal(Init(stale), run, words)
    requires Stuck(Last(Init(stale), run, words))
    ensures var t := Last(Init(stale), run, words);
      && (t.printed == words <==> forall w :: w in words ==> |w| < 1023)
      && t.printed <= words && (forall w :: w in t.printed ==> |w| < 1023)
      && (t.printed != words ==> |words[|t.printed|]| >= 1023)
  {
    InitInv(stale, words);
    assert words[0..] == words;
    RunKeepsInv(Init(stale), run, words);
    RunSendsShort(Init(stale), run, words);
    var t := Last(Init(stale), run, words);
    Outcome(t, words);
    PrintedIsPrefix(t, words);
    if t.client.TooLong? {
      assert words[t.next] in words;
    }
  }

  /** What has been posted is not too long. */
  ghost predicate PostedFit(s: State, words: seq<Word>) {
    forall i :: 0 <= i < s.next && i < |words| ==> |words[i]| < SHM_SIZE - 1
  }

  lemma {:induction false} RunSendsShort(s: State, run: seq<Action>, words: seq<Word>)
    requires Inv(s, words) && Tokens(words) && Legal(s, run, words) && PostedFit(s, words)
    ensures PostedFit(Last(s, run, words), words)
    decreases |run|
  {
    if run != [] {
      StepKeepsInv(s, run[0], words);
      RunSendsShort(Step(s, run[0], words), run[1..], words);
    }
  }
}
