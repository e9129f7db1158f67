/** What the invariant of the reliable pipe gives for whole runs: no deadlock, a bound on the
    number of steps, and where every maximal run ends. */
module ReliablePipeRuns {
  import opened Words
  import opened Framing
  import opened ReliablePipe
  import PipeIo

  /** The least the pipe must hold: two frames of the greatest length. */
  const TWO_FRAMES: nat := 512

  /** At most two frames are in the pipe, counting what write_fully has still to write. */
  lemma PipeBounded(s: State, file: seq<Byte>)
    requires Inv(s, file)
    ensures |s.pipe| + |Unwritten(s)| <= TWO_FRAMES
  {
    InFlight(s);
    assert |Consumed(s) + (s.pipe + Unwritten(s))| == |Encode(s.begun[|s.received|..])|;
  }

  /** After the parent has closed its end, the child has nothing left to write, and while the
      parent is inside read_fully the bytes it waits for are already in the pipe. */
  lemma NeitherEndRunsDry(s: State, file: seq<Byte>)
    requires Inv(s, file)
    ensures s.parent.ParentDone? ==> !Writing(s) && s.pipe == []
    ensures s.parent.ReadHeader? ==> !Incomplete(s.pipe)
    ensures s.parent.ReadBody? ==> s.parent.length - |s.parent.got| <= |s.pipe|
  {
    InFlight(s);
    if s.parent.ReadHeader? || s.parent.ReadBody? {
      CompleteFrameAhead(s, file);
      var frame := Frame(s.begun[|s.received|]);
      if s.parent.ReadHeader? {
        assert frame[0..] == frame && s.pipe[0] == frame[0];
      } else {
        assert Consumed(s)[0] == frame[0];
      }
    } else if s.parent.ParentDone? {
      ParentDoneAtEnd(s, file);
    }
  }

  lemma ParentDoneAtEnd(s: State, file: seq<Byte>)
    requires Inv(s, file) && s.parent.ParentDone?
    ensures Finishing(s) && !Writing(s) && s.pipe == [] && s.received == Split(file)
  {
    InFlight(s);
    var b := s.begun[|s.received|];
    var all := Consumed(s) + (s.pipe + Unwritten(s));
    assert all[0] == Encode(s.begun[|s.received|..])[0] == |b|;
    assert |all| == 1;
    assert s.received == s.begun[..|s.begun| - 1] == Split(file);
  }

  /** No process has a step to take. */
  predicate Finished(s: State) {
    || (s.child.ChildDone? && s.parent.ParentDone?)
    || (s.child.ChildFailed? && s.parent.WaitFrame? && s.semParent == 0)
  }

  /** A step that is open in an unfinished state: the child's if it is not waiting, and it can
      then write all it has left at once; otherwise the parent's. */
  function NextAction(s: State): Action {
    match s.child
    case Scan => ChildRead
    case WriteHeader(_) => ChildWrite(1)
    case WriteBody(left, _) => ChildWrite(|left|)
    case Post(_) => ChildPost
    case Wait(_) => if s.semChild > 0 then ChildWait else ParentAction(s)
    case _ => ParentAction(s)
  }

  function ParentAction(s: State): Action {
    match s.parent
    case WaitFrame => ParentWait
    case PostBack => ParentPost
    case _ => ParentRead(1)
  }

  /** Deadlock freedom, given room for two frames. */
  lemma Progress(s: State, file: seq<Byte>, capacity: nat)
    requires Inv(s, file) && capacity >= TWO_FRAMES && !Finished(s)
    ensures Enabled(s, NextAction(s), capacity)
  {
    PipeBounded(s, file);
    NeitherEndRunsDry(s, file);
    if s.child.ChildDone? && s.parent.WaitFrame? {
      assert s.begun[|s.begun| - 1] == [];
    }
  }

  /** Where a finished run leaves the system. */
  lemma Outcome(s: State, file: seq<Byte>)
    requires Inv(s, file) && Finished(s)
    ensures s.pipe == [] && s.semParent == 0
    ensures s.child.ChildDone? ==> AllFit(Split(file)) && s.received == Split(file) && s.semChild == 0
    ensures s.child.ChildFailed? ==>
      !AllFit(Split(file)) && s.received == Deliver(Split(file)).words && s.semChild == 1
  {
    DeliverPrefix(Split(file));
    if s.child.ChildDone? {
      ParentDoneAtEnd(s, file);
      assert forall i :: 0 <= i < |s.received| ==> s.received[i] == s.begun[i];
    } else {
      assert s.received == s.begun;
      InFlight(s);
      assert |Consumed(s) + (s.pipe + Unwritten(s))| == 0;
    }
  }

  /** However the steps interleave, the frames the child has sent by the end are byte for byte
      what the child writes when it runs alone. */
  lemma WritesChildOutput(s: State, file: seq<Byte>)
    requires Inv(s, file) && (s.child.ChildDone? || s.child.ChildFailed?)
    ensures Encode(s.begun) == PipeIo.ChildOutput(file)
  {
    var ws := Split(file);
    DeliverPrefix(ws);
    if s.child.ChildDone? {
      assert AllFit(ws) by {
        assert forall i :: 0 <= i < |ws| ==> ws[i] == s.begun[i];
      }
      EncodeAppend(ws, [[]]);
      assert Encode([[]]) == Frame([]);
    } else {
      assert Encode(s.begun) + [] == Encode(s.begun);
    }
  }

  // ----- Termination

  const TERMINATOR_WORK: nat := 7

  function AfterWork(after: After): nat {
    if after.Exit? then 0 else TERMINATOR_WORK
  }

  function ChildWork(s: State): nat {
    match s.child
    case Scan => TERMINATOR_WORK + if s.word == [] then 0 else 2 * |s.word| + 7
    case WriteHeader(after) => 2 * (|s.word| + 1) + 4 + AfterWork(after)
    case WriteBody(left, after) => 2 * |left| + 4 + AfterWork(after)
    case Post(after) => 4 + AfterWork(after)
    case Wait(after) => 1 + AfterWork(after)
    case _ => 0
  }

  /** An upper bound on the steps left: file bytes to scan, bytes to write and to read, and
      semaphore operations to come. */
  function Measure(s: State): nat {
    10 * |s.rest| + ChildWork(s) + |s.pipe| + 2 * s.semParent
      + if s.parent.WaitFrame? || s.parent.ParentDone? then 0 else 1
  }

  lemma StepDecreases(s: State, a: Action)
    requires Ready(s, a)
    ensures Measure(Step(s, a)) < Measure(s)
  {
  }

  // ----- Runs

  ghost predicate Legal(s: State, run: seq<Action>, capacity: nat)
    decreases |run|
  {
    run == [] || (Enabled(s, run[0], capacity) && Legal(Step(s, run[0]), run[1..], capacity))
  }

  ghost function Last(s: State, run: seq<Action>, capacity: nat): State
    requires Legal(s, run, capacity)
    decreases |run|
  {
    if run == [] then s else Last(Step(s, run[0]), run[1..], capacity)
  }

  lemma {:induction false} RunKeepsInv(s: State, run: seq<Action>, capacity: nat, file: seq<Byte>)
    requires Inv(s, file) && Legal(s, run, capacity)
    ensures Inv(Last(s, run, capacity), file)
    ensures |run| + Measure(Last(s, run, capacity)) <= Measure(s)
    decreases |run|
  {
    if run != [] {
      StepKeepsInv(s, run[0], file);
      StepDecreases(s, run[0]);
      RunKeepsInv(Step(s, run[0]), run[1..], capacity, file);
    }
  }

  /** In every run over every file, the parent has received a prefix of what the child could
      send, and the whole file's words once it has stopped. */
  lemma Safety(file: seq<Byte>, run: seq<Action>, capacity: nat)
    requires Legal(Init(file), run, capacity)
    ensures var t := Last(Init(file), run, capacity);
      && t.received <= Deliver(Split(file)).words
      && (t.parent.ParentDone? ==> t.received == Split(file))
      && |t.pipe| + |Unwritten(t)| <= TWO_FRAMES
  {
    InitInv(file);
    RunKeepsInv(Init(file), run, capacity, file);
    var t := Last(Init(file), run, capacity);
    PipeBounded(t, file);
    if t.parent.ParentDone? {
      ParentDoneAtEnd(t, file);
    }
    ReceivedAreDeliverable(t, file);
  }

  /** What the child has begun to send is part of what can be delivered, and perhaps the
      terminator. */
  lemma BegunIsDeliverable(s: State, file: seq<Byte>)
    requires Inv(s, file)
    ensures s.begun <= Deliver(Split(file)).words + [[]]
  {
    var ws := Split(file);
    DeliverPrefix(ws);
    if Finishing(s) {
      assert AllFit(ws) by {
        assert forall i :: 0 <= i < |ws| ==> ws[i] == s.begun[i];
      }
    } else if !s.child.ChildFailed? {
      var more := if s.child.Scan? then Split(s.word + s.rest) else if s.child.after.BackToScan? then Split(s.rest) else [];
      assert ws == s.begun + more;
      BegunFirst(s.begun, more);
    }
  }

  lemma BegunFirst(begun: seq<Word>, more: seq<Word>)
    requires AllFit(begun)
    ensures begun <= Deliver(begun + more).words + [[]]
  {
    DeliverPrefix(begun);
    DeliverAppend(begun, more);
  }

  lemma ReceivedAreDeliverable(s: State, file: seq<Byte>)
    requires Inv(s, file)
    ensures s.received <= Deliver(Split(file)).words
  {
    BegunIsDeliverable(s, file);
    var ws := Deliver(Split(file)).words;
    assert (ws + [[]])[|ws|] == [];
    assert s.received <= ws + [[]];
  }

  /** Every run is finite, with a bound linear in the length of the file, and every run that
      cannot be continued has delivered the whole file with both processes done, the pipe
      empty and both semaphores at 0 -- if, and only if, every word of the file fits. If one
      does not, the child has failed and the parent waits for good, having received exactly
      the words before it. */
  lemma Termination(file: seq<Byte>, run: seq<Action>, capacity: nat)
    requires capacity >= TWO_FRAMES && Legal(Init(file), run, capacity)
    ensures |run| <= 10 * |file| + TERMINATOR_WORK
    ensures var t := Last(Init(file), run, capacity);
      (forall a :: !Enabled(t, a, capacity)) ==>
        && t.pipe == [] && t.semParent == 0
        && (AllFit(Split(file)) ==>
              t.child.ChildDone? && t.parent.ParentDone? && t.semChild == 0 && t.received == Split(file))
        && (!AllFit(Split(file)) ==>
              t.child.ChildFailed? && t.parent.WaitFrame? && t.received == Deliver(Split(file)).words)
  {
    InitInv(file);
    RunKeepsInv(Init(file), run, capacity, file);
    var t := Last(Init(file), run, capacity);
    if forall a :: !Enabled(t, a, capacity) {
      if !Finished(t) {
        Progress(t, file, capacity);
        assert false;
      }
      Outcome(t, file);
    }
  }

  // ----- The buffers

  lemma NulsFitPrefix(a: seq<Word>, b: seq<Word>, slots: nat)
    requires a <= b && NulsFit(b, slots)
    ensures NulsFit(a, slots)
  {
    assert forall i :: 0 <= i < |a| ==> a[i] == b[i];
  }

  /** The child stores a NUL after each word it begins to send, and the parent after each word it
      receives. */
  lemma BegunNulsFit(s: State, file: seq<Byte>, slots: nat)
    requires Inv(s, file) && NulsFit(Deliver(Split(file)).words, slots)
    ensures NulsFit(s.begun, slots) && NulsFit(s.received, slots)
  {
    BegunIsDeliverable(s, file);
    NulsFitPrefix(s.begun, Deliver(Split(file)).words + [[]], slots);
    NulsFitPrefix(s.received, s.begun, slots);
  }

  /** In every run, no NUL is stored outside buffers of this size, if none of the words that can be
      delivered is too long for them. */
  lemma NulsStayInside(file: seq<Byte>, run: seq<Action>, capacity: nat, slots: nat)
    requires Legal(Init(file), run, capacity) && NulsFit(Deliver(Split(file)).words, slots)
    ensures var t := Last(Init(file), run, capacity); NulsFit(t.begun, slots) && NulsFit(t.received, slots)
  {
    InitInv(file);
    RunKeepsInv(Init(file), run, capacity, file);
    BegunNulsFit(Last(Init(file), run, capacity), file, slots);
  }

  /** In a run that cannot be continued, all of them have been begun. */
  lemma FinishedBegun(s: State, file: seq<Byte>)
    requires Inv(s, file) && Finished(s)
    ensures Deliver(Split(file)).words <= s.begun
  {
    DeliverPrefix(Split(file));
  }

  /** Of runs that cannot be continued: no NUL was stored outside buffers of this size if and only if
      none of the words that can be delivered is too long for them. */
  lemma NulsStayInsideIff(file: seq<Byte>, run: seq<Action>, capacity: nat, slots: nat)
    requires capacity >= TWO_FRAMES && Legal(Init(file), run, capacity)
    requires forall a :: !Enabled(Last(Init(file), run, capacity), a, capacity)
    ensures NulsFit(Last(Init(file), run, capacity).begun, slots) <==> NulsFit(Deliver(Split(file)).words, slots)
  {
    InitInv(file);
    RunKeepsInv(Init(file), run, capacity, file);
    var t := Last(Init(file), run, capacity);
    if !Finished(t) {
      Progress(t, file, capacity);
    } else {
      FinishedBegun(t, file);
      if NulsFit(t.begun, slots) {
        NulsFitPrefix(Deliver(Split(file)).words, t.begun, slots);
      } else if NulsFit(Deliver(Split(file)).words, slots) {
        BegunNulsFit(t, file, slots);
      }
    }
  }

  /** With the buffers that the source declares, a run that cannot be continued has ended cleanly and
      without storing a NUL outside them if and only if every word of the file has fewer than 255
      bytes; with one slot more, no run ever stores one outside. */
  lemma DeclaredBuffers(file: seq<Byte>, run: seq<Action>, capacity: nat)
    requires capacity >= TWO_FRAMES && Legal(Init(file), run, capacity)
    requires forall a :: !Enabled(Last(Init(file), run, capacity), a, capacity)
    ensures var t := Last(Init(file), run, capacity);
      && (NulsFit(Split(file), PipeIo.DECLARED_SLOTS) <==>
            t.child.ChildDone? && t.parent.ParentDone? && NulsFit(t.begun, PipeIo.DECLARED_SLOTS))
      && NulsFit(t.begun, PipeIo.DECLARED_SLOTS + 1)
  {
    Termination(file, run, capacity);
    NulsStayInsideIff(file, run, capacity, PipeIo.DECLARED_SLOTS);
    NulsStayInsideIff(file, run, capacity, PipeIo.DECLARED_SLOTS + 1);
    DeliverPrefix(Split(file));
    SplitMembers(file);
    var ws := Split(file);
    assert forall i :: 0 <= i < |ws| ==> ws[i] in ws;
  }

  /** From the middle of a word up to the end of the file: the child sends the word if it fits. */
  lemma {:induction false} ScansToEnd(s: State, capacity: nat) returns (run: seq<Action>)
    requires s.child.Scan? && NoDelimiter(s.rest) && |s.word| + |s.rest| <= MAX_WORD
    ensures Legal(s, run, capacity) && Last(s, run, capacity).begun == s.begun + [s.word + s.rest]
    decreases |s.rest|
  {
    var next := Step(s, ChildRead);
    if s.rest == [] {
      run := [ChildRead];
      assert run[1..] == [] && s.word + [] == s.word;
    } else {
      assert NoDelimiter(next.rest) by {
        assert forall i :: 0 <= i < |next.rest| ==> next.rest[i] == s.rest[i + 1];
      }
      assert next.word + next.rest == s.word + s.rest;
      var rest := ScansToEnd(next, capacity);
      run := [ChildRead] + rest;
      assert run[1..] == rest;
    }
  }

  /** One word of 255 bytes is enough: it can be sent, and its NUL does not fit the declared buffer. */
  lemma LongestWordOverruns(b: Byte, capacity: nat) returns (file: seq<Byte>, run: seq<Action>)
    requires !IsDelimiter(b)
    ensures file == seq(MAX_WORD, _ => b) && AllFit(Split(file))
    ensures Legal(Init(file), run, capacity)
    ensures !NulsFit(Last(Init(file), run, capacity).begun, PipeIo.DECLARED_SLOTS)
  {
    file := seq(MAX_WORD, _ => b);
    SplitRun(file);
    run := ScansToEnd(Init(file), capacity);
    assert [] + file == file;
    assert Last(Init(file), run, capacity).begun[0] == file;
  }

  // ----- A run that does not end cleanly

  /** From the middle of a word that is too long: the child reads up to the limit and gives up. */
  lemma {:induction false} ScansToFailure(s: State, capacity: nat) returns (run: seq<Action>)
    requires s.child.Scan? && NoDelimiter(s.rest) && |s.word| + |s.rest| > MAX_WORD
    ensures Legal(s, run, capacity) && Last(s, run, capacity).child.ChildFailed?
    ensures Last(s, run, capacity).parent == s.parent && Last(s, run, capacity).semParent == s.semParent
    decreases |s.rest|
  {
    var next := Step(s, ChildRead);
    if next.child.ChildFailed? {
      run := [ChildRead];
      assert run[1..] == [];
    } else {
      assert NoDelimiter(next.rest) by {
        assert forall i :: 0 <= i < |next.rest| ==> next.rest[i] == s.rest[i + 1];
      }
      var rest := ScansToFailure(next, capacity);
      run := [ChildRead] + rest;
      assert run[1..] == rest;
    }
  }

  /** One word of 256 bytes is enough: the child fails, and the parent waits for good. */
  lemma LongWordStrandsParent(b: Byte, capacity: nat) returns (file: seq<Byte>, run: seq<Action>)
    requires !IsDelimiter(b)
    ensures file == seq(MAX_WORD + 1, _ => b) && !AllFit(Split(file))
    ensures Legal(Init(file), run, capacity)
    ensures var t := Last(Init(file), run, capacity);
      && t.child.ChildFailed? && t.parent.WaitFrame?
      && forall a :: !Enabled(t, a, capacity)
  {
    file := seq(MAX_WORD + 1, _ => b);
    SplitRun(file);
    assert Split(file)[0] == file;
    run := ScansToFailure(Init(file), capacity);
  }
}
