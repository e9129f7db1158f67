/** The two processes of the reliable pipe, interleaved. The child scans a file one byte at a
    time and sends each word as a frame; two semaphores pace the processes. Every fgetc,
    write, read, sem_post and sem_wait is one step, and a read or write moves any number of
    bytes from one up to what it may. */
module ReliablePipe {
  import opened Counting
  import opened Words
  import opened Framing

  /** What the child does once the frame it is sending has been acknowledged. */
  datatype After = BackToScan | SendTerminator | Exit

  datatype Child =
    | Scan
    | WriteHeader(after: After)
    | WriteBody(left: seq<Byte>, after: After)
    | Post(after: After)
    | Wait(after: After)
    | ChildDone
    | ChildFailed

  datatype Parent =
    | WaitFrame
    | ReadHeader
    | ReadBody(length: Byte, got: seq<Byte>)
    | PostBack
    | ParentDone

  /** What the child's buffer can hold; its length is a uint8_t. */
  type Buffer = w: Word | |w| <= MAX_WORD witness []

  datatype State = State(
    child: Child,
    rest: seq<Byte>,      // the file not yet read
    word: Buffer,         // the child's buffer
    begun: seq<Word>,     // the frames the child has begun to send; the terminator is an empty one
    pipe: seq<Byte>,
    semParent: nat,
    semChild: nat,
    parent: Parent,
    received: seq<Word>)  // the words the parent has printed

  datatype Action =
    | ChildRead
    | ChildWrite(written: nat)
    | ChildPost
    | ChildWait
    | ParentWait
    | ParentRead(taken: nat)
    | ParentPost

  function Init(file: seq<Byte>): State {
    State(Scan, file, [], [], [], 0, 1, WaitFrame, [])
  }

  /** The process that takes step a has reached it, and the step would not block on a semaphore
      or an empty pipe. */
  predicate Ready(s: State, a: Action) {
    match a
    case ChildRead => s.child.Scan?
    case ChildWrite(k) =>
      && (s.child.WriteHeader? ==> k == 1)
      && (s.child.WriteBody? ==> 1 <= k <= |s.child.left|)
      && (s.child.WriteHeader? || s.child.WriteBody?)
    case ChildPost => s.child.Post?
    case ChildWait => s.child.Wait? && s.semChild > 0
    case ParentWait => s.parent.WaitFrame? && s.semParent > 0
    case ParentRead(k) =>
      && 1 <= k <= |s.pipe|
      && (s.parent.ReadHeader? ==> k == 1)
      && (s.parent.ReadBody? ==> |s.parent.got| + k <= s.parent.length)
      && (s.parent.ReadHeader? || s.parent.ReadBody?)
    case ParentPost => s.parent.PostBack?
  }

  predicate Enabled(s: State, a: Action, capacity: nat) {
    Ready(s, a) && (a.ChildWrite? ==> |s.pipe| + a.written <= capacity)
  }

  function BeginFrame(s: State, w: Buffer, after: After): State {
    s.(child := WriteHeader(after), word := w, begun := s.begun + [w])
  }

  /** One turn of the fgetc loop. */
  function ScanStep(s: State): State
    requires s.child.Scan?
  {
    if s.rest == [] then
      BeginFrame(s, s.word, if s.word == [] then Exit else SendTerminator)
    else if IsDelimiter(s.rest[0]) then
      if s.word == [] then s.(rest := s.rest[1..])
      else BeginFrame(s.(rest := s.rest[1..]), s.word, BackToScan)
    else if |s.word| >= MAX_WORD then s.(child := ChildFailed)
    else s.(word := s.word + [s.rest[0]], rest := s.rest[1..])
  }

  function BodyOrPost(left: seq<Byte>, after: After): Child {
    if left == [] then Post(after) else WriteBody(left, after)
  }

  function WriteStep(s: State, k: nat): State
    requires s.child.WriteHeader? || (s.child.WriteBody? && k <= |s.child.left|)
  {
    if s.child.WriteHeader? then
      s.(pipe := s.pipe + [|s.word|], child := BodyOrPost(s.word, s.child.after))
    else
      s.(pipe := s.pipe + s.child.left[..k], child := BodyOrPost(s.child.left[k..], s.child.after))
  }

  function Acknowledged(s: State): State
    requires s.child.Wait?
  {
    match s.child.after
    case BackToScan => s.(child := Scan, word := [])
    case SendTerminator => BeginFrame(s, [], Exit)
    case Exit => s.(child := ChildDone)
  }

  function ReadStep(s: State, k: nat): State
    requires 1 <= k <= |s.pipe|
    requires s.parent.ReadHeader? || s.parent.ReadBody?
  {
    var s' := s.(pipe := s.pipe[k..]);
    if s.parent.ReadHeader? then
      s'.(parent := if s.pipe[0] == 0 then ParentDone else ReadBody(s.pipe[0], []))
    else
      var got := s.parent.got + s.pipe[..k];
      if |got| < s.parent.length then s'.(parent := ReadBody(s.parent.length, got))
      else s'.(parent := PostBack, received := s.received + [got])
  }

  function Step(s: State, a: Action): State
    requires Ready(s, a)
  {
    match a
    case ChildRead => ScanStep(s)
    case ChildWrite(k) => WriteStep(s, k)
    case ChildPost => s.(child := Wait(s.child.after), semParent := s.semParent + 1)
    case ChildWait => Acknowledged(s.(semChild := s.semChild - 1))
    case ParentWait => s.(parent := ReadHeader, semParent := s.semParent - 1)
    case ParentRead(k) => ReadStep(s, k)
    case ParentPost => s.(parent := WaitFrame, semChild := s.semChild + 1)
  }

  // ----- The invariant

  /** What write_fully has still to write of the current frame. */
  function Unwritten(s: State): seq<Byte> {
    match s.child
    case WriteHeader(_) => Frame(s.word)
    case WriteBody(left, _) => left
    case _ => []
  }

  /** What the parent has read of the frame it is on. */
  function Consumed(s: State): seq<Byte> {
    match s.parent
    case ReadBody(length, got) => [length] + got
    case ParentDone => TERMINATOR
    case _ => []
  }

  predicate Writing(s: State) {
    s.child.WriteHeader? || s.child.WriteBody? || s.child.Post?
  }

  predicate Sending(s: State) {
    Writing(s) || s.child.Wait?
  }

  /** The child is past the last word of the file. */
  predicate Finishing(s: State) {
    s.child.ChildDone? || (Sending(s) && s.child.after.Exit?)
  }

  /** The child's position in the file and what it has begun to send fit together. */
  ghost predicate Content(s: State, file: seq<Byte>) {
    && NoDelimiter(s.word) && AllFit(s.begun)
    && (Sending(s) ==> s.begun != [] && s.begun[|s.begun| - 1] == s.word)
    && (forall i :: 0 <= i < |s.begun| && s.begun[i] == [] ==> i == |s.begun| - 1 && Finishing(s))
    && (s.child.Scan? ==> Split(file) == s.begun + Split(s.word + s.rest))
    && (Sending(s) && s.child.after.BackToScan? ==> Split(file) == s.begun + Split(s.rest))
    && (Sending(s) && s.child.after.SendTerminator? ==> Split(file) == s.begun)
    && (Finishing(s) ==> s.begun == Split(file) + [[]])
    && (s.child.ChildFailed? ==> Deliver(Split(file)) == Delivery(s.begun, true))
  }

  predicate Reading(s: State) {
    s.parent.ReadHeader? || s.parent.ReadBody? || s.parent.ParentDone?
  }

  /** Each semaphore holds its initial value, plus its posts, less its completed waits. */
  ghost predicate Counts(s: State) {
    && s.semParent == (|s.begun| - Flag(Writing(s))) - (|s.received| + Flag(Reading(s)))
    && s.semChild == 1 + (|s.received| - Flag(s.parent.PostBack?)) - (|s.begun| - Flag(Sending(s)))
    && (s.parent.PostBack? ==> s.received != [])
  }

  /** The parent's words are the frames it has read in full; the frames after those are what
      it has read of the next one, what is in the pipe, and what is still unwritten. */
  ghost predicate Bytes(s: State) {
    && AllFit(s.begun) && s.received <= s.begun
    && (forall i :: 0 <= i < |s.received| ==> s.received[i] != [])
    && Encode(s.begun[|s.received|..]) == Consumed(s) + (s.pipe + Unwritten(s))
    && (s.parent.ReadBody? ==> |s.parent.got| < s.parent.length <= MAX_WORD)
    && (s.child.WriteBody? ==> 0 < |s.child.left| <= |s.word|)
  }

  ghost predicate Inv(s: State, file: seq<Byte>) {
    Content(s, file) && Counts(s) && Bytes(s)
  }

  lemma InitInv(file: seq<Byte>)
    ensures Inv(Init(file), file)
  {
    assert [] + file == file && [] + Split(file) == Split(file);
  }

  // ----- The child's side of the invariant

  lemma FileEndKeepsContent(s: State, file: seq<Byte>)
    requires Content(s, file) && s.child.Scan? && s.rest == []
    ensures Content(ScanStep(s), file)
  {
    assert s.word + s.rest == s.word;
    SplitRun(s.word);
  }

  lemma DelimiterKeepsContent(s: State, file: seq<Byte>)
    requires Content(s, file) && s.child.Scan? && s.rest != [] && IsDelimiter(s.rest[0])
    ensures Content(ScanStep(s), file)
  {
    var next := s.rest[1..];
    ScanDelimiter(s.word, s.rest);
    if s.word == [] {
      assert [] + next == next && [] + Split(next) == Split(next);
    } else {
      Assoc(s.begun, [s.word], Split(next));
    }
  }

  lemma ByteKeepsContent(s: State, file: seq<Byte>)
    requires Content(s, file) && s.child.Scan? && s.rest != [] && !IsDelimiter(s.rest[0])
    ensures Content(ScanStep(s), file)
  {
    if |s.word| >= MAX_WORD {
      ScanTooLong(s.word, s.rest);
      DeliverPrefix(s.begun);
      DeliverAppend(s.begun, Split(s.word + s.rest));
      assert s.begun + [] == s.begun;
    } else {
      assert s.word + [s.rest[0]] + s.rest[1..] == s.word + s.rest;
    }
  }

  lemma AcknowledgeKeepsContent(s: State, file: seq<Byte>)
    requires Content(s, file) && s.child.Wait?
    ensures Content(Acknowledged(s), file)
  {
    match s.child.after
    case BackToScan => assert [] + s.rest == s.rest;
    case SendTerminator => TerminatorKeepsContent(s, file);
    case Exit =>
  }

  lemma TerminatorKeepsContent(s: State, file: seq<Byte>)
    requires Content(s, file) && s.child == Wait(SendTerminator)
    ensures Content(BeginFrame(s, [], Exit), file)
  {
    var begun' := s.begun + [[]];
    assert forall i :: 0 <= i < |s.begun| ==> begun'[i] == s.begun[i] != [];
  }

  lemma SamePositionKeepsContent(s: State, s': State, file: seq<Byte>)
    requires Content(s, file) && s'.word == s.word && s'.rest == s.rest && s'.begun == s.begun
    requires s'.child == s.child || (Sending(s) && Sending(s') && s'.child.after == s.child.after)
    ensures Content(s', file)
  {
  }

  lemma StepKeepsContent(s: State, a: Action, file: seq<Byte>)
    requires Content(s, file) && Ready(s, a)
    ensures Content(Step(s, a), file)
  {
    match a
    case ChildRead =>
      if s.rest == [] {
        FileEndKeepsContent(s, file);
      } else if IsDelimiter(s.rest[0]) {
        DelimiterKeepsContent(s, file);
      } else {
        ByteKeepsContent(s, file);
      }
    case ChildWait => AcknowledgeKeepsContent(s.(semChild := s.semChild - 1), file);
    case _ => SamePositionKeepsContent(s, Step(s, a), file);
  }

  // ----- The bytes in flight

  /** The frames begun and not yet read in full; at most two, by the counts. */
  lemma InFlight(s: State)
    requires Counts(s) && Bytes(s)
    ensures |s.begun| <= |s.received| + 2
    ensures |s.begun| - |s.received| == 2 ==>
      Encode(s.begun[|s.received|..]) == Frame(s.begun[|s.received|]) + Frame(s.begun[|s.received| + 1])
    ensures |s.begun| - |s.received| == 1 ==> Encode(s.begun[|s.received|..]) == Frame(s.begun[|s.received|])
    ensures |s.begun| == |s.received| ==> Encode(s.begun[|s.received|..]) == []
  {
    var ws := s.begun[|s.received|..];
    if |ws| == 2 {
      assert ws == [ws[0], ws[1]] && ws[1..] == [ws[1]];
      assert Encode([ws[1]]) == Frame(ws[1]);
    } else if |ws| == 1 {
      assert ws == [ws[0]];
      assert Encode([ws[0]]) == Frame(ws[0]);
    }
  }

  lemma CutFrame(f: seq<Byte>, more: seq<Byte>, c: seq<Byte>, p: seq<Byte>, u: seq<Byte>)
    requires f + more == c + (p + u) && |u| <= |more| && |c| <= |f|
    ensures c <= f && f[|c|..] <= p
  {
    assert c == (c + (p + u))[..|c|] == (f + more)[..|c|] == f[..|c|];
    assert f[|c|..] == (f + more)[|c|..|f|] == (c + (p + u))[|c|..|f|] == (p + u)[..|f| - |c|];
    assert |f| - |c| <= |p|;
    assert (p + u)[..|f| - |c|] == p[..|f| - |c|];
  }

  /** Once the parent has passed sem_wait(sem_parent), the whole of the next frame is in the
      pipe, or what the parent has not yet read of it. */
  lemma CompleteFrameAhead(s: State, file: seq<Byte>)
    requires Inv(s, file) && (s.parent.ReadHeader? || s.parent.ReadBody?)
    ensures |s.received| < |s.begun|
    ensures var frame := Frame(s.begun[|s.received|]);
      |Consumed(s)| < |frame| && Consumed(s) <= frame && frame[|Consumed(s)|..] <= s.pipe
  {
    InFlight(s);
    var frame := Frame(s.begun[|s.received|]);
    var ws := s.begun[|s.received|..];
    var more := Encode(ws[1..]);
    assert Encode(ws) == frame + more;
    assert Writing(s) ==> |ws| == 2 && more == Frame(s.word) + Encode(ws[2..]);
    if s.parent.ReadBody? {
      assert (Consumed(s) + (s.pipe + Unwritten(s)))[0] == s.parent.length;
      assert (frame + more)[0] == |s.begun[|s.received|]|;
    }
    CutFrame(frame, more, Consumed(s), s.pipe, Unwritten(s));
  }

  lemma BeginKeepsBytes(s: State, s': State)
    requires Bytes(s) && Unwritten(s) == [] && s'.begun == s.begun + [s'.word]
    requires s'.child.WriteHeader? && s' == s.(child := s'.child, begun := s'.begun, word := s'.word,
      rest := s'.rest, semChild := s'.semChild)
    ensures Bytes(s')
  {
    var r := |s.received|;
    assert s'.begun[r..] == s.begun[r..] + [s'.word];
    EncodeAppend(s.begun[r..], [s'.word]);
    assert Encode([s'.word]) == Frame(s'.word);
    assert s.pipe + [] == s.pipe;
    Assoc(Consumed(s), s.pipe, Frame(s'.word));
  }

  lemma SemaphoreStepKeepsBytes(s: State, s': State)
    requires Bytes(s) && s'.begun == s.begun && s'.received == s.received && s'.pipe == s.pipe
    requires Unwritten(s') == Unwritten(s) && Consumed(s') == Consumed(s)
    requires s'.parent.ReadBody? ==> s'.parent == s.parent
    requires s'.child.WriteBody? ==> s'.child == s.child && s'.word == s.word
    ensures Bytes(s')
  {
  }

  lemma ChildMoveKeepsBytes(s: State, s': State)
    requires Bytes(s) && (s.child.Scan? || s.child.Wait?)
    requires s' == (if s.child.Scan? then ScanStep(s)
                    else if s.semChild > 0 then Acknowledged(s.(semChild := s.semChild - 1)) else s)
    ensures Bytes(s')
  {
    if s'.child.WriteHeader? {
      BeginKeepsBytes(s, s');
    } else {
      SemaphoreStepKeepsBytes(s, s');
    }
  }

  lemma WriteKeepsBytes(s: State, k: nat)
    requires Bytes(s) && Ready(s, ChildWrite(k))
    ensures Bytes(WriteStep(s, k))
  {
    WriteMovesBytes(s, k);
  }

  lemma WriteMovesBytes(s: State, k: nat)
    requires Ready(s, ChildWrite(k))
    ensures WriteStep(s, k).pipe + Unwritten(WriteStep(s, k)) == s.pipe + Unwritten(s)
  {
    if s.child.WriteHeader? {
      Assoc(s.pipe, [|s.word|], s.word);
    } else {
      var left := s.child.left;
      assert left == left[..k] + left[k..];
      Assoc(s.pipe, left[..k], left[k..]);
    }
  }

  lemma ReadHeaderKeepsBytes(s: State, file: seq<Byte>)
    requires Inv(s, file) && s.parent.ReadHeader? && s.pipe != []
    ensures Bytes(ReadStep(s, 1))
    ensures s.pipe[0] == |s.begun[|s.received|]|
  {
    CompleteFrameAhead(s, file);
    var s' := ReadStep(s, 1);
    assert Consumed(s') == s.pipe[..1];
    assert s.pipe + Unwritten(s) == s.pipe[..1] + (s.pipe[1..] + Unwritten(s));
    assert Frame(s.begun[|s.received|])[0] == s.pipe[0];
  }

  lemma ReadBodyMovesBytes(s: State, file: seq<Byte>, k: nat)
    requires Inv(s, file) && s.parent.ReadBody? && Ready(s, ParentRead(k))
    ensures var got, b := s.parent.got + s.pipe[..k], s.begun[|s.received|];
      && |s.received| < |s.begun| && s.parent.length == |b| && [s.parent.length] + got <= Frame(b)
      && Consumed(s) + (s.pipe + Unwritten(s)) == ([s.parent.length] + got) + (s.pipe[k..] + Unwritten(s))
  {
    CompleteFrameAhead(s, file);
    var got, b := s.parent.got + s.pipe[..k], s.begun[|s.received|];
    assert Consumed(s)[0] == Frame(b)[0];
    assert [s.parent.length] + got == Consumed(s) + s.pipe[..k];
    assert s.pipe == s.pipe[..k] + s.pipe[k..];
  }

  /** Taking the first frame off what is in flight. */
  lemma FrameDone(s: State, b: Word, tail: seq<Byte>)
    requires AllFit(s.begun) && |s.received| < |s.begun| && b == s.begun[|s.received|]
    requires Encode(s.begun[|s.received|..]) == Frame(b) + tail
    ensures Encode(s.begun[|s.received| + 1..]) == tail
  {
    var ws := s.begun[|s.received|..];
    assert ws[1..] == s.begun[|s.received| + 1..];
    var f := Frame(b);
    assert (f + Encode(ws[1..]))[|f|..] == Encode(ws[1..]);
    assert (f + tail)[|f|..] == tail;
  }

  lemma WordDone(s: State, s': State, b: Word, tail: seq<Byte>)
    requires Bytes(s) && |s.received| < |s.begun| && b == s.begun[|s.received|] && b != []
    requires Encode(s.begun[|s.received|..]) == Frame(b) + tail
    requires s'.begun == s.begun && s'.child == s.child && s'.word == s.word
    requires s'.received == s.received + [b] && s'.parent.PostBack? && s'.pipe + Unwritten(s') == tail
    ensures Bytes(s')
  {
    FrameDone(s, b, tail);
    assert [] + tail == tail;
  }

  lemma ReadBodyKeepsBytes(s: State, file: seq<Byte>, k: nat)
    requires Inv(s, file) && s.parent.ReadBody? && Ready(s, ParentRead(k))
    ensures Bytes(ReadStep(s, k))
  {
    ReadBodyMovesBytes(s, file, k);
    var s' := ReadStep(s, k);
    var got, b := s.parent.got + s.pipe[..k], s.begun[|s.received|];
    if |got| == s.parent.length {
      var c := [s.parent.length] + got;
      assert c == Frame(b) && c[1..] == got && Frame(b)[1..] == b;
      WordDone(s, s', b, s'.pipe + Unwritten(s));
    }
  }

  lemma StepKeepsCounts(s: State, a: Action)
    requires Counts(s) && Ready(s, a)
    ensures Counts(Step(s, a))
  {
  }

  lemma StepKeepsBytes(s: State, a: Action, file: seq<Byte>)
    requires Inv(s, file) && Ready(s, a)
    ensures Bytes(Step(s, a))
  {
    var s' := Step(s, a);
    match a
    case ChildWrite(k) => WriteKeepsBytes(s, k);
    case ParentRead(k) =>
      if s.parent.ReadHeader? {
        ReadHeaderKeepsBytes(s, file);
      } else {
        ReadBodyKeepsBytes(s, file, k);
      }
    case ChildRead => ChildMoveKeepsBytes(s, s');
    case ChildWait => ChildMoveKeepsBytes(s, s');
    case _ => SemaphoreStepKeepsBytes(s, s');
  }

  /** Every step of either process keeps the invariant. */
  lemma StepKeepsInv(s: State, a: Action, file: seq<Byte>)
    requires Inv(s, file) && Ready(s, a)
    ensures Inv(Step(s, a), file)
  {
    StepKeepsContent(s, a, file);
    StepKeepsCounts(s, a);
    StepKeepsBytes(s, a, file);
  }
}
