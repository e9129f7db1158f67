/** What the two processes of the reliable pipe can do: the other side of the safety results. Neither
    process can hold up a step of the other except through the pipe and the semaphores; a frame can be
    written and read in any pieces; and the bound on the bytes in the pipe is reached. */
module ReliablePipeReach {
  import opened Words
  import opened Framing
  import opened ReliablePipe
  import opened ReliablePipeRuns

  predicate IsParents(a: Action) {
    a.ParentWait? || a.ParentRead? || a.ParentPost?
  }

  /** Whether the parent can take a step depends only on the parent, the pipe and its semaphore ... */
  lemma ParentStepsAreLocal(s: State, s': State, a: Action, capacity: nat)
    requires IsParents(a) && s'.parent == s.parent && s'.pipe == s.pipe && s'.semParent == s.semParent
    ensures Enabled(s, a, capacity) <==> Enabled(s', a, capacity)
  {
  }

  /** ... and the child's only on the child, its semaphore and the room left in the pipe. */
  lemma ChildStepsAreLocal(s: State, s': State, a: Action, capacity: nat)
    requires !IsParents(a) && s'.child == s.child && s'.semChild == s.semChild && |s'.pipe| == |s.pipe|
    ensures Enabled(s, a, capacity) <==> Enabled(s', a, capacity)
  {
  }

  // ----- Frames in pieces

  function Sum(sizes: seq<nat>): nat {
    if sizes == [] then 0 else sizes[0] + Sum(sizes[1..])
  }

  predicate Positive(sizes: seq<nat>) {
    forall i :: 0 <= i < |sizes| ==> sizes[i] > 0
  }

  function Writes(sizes: seq<nat>): seq<Action> {
    if sizes == [] then [] else [ChildWrite(sizes[0])] + Writes(sizes[1..])
  }

  function Reads(sizes: seq<nat>): seq<Action> {
    if sizes == [] then [] else [ParentRead(sizes[0])] + Reads(sizes[1..])
  }

  lemma {:induction false} BodyInPieces(s: State, sizes: seq<nat>, capacity: nat)
    requires s.child.WriteBody? && s.child.left != [] && Positive(sizes) && Sum(sizes) == |s.child.left|
    requires |s.pipe| + |s.child.left| <= capacity
    ensures Legal(s, Writes(sizes), capacity)
    ensures Last(s, Writes(sizes), capacity) == s.(pipe := s.pipe + s.child.left, child := Post(s.child.after))
    decreases |sizes|
  {
    var left, k, run := s.child.left, sizes[0], Writes(sizes);
    var next := Step(s, ChildWrite(k));
    assert run[0] == ChildWrite(k) && run[1..] == Writes(sizes[1..]);
    assert left == left[..k] + left[k..];
    if k < |left| {
      BodyInPieces(next, sizes[1..], capacity);
      Assoc(s.pipe, left[..k], left[k..]);
    } else {
      NothingLeft(sizes[1..]);
      assert left[..k] == left;
    }
  }

  lemma NothingLeft(sizes: seq<nat>)
    requires Positive(sizes) && Sum(sizes) == 0
    ensures sizes == []
  {
  }

  /** However the bytes of a frame's body are split into writes, the child can write it like that, and
      has then written the frame, as far as the pipe has room. */
  lemma FrameInPieces(s: State, sizes: seq<nat>, capacity: nat) returns (run: seq<Action>)
    requires s.child.WriteHeader? && Positive(sizes) && Sum(sizes) == |s.word|
    requires |s.pipe| + 1 + |s.word| <= capacity
    ensures run == [ChildWrite(1)] + Writes(sizes) && Legal(s, run, capacity)
    ensures Last(s, run, capacity) == s.(pipe := s.pipe + Frame(s.word), child := Post(s.child.after))
  {
    run := [ChildWrite(1)] + Writes(sizes);
    var next := Step(s, ChildWrite(1));
    assert run[0] == ChildWrite(1) && run[1..] == Writes(sizes);
    if s.word == [] {
      NothingLeft(sizes);
      assert Frame(s.word) == [|s.word|];
    } else {
      BodyInPieces(next, sizes, capacity);
      Assoc(s.pipe, [|s.word|], s.word);
    }
  }

  /** And the parent can read the body in any pieces. */
  lemma {:induction false} ReadInPieces(s: State, sizes: seq<nat>, capacity: nat)
    requires s.parent.ReadBody? && |s.parent.got| < s.parent.length && Positive(sizes)
    requires |s.parent.got| + Sum(sizes) == s.parent.length && Sum(sizes) <= |s.pipe|
    ensures Legal(s, Reads(sizes), capacity)
    ensures Last(s, Reads(sizes), capacity)
         == s.(pipe := s.pipe[Sum(sizes)..], parent := PostBack,
               received := s.received + [s.parent.got + s.pipe[..Sum(sizes)]])
    decreases |sizes|
  {
    var k, n, run := sizes[0], Sum(sizes), Reads(sizes);
    var next := Step(s, ParentRead(k));
    assert run[0] == ParentRead(k) && run[1..] == Reads(sizes[1..]);
    if k < n {
      ReadInPieces(next, sizes[1..], capacity);
      assert s.pipe[..n] == s.pipe[..k] + s.pipe[k..][..n - k];
      assert s.pipe[k..][n - k..] == s.pipe[n..];
      Assoc(s.parent.got, s.pipe[..k], s.pipe[k..][..n - k]);
    } else {
      NothingLeft(sizes[1..]);
    }
  }

  // ----- Two frames of the greatest length

  lemma {:induction false} Chain(s: State, a: seq<Action>, b: seq<Action>, capacity: nat)
    requires Legal(s, a, capacity) && Legal(Last(s, a, capacity), b, capacity)
    ensures Legal(s, a + b, capacity) && Last(s, a + b, capacity) == Last(Last(s, a, capacity), b, capacity)
    decreases |a|
  {
    if a == [] {
      assert a + b == b;
    } else {
      assert (a + b)[0] == a[0] && (a + b)[1..] == a[1..] + b;
      Chain(Step(s, a[0]), a[1..], b, capacity);
    }
  }

  lemma {:induction false} ScansRun(s: State, w: seq<Byte>, more: seq<Byte>, capacity: nat) returns (run: seq<Action>)
    requires s.child.Scan? && s.rest == w + more && NoDelimiter(w) && |s.word| + |w| <= MAX_WORD
    ensures Legal(s, run, capacity) && Last(s, run, capacity) == s.(word := s.word + w, rest := more)
    decreases |w|
  {
    if w == [] {
      run := [];
      assert s.word + w == s.word && w + more == more;
    } else {
      var next := Step(s, ChildRead);
      assert next.rest == w[1..] + more && s.rest[0] == w[0];
      assert next.word + w[1..] == s.word + w;
      var rest := ScansRun(next, w[1..], more, capacity);
      run := [ChildRead] + rest;
      assert run[1..] == rest;
    }
  }

  /** The child reads a word and the byte after it, or the end of the file, and sends the word. */
  lemma SendsWord(s: State, w: seq<Byte>, more: seq<Byte>, capacity: nat) returns (run: seq<Action>, after: After)
    requires s.child.Scan? && s.word == [] && s.rest == w + more && 0 < |w| <= MAX_WORD && NoDelimiter(w)
    requires (more == [] || IsDelimiter(more[0])) && |s.pipe| + 1 + |w| <= capacity
    ensures after == if more == [] then SendTerminator else BackToScan
    ensures Legal(s, run, capacity)
    ensures Last(s, run, capacity) == s.(child := Post(after), word := w, begun := s.begun + [w],
              rest := if more == [] then [] else more[1..], pipe := s.pipe + Frame(w))
  {
    after := if more == [] then SendTerminator else BackToScan;
    var scan := ScansRun(s, w, more, capacity);
    var scanned := s.(word := w, rest := more);
    assert s.word + w == w;
    var begun := Step(scanned, ChildRead);
    assert Sum([|w|]) == |w|;
    var pieces := FrameInPieces(begun, [|w|], capacity);
    var send := [ChildRead] + pieces;
    assert send[1..] == pieces;
    Chain(s, scan, send, capacity);
    run := scan + send;
  }

  /** The bound is reached: from a file of two words of 255 bytes the child can put two whole frames,
      512 bytes, into the pipe before the parent has taken a step. */
  lemma BoundIsReached(b: Byte, capacity: nat) returns (file: seq<Byte>, run: seq<Action>)
    requires !IsDelimiter(b) && capacity >= 512
    ensures Legal(Init(file), run, capacity)
    ensures |Last(Init(file), run, capacity).pipe| == 512 && Last(Init(file), run, capacity).parent == WaitFrame
  {
    var w := seq(255, _ => b);
    file := w + ([SPACE] + w);
    var first, after := SendsWord(Init(file), w, [SPACE] + w, capacity);
    var sent := Last(Init(file), first, capacity);
    assert ([SPACE] + w)[1..] == w;
    var handshake := [ChildPost, ChildWait];
    assert handshake[1..] == [ChildWait] && [ChildWait][1..] == [];
    var again := Step(Step(sent, ChildPost), ChildWait);
    assert Last(sent, handshake, capacity) == again;
    Chain(Init(file), first, handshake, capacity);
    assert w + [] == w;
    var second, _ := SendsWord(again, w, [], capacity);
    Chain(Init(file), first + handshake, second, capacity);
    run := first + handshake + second;
  }
}
