/** What both socket servers do with a client that has input: read one frame and print it. */
module FrameServer {
  import opened Words
  import opened Framing
  import opened Sockets

  const MAX_WORD_LEN: nat := 256

  function MinSize(a: nat, b: nat): nat {
    if a < b then a else b
  }

  /** Two stretches read one after the other make one stretch of the stream. */
  lemma StreamGrows(a: Session, mid: Session, b: Session, x: seq<Byte>, y: seq<Byte>)
    requires Advanced(a, mid, |x|) && x == mid.sent[a.taken..mid.taken]
    requires Advanced(mid, b, |y|) && y == b.sent[mid.taken..b.taken]
    ensures Advanced(a, b, |x| + |y|) && x + y == b.sent[a.taken..b.taken]
  {
    assert x == b.sent[a.taken..mid.taken];
  }

  /** Reads n bytes: 1 when they are all there, 0 at end of file, -1 on an error. However the
      bytes were cut up on the way, and however often a signal interrupted, the buffer holds
      the next n bytes of the client's stream. */
  method ReadFull(k: Kernel, fd: int, buf: array<Byte>, n: nat) returns (rc: int, ghost off: nat)
    requires k.Valid() && fd in k.open && n <= buf.Length
    modifies k`sessions, k`signals, k`waits, buf
    ensures k.Valid() && OthersUntouched(old(k.sessions), k.sessions, k.open[fd])
    ensures -1 <= rc <= 1 && (rc == 1 <==> off == n) && off <= n
    ensures var a, b := old(k.sessions)[k.open[fd]], k.sessions[k.open[fd]];
      && Advanced(a, b, off)
      && (b.failed <==> a.failed || rc == -1)
      && (rc == 0 ==> Drained(b))
      && buf[..off] == b.sent[a.taken..b.taken]
      && (a.hungUp || |a.sent| - a.taken >= n ==> k.waits == old(k.waits))
  {
    off := 0;
    var done := 0;
    ghost var i := k.open[fd];
    ghost var a := k.sessions[i];
    while done < n
      invariant done == off <= n
      invariant k.Valid() && OthersUntouched(old(k.sessions), k.sessions, i)
      invariant Advanced(a, k.sessions[i], off) && k.sessions[i].failed == a.failed
      invariant a.hungUp || |a.sent| - a.taken >= n ==> k.waits == old(k.waits)
      invariant buf[..off] == k.sessions[i].sent[a.taken..k.sessions[i].taken]
      decreases n - done, k.signals
    {
      ghost var before, got := k.sessions[i], buf[..done];
      var r, interrupted := k.Read(fd, buf, done, n - done);
      ghost var now := k.sessions[i];
      ghost var more := now.sent[before.taken..now.taken];
      assert buf[..done] == got;
      StreamGrows(a, before, now, got, more);
      assert r <= 0 ==> got + more == got;
      if r == 0 {
        return 0, off;
      }
      if r < 0 {
        if interrupted {
          continue;
        }
        return -1, off;
      }
      assert buf[..done + r] == got + more;
      done := done + r;
      off := done;
    }
    return 1, off;
  }

  // ----- One frame

  /** The log is sound, and a live session is at a frame boundary after reads that all went well. */
  ghost predicate InOrder(s: Session) {
    Sound(s) && (s.closes == 0 ==> Aligned(s) && !s.failed)
  }

  ghost predicate Settled(ss: seq<Session>) {
    forall i :: 0 <= i < |ss| ==> InOrder(ss[i])
  }

  /** What a settled server has done for each client: the words it printed are exactly the frames
      of a prefix of that client's own stream, and what it has read of a live client's stream
      beyond those frames is nothing. */
  lemma StreamIntegrity(ss: seq<Session>, i: nat)
    requires Settled(ss) && i < |ss|
    ensures var s := ss[i];
      && s.taken <= |s.sent| && AllFit(s.log) && Encode(s.log) <= s.sent
      && (exists partial :: Incomplete(partial) && s.sent[..s.taken] == Encode(s.log) + partial)
      && (s.closes == 0 ==> s.sent == Encode(s.log) + s.sent[s.taken..])
  {
    var s := ss[i];
    var read := s.sent[..s.taken];
    assert s.sent == read + s.sent[s.taken..];
    EncodeOfFrames(read);
    assert read == Encode(s.log) + Leftover(read);
    assert s.sent[..|Encode(s.log)|] == Encode(s.log);
  }

  /** If the client has so far sent part of the frames of ws, the server has printed some of
      those words, in order; all of them once it has read everything. */
  lemma LogIsPrefix(s: Session, ws: seq<Word>)
    requires Sound(s) && AllFit(ws) && s.sent <= Encode(ws)
    ensures s.log <= ws
    ensures s.taken == |Encode(ws)| ==> s.log == ws
  {
    var read := s.sent[..s.taken];
    assert read == Encode(ws)[..s.taken];
    FramesOfPrefix(read, ws);
    if s.taken == |Encode(ws)| {
      assert read == Encode(ws) + [];
      FramesOfEncode(ws, []);
      assert ws + Frames([]) == ws;
    }
  }

  lemma AllUntouchedStaySettled(a: seq<Session>, b: seq<Session>)
    requires Settled(a) && AllUntouched(a, b)
    ensures Settled(b)
  {
    forall i | 0 <= i < |b| ensures InOrder(b[i]) {
      UntouchedStays(a[i], b[i]);
    }
  }

  lemma NewSessionSettled(ss: seq<Session>, fd: int)
    requires Settled(ss)
    ensures Settled(ss + [NewSession(fd)])
  {
    AlignedIsSound(NewSession(fd));
  }

  lemma ClosedStaysSettled(a: seq<Session>, b: seq<Session>, i: nat)
    requires Settled(a) && ClosedOne(a, b, i)
    ensures Settled(b)
  {
    OthersStaySettled(a, b, i);
  }

  lemma UntouchedStays(a: Session, b: Session)
    requires Untouched(a, b)
    ensures InOrder(a) ==> InOrder(b)
  {
    if a.taken <= |a.sent| {
      assert b.sent[..b.taken] == a.sent[..a.taken];
    }
  }

  lemma OthersStaySettled(before: seq<Session>, after: seq<Session>, i: nat)
    requires Settled(before) && OthersUntouched(before, after, i) && i < |after|
    requires InOrder(after[i])
    ensures Settled(after)
  {
    forall j | 0 <= j < |after| && j != i ensures InOrder(after[j]) {
      UntouchedStays(before[j], after[j]);
    }
  }

  /** A stream read up to a boundary and then somewhat into the next frame. */
  lemma PartialFrame(a: Session, b: Session, head: seq<Byte>)
    requires Aligned(a) && Advanced(a, b, |head|) && Incomplete(head)
    requires b.sent[a.taken..b.taken] == head
    ensures Sound(b)
  {
    assert b.sent[..b.taken] == Encode(a.log) + head by {
      assert b.sent[..a.taken] == a.sent[..a.taken];
      assert b.sent[..b.taken] == b.sent[..a.taken] + b.sent[a.taken..b.taken];
    }
    FramesOfEncode(a.log, head);
    assert a.log + Frames(head) == a.log;
  }

  lemma WholeFrame(a: Session, b: Session, w: Word)
    requires Aligned(a) && |w| <= MAX_WORD && Advanced(a, b, 1 + |w|)
    requires b.sent[a.taken..b.taken] == Frame(w)
    ensures Aligned(b.(log := a.log + [w]))
  {
    assert b.sent[..b.taken] == Encode(a.log) + Frame(w) by {
      assert b.sent[..a.taken] == a.sent[..a.taken];
      assert b.sent[..b.taken] == b.sent[..a.taken] + b.sent[a.taken..b.taken];
    }
    EncodeAppend(a.log, [w]);
    assert Encode([w]) == Frame(w);
  }

  /** The server can serve the client without waiting for it: its unread bytes hold a whole frame, or
      it has hung up. */
  predicate CanServe(s: Session)
    requires s.taken <= |s.sent|
  {
    s.hungUp || !Incomplete(s.sent[s.taken..])
  }

  lemma UntouchedCanServe(a: Session, b: Session)
    requires a.taken <= |a.sent| && Untouched(a, b) && CanServe(a)
    ensures b.taken <= |b.sent| && CanServe(b)
  {
    if !a.hungUp {
      assert a.sent[a.taken..] <= b.sent[b.taken..];
    }
  }

  /** Once the header of a whole frame has been read, the rest of it is there. */
  lemma BodyIsThere(a: Session, mid: Session)
    requires a.taken < |a.sent| && Advanced(a, mid, 1) && CanServe(a)
    ensures mid.hungUp || |mid.sent| - mid.taken >= mid.sent[a.taken]
  {
    if !a.hungUp {
      assert a.sent[a.taken..][0] == mid.sent[a.taken];
    }
  }

  /** Session i has read the whole frame of w, and its word is printed. */
  lemma FramePrinted(before: seq<Session>, now: seq<Session>, i: nat, w: Word)
    requires Settled(before) && OthersUntouched(before, now, i) && i < |now|
    requires before[i].closes == 0 && now[i].failed == before[i].failed
    requires |w| <= MAX_WORD && Advanced(before[i], now[i], 1 + |w|)
    requires now[i].sent[before[i].taken..now[i].taken] == Frame(w)
    ensures var s := now[i].(log := now[i].log + [w]);
      Sound(s) && Logged(before[i], s) && Settled(now[i := s])
  {
    var s := now[i].(log := now[i].log + [w]);
    assert InOrder(before[i]);
    WholeFrame(before[i], now[i], w);
    AlignedIsSound(s);
    OthersStaySettled(before, now[i := s], i);
  }

  /** What was read of the stream holds a whole frame. */
  lemma FrameWasThere(a: Session, b: Session, w: Word)
    requires |w| <= MAX_WORD && Advanced(a, b, 1 + |w|) && b.sent[a.taken..b.taken] == Frame(w)
    ensures !Incomplete(b.sent[a.taken..])
  {
    assert b.sent[a.taken..][0] == b.sent[a.taken..b.taken][0];
  }

  /** A session that the server has to close: a read failed, or the stream has ended and everything
      in it has been read. No word was lost. */
  ghost predicate MustClose(a: Session, b: Session) {
    && b.fd == a.fd && b.log == a.log && b.closes == 0 && a.sent <= b.sent
    && Sound(b) && (b.failed || Drained(b))
  }

  /** The server has read the given bytes and no more. */
  predicate HasRead(a: Session, b: Session, bytes: seq<Byte>) {
    Advanced(a, b, |bytes|) && b.failed == a.failed && b.sent[a.taken..b.taken] == bytes
  }

  method ReadHeader(k: Kernel, fd: int) returns (length: Byte, ok: bool)
    requires k.Valid() && fd in k.open && Settled(k.sessions)
    modifies k`sessions, k`signals, k`waits
    ensures k.Valid() && OthersUntouched(old(k.sessions), k.sessions, k.open[fd])
    ensures var a, b := old(k.sessions)[k.open[fd]], k.sessions[k.open[fd]];
      && (if ok then HasRead(a, b, [length]) else MustClose(a, b))
      && (CanServe(a) ==> k.waits == old(k.waits) && (ok ==> b.hungUp || |b.sent| - b.taken >= length))
  {
    ghost var i := k.open[fd];
    ghost var a := k.sessions[i];
    var header := new Byte[1];
    var rc, off := ReadFull(k, fd, header, 1);
    if rc <= 0 {
      PartialFrame(a, k.sessions[i], []);
      return 0, false;
    }
    assert header[..1] == [header[0]];
    if CanServe(a) {
      BodyIsThere(a, k.sessions[i]);
    }
    return header[0], true;
  }

  /** Reads the header and the payload of a frame. */
  method ReadFrame(k: Kernel, fd: int) returns (word: array<Byte>, length: Byte, ok: bool)
    requires k.Valid() && fd in k.open && Settled(k.sessions)
    modifies k`sessions, k`signals, k`waits
    ensures fresh(word) && word.Length == 256
    ensures k.Valid() && OthersUntouched(old(k.sessions), k.sessions, k.open[fd])
    ensures var a, b := old(k.sessions)[k.open[fd]], k.sessions[k.open[fd]];
      && (if ok then HasRead(a, b, Frame(word[..length])) else MustClose(a, b))
      && (CanServe(a) ==> k.waits == old(k.waits))
  {
    ghost var i := k.open[fd];
    ghost var a := k.sessions[i];
    var maxPayload := MinSize(MAX_WORD_LEN - 1, 255);
    word := new Byte[MAX_WORD_LEN];
    length, ok := ReadHeader(k, fd);
    if !ok {
      return;
    }
    ghost var mid := k.sessions[i];
    assert length <= maxPayload;  // so the oversize branch of the source is never taken
    var rc, off := ReadFull(k, fd, word, length);
    ghost var b, payload := k.sessions[i], word[..off];
    StreamGrows(a, mid, b, [length], payload);
    if rc <= 0 {
      PartialFrame(a, b, [length] + payload);
      ok := false;
    }
  }

  /** Reads a frame from fd and prints its word. It cannot only if a read fails or the client has
      hung up and everything it sent has been read; the session is then left to be closed,
      somewhere inside a frame but with a sound log. It returns only when the client has sent a whole
      frame or hung up, or a read has failed; if that is so at the call, it waits for nobody. */
  method ServeFrame(k: Kernel, fd: int) returns (alive: bool)
    requires k.Valid() && fd in k.open && Settled(k.sessions)
    modifies k`sessions, k`signals, k`waits
    ensures k.Valid() && OthersUntouched(old(k.sessions), k.sessions, k.open[fd])
    ensures alive ==> Settled(k.sessions)
    ensures var a, b := old(k.sessions)[k.open[fd]], k.sessions[k.open[fd]];
      && Sound(b) && a.sent <= b.sent
      && (alive ==> Logged(a, b))
      && (!alive ==> b.fd == a.fd && b.log == a.log && b.closes == 0 && (b.failed || Drained(b)))
      && (CanServe(a) ==> k.waits == old(k.waits))
      && (b.failed || b.hungUp || !Incomplete(b.sent[a.taken..]))
  {
    ghost var i, before := k.open[fd], k.sessions;
    var word, length;
    word, length, alive := ReadFrame(k, fd);
    if alive {
      ghost var w := word[..length];
      FrameWasThere(before[i], k.sessions[i], w);
      FramePrinted(before, k.sessions, i, w);
      word[length] := NUL;
      assert word[..length] == w;
      k.Print(fd, word[..length]);
    }
  }
}
