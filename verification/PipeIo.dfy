/** The two ends of the pipe, with the loops that tolerate short reads and writes, and the
    two processes as straight-line programs over them. The semaphores, and how the two
    processes interleave, are in ReliablePipe. */
module PipeIo {
  import opened Words
  import opened Framing

  /** The end the child writes to. */
  class WriteEnd {
    /** Everything written so far. */
    var written: seq<Byte>
    /** How many writes have failed. */
    ghost var failures: nat

    constructor ()
      ensures written == [] && failures == 0
    {
      written, failures := [], 0;
    }

    /** write(2): fails, or moves between one byte and all of them. */
    method Write(buf: array<Byte>, from: nat, count: nat) returns (n: int)
      requires from + count <= buf.Length && count > 0
      modifies this
      ensures n == -1 || 1 <= n <= count
      ensures written == old(written) + if n == -1 then [] else buf[from..from + n]
      ensures failures == old(failures) + if n == -1 then 1 else 0
    {
      var moved: int := *;
      n := if 1 <= moved <= count then moved else -1;
      if n == -1 {
        failures := failures + 1;
      } else {
        written := written + buf[from..from + n];
      }
    }
  }

  /** The end the parent reads from. */
  class ReadEnd {
    /** The bytes still to be delivered before end of file. */
    var incoming: seq<Byte>
    /** How many more reads at end of file the reader gets to make before it is killed: its loop
        never gives up by itself. */
    var patience: nat
    /** How many reads have failed. */
    ghost var failures: nat

    constructor (bytes: seq<Byte>, patience: nat)
      ensures incoming == bytes && this.patience == patience && failures == 0
    {
      incoming, this.patience, failures := bytes, patience, 0;
    }

    /** read(2): fails, or delivers at least one byte unless it is at end of file. */
    method Read(buf: array<Byte>, from: nat, count: nat) returns (n: int, killed: bool)
      requires from + count <= buf.Length && count > 0
      modifies this, buf
      ensures n == -1 || (0 <= n <= count && n <= |old(incoming)|)
      ensures n == 0 ==> old(incoming) == [] && (killed || patience < old(patience))
      ensures killed ==> n == 0
      ensures buf[..from] == old(buf[..from])
      ensures n > 0 ==> old(incoming) == buf[from..from + n] + incoming
      ensures n <= 0 ==> incoming == old(incoming)
      ensures failures == old(failures) + if n == -1 then 1 else 0
    {
      var moved: int := *;
      n := if 1 <= moved <= count && moved <= |incoming| then moved
           else if moved == 0 && incoming == [] then 0 else -1;
      killed := n == 0 && patience == 0;
      if n > 0 {
        forall i | 0 <= i < n {
          buf[from + i] := incoming[i];
        }
        assert buf[from..from + n] == incoming[..n];
        incoming := incoming[n..];
      } else if n < 0 {
        failures := failures + 1;
      } else if !killed {
        patience := patience - 1;
      }
    }
  }

  method WriteFully(fd: WriteEnd, buf: array<Byte>, size: nat) returns (ok: bool)
    requires size <= buf.Length
    modifies fd
    ensures ok ==> fd.written == old(fd.written) + buf[..size]
    ensures old(fd.written) <= fd.written <= old(fd.written) + buf[..size]
    ensures fd.failures == old(fd.failures) + if ok then 0 else 1
  {
    var ptr, count := 0, size;
    while count > 0
      invariant 0 <= ptr && 0 <= count && ptr + count == size
      invariant fd.written == old(fd.written) + buf[..ptr] && fd.failures == old(fd.failures)
    {
      var n := fd.Write(buf, ptr, count);
      if n < 0 {
        return false;
      }
      assert buf[..ptr] + buf[ptr..ptr + n] == buf[..ptr + n];
      ptr := ptr + n;
      count := count - n;
    }
    return true;
  }

  datatype ReadExit = Whole | ReadError | Killed

  /** The loop has no exit for end of file: if the stream is too short, it reads all of it and then
      spins until the process is killed. */
  method ReadFully(fd: ReadEnd, buf: array<Byte>, size: nat) returns (exit: ReadExit)
    requires size <= buf.Length
    modifies fd, buf
    ensures exit == Whole ==> old(fd.incoming) == buf[..size] + fd.incoming
    ensures exit == Killed ==> |old(fd.incoming)| < size && fd.incoming == []
    ensures fd.failures == old(fd.failures) + if exit == ReadError then 1 else 0
  {
    var ptr, count := 0, size;
    while count > 0
      invariant 0 <= ptr && 0 <= count && ptr + count == size
      invariant old(fd.incoming) == buf[..ptr] + fd.incoming && fd.failures == old(fd.failures)
      decreases count, fd.patience
    {
      ghost var done := buf[..ptr];
      var n, killed := fd.Read(buf, ptr, count);
      if killed {
        return Killed;
      }
      if n < 0 {
        return ReadError;
      }
      if n > 0 {
        Assoc(done, buf[ptr..ptr + n], fd.incoming);
        assert buf[..ptr + n] == done + buf[ptr..ptr + n];
      }
      ptr := ptr + n;
      count := count - n;
    }
    return Whole;
  }

  method SendWord(fd: WriteEnd, word: array<Byte>, length: Byte, ghost w: Word) returns (ok: bool)
    requires length <= word.Length && w == word[..length]
    modifies fd
    ensures ok ==> fd.written == old(fd.written) + Frame(w)
    ensures old(fd.written) <= fd.written <= old(fd.written) + Frame(w)
    ensures fd.failures == old(fd.failures) + if ok then 0 else 1
  {
    var header := new Byte[1][length];
    ok := WriteFully(fd, header, 1);
    assert header[..1] == [length];
    if ok && length > 0 {
      ok := WriteFully(fd, word, length);
    }
  }

  /** How many slots the source declares for the word buffers of both processes. A word of 255 bytes
      leaves no room for its NUL there. */
  const DECLARED_SLOTS: nat := 255

  /** Overrun: the NUL after a word would be stored outside the buffer, and nothing can be said of
      what the program does then. */
  datatype Outcome<E> = Exited(exit: E) | Overrun

  /** What the child writes for a file: the frames of its words up to the first one that is
      too long, and the terminator if there was none. */
  ghost function ChildOutput(file: seq<Byte>): seq<Byte> {
    var d := Deliver(Split(file));
    Encode(d.words) + if d.rejected then [] else TERMINATOR
  }

  /** The frames of sent, then what the child makes of the unread rest of the file. */
  lemma ChildOutputFrom(file: seq<Byte>, sent: seq<Word>, word: Word, rest: seq<Byte>)
    requires AllFit(sent) && Split(file) == sent + Split(word + rest)
    ensures ChildOutput(file) == Encode(sent) + ChildOutput(word + rest)
    ensures Deliver(Split(file)).rejected == Deliver(Split(word + rest)).rejected
  {
    var more := Split(word + rest);
    DeliverPrefix(sent);
    DeliverPrefix(more);
    DeliverAppend(sent, more);
    EncodeAppend(sent, Deliver(more).words);
  }

  /** Between two bytes of the file: the words in sent are on the wire, word is in the buffer
      and rest is unread. */
  ghost predicate Scanning(file: seq<Byte>, sent: seq<Word>, word: Word, rest: seq<Byte>) {
    && NoDelimiter(word) && |word| <= MAX_WORD
    && AllFit(sent) && Split(file) == sent + Split(word + rest)
  }

  /** The buffered word may be sent once a delimiter or the end of the file follows it. */
  lemma WordEnds(file: seq<Byte>, sent: seq<Word>, word: Word, rest: seq<Byte>)
    requires Scanning(file, sent, word, rest)
    requires rest == [] || IsDelimiter(rest[0])
    ensures Scanning(file, if word == [] then sent else sent + [word], [],
                     if rest == [] then [] else rest[1..])
    ensures word != [] ==> Encode(sent + [word]) == Encode(sent) + Frame(word)
    ensures word != [] ==> Encode(sent + [word]) <= ChildOutput(file)
  {
    var next := if rest == [] then [] else rest[1..];
    var sent' := if word == [] then sent else sent + [word];
    if rest == [] {
      SplitRun(word);
      assert word + rest == word;
    } else {
      ScanDelimiter(word, rest);
    }
    assert [] + next == next && [] + Split(next) == Split(next);
    if word != [] {
      Assoc(sent, [word], Split(next));
      EncodeAppend(sent, [word]);
      assert Encode([word]) == Frame(word);
    }
    ChildOutputFrom(file, sent', [], next);
  }

  lemma ScanStarts(file: seq<Byte>)
    ensures Scanning(file, [], [], file) && Encode([]) <= ChildOutput(file)
  {
    assert [] + file == file && [] + Split(file) == Split(file);
    ChildOutputFrom(file, [], [], file);
  }

  lemma WordGrows(file: seq<Byte>, sent: seq<Word>, word: Word, rest: seq<Byte>)
    requires Scanning(file, sent, word, rest)
    requires rest != [] && !IsDelimiter(rest[0]) && |word| < MAX_WORD
    ensures Scanning(file, sent, word + [rest[0]], rest[1..])
  {
    assert word + [rest[0]] + rest[1..] == word + rest;
  }

  lemma WordOverflows(file: seq<Byte>, sent: seq<Word>, word: Word, rest: seq<Byte>)
    requires Scanning(file, sent, word, rest)
    requires rest != [] && !IsDelimiter(rest[0]) && |word| == MAX_WORD
    ensures ChildOutput(file) == Encode(sent) && Deliver(Split(file)) == Delivery(sent, true)
    ensures !AllFit(Split(file))
  {
    ScanTooLong(word, rest);
    ChildOutputFrom(file, sent, word, rest);
    DeliverPrefix(Split(file));
    DeliverPrefix(sent);
    DeliverAppend(sent, Split(word + rest));
    assert sent + [] == sent;
  }

  /** What has been sent is part of what can be delivered. */
  lemma SentIsDeliverable(file: seq<Byte>, sent: seq<Word>, word: Word, rest: seq<Byte>)
    requires Scanning(file, sent, word, rest)
    ensures sent <= Deliver(Split(file)).words
  {
    DeliverPrefix(sent);
    DeliverAppend(sent, Split(word + rest));
  }

  /** The buffered word is one of those that can be delivered, and its NUL does not fit. */
  lemma NulOverruns(file: seq<Byte>, sent: seq<Word>, word: Word, rest: seq<Byte>, slots: nat)
    requires Scanning(file, sent, word, rest) && word != [] && (rest == [] || IsDelimiter(rest[0]))
    requires |word| >= slots
    ensures !NulsFit(Deliver(Split(file)).words, slots)
  {
    WordEnds(file, sent, word, rest);
    SentIsDeliverable(file, sent + [word], [], if rest == [] then [] else rest[1..]);
    assert (sent + [word])[|sent|] == word == Deliver(Split(file)).words[|sent|];
  }

  /** Sending has come as far as the scan, and no NUL was stored outside a buffer with this many slots. */
  ghost predicate ChildSending(before: seq<Byte>, written: seq<Byte>, file: seq<Byte>, slots: nat,
                               sent: seq<Word>, word: Word, rest: seq<Byte>)
  {
    Scanning(file, sent, word, rest) && NulsFit(sent, slots) && written == before + Encode(sent)
  }

  /** How the child can end: it has written all its output, with every NUL inside the buffer; or part of
      it, because a write failed or because a word that could be sent is too long for the buffer. */
  ghost predicate ChildEnded(before: seq<Byte>, written: seq<Byte>, file: seq<Byte>, slots: nat,
                             exit: Outcome<SenderExit>)
  {
    var d := Deliver(Split(file));
    && before <= written <= before + ChildOutput(file)
    && match exit
       case Overrun => !NulsFit(d.words, slots)
       case Exited(IoError) => true
       case Exited(e) =>
         written == before + ChildOutput(file) && NulsFit(d.words, slots) && (e == WordTooLong <==> !AllFit(Split(file)))
  }

  /** Once the buffered word is complete: what has been sent with it, or some of its bytes. */
  lemma ChildSendsWord(before: seq<Byte>, written: seq<Byte>, file: seq<Byte>, slots: nat,
                       sent: seq<Word>, word: Word, rest: seq<Byte>, now: seq<Byte>, ok: bool)
    requires ChildSending(before, written, file, slots, sent, word, rest)
    requires 0 < |word| < slots && (rest == [] || IsDelimiter(rest[0]))
    requires written <= now <= written + Frame(word) && (ok ==> now == written + Frame(word))
    ensures ok ==> ChildSending(before, now, file, slots, sent + [word], [], if rest == [] then [] else rest[1..])
    ensures ChildEnded(before, now, file, slots, Exited(IoError))
  {
    WordEnds(file, sent, word, rest);
    Assoc(before, Encode(sent), Frame(word));
  }

  lemma ChildOverruns(before: seq<Byte>, written: seq<Byte>, file: seq<Byte>, slots: nat,
                      sent: seq<Word>, word: Word, rest: seq<Byte>)
    requires ChildSending(before, written, file, slots, sent, word, rest)
    requires word != [] && |word| >= slots && (rest == [] || IsDelimiter(rest[0]))
    ensures ChildEnded(before, written, file, slots, Overrun)
  {
    NulOverruns(file, sent, word, rest, slots);
    ChildOutputFrom(file, sent, word, rest);
  }

  lemma ChildRefuses(before: seq<Byte>, written: seq<Byte>, file: seq<Byte>, slots: nat,
                     sent: seq<Word>, word: Word, rest: seq<Byte>)
    requires ChildSending(before, written, file, slots, sent, word, rest)
    requires rest != [] && !IsDelimiter(rest[0]) && |word| == MAX_WORD
    ensures ChildEnded(before, written, file, slots, Exited(WordTooLong))
  {
    WordOverflows(file, sent, word, rest);
  }

  /** Sends the buffered word, which the next byte of the file or its end completes. */
  method SendBuffered(fd: WriteEnd, word: array<Byte>, length: Byte, ghost before: seq<Byte>,
                      ghost file: seq<Byte>, ghost sent: seq<Word>, ghost rest: seq<Byte>)
    returns (exit: Outcome<SenderExit>)
    requires length <= word.Length && length > 0 && (rest == [] || IsDelimiter(rest[0]))
    requires ChildSending(before, fd.written, file, word.Length, sent, word[..length], rest)
    modifies fd, word
    ensures exit in {Exited(Success), Exited(IoError), Overrun}
    ensures exit == Exited(Success) ==> ChildSending(before, fd.written, file, word.Length,
              sent + [old(word[..length])], [], if rest == [] then [] else rest[1..])
    ensures exit != Exited(Success) ==> ChildEnded(before, fd.written, file, word.Length, exit)
    ensures fd.failures == old(fd.failures) + if exit == Exited(IoError) then 1 else 0
  {
    ghost var seen, written := word[..length], fd.written;
    if length >= word.Length {
      ChildOverruns(before, written, file, word.Length, sent, seen, rest);
      return Overrun;
    }
    word[length] := NUL;
    assert word[..length] == seen;
    var ok := SendWord(fd, word, length, seen);
    ChildSendsWord(before, written, file, word.Length, sent, seen, rest, fd.written, ok);
    return if ok then Exited(Success) else Exited(IoError);
  }

  /** word[length++] = ch, on a uint8_t. */
  method StoreByte(word: array<Byte>, length: Byte, ch: Byte) returns (next: Byte)
    requires word.Length >= MAX_WORD && length < MAX_WORD
    modifies word
    ensures next <= MAX_WORD && word[..next] == old(word[..length]) + [ch]
  {
    ghost var seen := word[..length];
    word[length] := ch;
    next := (length + 1) % 256;
    assert word[..length] == seen;
  }

  /** slots: the size of the word buffer; the source declares DECLARED_SLOTS. */
  method ChildProcess(file: seq<Byte>, fd: WriteEnd, slots: nat) returns (exit: Outcome<SenderExit>)
    requires slots >= MAX_WORD
    modifies fd
    ensures ChildEnded(old(fd.written), fd.written, file, slots, exit)
    ensures fd.failures == old(fd.failures) + if exit == Exited(IoError) then 1 else 0
  {
    var word := new Byte[slots];
    var length: Byte := 0;
    var pos := 0;
    ghost var before, sent: seq<Word>, rest := fd.written, [], file;
    ScanStarts(file);
    assert word[..0] == [] && before + Encode([]) == before;
    while pos < |file|
      invariant 0 <= pos <= |file| && rest == file[pos..] && length <= MAX_WORD
      invariant ChildSending(before, fd.written, file, slots, sent, word[..length], rest)
      invariant fd.failures == old(fd.failures)
    {
      var ch := file[pos];
      ghost var seen := word[..length];
      assert rest[0] == ch && rest[1..] == file[pos + 1..];
      if IsDelimiter(ch) {
        if length > 0 {
          exit := SendBuffered(fd, word, length, before, file, sent, rest);
          if exit != Exited(Success) {
            return;
          }
          sent := sent + [seen];
          length := 0;
        } else {
          WordEnds(file, sent, seen, rest);
        }
        assert word[..length] == [];
      } else {
        if length >= MAX_WORD {
          ChildRefuses(before, fd.written, file, slots, sent, seen, rest);
          return Exited(WordTooLong);
        }
        WordGrows(file, sent, seen, rest);
        length := StoreByte(word, length, ch);
      }
      rest := rest[1..];
      pos := pos + 1;
    }
    exit := SendLast(file, fd, word, length, sent, before);
  }

  lemma FileEnds(file: seq<Byte>, sent: seq<Word>, before: seq<Byte>)
    requires Scanning(file, sent, [], [])
    ensures AllFit(Split(file)) && Deliver(Split(file)) == Delivery(sent, false)
    ensures before + Encode(sent) + Frame([]) == before + ChildOutput(file)
  {
    assert Split(file) == sent;
    DeliverPrefix(sent);
    Assoc(before, Encode(sent), TERMINATOR);
  }

  /** What follows the scanning loop: the word at the end of the file and the terminator. */
  method SendLast(file: seq<Byte>, fd: WriteEnd, word: array<Byte>, length: Byte,
                  ghost sent: seq<Word>, ghost before: seq<Byte>)
    returns (exit: Outcome<SenderExit>)
    requires MAX_WORD <= word.Length && length <= MAX_WORD
    requires ChildSending(before, fd.written, file, word.Length, sent, word[..length], [])
    modifies fd, word
    ensures ChildEnded(before, fd.written, file, word.Length, exit) && exit != Exited(WordTooLong)
    ensures fd.failures == old(fd.failures) + if exit == Exited(IoError) then 1 else 0
  {
    ghost var all := sent;
    if length > 0 {
      all := sent + [word[..length]];
      exit := SendBuffered(fd, word, length, before, file, sent, []);
      if exit != Exited(Success) {
        return;
      }
    } else {
      assert word[..length] == [];
    }
    exit := SendTerminator(file, fd, word, all, before);
  }

  method SendTerminator(file: seq<Byte>, fd: WriteEnd, word: array<Byte>, ghost all: seq<Word>, ghost before: seq<Byte>)
    returns (exit: Outcome<SenderExit>)
    requires ChildSending(before, fd.written, file, word.Length, all, [], [])
    modifies fd
    ensures ChildEnded(before, fd.written, file, word.Length, exit) && exit in {Exited(Success), Exited(IoError)}
    ensures fd.failures == old(fd.failures) + if exit == Exited(IoError) then 1 else 0
  {
    FileEnds(file, all, before);
    var ok := SendWord(fd, word, 0, []);
    return if ok then Exited(Success) else Exited(IoError);
  }

  /** Between two frames: the words in received, then what is still to be made of incoming. */
  ghost predicate Receiving(stream: seq<Byte>, received: seq<Word>, incoming: seq<Byte>) {
    && Frames(stream) == received + Frames(incoming)
    && Decode(stream) == match Decode(incoming)
         case None => None
         case Some((ws, rest)) => Some((received + ws, rest))
  }

  lemma ReceivingStarts(stream: seq<Byte>)
    ensures Receiving(stream, [], stream)
  {
    assert [] + Frames(stream) == Frames(stream);
    assert Decode(stream).Some? ==> [] + Decode(stream).value.0 == Decode(stream).value.0;
  }

  lemma ReceivingWord(stream: seq<Byte>, received: seq<Word>, incoming: seq<Byte>, w: Word, next: seq<Byte>)
    requires Receiving(stream, received, incoming)
    requires 0 < |w| <= MAX_WORD && incoming == Frame(w) + next
    ensures Receiving(stream, received + [w], next)
  {
    FramesCons(w, next);
    Assoc(received, [w], Frames(next));
    if Decode(next).Some? {
      Assoc(received, [w], Decode(next).value.0);
    }
  }

  lemma ReceivingEnd(stream: seq<Byte>, received: seq<Word>, incoming: seq<Byte>, next: seq<Byte>)
    requires Receiving(stream, received, incoming) && incoming == [0] + next
    ensures Decode(stream) == Some((received, next))
  {
    assert incoming[1..] == next && received + [] == received;
  }

  /** The stream has run out before the end of a frame. */
  lemma ReceivingRunsOut(stream: seq<Byte>, received: seq<Word>, incoming: seq<Byte>)
    requires Receiving(stream, received, incoming) && Incomplete(incoming) && (incoming != [] ==> incoming[0] != 0)
    ensures Decode(stream) == None && Frames(stream) == received
  {
    assert received + [] == received;
  }

  /** The words in a stream up to the terminator, or in all of it if there is none. */
  function WordsUpTo(stream: seq<Byte>): seq<Word> {
    match Decode(stream)
    case Some((ws, _)) => ws
    case None => Frames(stream)
  }

  lemma ReceivedSoFar(stream: seq<Byte>, received: seq<Word>, incoming: seq<Byte>)
    requires Receiving(stream, received, incoming)
    ensures received <= WordsUpTo(stream) && received <= Frames(stream)
  {
  }

  /** For any stream: the parent stops after exactly the words up to the terminator if there is one,
      and otherwise receives exactly the complete frames and then spins -- unless the NUL after one
      of them does not fit the buffer, and then up to the first such word. */
  method ParentProcess(fd: ReadEnd, slots: nat) returns (received: seq<Word>, exit: Outcome<ReadExit>)
    requires slots >= MAX_WORD
    modifies fd
    ensures exit == Exited(Whole) ==> Decode(old(fd.incoming)) == Some((received, fd.incoming))
    ensures exit == Exited(Killed) ==>
      Decode(old(fd.incoming)) == None && received == Frames(old(fd.incoming)) && fd.incoming == []
    ensures received <= WordsUpTo(old(fd.incoming)) && received <= Frames(old(fd.incoming))
    ensures NulsFit(received, slots)
    ensures exit == Overrun ==>
      |received| < |WordsUpTo(old(fd.incoming))| && |WordsUpTo(old(fd.incoming))[|received|]| >= slots
    ensures fd.failures == old(fd.failures) + if exit == Exited(ReadError) then 1 else 0
  {
    var header := new Byte[1];
    var word := new Byte[slots];
    received := [];
    ghost var stream := fd.incoming;
    ReceivingStarts(stream);
    while true
      invariant Receiving(stream, received, fd.incoming) && NulsFit(received, slots)
      invariant fd.failures == old(fd.failures)
      decreases |fd.incoming|
    {
      ghost var before := fd.incoming;
      ReceivedSoFar(stream, received, before);
      var read := ReadFully(fd, header, 1);
      if read != Whole {
        if read == Killed {
          ReceivingRunsOut(stream, received, before);
        }
        return received, Exited(read);
      }
      var length := header[0];
      assert before == [length] + fd.incoming;
      if length == 0 {
        ReceivingEnd(stream, received, before, fd.incoming);
        return received, Exited(Whole);
      }
      read := ReadFully(fd, word, length);
      if read != Whole {
        if read == Killed {
          ReceivingRunsOut(stream, received, before);
        }
        return received, Exited(read);
      }
      ghost var w := word[..length];
      assert before == Frame(w) + fd.incoming;
      ReceivingWord(stream, received, before, w, fd.incoming);
      if length >= slots {
        ReceivedSoFar(stream, received + [w], fd.incoming);
        assert (received + [w])[|received|] == w;
        return received, Overrun;
      }
      word[length] := NUL;
      assert word[..length] == w;
      received := received + [word[..length]];
    }
  }

  /** Whatever the child writes for a file whose words all fit, the parent decodes the file's
      words from it. */
  lemma ParentUndoesChild(file: seq<Byte>)
    ensures Decode(ChildOutput(file)).Some? <==> AllFit(Split(file))
    ensures AllFit(Split(file)) ==> Decode(ChildOutput(file)) == Some((Split(file), []))
  {
    var ws := Split(file);
    var d := Deliver(ws);
    DeliverPrefix(ws);
    SplitMembers(file);
    forall i | 0 <= i < |d.words| ensures d.words[i] != [] {
      assert d.words[i] == ws[i] && ws[i] in ws;
    }
    if d.rejected {
      NoTerminator(d.words);
      assert Encode(d.words) + [] == Encode(d.words);
    } else {
      DecodeOfEncode(ws, []);
      assert TERMINATOR + [] == TERMINATOR;
    }
  }

  lemma {:induction false} NoTerminator(ws: seq<Word>)
    requires Sendable(ws)
    ensures Decode(Encode(ws)) == None
  {
    if ws != [] {
      NoTerminator(ws[1..]);
      FramesCons(ws[0], Encode(ws[1..]));
    }
  }
}
