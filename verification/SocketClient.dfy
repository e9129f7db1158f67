/** The socket client: it finds the words of a file line by line and sends each as a frame. */
module SocketClient {
  import opened Words
  import opened Framing
  import opened LineClient

  /** The client's end of the connection. */
  class Socket {
    /** Everything sent so far. */
    var sent: seq<Byte>
    /** How many sends have failed. */
    ghost var failures: nat

    constructor ()
      ensures sent == [] && failures == 0
    {
      sent, failures := [], 0;
    }

    /** send(2) on a blocking stream: fails, or takes all the bytes. */
    method Send(buf: array<Byte>, from: nat, count: nat) returns (n: int)
      requires from + count <= buf.Length
      modifies this
      ensures n == -1 || n == count
      ensures sent == old(sent) + if n == -1 then [] else buf[from..from + count]
      ensures failures == old(failures) + if n == -1 then 1 else 0
    {
      var fails: bool := *;
      if fails {
        n, failures := -1, failures + 1;
      } else {
        n, sent := count, sent + buf[from..from + count];
      }
    }
  }

  /** Sends the word w, which is in the line at the given position. */
  method SendWord(socket: Socket, line: array<Byte>, word: nat, length: Byte, ghost w: Word) returns (ok: bool)
    requires word + length <= line.Length && w == line[word..word + length]
    modifies socket
    ensures ok ==> socket.sent == old(socket.sent) + Frame(w)
    ensures old(socket.sent) <= socket.sent <= old(socket.sent) + Frame(w)
    ensures socket.failures == old(socket.failures) + if ok then 0 else 1
  {
    var header := new Byte[1][length];
    var written := socket.Send(header, 0, 1);
    assert header[0..1] == [length];
    if written < 0 {
      return false;
    }
    if length > 0 {
      written := socket.Send(line, word, length);
      if written < 0 {
        return false;
      }
    }
    return true;
  }

  /** The words in done have been sent after the bytes in before; those in pending are to come. */
  ghost predicate Sending(before: seq<Byte>, stream: seq<Byte>, all: seq<Word>, done: seq<Word>, pending: seq<Word>) {
    AllFit(done) && all == done + pending && stream == before + Encode(done)
  }

  /** How sending the words in all can end: their frames up to the first word that is too long have
      been sent, or a part of that if a send has failed. */
  ghost predicate Ended(before: seq<Byte>, stream: seq<Byte>, all: seq<Word>, exit: SenderExit) {
    var d := Deliver(all);
    && (exit != IoError ==> stream == before + Encode(d.words) && (exit == WordTooLong <==> d.rejected))
    && before <= stream <= before + Encode(d.words)
  }

  lemma SendingStarts(before: seq<Byte>, all: seq<Word>)
    ensures Sending(before, before, all, [], all)
  {
    assert [] + all == all && before + Encode([]) == before;
  }

  lemma SendingNext(before: seq<Byte>, stream: seq<Byte>, all: seq<Word>, done: seq<Word>, w: Word, more: seq<Word>)
    requires Sending(before, stream, all, done, [w] + more) && |w| <= MAX_WORD
    ensures Sending(before, stream + Frame(w), all, done + [w], more)
    ensures stream + Frame(w) <= before + Encode(Deliver(all).words)
  {
    Assoc(done, [w], more);
    EncodeAppend(done, [w]);
    assert Encode([w]) == Frame(w);
    Assoc(before, Encode(done), Frame(w));
    SentIsPrefix(all, done + [w], more);
  }

  lemma SentIsPrefix(all: seq<Word>, done: seq<Word>, more: seq<Word>)
    requires AllFit(done) && all == done + more
    ensures Encode(done) <= Encode(Deliver(all).words)
  {
    DeliverPrefix(done);
    DeliverAppend(done, more);
    EncodePrefix(done, Deliver(all).words);
  }

  lemma SendingRefused(before: seq<Byte>, stream: seq<Byte>, all: seq<Word>, done: seq<Word>, w: Word, more: seq<Word>)
    requires Sending(before, stream, all, done, [w] + more) && |w| > MAX_WORD
    ensures Ended(before, stream, all, WordTooLong)
  {
    DeliverPrefix(done);
    DeliverAppend(done, [w] + more);
    assert Deliver([w] + more) == Delivery([], true) && done + [] == done;
  }

  lemma SendingEnds(before: seq<Byte>, stream: seq<Byte>, all: seq<Word>, done: seq<Word>)
    requires Sending(before, stream, all, done, [])
    ensures Ended(before, stream, all, Success)
  {
    assert all == done;
    DeliverPrefix(done);
  }

  /** The body of the inner loop: sends the word at the given position, unless it is too long. */
  method SendToken(line: array<Byte>, socket: Socket, word: nat, ghost before: seq<Byte>, ghost all: seq<Word>,
                   ghost done: seq<Word>, ghost w: Word, ghost more: seq<Word>)
    returns (exit: SenderExit)
    requires Terminated(line[..], word) && w == Text(line[..], word)
    requires Sending(before, socket.sent, all, done, [w] + more)
    modifies socket
    ensures exit == Success ==> Sending(before, socket.sent, all, done + [w], more)
    ensures exit != Success ==> Ended(before, socket.sent, all, exit)
    ensures socket.failures == old(socket.failures) + if exit == IoError then 1 else 0
  {
    var length := Strlen(line, word);
    if length > 255 {
      SendingRefused(before, socket.sent, all, done, w, more);
      return WordTooLong;
    }
    SendingNext(before, socket.sent, all, done, w, more);
    assert line[word..word + length] == line[..][word..][..length];
    var ok := SendWord(socket, line, word, length, w);
    return if ok then Success else IoError;
  }

  /** The inner loop: sends the words of one line, giving up at a word that is too long. */
  method SendLine(line: array<Byte>, socket: Socket) returns (exit: SenderExit)
    requires Terminated(line[..], 0)
    modifies line, socket
    ensures Ended(old(socket.sent), socket.sent, Split(Text(old(line[..]), 0)), exit)
    ensures socket.failures == old(socket.failures) + if exit == IoError then 1 else 0
  {
    ghost var before, all := socket.sent, Split(Text(line[..], 0));
    ghost var done: seq<Word>, pending := [], all;
    SendingStarts(before, all);
    var word, save := StrtokR(line, 0);
    while word != -1
      invariant save < line.Length && Terminated(line[..], save)
      invariant word != -1 ==> 0 <= word < line.Length && Terminated(line[..], word)
      invariant word == -1 ==> pending == []
      invariant word != -1 ==> pending == [Text(line[..], word)] + Split(Text(line[..], save))
      invariant Sending(before, socket.sent, all, done, pending) && socket.failures == old(socket.failures)
      decreases |pending|
    {
      ghost var bytes := line[..];
      ghost var w, more := Text(bytes, word), Split(Text(bytes, save));
      exit := SendToken(line, socket, word, before, all, done, w, more);
      if exit != Success {
        return;
      }
      assert line[..] == bytes;
      done, pending := done + [w], more;
      word, save := StrtokR(line, save);
    }
    SendingEnds(before, socket.sent, all, done);
    return Success;
  }

  /** After one chunk, with later the words of the chunks after it. */
  lemma SendingChunk(before: seq<Byte>, stream: seq<Byte>, all: seq<Word>, done: seq<Word>, chunk: seq<Word>,
                     later: seq<Word>, next: seq<Byte>, exit: SenderExit)
    requires Sending(before, stream, all, done, chunk + later) && Ended(stream, next, chunk, exit)
    ensures exit == Success ==> Sending(before, next, all, done + chunk, later)
    ensures exit != Success ==> Ended(before, next, all, exit)
  {
    var d := Deliver(chunk);
    DeliverPrefix(done);
    DeliverPrefix(chunk);
    DeliverAppend(done, chunk + later);
    DeliverAppend(chunk, later);
    Assoc(done, chunk, later);
    EncodeAppend(done, d.words);
    Assoc(before, Encode(done), Encode(d.words));
    EncodePrefix(done + d.words, Deliver(all).words);
  }

  /** The chunk in the buffer, as fgets left it, as a C string. */
  lemma ChunkInBuffer(line: seq<Byte>, chunk: seq<Byte>)
    requires |chunk| < |line| && line[..|chunk|] == chunk && line[|chunk|] == NUL
    ensures Terminated(line, 0) && Text(line, 0) == CString(chunk)
  {
    assert line[0..] == line;
    CStringUpTo(line, |chunk|);
  }

  /** The words that the client sends from a file. */
  ghost function ClientWords(file: seq<Byte>): (ws: seq<Word>)
    ensures AllFit(ws)
  {
    Deliver(LineTokens(file, LINE_LEN - 1)).words
  }

  /** The outer loop: whatever the file, the client sends the frames of its words up to the first one
      that is too long, or a part of that if a send fails. */
  method SendFile(file: seq<Byte>, socket: Socket) returns (exit: SenderExit)
    modifies socket
    ensures exit != IoError ==> socket.sent == old(socket.sent) + Encode(ClientWords(file))
    ensures exit != IoError ==> (exit == WordTooLong <==> !AllFit(LineTokens(file, LINE_LEN - 1)))
    ensures old(socket.sent) <= socket.sent <= old(socket.sent) + Encode(ClientWords(file))
    ensures socket.failures == old(socket.failures) + if exit == IoError then 1 else 0
  {
    DeliverPrefix(LineTokens(file, LINE_LEN - 1));
    exit := SendLines(file, socket);
  }

  method SendLines(file: seq<Byte>, socket: Socket) returns (exit: SenderExit)
    modifies socket
    ensures Ended(old(socket.sent), socket.sent, LineTokens(file, LINE_LEN - 1), exit)
    ensures socket.failures == old(socket.failures) + if exit == IoError then 1 else 0
  {
    var line := new Byte[LINE_LEN];
    ghost var before, all := socket.sent, LineTokens(file, LINE_LEN - 1);
    ghost var done: seq<Word>, start := [], 0;
    SendingStarts(before, all);
    var got, pos := Fgets(file, 0, line);
    assert file[0..] == file;
    while got
      invariant start <= pos <= |file|
      invariant Sending(before, socket.sent, all, done, LineTokens(file[start..], LINE_LEN - 1))
      invariant socket.failures == old(socket.failures)
      invariant got ==> start < |file| && pos == start + ChunkLength(file[start..], LINE_LEN - 1)
      invariant got ==> line[..pos - start] == file[start..pos] && line[pos - start] == NUL
      invariant !got ==> start == |file|
      decreases |file| - start
    {
      ghost var stream, text := socket.sent, file[start..pos];
      ghost var chunk, later := Split(CString(text)), LineTokens(file[pos..], LINE_LEN - 1);
      LineStep(file, start, pos, LINE_LEN - 1);
      assert Sending(before, stream, all, done, chunk + later);
      ChunkInBuffer(line[..], text);
      exit := SendLine(line, socket);
      SendingChunk(before, stream, all, done, chunk, later, socket.sent, exit);
      if exit != Success {
        return;
      }
      done, start := done + chunk, pos;
      got, pos := Fgets(file, pos, line);
    }
    SendingEnds(before, socket.sent, all, done);
    return Success;
  }
}
