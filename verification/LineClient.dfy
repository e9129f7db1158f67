/** The line-at-a-time tokenisers: fgets into a fixed buffer, then strtok_r over the buffer.
    The socket client, the mailbox producer and the shared-memory client differ only in the
    size of the buffer. */
module LineClient {
  import opened Words

  /** The buffer of the socket client; one byte of it is kept for the NUL. */
  const LINE_LEN: nat := 1024

  /** The bytes of s before its first NUL, or all of s. */
  function CString(s: seq<Byte>): (c: seq<Byte>)
    ensures c <= s && NUL !in c
    ensures |c| < |s| ==> s[|c|] == NUL
  {
    if s == [] || s[0] == NUL then [] else [s[0]] + CString(s[1..])
  }

  /** How many bytes fgets takes from s: through the first newline, limit bytes or the end of
      the file, whichever comes first. */
  function ChunkLength(s: seq<Byte>, limit: nat): (n: nat)
    requires s != [] && limit >= 1
    ensures 1 <= n <= |s| && n <= limit
    ensures forall i :: 0 <= i < n - 1 ==> s[i] != NEWLINE
    ensures n == |s| || n == limit || s[n - 1] == NEWLINE
  {
    if s[0] == NEWLINE || limit == 1 || |s| == 1 then 1 else 1 + ChunkLength(s[1..], limit - 1)
  }

  /** The words found when s is cut into chunks of at most limit bytes. */
  function LineTokens(s: seq<Byte>, limit: nat): seq<Word>
    requires limit >= 1
    decreases |s|
  {
    if s == [] then []
    else
      var n := ChunkLength(s, limit);
      Split(CString(s[..n])) + LineTokens(s[n..], limit)
  }

  // ----- The loops

  /** A chunk ends where the reading stops. */
  lemma {:induction false} ChunkEnds(file: seq<Byte>, pos: nat, next: nat, limit: nat)
    requires pos < next <= |file| && next - pos <= limit
    requires forall i :: pos <= i < next - 1 ==> file[i] != NEWLINE
    requires next == |file| || next - pos == limit || file[next - 1] == NEWLINE
    ensures ChunkLength(file[pos..], limit) == next - pos
    decreases next - pos
  {
    if next > pos + 1 {
      ChunkEnds(file, pos + 1, next, limit - 1);
      assert file[pos..][1..] == file[pos + 1..];
    }
  }

  /** fgets(3): false at end of file, otherwise one chunk and a NUL; the rest of the buffer
      keeps what it held. */
  method Fgets(file: seq<Byte>, pos: nat, line: array<Byte>) returns (got: bool, next: nat)
    requires pos <= |file| && line.Length >= 2
    modifies line
    ensures got <==> pos < |file|
    ensures !got ==> next == pos
    ensures got ==> next == pos + ChunkLength(file[pos..], line.Length - 1)
    ensures got ==> line[..next - pos] == file[pos..next] && line[next - pos] == NUL
  {
    if pos == |file| {
      return false, pos;
    }
    next := pos;
    var stop := false;
    while !stop && next < |file| && next - pos < line.Length - 1
      invariant pos <= next <= |file| && next - pos <= line.Length - 1
      invariant line[..next - pos] == file[pos..next]
      invariant forall i :: pos <= i < next - 1 ==> file[i] != NEWLINE
      invariant stop <==> next > pos && file[next - 1] == NEWLINE
      decreases |file| - next
    {
      line[next - pos] := file[next];
      stop := file[next] == NEWLINE;
      next := next + 1;
    }
    ChunkEnds(file, pos, next, line.Length - 1);
    line[next - pos] := NUL;
    return true, next;
  }

  /** The C string that starts at position i of a buffer holding s. */
  ghost function Text(s: seq<Byte>, i: nat): seq<Byte>
    requires i <= |s|
  {
    CString(s[i..])
  }

  ghost predicate Terminated(s: seq<Byte>, i: nat) {
    exists k :: i <= k < |s| && s[k] == NUL
  }

  /** strspn(3) over the delimiters. */
  method SkipDelimiters(line: array<Byte>, from: nat) returns (b: nat)
    requires Terminated(line[..], from)
    ensures from <= b < line.Length && Terminated(line[..], b) && !IsDelimiter(line[b])
    ensures Split(Text(line[..], from)) == Split(Text(line[..], b))
  {
    b := from;
    ghost var s := line[..];
    while IsDelimiter(line[b])
      invariant from <= b < line.Length && Terminated(s, b)
      invariant Split(Text(s, from)) == Split(Text(s, b))
      decreases line.Length - b
    {
      TextStep(s, b);
      b := b + 1;
    }
  }

  /** strcspn(3) over the delimiters. */
  method WordEnd(line: array<Byte>, b: nat) returns (e: nat)
    requires Terminated(line[..], b) && line[b] != NUL && !IsDelimiter(line[b])
    ensures b < e < line.Length && Terminated(line[..], e)
    ensures WordAt(line[..], b, e)
  {
    e := b;
    ghost var s := line[..];
    while line[e] != NUL && !IsDelimiter(line[e])
      invariant b <= e < line.Length && Terminated(s, e)
      invariant forall i :: b <= i < e ==> line[i] != NUL && !IsDelimiter(line[i])
      decreases line.Length - e
    {
      e := e + 1;
    }
  }

  /** strtok_r(3) with the delimiters space, tab and newline, resuming at from. Yields the
      position of the next word, or -1, and the position to resume at. */
  method StrtokR(line: array<Byte>, from: nat) returns (word: int, save: nat)
    requires Terminated(line[..], from)
    modifies line
    ensures from <= save < line.Length && Terminated(line[..], save)
    ensures word == -1 ==> Split(Text(old(line[..]), from)) == []
    ensures word != -1 ==> from <= word < line.Length && Terminated(line[..], word)
    ensures word != -1 ==>
      Split(Text(old(line[..]), from)) == [Text(line[..], word)] + Split(Text(line[..], save))
  {
    ghost var s := line[..];
    var b := SkipDelimiters(line, from);
    assert line[..] == s;
    if line[b] == NUL {
      return -1, b;
    }
    var e := WordEnd(line, b);
    assert line[..] == s;
    ghost var cut := s[e := NUL];
    word, save := b, e;
    if line[e] != NUL {
      line[e] := NUL;
      save := e + 1;
    }
    assert line[..] == cut;
    WordInFront(s, cut, b, e, save);
  }

  /** strlen(3). */
  method Strlen(line: array<Byte>, from: nat) returns (n: nat)
    requires Terminated(line[..], from)
    ensures from + n <= line.Length && Text(line[..], from) == line[..][from..][..n]
  {
    n := 0;
    ghost var s := line[..][from..];
    assert forall i :: from <= i < line.Length ==> line[i] == s[i - from];
    while line[from + n] != NUL
      invariant from + n < line.Length && n <= |CString(s)|
      decreases line.Length - n
    {
      n := n + 1;
    }
  }

  lemma LineStep(file: seq<Byte>, start: nat, next: nat, limit: nat)
    requires start < |file| && limit >= 1 && next == start + ChunkLength(file[start..], limit)
    ensures LineTokens(file[start..], limit) == Split(CString(file[start..next])) + LineTokens(file[next..], limit)
  {
    var s, n := file[start..], next - start;
    LineTokensOpen(s, limit, n);
    assert s[..n] == file[start..next];
    assert s[n..] == file[next..];
  }

  lemma LineTokensOpen(s: seq<Byte>, limit: nat, n: nat)
    requires s != [] && limit >= 1 && n == ChunkLength(s, limit)
    ensures LineTokens(s, limit) == Split(CString(s[..n])) + LineTokens(s[n..], limit)
  {
  }

  // ----- C strings

  lemma TextStep(s: seq<Byte>, i: nat)
    requires i < |s| && s[i] != NUL
    ensures Text(s, i) == [s[i]] + Text(s, i + 1)
    ensures IsDelimiter(s[i]) ==> Split(Text(s, i)) == Split(Text(s, i + 1))
  {
    assert s[i..][1..] == s[i + 1..];
  }

  lemma {:induction false} CStringAppend(a: seq<Byte>, b: seq<Byte>)
    requires NUL !in a
    ensures CString(a + b) == a + CString(b)
  {
    if a == [] {
      assert a + b == b;
    } else {
      assert (a + b)[1..] == a[1..] + b;
      CStringAppend(a[1..], b);
    }
  }

  /** Positions b to e hold a word, and something that ends it follows. */
  ghost predicate WordAt(s: seq<Byte>, b: nat, e: nat) {
    && b < e < |s| && (s[e] == NUL || IsDelimiter(s[e]))
    && forall i :: b <= i < e ==> s[i] != NUL && !IsDelimiter(s[i])
  }

  lemma WordTaken(s: seq<Byte>, b: nat, e: nat)
    requires WordAt(s, b, e)
    ensures Split(Text(s, b)) == [s[b..e]] + Split(Text(s, e))
  {
    var word := s[b..e];
    assert s[b..] == word + s[e..];
    CStringAppend(word, s[e..]);
    SplitCleanJoin(word, Text(s, e));
    SplitRun(word);
  }

  lemma WordCut(s: seq<Byte>, b: nat, e: nat)
    requires WordAt(s, b, e)
    ensures Text(s[e := NUL], b) == s[b..e]
  {
    var cut := s[e := NUL];
    assert cut[b..] == s[b..e] + cut[e..];
    CStringAppend(s[b..e], cut[e..]);
  }

  lemma WordsAfterCut(s: seq<Byte>, e: nat)
    requires e < |s| && IsDelimiter(s[e])
    ensures Split(Text(s, e)) == Split(Text(s[e := NUL], e + 1))
  {
    TextStep(s, e);
    assert s[e := NUL][e + 1..] == s[e + 1..];
  }

  /** Cutting a word off with a NUL at its end makes it a C string of its own and leaves the
      words after it. */
  lemma WordInFront(s: seq<Byte>, cut: seq<Byte>, b: nat, e: nat, save: nat)
    requires WordAt(s, b, e) && Terminated(s, e)
    requires cut == s[e := NUL] && save == if s[e] == NUL then e else e + 1
    ensures save < |s| && Terminated(cut, b) && Terminated(cut, save)
    ensures Split(Text(s, b)) == [Text(cut, b)] + Split(Text(cut, save))
  {
    assert cut[e] == NUL;
    WordTaken(s, b, e);
    WordCut(s, b, e);
    if s[e] == NUL {
      assert cut == s;
    } else {
      WordsAfterCut(s, e);
    }
  }

  /** Only the bytes before a NUL matter. */
  lemma {:induction false} CStringUpTo(s: seq<Byte>, n: nat)
    requires n < |s| && s[n] == NUL
    ensures CString(s) == CString(s[..n])
  {
    if n > 0 && s[0] != NUL {
      CStringUpTo(s[1..], n - 1);
      assert s[1..][..n - 1] == s[..n][1..];
    }
  }
}
