/** When the line-at-a-time tokenisers find the words the byte-at-a-time one does. */
module Agreement {
  import opened Words
  import opened LineClient

  /** How many chunks end inside a word. */
  function Cuts(s: seq<Byte>, limit: nat): nat
    requires limit >= 1
    decreases |s|
  {
    if s == [] then 0
    else
      var n := ChunkLength(s, limit);
      (if CleanJoin(s[..n], s[n..]) then 0 else 1) + Cuts(s[n..], limit)
  }

  lemma {:induction false} CStringOfText(s: seq<Byte>)
    requires NUL !in s
    ensures CString(s) == s
  {
    if s != [] {
      CStringOfText(s[1..]);
    }
  }

  /** The first chunk of a text without NULs. */
  lemma FirstChunk(s: seq<Byte>, limit: nat, n: nat)
    requires s != [] && limit >= 1 && NUL !in s && n == ChunkLength(s, limit)
    ensures LineTokens(s, limit) == Split(s[..n]) + LineTokens(s[n..], limit)
    ensures s == s[..n] + s[n..] && NUL !in s[n..]
  {
    var a, b := s[..n], s[n..];
    assert s == a + b;
    assert NUL !in a && NUL !in b;
    CStringOfText(a);
  }

  /** Each cut makes one word into two, so the chunked count is too high by the number of
      cuts; without cuts the words are the same. */
  lemma {:induction false} CutsCountExtraWords(s: seq<Byte>, limit: nat)
    requires limit >= 1 && NUL !in s
    ensures |LineTokens(s, limit)| == |Split(s)| + Cuts(s, limit)
    ensures Cuts(s, limit) == 0 ==> LineTokens(s, limit) == Split(s)
    decreases |s|
  {
    if s != [] {
      var n := ChunkLength(s, limit);
      var a, b := s[..n], s[n..];
      FirstChunk(s, limit, n);
      CutsCountExtraWords(b, limit);
      if CleanJoin(a, b) {
        SplitCleanJoin(a, b);
      } else {
        SplitDirtyJoin(a, b);
      }
    }
  }

  lemma {:induction false} LineTokensHaveNoNul(s: seq<Byte>, limit: nat)
    requires limit >= 1
    ensures forall w :: w in LineTokens(s, limit) ==> w != [] && NUL !in w && |w| <= limit
    decreases |s|
  {
    if s != [] {
      var n := ChunkLength(s, limit);
      var text := CString(s[..n]);
      LineTokensHaveNoNul(s[n..], limit);
      SplitMembers(text);
      forall w | w in Split(text) ensures w != [] && NUL !in w && |w| <= limit {
        assert NUL in w ==> NUL in text;
      }
    }
  }

  /** For every file and every buffer size, the two ways of finding words agree exactly when
      the file has no NUL and no chunk ends inside a word. */
  lemma TokenisersAgree(s: seq<Byte>, limit: nat)
    requires limit >= 1
    ensures LineTokens(s, limit) == Split(s) <==> NUL !in s && Cuts(s, limit) == 0
  {
    if NUL in s {
      SplitMembers(s);
      assert !IsDelimiter(NUL);
      var w :| w in Split(s) && NUL in w;
      LineTokensHaveNoNul(s, limit);
    } else {
      CutsCountExtraWords(s, limit);
    }
  }

  ghost predicate NewlineWithin(s: seq<Byte>, i: int, limit: nat) {
    exists k :: 0 <= k < |s| && i <= k < i + limit && s[k] == NEWLINE
  }

  /** Every line, with its newline, fits in limit bytes. */
  ghost predicate LinesFit(s: seq<Byte>, limit: nat) {
    forall i :: 0 <= i < |s| - limit ==> NewlineWithin(s, i, limit)
  }

  lemma {:induction false} ShortLinesAreNotCut(s: seq<Byte>, limit: nat)
    requires limit >= 1 && LinesFit(s, limit)
    ensures Cuts(s, limit) == 0
    decreases |s|
  {
    if s != [] {
      var n := ChunkLength(s, limit);
      if n < |s| {
        assert n == limit ==> NewlineWithin(s, 0, limit);
        assert s[..n][n - 1] == NEWLINE;
      }
      forall i | 0 <= i < |s[n..]| - limit ensures NewlineWithin(s[n..], i, limit) {
        assert NewlineWithin(s, n + i, limit);
        var k :| 0 <= k < |s| && n + i <= k < n + i + limit && s[k] == NEWLINE;
        assert s[n..][k - n] == NEWLINE;
      }
      ShortLinesAreNotCut(s[n..], limit);
    }
  }

  // ----- With the limit on the length of a word

  /** The first of these words is too long to send. */
  predicate RefusedAtOnce(ws: seq<Word>) {
    ws != [] && |ws[0]| > MAX_WORD
  }

  lemma RefusedAtOnceIff(ws: seq<Word>)
    ensures RefusedAtOnce(ws) <==> Deliver(ws) == Delivery([], true)
  {
  }

  /** The length of the first run of s; 0 if s is blank. */
  function FirstRun(s: seq<Byte>): nat {
    if s == [] then 0 else if IsDelimiter(s[0]) then FirstRun(s[1..]) else RunLength(s)
  }

  lemma {:induction false} FirstRunIsFirstWord(s: seq<Byte>)
    ensures FirstRun(s) == if Split(s) == [] then 0 else |Split(s)[0]|
    ensures Split(s) != [] ==> FirstRun(s) > 0
  {
    if s != [] {
      if IsDelimiter(s[0]) {
        FirstRunIsFirstWord(s[1..]);
      } else {
        SplitHead(s, RunLength(s));
      }
    }
  }

  /** Of the texts of the chunks, the first that is not blank begins with a word that is too long. */
  predicate RefusesNext(s: seq<Byte>, limit: nat)
    requires limit >= 1
    decreases |s|
  {
    s != [] &&
    var n := ChunkLength(s, limit);
    var k := FirstRun(CString(s[..n]));
    if k == 0 then RefusesNext(s[n..], limit) else k > MAX_WORD
  }

  lemma {:induction false} RefusesNextIff(s: seq<Byte>, limit: nat)
    requires limit >= 1
    ensures RefusesNext(s, limit) <==> RefusedAtOnce(LineTokens(s, limit))
    decreases |s|
  {
    if s != [] {
      var n := ChunkLength(s, limit);
      FirstRunIsFirstWord(CString(s[..n]));
      RefusesNextIff(s[n..], limit);
    }
  }

  /** Chunk by chunk, nothing is lost to the length-limited sender. Of a chunk, the line-at-a-time
      client sees the text before the first NUL. Either a word of that text is refused; or the
      chunk has no NUL and does not end inside a word, and the same holds for the rest of the file;
      or the byte-at-a-time sender refuses the very word that the first NUL begins, and the
      line-at-a-time client, which skips the rest of the chunk, refuses the first word after it. */
  predicate Harmless(s: seq<Byte>, limit: nat)
    requires limit >= 1
    decreases |s|
  {
    s == [] ||
    var n := ChunkLength(s, limit);
    var a, b := s[..n], s[n..];
    var text := CString(a);
    || !AllFit(Split(text))
    || (NUL !in a && CleanJoin(a, b) && Harmless(b, limit))
    || (NUL in a && CleanJoin(text, s[|text|..]) && RunLength(s[|text|..]) > MAX_WORD
        && RefusesNext(b, limit))
  }

  lemma FusedDelivery(x: seq<Word>, y: seq<Word>)
    requires x != [] && y != [] && y[0] != []
    ensures Deliver(x).rejected ==> Deliver(Fused(x, y)) == Deliver(x)
    ensures !Deliver(x).rejected ==> !(x <= Deliver(Fused(x, y)).words)
    decreases |x|
  {
    var f := Fused(x, y);
    if |x| == 1 {
      FusedOne(x[0], y);
      assert x == [x[0]];
      DeliverPrefix(f);
    } else {
      var rest := Fused(x[1..], y);
      assert x == [x[0]] + x[1..];
      FusedCons(x[0], x[1..], y);
      FusedDelivery(x[1..], y);
    }
  }

  /** A word of the text is refused: the byte-at-a-time sender gets as far, and no further. */
  lemma RefusedInText(text: seq<Byte>, rest: seq<Byte>, more: seq<Word>)
    requires !AllFit(Split(text))
    ensures Deliver(Split(text + rest)) == Deliver(Split(text)) == Deliver(Split(text) + more)
  {
    var x := Split(text);
    DeliverPrefix(x);
    DeliverAppend(x, more);
    if CleanJoin(text, rest) {
      SplitCleanJoin(text, rest);
      DeliverAppend(x, Split(rest));
    } else {
      SplitDirtyJoin(text, rest);
      FusedDelivery(x, Split(rest));
    }
  }

  /** The text was all sent, but its last word goes on: the two senders differ. */
  lemma LastWordCut(text: seq<Byte>, rest: seq<Byte>, more: seq<Word>)
    requires AllFit(Split(text)) && !CleanJoin(text, rest)
    ensures Deliver(Split(text + rest)) != Deliver(Split(text) + more)
  {
    var x := Split(text);
    DeliverPrefix(x);
    DeliverAppend(x, more);
    SplitDirtyJoin(text, rest);
    FusedDelivery(x, Split(rest));
  }

  /** The text was all sent and ends cleanly: what comes after it decides. */
  lemma CleanCut(text: seq<Byte>, rest: seq<Byte>, more: seq<Word>)
    requires AllFit(Split(text)) && CleanJoin(text, rest)
    ensures Deliver(Split(text + rest)) == Deliver(Split(text) + more) <==> Deliver(Split(rest)) == Deliver(more)
  {
    var x := Split(text);
    DeliverPrefix(x);
    DeliverAppend(x, more);
    SplitCleanJoin(text, rest);
    DeliverAppend(x, Split(rest));
    SamePrefix(x, Deliver(more), Deliver(Split(rest)));
  }

  /** A word that begins with a NUL gets through only from the byte-at-a-time sender, so the two
      agree only if both refuse at once. */
  lemma NulFirst(rest: seq<Byte>, more: seq<Word>)
    requires rest != [] && rest[0] == NUL && forall w :: w in more ==> NUL !in w
    ensures Deliver(Split(rest)) == Deliver(more) <==> RunLength(rest) > MAX_WORD && RefusedAtOnce(more)
  {
    var k := RunLength(rest);
    SplitHead(rest, k);
    assert rest[..k][0] == NUL;
    RefusedAtOnceIff(more);
    DeliverPrefix(more);
    var sent := Deliver(more).words;
    assert sent != [] ==> sent[0] in more;
  }

  /** What the line-at-a-time client makes of the first chunk: the text before its first NUL. */
  lemma FirstText(s: seq<Byte>, limit: nat, n: nat)
    requires s != [] && limit >= 1 && n == ChunkLength(s, limit)
    ensures var text := CString(s[..n]);
      && |text| <= n && s == text + s[|text|..]
      && LineTokens(s, limit) == Split(text) + LineTokens(s[n..], limit)
      && (NUL !in s[..n] ==> text == s[..n])
      && (NUL in s[..n] ==> |text| < n && s[|text|] == NUL)
  {
    var a := s[..n];
    var text := CString(a);
    assert s[..|text|] == a[..|text|] == text;
    assert a[..n] == a;
    if NUL !in a {
      CStringOfText(a);
    }
  }

  /** For every file: a sender that refuses words over 255 bytes gets through the same words, and
      refuses or not, whichever way it finds them, exactly when its chunks are harmless. */
  lemma {:induction false} SendersAgree(s: seq<Byte>, limit: nat)
    requires limit >= 1
    ensures Deliver(LineTokens(s, limit)) == Deliver(Split(s)) <==> Harmless(s, limit)
    decreases |s|
  {
    if s != [] {
      var n := ChunkLength(s, limit);
      var text, more := CString(s[..n]), LineTokens(s[n..], limit);
      var rest := s[|text|..];
      SendersAgree(s[n..], limit);
      FirstText(s, limit, n);
      if !AllFit(Split(text)) {
        RefusedInText(text, rest, more);
      } else if !CleanJoin(text, rest) {
        LastWordCut(text, rest, more);
      } else {
        CleanCut(text, rest, more);
        if NUL in s[..n] {
          LineTokensHaveNoNul(s[n..], limit);
          NulFirst(rest, more);
          RefusesNextIff(s[n..], limit);
        }
      }
    }
  }

  /** A harmful cut in a file without NULs: a word of two bytes at the very end of a full buffer. */
  lemma CutParts(limit: nat)
    requires limit >= 1
    ensures var s := seq(limit - 1, _ => SPACE) + [97, 98];
      && NUL !in s && !Harmless(s, limit) && Split(s) == [[97, 98]]
      && LineTokens(s, limit) == [[97], [98]]
  {
    var s := seq(limit - 1, _ => SPACE) + [97, 98];
    BlanksBefore(limit - 1, [97, 98]);
    SplitRun([97, 98]);
    CutWord(limit);
    DeliverPrefix([[97], [98]]);
    DeliverPrefix([[97, 98]]);
    assert [[97], [98]][0] != [[97, 98]][0];
    SendersAgree(s, limit);
  }

  lemma CutWord(limit: nat)
    requires limit >= 1
    ensures LineTokens(seq(limit - 1, _ => SPACE) + [97, 98], limit) == [[97], [98]]
  {
    var spaces := seq(limit - 1, _ => SPACE);
    var s := spaces + [97, 98];
    BlankChunk(limit - 1, [97, 98], limit);
    assert s[..limit] == spaces + [97] && s[limit..] == [98];
    FirstChunk(s, limit, limit);
    BlanksBefore(limit - 1, [97]);
    SplitRun([97]);
    LastByte(limit);
  }

  lemma LastByte(limit: nat)
    requires limit >= 1
    ensures LineTokens([98], limit) == [[98]]
  {
    var s: seq<Byte> := [98];
    FirstChunk(s, limit, 1);
    assert s[..1] == s && s[1..] == [];
    SplitRun(s);
  }

  lemma {:induction false} BlanksBefore(n: nat, w: seq<Byte>)
    ensures Split(seq(n, _ => SPACE) + w) == Split(w)
  {
    var s := seq(n, _ => SPACE) + w;
    if n == 0 {
      assert s == w;
    } else {
      assert s[1..] == seq(n - 1, _ => SPACE) + w;
      BlanksBefore(n - 1, w);
    }
  }

  lemma {:induction false} BlankChunk(n: nat, w: seq<Byte>, limit: nat)
    requires limit == n + 1 && |w| == 2
    ensures ChunkLength(seq(n, _ => SPACE) + w, limit) == limit
  {
    var s := seq(n, _ => SPACE) + w;
    if n > 0 {
      assert s[1..] == seq(n - 1, _ => SPACE) + w;
      BlankChunk(n - 1, w, limit - 1);
    }
  }

  lemma SamePrefix(x: seq<Word>, d: Delivery, e: Delivery)
    ensures Delivery(x + d.words, d.rejected) == Delivery(x + e.words, e.rejected) <==> d == e
  {
    assert (x + d.words)[|x|..] == d.words && (x + e.words)[|x|..] == e.words;
  }

  /** A NUL can part the two even without a cut: the byte-at-a-time child sends it as part of
      a word, the socket client drops it and the rest of its line. */
  lemma NulParts(limit: nat)
    requires limit >= 3
    ensures var s: seq<Byte> := [97, NUL, 98];
      Cuts(s, limit) == 0 && Split(s) == [s] && LineTokens(s, limit) == [[97]]
  {
    var s: seq<Byte> := [97, NUL, 98];
    assert ChunkLength(s, limit) == 3 by {
      assert s[1..][1..] == s[2..];
    }
    assert s[..3] == s && s[3..] == [];
    SplitRun(s);
    assert CString(s) == [97];
    SplitRun([97]);
  }
}
