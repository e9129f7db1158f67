/** Bytes, words, and what it means to cut a byte string into words: the maximal runs
    of bytes other than space, tab and newline, from left to right. */
module Words {

  type Byte = b: int | 0 <= b < 256

  type Word = seq<Byte>

  const MAX_WORD: nat := 255

  const NUL: Byte := 0
  const TAB: Byte := 9
  const NEWLINE: Byte := 10
  const SPACE: Byte := 32

  predicate IsDelimiter(b: Byte) {
    b == SPACE || b == NEWLINE || b == TAB
  }

  predicate NoDelimiter(s: seq<Byte>) {
    forall i :: 0 <= i < |s| ==> !IsDelimiter(s[i])
  }

  /** The length of the longest delimiter-free prefix of s. */
  function RunLength(s: seq<Byte>): (n: nat)
    ensures n <= |s| && forall i :: 0 <= i < n ==> !IsDelimiter(s[i])
    ensures n < |s| ==> IsDelimiter(s[n])
  {
    if s == [] || IsDelimiter(s[0]) then 0 else 1 + RunLength(s[1..])
  }

  /** The words of s. */
  function Split(s: seq<Byte>): seq<Word>
    decreases |s|
  {
    if s == [] then []
    else if IsDelimiter(s[0]) then Split(s[1..])
    else [s[..RunLength(s)]] + Split(s[RunLength(s)..])
  }

  lemma Assoc<T>(a: seq<T>, b: seq<T>, c: seq<T>)
    ensures (a + b) + c == a + (b + c)
  {
  }

  // ----- Split against the definition of a maximal run

  /** The positions from start up to end. */
  datatype Span = Span(start: nat, end: nat)

  /** The span holds a run that cannot be extended on either side. */
  ghost predicate MaximalRun(s: seq<Byte>, r: Span) {
    && r.start < r.end <= |s|
    && (forall i :: r.start <= i < r.end ==> !IsDelimiter(s[i]))
    && (r.start == 0 || IsDelimiter(s[r.start - 1]))
    && (r.end == |s| || IsDelimiter(s[r.end]))
  }

  /** spans lists, in order and without repetition, exactly the maximal runs of s that
      start at position from or later. */
  ghost predicate ListsRunsFrom(s: seq<Byte>, from: nat, spans: seq<Span>) {
    && (forall k :: 0 <= k < |spans| ==> from <= spans[k].start && MaximalRun(s, spans[k]))
    && (forall j, k :: 0 <= j < k < |spans| ==> spans[j].end <= spans[k].start)
    && (forall r: Span :: from <= r.start && MaximalRun(s, r) ==> r in spans)
  }

  lemma RunsSkipDelimiter(s: seq<Byte>, from: nat, spans: seq<Span>)
    requires from < |s| && IsDelimiter(s[from]) && ListsRunsFrom(s, from + 1, spans)
    ensures ListsRunsFrom(s, from, spans)
  {
    forall r: Span | from <= r.start && MaximalRun(s, r) ensures r in spans {
      assert !IsDelimiter(s[r.start]);
    }
  }

  /** Two maximal runs coincide or do not overlap. */
  lemma RunsPrepend(s: seq<Byte>, first: Span, rest: seq<Span>)
    requires MaximalRun(s, first) && ListsRunsFrom(s, first.end, rest)
    ensures ListsRunsFrom(s, first.start, [first] + rest)
  {
    var spans := [first] + rest;
    assert spans[0] == first;
    forall r: Span | first.start <= r.start && MaximalRun(s, r) ensures r in spans {
      assert first.start < r.start <= first.end ==> r.start == first.end;
      assert first.end == |s| || IsDelimiter(s[first.end]);
    }
  }

  /** The run at the start of a word. */
  lemma RunIsMaximal(s: seq<Byte>, from: nat)
    requires from < |s| && !IsDelimiter(s[from]) && (from == 0 || IsDelimiter(s[from - 1]))
    ensures MaximalRun(s, Span(from, from + RunLength(s[from..])))
  {
    assert forall i :: from <= i < |s| ==> s[i] == s[from..][i - from];
  }

  /** words are the stretches of s at the given positions. */
  ghost predicate At(s: seq<Byte>, spans: seq<Span>, words: seq<Word>) {
    && |words| == |spans|
    && forall k :: 0 <= k < |spans| ==>
         spans[k].start <= spans[k].end <= |s| && words[k] == s[spans[k].start..spans[k].end]
  }

  lemma AtPrepend(s: seq<Byte>, first: Span, rest: seq<Span>, words: seq<Word>)
    requires first.start <= first.end <= |s| && At(s, rest, words)
    ensures At(s, [first] + rest, [s[first.start..first.end]] + words)
  {
  }

  lemma SplitFrom(s: seq<Byte>, from: nat, end: nat)
    requires from < |s| && !IsDelimiter(s[from]) && end == from + RunLength(s[from..])
    ensures from < end <= |s| && Split(s[from..]) == [s[from..end]] + Split(s[end..])
  {
    SplitHead(s[from..], end - from);
    assert s[from..][..end - from] == s[from..end] && s[from..][end - from..] == s[end..];
  }

  lemma {:induction false} RunsFrom(s: seq<Byte>, from: nat) returns (spans: seq<Span>)
    requires from <= |s|
    requires from == 0 || from == |s| || IsDelimiter(s[from - 1]) || IsDelimiter(s[from])
    ensures ListsRunsFrom(s, from, spans) && At(s, spans, Split(s[from..]))
    decreases |s| - from
  {
    if from == |s| {
      spans := [];
    } else if IsDelimiter(s[from]) {
      spans := RunsFrom(s, from + 1);
      RunsSkipDelimiter(s, from, spans);
      assert s[from..][1..] == s[from + 1..];
    } else {
      var first := Span(from, from + RunLength(s[from..]));
      var rest := RunsFrom(s, first.end);
      RunIsMaximal(s, from);
      RunsPrepend(s, first, rest);
      AtPrepend(s, first, rest, Split(s[first.end..]));
      SplitFrom(s, from, first.end);
      spans := [first] + rest;
    }
  }

  /** Split yields exactly the maximal runs of its argument, in order. */
  lemma SplitIsMaximalRuns(s: seq<Byte>) returns (spans: seq<Span>)
    ensures ListsRunsFrom(s, 0, spans) && At(s, spans, Split(s))
  {
    assert s[0..] == s;
    spans := RunsFrom(s, 0);
  }

  // ----- Split and concatenation

  lemma {:induction false} RunLengthAppend(a: seq<Byte>, b: seq<Byte>)
    ensures RunLength(a + b) == if NoDelimiter(a) then |a| + RunLength(b) else RunLength(a)
  {
    if a == [] {
      assert a + b == b;
    } else {
      assert (a + b)[1..] == a[1..] + b;
      RunLengthAppend(a[1..], b);
      assert NoDelimiter(a) ==> NoDelimiter(a[1..]);
      assert NoDelimiter(a[1..]) && !IsDelimiter(a[0]) ==> NoDelimiter(a) by {
        assert forall i :: 0 < i < |a| ==> a[i] == a[1..][i - 1];
      }
    }
  }

  /** No word straddles the join of a and b. */
  predicate CleanJoin(a: seq<Byte>, b: seq<Byte>) {
    a == [] || b == [] || IsDelimiter(a[|a| - 1]) || IsDelimiter(b[0])
  }

  lemma {:induction false} SplitCleanJoin(a: seq<Byte>, b: seq<Byte>)
    requires CleanJoin(a, b)
    ensures Split(a + b) == Split(a) + Split(b)
    decreases |a|
  {
    if a == [] {
      assert a + b == b;
    } else if b == [] {
      assert a + b == a;
    } else if IsDelimiter(a[0]) {
      assert (a + b)[1..] == a[1..] + b;
      SplitCleanJoin(a[1..], b);
    } else {
      var n := RunLength(a);
      RunLengthAppend(a, b);
      assert NoDelimiter(a) ==> n == |a| && !IsDelimiter(a[|a| - 1]) && IsDelimiter(b[0]);
      assert RunLength(a + b) == n;
      assert (a + b)[..n] == a[..n];
      assert (a + b)[n..] == a[n..] + b;
      SplitCleanJoin(a[n..], b);
      Assoc([a[..n]], Split(a[n..]), Split(b));
    }
  }

  /** Splitting distributes over concatenation at a delimiter. */
  lemma SplitAtDelimiter(a: seq<Byte>, d: Byte, b: seq<Byte>)
    requires IsDelimiter(d)
    ensures Split(a + [d] + b) == Split(a) + Split(b)
  {
    assert a + [d] + b == a + ([d] + b);
    SplitCleanJoin(a, [d] + b);
    assert ([d] + b)[1..] == b;
  }

  /** When the join is not clean, the last word of a and the first word of b are pieces of
      one word. */
  lemma {:induction false} SplitDirtyJoin(a: seq<Byte>, b: seq<Byte>)
    requires !CleanJoin(a, b)
    ensures |Split(a)| > 0 && |Split(b)| > 0 && Split(b)[0] != []
    ensures Split(a + b) == Fused(Split(a), Split(b))
    decreases |a|
  {
    if IsDelimiter(a[0]) {
      assert (a + b)[1..] == a[1..] + b;
      SplitDirtyJoin(a[1..], b);
    } else {
      var n := RunLength(a);
      RunLengthAppend(a, b);
      if NoDelimiter(a) {
        DirtyJoinOfRun(a, b);
      } else {
        assert RunLength(a + b) == n < |a|;
        assert (a + b)[..n] == a[..n];
        assert (a + b)[n..] == a[n..] + b;
        SplitDirtyJoin(a[n..], b);
        FusedCons(a[..n], Split(a[n..]), Split(b));
      }
    }
  }

  /** The last word of x and the first word of y become one. */
  function Fused(x: seq<Word>, y: seq<Word>): seq<Word>
    requires x != [] && y != []
  {
    x[..|x| - 1] + ([x[|x| - 1] + y[0]] + y[1..])
  }

  lemma FusedCons(w: Word, x: seq<Word>, y: seq<Word>)
    requires x != [] && y != []
    ensures Fused([w] + x, y) == [w] + Fused(x, y)
  {
    assert ([w] + x)[..|x|] == [w] + x[..|x| - 1];
    Assoc([w], x[..|x| - 1], [x[|x| - 1] + y[0]] + y[1..]);
  }

  lemma FusedOne(w: Word, y: seq<Word>)
    requires y != []
    ensures Fused([w], y) == [w + y[0]] + y[1..]
  {
  }

  /** A run put before a word makes the word longer. */
  lemma RunBeforeWord(a: seq<Byte>, b: seq<Byte>, k: nat)
    requires a != [] && NoDelimiter(a) && b != [] && !IsDelimiter(b[0]) && k == RunLength(b)
    ensures Split(a + b) == [a + b[..k]] + Split(b[k..])
  {
    var s, n := a + b, |a| + k;
    RunLengthAppend(a, b);
    assert s[0] == a[0];
    SplitHead(s, n);
    assert s[..n] == a + b[..k];
    assert s[n..] == b[k..];
  }

  lemma DirtyJoinOfRun(a: seq<Byte>, b: seq<Byte>)
    requires !CleanJoin(a, b) && NoDelimiter(a)
    ensures Split(a) == [a] && Split(b) != [] && Split(b)[0] != []
    ensures Split(a + b) == Fused(Split(a), Split(b))
  {
    var k := RunLength(b);
    SplitRun(a);
    SplitHead(b, k);
    FusedOne(a, Split(b));
    RunBeforeWord(a, b, k);
  }

  lemma SplitHead(s: seq<Byte>, n: nat)
    requires s != [] && !IsDelimiter(s[0]) && n == RunLength(s)
    ensures n > 0 && Split(s) == [s[..n]] + Split(s[n..])
    ensures Split(s) != [] && Split(s)[0] == s[..n] && Split(s)[1..] == Split(s[n..])
  {
  }

  /** A delimiter-free string is at most one word. */
  lemma SplitRun(w: seq<Byte>)
    requires NoDelimiter(w)
    ensures Split(w) == if w == [] then [] else [w]
  {
    if w != [] {
      RunLengthAppend(w, []);
      assert w + [] == w;
      assert w[..|w|] == w && w[|w|..] == [];
    }
  }

  /** The words of s hold exactly the bytes of s that are not delimiters, and none is empty. */
  lemma {:induction false} SplitMembers(s: seq<Byte>)
    ensures forall w :: w in Split(s) ==> w != [] && NoDelimiter(w) && |w| <= |s|
    ensures forall b: Byte :: (b in s && !IsDelimiter(b)) <==> exists w :: w in Split(s) && b in w
    decreases |s|
  {
    if s == [] {
    } else if IsDelimiter(s[0]) {
      SplitMembers(s[1..]);
      assert s == [s[0]] + s[1..];
    } else {
      var n := RunLength(s);
      SplitMembers(s[n..]);
      assert s == s[..n] + s[n..];
      var rest := Split(s[n..]);
      assert Split(s) == [s[..n]] + rest;
      assert Split(s)[0] == s[..n];
      forall b: Byte | b in s && !IsDelimiter(b) ensures exists w :: w in Split(s) && b in w {
        if b in s[..n] {
          assert s[..n] in Split(s);
        } else {
          assert b in s[n..];
          var w :| w in rest && b in w;
          assert w in Split(s);
        }
      }
    }
  }

  // ----- Split in terms of the bytes themselves: 9 is a tab, 10 a newline, 32 a space

  /** A byte alone is a word unless it is one of the three. */
  lemma SplitByte(b: Byte)
    ensures Split([b]) == if b == 9 || b == 10 || b == 32 then [] else [[b]]
  {
    if IsDelimiter(b) {
      assert [b][1..] == [];
    } else {
      SplitRun([b]);
    }
  }

  /** Each of the three ends a word, and the words on its two sides have nothing to do with each other. */
  lemma SplitAtBlank(x: seq<Byte>, b: Byte, y: seq<Byte>)
    requires b == 9 || b == 10 || b == 32
    ensures Split(x + [b] + y) == Split(x) + Split(y)
  {
    SplitAtDelimiter(x, b, y);
  }

  /** The words one after the other. */
  function Flat(ws: seq<Word>): seq<Byte> {
    if ws == [] then [] else ws[0] + Flat(ws[1..])
  }

  lemma FlatCons(w: Word, ws: seq<Word>)
    ensures Flat([w] + ws) == w + Flat(ws)
  {
    assert ([w] + ws)[1..] == ws;
  }

  /** s without the three. */
  function WithoutBlanks(s: seq<Byte>): seq<Byte> {
    if s == [] then []
    else (if s[0] == 9 || s[0] == 10 || s[0] == 32 then [] else [s[0]]) + WithoutBlanks(s[1..])
  }

  lemma {:induction false} WithoutBlanksAfterRun(w: seq<Byte>, rest: seq<Byte>)
    requires NoDelimiter(w)
    ensures WithoutBlanks(w + rest) == w + WithoutBlanks(rest)
  {
    if w == [] {
      assert w + rest == rest;
    } else {
      assert (w + rest)[1..] == w[1..] + rest;
      WithoutBlanksAfterRun(w[1..], rest);
      Assoc([w[0]], w[1..], WithoutBlanks(rest));
      assert [w[0]] + w[1..] == w;
    }
  }

  lemma FirstWordKeepsBytes(s: seq<Byte>, w: Word, rest: seq<Byte>)
    requires s != [] && !IsDelimiter(s[0]) && w == s[..RunLength(s)] && rest == s[RunLength(s)..]
    requires Flat(Split(rest)) == WithoutBlanks(rest)
    ensures Flat(Split(s)) == WithoutBlanks(s)
  {
    SplitHead(s, |w|);
    FlatCons(w, Split(rest));
    assert s == w + rest;
    WithoutBlanksAfterRun(w, rest);
  }

  /** The bytes of the words, in order, are exactly the bytes of s other than the three. */
  lemma {:induction false} WordsKeepBytes(s: seq<Byte>)
    ensures Flat(Split(s)) == WithoutBlanks(s)
    decreases |s|
  {
    if s == [] {
    } else if IsDelimiter(s[0]) {
      WordsKeepBytes(s[1..]);
      assert [] + WithoutBlanks(s[1..]) == WithoutBlanks(s[1..]);
    } else {
      WordsKeepBytes(s[RunLength(s)..]);
      FirstWordKeepsBytes(s, s[..RunLength(s)], s[RunLength(s)..]);
    }
  }

  // ----- Sending words of limited length

  /** What a sender that refuses words over 255 bytes gets through: the words before the
      first refused one, and whether there was one. */
  datatype Delivery = Delivery(words: seq<Word>, rejected: bool)

  function Deliver(ws: seq<Word>): (d: Delivery)
    ensures AllFit(d.words)
  {
    if ws == [] then Delivery([], false)
    else if |ws[0]| > MAX_WORD then Delivery([], true)
    else var d := Deliver(ws[1..]); Delivery([ws[0]] + d.words, d.rejected)
  }

  predicate AllFit(ws: seq<Word>) {
    forall i :: 0 <= i < |ws| ==> |ws[i]| <= MAX_WORD
  }

  /** Each of these words leaves room for a NUL in a buffer with this many slots; an empty one gets
      none. */
  predicate NulsFit(ws: seq<Word>, slots: nat) {
    forall i :: 0 <= i < |ws| && ws[i] != [] ==> |ws[i]| < slots
  }

  /** Deliver stops exactly before the first word that does not fit. */
  lemma {:induction false} DeliverPrefix(ws: seq<Word>)
    ensures var d := Deliver(ws);
      && d.words <= ws && AllFit(d.words)
      && (d.rejected <==> !AllFit(ws))
      && (d.rejected ==> |d.words| < |ws| && |ws[|d.words|]| > MAX_WORD)
      && (!d.rejected ==> d.words == ws)
  {
    if ws != [] && |ws[0]| <= MAX_WORD {
      DeliverPrefix(ws[1..]);
      assert ws == [ws[0]] + ws[1..];
      assert AllFit(ws) ==> AllFit(ws[1..]);
    }
  }

  lemma {:induction false} DeliverAppend(a: seq<Word>, b: seq<Word>)
    ensures Deliver(a + b) ==
      if Deliver(a).rejected then Deliver(a) else Delivery(a + Deliver(b).words, Deliver(b).rejected)
  {
    if a == [] {
      assert a + b == b;
    } else {
      assert (a + b)[1..] == a[1..] + b;
      DeliverAppend(a[1..], b);
      DeliverPrefix(a);
    }
  }

  // ----- One step of a byte-at-a-time scan: word holds the delimiter-free bytes seen since
  // ----- the last delimiter, rest is the unread input

  lemma ScanDelimiter(word: Word, rest: seq<Byte>)
    requires NoDelimiter(word) && rest != [] && IsDelimiter(rest[0])
    ensures Split(word + rest) == (if word == [] then [] else [word]) + Split(rest[1..])
  {
    SplitAtDelimiter(word, rest[0], rest[1..]);
    assert word + [rest[0]] + rest[1..] == word + rest;
    SplitRun(word);
  }

  lemma ScanTooLong(word: Word, rest: seq<Byte>)
    requires NoDelimiter(word) && |word| >= MAX_WORD && rest != [] && !IsDelimiter(rest[0])
    ensures Split(word + rest) != [] && Deliver(Split(word + rest)) == Delivery([], true)
  {
    RunLengthAppend(word, rest);
    assert word != [] ==> (word + rest)[0] == word[0];
  }
}
