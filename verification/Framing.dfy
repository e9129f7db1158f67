/** The wire format shared by the pipe and the socket programs: each word travels as one
    length byte followed by that many bytes. The pipe ends its stream with a zero length. */
module Framing {
  import opened Words

  datatype Option<+T> = None | Some(value: T)

  /** How a sender ends. */
  datatype SenderExit = Success | WordTooLong | IoError

  function Frame(w: Word): (f: seq<Byte>)
    requires |w| <= MAX_WORD
  {
    [|w|] + w
  }

  function Encode(ws: seq<Word>): seq<Byte>
    requires AllFit(ws)
  {
    if ws == [] then [] else Frame(ws[0]) + Encode(ws[1..])
  }

  /** s does not hold a complete frame. */
  predicate Incomplete(s: seq<Byte>) {
    s == [] || |s| - 1 < s[0]
  }

  /** The word in the first frame of s, and the bytes after that frame. */
  function Head(s: seq<Byte>): Word
    requires !Incomplete(s)
  {
    s[1..][..s[0]]
  }

  function Tail(s: seq<Byte>): seq<Byte>
    requires !Incomplete(s)
  {
    s[1..][s[0]..]
  }

  /** The complete frames at the front of s ... */
  function Frames(s: seq<Byte>): seq<Word>
    decreases |s|
  {
    if Incomplete(s) then [] else [Head(s)] + Frames(Tail(s))
  }

  /** ... and the bytes after them. */
  function Leftover(s: seq<Byte>): seq<Byte>
    decreases |s|
  {
    if Incomplete(s) then s else Leftover(Tail(s))
  }

  const TERMINATOR: seq<Byte> := [0]

  /** Reads words up to a zero length; None if the stream ends before that. */
  function Decode(s: seq<Byte>): Option<(seq<Word>, seq<Byte>)>
    decreases |s|
  {
    if s == [] then None
    else if s[0] == 0 then Some(([], s[1..]))
    else if Incomplete(s) then None
    else match Decode(Tail(s))
      case None => None
      case Some((ws, rest)) => Some(([Head(s)] + ws, rest))
  }

  /** Words that can precede the terminator. */
  predicate Sendable(ws: seq<Word>) {
    AllFit(ws) && forall i :: 0 <= i < |ws| ==> ws[i] != []
  }

  lemma {:induction false} EncodeAppend(a: seq<Word>, b: seq<Word>)
    requires AllFit(a) && AllFit(b)
    ensures AllFit(a + b) && Encode(a + b) == Encode(a) + Encode(b)
  {
    if a == [] {
      assert a + b == b;
    } else {
      EncodeAppend(a[1..], b);
      assert (a + b)[1..] == a[1..] + b && (a + b)[0] == a[0];
      Assoc(Frame(a[0]), Encode(a[1..]), Encode(b));
    }
  }

  lemma EncodePrefix(a: seq<Word>, b: seq<Word>)
    requires AllFit(b) && a <= b
    ensures AllFit(a) && Encode(a) <= Encode(b)
  {
    assert b == a + b[|a|..];
    EncodeAppend(a, b[|a|..]);
  }

  lemma FrameParts(w: Word, tail: seq<Byte>)
    requires |w| <= MAX_WORD
    ensures var s := Frame(w) + tail;
      s[0] == |w| && !Incomplete(s) && Head(s) == w && Tail(s) == tail
  {
    assert (Frame(w) + tail)[1..] == w + tail;
  }

  lemma FrameOfParts(s: seq<Byte>)
    requires !Incomplete(s)
    ensures |Head(s)| == s[0] && s == Frame(Head(s)) + Tail(s)
  {
  }

  lemma EncodeCons(ws: seq<Word>, tail: seq<Byte>)
    requires AllFit(ws) && ws != []
    ensures AllFit(ws[1..])
    ensures Encode(ws) + tail == Frame(ws[0]) + (Encode(ws[1..]) + tail)
  {
  }

  lemma FramesCons(w: Word, tail: seq<Byte>)
    requires |w| <= MAX_WORD
    ensures Frames(Frame(w) + tail) == [w] + Frames(tail)
    ensures Leftover(Frame(w) + tail) == Leftover(tail)
    ensures w != [] ==> Decode(Frame(w) + tail) == match Decode(tail)
      case None => None
      case Some((ws, rest)) => Some(([w] + ws, rest))
  {
    FrameParts(w, tail);
  }

  /** Parsing an encoding gives the words back, whatever follows it. */
  lemma {:induction false} FramesOfEncode(ws: seq<Word>, tail: seq<Byte>)
    requires AllFit(ws)
    ensures Frames(Encode(ws) + tail) == ws + Frames(tail)
    ensures Leftover(Encode(ws) + tail) == Leftover(tail)
    decreases |ws|
  {
    if ws == [] {
      assert Encode(ws) + tail == tail;
    } else {
      var rest := Encode(ws[1..]) + tail;
      FramesOfEncode(ws[1..], tail);
      assert [ws[0]] + (ws[1..] + Frames(tail)) == ws + Frames(tail);
      EncodeCons(ws, tail);
      FramesCons(ws[0], rest);
    }
  }

  lemma FrameOfPrefix(s: seq<Byte>, w: Word, more: seq<Byte>)
    requires |w| <= MAX_WORD && s <= Frame(w) + more && !Incomplete(s)
    ensures Head(s) == w && Tail(s) <= more
  {
    var whole := Frame(w) + more;
    FrameParts(w, more);
    assert s[0] == whole[0];
    assert s[1..][..s[0]] == whole[1..][..s[0]];
    assert s[1..] <= whole[1..];
  }

  /** Parsing part of an encoding gives some of its words, in order. */
  lemma {:induction false} FramesOfPrefix(s: seq<Byte>, ws: seq<Word>)
    requires AllFit(ws) && s <= Encode(ws)
    ensures Frames(s) <= ws
    decreases |ws|
  {
    if !Incomplete(s) {
      FrameOfPrefix(s, ws[0], Encode(ws[1..]));
      FramesOfPrefix(Tail(s), ws[1..]);
      assert ws == [ws[0]] + ws[1..];
    }
  }

  /** Every byte string is an encoding followed by an incomplete frame, in one way only. */
  lemma {:induction false} EncodeOfFrames(s: seq<Byte>)
    ensures AllFit(Frames(s)) && Incomplete(Leftover(s))
    ensures Encode(Frames(s)) + Leftover(s) == s
    decreases |s|
  {
    if !Incomplete(s) {
      FrameOfParts(s);
      EncodeOfFrames(Tail(s));
      assert Frames(s)[0] == Head(s) && Frames(s)[1..] == Frames(Tail(s));
      EncodeCons(Frames(s), Leftover(s));
    }
  }

  lemma {:induction false} DecodeOfEncode(ws: seq<Word>, rest: seq<Byte>)
    requires Sendable(ws)
    ensures Decode(Encode(ws) + (TERMINATOR + rest)) == Some((ws, rest))
    decreases |ws|
  {
    if ws == [] {
      assert Encode(ws) + (TERMINATOR + rest) == TERMINATOR + rest;
      assert (TERMINATOR + rest)[1..] == rest;
    } else {
      EncodeCons(ws, TERMINATOR + rest);
      FramesCons(ws[0], Encode(ws[1..]) + (TERMINATOR + rest));
      DecodeOfEncode(ws[1..], rest);
      assert [ws[0]] + ws[1..] == ws;
    }
  }

  lemma {:induction false} EncodeOfDecode(s: seq<Byte>)
    requires Decode(s).Some?
    ensures var (ws, rest) := Decode(s).value;
      Sendable(ws) && s == Encode(ws) + (TERMINATOR + rest)
    decreases |s|
  {
    if s[0] == 0 {
      assert s == TERMINATOR + s[1..];
    } else {
      FrameOfParts(s);
      EncodeOfDecode(Tail(s));
      var (ws, rest) := Decode(s).value;
      assert ws[0] == Head(s) && ws[1..] == Decode(Tail(s)).value.0;
      EncodeCons(ws, TERMINATOR + rest);
    }
  }

  /** Decoding and encoding are inverse to each other on terminated streams. */
  lemma DecodeExactly(s: seq<Byte>, ws: seq<Word>, rest: seq<Byte>)
    ensures Decode(s) == Some((ws, rest)) <==> Sendable(ws) && s == Encode(ws) + (TERMINATOR + rest)
  {
    if Sendable(ws) {
      DecodeOfEncode(ws, rest);
    }
    if Decode(s).Some? {
      EncodeOfDecode(s);
    }
  }

  /** Equal streams carry equal words. */
  lemma EncodeInjective(a: seq<Word>, b: seq<Word>)
    requires AllFit(a) && AllFit(b) && Encode(a) == Encode(b)
    ensures a == b
  {
    FramesOfEncode(a, []);
    FramesOfEncode(b, []);
    assert Encode(a) + [] == Encode(b) + [];
    assert a + Frames([]) == a && b + Frames([]) == b;
  }
}
