/** The client table as a sequence of descriptors, and what one pass over it serves while
    clients are being removed under it. */
module ClientTable {
  import opened Words

  ghost predicate Distinct(t: seq<int>) {
    forall i, j :: 0 <= i < j < |t| ==> t[i] != t[j]
  }

  /** O(1) removal: the last entry takes the place of the removed one. */
  function SwapRemove(t: seq<int>, i: nat): (r: seq<int>)
    requires i < |t|
    ensures |r| == |t| - 1
  {
    if i == |t| - 1 then t[..i] else t[..i] + [t[|t| - 1]] + t[i + 1..|t| - 1]
  }

  /** Exactly the removed entry goes, and the entries stay distinct. */
  lemma SwapRemoveMembers(t: seq<int>, i: nat)
    requires i < |t| && Distinct(t)
    ensures var r := SwapRemove(t, i);
      Distinct(r) && forall x :: x in r <==> x in t && x != t[i]
  {
    var r, last := SwapRemove(t, i), |t| - 1;
    assert forall k :: 0 <= k < |r| ==> r[k] == t[if k == i then last else k];
    forall x | x in t && x != t[i] ensures x in r {
      var k :| 0 <= k < |t| && t[k] == x;
      assert x == r[if k == last then i else k];
    }
  }

  /** The table t lists exactly the keys of open, each once. */
  ghost predicate Lists(t: seq<int>, open: map<int, nat>) {
    Distinct(t) && forall fd :: fd in t <==> fd in open
  }

  lemma ListsWithout(t: seq<int>, open: map<int, nat>, i: nat)
    requires Lists(t, open) && i < |t|
    ensures Lists(SwapRemove(t, i), open - {t[i]})
  {
    SwapRemoveMembers(t, i);
  }

  lemma ListsWith(t: seq<int>, open: map<int, nat>, fd: int, s: nat)
    requires Lists(t, open) && fd !in open
    ensures Lists(t + [fd], open[fd := s])
  {
    forall i, j | 0 <= i < j < |t| + 1 ensures (t + [fd])[i] != (t + [fd])[j] {
      assert t[i] in t;
    }
  }

  lemma SwapRemoveAt(t: seq<int>, i: nat, j: nat)
    requires i < |t| && j < |t| - 1
    ensures SwapRemove(t, i)[j] == if j == i then t[|t| - 1] else t[j]
  {
  }

  /** The table after a pass, and the clients served, in order. */
  datatype Pass = Pass(table: seq<int>, served: seq<int>)

  /** What a pass does after a removal: move on, past the entry that was just swapped in, as the
      poll server does, or look at the same position again, as the select server does. */
  datatype Policy = SkipSwapped | Recheck

  /** A pass from position i. ready: the clients with input; gone: those that turn out to have
      disconnected when they are served. */
  function ServePass(policy: Policy, t: seq<int>, i: nat, ready: set<int>, gone: set<int>): Pass
    requires i <= |t|
    decreases |t| - i
  {
    if i == |t| then Pass(t, [])
    else if t[i] !in ready then ServePass(policy, t, i + 1, ready, gone)
    else if t[i] !in gone then Serve(t[i], ServePass(policy, t, i + 1, ready, gone))
    else if policy.Recheck? || i == |t| - 1 then Serve(t[i], ServePass(policy, SwapRemove(t, i), i, ready, gone))
    else Serve(t[i], ServePass(policy, SwapRemove(t, i), i + 1, ready, gone))
  }

  function Serve(x: int, rest: Pass): Pass {
    Pass(rest.table, [x] + rest.served)
  }

  // ----- The select pass

  /** From position i on, every ready client is served exactly once, whichever of them turn out
      to be gone; exactly the gone ones among them leave the table. */
  ghost predicate ServesAll(t: seq<int>, i: nat, ready: set<int>, gone: set<int>)
    requires i <= |t|
  {
    var p := ServePass(Recheck, t, i, ready, gone);
    && Distinct(p.served)
    && (forall x :: x in p.served <==> x in t[i..] && x in ready)
    && Distinct(p.table)
    && (forall x :: x in p.table <==> x in t && !(x in t[i..] && x in ready && x in gone))
  }

  lemma ServesAllInPlace(t: seq<int>, i: nat, ready: set<int>, gone: set<int>)
    requires i < |t| && Distinct(t) && (t[i] !in ready || t[i] !in gone)
    requires ServesAll(t, i + 1, ready, gone)
    ensures ServesAll(t, i, ready, gone)
  {
    assert t[i..] == [t[i]] + t[i + 1..] && t[i] !in t[i + 1..];
  }

  /** The entries from a removed one on are that one and those from there on afterwards. */
  lemma RemovedOrAfter(t: seq<int>, i: nat)
    requires i < |t| && Distinct(t)
    ensures forall x :: x in t[i..] <==> x == t[i] || x in SwapRemove(t, i)[i..]
    ensures t[i] !in SwapRemove(t, i)[i..]
  {
    SwapRemoveTail(t, i);
    assert t[i..] == [t[i]] + t[i + 1..];
  }

  lemma ServesAllAfterRemoval(t: seq<int>, i: nat, ready: set<int>, gone: set<int>)
    requires i < |t| && Distinct(t) && t[i] in ready && t[i] in gone
    requires ServesAll(SwapRemove(t, i), i, ready, gone)
    ensures ServesAll(t, i, ready, gone)
  {
    var q := ServePass(Recheck, SwapRemove(t, i), i, ready, gone);
    SwapRemoveMembers(t, i);
    RemovedOrAfter(t, i);
    assert ServePass(Recheck, t, i, ready, gone) == Serve(t[i], q);
    assert t[i] !in q.served;
  }

  lemma {:induction false} SelectPassServesAll(t: seq<int>, i: nat, ready: set<int>, gone: set<int>)
    requires i <= |t| && Distinct(t)
    ensures ServesAll(t, i, ready, gone)
    decreases |t| - i
  {
    if i == |t| {
      assert t[i..] == [];
    } else if t[i] !in ready || t[i] !in gone {
      SelectPassServesAll(t, i + 1, ready, gone);
      ServesAllInPlace(t, i, ready, gone);
    } else {
      SwapRemoveMembers(t, i);
      SelectPassServesAll(SwapRemove(t, i), i, ready, gone);
      ServesAllAfterRemoval(t, i, ready, gone);
    }
  }

  lemma SwapRemoveTail(t: seq<int>, i: nat)
    requires i < |t| && Distinct(t)
    ensures forall x :: x in SwapRemove(t, i)[i..] <==> x in t[i + 1..]
    ensures SwapRemove(t, i)[..i] == t[..i]
    ensures i < |t| - 1 ==> SwapRemove(t, i)[i] == t[|t| - 1]
    ensures i < |t| - 1 ==> SwapRemove(t, i)[i + 1..] == t[i + 1..|t| - 1]
  {
    var r, last := SwapRemove(t, i), |t| - 1;
    if i < last {
      assert t[i + 1..] == t[i + 1..last] + [t[last]];
      assert r[i..] == [t[last]] + t[i + 1..last];
    } else {
      assert r[i..] == [] && t[i + 1..] == [];
    }
  }

  // ----- The poll pass

  /** The ready clients from position i on that the pass does not serve. */
  ghost function Missed(t: seq<int>, i: nat, ready: set<int>, gone: set<int>): set<int>
    requires i <= |t|
  {
    set x | x in t[i..] && x in ready && x !in ServePass(SkipSwapped, t, i, ready, gone).served
  }

  /** The served clients that turned out to be gone. */
  function Dropped(p: Pass, gone: set<int>): set<int> {
    set x | x in p.served && x in gone
  }

  /** What a pass from position i on leaves alone and what it serves. */
  ghost predicate ServesReady(t: seq<int>, i: nat, ready: set<int>, gone: set<int>)
    requires i <= |t|
  {
    var p := ServePass(SkipSwapped, t, i, ready, gone);
    && Distinct(p.served)
    && (forall x :: x in p.served ==> x in t[i..] && x in ready)
    && Distinct(p.table) && i <= |p.table| && p.table[..i] == t[..i]
    && (forall x :: x in p.table <==> x in t && x !in Dropped(p, gone))
  }

  lemma ServesReadyAfterRemoval(t: seq<int>, i: nat, ready: set<int>, gone: set<int>)
    requires i < |t| - 1 && Distinct(t) && t[i] in ready && t[i] in gone
    requires ServesReady(SwapRemove(t, i), i + 1, ready, gone)
    ensures ServesReady(t, i, ready, gone)
  {
    var r, last := SwapRemove(t, i), |t| - 1;
    SwapRemoveMembers(t, i);
    SwapRemoveTail(t, i);
    assert r[..i + 1][..i] == r[..i];
    assert t[i..] == [t[i]] + t[i + 1..last] + [t[last]];
    assert t[i] !in r[i + 1..];
  }

  lemma ServesReadyInPlace(t: seq<int>, i: nat, ready: set<int>, gone: set<int>)
    requires i < |t| && Distinct(t) && (t[i] !in ready || t[i] !in gone)
    requires ServesReady(t, i + 1, ready, gone)
    ensures ServesReady(t, i, ready, gone)
  {
    assert t[i..] == [t[i]] + t[i + 1..] && t[i] !in t[i + 1..];
    assert t[..i + 1][..i] == t[..i];
  }

  lemma ServesReadyAtEnd(t: seq<int>, ready: set<int>, gone: set<int>)
    requires t != [] && Distinct(t) && t[|t| - 1] in ready && t[|t| - 1] in gone
    ensures ServesReady(t, |t| - 1, ready, gone)
  {
    var last := |t| - 1;
    SwapRemoveMembers(t, last);
    assert t[last..] == [t[last]];
    assert ServePass(SkipSwapped, t[..last], last, ready, gone) == Pass(t[..last], []);
    assert ServePass(SkipSwapped, t, last, ready, gone) == Pass(t[..last], [t[last]]);
  }

  lemma {:induction false} PollPassServes(t: seq<int>, i: nat, ready: set<int>, gone: set<int>)
    requires i <= |t| && Distinct(t)
    ensures ServesReady(t, i, ready, gone)
    decreases |t| - i
  {
    if i == |t| {
      assert t[i..] == [] && t[..i] == t;
    } else if t[i] !in ready || t[i] !in gone {
      PollPassServes(t, i + 1, ready, gone);
      ServesReadyInPlace(t, i, ready, gone);
    } else if i == |t| - 1 {
      ServesReadyAtEnd(t, ready, gone);
    } else {
      SwapRemoveMembers(t, i);
      PollPassServes(SwapRemove(t, i), i + 1, ready, gone);
      ServesReadyAfterRemoval(t, i, ready, gone);
    }
  }

  lemma SubsetSize(a: set<int>, b: set<int>)
    requires a <= b
    ensures |a| <= |b|
  {
    assert b == a + (b - a);
  }

  /** A ready client that a pass misses was moved down by a removal, and is still in the table. */
  ghost predicate MovedDown(t: seq<int>, r: seq<int>, x: int) {
    exists j, k :: 0 <= j < |r| && j < k < |t| && r[j] == x && t[k] == x
  }

  lemma MissedAfterRemoval(t: seq<int>, i: nat, ready: set<int>, gone: set<int>)
    requires i < |t| - 1 && Distinct(t) && t[i] in ready && t[i] in gone
    ensures var last := t[|t| - 1];
      && Missed(t, i, ready, gone) <= Missed(SwapRemove(t, i), i + 1, ready, gone) + {last}
      && MovedDown(t, ServePass(SkipSwapped, t, i, ready, gone).table, last)
    ensures Dropped(ServePass(SkipSwapped, t, i, ready, gone), gone)
         == Dropped(ServePass(SkipSwapped, SwapRemove(t, i), i + 1, ready, gone), gone) + {t[i]}
    ensures t[i] !in Dropped(ServePass(SkipSwapped, SwapRemove(t, i), i + 1, ready, gone), gone)
  {
    var r, last := SwapRemove(t, i), |t| - 1;
    SwapRemoveMembers(t, i);
    SwapRemoveTail(t, i);
    PollPassServes(r, i + 1, ready, gone);
    var p := ServePass(SkipSwapped, r, i + 1, ready, gone);
    assert t[i..] == [t[i]] + t[i + 1..last] + [t[last]];
    assert p.table[i] == p.table[..i + 1][i] == r[..i + 1][i] == t[last];
    assert t[i] !in r[i + 1..];
  }

  ghost predicate MissesFew(t: seq<int>, i: nat, ready: set<int>, gone: set<int>)
    requires i <= |t|
  {
    var p, missed := ServePass(SkipSwapped, t, i, ready, gone), Missed(t, i, ready, gone);
    && (forall x :: x in missed ==> MovedDown(t, p.table, x))
    && |missed| <= |Dropped(p, gone)|
  }

  lemma MissesFewAfterRemoval(t: seq<int>, i: nat, ready: set<int>, gone: set<int>)
    requires i < |t| - 1 && Distinct(t) && t[i] in ready && t[i] in gone
    requires MissesFew(SwapRemove(t, i), i + 1, ready, gone)
    ensures MissesFew(t, i, ready, gone)
  {
    var r, last := SwapRemove(t, i), t[|t| - 1];
    var p, missed := ServePass(SkipSwapped, r, i + 1, ready, gone), Missed(r, i + 1, ready, gone);
    MissedAfterRemoval(t, i, ready, gone);
    SubsetSize(Missed(t, i, ready, gone), missed + {last});
    forall x | x in missed ensures MovedDown(t, p.table, x) {
      MovedTwice(t, i, p.table, x);
    }
  }

  lemma MissedInPlace(t: seq<int>, i: nat, ready: set<int>, gone: set<int>)
    requires i < |t| && Distinct(t) && (t[i] !in ready || t[i] !in gone)
    ensures Missed(t, i, ready, gone) == Missed(t, i + 1, ready, gone)
  {
    var p, q := ServePass(SkipSwapped, t, i, ready, gone), ServePass(SkipSwapped, t, i + 1, ready, gone);
    assert p.served == if t[i] in ready then [t[i]] + q.served else q.served;
    assert t[i..] == [t[i]] + t[i + 1..] && t[i] !in t[i + 1..];
  }

  lemma MissesFewInPlace(t: seq<int>, i: nat, ready: set<int>, gone: set<int>)
    requires i < |t| && Distinct(t) && (t[i] !in ready || t[i] !in gone)
    requires MissesFew(t, i + 1, ready, gone)
    ensures MissesFew(t, i, ready, gone)
  {
    var p, q := ServePass(SkipSwapped, t, i, ready, gone), ServePass(SkipSwapped, t, i + 1, ready, gone);
    assert p.table == q.table && p.served == if t[i] in ready then [t[i]] + q.served else q.served;
    MissedInPlace(t, i, ready, gone);
    assert Dropped(p, gone) == Dropped(q, gone);
  }

  lemma {:induction false} PollPassMisses(t: seq<int>, i: nat, ready: set<int>, gone: set<int>)
    requires i <= |t| && Distinct(t)
    ensures MissesFew(t, i, ready, gone)
    decreases |t| - i
  {
    if i < |t| {
      assert t[i..] == [t[i]] + t[i + 1..];
      if t[i] !in ready || t[i] !in gone {
        PollPassMisses(t, i + 1, ready, gone);
        MissesFewInPlace(t, i, ready, gone);
      } else if i == |t| - 1 {
        assert t[i..] == [t[i]] && t[i] in ServePass(SkipSwapped, t, i, ready, gone).served;
        assert Missed(t, i, ready, gone) == {};
      } else {
        SwapRemoveMembers(t, i);
        PollPassMisses(SwapRemove(t, i), i + 1, ready, gone);
        MissesFewAfterRemoval(t, i, ready, gone);
      }
    }
  }

  lemma MovedTwice(t: seq<int>, i: nat, table: seq<int>, x: int)
    requires i < |t| && MovedDown(SwapRemove(t, i), table, x)
    ensures MovedDown(t, table, x)
  {
    var r, last := SwapRemove(t, i), |t| - 1;
    var j, k :| 0 <= j < |table| && j < k < |r| && table[j] == x && r[k] == x;
    var k' := if k == i then last else k;
    assert t[k'] == x && j < k';
  }

  /** One poll pass serves each ready client at most once and no other; every ready client it
      misses was moved by a removal and stays in the table; it misses no more than it drops,
      so it serves at least half of the ready clients. */
  lemma PollPassIsFair(t: seq<int>, ready: set<int>, gone: set<int>)
    requires Distinct(t)
    ensures var p, missed := ServePass(SkipSwapped, t, 0, ready, gone), Missed(t, 0, ready, gone);
      && Distinct(p.served)
      && (forall x :: x in p.served ==> x in t && x in ready)
      && (forall x :: x in missed ==> x in p.table && MovedDown(t, p.table, x))
      && |missed| <= |Dropped(p, gone)|
      && |set x | x in t && x in ready| <= 2 * |p.served|
  {
    PollPassServes(t, 0, ready, gone);
    PollPassMisses(t, 0, ready, gone);
    assert t[0..] == t;
    var p, missed := ServePass(SkipSwapped, t, 0, ready, gone), Missed(t, 0, ready, gone);
    var handled := set x | x in p.served;
    DistinctSize(p.served);
    SubsetSize(Dropped(p, gone), handled);
    assert (set x | x in t && x in ready) == handled + missed;
  }

  lemma {:induction false} DistinctSize(t: seq<int>)
    requires Distinct(t)
    ensures |set x | x in t| == |t|
  {
    if t != [] {
      DistinctSize(t[1..]);
      assert (set x | x in t) == (set x | x in t[1..]) + {t[0]};
    }
  }

  /** Half is the best bound: of two ready clients the first of which is gone, only that one is
      served. */
  lemma PollPassCanMissHalf()
    ensures var p := ServePass(SkipSwapped, [5, 6], 0, {5, 6}, {5});
      p.served == [5] && p.table == [6]
    ensures ServePass(Recheck, [5, 6], 0, {5, 6}, {5}) == Pass([6], [5, 6])
  {
    assert SwapRemove([5, 6], 0) == [6];
    assert ServePass(SkipSwapped, [6], 1, {5, 6}, {5}) == Pass([6], []);
    assert ServePass(Recheck, [6], 0, {5, 6}, {5}) == Serve(6, ServePass(Recheck, [6], 1, {5, 6}, {5}));
    assert ServePass(Recheck, [6], 1, {5, 6}, {5}) == Pass([6], []);
  }

  // ----- No entry of the table ever moves up

  /** Every entry of u is in t at the same position or further down the table. */
  ghost predicate NoneRises(t: seq<int>, u: seq<int>) {
    forall j :: 0 <= j < |u| ==> WasAt(t, u[j], j)
  }

  ghost predicate WasAt(t: seq<int>, x: int, j: nat) {
    exists k :: j <= k < |t| && t[k] == x
  }

  lemma NoneRisesTwice(t: seq<int>, i: nat, u: seq<int>)
    requires i < |t| && NoneRises(SwapRemove(t, i), u)
    ensures NoneRises(t, u)
  {
    var r, last := SwapRemove(t, i), |t| - 1;
    forall j | 0 <= j < |u| ensures WasAt(t, u[j], j) {
      assert WasAt(r, u[j], j);
      var k :| j <= k < |r| && r[k] == u[j];
      assert t[if k == i then last else k] == u[j];
    }
  }

  lemma {:induction false} PassRaisesNone(policy: Policy, t: seq<int>, i: nat, ready: set<int>, gone: set<int>)
    requires i <= |t|
    ensures NoneRises(t, ServePass(policy, t, i, ready, gone).table)
    decreases |t| - i
  {
    if i == |t| {
      assert forall j :: 0 <= j < |t| ==> WasAt(t, t[j], j);
    } else if t[i] !in ready || t[i] !in gone {
      PassRaisesNone(policy, t, i + 1, ready, gone);
    } else {
      var r := SwapRemove(t, i);
      PassRaisesNone(policy, r, NextAfterRemoval(policy, t, i), ready, gone);
      NoneRisesTwice(t, i, ServePass(policy, t, i, ready, gone).table);
    }
  }

  // ----- Exactly which clients a poll pass misses

  /** A served client that turns out to have disconnected. */
  predicate Drop(x: int, ready: set<int>, gone: set<int>) {
    x in ready && x in gone
  }

  /** How many of the first n entries of u are such. */
  function Drops(u: seq<int>, n: nat, ready: set<int>, gone: set<int>): (k: nat)
    requires n <= |u|
    ensures k <= n
    ensures n > 0 && Drop(u[n - 1], ready, gone) ==> k > 0
  {
    if n == 0 then 0 else Drops(u, n - 1, ready, gone) + if Drop(u[n - 1], ready, gone) then 1 else 0
  }

  /** The k-th entry to be dropped is followed by the entry k places from the end of u. */
  ghost predicate Followed(u: seq<int>, i: int, x: int, ready: set<int>, gone: set<int>) {
    && 0 <= i < |u| && Drop(u[i], ready, gone)
    && var k := Drops(u, i + 1, ready, gone);
    && i < |u| - k && u[|u| - k] == x
  }

  /** Some drop moves x into its place, behind the pass. */
  ghost predicate Overtaken(u: seq<int>, x: int, ready: set<int>, gone: set<int>) {
    exists i :: Followed(u, i, x, ready, gone)
  }

  lemma {:induction false} DropsShift(u: seq<int>, v: seq<int>, n: nat, ready: set<int>, gone: set<int>)
    requires n <= |v| < |u| && v == u[1..|v| + 1]
    ensures Drops(u, n + 1, ready, gone) == Drops(v, n, ready, gone) + if Drop(u[0], ready, gone) then 1 else 0
  {
    if n == 0 {
      assert Drops(u, 0, ready, gone) == 0;
    } else {
      DropsShift(u, v, n - 1, ready, gone);
      assert v[n - 1] == u[n];
    }
  }

  /** An entry that stays does not matter for what the rest of the pass misses. */
  lemma OvertakenAfterKept(u: seq<int>, x: int, ready: set<int>, gone: set<int>)
    requires u != [] && !Drop(u[0], ready, gone)
    ensures Overtaken(u, x, ready, gone) <==> Overtaken(u[1..], x, ready, gone)
  {
    var v := u[1..];
    forall i | 0 <= i < |v| ensures Followed(u, i + 1, x, ready, gone) <==> Followed(v, i, x, ready, gone) {
      DropsShift(u, v, i + 1, ready, gone);
    }
    if Overtaken(v, x, ready, gone) {
      var i :| Followed(v, i, x, ready, gone);
      assert Followed(u, i + 1, x, ready, gone);
    }
    if Overtaken(u, x, ready, gone) {
      var i :| Followed(u, i, x, ready, gone);
      assert Followed(v, i - 1, x, ready, gone);
    }
  }

  /** A drop moves the last entry, and the pass goes on with those in between. */
  lemma OvertakenAfterDrop(u: seq<int>, x: int, ready: set<int>, gone: set<int>)
    requires |u| >= 2 && Drop(u[0], ready, gone)
    ensures Overtaken(u, x, ready, gone) <==> x == u[|u| - 1] || Overtaken(u[1..|u| - 1], x, ready, gone)
  {
    var v := u[1..|u| - 1];
    assert Drops(u, 0, ready, gone) == 0;
    assert Followed(u, 0, u[|u| - 1], ready, gone);
    forall i | 0 <= i < |v| ensures Followed(u, i + 1, x, ready, gone) <==> Followed(v, i, x, ready, gone) {
      DropsShift(u, v, i + 1, ready, gone);
    }
    if Overtaken(v, x, ready, gone) {
      var i :| Followed(v, i, x, ready, gone);
      assert Followed(u, i + 1, x, ready, gone);
    }
    if Overtaken(u, x, ready, gone) && x != u[|u| - 1] {
      var i :| Followed(u, i, x, ready, gone);
      assert i > 0 && i <= |v|;
      assert Followed(v, i - 1, x, ready, gone);
    }
  }

  /** The clients missed from position i on are the ready ones that a drop overtakes. */
  ghost predicate MissesOvertaken(t: seq<int>, i: nat, ready: set<int>, gone: set<int>)
    requires i <= |t|
  {
    forall x :: x in Missed(t, i, ready, gone) <==> x in ready && Overtaken(t[i..], x, ready, gone)
  }

  lemma MissesOvertakenInPlace(t: seq<int>, i: nat, ready: set<int>, gone: set<int>)
    requires i < |t| && Distinct(t) && !Drop(t[i], ready, gone) && MissesOvertaken(t, i + 1, ready, gone)
    ensures MissesOvertaken(t, i, ready, gone)
  {
    MissedInPlace(t, i, ready, gone);
    assert t[i..][1..] == t[i + 1..];
    forall x ensures x in Missed(t, i, ready, gone) <==> x in ready && Overtaken(t[i..], x, ready, gone) {
      OvertakenAfterKept(t[i..], x, ready, gone);
    }
  }

  lemma MissedAfterDrop(t: seq<int>, i: nat, ready: set<int>, gone: set<int>)
    requires i < |t| - 1 && Distinct(t) && Drop(t[i], ready, gone)
    ensures forall x :: x in Missed(t, i, ready, gone) <==>
      x in Missed(SwapRemove(t, i), i + 1, ready, gone) || (x == t[|t| - 1] && x in ready)
  {
    var r, last := SwapRemove(t, i), |t| - 1;
    SwapRemoveMembers(t, i);
    SwapRemoveTail(t, i);
    PollPassServes(r, i + 1, ready, gone);
    assert t[i..] == [t[i]] + r[i + 1..] + [t[last]];
    assert t[i] !in r[i + 1..] && t[last] !in r[i + 1..];
  }

  lemma MissesOvertakenAfterDrop(t: seq<int>, i: nat, ready: set<int>, gone: set<int>)
    requires i < |t| - 1 && Distinct(t) && Drop(t[i], ready, gone)
    requires MissesOvertaken(SwapRemove(t, i), i + 1, ready, gone)
    ensures MissesOvertaken(t, i, ready, gone)
  {
    var u := t[i..];
    MissedAfterDrop(t, i, ready, gone);
    SwapRemoveTail(t, i);
    var v := SwapRemove(t, i)[i + 1..];
    assert u[1..|u| - 1] == v && u[0] == t[i] && u[|u| - 1] == t[|t| - 1];
    forall x ensures x in Missed(t, i, ready, gone) <==> x in ready && Overtaken(u, x, ready, gone) {
      OvertakenAfterDrop(u, x, ready, gone);
      assert x in Missed(SwapRemove(t, i), i + 1, ready, gone) <==> x in ready && Overtaken(v, x, ready, gone);
    }
  }

  lemma MissesOvertakenAtEnd(t: seq<int>, ready: set<int>, gone: set<int>)
    requires t != [] && Distinct(t) && Drop(t[|t| - 1], ready, gone)
    ensures MissesOvertaken(t, |t| - 1, ready, gone)
  {
    var last := |t| - 1;
    assert t[last..] == [t[last]];
    assert t[last] in ServePass(SkipSwapped, t, last, ready, gone).served;
    assert forall x, i :: !Followed([t[last]], i, x, ready, gone);
  }

  lemma {:induction false} PollPassMissesFrom(t: seq<int>, i: nat, ready: set<int>, gone: set<int>)
    requires i <= |t| && Distinct(t)
    ensures MissesOvertaken(t, i, ready, gone)
    decreases |t| - i
  {
    if i == |t| {
      assert t[i..] == [];
    } else if !Drop(t[i], ready, gone) {
      PollPassMissesFrom(t, i + 1, ready, gone);
      MissesOvertakenInPlace(t, i, ready, gone);
    } else if i == |t| - 1 {
      MissesOvertakenAtEnd(t, ready, gone);
    } else {
      SwapRemoveMembers(t, i);
      PollPassMissesFrom(SwapRemove(t, i), i + 1, ready, gone);
      MissesOvertakenAfterDrop(t, i, ready, gone);
    }
  }

  /** No drop overtakes a ready client: counting the entries to be dropped from the front, if the
      k-th of them is not yet among the last k entries, then the entry k places from the end is
      not ready. */
  ghost predicate NobodyOvertaken(t: seq<int>, ready: set<int>, gone: set<int>) {
    forall i :: 0 <= i < |t| && Drop(t[i], ready, gone) && i < |t| - Drops(t, i + 1, ready, gone) ==>
      t[|t| - Drops(t, i + 1, ready, gone)] !in ready
  }

  lemma NobodyOvertakenIff(t: seq<int>, ready: set<int>, gone: set<int>)
    ensures NobodyOvertaken(t, ready, gone) <==> forall x :: x in ready ==> !Overtaken(t, x, ready, gone)
  {
    if NobodyOvertaken(t, ready, gone) {
      forall x, i | x in ready ensures !Followed(t, i, x, ready, gone) {
      }
    } else {
      var i :| 0 <= i < |t| && Drop(t[i], ready, gone) && i < |t| - Drops(t, i + 1, ready, gone)
        && t[|t| - Drops(t, i + 1, ready, gone)] in ready;
      assert Followed(t, i, t[|t| - Drops(t, i + 1, ready, gone)], ready, gone);
    }
  }

  /** Exactly which ready clients a poll pass misses. */
  lemma PollPassMissesExactly(t: seq<int>, ready: set<int>, gone: set<int>)
    requires Distinct(t)
    ensures forall x :: x in Missed(t, 0, ready, gone) <==> x in ready && Overtaken(t, x, ready, gone)
  {
    PollPassMissesFrom(t, 0, ready, gone);
    assert t[0..] == t;
  }

  /** Exactly when a poll pass misses nobody. */
  lemma PollPassMissesNobodyIff(t: seq<int>, ready: set<int>, gone: set<int>)
    requires Distinct(t)
    ensures Missed(t, 0, ready, gone) == {} <==> NobodyOvertaken(t, ready, gone)
  {
    PollPassMissesExactly(t, ready, gone);
    NobodyOvertakenIff(t, ready, gone);
    var missed := Missed(t, 0, ready, gone);
    assert missed == {} <==> forall x :: x !in missed;
  }

  // ----- A pass in progress

  /** x is gone exactly if the pass found it so. */
  ghost predicate Agree(g: set<int>, gone: set<int>, served: seq<int>) {
    forall x :: x in served ==> (x in g <==> x in gone)
  }

  /** A pass over t0 has reached position i, with table t; the clients in served have been
      served, and those in gone have been removed. What it does next depends only on which of
      the others are gone. */
  ghost predicate Reached(policy: Policy, t0: seq<int>, ready: set<int>,
                          t: seq<int>, i: nat, served: seq<int>, gone: set<int>)
  {
    && i <= |t| && Distinct(t)
    && (forall x :: x in served ==> x in t[..i] || x in gone)
    && (forall x :: x in gone ==> x !in t)
    && (forall g :: Agree(g, gone, served) ==>
          var p := ServePass(policy, t, i, ready, g);
          ServePass(policy, t0, 0, ready, g) == Pass(p.table, served + p.served))
  }

  lemma PassBegins(policy: Policy, t0: seq<int>, ready: set<int>)
    requires Distinct(t0)
    ensures Reached(policy, t0, ready, t0, 0, [], {})
  {
    forall g | Agree(g, {}, [])
      ensures var p := ServePass(policy, t0, 0, ready, g); p == Pass(p.table, [] + p.served)
    {
      var p := ServePass(policy, t0, 0, ready, g);
      assert [] + p.served == p.served;
    }
  }

  lemma NotYetServed(t: seq<int>, i: nat, served: seq<int>, gone: set<int>)
    requires i < |t| && Distinct(t)
    requires forall x :: x in served ==> x in t[..i] || x in gone
    requires forall x :: x in gone ==> x !in t
    ensures t[i] !in served && t[i] !in gone
  {
    var x, front := t[i], t[..i];
    assert x in t;
    assert x !in gone;
    forall j | 0 <= j < i ensures front[j] != x {
      assert t[j] != t[i];
    }
    assert x !in front;
    assert x in served ==> x in front || x in gone;
  }

  lemma PassSkips(policy: Policy, t0: seq<int>, ready: set<int>,
                  t: seq<int>, i: nat, served: seq<int>, gone: set<int>)
    requires Reached(policy, t0, ready, t, i, served, gone) && i < |t| && t[i] !in ready
    ensures Reached(policy, t0, ready, t, i + 1, served, gone)
  {
    assert t[..i + 1] == t[..i] + [t[i]];
  }

  lemma PassServes(policy: Policy, t0: seq<int>, ready: set<int>,
                   t: seq<int>, i: nat, served: seq<int>, gone: set<int>)
    requires Reached(policy, t0, ready, t, i, served, gone) && i < |t| && t[i] in ready
    ensures t[i] !in served
    ensures Reached(policy, t0, ready, t, i + 1, served + [t[i]], gone)
  {
    var served' := served + [t[i]];
    assert t[..i + 1] == t[..i] + [t[i]];
    NotYetServed(t, i, served, gone);
    assert t[i] in served';
    forall g | Agree(g, gone, served')
      ensures var p := ServePass(policy, t, i + 1, ready, g);
        ServePass(policy, t0, 0, ready, g) == Pass(p.table, served' + p.served)
    {
      assert Agree(g, gone, served);
      assert t[i] !in g;
      Assoc(served, [t[i]], ServePass(policy, t, i + 1, ready, g).served);
    }
  }

  /** The next position after the client at position i of t was served and removed. */
  function NextAfterRemoval(policy: Policy, t: seq<int>, i: nat): nat
    requires i < |t|
  {
    if policy.Recheck? || i == |t| - 1 then i else i + 1
  }

  lemma PassRemoves(policy: Policy, t0: seq<int>, ready: set<int>,
                    t: seq<int>, i: nat, served: seq<int>, gone: set<int>)
    requires Reached(policy, t0, ready, t, i, served, gone) && i < |t| && t[i] in ready
    ensures t[i] !in served
    ensures Reached(policy, t0, ready, SwapRemove(t, i), NextAfterRemoval(policy, t, i),
                    served + [t[i]], gone + {t[i]})
  {
    var served', gone' := served + [t[i]], gone + {t[i]};
    var r, next := SwapRemove(t, i), NextAfterRemoval(policy, t, i);
    SwapRemoveMembers(t, i);
    SwapRemoveTail(t, i);
    assert r[..i] == t[..i] && (next == i + 1 ==> r[..next] == t[..i] + [r[i]]);
    NotYetServed(t, i, served, gone);
    assert t[i] in served';
    forall g | Agree(g, gone', served')
      ensures var p := ServePass(policy, r, next, ready, g);
        ServePass(policy, t0, 0, ready, g) == Pass(p.table, served' + p.served)
    {
      assert Agree(g, gone, served);
      assert t[i] in g;
      Assoc(served, [t[i]], ServePass(policy, r, next, ready, g).served);
    }
  }

  lemma PassEnds(policy: Policy, t0: seq<int>, ready: set<int>,
                 t: seq<int>, served: seq<int>, gone: set<int>)
    requires Reached(policy, t0, ready, t, |t|, served, gone)
    ensures ServePass(policy, t0, 0, ready, gone) == Pass(t, served)
  {
    assert Agree(gone, gone, served);
    assert served + [] == served;
  }

  ghost function Below(n: nat): (s: set<int>)
    ensures |s| == n && forall x :: x in s <==> 0 <= x < n
  {
    if n == 0 then {} else Below(n - 1) + {n - 1}
  }

  /** Distinct descriptors below n are at most n. */
  lemma DistinctBelow(t: seq<int>, n: nat)
    requires Distinct(t) && forall x :: x in t ==> 0 <= x < n
    ensures |t| <= n
  {
    var entries := set x | x in t;
    DistinctSize(t);
    assert entries <= Below(n);
    SubsetSize(entries, Below(n));
  }

  // ----- Growth

  function Max(a: nat, b: nat): nat {
    if a < b then b else a
  }

  function Pow2(k: nat): nat {
    if k == 0 then 1 else 2 * Pow2(k - 1)
  }

  /** capacity: the slots allocated; copied: the entries moved by all growths so far. */
  datatype Storage = Storage(capacity: nat, copied: nat)

  /** Makes room for one more entry, doubling the capacity if the table is full. */
  function Room(s: Storage, count: nat): Storage {
    if count < s.capacity then s
    else Storage(if s.capacity == 0 then 4 else 2 * s.capacity, s.copied + count)
  }

  /** peak: the most entries the table has held. The capacity is 0 or 4 times a power of 2, and less
      than twice the peak unless it is the first one; and all growths together have moved fewer
      entries than twice the peak. */
  ghost predicate Frugal(s: Storage, peak: nat) {
    && (s.capacity == 0 || exists k: nat :: s.capacity == 4 * Pow2(k))
    && (s.capacity <= 4 || s.capacity <= 2 * peak - 2)
    && (s.copied == 0 || s.copied < 2 * peak)
  }

  /** Doubling from 4 has moved 4 + 8 + ... entries, up to half the capacity. */
  ghost predicate Doubled(s: Storage) {
    s.copied == if s.capacity == 0 then 0 else s.capacity - 4
  }

  lemma RoomIsFrugal(s: Storage, count: nat, peak: nat)
    requires Frugal(s, peak) && Doubled(s) && count <= s.capacity
    requires s.capacity == 0 || s.capacity >= 4
    ensures var s' := Room(s, count);
      && Frugal(s', Max(peak, count + 1)) && Doubled(s')
      && count < s'.capacity && s'.capacity >= 4 && s'.capacity >= s.capacity
  {
    if count == s.capacity {
      if s.capacity == 0 {
        assert 4 == 4 * Pow2(0);
      } else {
        var k: nat :| s.capacity == 4 * Pow2(k);
        assert 2 * s.capacity == 4 * Pow2(k + 1);
      }
    }
  }
}
