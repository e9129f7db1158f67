/** The one-slot mailbox: a producer and a consumer thread share a slot, a flag, a mutex and one
    condition variable. Every lock, test, free, store, signal, unlock, read and print is one step; a
    wait releases the mutex and falls asleep in one step, as POSIX promises. The slot holds a pointer;
    the producer frees the old word before it stores the next. The consumer reads the pointer after
    it has unlocked, and prints the word behind it after that. */
module Mailbox {
  import opened Counting
  import opened Words
  import opened Framing

  datatype Producer =
    | PLock | PTest | PAsleep(signalled: bool) | PFree | PStore | PRaise | PSignal | PUnlock | PDone

  datatype Consumer =
    | CLock | CTest | CAsleep(signalled: bool) | CClear | CSignal | CUnlock | CRead
    | CPrint(publication: nat)  // holding a pointer to this publication
    | CDone

  datatype Owner = Nobody | ProducerThread | ConsumerThread

  /** live: the memory of the word had not been freed when its print ended. */
  datatype Print = Print(publication: nat, live: bool)

  /** published: how many values the producer has stored; the slot points to the last of them.
      consumed: how often the consumer has cleared the flag.
      freed: how many publications the producer has freed, from the first on.
      seen: which publication the consumer found in the slot, read by read. */
  datatype State = State(producer: Producer, consumer: Consumer, owner: Owner, wordReady: bool,
                         published: nat, consumed: nat, freed: nat, seen: seq<nat>, printed: seq<Print>)

  /** What the producer publishes: the words of its file, then the null that ends them. */
  function Publications(words: seq<Word>): (pubs: seq<Option<Word>>)
    ensures |pubs| == |words| + 1
    ensures forall i :: 0 <= i < |words| ==> pubs[i] == Some(words[i])
    ensures pubs[|words|] == None
  {
    seq(|words| + 1, i requires 0 <= i <= |words| => if i == |words| then None else Some(words[i]))
  }

  function Init(): State {
    State(PLock, CLock, Nobody, false, 0, 0, 0, [], [])
  }

  datatype Action = ProducerStep | ConsumerStep | SpuriousProducer | SpuriousConsumer

  predicate Spurious(a: Action) {
    a.SpuriousProducer? || a.SpuriousConsumer?
  }

  predicate Enabled(s: State, a: Action) {
    match a
    case ProducerStep =>
      match s.producer {
        case PLock => s.owner.Nobody?
        case PAsleep(signalled) => signalled && s.owner.Nobody?
        case PDone => false
        case _ => true
      }
    case ConsumerStep =>
      match s.consumer {
        case CLock => s.owner.Nobody?
        case CAsleep(signalled) => signalled && s.owner.Nobody?
        case CDone => false
        case CRead => s.published > 0
        case _ => true
      }
    case SpuriousProducer => s.producer == PAsleep(false) && s.owner.Nobody?
    case SpuriousConsumer => s.consumer == CAsleep(false) && s.owner.Nobody?
  }

  /** pthread_cond_signal wakes the other thread if it is asleep. */
  function WakeConsumer(c: Consumer): Consumer {
    if c.CAsleep? then CAsleep(true) else c
  }

  function WakeProducer(p: Producer): Producer {
    if p.PAsleep? then PAsleep(true) else p
  }

  function ProducerTurn(s: State, total: nat): State {
    match s.producer
    case PLock => s.(producer := PTest, owner := ProducerThread)
    case PAsleep(_) => s.(producer := PTest, owner := ProducerThread)
    case PTest =>
      if s.wordReady then s.(producer := PAsleep(false), owner := Nobody) else s.(producer := PFree)
    case PFree => s.(producer := PStore, freed := s.published)
    case PStore => s.(producer := PRaise, published := s.published + 1)
    case PRaise => s.(producer := PSignal, wordReady := true)
    case PSignal => s.(producer := PUnlock, consumer := WakeConsumer(s.consumer))
    case PUnlock => s.(producer := if s.published >= total then PDone else PLock, owner := Nobody)
    case PDone => s
  }

  function ConsumerTurn(s: State, total: nat): State
    requires s.consumer.CRead? ==> s.published > 0
  {
    match s.consumer
    case CLock => s.(consumer := CTest, owner := ConsumerThread)
    case CAsleep(_) => s.(consumer := CTest, owner := ConsumerThread)
    case CTest =>
      if !s.wordReady then s.(consumer := CAsleep(false), owner := Nobody) else s.(consumer := CClear)
    case CClear => s.(consumer := CSignal, wordReady := false, consumed := s.consumed + 1)
    case CSignal => s.(consumer := CUnlock, producer := WakeProducer(s.producer))
    case CUnlock => s.(consumer := CRead, owner := Nobody)
    case CRead =>
      // the last publication is the null
      s.(consumer := if s.published == total then CDone else CPrint(s.published - 1),
         seen := s.seen + [s.published - 1])
    case CPrint(i) => s.(consumer := CLock, printed := s.printed + [Print(i, s.freed <= i)])
    case CDone => s
  }

  function Step(s: State, a: Action, total: nat): State
    requires Enabled(s, a)
  {
    match a
    case ProducerStep => ProducerTurn(s, total)
    case ConsumerStep => ConsumerTurn(s, total)
    case SpuriousProducer => ProducerTurn(s, total)
    case SpuriousConsumer => ConsumerTurn(s, total)
  }

  // ----- What can hold up a thread

  /** Whether the producer can take a step, or wake up for nothing, depends only on where it is and on the
      mutex, and for the consumer likewise once there has been a publication. */
  lemma StepsAreLocal(s: State, s': State, a: Action)
    requires s'.owner == s.owner
    requires a.ProducerStep? || a.SpuriousProducer? ==> s'.producer == s.producer
    requires a.ConsumerStep? || a.SpuriousConsumer? ==>
      s'.consumer == s.consumer && s.published > 0 && s'.published > 0
    ensures Enabled(s, a) <==> Enabled(s', a)
  {
  }

  /** A thread that wakes up for nothing goes back to sleep, and nothing has changed. */
  lemma SpuriousWakeUpIsHarmless(s: State, total: nat)
    requires s.owner.Nobody?
    ensures s.producer == PAsleep(false) && s.wordReady ==>
      && Legal(s, [SpuriousProducer, ProducerStep], total) && Last(s, [SpuriousProducer, ProducerStep], total) == s
    ensures s.consumer == CAsleep(false) && !s.wordReady ==>
      && Legal(s, [SpuriousConsumer, ConsumerStep], total) && Last(s, [SpuriousConsumer, ConsumerStep], total) == s
  {
    if s.producer == PAsleep(false) && s.wordReady {
      TwoSteps(s, SpuriousProducer, ProducerStep, total);
    }
    if s.consumer == CAsleep(false) && !s.wordReady {
      TwoSteps(s, SpuriousConsumer, ConsumerStep, total);
    }
  }

  lemma TwoSteps(s: State, a: Action, b: Action, total: nat)
    requires Enabled(s, a) && Enabled(Step(s, a, total), b)
    ensures Legal(s, [a, b], total) && Last(s, [a, b], total) == Step(Step(s, a, total), b, total)
  {
    StepFirst(Step(s, a, total), b, [], total);
    StepFirst(s, a, [b] + [], total);
    assert [a, b] == [a] + ([b] + []);
  }

  lemma StepFirst(s: State, a: Action, rest: seq<Action>, total: nat)
    requires Enabled(s, a) && Legal(Step(s, a, total), rest, total)
    ensures Legal(s, [a] + rest, total) && Last(s, [a] + rest, total) == Last(Step(s, a, total), rest, total)
  {
    assert ([a] + rest)[1..] == rest;
  }

  // ----- The invariant

  predicate ProducerHolds(p: Producer) {
    p.PTest? || p.PFree? || p.PStore? || p.PRaise? || p.PSignal? || p.PUnlock?
  }

  predicate ConsumerHolds(c: Consumer) {
    c.CTest? || c.CClear? || c.CSignal? || c.CUnlock?
  }

  /** Between clearing the flag and reading the slot. */
  predicate ReadDue(c: Consumer) {
    c.CSignal? || c.CUnlock? || c.CRead?
  }

  /** Mutual exclusion. */
  predicate Exclusive(s: State) {
    && (s.owner.ProducerThread? <==> ProducerHolds(s.producer))
    && (s.owner.ConsumerThread? <==> ConsumerHolds(s.consumer))
  }

  /** The flag, and how far apart the two are. */
  predicate Paced(s: State, total: nat) {
    && s.published == s.consumed + Flag(s.wordReady || s.producer.PRaise?)
    && (s.producer.PFree? || s.producer.PStore? || s.producer.PRaise? ==> !s.wordReady)
    && (s.producer.PSignal? || s.consumer.CClear? ==> s.wordReady)
    && (s.consumer.CSignal? || s.consumer.CUnlock? ==> !s.wordReady)
    && 1 <= total && s.published <= total
    && (s.producer.PDone? ==> s.published == total)
    && (s.producer.PLock? || s.producer.PTest? || s.producer.PAsleep? || s.producer.PFree? || s.producer.PStore?
        ==> s.published < total)
    // all publications before the last have been freed, and the last too just before the next is stored
    && s.freed == (if s.producer.PStore? || s.published == 0 then s.published else s.published - 1)
  }

  /** No wake-up that is needed is lost. */
  predicate Awakened(s: State) {
    && (s.producer == PAsleep(false) ==> s.wordReady || s.consumer.CSignal?)
    && (s.consumer == CAsleep(false) ==> !s.wordReady || s.producer.PSignal?)
  }

  /** What the consumer has seen. */
  ghost predicate Observed(s: State, total: nat) {
    && s.consumed == |s.seen| + Flag(ReadDue(s.consumer))
    && (forall i :: 0 <= i < |s.seen| ==> i <= s.seen[i] <= i + 1 && s.seen[i] < s.published)
    && (s.consumer.CDone? <==> s.seen != [] && s.seen[|s.seen| - 1] == total - 1)
    && (forall i :: 0 <= i < |s.seen| - 1 ==> s.seen[i] < total - 1)
  }

  /** Of what it has seen, the consumer has printed all but the null and what it is about to print. */
  ghost predicate Printed(s: State, total: nat) {
    && |s.seen| == |s.printed| + Flag(s.consumer.CPrint? || s.consumer.CDone?)
    && (forall i :: 0 <= i < |s.printed| ==> s.printed[i].publication == s.seen[i])
    && (s.consumer.CPrint? ==> s.consumer.publication == s.seen[|s.seen| - 1] < total - 1)
  }

  ghost predicate Inv(s: State, total: nat) {
    Exclusive(s) && Paced(s, total) && Awakened(s) && Observed(s, total) && Printed(s, total)
  }

  lemma StepKeepsInv(s: State, a: Action, total: nat)
    requires Inv(s, total) && Enabled(s, a)
    ensures Inv(Step(s, a, total), total)
  {
    StepKeepsPace(s, a, total);
    StepKeepsAwake(s, a, total);
    StepKeepsObserved(s, a, total);
    StepKeepsPrinted(s, a, total);
  }

  lemma StepKeepsPrinted(s: State, a: Action, total: nat)
    requires Exclusive(s) && Paced(s, total) && Observed(s, total) && Printed(s, total) && Enabled(s, a)
    ensures Printed(Step(s, a, total), total)
  {
    var s' := Step(s, a, total);
    if a.ConsumerStep? && s.consumer.CPrint? {
      assert s'.seen == s.seen && s'.printed == s.printed + [Print(s.consumer.publication, s.freed <= s.consumer.publication)];
    } else {
      assert s'.printed == s.printed && s.seen <= s'.seen;
    }
  }

  lemma StepKeepsPace(s: State, a: Action, total: nat)
    requires Exclusive(s) && Paced(s, total) && Enabled(s, a)
    ensures Exclusive(Step(s, a, total)) && Paced(Step(s, a, total), total)
  {
  }

  lemma StepKeepsAwake(s: State, a: Action, total: nat)
    requires Exclusive(s) && Paced(s, total) && Awakened(s) && Enabled(s, a)
    ensures Awakened(Step(s, a, total))
  {
  }

  lemma StepKeepsObserved(s: State, a: Action, total: nat)
    requires Exclusive(s) && Paced(s, total) && Observed(s, total) && Enabled(s, a)
    ensures Observed(Step(s, a, total), total)
  {
    if a.ConsumerStep? && s.consumer.CRead? {
      ReadKeepsObserved(s, total);
    } else {
      assert Step(s, a, total).seen == s.seen;
    }
  }

  lemma ReadKeepsObserved(s: State, total: nat)
    requires Paced(s, total) && Observed(s, total) && s.consumer.CRead? && s.published > 0
    ensures Observed(ConsumerTurn(s, total), total)
  {
    var seen' := s.seen + [s.published - 1];
    assert forall i :: 0 <= i < |s.seen| ==> seen'[i] == s.seen[i];
  }

  /** While a read is due it will find publication number consumed - 1, unless the producer has
      already stored the next one; only then is the read not of the word that was consumed. */
  lemma ReadIsExactIff(s: State, total: nat)
    requires Inv(s, total) && s.consumer.CRead?
    ensures var found := ConsumerTurn(s, total).seen[|s.seen|];
      && |s.seen| == s.consumed - 1
      && (found == s.consumed - 1 <==> !s.wordReady && !s.producer.PRaise?)
      && (found == s.consumed <==> s.wordReady || s.producer.PRaise?)
  {
  }

  /** Both threads asleep with no wake-up under way cannot happen. */
  lemma NeverBothAsleep(s: State, total: nat)
    requires Inv(s, total)
    ensures !(s.producer == PAsleep(false) && s.consumer == CAsleep(false))
    ensures s.owner.Nobody? ==>
      (s.producer == PAsleep(false) ==> s.wordReady) && (s.consumer == CAsleep(false) ==> !s.wordReady)
  {
  }

  predicate Finished(s: State) {
    s.producer.PDone? && s.consumer.CDone?
  }

  /** A consumer that has read as often as there are publications has found the null. */
  lemma AllSeen(s: State, total: nat)
    requires Inv(s, total) && |s.seen| == total
    ensures s.consumer.CDone?
  {
    assert total - 1 <= s.seen[total - 1] < total;
  }

  /** Unless both threads are done, one of them has a step to take without any spurious
      wake-up. */
  lemma Progress(s: State, total: nat)
    requires Inv(s, total) && !Finished(s)
    ensures Enabled(s, ProducerStep) || Enabled(s, ConsumerStep)
  {
    if |s.seen| == total {
      AllSeen(s, total);
    }
  }

  // ----- Termination

  function ProducerWork(p: Producer): nat {
    match p
    case PRaise => 11
    case PSignal => 10
    case PUnlock => 7
    case PLock => 3
    case PAsleep(signalled) => if signalled then 3 else 1
    case PTest => 2
    case PFree => 1
    case _ => 0
  }

  function ConsumerWork(c: Consumer): nat {
    match c
    case CSignal => 11
    case CUnlock => 8
    case CRead => 7
    case CPrint(_) => 6
    case CLock => 2
    case CAsleep(signalled) => if signalled then 2 else 0
    case CTest => 1
    case _ => 0
  }

  function Measure(s: State, total: nat): int {
    12 * (total - s.published) + 12 * (total - s.consumed) + ProducerWork(s.producer) + ConsumerWork(s.consumer)
  }

  lemma StepMeasure(s: State, a: Action, total: nat)
    requires Inv(s, total) && Enabled(s, a)
    ensures !Spurious(a) ==> Measure(Step(s, a, total), total) < Measure(s, total)
    ensures Spurious(a) ==> Measure(Step(s, a, total), total) == Measure(s, total) + 1
  {
  }

  // ----- Runs

  ghost predicate Legal(s: State, run: seq<Action>, total: nat)
    decreases |run|
  {
    run == [] || (Enabled(s, run[0]) && Legal(Step(s, run[0], total), run[1..], total))
  }

  ghost function Last(s: State, run: seq<Action>, total: nat): State
    requires Legal(s, run, total)
    decreases |run|
  {
    if run == [] then s else Last(Step(s, run[0], total), run[1..], total)
  }

  function SpuriousCount(run: seq<Action>): nat {
    if run == [] then 0 else Flag(Spurious(run[0])) + SpuriousCount(run[1..])
  }

  lemma {:induction false} RunKeepsInv(s: State, run: seq<Action>, total: nat)
    requires Inv(s, total) && Legal(s, run, total)
    ensures Inv(Last(s, run, total), total)
    ensures |run| + Measure(Last(s, run, total), total) <= Measure(s, total) + 2 * SpuriousCount(run)
    decreases |run|
  {
    if run != [] {
      StepKeepsInv(s, run[0], total);
      StepMeasure(s, run[0], total);
      RunKeepsInv(Step(s, run[0], total), run[1..], total);
    }
  }

  /** What the consumer has printed, word by word. */
  function Printout(words: seq<Word>, printed: seq<Print>): (out: seq<Word>)
    ensures |out| == |printed|
  {
    seq(|printed|, i requires 0 <= i < |printed| => WordBehind(words, printed[i].publication))
  }

  /** The word that publication number p is of; the null is printed as nothing. */
  function WordBehind(words: seq<Word>, p: nat): Word {
    match if p <= |words| then Publications(words)[p] else None
    case Some(w) => w
    case None => []
  }

  /** In every run over the words of a file: publications are ahead of consumptions by at most one, and
      the consumer's i-th pointer is to publication i or publication i + 1, never older or newer; the
      i-th word it prints is word i of the file or word i + 1; and it finds the null only once, after the
      last word has been published and all but perhaps one have been looked at. */
  lemma Safety(words: seq<Word>, run: seq<Action>)
    requires Legal(Init(), run, |words| + 1)
    ensures var t := Last(Init(), run, |words| + 1);
      && t.consumed <= t.published <= t.consumed + 1
      && |t.seen| <= |words| + 1 && |t.printed| <= |words|
      && (forall i :: 0 <= i < |t.seen| ==> t.seen[i] < |words| + 1 && i <= t.seen[i] <= i + 1)
      && (forall i :: 0 <= i < |t.printed| ==>
            || Printout(words, t.printed)[i] == words[i]
            || (i + 1 < |words| && Printout(words, t.printed)[i] == words[i + 1]))
      && (forall i :: 0 <= i < |t.seen| && Publications(words)[t.seen[i]] == None ==>
            t.published == |words| + 1 && i == |t.seen| - 1 && i + 1 >= |words|)
  {
    var total := |words| + 1;
    RunKeepsInv(Init(), run, total);
    var t := Last(Init(), run, total);
    if t.printed != [] {
      PrintIsWord(t, total, |t.printed| - 1);
    }
    forall i | 0 <= i < |t.printed|
      ensures Printout(words, t.printed)[i] == words[i]
           || (i + 1 < |words| && Printout(words, t.printed)[i] == words[i + 1])
    {
      PrintIsWord(t, total, i);
    }
    SeenBounds(t, total);
    forall i | 0 <= i < |t.seen| && Publications(words)[t.seen[i]] == None
      ensures t.published == total && i == |t.seen| - 1 && i + 1 >= |words|
    {
      NullIsLast(t, total, i);
    }
  }

  lemma SeenBounds(s: State, total: nat)
    requires Inv(s, total)
    ensures |s.seen| <= total && forall i :: 0 <= i < |s.seen| ==> i <= s.seen[i] <= i + 1 && s.seen[i] < total
  {
  }

  /** The i-th print is of publication i or i + 1, and not of the null. */
  lemma PrintIsWord(s: State, total: nat, i: nat)
    requires Inv(s, total) && i < |s.printed|
    ensures i <= s.printed[i].publication <= i + 1 && s.printed[i].publication < total - 1
  {
    assert s.printed[i].publication == s.seen[i];
    if i == |s.seen| - 1 {
      assert !s.consumer.CDone?;
    }
  }

  /** The null is the last thing seen. */
  lemma NullIsLast(s: State, total: nat, i: nat)
    requires Inv(s, total) && i < |s.seen| && s.seen[i] == total - 1
    ensures s.published == total && i == |s.seen| - 1 && i + 1 >= total - 1
  {
  }

  /** Every run without endless spurious wake-ups is finite, and one that cannot be continued
      without a spurious wake-up has both threads done, everything published, and all but
      perhaps the last publication consumed. */
  lemma Termination(words: seq<Word>, run: seq<Action>)
    requires Legal(Init(), run, |words| + 1)
    ensures |run| <= 24 * (|words| + 1) + 5 + 2 * SpuriousCount(run)
    ensures var t := Last(Init(), run, |words| + 1);
      !Enabled(t, ProducerStep) && !Enabled(t, ConsumerStep) ==>
        Finished(t) && t.published == |words| + 1 && |words| <= t.consumed <= |words| + 1
  {
    var total := |words| + 1;
    RunKeepsInv(Init(), run, total);
    var t := Last(Init(), run, total);
    if !Enabled(t, ProducerStep) && !Enabled(t, ConsumerStep) && !Finished(t) {
      Progress(t, total);
    }
  }

  // ----- When every word is delivered exactly once

  /** Every read in the run comes before the producer stores the next publication. */
  ghost predicate ReadsInTime(s: State, run: seq<Action>, total: nat)
    requires Legal(s, run, total)
    decreases |run|
  {
    run == [] ||
    (&& (run[0].ConsumerStep? && s.consumer.CRead? ==> !s.wordReady && !s.producer.PRaise?)
     && ReadsInTime(Step(s, run[0], total), run[1..], total))
  }

  /** seen agrees with the order of publication from position from on. */
  predicate InOrderFrom(seen: seq<nat>, from: nat) {
    forall i :: from <= i < |seen| ==> seen[i] == i
  }

  lemma {:induction false} SeenGrows(s: State, run: seq<Action>, total: nat)
    requires Legal(s, run, total)
    ensures s.seen <= Last(s, run, total).seen
    decreases |run|
  {
    if run != [] {
      SeenGrows(Step(s, run[0], total), run[1..], total);
    }
  }

  /** In every run, from any state that can be reached: each observation made in it is of the
      publication whose turn it is, if and only if every read comes in time. */
  lemma {:induction false} InOrderIffInTime(s: State, run: seq<Action>, total: nat)
    requires Inv(s, total) && Legal(s, run, total)
    ensures InOrderFrom(Last(s, run, total).seen, |s.seen|) <==> ReadsInTime(s, run, total)
    decreases |run|
  {
    if run != [] {
      var next := Step(s, run[0], total);
      StepKeepsInv(s, run[0], total);
      InOrderIffInTime(next, run[1..], total);
      SeenGrows(next, run[1..], total);
      if run[0].ConsumerStep? && s.consumer.CRead? {
        ReadIsExactIff(s, total);
        assert next.seen[|s.seen|] == Last(s, run, total).seen[|s.seen|];
      } else {
        assert next.seen == s.seen;
      }
    }
  }

  /** Of a run in which both threads finish: the consumer has seen every publication exactly once,
      in order, if and only if every read came in time. */
  lemma ExactlyOnceIff(words: seq<Word>, run: seq<Action>)
    requires Legal(Init(), run, |words| + 1) && Finished(Last(Init(), run, |words| + 1))
    ensures var seen := Last(Init(), run, |words| + 1).seen;
      |seen| == |Publications(words)| && InOrderFrom(seen, 0) <==> ReadsInTime(Init(), run, |words| + 1)
  {
    var total := |words| + 1;
    RunKeepsInv(Init(), run, total);
    InOrderIffInTime(Init(), run, total);
    var seen := Last(Init(), run, total).seen;
    assert InOrderFrom(seen, 0) ==> seen[|seen| - 1] == |seen| - 1;
  }

  /** If they did, what it has printed is the words of the file, one after the other. */
  lemma InTimePrintsTheFile(words: seq<Word>, run: seq<Action>)
    requires Legal(Init(), run, |words| + 1) && Finished(Last(Init(), run, |words| + 1))
    requires ReadsInTime(Init(), run, |words| + 1)
    ensures Printout(words, Last(Init(), run, |words| + 1).printed) == words
  {
    RunKeepsInv(Init(), run, |words| + 1);
    ExactlyOnceIff(words, run);
    var t := Last(Init(), run, |words| + 1);
    forall i | 0 <= i < |words| ensures Printout(words, t.printed)[i] == words[i] {
      assert t.printed[i].publication == t.seen[i] == i;
    }
  }

  // ----- When every word printed is still there

  /** A word whose memory has been freed has been printed, or is going to be. */
  ghost predicate PrintsFreed(s: State) {
    || (exists i :: 0 <= i < |s.printed| && !s.printed[i].live)
    || (s.consumer.CPrint? && s.consumer.publication < s.freed)
  }

  /** In this step the producer frees the word that the consumer is about to print, or the consumer
      picks up a pointer to a word that has just been freed. */
  predicate Dangles(s: State, a: Action) {
    || (a.ProducerStep? && s.producer.PFree? && s.consumer.CPrint?)
    || (a.ConsumerStep? && s.consumer.CRead? && s.producer.PStore?)
  }

  ghost predicate NeverDangles(s: State, run: seq<Action>, total: nat)
    requires Legal(s, run, total)
    decreases |run|
  {
    run == [] || (!Dangles(s, run[0]) && NeverDangles(Step(s, run[0], total), run[1..], total))
  }

  lemma DanglesOnce(s: State, a: Action, total: nat)
    requires Inv(s, total) && Enabled(s, a)
    ensures PrintsFreed(Step(s, a, total)) <==> PrintsFreed(s) || Dangles(s, a)
  {
    var s' := Step(s, a, total);
    assert s.printed <= s'.printed;
    if PrintsFreed(s) && !s.consumer.CPrint? {
      var i :| 0 <= i < |s.printed| && !s.printed[i].live;
      assert s'.printed[i] == s.printed[i];
    }
    if a.ConsumerStep? && s.consumer.CPrint? {
      assert s'.printed[|s.printed|] == Print(s.consumer.publication, s.freed <= s.consumer.publication);
      assert forall i :: 0 <= i < |s.printed| ==> s'.printed[i] == s.printed[i];
    }
  }

  /** In every run from every state that can be reached: a freed word is printed, or about to be, if
      and only if it was so before, or the producer freed a word under the consumer's pointer, or the
      consumer read the pointer between a free and the next store. */
  lemma {:induction false} PrintsFreedIff(s: State, run: seq<Action>, total: nat)
    requires Inv(s, total) && Legal(s, run, total)
    ensures PrintsFreed(Last(s, run, total)) <==> PrintsFreed(s) || !NeverDangles(s, run, total)
    decreases |run|
  {
    if run != [] {
      DanglesOnce(s, run[0], total);
      StepKeepsInv(s, run[0], total);
      PrintsFreedIff(Step(s, run[0], total), run[1..], total);
    }
  }

  /** In this step the producer frees a word after the consumer has unlocked and before it has printed. */
  predicate FreesTooEarly(s: State, a: Action) {
    a.ProducerStep? && s.producer.PFree? && (s.consumer.CRead? || s.consumer.CPrint?)
  }

  ghost predicate NeverFreesTooEarly(s: State, run: seq<Action>, total: nat)
    requires Legal(s, run, total)
    decreases |run|
  {
    run == [] || (!FreesTooEarly(s, run[0]) && NeverFreesTooEarly(Step(s, run[0], total), run[1..], total))
  }

  /** Something has gone wrong, or will at the next read. */
  ghost predicate Spoiled(s: State) {
    || (s.consumer.CRead? && s.freed >= s.consumed)
    || PrintsFreed(s)
    || !InOrderFrom(s.seen, 0)
  }

  lemma OneMoreInOrder(seen: seq<nat>, next: nat)
    ensures InOrderFrom(seen + [next], 0) <==> InOrderFrom(seen, 0) && next == |seen|
  {
    var seen' := seen + [next];
    assert seen'[|seen|] == next && forall i :: 0 <= i < |seen| ==> seen'[i] == seen[i];
  }

  lemma SpoiltOnce(s: State, a: Action, total: nat)
    requires Inv(s, total) && Enabled(s, a)
    ensures Spoiled(Step(s, a, total)) <==> Spoiled(s) || FreesTooEarly(s, a)
  {
    DanglesOnce(s, a, total);
    if a.ConsumerStep? && s.consumer.CRead? {
      OneMoreInOrder(s.seen, s.published - 1);
    } else {
      assert Step(s, a, total).seen == s.seen;
    }
  }

  lemma {:induction false} SpoiledIff(s: State, run: seq<Action>, total: nat)
    requires Inv(s, total) && Legal(s, run, total)
    ensures Spoiled(Last(s, run, total)) <==> Spoiled(s) || !NeverFreesTooEarly(s, run, total)
    decreases |run|
  {
    if run != [] {
      SpoiltOnce(s, run[0], total);
      StepKeepsInv(s, run[0], total);
      SpoiledIff(Step(s, run[0], total), run[1..], total);
    }
  }

  /** Of a run in which both threads finish: the consumer has seen every publication exactly once and
      in order, and every word it printed was still there, if and only if the producer never freed a
      word between the consumer's unlock and the end of its print. */
  lemma CorrectIffNeverFreesTooEarly(words: seq<Word>, run: seq<Action>)
    requires Legal(Init(), run, |words| + 1) && Finished(Last(Init(), run, |words| + 1))
    ensures var t := Last(Init(), run, |words| + 1);
      NeverFreesTooEarly(Init(), run, |words| + 1) <==>
        |t.seen| == |Publications(words)| && InOrderFrom(t.seen, 0) && forall p :: p in t.printed ==> p.live
  {
    var total := |words| + 1;
    RunKeepsInv(Init(), run, total);
    SpoiledIff(Init(), run, total);
    ExactlyOnceIff(words, run);
    InOrderIffInTime(Init(), run, total);
    var t := Last(Init(), run, total);
    assert PrintsFreed(t) <==> exists p :: p in t.printed && !p.live by {
      if PrintsFreed(t) {
        var i :| 0 <= i < |t.printed| && !t.printed[i].live;
        assert t.printed[i] in t.printed;
      }
    }
  }

  lemma {:induction false} Extend(s: State, run: seq<Action>, a: Action, total: nat)
    requires Legal(s, run, total) && Enabled(Last(s, run, total), a)
    ensures Legal(s, run + [a], total)
    ensures Last(s, run + [a], total) == Step(Last(s, run, total), a, total)
    decreases |run|
  {
    if run == [] {
      assert ([] + [a])[1..] == [];
    } else {
      Extend(Step(s, run[0], total), run[1..], a, total);
      assert (run + [a])[1..] == run[1..] + [a];
    }
  }

  lemma ExtendBy(run: seq<Action>, now: State, a: Action, total: nat) returns (run': seq<Action>, next: State)
    requires Legal(Init(), run, total) && now == Last(Init(), run, total) && Enabled(now, a)
    ensures Legal(Init(), run', total) && next == Last(Init(), run', total) && next == Step(now, a, total)
  {
    Extend(Init(), run, a, total);
    run', next := run + [a], Step(now, a, total);
  }

  /** The producer publishes the only word. */
  lemma WordPublished() returns (run: seq<Action>, now: State)
    ensures Legal(Init(), run, 2) && now == Last(Init(), run, 2)
    ensures now == State(PLock, CLock, Nobody, true, 1, 0, 0, [], [])
  {
    run, now := [], Init();
    run, now := ExtendBy(run, now, ProducerStep, 2);
    run, now := ExtendBy(run, now, ProducerStep, 2);
    run, now := ExtendBy(run, now, ProducerStep, 2);
    run, now := ExtendBy(run, now, ProducerStep, 2);
    run, now := ExtendBy(run, now, ProducerStep, 2);
    run, now := ExtendBy(run, now, ProducerStep, 2);
    run, now := ExtendBy(run, now, ProducerStep, 2);
  }

  /** The consumer consumes it, up to the unlock. */
  lemma WordConsumed() returns (run: seq<Action>, now: State)
    ensures Legal(Init(), run, 2) && now == Last(Init(), run, 2)
    ensures now == State(PLock, CRead, Nobody, false, 1, 1, 0, [], [])
  {
    run, now := WordPublished();
    run, now := ExtendBy(run, now, ConsumerStep, 2);
    run, now := ExtendBy(run, now, ConsumerStep, 2);
    run, now := ExtendBy(run, now, ConsumerStep, 2);
    run, now := ExtendBy(run, now, ConsumerStep, 2);
    run, now := ExtendBy(run, now, ConsumerStep, 2);
  }

  /** Delivery is not exactly once: the consumer can clear the flag for the only word, be
      overtaken by the null, and stop without having seen the word. */
  lemma WordCanBeLost() returns (run: seq<Action>)
    ensures Legal(Init(), run, 2) && Last(Init(), run, 2).consumer.CDone? && Last(Init(), run, 2).seen == [1]
  {
    var now;
    run, now := WordConsumed();
    // the null is stored before the consumer looks
    run, now := ExtendBy(run, now, ProducerStep, 2);
    run, now := ExtendBy(run, now, ProducerStep, 2);
    run, now := ExtendBy(run, now, ProducerStep, 2);
    run, now := ExtendBy(run, now, ProducerStep, 2);
    run, now := ExtendBy(run, now, ConsumerStep, 2);
  }

  /** And a word can be freed between the read of its pointer and its print. */
  lemma FreedWordCanBePrinted() returns (run: seq<Action>)
    ensures Legal(Init(), run, 2) && Last(Init(), run, 2).printed == [Print(0, false)]
  {
    var now;
    run, now := WordConsumed();
    run, now := ExtendBy(run, now, ConsumerStep, 2);
    run, now := ExtendBy(run, now, ProducerStep, 2);
    run, now := ExtendBy(run, now, ProducerStep, 2);
    run, now := ExtendBy(run, now, ProducerStep, 2);
    run, now := ExtendBy(run, now, ConsumerStep, 2);
  }
}
