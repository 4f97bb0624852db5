/** The sequence lock of spinlock.h: an atomic counter that is zero while a writer is inside. Any number of writers and
    readers take their atomic steps in any order (sequential consistency). */
module SequenceLocks {
  /** The counter is a 32-bit number. */
  const PERIOD: nat := 0x1_0000_0000

  /** A reader between try_lock and commit: the counter it has read. For the record: how many writer sections were
      complete then, and whether a writer has entered since. */
  datatype Read = Read(value: nat, since: nat, overlapped: bool)

  /** writers: those inside, with the counter they took; sections: how many have left again. */
  datatype State = State(counter: nat, writers: map<nat, nat>, readers: map<nat, Read>, sections: nat)

  /** The atomic steps: a turn of the loop of writelock_t::lock, writelock_t::unlock, readlock_t::try_lock, readlock_t::commit. */
  datatype Event = Exchange(w: nat) | Store(w: nat) | TryLock(r: nat) | Commit(r: nat)

  /** unlock increments twice if the counter would become zero. */
  function Increment(count: nat): nat {
    var next := (count + 1) % PERIOD;
    if next == 0 then 1 else next
  }

  function Step(s: State, e: Event): State {
    match e
    case Exchange(w) =>
      if w in s.writers then s
      else if s.counter == 0 then s
      else s.(counter := 0, writers := s.writers[w := s.counter],
              readers := map r | r in s.readers :: s.readers[r].(overlapped := true))
    case Store(w) =>
      if w !in s.writers then s
      else s.(counter := Increment(s.writers[w]), writers := s.writers - {w}, sections := s.sections + 1)
    case TryLock(r) =>
      if s.counter == 0 then s.(readers := s.readers - {r})
      else s.(readers := s.readers[r := Read(s.counter, s.sections, false)])
    case Commit(r) => s.(readers := s.readers - {r})
  }

  /** What commit returns. */
  predicate Commits(s: State, r: nat) {
    r in s.readers && s.readers[r].value != 0 && s.readers[r].value == s.counter
  }

  function Run(s: State, es: seq<Event>): State {
    if es == [] then s else Step(Run(s, es[..|es| - 1]), es[|es| - 1])
  }

  /** The counter after n writer sections: it runs through 1 .. PERIOD - 1. */
  function Value(first: nat, n: nat): nat
    requires first > 0
  {
    1 + (first - 1 + n) % (PERIOD - 1)
  }

  lemma ValueNext(first: nat, n: nat)
    requires first > 0
    ensures 0 < Value(first, n) < PERIOD && Increment(Value(first, n)) == Value(first, n + 1)
  {
  }

  /** Two values are the same exactly if a multiple of the period lies between them. */
  lemma ValueSame(first: nat, m: nat, n: nat)
    requires first > 0 && m <= n
    ensures Value(first, m) == Value(first, n) <==> (n - m) % (PERIOD - 1) == 0
  {
    var p := PERIOD - 1;
    var a, d := first - 1 + m, n - m;
    assert first - 1 + n == a + d;
  }

  /** The counter tells how many sections are complete, unless the only writer inside holds it; a reader's value does so
      for the moment of its try_lock, and it was overlapped if a section is complete since, or a writer is inside. */
  ghost predicate Inv(first: nat, s: State) {
    && 0 < first < PERIOD
    && (if s.writers == map[] then s.counter == Value(first, s.sections) else s.counter == 0)
    && (forall v, w | v in s.writers && w in s.writers :: v == w)
    && (forall w | w in s.writers :: s.writers[w] == Value(first, s.sections))
    && (forall r | r in s.readers :: ReadOk(first, s, s.readers[r]))
  }

  ghost predicate ReadOk(first: nat, s: State, x: Read)
    requires 0 < first
  {
    && x.since <= s.sections && x.value == Value(first, x.since)
    && (x.overlapped <==> x.since < s.sections || s.writers != map[])
  }

  lemma StepInv(first: nat, s: State, e: Event)
    requires Inv(first, s)
    ensures Inv(first, Step(s, e))
  {
    hide Value, Increment;
    ValueNext(first, s.sections);
    var t := Step(s, e);
    if e.Exchange? && e.w !in s.writers && s.counter != 0 {
      assert s.writers == map[];
      assert e.w in t.writers;
    }
    if e.Store? && e.w in s.writers {
      assert t.writers == map[] by { assert forall v | v in s.writers :: v == e.w; }
    }
  }

  lemma {:induction false} RunInv(first: nat, s: State, es: seq<Event>)
    requires Inv(first, s)
    ensures Inv(first, Run(s, es))
  {
    hide Inv, Step;
    if es != [] {
      RunInv(first, s, es[..|es| - 1]);
      StepInv(first, Run(s, es[..|es| - 1]), es[|es| - 1]);
    }
  }

  function Start(first: nat): State { State(first, map[], map[], 0) }

  /** Over all interleavings at most one writer is inside. */
  lemma OneWriter(first: nat, es: seq<Event>, v: nat, w: nat)
    requires 0 < first < PERIOD && v in Run(Start(first), es).writers && w in Run(Start(first), es).writers
    ensures v == w
  {
    RunInv(first, Start(first), es);
  }

  /** When commit succeeds: no writer is inside, and the number of sections since try_lock is a multiple of the period. */
  lemma CommitIff(first: nat, es: seq<Event>, r: nat)
    requires 0 < first < PERIOD && r in Run(Start(first), es).readers
    ensures var s := Run(Start(first), es);
      Commits(s, r) <==> s.writers == map[] && (s.sections - s.readers[r].since) % (PERIOD - 1) == 0
  {
    var s := Run(Start(first), es);
    RunInv(first, Start(first), es);
    hide Value, Increment;
    assert ReadOk(first, s, s.readers[r]);
    ValueSame(first, s.readers[r].since, s.sections);
    ValueNext(first, s.readers[r].since);
  }

  /** A reader whose commit succeeds was not overlapped by any writer, provided fewer than 2^32 - 1 writer sections
      were completed since its try_lock. */
  lemma ReaderSafe(first: nat, es: seq<Event>, r: nat)
    requires 0 < first < PERIOD && r in Run(Start(first), es).readers && Commits(Run(Start(first), es), r)
    requires Run(Start(first), es).sections - Run(Start(first), es).readers[r].since < PERIOD - 1
    ensures !Run(Start(first), es).readers[r].overlapped
  {
    RunInv(first, Start(first), es);
    SafeAt(first, Run(Start(first), es), r);
  }

  lemma ShortOfPeriod(d: nat)
    requires d < PERIOD - 1 && d % (PERIOD - 1) == 0
    ensures d == 0
  {
  }

  lemma SafeAt(first: nat, s: State, r: nat)
    requires Inv(first, s) && r in s.readers && Commits(s, r) && s.sections - s.readers[r].since < PERIOD - 1
    ensures !s.readers[r].overlapped
  {
    hide Value, Increment;
    assert ReadOk(first, s, s.readers[r]);
    ValueSame(first, s.readers[r].since, s.sections);
    ValueNext(first, s.readers[r].since);
    ShortOfPeriod(s.sections - s.readers[r].since);
  }

  /** A reader reads, and then a writer goes through n sections. */
  function Rounds(n: nat): seq<Event> {
    if n == 0 then [TryLock(0)] else Rounds(n - 1) + [Exchange(1), Store(1)]
  }

  lemma NextRound(n: nat)
    requires n > 0
    ensures Rounds(n) == Rounds(n - 1) + [Exchange(1), Store(1)]
  {
  }

  lemma TwoSteps(s: State, es: seq<Event>, d: Event, e: Event)
    ensures Run(s, es + [d, e]) == Step(Step(Run(s, es), d), e)
  {
    var fs := es + [d, e];
    assert fs[..|fs| - 1] == es + [d] && (es + [d])[..|es|] == es;
    hide Step;
  }

  lemma {:induction false} RoundsState(first: nat, n: nat)
    requires 0 < first < PERIOD
    ensures var s := Run(Start(first), Rounds(n));
      s.writers == map[] && 0 in s.readers && s.readers[0].since == 0 && s.sections == n
  {
    if n == 0 {
      assert Rounds(0)[..0] == [];
    } else {
      RoundsState(first, n - 1);
      RunInv(first, Start(first), Rounds(n - 1));
      var s, es := Run(Start(first), Rounds(n - 1)), Rounds(n - 1) + [Exchange(1), Store(1)];
      hide Value, Increment, Run, Rounds, ReadOk;
      ValueNext(first, s.sections);
      TwoSteps(Start(first), Rounds(n - 1), Exchange(1), Store(1));
      assert Rounds(n) == es by { NextRound(n); }
    }
  }

  /** The bound is exact: after 2^32 - 1 sections commit succeeds although writers have been inside. */
  lemma ReaderFooled(first: nat)
    requires 0 < first < PERIOD
    ensures var s := Run(Start(first), Rounds(PERIOD - 1)); 0 in s.readers && Commits(s, 0) && s.readers[0].overlapped
  {
    hide Rounds, Run;
    RoundsState(first, PERIOD - 1);
    var s := Run(Start(first), Rounds(PERIOD - 1));
    RunInv(first, Start(first), Rounds(PERIOD - 1));
    CommitIff(first, Rounds(PERIOD - 1), 0);
    assert ReadOk(first, s, s.readers[0]);
    hide Value;
  }

  // ---- the record of a reader is what it says ----

  /** A reader's record stays its own until it reads again, and is marked exactly when a writer enters. */
  lemma RecordStep(s: State, e: Event, r: nat)
    requires r in s.readers && e != TryLock(r) && e != Commit(r)
    ensures r in Step(s, e).readers
    ensures Step(s, e).readers[r].value == s.readers[r].value && Step(s, e).readers[r].since == s.readers[r].since
    ensures Step(s, e).readers[r].overlapped <==> s.readers[r].overlapped || Enters(s, e)
  {
  }

  /** A step by which a writer gets in. */
  predicate Enters(s: State, e: Event) { e.Exchange? && e.w !in s.writers && s.counter != 0 }

  /** Event k of the run lets a writer in. */
  ghost predicate EntersAt(s: State, es: seq<Event>, k: nat)
    requires k < |es|
  {
    Enters(Run(s, es[..k]), es[k])
  }

  /** Over any run in which the reader neither reads again nor commits its record stays its own, and it counts as
      overlapped exactly if it did before or a writer has entered in the run. */
  lemma {:induction false} RecordRun(s: State, es: seq<Event>, r: nat)
    requires r in s.readers && forall k | 0 <= k < |es| :: es[k] != TryLock(r) && es[k] != Commit(r)
    ensures r in Run(s, es).readers
    ensures Run(s, es).readers[r].value == s.readers[r].value && Run(s, es).readers[r].since == s.readers[r].since
    ensures Run(s, es).readers[r].overlapped <==> s.readers[r].overlapped || exists k: nat :: k < |es| && EntersAt(s, es, k)
  {
    hide Step, Enters;
    if es != [] {
      var n, prev := |es| - 1, es[..|es| - 1];
      RecordRun(s, prev, r);
      RecordStep(Run(s, prev), es[n], r);
      forall k: nat | k < n ensures EntersAt(s, prev, k) == EntersAt(s, es, k) { assert prev[..k] == es[..k]; }
      assert EntersAt(s, es, n) == Enters(Run(s, prev), es[n]);
    }
  }
}
