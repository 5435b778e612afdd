/**
  * The two-semaphore ring of semaphore.c, for any ring size: one producer and one consumer,
  * every statement a step of its own, in any order of the two threads.
  */
module SemaphoreRing {
  import opened Basics

  datatype Producer = PWait | PStore | PPrint | PPost | PAdvance
  datatype Consumer = CWait | CPrint | CClear | CPost | CAdvance

  /** The shared ring and semaphores, both threads' places, and the history of the values. */
  datatype State = State(
    queue: seq<int>, blank: nat, product: nat, p: nat, c: nat, prod: Producer, cons: Consumer,
    made: seq<int>, shown: seq<int>, used: seq<int>)

  datatype Act = Produce(rand: nat) | Consume

  function Init(n: nat): State {
    State(seq(n, _ => 0), n, 0, 0, 0, PWait, CWait, [], [], [])
  }

  /** The next statement of producer(); None while sem_wait blocks. */
  function StepProducer(s: State, rand: nat): Option<State>
    requires s.p < |s.queue|
  {
    match s.prod
    case PWait => if s.blank == 0 then None else Some(s.(blank := s.blank - 1, prod := PStore))
    case PStore =>
      var v := rand % 1000 + 1;
      Some(s.(queue := s.queue[s.p := v], made := s.made + [v], prod := PPrint))
    case PPrint => Some(s.(shown := s.shown + [s.queue[s.p]], prod := PPost))
    case PPost => Some(s.(product := s.product + 1, prod := PAdvance))
    case PAdvance => Some(s.(p := (s.p + 1) % |s.queue|, prod := PWait))
  }

  /** The next statement of consumer(); None while sem_wait blocks. */
  function StepConsumer(s: State): Option<State>
    requires s.c < |s.queue|
  {
    match s.cons
    case CWait => if s.product == 0 then None else Some(s.(product := s.product - 1, cons := CPrint))
    case CPrint => Some(s.(used := s.used + [s.queue[s.c]], cons := CClear))
    case CClear => Some(s.(queue := s.queue[s.c := 0], cons := CPost))
    case CPost => Some(s.(blank := s.blank + 1, cons := CAdvance))
    case CAdvance => Some(s.(c := (s.c + 1) % |s.queue|, cons := CWait))
  }

  function Step(s: State, a: Act): Option<State>
    requires s.p < |s.queue| && s.c < |s.queue|
  {
    match a
    case Produce(rand) => StepProducer(s, rand)
    case Consume => StepConsumer(s)
  }

  function Count(b: bool): nat { if b then 1 else 0 }

  /** Slots a thread has taken from one semaphore and not yet given to the other. */
  function Claimed(s: State): nat {
    Count(s.prod in {PStore, PPrint, PPost}) + Count(s.cons in {CPrint, CClear, CPost})
  }

  /** Where item number i lies: i modulo the ring size n. */
  function Slot(n: nat, i: nat): (j: nat)
    requires n > 0
    ensures j < n
  {
    if i < n then i else Slot(n, i - n)
  }

  predicate Places(s: State)
    requires |s.queue| > 0
  {
    && (s.prod in {PWait, PStore} ==> s.p == Slot(|s.queue|, |s.made|))
    && (s.prod !in {PWait, PStore} ==> |s.made| > 0 && s.p == Slot(|s.queue|, |s.made| - 1))
    && (s.cons in {CWait, CPrint} ==> s.c == Slot(|s.queue|, |s.used|))
    && (s.cons !in {CWait, CPrint} ==> |s.used| > 0 && s.c == Slot(|s.queue|, |s.used| - 1))
  }

  /** Each semaphore holds what was posted to it less what was taken from it. */
  predicate Counts(s: State) {
    && s.product == |s.made| - Count(s.prod in {PPrint, PPost}) - |s.used| - Count(s.cons.CPrint?)
    && s.blank == |s.queue| + |s.used| - Count(s.cons in {CClear, CPost}) - |s.made| - Count(s.prod.PStore?)
  }

  /** Every item made and not yet used lies in its slot; every other slot not being cleared is zero. */
  predicate Held(s: State)
    requires |s.queue| > 0
  {
    && (forall i | |s.used| <= i < |s.made| :: s.queue[Slot(|s.queue|, i)] == s.made[i])
    && (forall i: nat | |s.made| <= i < |s.used| - Count(s.cons.CClear?) + |s.queue| :: s.queue[Slot(|s.queue|, i)] == 0)
  }

  predicate Histories(s: State) {
    && |s.used| <= |s.made| && s.used == s.made[..|s.used|]
    && s.shown == s.made[..|s.made| - Count(s.prod.PPrint? && |s.made| > 0)]
    && (forall i | 0 <= i < |s.made| :: 1 <= s.made[i] <= 1000)
  }

  predicate Inv(s: State) {
    |s.queue| > 0 && Places(s) && Counts(s) && Held(s) && Histories(s)
  }

  // ---------------------------------------------------------------- slots

  lemma {:induction false} SlotsDiffer(n: nat, i: nat, j: nat)
    requires n > 0 && i < j < i + n
    ensures Slot(n, i) != Slot(n, j)
  {
    if i >= n {
      SlotsDiffer(n, i - n, j - n);
    }
  }

  lemma {:induction false} NextSlot(n: nat, i: nat)
    requires n > 0
    ensures (Slot(n, i) + 1) % n == Slot(n, i + 1)
  {
    if i >= n {
      NextSlot(n, i - n);
    } else {
      Wrap(n, i + 1);
    }
  }

  lemma Wrap(n: nat, x: nat)
    requires n > 0 && x <= n
    ensures x % n == if x == n then 0 else x
  {}

  // ---------------------------------------------------------------- steps keep the invariant

  lemma StoreKeepsHeld(s: State, v: int)
    requires Inv(s) && s.prod.PStore?
    ensures Held(s.(queue := s.queue[s.p := v], made := s.made + [v], prod := PPrint))
  {
    var s' := s.(queue := s.queue[s.p := v], made := s.made + [v], prod := PPrint);
    forall i: nat | |s'.used| <= i < |s'.made| ensures s'.queue[Slot(|s.queue|, i)] == s'.made[i] {
      if i < |s.made| {
        SlotsDiffer(|s.queue|, i, |s.made|);
      }
    }
    forall i: nat | |s'.made| <= i < |s'.used| - Count(s'.cons.CClear?) + |s'.queue| ensures s'.queue[Slot(|s.queue|, i)] == 0 {
      SlotsDiffer(|s.queue|, |s.made|, i);
    }
  }

  lemma ClearKeepsHeld(s: State)
    requires Inv(s) && s.cons.CClear?
    ensures Held(s.(queue := s.queue[s.c := 0], cons := CPost))
  {
    var s' := s.(queue := s.queue[s.c := 0], cons := CPost);
    forall i: nat | |s'.used| <= i < |s'.made| ensures s'.queue[Slot(|s.queue|, i)] == s'.made[i] {
      SlotsDiffer(|s.queue|, |s.used| - 1, i);
    }
    forall i: nat | |s'.made| <= i < |s'.used| + |s'.queue| ensures s'.queue[Slot(|s.queue|, i)] == 0 {
      if i < |s.used| - 1 + |s.queue| {
        assert s.queue[Slot(|s.queue|, i)] == 0;
      }
    }
  }

  lemma PrintKeepsHeld(s: State)
    requires Inv(s) && s.cons.CPrint?
    ensures s.queue[s.c] == s.made[|s.used|]
    ensures Held(s.(used := s.used + [s.queue[s.c]], cons := CClear))
  {}

  lemma ProducerPlaces(s: State, rand: nat)
    requires Inv(s) && StepProducer(s, rand).Some?
    ensures Places(StepProducer(s, rand).value)
  {
    hide Held, Histories, Counts, Slot;
    if s.prod.PAdvance? {
      NextSlot(|s.queue|, |s.made| - 1);
    }
  }

  lemma ProducerCounts(s: State, rand: nat)
    requires Inv(s) && StepProducer(s, rand).Some?
    ensures Counts(StepProducer(s, rand).value)
  {
    hide Held, Histories, Slot;
  }

  lemma ProducerHeld(s: State, rand: nat)
    requires Inv(s) && StepProducer(s, rand).Some?
    ensures Held(StepProducer(s, rand).value)
  {
    if s.prod.PStore? {
      StoreKeepsHeld(s, rand % 1000 + 1);
    } else {
      hide Slot, Counts, Histories, Places;
    }
  }

  lemma ProducerHistories(s: State, rand: nat)
    requires Inv(s) && StepProducer(s, rand).Some?
    ensures Histories(StepProducer(s, rand).value)
  {
    if s.prod.PPrint? {
      assert s.made == s.made[..|s.made| - 1] + [s.made[|s.made| - 1]];
    }
    hide Slot;
  }

  lemma InvProducer(s: State, rand: nat)
    requires Inv(s) && StepProducer(s, rand).Some?
    ensures Inv(StepProducer(s, rand).value)
  {
    ProducerPlaces(s, rand);
    ProducerCounts(s, rand);
    ProducerHeld(s, rand);
    ProducerHistories(s, rand);
    hide Places, Counts, Held, Histories;
  }

  lemma ConsumerPlaces(s: State)
    requires Inv(s) && StepConsumer(s).Some?
    ensures Places(StepConsumer(s).value)
  {
    hide Held, Histories, Counts, Slot;
    if s.cons.CAdvance? {
      NextSlot(|s.queue|, |s.used| - 1);
    }
  }

  lemma ConsumerCounts(s: State)
    requires Inv(s) && StepConsumer(s).Some?
    ensures Counts(StepConsumer(s).value)
  {
    hide Held, Histories, Slot;
  }

  lemma ConsumerHeld(s: State)
    requires Inv(s) && StepConsumer(s).Some?
    ensures Held(StepConsumer(s).value)
  {
    if s.cons.CPrint? {
      PrintKeepsHeld(s);
    } else if s.cons.CClear? {
      ClearKeepsHeld(s);
    } else {
      hide Slot, Counts, Histories, Places;
    }
  }

  lemma ConsumerHistories(s: State)
    requires Inv(s) && StepConsumer(s).Some?
    ensures Histories(StepConsumer(s).value)
  {
    if s.cons.CPrint? {
      PrintKeepsHeld(s);
      assert StepConsumer(s).value.used == s.made[..|s.used| + 1];
    }
    hide Slot;
  }

  lemma InvConsumer(s: State)
    requires Inv(s) && StepConsumer(s).Some?
    ensures Inv(StepConsumer(s).value)
  {
    ConsumerPlaces(s);
    ConsumerCounts(s);
    ConsumerHeld(s);
    ConsumerHistories(s);
    hide Places, Counts, Held, Histories;
  }

  // ---------------------------------------------------------------- whole runs

  /** The state after a run; None if some step of it was blocked. */
  function Execute(s: State, acts: seq<Act>): (r: Option<State>)
    requires s.p < |s.queue| && s.c < |s.queue|
    ensures r.Some? ==> r.value.p < |r.value.queue| == |s.queue| && r.value.c < |s.queue|
    decreases |acts|
  {
    if acts == [] then Some(s)
    else match Step(s, acts[0])
      case None => None
      case Some(s') => Execute(s', acts[1..])
  }

  lemma {:induction false} InvAlways(s: State, acts: seq<Act>)
    requires Inv(s) && Execute(s, acts).Some?
    ensures Inv(Execute(s, acts).value)
    decreases |acts|
  {
    if acts != [] {
      hide Inv;
      if acts[0].Produce? {
        InvProducer(s, acts[0].rand);
      } else {
        InvConsumer(s);
      }
      InvAlways(Step(s, acts[0]).value, acts[1..]);
    }
  }

  ghost predicate Reachable(n: nat, s: State)
    ensures Reachable(n, s) ==> s.p < |s.queue| == n && s.c < n
  {
    n > 0 && exists acts :: Execute(Init(n), acts) == Some(s)
  }

  lemma ReachableInv(n: nat, s: State)
    requires Reachable(n, s)
    ensures Inv(s) && |s.queue| == n
  {
    var acts :| Execute(Init(n), acts) == Some(s);
    assert Inv(Init(n));
    InvAlways(Init(n), acts);
  }

  /** Consumed values are a prefix of the produced ones, as are the values the producer shows. */
  lemma ConsumedIsPrefix(n: nat, s: State)
    requires Reachable(n, s)
    ensures s.used <= s.made && s.shown <= s.made && |s.made| <= |s.shown| + 1
    ensures |s.made| - |s.used| <= n
  {
    ReachableInv(n, s);
  }

  lemma SemaphoresBalance(n: nat, s: State)
    requires Reachable(n, s)
    ensures s.blank + s.product + Claimed(s) == n
  {
    ReachableInv(n, s);
  }

  /** A store meets an emptied slot. */
  lemma StoresIntoEmptySlot(n: nat, s: State)
    requires Reachable(n, s) && s.prod.PStore?
    ensures s.queue[s.p] == 0
  {
    ReachableInv(n, s);
    assert s.queue[Slot(n, |s.made|)] == 0;
  }

  /** No statement of the producer changes the slot of an item still to be used. */
  lemma NothingOverwritten(n: nat, s: State, rand: nat, i: nat)
    requires Reachable(n, s) && StepProducer(s, rand).Some? && |s.used| <= i < |s.made|
    ensures StepProducer(s, rand).value.queue[Slot(n, i)] == s.queue[Slot(n, i)] == s.made[i]
  {
    ReachableInv(n, s);
    if s.prod.PStore? {
      SlotsDiffer(n, i, |s.made|);
    }
    assert s.queue[Slot(n, i)] == s.made[i];
  }

  /** The consumer empties only slots whose item it has already used. */
  lemma NothingLost(n: nat, s: State, i: nat)
    requires Reachable(n, s) && StepConsumer(s).Some? && |s.used| <= i < |s.made|
    ensures StepConsumer(s).value.queue[Slot(n, i)] == s.made[i]
  {
    ReachableInv(n, s);
    if s.cons.CClear? {
      SlotsDiffer(|s.queue|, |s.used| - 1, i);
    }
    assert s.queue[Slot(|s.queue|, i)] == s.made[i];
  }

  /** Both threads never wait at once. */
  lemma NeverDeadlocked(n: nat, s: State, rand: nat)
    requires Reachable(n, s)
    ensures StepProducer(s, rand).Some? || StepConsumer(s).Some?
  {
    ReachableInv(n, s);
  }
}
