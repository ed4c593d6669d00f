/**
 Producers and consumers around three semaphores (09-semaphore/producer-consumer/main.c): empty counts
 free places, full counts items, mutex guards the buffer. Here for any number of places and of processes
 of either kind, interleaved in any order; a wait is a step that can only be made on a positive semaphore.
 */
module ProducerConsumer {

  /** Where a process stands in its endless loop: before its first wait, before the wait on mutex, before
      it handles the item, before its first post, before its second post. */
  datatype Pc = Idle | Token | Inside | Handled | Posted

  datatype State = State(
    producers: seq<Pc>, consumers: seq<Pc>,
    empty: nat, full: nat, mutex: nat,
    created: nat, taken: nat)             // histories: items created and items taken

  datatype Process = Producer(i: nat) | Consumer(i: nat)

  function Initial(places: nat, producers: nat, consumers: nat): State {
    State(seq(producers, _ => Idle), seq(consumers, _ => Idle), places, 0, 1, 0, 0)
  }

  /** The next step of a producer: wait(empty), wait(mutex), create, post(full), post(mutex). */
  function ProducerStep(s: State, i: nat): State
    requires i < |s.producers|
  {
    match s.producers[i]
    case Idle => if s.empty == 0 then s else s.(empty := s.empty - 1, producers := s.producers[i := Token])
    case Token => if s.mutex == 0 then s else s.(mutex := s.mutex - 1, producers := s.producers[i := Inside])
    case Inside => s.(created := s.created + 1, producers := s.producers[i := Handled])
    case Handled => s.(full := s.full + 1, producers := s.producers[i := Posted])
    case Posted => s.(mutex := s.mutex + 1, producers := s.producers[i := Idle])
  }

  /** The next step of a consumer: wait(full), wait(mutex), take, post(mutex), post(empty). */
  function ConsumerStep(s: State, i: nat): State
    requires i < |s.consumers|
  {
    match s.consumers[i]
    case Idle => if s.full == 0 then s else s.(full := s.full - 1, consumers := s.consumers[i := Token])
    case Token => if s.mutex == 0 then s else s.(mutex := s.mutex - 1, consumers := s.consumers[i := Inside])
    case Inside => s.(taken := s.taken + 1, consumers := s.consumers[i := Handled])
    case Handled => s.(mutex := s.mutex + 1, consumers := s.consumers[i := Posted])
    case Posted => s.(empty := s.empty + 1, consumers := s.consumers[i := Idle])
  }

  /** A step of one process; a process that has to wait, or is none of ours, changes nothing. */
  function Step(s: State, p: Process): State {
    match p
    case Producer(i) => if i < |s.producers| then ProducerStep(s, i) else s
    case Consumer(i) => if i < |s.consumers| then ConsumerStep(s, i) else s
  }

  function Run(s: State, schedule: seq<Process>): State {
    if schedule == [] then s else Step(Run(s, schedule[..|schedule| - 1]), schedule[|schedule| - 1])
  }

  /** How many processes stand at one of these places. */
  function Count(ps: seq<Pc>, at: set<Pc>): nat {
    if ps == [] then 0 else Count(ps[..|ps| - 1], at) + if ps[|ps| - 1] in at then 1 else 0
  }

  const PRODUCER_HOLDS_PLACE := {Token, Inside, Handled}
  const CONSUMER_HOLDS_PLACE := {Token, Inside, Handled, Posted}
  const PRODUCER_INSIDE := {Inside, Handled, Posted}
  const CONSUMER_INSIDE := {Inside, Handled}
  const PRODUCER_HOLDS_ITEM := {Handled}
  const CONSUMER_HOLDS_ITEM := {Token, Inside}

  /** Every place is free, filled or in the hands of one process; mutex admits one process at a time; the
      items that exist are counted by full or in the hands of one process. */
  ghost predicate Inv(s: State, places: nat) {
    && s.empty + s.full + Count(s.producers, PRODUCER_HOLDS_PLACE) + Count(s.consumers, CONSUMER_HOLDS_PLACE) == places
    && s.mutex + Count(s.producers, PRODUCER_INSIDE) + Count(s.consumers, CONSUMER_INSIDE) == 1
    && s.created == s.taken + s.full + Count(s.producers, PRODUCER_HOLDS_ITEM) + Count(s.consumers, CONSUMER_HOLDS_ITEM)
  }

  lemma {:induction false} CountUpdate(ps: seq<Pc>, i: nat, pc: Pc, at: set<Pc>)
    requires i < |ps|
    ensures Count(ps[i := pc], at) == Count(ps, at) - (if ps[i] in at then 1 else 0) + (if pc in at then 1 else 0)
  {
    var n := |ps| - 1;
    if i < n {
      CountUpdate(ps[..n], i, pc, at);
      assert ps[i := pc][..n] == ps[..n][i := pc];
    } else {
      assert ps[i := pc][..n] == ps[..n];
    }
  }

  lemma {:induction false} CountNone(n: nat, at: set<Pc>)
    requires Idle !in at
    ensures Count(seq(n, _ => Idle), at) == 0
  {
    if n > 0 {
      assert seq(n, _ => Idle)[..n - 1] == seq(n - 1, _ => Idle);
      CountNone(n - 1, at);
    }
  }

  lemma {:induction false} CountFinds(ps: seq<Pc>, at: set<Pc>) returns (i: nat)
    requires Count(ps, at) > 0
    ensures i < |ps| && ps[i] in at
  {
    i := |ps| - 1;
    if ps[i] !in at {
      i := CountFinds(ps[..|ps| - 1], at);
    }
  }

  lemma {:induction false} CountTwo(ps: seq<Pc>, at: set<Pc>, i: nat)
    requires i < |ps| && ps[i] in at
    ensures Count(ps, at) >= 1
    ensures forall j | 0 <= j < |ps| && j != i && ps[j] in at :: Count(ps, at) >= 2
  {
    var n := |ps| - 1;
    if i < n {
      CountTwo(ps[..n], at, i);
      assert ps[..n][i] == ps[i];
      forall j | 0 <= j < |ps| && j != i && ps[j] in at ensures Count(ps, at) >= 2 {
        assert j == n || ps[..n][j] == ps[j];
      }
    } else {
      forall j | 0 <= j < |ps| && j != i && ps[j] in at ensures Count(ps, at) >= 2 {
        assert ps[..n][j] == ps[j];
        CountTwo(ps[..n], at, j);
      }
    }
  }

  lemma ProducerInv(s: State, i: nat, places: nat)
    requires Inv(s, places) && i < |s.producers|
    ensures Inv(ProducerStep(s, i), places)
  {
    var s' := ProducerStep(s, i);
    if s' != s {
      var pc := s'.producers[i];
      CountUpdate(s.producers, i, pc, PRODUCER_HOLDS_PLACE);
      CountUpdate(s.producers, i, pc, PRODUCER_INSIDE);
      CountUpdate(s.producers, i, pc, PRODUCER_HOLDS_ITEM);
    }
  }

  lemma ConsumerInv(s: State, i: nat, places: nat)
    requires Inv(s, places) && i < |s.consumers|
    ensures Inv(ConsumerStep(s, i), places)
  {
    var s' := ConsumerStep(s, i);
    if s' != s {
      var pc := s'.consumers[i];
      CountUpdate(s.consumers, i, pc, CONSUMER_HOLDS_PLACE);
      CountUpdate(s.consumers, i, pc, CONSUMER_INSIDE);
      CountUpdate(s.consumers, i, pc, CONSUMER_HOLDS_ITEM);
    }
  }

  lemma InitialInv(places: nat, producers: nat, consumers: nat)
    ensures Inv(Initial(places, producers, consumers), places)
  {
    CountNone(producers, PRODUCER_HOLDS_PLACE);
    CountNone(producers, PRODUCER_INSIDE);
    CountNone(producers, PRODUCER_HOLDS_ITEM);
    CountNone(consumers, CONSUMER_HOLDS_PLACE);
    CountNone(consumers, CONSUMER_INSIDE);
    CountNone(consumers, CONSUMER_HOLDS_ITEM);
  }

  lemma {:induction false} RunInv(places: nat, producers: nat, consumers: nat, schedule: seq<Process>)
    ensures var s := Run(Initial(places, producers, consumers), schedule);
      Inv(s, places) && |s.producers| == producers && |s.consumers| == consumers
  {
    var s0 := Initial(places, producers, consumers);
    if schedule == [] {
      InitialInv(places, producers, consumers);
    } else {
      var n := |schedule| - 1;
      RunInv(places, producers, consumers, schedule[..n]);
      var s := Run(s0, schedule[..n]);
      match schedule[n]
      case Producer(i) => if i < |s.producers| { ProducerInv(s, i, places); }
      case Consumer(i) => if i < |s.consumers| { ConsumerInv(s, i, places); }
    }
  }

  /** A process is between its wait on mutex and its post. */
  predicate InsideMutex(s: State, p: Process) {
    match p
    case Producer(i) => i < |s.producers| && s.producers[i] in PRODUCER_INSIDE
    case Consumer(i) => i < |s.consumers| && s.consumers[i] in CONSUMER_INSIDE
  }

  /** At every moment of every run at most one process is between its wait on mutex and its post. */
  lemma MutualExclusion(places: nat, producers: nat, consumers: nat, schedule: seq<Process>, p: Process, q: Process)
    ensures var s := Run(Initial(places, producers, consumers), schedule);
      InsideMutex(s, p) && InsideMutex(s, q) ==> p == q
  {
    RunInv(places, producers, consumers, schedule);
    var s := Run(Initial(places, producers, consumers), schedule);
    if InsideMutex(s, p) && InsideMutex(s, q) {
      if p.Producer? { CountTwo(s.producers, PRODUCER_INSIDE, p.i); } else { CountTwo(s.consumers, CONSUMER_INSIDE, p.i); }
      if q.Producer? { CountTwo(s.producers, PRODUCER_INSIDE, q.i); } else { CountTwo(s.consumers, CONSUMER_INSIDE, q.i); }
    }
  }

  /** At every moment of every run the items created and not yet taken fit the buffer, and so does the
      number that the parent prints. */
  lemma ItemsFit(places: nat, producers: nat, consumers: nat, schedule: seq<Process>)
    ensures var s := Run(Initial(places, producers, consumers), schedule);
      0 <= s.created - s.taken <= places && s.full <= places && s.empty <= places && s.mutex <= 1
  {
    RunInv(places, producers, consumers, schedule);
    var s := Run(Initial(places, producers, consumers), schedule);
    CountMonotone(s.producers, PRODUCER_HOLDS_ITEM, PRODUCER_HOLDS_PLACE);
    CountMonotone(s.consumers, CONSUMER_HOLDS_ITEM, CONSUMER_HOLDS_PLACE);
  }

  lemma {:induction false} CountMonotone(ps: seq<Pc>, a: set<Pc>, b: set<Pc>)
    requires a <= b
    ensures Count(ps, a) <= Count(ps, b)
  {
    if ps != [] {
      CountMonotone(ps[..|ps| - 1], a, b);
    }
  }

  /** With a place, a producer and a consumer there is never a deadlock: some process can always step. */
  lemma NeverDeadlocked(places: nat, producers: nat, consumers: nat, schedule: seq<Process>) returns (p: Process)
    requires places >= 1 && producers >= 1 && consumers >= 1
    ensures var s := Run(Initial(places, producers, consumers), schedule); Step(s, p) != s
  {
    RunInv(places, producers, consumers, schedule);
    var s := Run(Initial(places, producers, consumers), schedule);
    if Count(s.producers, PRODUCER_INSIDE) > 0 {
      var i := CountFinds(s.producers, PRODUCER_INSIDE);
      p := Producer(i);
      assert Step(s, p).producers[i] != s.producers[i];
    } else if Count(s.consumers, CONSUMER_HOLDS_PLACE) > 0 {
      var i := CountFinds(s.consumers, CONSUMER_HOLDS_PLACE);
      if s.consumers[i] == Token && s.mutex == 0 {
        i := CountFinds(s.consumers, CONSUMER_INSIDE);
      }
      p := Consumer(i);
      assert Step(s, p).consumers[i] != s.consumers[i];
    } else if Count(s.producers, PRODUCER_HOLDS_PLACE) > 0 {
      var i := CountFinds(s.producers, PRODUCER_HOLDS_PLACE);
      CountMonotone(s.consumers, CONSUMER_INSIDE, CONSUMER_HOLDS_PLACE);
      p := Producer(i);
      assert Step(s, p).producers[i] != s.producers[i];
    } else if s.empty > 0 {
      IdleUnlessCounted(s.producers, PRODUCER_HOLDS_PLACE, 0);
      IdleUnlessCounted(s.producers, PRODUCER_INSIDE, 0);
      p := Producer(0);
      assert Step(s, p).producers[0] != s.producers[0];
    } else {
      IdleUnlessCounted(s.consumers, CONSUMER_HOLDS_PLACE, 0);
      p := Consumer(0);
      assert Step(s, p).consumers[0] != s.consumers[0];
    }
  }

  lemma IdleUnlessCounted(ps: seq<Pc>, at: set<Pc>, i: nat)
    requires i < |ps| && Count(ps, at) == 0
    ensures ps[i] !in at
  {
    if ps[i] in at {
      CountTwo(ps, at, i);
    }
  }
}
