/** The hand-off of packages between threads in libsocket: a locked queue and a socket pair whose bytes wake the
    consumer. Producers push under the lock and send a byte afterwards; the consumer handles a bounded number of packages
    per callback and wakes itself again when some are left. */
module WakeQueue {
  import Flatten

  const RECV_SIZE := 16

  datatype Pc =
    | Waiting              // not in pairCallback
    | Draining(count: nat) // in the loop, after `count` packages
    | Checking             // before the final look at the queue
    | Resending            // the queue was not empty

  datatype State<T> = State(
    queue: seq<T>,
    bytes: nat,      // in the socket pair
    sending: nat,    // producers between their push and their send
    pc: Pc,
    pushed: seq<T>,  // all packages ever pushed
    handled: seq<T>) // all packages ever handled

  datatype Step<T> = Push(p: T) | Send | Wake | Pop | Break | Check | Resend

  /** The socket pair holds at most `capacity` bytes; a send to a full one fails. `dealCount` is _nPairDealCount. */
  datatype Config = Config(capacity: nat, dealCount: int)

  function Min(a: int, b: int): int {
    if a <= b then a else b
  }

  predicate Enabled<T(==)>(c: Config, s: State<T>, step: Step<T>) {
    match step
    case Push(_) => true
    case Send => s.sending > 0
    case Wake => s.pc.Waiting? && s.bytes > 0
    case Pop => s.pc.Draining? && s.pc.count <= c.dealCount && s.queue != []
    case Break => s.pc.Draining? && (s.pc.count > c.dealCount || s.queue == [])
    case Check => s.pc.Checking?
    case Resend => s.pc.Resending?
  }

  function Apply<T>(c: Config, s: State<T>, step: Step<T>): State<T>
    requires Enabled(c, s, step)
  {
    match step
    case Push(p) => s.(queue := s.queue + [p], pushed := s.pushed + [p], sending := s.sending + 1)
    case Send => s.(sending := s.sending - 1, bytes := Min(s.bytes + 1, c.capacity))
    case Wake => s.(bytes := s.bytes - Min(s.bytes, RECV_SIZE), pc := Draining(0))
    case Pop => s.(queue := s.queue[1..], handled := s.handled + [s.queue[0]], pc := Draining(s.pc.count + 1))
    case Break => s.(pc := Checking)
    case Check => s.(pc := if s.queue == [] then Waiting else Resending)
    case Resend => s.(bytes := Min(s.bytes + 1, c.capacity), pc := Waiting)
  }

  /** The steps can be taken one after the other from `s`. */
  ghost predicate CanRun<T>(c: Config, s: State<T>, steps: seq<Step<T>>)
    decreases |steps|
  {
    steps != [] ==> Enabled(c, s, steps[0]) && CanRun(c, Apply(c, s, steps[0]), steps[1..])
  }

  ghost function After<T>(c: Config, s: State<T>, steps: seq<Step<T>>): State<T>
    requires CanRun(c, s, steps)
    decreases |steps|
  {
    if steps == [] then s else After(c, Apply(c, s, steps[0]), steps[1..])
  }

  /** One step more. */
  lemma {:induction false} Then<T>(c: Config, s: State<T>, steps: seq<Step<T>>, step: Step<T>)
    requires CanRun(c, s, steps) && Enabled(c, After(c, s, steps), step)
    ensures CanRun(c, s, steps + [step]) && After(c, s, steps + [step]) == Apply(c, After(c, s, steps), step)
    decreases |steps|
  {
    hide Enabled, Apply;
    if steps == [] {
      assert [step][1..] == [];
      assert After(c, Apply(c, s, step), []) == Apply(c, s, step);
    } else {
      assert (steps + [step])[0] == steps[0] && (steps + [step])[1..] == steps[1..] + [step];
      Then(c, Apply(c, s, steps[0]), steps[1..], step);
    }
  }

  function Initial<T>(): State<T> {
    State([], 0, 0, Waiting, [], [])
  }

  ghost predicate Inv<T>(c: Config, s: State<T>) {
    s.handled + s.queue == s.pushed && s.bytes <= c.capacity &&
    (s.pc.Draining? ==> s.pc.count <= c.dealCount + 1 || s.pc.count == 0) &&
    (s.queue != [] ==> s.bytes > 0 || s.sending > 0 || !s.pc.Waiting?)
  }

  lemma StepKeeps<T>(c: Config, s: State<T>, step: Step<T>)
    requires c.capacity > 0 && Inv(c, s) && Enabled(c, s, step)
    ensures Inv(c, Apply(c, s, step))
  {
    match step
    case Push(p) => assert s.handled + (s.queue + [p]) == s.pushed + [p];
    case Pop => assert (s.handled + [s.queue[0]]) + s.queue[1..] == s.handled + s.queue;
    case Send =>
    case Wake =>
    case Break =>
    case Check =>
    case Resend =>
  }

  lemma {:induction false} RunKeeps<T>(c: Config, s: State<T>, steps: seq<Step<T>>)
    requires c.capacity > 0 && Inv(c, s) && CanRun(c, s, steps)
    ensures Inv(c, After(c, s, steps))
    decreases |steps|
  {
    if steps != [] {
      StepKeeps(c, s, steps[0]);
      RunKeeps(c, Apply(c, s, steps[0]), steps[1..]);
    }
  }

  /** No wake-up is lost in any interleaving, and what has been handled is a prefix of what was pushed, in order. */
  lemma NoLostWakeUp<T>(c: Config, steps: seq<Step<T>>)
    requires c.capacity > 0 && CanRun(c, Initial(), steps)
    ensures var s := After(c, Initial(), steps);
      Inv(c, s) && s.handled + s.queue == s.pushed && (s.queue != [] ==> s.bytes > 0 || s.sending > 0 || !s.pc.Waiting?)
  {
    RunKeeps(c, Initial(), steps);
  }

  /** One callback handles at most dealCount + 1 packages. */
  lemma {:induction false} BoundedCallback<T>(c: Config, s: State<T>, steps: seq<Step<T>>)
    requires CanRun(c, s, steps) && s.pc.Draining? && forall i :: 0 <= i < |steps| ==> !steps[i].Wake?
    ensures |After(c, s, steps).handled| <= |s.handled| + if s.pc.count > c.dealCount then 0 else c.dealCount + 1 - s.pc.count
    decreases |steps|
  {
    if steps != [] {
      var s1 := Apply(c, s, steps[0]);
      if steps[0].Break? {
        AfterBreak(c, s1, steps[1..]);
      } else {
        BoundedCallback(c, s1, steps[1..]);
      }
    }
  }

  lemma {:induction false} AfterBreak<T>(c: Config, s: State<T>, steps: seq<Step<T>>)
    requires CanRun(c, s, steps) && !s.pc.Draining? && forall i :: 0 <= i < |steps| ==> !steps[i].Wake?
    ensures After(c, s, steps).handled == s.handled
    decreases |steps|
  {
    if steps != [] {
      AfterBreak(c, Apply(c, s, steps[0]), steps[1..]);
    }
  }

  /** What is left to do when no further package is pushed. */
  ghost function Work<T>(s: State<T>): nat {
    20 * |s.queue| + 10 * s.bytes + 11 * s.sending +
    match s.pc
    case Waiting => 0
    case Draining(count) => if count == 0 then 3 else 14
    case Checking => if s.queue == [] then 2 else 13
    case Resending => 12
  }

  lemma WorkDecreases<T>(c: Config, s: State<T>, step: Step<T>)
    requires c.dealCount >= 0 && Enabled(c, s, step) && !step.Push?
    ensures Work(Apply(c, s, step)) < Work(s)
  {
  }

  /** Without further pushes every run is bounded by the work left, and one that cannot go on has handled all packages
      that were ever pushed, each exactly once and in the order of the pushes. */
  lemma {:induction false} AllHandled<T(!new)>(c: Config, s: State<T>, steps: seq<Step<T>>)
    requires c.capacity > 0 && c.dealCount >= 0 && CanRun(c, s, steps) && Inv(c, s)
    requires forall i :: 0 <= i < |steps| ==> !steps[i].Push?
    ensures |steps| <= Work(s) && After(c, s, steps).pushed == s.pushed
    ensures (forall step: Step<T> :: !step.Push? ==> !Enabled(c, After(c, s, steps), step)) ==> After(c, s, steps).handled == s.pushed
    decreases |steps|
  {
    if steps == [] {
      if forall step: Step<T> :: !step.Push? ==> !Enabled(c, s, step) {
        assert !Enabled(c, s, Send) && !Enabled(c, s, Wake) && !Enabled(c, s, Pop) && !Enabled(c, s, Break);
        assert !Enabled(c, s, Check) && !Enabled(c, s, Resend);
        assert s.queue == [];
        assert s.handled + [] == s.handled;
      }
    } else {
      StepKeeps(c, s, steps[0]);
      WorkDecreases(c, s, steps[0]);
      hide Work;
      AllHandled(c, Apply(c, s, steps[0]), steps[1..]);
    }
  }

  /** With a negative bound, which the setter accepts, no callback handles anything. */
  lemma {:induction false} NothingHandled<T>(c: Config, s: State<T>, steps: seq<Step<T>>)
    requires c.dealCount < 0 && CanRun(c, s, steps)
    ensures After(c, s, steps).handled == s.handled
    decreases |steps|
  {
    if steps != [] {
      NothingHandled(c, Apply(c, s, steps[0]), steps[1..]);
    }
  }

  /** The steps of one callback lead from `start` to `s`. */
  ghost predicate Reaches<T>(c: Config, start: State<T>, steps: seq<Step<T>>, s: State<T>) {
    CanRun(c, start, steps) && After(c, start, steps) == s &&
    steps != [] && steps[0] == Wake && forall i :: 0 < i < |steps| ==> steps[i] != Wake
  }

  lemma Woken<T>(c: Config, start: State<T>)
    requires Enabled(c, start, Wake)
    ensures Reaches(c, start, [Wake], Apply(c, start, Wake))
  {
    assert After(c, start, []) == start;
    Then(c, start, [], Wake);
    var none: seq<Step<T>> := [];
    assert none + [Wake] == [Wake];
  }

  lemma GoesOn<T>(c: Config, start: State<T>, steps: seq<Step<T>>, s: State<T>, step: Step<T>)
    requires Reaches(c, start, steps, s) && Enabled(c, s, step) && step != Wake
    ensures Reaches(c, start, steps + [step], Apply(c, s, step))
  {
    Then(c, start, steps, step);
  }

  lemma ReachesIs<T>(c: Config, start: State<T>, steps: seq<Step<T>>, s: State<T>)
    requires Reaches(c, start, steps, s)
    ensures CanRun(c, start, steps) && After(c, start, steps) == s
    ensures steps != [] && steps[0] == Wake && forall i :: 0 < i < |steps| ==> steps[i] != Wake
  {
  }

  /** The arrivals of one round. */
  lemma RoundAdds<T>(handled: seq<T>, list: seq<T>, before: seq<T>, arrivals: seq<seq<T>>, r: nat)
    requires r < |arrivals| && handled + list == before + Flatten.Flat(arrivals[..r])
    ensures before + Flatten.Flat(arrivals[..r]) + arrivals[r] == before + Flatten.Flat(arrivals[..r + 1])
    ensures handled + (list + arrivals[r]) == before + Flatten.Flat(arrivals[..r + 1])
    ensures |Flatten.Flat(arrivals[..r + 1])| == |Flatten.Flat(arrivals[..r])| + |arrivals[r]|
  {
    Flatten.FlatUpTo(arrivals, r);
    assert handled + (list + arrivals[r]) == (handled + list) + arrivals[r];
  }

  lemma FrontMoves<T>(handled: seq<T>, list: seq<T>)
    requires list != []
    ensures handled + list == (handled + [list[0]]) + list[1..]
  {
  }

  /** One side's queue, as the methods of the source work on it. */
  class PackageQueue<T(==)> {
    var list: seq<T>
    var bytes: nat
    const config: Config

    constructor (config: Config)
      requires config.capacity > 0
      ensures list == [] && bytes == 0 && this.config == config
    {
      list, bytes, this.config := [], 0, config;
    }

    /** Nothing waits without a byte that wakes the consumer. */
    ghost predicate Awake()
      reads this
    {
      bytes <= config.capacity && config.capacity > 0 && (list != [] ==> bytes > 0)
    }

    /** send of one byte */
    method SendByte() returns (r: int)
      requires bytes <= config.capacity
      modifies this`bytes
      ensures bytes == Min(old(bytes) + 1, config.capacity) && r == if old(bytes) < config.capacity then 1 else -1
    {
      if bytes == config.capacity {
        return -1;
      }
      bytes := bytes + 1;
      return 1;
    }

    /** asynAccept, asynClose, asynSend and asynRecive all end like this. */
    method Asyn(p: T) returns (r: int)
      requires Awake()
      modifies this`list, this`bytes
      ensures Awake() && list == old(list) + [p]
      ensures bytes == Min(old(bytes) + 1, config.capacity) && r == if old(bytes) < config.capacity then 1 else -1
    {
      list := list + [p];
      r := SendByte();
    }

    /** The queue as a state of the step machine: no producer is in the middle of a push. */
    ghost function Now(pc: Pc, pushed: seq<T>, handled: seq<T>): State<T>
      reads this`list, this`bytes
    {
      State(list, bytes, 0, pc, pushed, handled)
    }

    /** The frame of pairCallback. Before its round `i` looks at the queue, the packages `arrivals[i]` come in. It is one
        run of the step machine through a whole callback. */
    method PairCallback(arrivals: seq<seq<T>>) returns (handled: seq<T>, ghost rounds: nat, ghost steps: seq<Step<T>>)
      requires Awake() && bytes > 0 && |arrivals| == if config.dealCount < 0 then 0 else config.dealCount + 1
      modifies this`list, this`bytes
      ensures Awake() && |handled| <= |arrivals| && rounds == |handled| + if |handled| < |arrivals| then 1 else 0
      ensures handled + list == old(list) + Flatten.Flat(arrivals[..rounds])
      ensures list != [] ==> |handled| == |arrivals|
      ensures bytes == Min(old(bytes) - Min(old(bytes), RECV_SIZE) + |Flatten.Flat(arrivals[..rounds])| + (if list != [] then 1 else 0),
        config.capacity)
      ensures steps != [] && steps[0] == Wake && forall i :: 0 < i < |steps| ==> steps[i] != Wake
      ensures var start := old(Now(Waiting, list, []));
        CanRun(config, start, steps) &&
        After(config, start, steps) == Now(Waiting, old(list) + Flatten.Flat(arrivals[..rounds]), handled)
    {
      ghost var start, before := Now(Waiting, list, []), list;
      Woken(config, start);
      assert Flatten.Flat(arrivals[..0]) == [] && before + [] == before && [] + list == list;
      bytes := bytes - Min(bytes, RECV_SIZE);
      handled, rounds, steps := [], 0, [Wake];
      ghost var woken := bytes;
      var dealCount := 0;
      hide Flatten.Flat, CanRun, After, Reaches;
      while dealCount <= config.dealCount
        invariant 0 <= dealCount <= |arrivals| && rounds == dealCount == |handled|
        invariant handled + list == before + Flatten.Flat(arrivals[..rounds])
        invariant bytes == Min(woken + |Flatten.Flat(arrivals[..rounds])|, config.capacity)
        invariant Reaches(config, start, steps, Now(Draining(|handled|), before + Flatten.Flat(arrivals[..rounds]), handled))
      {
        RoundAdds(handled, list, before, arrivals, rounds);
        steps := Arrive(arrivals[dealCount], start, steps, Draining(|handled|), before + Flatten.Flat(arrivals[..rounds]), handled);
        rounds := rounds + 1;
        dealCount := dealCount + 1;
        if list == [] {
          break;
        }
        GoesOn(config, start, steps, Now(Draining(|handled|), before + Flatten.Flat(arrivals[..rounds]), handled), Pop);
        FrontMoves(handled, list);
        var p := list[0];
        list := list[1..];
        handled, steps := handled + [p], steps + [Pop];
      }
      ghost var pushed := before + Flatten.Flat(arrivals[..rounds]);
      steps := LastLook(start, steps, |handled|, pushed, handled);
      ReachesIs(config, start, steps, Now(Waiting, pushed, handled));
    }

    /** The end of pairCallback: the consumer wakes itself when something is left. */
    method LastLook(ghost start: State<T>, ghost before: seq<Step<T>>, ghost count: nat, ghost pushed: seq<T>, ghost handled: seq<T>)
      returns (ghost steps: seq<Step<T>>)
      requires bytes <= config.capacity && (count > config.dealCount || list == [])
      requires Reaches(config, start, before, Now(Draining(count), pushed, handled))
      modifies this`bytes
      ensures bytes == Min(old(bytes) + if list != [] then 1 else 0, config.capacity)
      ensures Reaches(config, start, steps, Now(Waiting, pushed, handled))
    {
      hide Reaches;
      GoesOn(config, start, before, Now(Draining(count), pushed, handled), Break);
      GoesOn(config, start, before + [Break], Now(Checking, pushed, handled), Check);
      steps := before + [Break] + [Check];
      if list != [] {
        GoesOn(config, start, steps, Now(Resending, pushed, handled), Resend);
        steps := steps + [Resend];
        var _ := SendByte();
      }
    }

    /** Several packages from other threads. */
    method Arrive(ps: seq<T>, ghost start: State<T>, ghost before: seq<Step<T>>, ghost pc: Pc, ghost pushed: seq<T>, ghost handled: seq<T>)
      returns (ghost steps: seq<Step<T>>)
      requires bytes <= config.capacity && Reaches(config, start, before, Now(pc, pushed, handled))
      modifies this`list, this`bytes
      ensures list == old(list) + ps && bytes == Min(old(bytes) + |ps|, config.capacity)
      ensures Reaches(config, start, steps, Now(pc, pushed + ps, handled))
    {
      hide Reaches;
      steps := before;
      assert pushed + ps[..0] == pushed && list + ps[..0] == list;
      for i := 0 to |ps|
        invariant list == old(list) + ps[..i] && bytes == Min(old(bytes) + i, config.capacity)
        invariant Reaches(config, start, steps, Now(pc, pushed + ps[..i], handled))
      {
        ghost var s := Now(pc, pushed + ps[..i], handled);
        GoesOn(config, start, steps, s, Push(ps[i]));
        GoesOn(config, start, steps + [Push(ps[i])], Apply(config, s, Push(ps[i])), Send);
        steps := steps + [Push(ps[i])] + [Send];
        assert pushed + ps[..i + 1] == pushed + ps[..i] + [ps[i]];
        list := list + [ps[i]];
        var _ := SendByte();
      }
      assert ps[..|ps|] == ps;
    }
  }
}
