/** The limit on the number of connections in libsocket. It is looked at when a descriptor is accepted, but a connection
    counts only after it has been through an IO thread and the main thread's queue. */
module ConnectionLimit {
  import opened Lifecycle

  function Max(a: int, b: int): int {
    if a >= b then a else b
  }

  /** What a package in the main thread's queue does to the count. */
  function Delta(p: Package): int {
    if p.AcceptSock? then 1 else if p.Close? then -1 else 0
  }

  /** The highest count on the way through the queue `q`, if `waiting` more connections are announced behind it. */
  function Peak(count: int, q: seq<Package>, waiting: nat): int
    decreases |q|
  {
    if q == [] then count + waiting else Max(count, Peak(count + Delta(q[0]), q[1..], waiting))
  }

  /** The descriptors in a queue that wait for their socket. */
  function Accepts(q: seq<Package>): nat {
    if q == [] then 0 else Accepts(q[1..]) + if q[0].AcceptFd? then 1 else 0
  }

  function Total(lists: seq<seq<Package>>, f: seq<Package> -> nat): nat {
    if lists == [] then 0 else f(lists[0]) + Total(lists[1..], f)
  }

  function Waiting(lists: seq<seq<Package>>): nat {
    Total(lists, Accepts)
  }

  /** The highest count that what has been accepted so far can still lead to. */
  function PeakOf(s: State): int {
    Peak(s.main.count, s.list, Waiting(s.main.ioLists))
  }

  /** The descriptor is not closed again at once. */
  ghost predicate Admitted(s: State, step: Step) {
    step.Accept? && s.main.count < s.maxSockets && s.main.current < |s.main.ioLists|
  }

  lemma {:induction false} TotalUpdate(lists: seq<seq<Package>>, t: nat, q: seq<Package>, f: seq<Package> -> nat)
    requires t < |lists|
    ensures Total(lists[t := q], f) == Total(lists, f) - f(lists[t]) + f(q) && f(lists[t]) <= Total(lists, f)
  {
    if t == 0 {
      assert lists[0 := q][1..] == lists[1..];
    } else {
      TotalUpdate(lists[1..], t - 1, q, f);
      assert lists[t := q][1..] == lists[1..][t - 1 := q];
    }
  }

  lemma {:induction false} AcceptsAppend(q: seq<Package>, p: Package)
    ensures Accepts(q + [p]) == Accepts(q) + if p.AcceptFd? then 1 else 0
  {
    if q == [] {
      assert [p][1..] == [];
    } else {
      assert (q + [p])[0] == q[0] && (q + [p])[1..] == q[1..] + [p];
      AcceptsAppend(q[1..], p);
    }
  }

  lemma WaitingPush(lists: seq<seq<Package>>, t: nat, p: Package)
    requires t < |lists|
    ensures Waiting(Push(lists, t, p)) == Waiting(lists) + if p.AcceptFd? then 1 else 0
  {
    AcceptsAppend(lists[t], p);
    TotalUpdate(lists, t, lists[t] + [p], Accepts);
  }

  lemma WaitingPop(lists: seq<seq<Package>>, t: nat)
    requires t < |lists| && lists[t] != []
    ensures Waiting(lists) == Waiting(lists[t := lists[t][1..]]) + if lists[t][0].AcceptFd? then 1 else 0
  {
    TotalUpdate(lists, t, lists[t][1..], Accepts);
  }

  lemma {:induction false} PeakAbove(count: int, q: seq<Package>, waiting: nat)
    ensures count <= Peak(count, q, waiting) <= Peak(count, q, waiting + 1) <= Peak(count, q, waiting) + 1
    ensures Peak(count, q, waiting) <= Peak(count + 1, q, waiting)
    decreases |q|
  {
    if q != [] {
      PeakAbove(count + Delta(q[0]), q[1..], waiting);
    }
  }

  /** A package more at the end of the queue: an announcement stands for one that waited. */
  lemma {:induction false} PeakAppend(count: int, q: seq<Package>, p: Package, waiting: nat)
    ensures p.AcceptSock? ==> Peak(count, q + [p], waiting) == Peak(count, q, waiting + 1)
    ensures !p.AcceptSock? ==> Peak(count, q + [p], waiting) <= Peak(count, q, waiting)
    ensures p.RecvBuf? ==> Peak(count, q + [p], waiting) == Peak(count, q, waiting)
    decreases |q|
  {
    if q == [] {
      assert [p][1..] == [];
    } else {
      assert (q + [p])[0] == q[0] && (q + [p])[1..] == q[1..] + [p];
      PeakAppend(count + Delta(q[0]), q[1..], p, waiting);
    }
  }

  /** No step but an accepted descriptor makes the peak higher, and that by one at most. */
  lemma PeakKept(s: State, step: Step)
    requires Possible(s, step)
    ensures Admitted(s, step) ==> PeakOf(Apply(s, step)) == Peak(s.main.count, s.list, Waiting(s.main.ioLists) + 1)
    ensures !Admitted(s, step) ==> PeakOf(Apply(s, step)) <= PeakOf(s)
    ensures Apply(s, step).maxSockets == s.maxSockets
  {
    hide Peak, Waiting;
    var w := Waiting(s.main.ioLists);
    match step
    case Accept(fd) =>
      if Admitted(s, step) {
        WaitingPush(s.main.ioLists, s.main.current, AcceptFd(fd));
      }
    case IoPop(t, addr, bevOk) =>
      WaitingPop(s.main.ioLists, t);
      var p := s.main.ioLists[t][0];
      if p.AcceptFd? {
        PeakAbove(s.main.count, s.list, w - 1);
        PeakAppend(s.main.count, s.list, AcceptSock(Sock(addr, p.fd, t)), w - 1);
      }
    case Receive(k) => PeakAppend(s.main.count, s.list, RecvBuf(k), w);
    case End(k) => PeakAppend(s.main.count, s.list, Close(k), w);
    case MainPop => PopKept(s);
    case MainSend(fd) => WaitingPush(s.main.ioLists, s.main.agents[fd].thread, SendBuf(s.main.agents[fd]));
  }

  lemma PopKept(s: State)
    requires Possible(s, MainPop)
    ensures PeakOf(Apply(s, MainPop)) <= PeakOf(s) && Waiting(Apply(s, MainPop).main.ioLists) == Waiting(s.main.ioLists)
    ensures (s.list[0].AcceptSock? && s.list[0].s.fd in s.main.agents) || PeakOf(s) == Max(s.main.count, PeakOf(Apply(s, MainPop)))
  {
    hide Waiting;
    var p := s.list[0];
    if p.Close? {
      WaitingPush(s.main.ioLists, p.s.thread, p);
    }
    PeakAbove(s.main.count, s.list[1..], Waiting(s.main.ioLists));
  }

  /** Whenever a descriptor is accepted, the connections that are then counted or on their way fit in the limit. */
  ghost predicate Fits(s: State, steps: seq<Step>)
    requires CanRun(s, steps)
    decreases |steps|
  {
    steps != [] ==>
      (Admitted(s, steps[0]) ==> Peak(s.main.count, s.list, Waiting(s.main.ioLists) + 1) <= s.maxSockets) &&
      Fits(Apply(s, steps[0]), steps[1..])
  }

  lemma {:induction false} FitsKeeps(s: State, steps: seq<Step>)
    requires CanRun(s, steps) && Fits(s, steps) && PeakOf(s) <= s.maxSockets
    ensures PeakOf(After(s, steps)) <= s.maxSockets && After(s, steps).maxSockets == s.maxSockets
    ensures After(s, steps).main.count <= s.maxSockets
    decreases |steps|
  {
    hide Possible, Apply, Peak, Waiting, Admitted;
    if steps == [] {
      PeakAbove(s.main.count, s.list, Waiting(s.main.ioLists));
    } else {
      PeakKept(s, steps[0]);
      FitsKeeps(Apply(s, steps[0]), steps[1..]);
    }
  }

  lemma {:induction false} NothingWaits(n: nat)
    ensures Waiting(seq(n, _ => [])) == 0
  {
    var lists: seq<seq<Package>> := seq(n, _ => []);
    if n > 0 {
      NothingWaits(n - 1);
      assert lists[1..] == seq(n - 1, _ => []);
    }
  }

  /** In every run in which each accepted descriptor fits, the number of connections never exceeds the limit. */
  lemma WithinLimit(steps: seq<Step>, threads: nat, maxSockets: nat)
    requires CanRun(Initial(threads, maxSockets), steps) && Fits(Initial(threads, maxSockets), steps)
    ensures After(Initial(threads, maxSockets), steps).main.count <= maxSockets
  {
    hide CanRun, Fits, After, Waiting;
    NothingWaits(threads);
    FitsKeeps(Initial(threads, maxSockets), steps);
  }

  /** The sockets that are announced in the queue. */
  function Announcing(q: seq<Package>): nat {
    if q == [] then 0 else Announcing(q[1..]) + if q[0].AcceptSock? then 1 else 0
  }

  /** It is enough that the connections, the descriptors that wait and the announced sockets together fit. */
  lemma {:induction false} SumFits(count: int, q: seq<Package>, waiting: nat)
    ensures Peak(count, q, waiting) <= count + waiting + Announcing(q)
    decreases |q|
  {
    if q != [] {
      SumFits(count + Delta(q[0]), q[1..], waiting);
    }
  }

  /** Whenever a descriptor is accepted, that sum is below the limit. */
  ghost predicate SumsBelow(s: State, steps: seq<Step>)
    requires CanRun(s, steps)
    decreases |steps|
  {
    steps != [] ==>
      (Admitted(s, steps[0]) ==> s.main.count + Waiting(s.main.ioLists) + Announcing(s.list) < s.maxSockets) &&
      SumsBelow(Apply(s, steps[0]), steps[1..])
  }

  lemma {:induction false} SumsBelowFit(s: State, steps: seq<Step>)
    requires CanRun(s, steps) && SumsBelow(s, steps)
    ensures Fits(s, steps)
    decreases |steps|
  {
    hide Possible, Apply, Peak, Waiting, Admitted, Announcing;
    if steps != [] {
      SumFits(s.main.count, s.list, Waiting(s.main.ioLists) + 1);
      SumsBelowFit(Apply(s, steps[0]), steps[1..]);
    }
  }

  /** It is not needed: a connection whose close package is queued makes room in time. */
  lemma SumTooStrict() returns (steps: seq<Step>, fd: Fd)
    ensures CanRun(Initial(1, 2), steps) && Orderly(Initial(1, 2), steps)
    ensures var s := After(Initial(1, 2), steps);
      Possible(s, Accept(fd)) && Admitted(s, Accept(fd)) &&
      s.main.count + Waiting(s.main.ioLists) + Announcing(s.list) >= s.maxSockets && !CanExceed(Apply(s, Accept(fd)), s.maxSockets)
  {
    hide CanRun, Orderly, After, Inv, CanExceed;
    var s0 := Initial(1, 2);
    var ended := EndedRun(0, 0, 2);
    var s1 := After(s0, ended);
    OneStep(s1, Accept(1));
    Joined(s0, ended, [Accept(1)]);
    steps, fd := ended + [Accept(1)], 2;
    var s2 := Apply(s1, Accept(1));
    var none: seq<seq<Package>> := [[]];
    assert none[1..] == [] && Waiting(none) == 0;
    WaitingPush(none, 0, AcceptFd(1));
    assert s1.main.ioLists == none && s2.main.ioLists == Push(none, 0, AcceptFd(1));
    assert s2.list[1..] == [] && Peak(1, s2.list, 2) == 2;
    InitialInv(1, 2);
    RunKeeps(s0, steps);
    StepKeeps(s2, Accept(2));
    PeakKept(s2, Accept(2));
    PeakIsReached(Apply(s2, Accept(2)), 2);
  }

  /** No further descriptor is accepted. */
  predicate NoAccepts(steps: seq<Step>) {
    forall i :: 0 <= i < |steps| ==> !steps[i].Accept?
  }

  lemma NoAcceptsJoined(a: seq<Step>, b: seq<Step>)
    requires NoAccepts(a) && NoAccepts(b)
    ensures NoAccepts(a + b)
  {
  }

  lemma {:induction false} NewAddr(ks: set<Sock>) returns (addr: nat)
    ensures forall k <- ks :: k.addr < addr
  {
    if ks == {} {
      addr := 0;
    } else {
      var k :| k in ks;
      assert forall j <- ks :: j == k || j in ks - {k};
      addr := NewAddr(ks - {k});
      if addr <= k.addr {
        addr := k.addr + 1;
      }
    }
  }

  function Length(q: seq<Package>): nat {
    |q|
  }

  lemma {:induction false} SomeWaits(lists: seq<seq<Package>>) returns (t: nat)
    requires Total(lists, Length) > 0
    ensures t < |lists| && lists[t] != []
  {
    if lists[0] != [] {
      t := 0;
    } else {
      t := SomeWaits(lists[1..]);
      t := t + 1;
    }
  }

  lemma {:induction false} EmptyWaits(lists: seq<seq<Package>>)
    requires Total(lists, Length) == 0
    ensures Waiting(lists) == 0
  {
    if lists != [] {
      EmptyWaits(lists[1..]);
    }
  }

  /** One package of an IO thread's queue, whose bufferevent can be made if it is a descriptor. */
  lemma IoStep(s: State) returns (step: Step)
    requires Inv(s) && Total(s.main.ioLists, Length) > 0
    ensures Enabled(s, step) && step.IoPop? && PeakOf(Apply(s, step)) == PeakOf(s) && Inv(Apply(s, step))
    ensures Total(Apply(s, step).main.ioLists, Length) < Total(s.main.ioLists, Length)
  {
    var t := SomeWaits(s.main.ioLists);
    var addr := NewAddr(s.live.Keys);
    step := IoPop(t, addr, true);
    FrontOfIo(s, t);
    hide Inv, Peak, Waiting;
    StepKeeps(s, step);
    WaitingPop(s.main.ioLists, t);
    TotalUpdate(s.main.ioLists, t, s.main.ioLists[t][1..], Length);
    var p := s.main.ioLists[t][0];
    if p.AcceptFd? {
      PeakAppend(s.main.count, s.list, AcceptSock(Sock(addr, p.fd, t)), Waiting(s.main.ioLists) - 1);
    }
  }

  /** All IO threads go on until their queues are empty. */
  lemma {:induction false} IoDrained(s: State) returns (steps: seq<Step>)
    requires Inv(s)
    ensures CanRun(s, steps) && Orderly(s, steps) && NoAccepts(steps) && Inv(After(s, steps))
    ensures PeakOf(After(s, steps)) == PeakOf(s) && Waiting(After(s, steps).main.ioLists) == 0
    ensures After(s, steps).maxSockets == s.maxSockets
    decreases Total(s.main.ioLists, Length)
  {
    hide Inv, Apply, Possible, BeforeEnd, Peak, Waiting, Total;
    if Total(s.main.ioLists, Length) == 0 {
      EmptyWaits(s.main.ioLists);
      steps := [];
    } else {
      var step := IoStep(s);
      PeakKept(s, step);
      var rest := IoDrained(Apply(s, step));
      steps := [step] + rest;
      assert steps[0] == step && steps[1..] == rest;
    }
  }

  /** The main thread goes on until the count is as high as it gets. */
  lemma {:induction false} MainUpTo(s: State, n: int) returns (steps: seq<Step>)
    requires Inv(s) && PeakOf(s) >= n && Waiting(s.main.ioLists) == 0
    ensures CanRun(s, steps) && Orderly(s, steps) && NoAccepts(steps) && After(s, steps).main.count >= n
    decreases |s.list|
  {
    hide Inv, Apply, Waiting;
    steps := [];
    if s.main.count < n {
      FrontOfList(s);
      StepKeeps(s, MainPop);
      PopKept(s);
      PoppedList(s);
      var rest := MainUpTo(Apply(s, MainPop), n);
      steps := [MainPop] + rest;
      assert steps[0] == MainPop && steps[1..] == rest;
    }
  }

  lemma PoppedList(s: State)
    requires Possible(s, MainPop)
    ensures Apply(s, MainPop).list == s.list[1..]
  {
  }

  /** What has been accepted can lead to more than `n` connections, with no further descriptor. */
  ghost predicate CanExceed(s: State, n: int) {
    exists steps :: CanRun(s, steps) && Orderly(s, steps) && NoAccepts(steps) && After(s, steps).main.count > n
  }

  lemma {:induction false} PeakBounds(s: State, steps: seq<Step>)
    requires CanRun(s, steps) && NoAccepts(steps)
    ensures After(s, steps).main.count <= PeakOf(s)
    decreases |steps|
  {
    hide Possible, Apply, Peak, Waiting;
    if steps == [] {
      PeakAbove(s.main.count, s.list, Waiting(s.main.ioLists));
    } else {
      PeakKept(s, steps[0]);
      assert NoAccepts(steps[1..]);
      PeakBounds(Apply(s, steps[0]), steps[1..]);
    }
  }

  /** The peak is just what can be reached. */
  lemma PeakIsReached(s: State, n: int)
    requires Inv(s)
    ensures CanExceed(s, n) <==> PeakOf(s) > n
  {
    hide Inv, Peak, Waiting, CanRun, Orderly, After, NoAccepts;
    if PeakOf(s) > n {
      var a := IoDrained(s);
      var b := MainUpTo(After(s, a), n + 1);
      Joined(s, a, b);
      NoAcceptsJoined(a, b);
      assert CanExceed(s, n);
    } else {
      forall steps | CanRun(s, steps) && Orderly(s, steps) && NoAccepts(steps)
        ensures After(s, steps).main.count <= n
      {
        PeakBounds(s, steps);
      }
    }
  }

  /** Along the steps, in no state can what has been accepted exceed the limit. */
  ghost predicate NeverExceeds(s: State, steps: seq<Step>)
    requires CanRun(s, steps)
    decreases |steps|
  {
    !CanExceed(s, s.maxSockets) && (steps != [] ==> NeverExceeds(Apply(s, steps[0]), steps[1..]))
  }

  /** Every run: the limit is kept, whatever else follows, if and only if each accepted descriptor fits. */
  lemma {:induction false} FitsOnly(s: State, steps: seq<Step>)
    requires Inv(s) && CanRun(s, steps) && Orderly(s, steps) && PeakOf(s) <= s.maxSockets
    ensures Fits(s, steps) <==> NeverExceeds(s, steps)
    decreases |steps|
  {
    hide Inv, Apply, Possible, BeforeEnd, Peak, Waiting, Admitted, CanExceed;
    PeakIsReached(s, s.maxSockets);
    if steps != [] {
      StepKeeps(s, steps[0]);
      PeakKept(s, steps[0]);
      var s' := Apply(s, steps[0]);
      if PeakOf(s') <= s.maxSockets {
        FitsOnly(s', steps[1..]);
      } else {
        PeakIsReached(s', s'.maxSockets);
      }
    }
  }

  /** `n` descriptors come in before any of them counts. */
  lemma {:induction false} Burst(threads: nat, maxSockets: nat, n: nat) returns (steps: seq<Step>)
    requires threads > 0 && maxSockets > 0
    ensures CanRun(Initial(threads, maxSockets), steps) && Orderly(Initial(threads, maxSockets), steps)
    ensures var s := After(Initial(threads, maxSockets), steps);
      Inv(s) && s.main.count == 0 && s.list == [] && Waiting(s.main.ioLists) == n && s.maxSockets == maxSockets && forall fd <- s.open :: fd < n
  {
    var s0 := Initial(threads, maxSockets);
    if n == 0 {
      steps := [];
      NothingWaits(threads);
      InitialInv(threads, maxSockets);
    } else {
      hide Inv, CanRun, Orderly, After, Waiting;
      var before := Burst(threads, maxSockets, n - 1);
      var s := After(s0, before);
      InvThreads(s);
      StepKeeps(s, Accept(n - 1));
      OneStep(s, Accept(n - 1));
      WaitingPush(s.main.ioLists, s.main.current, AcceptFd(n - 1));
      Joined(s0, before, [Accept(n - 1)]);
      steps := before + [Accept(n - 1)];
    }
  }

  lemma InvThreads(s: State)
    requires Inv(s)
    ensures s.main.current < |s.main.ioLists|
  {
  }

  /** The limit can be exceeded, whatever it is: one descriptor too many is accepted in a burst. */
  lemma LimitExceeded(threads: nat, maxSockets: nat) returns (steps: seq<Step>)
    requires threads > 0 && maxSockets > 0
    ensures CanRun(Initial(threads, maxSockets), steps) && Orderly(Initial(threads, maxSockets), steps)
    ensures After(Initial(threads, maxSockets), steps).main.count > maxSockets
  {
    hide Inv, CanRun, Orderly, After, Waiting, NoAccepts;
    var s0 := Initial(threads, maxSockets);
    var burst := Burst(threads, maxSockets, maxSockets + 1);
    var s := After(s0, burst);
    PeakIsReached(s, maxSockets);
    var rest :| CanRun(s, rest) && Orderly(s, rest) && NoAccepts(rest) && After(s, rest).main.count > maxSockets;
    Joined(s0, burst, rest);
    steps := burst + rest;
  }
}
