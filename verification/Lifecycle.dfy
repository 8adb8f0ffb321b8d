/** Connections in libsocket: the main thread hands accepted descriptors to IO threads, which announce sockets to it,
    report what they receive and report their end; the main thread keeps the agents and sends closed sockets back. */
module Lifecycle {
  import Flatten

  type Fd = nat

  /** A ServerIOSocket: its address, and the descriptor and thread it is made with. */
  datatype Sock = Sock(addr: nat, fd: Fd, thread: nat)

  /** threadPackage; `AcceptFd` travels to an IO thread, `AcceptSock` and `RecvBuf` to the main thread. */
  datatype Package =
    | AcceptFd(fd: Fd)
    | AcceptSock(s: Sock)
    | RecvBuf(s: Sock)
    | SendBuf(s: Sock)
    | Close(s: Sock)

  datatype Name = FdName(fd: Fd) | SockName(s: Sock)

  function NameOf(p: Package): Name {
    match p
    case AcceptFd(fd) => FdName(fd)
    case AcceptSock(s) => SockName(s)
    case RecvBuf(s) => SockName(s)
    case SendBuf(s) => SockName(s)
    case Close(s) => SockName(s)
  }

  /** What the main thread keeps, and the queues of the IO threads. */
  datatype MainThread = MainThread(agents: map<Fd, Sock>, count: int, ioLists: seq<seq<Package>>, current: nat)

  /** Where a live socket is, and what a descriptor is open for: auxiliary, no step looks at them. */
  datatype Phase = Announced | Known | Released
  datatype Use = Pending(thread: nat) | Held(s: Sock) | Leaked

  datatype State = State(
    main: MainThread,
    list: seq<Package>,        // the queue of the main thread
    open: map<Fd, Use>,        // the descriptors that are open
    live: map<Sock, Phase>,    // the sockets that are not deleted
    closing: set<Sock>,        // those that have raised their close event
    maxSockets: int)

  datatype Step =
    | Accept(fd: Fd)                               // acceptCallback
    | IoPop(t: nat, addr: nat, bevOk: bool)        // one package in an IO thread's pairCallback
    | Receive(s: Sock)                             // readCallback
    | End(s: Sock)                                 // eventCallback
    | MainPop                                      // one package in ServerSocket::pairCallback
    | MainSend(fd: Fd)                             // the program sends to a client

  function Push(lists: seq<seq<Package>>, t: nat, p: Package): seq<seq<Package>>
    requires t < |lists|
  {
    lists[t := lists[t] + [p]]
  }

  /** What the main thread does with a package. */
  function Handle(m: MainThread, p: Package): MainThread
    requires (p.AcceptSock? || p.RecvBuf? || p.Close?) && p.s.thread < |m.ioLists|
  {
    match p
    case AcceptSock(s) =>
      if s.fd in m.agents then m else m.(count := m.count + 1, agents := m.agents[s.fd := s])
    case RecvBuf(s) => m
    case Close(s) => m.(count := m.count - 1, agents := m.agents - {s.fd}, ioLists := Push(m.ioLists, s.thread, Close(s)))
  }

  /** The thread that gets a new descriptor, in turn; none when the limit is reached. */
  function Admit(m: MainThread, maxSockets: int, fd: Fd): MainThread {
    if m.count >= maxSockets || m.current >= |m.ioLists| then m
    else m.(ioLists := Push(m.ioLists, m.current, AcceptFd(fd)),
            current := if m.current + 1 >= |m.ioLists| then 0 else m.current + 1)
  }

  /** What can happen in a state. */
  ghost predicate Possible(s: State, step: Step) {
    match step
    case Accept(fd) => fd !in s.open
    case IoPop(t, addr, bevOk) =>
      t < |s.main.ioLists| && s.main.ioLists[t] != [] &&
      (var p := s.main.ioLists[t][0];
       p.AcceptFd? ==> Sock(addr, p.fd, t) !in s.live) &&
      !s.main.ioLists[t][0].AcceptSock? && !s.main.ioLists[t][0].RecvBuf?
    case Receive(k) => k in s.live
    case End(k) => k in s.live
    case MainPop =>
      s.list != [] && (s.list[0].AcceptSock? || s.list[0].RecvBuf? || s.list[0].Close?) && s.list[0].s.thread < |s.main.ioLists|
    case MainSend(fd) => fd in s.main.agents && s.main.agents[fd].thread < |s.main.ioLists|
  }

  /** A socket reports nothing, not even another end, after it has raised its end. */
  ghost predicate BeforeEnd(s: State, step: Step) {
    step.Receive? || step.End? ==> step.s !in s.closing
  }

  ghost predicate Enabled(s: State, step: Step) {
    Possible(s, step) && BeforeEnd(s, step)
  }

  function Apply(s: State, step: Step): State
    requires Possible(s, step)
  {
    match step
    case Accept(fd) =>
      if s.main.count >= s.maxSockets || s.main.current >= |s.main.ioLists| then s
      else s.(open := s.open[fd := Pending(s.main.current)], main := Admit(s.main, s.maxSockets, fd))
    case IoPop(t, addr, bevOk) =>
      var p, rest := s.main.ioLists[t][0], s.main.ioLists[t := s.main.ioLists[t][1..]];
      var s1 := s.(main := s.main.(ioLists := rest));
      (match p
       case AcceptFd(fd) =>
         if !bevOk then s1.(open := s1.open[fd := Leaked])
         else
           var k := Sock(addr, fd, t);
           s1.(open := s1.open[fd := Held(k)], live := s1.live[k := Announced], list := s1.list + [AcceptSock(k)])
       case Close(k) => s1.(open := s1.open - {k.fd}, live := s1.live - {k}, closing := s1.closing - {k})
       case SendBuf(_) => s1
       case AcceptSock(_) => s1
       case RecvBuf(_) => s1)
    case Receive(k) => s.(list := s.list + [RecvBuf(k)])
    case End(k) => s.(list := s.list + [Close(k)], closing := s.closing + {k})
    case MainPop =>
      var p := s.list[0];
      s.(list := s.list[1..], main := Handle(s.main, p),
         live := match p
                 case AcceptSock(k) => s.live[k := Known]
                 case Close(k) => s.live[k := Released]
                 case RecvBuf(k) => s.live)
    case MainSend(fd) =>
      var k := s.main.agents[fd];
      s.(main := s.main.(ioLists := Push(s.main.ioLists, k.thread, SendBuf(k))))
  }

  /** The packages in a queue that name one descriptor or socket. */
  function About(q: seq<Package>, n: Name): seq<Package> {
    if q == [] then []
    else if NameOf(q[0]) == n then [q[0]] + About(q[1..], n)
    else About(q[1..], n)
  }

  lemma {:induction false} AboutAppend(q: seq<Package>, p: Package, n: Name)
    ensures About(q + [p], n) == if NameOf(p) == n then About(q, n) + [p] else About(q, n)
  {
    if q == [] {
      assert About([p], n) == if NameOf(p) == n then [p] + About([], n) else About([], n);
    } else {
      assert (q + [p])[0] == q[0] && (q + [p])[1..] == q[1..] + [p];
      AboutAppend(q[1..], p, n);
    }
  }

  lemma {:induction false} AboutIn(q: seq<Package>, p: Package)
    ensures p in q <==> p in About(q, NameOf(p))
  {
    if q != [] {
      AboutIn(q[1..], p);
      assert q == [q[0]] + q[1..];
    }
  }

  ghost predicate AllAre(q: seq<Package>, p: Package) {
    forall i :: 0 <= i < |q| ==> q[i] == p
  }

  /** Only `p`s, and at the end `last` if there is an end. */
  ghost predicate EndsWith(q: seq<Package>, p: Package, last: Package, ended: bool) {
    if ended then q != [] && q[|q| - 1] == last && AllAre(q[..|q| - 1], p) else AllAre(q, p)
  }

  /** What the main thread's queue has about a live socket: its announcement, then what it received, then its end. */
  ghost predicate MainShape(q: seq<Package>, phase: Phase, k: Sock, closing: bool) {
    match phase
    case Announced => q != [] && q[0] == AcceptSock(k) && EndsWith(q[1..], RecvBuf(k), Close(k), closing)
    case Known => EndsWith(q, RecvBuf(k), Close(k), closing)
    case Released => q == [] && closing
  }

  /** What its IO thread's queue has about it: what is to be sent, then its deletion. */
  ghost predicate IoShape(q: seq<Package>, phase: Phase, k: Sock) {
    match phase
    case Announced => q == []
    case Known => AllAre(q, SendBuf(k))
    case Released => EndsWith(q, SendBuf(k), Close(k), true)
  }

  ghost predicate NowhereElse(s: State, k: Sock) {
    forall t :: 0 <= t < |s.main.ioLists| && (k !in s.live || t != k.thread) ==> About(s.main.ioLists[t], SockName(k)) == []
  }

  ghost predicate SockOk(s: State, k: Sock) {
    NowhereElse(s, k) &&
    if k in s.live then
      k.thread < |s.main.ioLists| && k.fd in s.open && s.open[k.fd] == Held(k) &&
      MainShape(About(s.list, SockName(k)), s.live[k], k, k in s.closing) &&
      IoShape(About(s.main.ioLists[k.thread], SockName(k)), s.live[k], k) &&
      (s.live[k] == Known <==> k.fd in s.main.agents && s.main.agents[k.fd] == k)
    else About(s.list, SockName(k)) == [] && k !in s.closing
  }

  /** A descriptor waits in one queue, or belongs to one live socket, or nobody will ever close it. */
  ghost predicate FdOk(s: State, fd: Fd) {
    About(s.list, FdName(fd)) == [] &&
    (forall t :: 0 <= t < |s.main.ioLists| ==>
      About(s.main.ioLists[t], FdName(fd)) == if fd in s.open && s.open[fd] == Pending(t) then [AcceptFd(fd)] else []) &&
    (fd in s.open && s.open[fd].Held? ==> s.open[fd].s in s.live && s.open[fd].s.fd == fd) &&
    (fd in s.open && s.open[fd].Pending? ==> s.open[fd].thread < |s.main.ioLists|) &&
    (fd in s.main.agents ==> s.main.agents[fd] in s.live && s.main.agents[fd].fd == fd && s.live[s.main.agents[fd]] == Known)
  }

  ghost predicate Inv(s: State) {
    (forall k :: SockOk(s, k)) && (forall fd :: FdOk(s, fd)) &&
    s.main.count == |s.main.agents| && s.main.current < |s.main.ioLists|
  }

  lemma AboutPush(lists: seq<seq<Package>>, t: nat, p: Package, u: nat, n: Name)
    requires t < |lists| && u < |lists|
    ensures About(Push(lists, t, p)[u], n) == About(lists[u], n) + if u == t && NameOf(p) == n then [p] else []
  {
    AboutAppend(lists[t], p, n);
  }

  lemma AboutFront(q: seq<Package>, n: Name)
    requires q != []
    ensures About(q[1..], n) == if NameOf(q[0]) == n then About(q, n)[1..] else About(q, n)
    ensures NameOf(q[0]) == n ==> About(q, n) != [] && About(q, n)[0] == q[0]
  {
  }

  lemma NoFds(s: State)
    requires Inv(s)
    ensures forall fd :: About(s.list, FdName(fd)) == []
  {
    forall fd
      ensures About(s.list, FdName(fd)) == []
    {
      assert FdOk(s, fd);
    }
  }

  /** An agent is kept under the descriptor its socket holds. */
  lemma AgentsHold(s: State)
    requires Inv(s)
    ensures forall fd <- s.main.agents :: fd in s.open && s.open[fd] == Held(s.main.agents[fd]) && s.main.agents[fd].fd == fd
    ensures forall fd <- s.main.agents :: s.main.agents[fd] in s.live && s.live[s.main.agents[fd]] == Known
  {
    forall fd | fd in s.main.agents
      ensures fd in s.open && s.open[fd] == Held(s.main.agents[fd]) && s.main.agents[fd].fd == fd
      ensures s.main.agents[fd] in s.live && s.live[s.main.agents[fd]] == Known
    {
      assert FdOk(s, fd) && SockOk(s, s.main.agents[fd]);
    }
  }

  /** The package at the front of the main thread's queue: its socket is live, and has an agent unless this announces it. */
  lemma FrontOfList(s: State)
    requires Inv(s) && s.list != []
    ensures var p := s.list[0]; (p.AcceptSock? || p.RecvBuf? || p.Close?) && p.s in s.live && p.s.thread < |s.main.ioLists|
    ensures var p := s.list[0];
      if p.AcceptSock? then s.live[p.s] == Announced && p.s.fd !in s.main.agents
      else s.live[p.s] == Known && p.s.fd in s.main.agents && s.main.agents[p.s.fd] == p.s
    ensures s.list[0].Close? ==> s.list[0].s in s.closing && About(s.list[1..], SockName(s.list[0].s)) == []
  {
    NoFds(s);
    AgentsHold(s);
    AboutFront(s.list, NameOf(s.list[0]));
    if NameOf(s.list[0]).SockName? {
      var k := NameOf(s.list[0]).s;
      assert SockOk(s, k);
    }
  }

  /** The package at the front of an IO thread's queue: its descriptor is open and waiting, or its socket is live. */
  lemma FrontOfIo(s: State, t: nat)
    requires Inv(s) && t < |s.main.ioLists| && s.main.ioLists[t] != []
    ensures var p := s.main.ioLists[t][0];
      match p
      case AcceptFd(fd) => fd in s.open && s.open[fd] == Pending(t)
      case SendBuf(k) => k in s.live && k.thread == t && s.live[k] != Announced
      case Close(k) => k in s.live && k.thread == t && s.live[k] == Released && About(s.list, SockName(k)) == []
      case AcceptSock(_) => false
      case RecvBuf(_) => false
  {
    var q := s.main.ioLists[t];
    AboutFront(q, NameOf(q[0]));
    match NameOf(q[0])
    case FdName(fd) => assert FdOk(s, fd);
    case SockName(k) => assert SockOk(s, k);
  }

  lemma AcceptKeeps(s: State, fd: Fd)
    requires Inv(s) && Enabled(s, Accept(fd)) && s.main.count < s.maxSockets
    ensures Inv(Apply(s, Accept(fd)))
  {
    var t := s.main.current;
    var s' := Apply(s, Accept(fd));
    forall k
      ensures SockOk(s', k)
    {
      assert SockOk(s, k);
      forall u | 0 <= u < |s.main.ioLists|
        ensures About(s'.main.ioLists[u], SockName(k)) == About(s.main.ioLists[u], SockName(k))
      {
        AboutPush(s.main.ioLists, t, AcceptFd(fd), u, SockName(k));
      }
    }
    forall g
      ensures FdOk(s', g)
    {
      assert FdOk(s, g);
      forall u | 0 <= u < |s.main.ioLists|
        ensures About(s'.main.ioLists[u], FdName(g)) == About(s.main.ioLists[u], FdName(g)) + if u == t && g == fd then [AcceptFd(fd)] else []
      {
        AboutPush(s.main.ioLists, t, AcceptFd(fd), u, FdName(g));
      }
    }
  }

  lemma ReceiveKeeps(s: State, k: Sock)
    requires Inv(s) && Enabled(s, Receive(k))
    ensures Inv(Apply(s, Receive(k)))
  {
    var s' := Apply(s, Receive(k));
    forall j
      ensures SockOk(s', j)
    {
      assert SockOk(s, j);
      AboutAppend(s.list, RecvBuf(k), SockName(j));
    }
    forall g
      ensures FdOk(s', g)
    {
      assert FdOk(s, g);
      AboutAppend(s.list, RecvBuf(k), FdName(g));
    }
  }

  lemma EndKeeps(s: State, k: Sock)
    requires Inv(s) && Enabled(s, End(k))
    ensures Inv(Apply(s, End(k)))
  {
    var s' := Apply(s, End(k));
    forall j
      ensures SockOk(s', j)
    {
      assert SockOk(s, j);
      AboutAppend(s.list, Close(k), SockName(j));
    }
    forall g
      ensures FdOk(s', g)
    {
      assert FdOk(s, g);
      AboutAppend(s.list, Close(k), FdName(g));
    }
  }

  lemma MainAcceptKeeps(s: State)
    requires Inv(s) && Enabled(s, MainPop) && s.list[0].AcceptSock?
    ensures Inv(Apply(s, MainPop))
  {
    FrontOfList(s);
    var k := s.list[0].s;
    var s' := Apply(s, MainPop);
    assert s'.main.agents == s.main.agents[k.fd := k];
    forall j
      ensures SockOk(s', j)
    {
      assert SockOk(s, j);
      AboutFront(s.list, SockName(j));
      if j != k && j in s.live {
        assert s.open[j.fd] == Held(j);
      }
    }
    assert SockOk(s, k);
    forall g
      ensures FdOk(s', g)
    {
      assert FdOk(s, g);
      AboutFront(s.list, FdName(g));
    }
  }

  lemma MainRecvKeeps(s: State)
    requires Inv(s) && Enabled(s, MainPop) && s.list[0].RecvBuf?
    ensures Inv(Apply(s, MainPop))
  {
    FrontOfList(s);
    var s' := Apply(s, MainPop);
    forall j
      ensures SockOk(s', j)
    {
      assert SockOk(s, j);
      AboutFront(s.list, SockName(j));
    }
    forall g
      ensures FdOk(s', g)
    {
      assert FdOk(s, g);
      AboutFront(s.list, FdName(g));
    }
  }

  lemma MainCloseKeeps(s: State)
    requires Inv(s) && Enabled(s, MainPop) && s.list[0].Close?
    ensures Inv(Apply(s, MainPop))
  {
    FrontOfList(s);
    var k := s.list[0].s;
    var s' := Apply(s, MainPop);
    assert |s'.main.agents| == |s.main.agents| - 1 by {
      assert s'.main.agents.Keys == s.main.agents.Keys - {k.fd};
      assert |s.main.agents.Keys| == |s.main.agents| && |s'.main.agents.Keys| == |s'.main.agents|;
    }
    hide SockOk, FdOk;
    MainCloseSocks(s);
    MainCloseFds(s);
  }

  lemma MainCloseSocks(s: State)
    requires Inv(s) && Enabled(s, MainPop) && s.list[0].Close?
    ensures forall j :: SockOk(Apply(s, MainPop), j)
  {
    hide Apply, Inv, SockOk;
    forall j
      ensures SockOk(Apply(s, MainPop), j)
    {
      if j == s.list[0].s {
        MainCloseSelf(s);
      } else {
        MainCloseOther(s, j);
      }
    }
  }

  lemma MainCloseSelf(s: State)
    requires Inv(s) && Enabled(s, MainPop) && s.list[0].Close?
    ensures SockOk(Apply(s, MainPop), s.list[0].s)
  {
    FrontOfList(s);
    var k := s.list[0].s;
    var s' := Apply(s, MainPop);
    assert SockOk(s, k);
    hide Inv, FdOk;
    AboutFront(s.list, SockName(k));
    forall u | 0 <= u < |s.main.ioLists|
      ensures About(s'.main.ioLists[u], SockName(k)) == About(s.main.ioLists[u], SockName(k)) + if u == k.thread then [Close(k)] else []
    {
      AboutPush(s.main.ioLists, k.thread, Close(k), u, SockName(k));
    }
    var q := About(s.main.ioLists[k.thread], SockName(k));
    assert (q + [Close(k)])[..|q|] == q;
  }

  lemma MainCloseOther(s: State, j: Sock)
    requires Inv(s) && Enabled(s, MainPop) && s.list[0].Close? && j != s.list[0].s
    ensures SockOk(Apply(s, MainPop), j)
  {
    FrontOfList(s);
    AgentsHold(s);
    var k := s.list[0].s;
    var s' := Apply(s, MainPop);
    assert SockOk(s, k) && SockOk(s, j);
    hide Inv, FdOk;
    AboutFront(s.list, SockName(j));
    forall u | 0 <= u < |s.main.ioLists|
      ensures About(s'.main.ioLists[u], SockName(j)) == About(s.main.ioLists[u], SockName(j))
    {
      AboutPush(s.main.ioLists, k.thread, Close(k), u, SockName(j));
    }
  }

  lemma MainCloseFds(s: State)
    requires Inv(s) && Enabled(s, MainPop) && s.list[0].Close?
    ensures forall g :: FdOk(Apply(s, MainPop), g)
  {
    FrontOfList(s);
    AgentsHold(s);
    var k := s.list[0].s;
    var s' := Apply(s, MainPop);
    forall g
      ensures FdOk(s', g)
    {
      assert FdOk(s, g);
      AboutFront(s.list, FdName(g));
      forall u | 0 <= u < |s.main.ioLists|
        ensures About(s'.main.ioLists[u], FdName(g)) == About(s.main.ioLists[u], FdName(g))
      {
        AboutPush(s.main.ioLists, k.thread, Close(k), u, FdName(g));
      }
    }
  }

  lemma MainSendKeeps(s: State, fd: Fd)
    requires Inv(s) && Enabled(s, MainSend(fd))
    ensures Inv(Apply(s, MainSend(fd)))
  {
    hide SockOk, FdOk;
    forall j
      ensures SockOk(Apply(s, MainSend(fd)), j)
    {
      MainSendSock(s, fd, j);
    }
    forall g
      ensures FdOk(Apply(s, MainSend(fd)), g)
    {
      MainSendFd(s, fd, g);
    }
  }

  lemma MainSendSock(s: State, fd: Fd, j: Sock)
    requires Inv(s) && Enabled(s, MainSend(fd))
    ensures SockOk(Apply(s, MainSend(fd)), j)
  {
    AgentsHold(s);
    var k := s.main.agents[fd];
    var s' := Apply(s, MainSend(fd));
    assert SockOk(s, j);
    hide Inv, FdOk, Apply;
    forall u | 0 <= u < |s.main.ioLists|
      ensures About(s'.main.ioLists[u], SockName(j)) == About(s.main.ioLists[u], SockName(j)) + if u == k.thread && j == k then [SendBuf(k)] else []
    {
      AboutPush(s.main.ioLists, k.thread, SendBuf(k), u, SockName(j));
    }
  }

  lemma MainSendFd(s: State, fd: Fd, g: Fd)
    requires Inv(s) && Enabled(s, MainSend(fd))
    ensures FdOk(Apply(s, MainSend(fd)), g)
  {
    var k := s.main.agents[fd];
    assert FdOk(s, g);
    hide Inv, SockOk;
    forall u | 0 <= u < |s.main.ioLists|
      ensures About(Apply(s, MainSend(fd)).main.ioLists[u], FdName(g)) == About(s.main.ioLists[u], FdName(g))
    {
      AboutPush(s.main.ioLists, k.thread, SendBuf(k), u, FdName(g));
    }
  }

  /** What an IO thread's queue keeps after its front package. */
  lemma IoRest(s: State, t: nat, u: nat, n: Name)
    requires t < |s.main.ioLists| && u < |s.main.ioLists| && s.main.ioLists[t] != []
    ensures var rest := s.main.ioLists[t := s.main.ioLists[t][1..]];
      About(rest[u], n) == (if u == t && NameOf(s.main.ioLists[t][0]) == n then About(s.main.ioLists[u], n)[1..] else About(s.main.ioLists[u], n))
    ensures NameOf(s.main.ioLists[t][0]) == n ==> About(s.main.ioLists[t], n) != [] && About(s.main.ioLists[t], n)[0] == s.main.ioLists[t][0]
  {
    AboutFront(s.main.ioLists[t], n);
  }

  lemma IoAcceptKeeps(s: State, t: nat, addr: nat, bevOk: bool)
    requires Inv(s) && Enabled(s, IoPop(t, addr, bevOk)) && s.main.ioLists[t][0].AcceptFd?
    ensures Inv(Apply(s, IoPop(t, addr, bevOk)))
  {
    FrontOfIo(s, t);
    AgentsHold(s);
    var fd := s.main.ioLists[t][0].fd;
    var k := Sock(addr, fd, t);
    var s' := Apply(s, IoPop(t, addr, bevOk));
    forall j
      ensures SockOk(s', j)
    {
      assert SockOk(s, j);
      AboutAppend(s.list, AcceptSock(k), SockName(j));
      forall u | 0 <= u < |s.main.ioLists|
        ensures About(s'.main.ioLists[u], SockName(j)) == About(s.main.ioLists[u], SockName(j))
      {
        IoRest(s, t, u, SockName(j));
      }
    }
    forall g
      ensures FdOk(s', g)
    {
      assert FdOk(s, g);
      AboutAppend(s.list, AcceptSock(k), FdName(g));
      forall u | 0 <= u < |s.main.ioLists|
        ensures About(s'.main.ioLists[u], FdName(g)) == (if u == t && g == fd then [] else About(s.main.ioLists[u], FdName(g)))
      {
        IoRest(s, t, u, FdName(g));
      }
    }
  }

  lemma IoSendKeeps(s: State, t: nat, addr: nat, bevOk: bool)
    requires Inv(s) && Enabled(s, IoPop(t, addr, bevOk)) && s.main.ioLists[t][0].SendBuf?
    ensures Inv(Apply(s, IoPop(t, addr, bevOk)))
  {
    hide SockOk, FdOk;
    forall j
      ensures SockOk(Apply(s, IoPop(t, addr, bevOk)), j)
    {
      IoSendSock(s, t, addr, bevOk, j);
    }
    forall g
      ensures FdOk(Apply(s, IoPop(t, addr, bevOk)), g)
    {
      IoSendFd(s, t, addr, bevOk, g);
    }
  }

  lemma IoSendSock(s: State, t: nat, addr: nat, bevOk: bool, j: Sock)
    requires Inv(s) && Enabled(s, IoPop(t, addr, bevOk)) && s.main.ioLists[t][0].SendBuf?
    ensures SockOk(Apply(s, IoPop(t, addr, bevOk)), j)
  {
    FrontOfIo(s, t);
    var k := s.main.ioLists[t][0].s;
    var s' := Apply(s, IoPop(t, addr, bevOk));
    assert SockOk(s, j);
    hide Inv, FdOk, Apply;
    forall u | 0 <= u < |s.main.ioLists|
      ensures About(s'.main.ioLists[u], SockName(j)) ==
              (if u == t && j == k then About(s.main.ioLists[u], SockName(j))[1..] else About(s.main.ioLists[u], SockName(j)))
    {
      IoRest(s, t, u, SockName(j));
    }
  }

  lemma IoSendFd(s: State, t: nat, addr: nat, bevOk: bool, g: Fd)
    requires Inv(s) && Enabled(s, IoPop(t, addr, bevOk)) && s.main.ioLists[t][0].SendBuf?
    ensures FdOk(Apply(s, IoPop(t, addr, bevOk)), g)
  {
    assert FdOk(s, g);
    hide Inv, SockOk;
    var s' := Apply(s, IoPop(t, addr, bevOk));
    forall u | 0 <= u < |s.main.ioLists|
      ensures About(s'.main.ioLists[u], FdName(g)) == About(s.main.ioLists[u], FdName(g))
    {
      IoRest(s, t, u, FdName(g));
    }
  }

  lemma BeforeLast(q: seq<Package>, p: Package, last: Package)
    requires EndsWith(q, p, last, true)
    ensures q != [] && forall i :: 0 <= i < |q| - 1 ==> q[i] == p
  {
    assert forall i :: 0 <= i < |q| - 1 ==> q[i] == q[..|q| - 1][i];
  }

  /** The deletion of a socket is the last its IO thread hears of it. */
  lemma CloseIsLast(q: seq<Package>, k: Sock)
    requires IoShape(q, Released, k) && q[0] == Close(k)
    ensures q[1..] == []
  {
    BeforeLast(q, SendBuf(k), Close(k));
  }

  lemma IoCloseKeeps(s: State, t: nat, addr: nat, bevOk: bool)
    requires Inv(s) && Enabled(s, IoPop(t, addr, bevOk)) && s.main.ioLists[t][0].Close?
    ensures Inv(Apply(s, IoPop(t, addr, bevOk)))
  {
    FrontOfIo(s, t);
    AgentsHold(s);
    var k := s.main.ioLists[t][0].s;
    assert SockOk(s, k);
    var s' := Apply(s, IoPop(t, addr, bevOk));
    IoRest(s, t, t, SockName(k));
    CloseIsLast(About(s.main.ioLists[t], SockName(k)), k);
    forall j
      ensures SockOk(s', j)
    {
      assert SockOk(s, j);
      forall u | 0 <= u < |s.main.ioLists|
        ensures About(s'.main.ioLists[u], SockName(j)) == (if u == t && j == k then [] else About(s.main.ioLists[u], SockName(j)))
      {
        IoRest(s, t, u, SockName(j));
      }
    }
    forall g
      ensures FdOk(s', g)
    {
      assert FdOk(s, g);
      forall u | 0 <= u < |s.main.ioLists|
        ensures About(s'.main.ioLists[u], FdName(g)) == About(s.main.ioLists[u], FdName(g))
      {
        IoRest(s, t, u, FdName(g));
      }
    }
  }

  /** No connections, one empty queue per IO thread. */
  function Initial(threads: nat, maxSockets: int): State {
    State(MainThread(map[], 0, seq(threads, _ => []), 0), [], map[], map[], {}, maxSockets)
  }

  lemma InitialInv(threads: nat, maxSockets: int)
    requires threads > 0
    ensures Inv(Initial(threads, maxSockets))
  {
  }

  lemma StepKeeps(s: State, step: Step)
    requires Inv(s) && Enabled(s, step)
    ensures Inv(Apply(s, step))
  {
    hide Inv;
    match step
    case Accept(fd) =>
      if s.main.count < s.maxSockets {
        AcceptKeeps(s, fd);
      }
    case IoPop(t, addr, bevOk) =>
      if s.main.ioLists[t][0].AcceptFd? {
        IoAcceptKeeps(s, t, addr, bevOk);
      } else if s.main.ioLists[t][0].SendBuf? {
        IoSendKeeps(s, t, addr, bevOk);
      } else {
        IoCloseKeeps(s, t, addr, bevOk);
      }
    case Receive(k) => ReceiveKeeps(s, k);
    case End(k) => EndKeeps(s, k);
    case MainPop =>
      if s.list[0].AcceptSock? {
        MainAcceptKeeps(s);
      } else if s.list[0].RecvBuf? {
        MainRecvKeeps(s);
      } else {
        MainCloseKeeps(s);
      }
    case MainSend(fd) => MainSendKeeps(s, fd);
  }

  /** The steps can be taken one after the other from `s`. */
  ghost predicate CanRun(s: State, steps: seq<Step>)
    decreases |steps|
  {
    steps != [] ==> Possible(s, steps[0]) && CanRun(Apply(s, steps[0]), steps[1..])
  }

  function After(s: State, steps: seq<Step>): State
    requires CanRun(s, steps)
    decreases |steps|
  {
    if steps == [] then s else After(Apply(s, steps[0]), steps[1..])
  }

  ghost predicate Orderly(s: State, steps: seq<Step>)
    requires CanRun(s, steps)
    decreases |steps|
  {
    steps != [] ==> BeforeEnd(s, steps[0]) && Orderly(Apply(s, steps[0]), steps[1..])
  }

  lemma OneStep(s: State, step: Step)
    requires Possible(s, step)
    ensures CanRun(s, [step]) && After(s, [step]) == Apply(s, step) && (BeforeEnd(s, step) ==> Orderly(s, [step]))
  {
    hide Apply, Possible;
    assert [step][1..] == [];
    assert After(Apply(s, step), []) == Apply(s, step);
  }

  lemma {:induction false} Joined(s: State, a: seq<Step>, b: seq<Step>)
    requires CanRun(s, a) && CanRun(After(s, a), b)
    ensures CanRun(s, a + b) && After(s, a + b) == After(After(s, a), b)
    ensures Orderly(s, a) && Orderly(After(s, a), b) ==> Orderly(s, a + b)
    decreases |a|
  {
    hide Apply, Possible, BeforeEnd;
    if a == [] {
      assert a + b == b;
    } else {
      assert (a + b)[0] == a[0] && (a + b)[1..] == a[1..] + b;
      Joined(Apply(s, a[0]), a[1..], b);
    }
  }

  lemma {:induction false} RunKeeps(s: State, steps: seq<Step>)
    requires Inv(s) && CanRun(s, steps) && Orderly(s, steps)
    ensures Inv(After(s, steps))
    decreases |steps|
  {
    hide Inv, Apply, Possible, BeforeEnd;
    if steps != [] {
      StepKeeps(s, steps[0]);
      RunKeeps(Apply(s, steps[0]), steps[1..]);
    }
  }

  /** A queued package that names a socket names a live one, and a queued descriptor is open. */
  ghost predicate NamesLive(s: State, p: Package) {
    if p.AcceptFd? then p.fd in s.open else p.s in s.live
  }

  lemma QueuedIsLive(s: State, p: Package)
    requires Inv(s) && (p in s.list || exists t :: 0 <= t < |s.main.ioLists| && p in s.main.ioLists[t])
    ensures NamesLive(s, p)
  {
    if p in s.list {
      AboutIn(s.list, p);
    } else {
      var t :| 0 <= t < |s.main.ioLists| && p in s.main.ioLists[t];
      AboutIn(s.main.ioLists[t], p);
    }
    if p.AcceptFd? {
      assert FdOk(s, p.fd);
    } else {
      assert SockOk(s, p.s);
    }
  }

  /** In every run in which a socket raises its end at most once and receives nothing after it: the count is the number
      of agents; every queued package names something that still exists; an announced socket meets no old agent under
      its descriptor, however descriptors and addresses are used again; and what a socket reports finds its agent. */
  lemma Safe(steps: seq<Step>, threads: nat, maxSockets: int)
    requires threads > 0 && CanRun(Initial(threads, maxSockets), steps) && Orderly(Initial(threads, maxSockets), steps)
    ensures var s := After(Initial(threads, maxSockets), steps);
      s.main.count == |s.main.agents| &&
      (forall p <- s.list :: NamesLive(s, p)) &&
      (forall t, p :: 0 <= t < |s.main.ioLists| && p in s.main.ioLists[t] ==> NamesLive(s, p)) &&
      (s.list != [] ==>
        var p := s.list[0];
        !p.AcceptFd? && if p.AcceptSock? then p.s.fd !in s.main.agents
                        else p.s.fd in s.main.agents && s.main.agents[p.s.fd] == p.s)
  {
    hide Possible, Apply, Inv, NamesLive, CanRun, After, Orderly;
    InitialInv(threads, maxSockets);
    RunKeeps(Initial(threads, maxSockets), steps);
    StateSafe(After(Initial(threads, maxSockets), steps));
  }

  lemma StateSafe(s: State)
    requires Inv(s)
    ensures s.main.count == |s.main.agents|
    ensures forall p :: p in s.list ==> NamesLive(s, p)
    ensures forall t, p :: 0 <= t < |s.main.ioLists| && p in s.main.ioLists[t] ==> NamesLive(s, p)
    ensures s.list != [] ==>
      var p := s.list[0];
      !p.AcceptFd? && if p.AcceptSock? then p.s.fd !in s.main.agents
                      else p.s.fd in s.main.agents && s.main.agents[p.s.fd] == p.s
  {
    forall p | p in s.list
      ensures NamesLive(s, p)
    {
      QueuedIsLive(s, p);
    }
    forall t, p | 0 <= t < |s.main.ioLists| && p in s.main.ioLists[t]
      ensures NamesLive(s, p)
    {
      QueuedIsLive(s, p);
    }
    if s.list != [] {
      FrontOfList(s);
    }
  }

  /** Once all queues are empty every live socket has its agent, and only those and descriptors whose bufferevent could
      not be made are still open. */
  lemma Quiescent(s: State)
    requires Inv(s) && s.list == [] && forall t :: 0 <= t < |s.main.ioLists| ==> s.main.ioLists[t] == []
    ensures forall k <- s.live :: k.fd in s.main.agents && s.main.agents[k.fd] == k && k !in s.closing
    ensures forall fd <- s.open :: s.open[fd] == Leaked || (fd in s.main.agents && s.open[fd] == Held(s.main.agents[fd]))
  {
    forall k | k in s.live
      ensures k.fd in s.main.agents && s.main.agents[k.fd] == k && k !in s.closing
    {
      assert SockOk(s, k);
      assert About(s.main.ioLists[k.thread], SockName(k)) == [];
    }
    forall fd | fd in s.open
      ensures s.open[fd] == Leaked || (fd in s.main.agents && s.open[fd] == Held(s.main.agents[fd]))
    {
      assert FdOk(s, fd);
    }
  }

  /** The main thread can handle the package: what is received has an agent, without which the source would
      dereference a null pointer. */
  predicate Ready(m: MainThread, p: Package) {
    (p.AcceptSock? || p.RecvBuf? || p.Close?) && p.s.thread < |m.ioLists| && (p.RecvBuf? ==> p.s.fd in m.agents)
  }

  predicate ReadyAll(m: MainThread, ps: seq<Package>)
    decreases |ps|
  {
    ps == [] || (Ready(m, ps[0]) && ReadyAll(Handle(m, ps[0]), ps[1..]))
  }

  function HandleAll(m: MainThread, ps: seq<Package>): MainThread
    requires ReadyAll(m, ps)
    decreases |ps|
  {
    if ps == [] then m else HandleAll(Handle(m, ps[0]), ps[1..])
  }

  lemma {:induction false} HandleMore(m: MainThread, ps: seq<Package>, i: nat)
    requires ReadyAll(m, ps) && i <= |ps|
    ensures ReadyAll(m, ps[..i])
    ensures ReadyAll(HandleAll(m, ps[..i]), ps[i..])
    ensures i < |ps| ==> ReadyAll(m, ps[..i + 1]) && HandleAll(m, ps[..i + 1]) == Handle(HandleAll(m, ps[..i]), ps[i])
    decreases |ps|
  {
    if i == 0 {
      assert ps[0..] == ps;
      if ps != [] {
        assert ps[..1][1..] == [];
      }
    } else {
      HandleMore(Handle(m, ps[0]), ps[1..], i - 1);
      assert ps[..i][1..] == ps[1..][..i - 1] && ps[i..] == ps[1..][i - 1..];
      if i < |ps| {
        assert ps[..i + 1][1..] == ps[1..][..i];
      }
    }
  }

  /** All that waits in the main thread's queue can be handled, in any reachable state. */
  lemma {:induction false} BatchReady(s: State)
    requires Inv(s)
    ensures ReadyAll(s.main, s.list)
    decreases |s.list|
  {
    if s.list != [] {
      FrontOfList(s);
      StepKeeps(s, MainPop);
      BatchReady(Apply(s, MainPop));
    }
  }

  /** As many steps of the main thread. */
  function Pops(n: nat): seq<Step> {
    if n == 0 then [] else [MainPop] + Pops(n - 1)
  }

  /** Handling a batch is that many steps of the main thread. */
  lemma {:induction false} BatchIsSteps(s: State, n: nat)
    requires Inv(s) && n <= |s.list|
    ensures ReadyAll(s.main, s.list[..n]) && CanRun(s, Pops(n)) && Orderly(s, Pops(n))
    ensures var s' := After(s, Pops(n));
      s'.main == HandleAll(s.main, s.list[..n]) && s'.list == s.list[n..] && Inv(s') && s'.closing == s.closing && s.live.Keys <= s'.live.Keys
    decreases n
  {
    hide Inv;
    if n > 0 {
      FrontOfList(s);
      StepKeeps(s, MainPop);
      BatchReady(s);
      HandleMore(s.main, s.list, n);
      var s1 := Apply(s, MainPop);
      BatchIsSteps(s1, n - 1);
      assert s.list[..n][1..] == s.list[1..][..n - 1] && s.list[n..] == s.list[1..][n - 1..];
      assert Pops(n)[0] == MainPop && Pops(n)[1..] == Pops(n - 1);
    }
  }

  /** The main thread handles its whole queue: it never looks for an agent in vain, and its count is right at the end. */
  predicate Drains(s: State) {
    ReadyAll(s.main, s.list) && var m := HandleAll(s.main, s.list); m.count == |m.agents|
  }

  /** A reachable state, and what the main thread has when its queue is empty. */
  lemma Drained(s: State) returns (s': State)
    requires Inv(s)
    ensures ReadyAll(s.main, s.list) && s'.main == HandleAll(s.main, s.list) && s'.list == [] && Inv(s')
    ensures s'.closing == s.closing && s.live.Keys <= s'.live.Keys && Drains(s)
  {
    hide Inv;
    var n := |s.list|;
    assert s.list[..n] == s.list && s.list[n..] == [];
    BatchReady(s);
    BatchIsSteps(s, n);
    s' := After(s, Pops(n));
    StateSafe(s');
  }

  /** A live socket that has raised its end is gone for the main thread once its queue is empty: anything it then receives
      finds no agent, for which the source dereferences a null pointer; and another end makes the count one less than
      the agents there are, and sends the socket back for deletion a second time. */
  lemma Ended(s: State, k: Sock)
    requires Inv(s) && k in s.live && k in s.closing
    ensures ReadyAll(s.main, s.list)
    ensures var m := HandleAll(s.main, s.list);
      k.fd !in m.agents && !Ready(m, RecvBuf(k)) && Ready(m, Close(k)) && Close(k) in m.ioLists[k.thread] &&
      var m' := Handle(m, Close(k));
      m'.count == |m'.agents| - 1 && m'.ioLists[k.thread] == m.ioLists[k.thread] + [Close(k)]
  {
    var s' := Drained(s);
    AgentsHold(s');
    assert SockOk(s', k);
    assert s'.live[k] == Released;
    AboutIn(s'.main.ioLists[k.thread], Close(k));
    assert s'.main.agents - {k.fd} == s'.main.agents;
  }

  lemma {:induction false} HandleLast(m: MainThread, ps: seq<Package>, p: Package)
    requires ReadyAll(m, ps)
    ensures ReadyAll(m, ps + [p]) <==> Ready(HandleAll(m, ps), p)
    ensures Ready(HandleAll(m, ps), p) ==> HandleAll(m, ps + [p]) == Handle(HandleAll(m, ps), p)
    decreases |ps|
  {
    hide Handle;
    if ps == [] {
      assert ps + [p] == [p] && [p][1..] == [];
    } else {
      assert (ps + [p])[0] == ps[0] && (ps + [p])[1..] == ps[1..] + [p];
      HandleLast(Handle(m, ps[0]), ps[1..], p);
    }
  }

  /** After a report of a socket that has raised its end the main thread cannot handle its queue as it should. */
  lemma LateReport(s: State, step: Step)
    requires Inv(s) && Possible(s, step) && !BeforeEnd(s, step)
    ensures !Drains(Apply(s, step))
  {
    hide Inv, Ready, Handle, HandleAll, ReadyAll;
    Ended(s, step.s);
    HandleLast(s.main, s.list, if step.Receive? then RecvBuf(step.s) else Close(step.s));
  }

  /** Along the steps, in each state. */
  ghost predicate AllDrain(s: State, steps: seq<Step>)
    requires CanRun(s, steps)
    decreases |steps|
  {
    Drains(s) && (steps != [] ==> AllDrain(Apply(s, steps[0]), steps[1..]))
  }

  /** Every run: the main thread can handle what is queued in each of its states, with the right count, if and only if no
      socket reports anything after its end. */
  lemma {:induction false} OrderlyOnly(s: State, steps: seq<Step>)
    requires Inv(s) && CanRun(s, steps)
    ensures Orderly(s, steps) <==> AllDrain(s, steps)
    decreases |steps|
  {
    hide Inv, Apply, Possible, BeforeEnd, Drains;
    var _ := Drained(s);
    if steps != [] {
      if BeforeEnd(s, steps[0]) {
        StepKeeps(s, steps[0]);
        OrderlyOnly(Apply(s, steps[0]), steps[1..]);
      } else {
        LateReport(s, steps[0]);
        assert !Drains(Apply(s, steps[0]));
      }
    }
  }

  /** A run that gets there: a connection has come in and raised its end, and is not deleted yet. */
  lemma EndedRun(fd: Fd, addr: nat, maxSockets: int) returns (steps: seq<Step>)
    requires maxSockets > 0
    ensures CanRun(Initial(1, maxSockets), steps) && Orderly(Initial(1, maxSockets), steps)
    ensures var s := After(Initial(1, maxSockets), steps);
      var k := Sock(addr, fd, 0);
      Possible(s, Receive(k)) && Possible(s, End(k)) && k in s.closing && s.list == [Close(k)] &&
      s.main.count == 1 && s.main.ioLists == [[]] && s.main.current == 0 && s.maxSockets == maxSockets && s.open.Keys == {fd}
  {
    hide CanRun, After, Orderly;
    var k := Sock(addr, fd, 0);
    var s0 := Initial(1, maxSockets);
    assert s0.main.ioLists == [[]];
    OneStep(s0, Accept(fd));
    var s1 := Apply(s0, Accept(fd));
    assert |s1.main.ioLists| == 1 && s1.main.ioLists[0] == [AcceptFd(fd)];
    OneStep(s1, IoPop(0, addr, true));
    var s2 := Apply(s1, IoPop(0, addr, true));
    assert s2.list == [AcceptSock(k)] && |s2.main.ioLists| == 1 && s2.main.ioLists[0] == [];
    OneStep(s2, MainPop);
    var s3 := Apply(s2, MainPop);
    assert s3.list == [] && s3.main.ioLists == s2.main.ioLists == [[]] && s3.open.Keys == {fd};
    OneStep(s3, End(k));
    Joined(s2, [MainPop], [End(k)]);
    Joined(s1, [IoPop(0, addr, true)], [MainPop] + [End(k)]);
    Joined(s0, [Accept(fd)], [IoPop(0, addr, true)] + ([MainPop] + [End(k)]));
    steps := [Accept(fd)] + ([IoPop(0, addr, true)] + ([MainPop] + [End(k)]));
  }

  // ---- The threads take turns ----

  function AdmitAll(m: MainThread, maxSockets: int, fds: seq<Fd>): MainThread
    decreases |fds|
  {
    if fds == [] then m else AdmitAll(Admit(m, maxSockets, fds[0]), maxSockets, fds[1..])
  }

  /** Those descriptors whose number, counted from `first`, leaves the remainder `t`. */
  function Turns(fds: seq<Fd>, first: nat, threads: nat, t: nat): seq<Package>
    requires threads > 0
  {
    if fds == [] then []
    else (if first % threads == t then [AcceptFd(fds[0])] else []) + Turns(fds[1..], first + 1, threads, t)
  }

  lemma {:induction false} TurnsAround(fds: seq<Fd>, first: nat, threads: nat, t: nat)
    requires threads > 0 && first >= threads
    ensures Turns(fds, first, threads, t) == Turns(fds, first - threads, threads, t)
  {
    OneRoundLess(first, threads);
    if fds != [] {
      TurnsAround(fds[1..], first + 1, threads, t);
    }
  }

  lemma OneRoundLess(k: nat, n: nat)
    requires 0 < n <= k
    ensures k % n == (k - n) % n
  {
    var q, r := (k - n) / n, (k - n) % n;
    Division(k - n, n);
    OneMore(n, q);
    RemainderIs(k, n, q + 1, r);
  }

  lemma Division(x: nat, n: nat)
    requires n > 0
    ensures x == n * (x / n) + x % n
  {
  }

  lemma OneMore(n: nat, q: nat)
    ensures n * (q + 1) == n * q + n
  {
  }

  lemma RemainderIs(x: nat, n: nat, q: nat, r: nat)
    requires r < n && x == n * q + r
    ensures x % n == r
  {
    Division(x, n);
    var p := x / n;
    if p > q {
      FarApart(n, p, q);
    } else if q > p {
      FarApart(n, q, p);
    }
  }

  lemma FarApart(n: nat, p: nat, q: nat)
    requires p > q
    ensures n * p >= n * q + n
  {
    assert n * (p - q) >= n * 1 by {
      AtLeast(p - q, n);
    }
    assert n * p == n * q + n * (p - q);
  }

  lemma AtLeast(k: nat, n: nat)
    requires k >= 1
    ensures n * k >= n
  {
  }

  lemma TurnStep(fds: seq<Fd>, current: nat, threads: nat, t: nat)
    requires current < threads && t < threads && fds != []
    ensures var next := if current + 1 >= threads then 0 else current + 1;
      Turns(fds, current, threads, t) ==
        (if current == t then [AcceptFd(fds[0])] else []) + Turns(fds[1..], next, threads, t) &&
      (next + |fds[1..]|) % threads == (current + |fds|) % threads
  {
    Small(current, threads);
    if current + 1 >= threads {
      hide Turns;
      TurnsAround(fds[1..], current + 1, threads, t);
      OneRoundLess(current + |fds|, threads);
    }
  }

  lemma Small(k: nat, n: nat)
    requires k < n
    ensures k % n == k
  {
  }

  /** Descriptors accepted one after the other, with room for them, go to the threads in turn: the one with the number i to
      the thread (current + i) % threads, each thread's in the order of acceptance. */
  lemma {:induction false} InTurn(m: MainThread, maxSockets: int, fds: seq<Fd>, t: nat)
    requires m.count < maxSockets && m.current < |m.ioLists| && t < |m.ioLists|
    ensures var r := AdmitAll(m, maxSockets, fds);
      r.agents == m.agents && r.count == m.count && |r.ioLists| == |m.ioLists| &&
      r.current == (m.current + |fds|) % |m.ioLists| &&
      r.ioLists[t] == m.ioLists[t] + Turns(fds, m.current, |m.ioLists|, t)
    decreases |fds|
  {
    if fds == [] {
      Small(m.current, |m.ioLists|);
    } else {
      TurnStep(fds, m.current, |m.ioLists|, t);
      hide Turns;
      InTurn(Admit(m, maxSockets, fds[0]), maxSockets, fds[1..], t);
    }
  }

  /** No turn comes twice within one round. */
  lemma {:induction false} TurnOnce(fds: seq<Fd>, first: nat, threads: nat, i: nat)
    requires i < |fds| <= threads
    ensures Turns(fds, first, threads, (first + i) % threads) == [AcceptFd(fds[i])]
    decreases |fds|
  {
    if i == 0 {
      NoTurn(fds[1..], first, 1, threads);
    } else {
      OtherTurn(first, i, threads);
      TurnOnce(fds[1..], first + 1, threads, i - 1);
    }
  }

  lemma {:induction false} NoTurn(fds: seq<Fd>, first: nat, i: nat, threads: nat)
    requires 0 < i && i + |fds| <= threads
    ensures Turns(fds, first + i, threads, first % threads) == []
    decreases |fds|
  {
    if fds != [] {
      OtherTurn(first, i, threads);
      NoTurn(fds[1..], first, i + 1, threads);
    }
  }

  lemma OtherTurn(first: nat, j: nat, threads: nat)
    requires 0 < j < threads
    ensures first % threads != (first + j) % threads
  {
    Division(first, threads);
    Division(first + j, threads);
    var p, q := first / threads, (first + j) / threads;
    if p > q {
      FarApart(threads, p, q);
    } else if q > p {
      FarApart(threads, q, p);
    }
  }

  /** As many descriptors as there are threads: one each, and the first thread is the next again. */
  lemma OneEach(m: MainThread, maxSockets: int, fds: seq<Fd>, i: nat)
    requires m.count < maxSockets && m.current < |m.ioLists| == |fds| && i < |fds|
    ensures var r, t := AdmitAll(m, maxSockets, fds), (m.current + i) % |fds|;
      r.current == m.current && |r.ioLists| == |fds| && r.ioLists[t] == m.ioLists[t] + [AcceptFd(fds[i])]
  {
    hide Turns, AdmitAll;
    InTurn(m, maxSockets, fds, (m.current + i) % |fds|);
    TurnOnce(fds, m.current, |fds|, i);
    OneRoundLess(m.current + |fds|, |fds|);
    Small(m.current, |fds|);
  }

  /** The server's main thread as a class. */
  class ServerSocket {
    var list: seq<Package>
    var agents: map<Fd, Sock>
    var nowSocketCount: int
    var maxSockets: int
    var ioLists: seq<seq<Package>>
    var currentThread: nat
    var pairDealCount: int

    constructor (threads: nat)
      requires threads > 0
      ensures Now() == Initial(threads, 5000).main && list == [] && maxSockets == 5000 && pairDealCount == 300
    {
      list, agents, nowSocketCount, maxSockets := [], map[], 0, 5000;
      ioLists, currentThread, pairDealCount := seq(threads, _ => []), 0, 300;
    }

    function Now(): MainThread
      reads this`agents, this`nowSocketCount, this`ioLists, this`currentThread
    {
      MainThread(agents, nowSocketCount, ioLists, currentThread)
    }

    /** acceptCallback; `taken` is false when the descriptor is closed again. */
    method AcceptCallback(clientfd: Fd) returns (taken: bool)
      requires currentThread < |ioLists|
      modifies this`ioLists, this`currentThread
      ensures Now() == Admit(old(Now()), maxSockets, clientfd) && (taken <==> nowSocketCount < maxSockets)
      ensures currentThread < |ioLists| == |old(ioLists)|
    {
      if nowSocketCount >= maxSockets {
        return false;
      }
      ioLists := ioLists[currentThread := ioLists[currentThread] + [AcceptFd(clientfd)]];
      currentThread := currentThread + 1;
      if currentThread >= |ioLists| {
        currentThread := 0;
      }
      return true;
    }

    /** getAgent and deleteAgent */
    predicate HasAgent(s: Sock)
      reads this
    {
      s.fd in agents
    }

    method DeleteAgent(s: Sock)
      modifies this`agents
      ensures agents == old(agents) - {s.fd}
    {
      if s.fd in agents {
        agents := agents - {s.fd};
      } else {
        assert agents - {s.fd} == agents;
      }
    }

    /** The body of pairCallback's loop. */
    method Deal(p: Package)
      requires Ready(Now(), p)
      modifies this`agents, this`nowSocketCount, this`ioLists
      ensures Now() == Handle(old(Now()), p)
    {
      match p {
        case AcceptSock(s) =>
          if !HasAgent(s) {
            nowSocketCount := nowSocketCount + 1;
            agents := agents[s.fd := s];
          }
        case RecvBuf(s) =>
        case Close(s) =>
          nowSocketCount := nowSocketCount - 1;
          DeleteAgent(s);
          ioLists := ioLists[s.thread := ioLists[s.thread] + [Close(s)]];
      }
    }

    /** pairCallback; before its round `i` looks at the queue, the packages `arrivals[i]` come in. `again` says that it
        wakes itself up. */
    method PairCallback(arrivals: seq<seq<Package>>) returns (n: nat, ghost rounds: nat, again: bool)
      requires |arrivals| == if pairDealCount < 0 then 0 else pairDealCount + 1
      requires ReadyAll(Now(), list + Flatten.Flat(arrivals))
      modifies this`list, this`agents, this`nowSocketCount, this`ioLists
      ensures n <= |arrivals| && rounds == n + (if n < |arrivals| then 1 else 0)
      ensures (list == [] || n == |arrivals|) && (again <==> list != [])
      ensures var all := old(list) + Flatten.Flat(arrivals[..rounds]);
        n <= |all| && list == all[n..] && ReadyAll(old(Now()), all[..n]) && Now() == HandleAll(old(Now()), all[..n])
    {
      ghost var m, ps := Now(), list + Flatten.Flat(arrivals);
      n, rounds := 0, 0;
      var dealCount := 0;
      StartDeal(m, old(list), arrivals);
      hide *;
      while dealCount <= pairDealCount
        invariant n == rounds == dealCount <= |arrivals|
        invariant Dealing(m, old(list), arrivals, rounds, Now(), list, n)
      {
        ArriveDeal(m, old(list), arrivals, rounds, Now(), list, n);
        list := list + arrivals[dealCount];
        rounds := rounds + 1;
        dealCount := dealCount + 1;
        if list == [] {
          break;
        }
        TurnDeal(m, old(list), arrivals, rounds, Now(), list, n);
        var p := list[0];
        list := list[1..];
        Deal(p);
        n := n + 1;
      }
      EndDeal(m, old(list), arrivals, rounds, Now(), list, n);
      again := list != [];
    }
  }

  /** After `rounds` arrivals and `n` packages dealt with, the main thread is at `now` and has `list` in its queue. */
  ghost predicate Dealing(m: MainThread, before: seq<Package>, arrivals: seq<seq<Package>>, rounds: nat,
      now: MainThread, list: seq<Package>, n: nat)
  {
    ReadyAll(m, before + Flatten.Flat(arrivals)) && rounds <= |arrivals| &&
    var all := before + Flatten.Flat(arrivals[..rounds]);
    n <= |all| && list == all[n..] && ReadyAll(m, all[..n]) && now == HandleAll(m, all[..n])
  }

  lemma StartDeal(m: MainThread, before: seq<Package>, arrivals: seq<seq<Package>>)
    requires ReadyAll(m, before + Flatten.Flat(arrivals))
    ensures Dealing(m, before, arrivals, 0, m, before, 0)
  {
    CameIn(before, arrivals, 0);
    assert before[..0] == [] && before[0..] == before;
  }

  lemma ArriveDeal(m: MainThread, before: seq<Package>, arrivals: seq<seq<Package>>, rounds: nat, now: MainThread, list: seq<Package>, n: nat)
    requires Dealing(m, before, arrivals, rounds, now, list, n) && rounds < |arrivals|
    ensures Dealing(m, before, arrivals, rounds + 1, now, list + arrivals[rounds], n)
  {
    CameIn(before, arrivals, rounds + 1);
    var all := before + Flatten.Flat(arrivals[..rounds]);
    hide ReadyAll, HandleAll, Flatten.Flat;
    assert (all + arrivals[rounds])[..n] == all[..n] && (all + arrivals[rounds])[n..] == all[n..] + arrivals[rounds];
  }

  lemma TurnDeal(m: MainThread, before: seq<Package>, arrivals: seq<seq<Package>>, rounds: nat, now: MainThread, list: seq<Package>, n: nat)
    requires Dealing(m, before, arrivals, rounds, now, list, n) && list != []
    ensures Ready(now, list[0]) && Dealing(m, before, arrivals, rounds, Handle(now, list[0]), list[1..], n + 1)
  {
    CameIn(before, arrivals, rounds);
    var all, ps := before + Flatten.Flat(arrivals[..rounds]), before + Flatten.Flat(arrivals);
    FrontReady(m, ps, n);
    hide ReadyAll, HandleAll, Flatten.Flat, Handle, Ready;
    assert all[..n] == ps[..n] && all[..n + 1] == ps[..n + 1] && list[0] == ps[n] && all[n + 1..] == list[1..];
  }

  lemma EndDeal(m: MainThread, before: seq<Package>, arrivals: seq<seq<Package>>, rounds: nat, now: MainThread, list: seq<Package>, n: nat)
    requires Dealing(m, before, arrivals, rounds, now, list, n)
    ensures var all := before + Flatten.Flat(arrivals[..rounds]);
      n <= |all| && list == all[n..] && ReadyAll(m, all[..n]) && now == HandleAll(m, all[..n])
  {
  }

  lemma CameIn(before: seq<Package>, arrivals: seq<seq<Package>>, r: nat)
    requires r <= |arrivals|
    ensures var all, ps := before + Flatten.Flat(arrivals[..r]), before + Flatten.Flat(arrivals);
      |all| <= |ps| && all == ps[..|all|] && (r == 0 ==> all == before)
    ensures r > 0 ==> before + Flatten.Flat(arrivals[..r]) == before + Flatten.Flat(arrivals[..r - 1]) + arrivals[r - 1]
  {
    Flatten.FlatSplit(arrivals, r);
    if r > 0 {
      Flatten.FlatUpTo(arrivals, r - 1);
    }
  }

  lemma FrontReady(m: MainThread, ps: seq<Package>, n: nat)
    requires ReadyAll(m, ps) && n < |ps|
    ensures ReadyAll(m, ps[..n]) && Ready(HandleAll(m, ps[..n]), ps[n])
    ensures ReadyAll(m, ps[..n + 1]) && HandleAll(m, ps[..n + 1]) == Handle(HandleAll(m, ps[..n]), ps[n])
  {
    HandleMore(m, ps, n);
    assert ps[n..][0] == ps[n];
  }
}
