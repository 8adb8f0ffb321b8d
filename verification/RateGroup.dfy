/** Rate-limit groups of bufferevent_ratelim.c for reading, as interleaved steps of threads. A step that needs the group
    lock is taken only while no other thread has it; suspending and unsuspending hold it over several steps. */
module RateGroup {
  import opened TokenBucket

  type Thread = nat
  type Bev = nat
  datatype Option<T> = None | Some(value: T)

  /** What a thread is doing: adding has released the group lock but not suspended its member yet; removing likewise
      has not unsuspended it yet. */
  datatype Pc =
    | Idle
    | Adding(b: Bev, rsuspend: bool)
    | Removing(b: Bev, unsuspend: bool)
    | Suspending(todo: seq<Bev>)
    | Unsuspending(todo: seq<Bev>, again: bool)

  datatype State = State(
    members: seq<Bev>,
    flagged: set<Bev>,        // those with BEV_SUSPEND_BW_GROUP for reading
    freed: set<Bev>,          // those removed for good by the destructor
    readSuspended: bool,
    pending: bool,            // pending_unsuspend_read
    limit: ssize,
    rate: ssize,              // of reading, with its maximum
    maximum: ssize,
    writeRate: ssize,
    configured: ssize,        // configured_min_share, and what the rates leave of it
    minShare: ssize,
    lock: Option<Thread>,
    owner: map<Bev, Thread>,  // the bufferevent locks that are held
    pcs: map<Thread, Pc>)
  {
    function PcOf(t: Thread): Pc {
      if t in pcs then pcs[t] else Idle
    }

    predicate Free() {
      lock == None
    }

    predicate Owns(t: Thread, b: Bev) {
      b in owner && owner[b] == t
    }

    /** EVLOCK_TRY_LOCK may succeed: the lock is recursive. */
    predicate TryLocks(t: Thread, b: Bev) {
      b in owner ==> owner[b] == t
    }
  }

  datatype Step =
    | LockBev(t: Thread, b: Bev)
    | UnlockBev(t: Thread, b: Bev)
    | DecrementRead(t: Thread, bytes: ssize, which: nat)
    | GroupDecrement(t: Thread, decr: ssize, which: nat)
    | Refill(t: Thread, ticks: u32, which: nat)
    | SetMinShare(t: Thread, share: nat)
    | SetCfg(t: Thread, rate: ssize, maximum: ssize, writeRate: ssize)
    | SuspendOne(t: Thread, ok: bool)
    | UnsuspendOne(t: Thread, ok: bool)
    | Release(t: Thread)
    | GetMax(t: Thread, b: Bev)
    | AddBegin(t: Thread, b: Bev)
    | AddEnd(t: Thread)
    | RemoveBegin(t: Thread, b: Bev, unsuspend: bool)
    | RemoveEnd(t: Thread)

  /** The order of FOREACH_RANDOM_ORDER: from a random member to the end, then from the first one up to it. */
  function Rotated<T>(s: seq<T>, which: nat): (r: seq<T>)
    ensures |r| == |s| && multiset(r) == multiset(s)
  {
    if s == [] then s
    else
      var k := which % |s|;
      assert s == s[..k] + s[k..];
      s[k..] + s[..k]
  }

  lemma RotatedMembers<T>(s: seq<T>, which: nat)
    ensures forall x <- s :: x in Rotated(s, which)
    ensures forall x <- Rotated(s, which) :: x in s
  {
    var r := Rotated(s, which);
    forall x | x in s
      ensures x in r
    {
      assert x in multiset(s);
    }
    forall x | x in r
      ensures x in s
    {
      assert x in multiset(r);
    }
  }

  /** _bev_group_suspend_reading is entered. */
  function StartSuspend(s: State, t: Thread): State {
    s.(readSuspended := true, pending := false, lock := Some(t), pcs := s.pcs[t := Suspending(s.members)])
  }

  /** _bev_group_unsuspend_reading is entered. */
  function StartUnsuspend(s: State, t: Thread, which: nat): State {
    s.(readSuspended := false, lock := Some(t), pcs := s.pcs[t := Unsuspending(Rotated(s.members, which), false)])
  }

  ghost predicate Enabled(s: State, step: Step) {
    match step
    case LockBev(t, b) => s.PcOf(t) == Idle && s.TryLocks(t, b)
    case UnlockBev(t, b) => s.PcOf(t) == Idle && s.Owns(t, b)
    case DecrementRead(t, bytes, _) => s.PcOf(t) == Idle && s.Free() && SSIZE_MIN <= s.limit - bytes <= SSIZE_MAX
    case GroupDecrement(t, decr, _) => s.PcOf(t) == Idle && s.Free() && SSIZE_MIN <= s.limit - decr <= SSIZE_MAX
    case Refill(t, _, _) => s.PcOf(t) == Idle && s.Free()
    case SetMinShare(t, share) => s.PcOf(t) == Idle
    case SetCfg(t, rate, maximum, writeRate) => s.PcOf(t) == Idle && s.Free() && 1 <= rate <= maximum && 1 <= writeRate
    case SuspendOne(t, ok) =>
      s.PcOf(t).Suspending? && s.PcOf(t).todo != [] && (ok ==> s.TryLocks(t, s.PcOf(t).todo[0]))
    case UnsuspendOne(t, ok) =>
      s.PcOf(t).Unsuspending? && s.PcOf(t).todo != [] && (ok ==> s.TryLocks(t, s.PcOf(t).todo[0]))
    case Release(t) => (s.PcOf(t).Suspending? || s.PcOf(t).Unsuspending?) && s.PcOf(t).todo == []
    case GetMax(t, b) => s.PcOf(t) == Idle && s.Free() && s.Owns(t, b) && b in s.members
    case AddBegin(t, b) => s.PcOf(t) == Idle && s.Free() && s.Owns(t, b) && b !in s.members && b !in s.freed
    case AddEnd(t) => s.PcOf(t).Adding?
    case RemoveBegin(t, b, _) => s.PcOf(t) == Idle && s.Free() && s.Owns(t, b) && b in s.members
    case RemoveEnd(t) => s.PcOf(t).Removing?
  }

  function Without(s: seq<Bev>, b: Bev): (r: seq<Bev>)
    ensures b !in r
    ensures forall c :: c in r <==> c in s && c != b
  {
    if s == [] then []
    else if s[0] == b then Without(s[1..], b)
    else [s[0]] + Without(s[1..], b)
  }

  function Apply(s: State, step: Step): State
    requires Enabled(s, step)
  {
    match step
    case LockBev(t, b) => s.(owner := s.owner[b := t])
    case UnlockBev(t, b) => s.(owner := s.owner - {b})
    case DecrementRead(t, bytes, which) =>
      var s1 := s.(limit := s.limit - bytes);
      if s1.limit <= 0 then StartSuspend(s1, t)
      else if s1.readSuspended then StartUnsuspend(s1, t, which)
      else s1
    case GroupDecrement(t, decr, which) =>
      var s1 := s.(limit := s.limit - decr);
      if s.limit > 0 && s1.limit <= 0 then StartSuspend(s1, t)
      else if s.limit <= 0 && s1.limit > 0 then StartUnsuspend(s1, t, which)
      else s1
    case SetMinShare(t, share) => if share > SSIZE_MAX then s else s.(configured := share, minShare := Min3(share, s.rate, s.writeRate))
    case SetCfg(t, rate, maximum, writeRate) =>
      s.(limit := Min(s.limit, maximum), rate := rate, maximum := maximum, writeRate := writeRate,
         minShare := Min3(s.configured, rate, writeRate))
    case Refill(t, ticks, which) =>
      var s1 := s.(limit := if ticks == 0 || ticks > INT_MAX then s.limit else Refilled(s.limit, s.maximum, s.rate, ticks));
      if s1.pending || (s1.readSuspended && s1.limit >= s1.minShare) then StartUnsuspend(s1, t, which) else s1
    case SuspendOne(t, ok) =>
      var todo := s.PcOf(t).todo;
      s.(flagged := if ok then s.flagged + {todo[0]} else s.flagged, pcs := s.pcs[t := Suspending(todo[1..])])
    case UnsuspendOne(t, ok) =>
      var todo := s.PcOf(t).todo;
      s.(flagged := if ok then s.flagged - {todo[0]} else s.flagged,
         pcs := s.pcs[t := Unsuspending(todo[1..], s.PcOf(t).again || !ok)])
    case Release(t) =>
      s.(pending := if s.PcOf(t).Unsuspending? then s.PcOf(t).again else s.pending, lock := None, pcs := s.pcs[t := Idle])
    case GetMax(t, b) => if s.readSuspended then s.(flagged := s.flagged + {b}) else s
    case AddBegin(t, b) => s.(members := s.members + [b], pcs := s.pcs[t := Adding(b, s.readSuspended)])
    case AddEnd(t) =>
      s.(flagged := if s.PcOf(t).rsuspend then s.flagged + {s.PcOf(t).b} else s.flagged, pcs := s.pcs[t := Idle])
    case RemoveBegin(t, b, unsuspend) =>
      s.(members := Without(s.members, b), freed := if unsuspend then s.freed else s.freed + {b},
         pcs := s.pcs[t := Removing(b, unsuspend)])
    case RemoveEnd(t) =>
      s.(flagged := if s.PcOf(t).unsuspend then s.flagged - {s.PcOf(t).b} else s.flagged, pcs := s.pcs[t := Idle])
  }

  /** A member that is suspended, or about to be, will be looked at again. */
  ghost predicate Covered(s: State, b: Bev) {
    if s.lock.Some? && s.PcOf(s.lock.value).Unsuspending?
    then b in s.PcOf(s.lock.value).todo || s.PcOf(s.lock.value).again
    else s.readSuspended || s.pending
  }

  ghost predicate Window(s: State, t: Thread, b: Bev) {
    s.PcOf(t) == Adding(b, true)
  }

  ghost predicate HoldsGroup(pc: Pc) {
    pc.Suspending? || pc.Unsuspending?
  }

  /** The members the thread with the group lock has still to visit. */
  ghost function Todo(s: State): seq<Bev> {
    if s.lock.Some? && HoldsGroup(s.PcOf(s.lock.value)) then s.PcOf(s.lock.value).todo else []
  }

  /** Which thread has which lock. */
  ghost predicate Locks(s: State) {
    (forall t: Thread :: HoldsGroup(s.PcOf(t)) <==> s.lock == Some(t)) &&
    (forall t: Thread {:trigger s.PcOf(t)} :: s.PcOf(t).Adding? ==> s.Owns(t, s.PcOf(t).b) && s.PcOf(t).b in s.members) &&
    (forall t: Thread {:trigger s.PcOf(t)} :: s.PcOf(t).Removing? ==> s.Owns(t, s.PcOf(t).b) && s.PcOf(t).b !in s.members) &&
    (forall b :: b in Todo(s) ==> b in s.members)
  }

  ghost predicate Flags(s: State) {
    !(s.readSuspended && s.pending) &&
    (s.lock.Some? && s.PcOf(s.lock.value).Unsuspending? ==> !s.readSuspended) &&
    (s.lock.Some? && s.PcOf(s.lock.value).Suspending? ==> s.readSuspended)
  }

  /** Nobody is stranded: not the suspended members, and not those that are about to be suspended. */
  ghost predicate AllCovered(s: State) {
    (forall b :: b in s.members && b in s.flagged ==> Covered(s, b)) &&
    (forall t, b :: Window(s, t, b) ==> Covered(s, b))
  }

  /** The flag outlives membership only in the middle of a removal, or when the bufferevent is being freed. */
  ghost predicate OutsidersClear(s: State) {
    forall b :: b in s.flagged && b !in s.members && b !in s.freed ==> exists t :: s.PcOf(t) == Removing(b, true)
  }

  /** The share is the configured one, clipped to what one tick brings. */
  ghost predicate Shares(s: State) {
    1 <= s.rate <= s.maximum && 1 <= s.writeRate && 0 <= s.configured && s.minShare == Min3(s.configured, s.rate, s.writeRate)
  }

  ghost predicate Inv(s: State) {
    Locks(s) && Flags(s) && AllCovered(s) && OutsidersClear(s) && Shares(s)
  }

  /** A group as bufferevent_rate_limit_group_new makes it. */
  function Initial(rate: ssize, maximum: ssize, writeRate: ssize): State {
    State([], {}, {}, false, false, rate, rate, maximum, writeRate, 64, Min3(64, rate, writeRate), None, map[], map[])
  }

  /** The steps can be taken one after the other from `s`. */
  ghost predicate Possible(s: State, steps: seq<Step>)
    decreases |steps|
  {
    steps != [] ==> Enabled(s, steps[0]) && Possible(Apply(s, steps[0]), steps[1..])
  }

  function After(s: State, steps: seq<Step>): State
    requires Possible(s, steps)
    decreases |steps|
  {
    if steps == [] then s else After(Apply(s, steps[0]), steps[1..])
  }

  lemma OthersSame(s: State, step: Step)
    requires Enabled(s, step)
    ensures forall t: Thread {:trigger Apply(s, step).PcOf(t)} :: t != step.t ==> Apply(s, step).PcOf(t) == s.PcOf(t)
  {
  }

  /** Two states that differ in numbers at most. */
  ghost predicate SameButNumbers(s: State, s1: State) {
    s1 == s.(limit := s1.limit, rate := s1.rate, maximum := s1.maximum, writeRate := s1.writeRate,
      configured := s1.configured, minShare := s1.minShare)
  }

  predicate Charges(step: Step) {
    step.DecrementRead? || step.GroupDecrement? || step.Refill?
  }

  /** A step that changes the limit, and then suspends or unsuspends or does neither. */
  lemma ChargeIs(s: State, step: Step) returns (s1: State)
    requires Enabled(s, step) && Charges(step)
    ensures SameButNumbers(s, s1) && s.PcOf(step.t) == Idle && s.Free()
    ensures Apply(s, step) in {s1, StartSuspend(s1, step.t), StartUnsuspend(s1, step.t, step.which)}
  {
    s1 := s.(limit := Apply(s, step).limit);
  }

  lemma StartLocks(s: State, s1: State, t: Thread, which: nat)
    requires Locks(s) && SameButNumbers(s, s1) && s.PcOf(t) == Idle && s.Free()
    ensures Locks(s1) && Locks(StartSuspend(s1, t)) && Locks(StartUnsuspend(s1, t, which))
  {
    RotatedMembers(s.members, which);
    var s2, s3 := StartSuspend(s1, t), StartUnsuspend(s1, t, which);
    assert forall t': Thread {:trigger s1.PcOf(t')} :: s1.PcOf(t') == s.PcOf(t');
    assert forall t': Thread {:trigger s2.PcOf(t')} :: t' != t ==> s2.PcOf(t') == s.PcOf(t');
    assert forall t': Thread {:trigger s3.PcOf(t')} :: t' != t ==> s3.PcOf(t') == s.PcOf(t');
  }

  /** Without the group lock nothing is begun or finished but additions and removals. */
  lemma LocksKept(s: State, step: Step)
    requires Locks(s) && Enabled(s, step)
    ensures Locks(Apply(s, step))
  {
    if Charges(step) {
      hide Locks, Apply;
      var s1 := ChargeIs(s, step);
      StartLocks(s, s1, step.t, step.which);
    } else {
      var s' := Apply(s, step);
      OthersSame(s, step);
      var t0 := step.t;
      assert s'.lock == Some(t0) <==> HoldsGroup(s'.PcOf(t0));
    }
  }

  lemma FlagsKept(s: State, step: Step)
    requires Locks(s) && Flags(s) && Enabled(s, step)
    ensures Flags(Apply(s, step)) && (Shares(s) ==> Shares(Apply(s, step)))
  {
  }

  lemma CoverKept(s: State, step: Step)
    requires Inv(s) && Enabled(s, step)
    ensures AllCovered(Apply(s, step))
  {
    hide AllCovered;
    match step
    case LockBev(_, _) => LockingCovers(s, step);
    case UnlockBev(_, _) => LockingCovers(s, step);
    case DecrementRead(_, _, _) => StartCovers(s, step);
    case GroupDecrement(_, _, _) => StartCovers(s, step);
    case SetMinShare(_, _) => LockingCovers(s, step);
    case SetCfg(_, _, _, _) => LockingCovers(s, step);
    case Refill(_, _, _) => StartCovers(s, step);
    case SuspendOne(_, _) => HolderCovers(s, step);
    case UnsuspendOne(t, ok) => UnsuspendCovers(s, t, ok);
    case Release(_) => HolderCovers(s, step);
    case GetMax(_, _) => HolderCovers(s, step);
    case AddBegin(_, _) => AddingCovers(s, step);
    case AddEnd(_) => AddingCovers(s, step);
    case RemoveBegin(_, _, _) => RemovingCovers(s, step);
    case RemoveEnd(_) => RemovingCovers(s, step);
  }

  lemma LockingCovers(s: State, step: Step)
    requires Inv(s) && Enabled(s, step) && (step.LockBev? || step.UnlockBev? || step.SetMinShare? || step.SetCfg?)
    ensures AllCovered(Apply(s, step))
  {
    SameCover(s, Apply(s, step));
  }

  lemma StartCovers(s: State, step: Step)
    requires Inv(s) && Enabled(s, step) && Charges(step)
    ensures AllCovered(Apply(s, step))
  {
    hide Apply, Inv, AllCovered;
    var s1 := ChargeIs(s, step);
    StartCoversAll(s, s1, step.t, step.which);
  }

  lemma StartCoversAll(s: State, s1: State, t: Thread, which: nat)
    requires Inv(s) && SameButNumbers(s, s1) && s.PcOf(t) == Idle && s.Free()
    ensures AllCovered(s1) && AllCovered(StartSuspend(s1, t)) && AllCovered(StartUnsuspend(s1, t, which))
  {
    RotatedMembers(s.members, which);
    var s2, s3 := StartSuspend(s1, t), StartUnsuspend(s1, t, which);
    SameCover(s, s1);
    assert forall t', b :: Window(s2, t', b) ==> Window(s, t', b);
    assert forall t', b :: Window(s3, t', b) ==> Window(s, t', b);
  }

  lemma HolderCovers(s: State, step: Step)
    requires Inv(s) && Enabled(s, step) && (step.SuspendOne? || step.Release? || step.GetMax?)
    ensures AllCovered(Apply(s, step))
  {
    var s' := Apply(s, step);
    OthersSame(s, step);
    assert forall t, b :: t != step.t && Window(s', t, b) ==> Window(s, t, b);
  }

  lemma AddingCovers(s: State, step: Step)
    requires Inv(s) && Enabled(s, step) && (step.AddBegin? || step.AddEnd?)
    ensures AllCovered(Apply(s, step))
  {
    var s' := Apply(s, step);
    OthersSame(s, step);
    var pc := s.PcOf(step.t);
    if step.AddBegin? {
      assert step.b !in s.flagged;
    } else {
      assert pc.rsuspend ==> Window(s, step.t, pc.b);
    }
    assert forall t, b :: t != step.t && Window(s', t, b) ==> Window(s, t, b);
  }

  lemma RemovingCovers(s: State, step: Step)
    requires Inv(s) && Enabled(s, step) && (step.RemoveBegin? || step.RemoveEnd?)
    ensures AllCovered(Apply(s, step))
  {
    var s' := Apply(s, step);
    OthersSame(s, step);
    assert forall t, b :: t != step.t && Window(s', t, b) ==> Window(s, t, b);
  }

  lemma SameCover(s: State, s': State)
    requires AllCovered(s)
    requires SameButNumbers(s.(owner := s'.owner), s')
    ensures AllCovered(s')
  {
    assert forall t: Thread :: s'.PcOf(t) == s.PcOf(t);
    assert forall b :: Covered(s', b) <==> Covered(s, b);
    assert forall t, b :: Window(s', t, b) <==> Window(s, t, b);
  }

  /** A member whose lock could not be had is remembered, and nobody else can be in the middle of adding one that could. */
  lemma UnsuspendCovers(s: State, t: Thread, ok: bool)
    requires Inv(s) && Enabled(s, UnsuspendOne(t, ok))
    ensures AllCovered(Apply(s, UnsuspendOne(t, ok)))
  {
    var s' := Apply(s, UnsuspendOne(t, ok));
    OthersSame(s, UnsuspendOne(t, ok));
    var todo := s.PcOf(t).todo;
    assert s.lock == Some(t);
    assert todo == [todo[0]] + todo[1..];
    if ok {
      forall t', b | Window(s', t', b)
        ensures Covered(s', b)
      {
        assert Window(s, t', b) && s.Owns(t', b);
        assert b != todo[0];
      }
    }
  }

  lemma OutsidersKept(s: State, step: Step)
    requires Inv(s) && Enabled(s, step)
    ensures OutsidersClear(Apply(s, step))
  {
    var s' := Apply(s, step);
    OthersSame(s, step);
    forall b | b in s'.flagged && b !in s'.members && b !in s'.freed
      ensures exists t :: s'.PcOf(t) == Removing(b, true)
    {
      if step.RemoveBegin? && step.b == b {
        assert s'.PcOf(step.t) == Removing(b, true);
      } else {
        assert b in s.flagged && b !in s.members && b !in s.freed;
        var t :| s.PcOf(t) == Removing(b, true);
        assert s'.PcOf(t) == Removing(b, true);
      }
    }
  }

  lemma StepKeeps(s: State, step: Step)
    requires Inv(s) && Enabled(s, step)
    ensures Inv(Apply(s, step))
  {
    LocksKept(s, step);
    FlagsKept(s, step);
    CoverKept(s, step);
    OutsidersKept(s, step);
  }

  lemma {:induction false} RunKeeps(s: State, steps: seq<Step>)
    requires Inv(s) && Possible(s, steps)
    ensures Inv(After(s, steps))
    decreases |steps|
  {
    hide Inv, Apply, Enabled;
    if steps != [] {
      StepKeeps(s, steps[0]);
      RunKeeps(Apply(s, steps[0]), steps[1..]);
    }
  }

  /** Whatever the threads do, whichever try-locks fail: the two group flags are never both set, and while nobody has
      the group lock a suspended member implies one of them, so that a later refill looks at it again. */
  lemma NeverStranded(rate: ssize, maximum: ssize, writeRate: ssize, steps: seq<Step>)
    requires 1 <= rate <= maximum && 1 <= writeRate && Possible(Initial(rate, maximum, writeRate), steps)
    ensures var s := After(Initial(rate, maximum, writeRate), steps);
      Inv(s) && !(s.readSuspended && s.pending) &&
      (s.Free() ==> forall b :: b in s.members && b in s.flagged ==> s.readSuspended || s.pending)
  {
    hide After, Possible;
    InitialInv(rate, maximum, writeRate);
    RunKeeps(Initial(rate, maximum, writeRate), steps);
    InvSafe(After(Initial(rate, maximum, writeRate), steps));
  }

  lemma InitialInv(rate: ssize, maximum: ssize, writeRate: ssize)
    requires 1 <= rate <= maximum && 1 <= writeRate
    ensures Inv(Initial(rate, maximum, writeRate)) && Exhausted(Initial(rate, maximum, writeRate))
  {
  }

  lemma InvSafe(s: State)
    requires Inv(s)
    ensures !(s.readSuspended && s.pending)
    ensures forall b :: s.Free() && b in s.members && b in s.flagged ==> s.readSuspended || s.pending
  {
  }

  /** The thread with the group lock goes on alone; the locks of the bufferevents in `ok` can be had. */
  function Finish(s: State, t: Thread, ok: set<Bev>): State
    requires HoldsGroup(s.PcOf(t)) && forall b <- s.PcOf(t).todo :: b in ok ==> s.TryLocks(t, b)
    decreases |s.PcOf(t).todo|
  {
    var pc := s.PcOf(t);
    if pc.todo == [] then Apply(s, Release(t))
    else
      TailSet(pc.todo, ok);
      var got := pc.todo[0] in ok;
      var s1 := if pc.Suspending? then Apply(s, SuspendOne(t, got)) else Apply(s, UnsuspendOne(t, got));
      assert s1.owner == s.owner && s1.PcOf(t).todo == pc.todo[1..];
      assert forall b <- pc.todo[1..] :: b in pc.todo && (s1.TryLocks(t, b) <==> s.TryLocks(t, b));
      Finish(s1, t, ok)
  }

  lemma SuspendOneIs(s: State, t: Thread, ok: set<Bev>) returns (s1: State)
    requires s.PcOf(t).Suspending? && s.PcOf(t).todo != [] && forall b <- s.PcOf(t).todo :: b in ok ==> s.TryLocks(t, b)
    ensures var todo := s.PcOf(t).todo;
      s1 == s.(flagged := if todo[0] in ok then s.flagged + {todo[0]} else s.flagged, pcs := s.pcs[t := Suspending(todo[1..])])
    ensures s1.PcOf(t) == Suspending(s.PcOf(t).todo[1..]) && forall b <- s1.PcOf(t).todo :: b in ok ==> s1.TryLocks(t, b)
    ensures Finish(s, t, ok) == Finish(s1, t, ok)
  {
    hide StartSuspend, StartUnsuspend;
    var todo := s.PcOf(t).todo;
    TailSet(todo, ok);
    s1 := Apply(s, SuspendOne(t, todo[0] in ok));
  }

  /** What a whole suspension does. */
  lemma {:induction false} FinishSuspend(s: State, t: Thread, ok: set<Bev>)
    requires s.PcOf(t).Suspending? && forall b <- s.PcOf(t).todo :: b in ok ==> s.TryLocks(t, b)
    ensures Finish(s, t, ok) ==
            s.(flagged := s.flagged + (set b <- s.PcOf(t).todo | b in ok), lock := None, pcs := s.pcs[t := Idle])
    decreases |s.PcOf(t).todo|
  {
    var todo := s.PcOf(t).todo;
    if todo == [] {
      assert (set b <- todo | b in ok) == {};
    } else {
      hide Finish, Apply, Enabled;
      var s1 := SuspendOneIs(s, t, ok);
      FinishSuspend(s1, t, ok);
      TailSet(todo, ok);
      assert s1.pcs[t := Idle] == s.pcs[t := Idle];
      assert s1.flagged + (set b <- todo[1..] | b in ok) == s.flagged + (set b <- todo | b in ok);
    }
  }

  lemma TailSet(todo: seq<Bev>, ok: set<Bev>)
    requires todo != []
    ensures (set b <- todo | b in ok) == (set b <- todo[1..] | b in ok) + (if todo[0] in ok then {todo[0]} else {})
    ensures (exists b <- todo :: b !in ok) <==> todo[0] !in ok || exists b <- todo[1..] :: b !in ok
    ensures forall b <- todo[1..] :: b in todo
  {
    assert todo == [todo[0]] + todo[1..];
  }

  /** What a whole unsuspension does. */
  lemma {:induction false} FinishUnsuspend(s: State, t: Thread, ok: set<Bev>)
    requires s.PcOf(t).Unsuspending? && forall b <- s.PcOf(t).todo :: b in ok ==> s.TryLocks(t, b)
    ensures Finish(s, t, ok) ==
            s.(flagged := s.flagged - (set b <- s.PcOf(t).todo | b in ok), lock := None, pcs := s.pcs[t := Idle],
               pending := s.PcOf(t).again || exists b <- s.PcOf(t).todo :: b !in ok)
    decreases |s.PcOf(t).todo|
  {
    var todo := s.PcOf(t).todo;
    if todo == [] {
      assert (set b <- todo | b in ok) == {};
    } else {
      var s1 := Apply(s, UnsuspendOne(t, todo[0] in ok));
      TailSet(todo, ok);
      assert s1 == s.(flagged := if todo[0] in ok then s.flagged - {todo[0]} else s.flagged,
        pcs := s.pcs[t := Unsuspending(todo[1..], s.PcOf(t).again || todo[0] !in ok)]);
      hide Apply, Enabled;
      FinishUnsuspend(s1, t, ok);
      assert s1.pcs[t := Idle] == s.pcs[t := Idle];
      assert s1.flagged - (set b <- todo[1..] | b in ok) == s.flagged - (set b <- todo | b in ok);
    }
  }

  /** A refill that finds a reason to unsuspend, and every lock free, leaves no member suspended and nothing pending. */
  lemma RefillReleases(s: State, t: Thread, ticks: u32, which: nat)
    requires Inv(s) && Enabled(s, Refill(t, ticks, which))
    requires s.pending || (s.readSuspended && Apply(s, Refill(t, ticks, which)).limit >= s.minShare)
    requires forall b <- s.members :: s.TryLocks(t, b)
    ensures var s1 := Apply(s, Refill(t, ticks, which));
      HoldsGroup(s1.PcOf(t)) && (forall b <- s1.PcOf(t).todo :: s1.TryLocks(t, b))
    ensures var s' := Finish(Apply(s, Refill(t, ticks, which)), t, set b <- s.members);
      !s'.readSuspended && !s'.pending && s'.Free() && s'.members == s.members && forall b <- s'.members :: b !in s'.flagged
  {
    RotatedMembers(s.members, which);
    FinishUnsuspend(Apply(s, Refill(t, ticks, which)), t, set b <- s.members);
  }

  /** An exhausted group is suspended. */
  ghost predicate Exhausted(s: State) {
    s.limit <= 0 ==> s.readSuspended
  }

  /** In each state on the way the limit is within the maximum: no refund has lifted it above. */
  ghost predicate Within(s: State, steps: seq<Step>)
    requires Possible(s, steps)
    decreases |steps|
  {
    s.limit <= s.maximum && (steps != [] ==> Within(Apply(s, steps[0]), steps[1..]))
  }

  /** bufferevent_rate_limit_group_set_min_share is not called with zero. */
  ghost predicate Sharing(steps: seq<Step>) {
    forall i :: 0 <= i < |steps| && steps[i].SetMinShare? ==> steps[i].share > 0
  }

  lemma ExhaustedKept(s: State, step: Step)
    requires Inv(s) && Enabled(s, step) && Exhausted(s) && s.limit <= s.maximum && s.minShare > 0
    ensures Exhausted(Apply(s, step)) && ((step.SetMinShare? && step.share == 0) || Apply(s, step).minShare > 0)
  {
    hide Refilled, Locks, AllCovered, OutsidersClear, Rotated;
    if step.Refill? && 1 <= step.ticks <= INT_MAX {
      RefilledIs(s.limit, s.maximum, s.rate, step.ticks);
      MulLe(s.rate, 0, step.ticks);
    }
  }

  /** As long as the minimum share is not set to zero, an exhausted group is suspended in every state. */
  lemma {:induction false} ShareSuspends(s: State, steps: seq<Step>)
    requires Inv(s) && Exhausted(s) && Possible(s, steps) && Within(s, steps) && Sharing(steps) && s.minShare > 0
    ensures Exhausted(After(s, steps))
    decreases |steps|
  {
    hide Inv, Apply, Enabled, Exhausted;
    if steps != [] {
      StepKeeps(s, steps[0]);
      ExhaustedKept(s, steps[0]);
      ShareSuspends(Apply(s, steps[0]), steps[1..]);
    }
  }

  lemma {:induction false} Joined(s: State, a: seq<Step>, b: seq<Step>)
    requires Possible(s, a) && Possible(After(s, a), b)
    ensures Possible(s, a + b) && After(s, a + b) == After(After(s, a), b)
    ensures Within(s, a) && Within(After(s, a), b) ==> Within(s, a + b)
    ensures Sharing(a) && Sharing(b) ==> Sharing(a + b)
    decreases |a|
  {
    hide Apply, Enabled;
    if a == [] {
      assert a + b == b;
    } else {
      assert (a + b)[0] == a[0] && (a + b)[1..] == a[1..] + b;
      Joined(Apply(s, a[0]), a[1..], b);
    }
  }

  /** Whoever has the group lock gives it back, without any further try-lock. */
  lemma {:induction false} GivenBack(s: State) returns (steps: seq<Step>)
    requires Locks(s) && s.limit <= s.maximum
    ensures Possible(s, steps) && Within(s, steps) && Sharing(steps)
    ensures var s' := After(s, steps);
      s'.Free() && s'.limit == s.limit && s'.rate == s.rate && s'.maximum == s.maximum && s'.minShare == s.minShare &&
      s'.readSuspended == s.readSuspended && s'.pcs.Keys == s.pcs.Keys
    decreases |Todo(s)|
  {
    if s.Free() {
      steps := [];
    } else {
      var t := s.lock.value;
      var pc := s.PcOf(t);
      var step := if pc.todo == [] then Release(t) else if pc.Suspending? then SuspendOne(t, false) else UnsuspendOne(t, false);
      var s1 := Apply(s, step);
      LocksKept(s, step);
      assert t in s.pcs && s1.pcs.Keys == s.pcs.Keys;
      if pc.todo == [] {
        steps := [step];
        assert After(s1, []) == s1;
      } else {
        var rest := GivenBack(s1);
        steps := [step] + rest;
        assert steps[0] == step && steps[1..] == rest;
      }
    }
  }

  lemma {:induction false} NewThread(used: set<Thread>) returns (t: Thread)
    ensures t !in used && forall u <- used :: u < t
  {
    if used == {} {
      t := 0;
    } else {
      var u :| u in used;
      assert forall v <- used :: v == u || v in used - {u};
      t := NewThread(used - {u});
      if t <= u {
        t := u + 1;
      }
    }
  }

  /** With a minimum share of zero, some continuation leads to a group at a limit of zero that is not suspended: it is
      exhausted, charged further down, and the refill brings the limit just back to zero. */
  lemma ZeroShareReleases(s: State) returns (steps: seq<Step>)
    requires Inv(s) && s.limit <= s.maximum && s.minShare == 0
    ensures Possible(s, steps) && Within(s, steps) && Sharing(steps)
    ensures After(s, steps).limit == 0 && !After(s, steps).readSuspended
  {
    hide Inv, Within, Sharing, Possible, After, Apply, Enabled;
    var given := GivenUp(s);
    var s1 := After(s, given);
    var t := NewThread(s1.pcs.Keys);
    var tail := Exhausting(s1, t);
    Joined(s, given, tail);
    steps := given + tail;
  }

  lemma GivenUp(s: State) returns (steps: seq<Step>)
    requires Inv(s) && s.limit <= s.maximum
    ensures Possible(s, steps) && Within(s, steps) && Sharing(steps)
    ensures var s' := After(s, steps);
      Inv(s') && s'.Free() && s'.limit == s.limit && s'.rate == s.rate && s'.maximum == s.maximum && s'.minShare == s.minShare &&
      s'.readSuspended == s.readSuspended
  {
    hide Apply, Enabled, After, Possible;
    steps := GivenBack(s);
    RunKeeps(s, steps);
  }

  lemma Exhausting(s: State, t: Thread) returns (steps: seq<Step>)
    requires Inv(s) && s.limit <= s.maximum && s.minShare == 0 && s.Free() && t !in s.pcs
    ensures Possible(s, steps) && Within(s, steps) && Sharing(steps) && After(s, steps).limit == 0 && !After(s, steps).readSuspended
  {
    hide Inv, Within, Sharing, Possible, After, Apply, Enabled, Exhausted;
    var charge := DecrementRead(t, s.limit, 0);
    InvShares(s);
    ChargedToZero(s, t);
    var s2 := After(s, [charge]);
    var given := GivenUp(s2);
    var s3 := After(s2, given);
    var t' := NewThread(s3.pcs.Keys);
    var tail := [GroupDecrement(t', s3.rate, 0), Refill(t', 1, 0)];
    InvShares(s3);
    BackToZero(s3, t');
    Joined(s2, given, tail);
    Joined(s, [charge], given + tail);
    steps := [charge] + (given + tail);
  }

  lemma InvShares(s: State)
    requires Inv(s)
    ensures Shares(s)
  {
  }

  lemma OneStep(s: State, step: Step)
    requires Enabled(s, step) && s.limit <= s.maximum && Apply(s, step).limit <= Apply(s, step).maximum
    ensures Possible(s, [step]) && After(s, [step]) == Apply(s, step) && Within(s, [step]) && (!step.SetMinShare? ==> Sharing([step]))
  {
    hide Apply, Enabled;
    assert [step][1..] == [];
    assert After(Apply(s, step), []) == Apply(s, step);
  }

  lemma ChargedToZero(s: State, t: Thread)
    requires Inv(s) && s.limit <= s.maximum && s.Free() && t !in s.pcs
    ensures var steps := [DecrementRead(t, s.limit, 0)];
      Possible(s, steps) && Within(s, steps) && Sharing(steps) &&
      var s' := After(s, steps);
      Inv(s') && s'.limit == 0 && s'.readSuspended && s'.rate == s.rate && s'.maximum == s.maximum && s'.minShare == s.minShare
  {
    var step := DecrementRead(t, s.limit, 0);
    StepKeeps(s, step);
    OneStep(s, step);
  }

  lemma Below(s: State, t: Thread)
    requires s.limit == 0 && 1 <= s.rate && s.Free() && t !in s.pcs
    ensures Enabled(s, GroupDecrement(t, s.rate, 0)) && Apply(s, GroupDecrement(t, s.rate, 0)) == s.(limit := -s.rate)
  {
  }

  lemma Refills(s: State, t: Thread)
    requires Shares(s) && s.limit == -s.rate && s.readSuspended && s.minShare == 0 && s.Free() && t !in s.pcs
    ensures Enabled(s, Refill(t, 1, 0)) && Apply(s, Refill(t, 1, 0)).limit == 0 && !Apply(s, Refill(t, 1, 0)).readSuspended
    ensures Apply(s, Refill(t, 1, 0)).maximum == s.maximum
  {
    hide Refilled;
    RefilledIs(s.limit, s.maximum, s.rate, 1);
  }

  lemma BackToZero(s: State, t: Thread)
    requires Shares(s) && s.limit == 0 && s.readSuspended && s.minShare == 0 && s.Free() && t !in s.pcs
    ensures var steps := [GroupDecrement(t, s.rate, 0), Refill(t, 1, 0)];
      Possible(s, steps) && Within(s, steps) && Sharing(steps) && After(s, steps).limit == 0 && !After(s, steps).readSuspended
  {
    hide Apply, Enabled, Possible, After, Within, Sharing, Refilled;
    var step, step' := GroupDecrement(t, s.rate, 0), Refill(t, 1, 0);
    Below(s, t);
    OneStep(s, step);
    var s1 := Apply(s, step);
    Refills(s1, t);
    OneStep(s1, step');
    Joined(s, [step], [step']);
    assert [step] + [step'] == [step, step'];
  }

  /** Such a group goes into deficit without being suspended: bufferevent_rate_limit_group_decrement_read suspends only
      when the limit was positive before. */
  lemma Unsuspended(rate: ssize, maximum: ssize, writeRate: ssize) returns (steps: seq<Step>)
    requires 1 <= rate <= maximum && 1 <= writeRate
    ensures var s := Initial(rate, maximum, writeRate);
      Possible(s, steps) && Within(s, steps) && After(s, steps).limit < 0 && !After(s, steps).readSuspended && After(s, steps).Free()
  {
    hide Inv, Within, Sharing, Possible, After;
    var s := Initial(rate, maximum, writeRate);
    InitialInv(rate, maximum, writeRate);
    var zero := SetMinShare(0, 0);
    StepKeeps(s, zero);
    OneStep(s, zero);
    var s1 := Apply(s, zero);
    assert s1.minShare == 0 && s1.limit <= s1.maximum;
    hide Apply, Enabled;
    var steps1 := ZeroShareReleases(s1);
    var s2 := After(s1, steps1);
    RunKeeps(s1, steps1);
    InvShares(s2);
    var steps2 := GivenUp(s2);
    var s3 := After(s2, steps2);
    var t := NewThread(s3.pcs.Keys);
    InvShares(s3);
    OneBelow(s3, t);
    Joined(s2, steps2, [GroupDecrement(t, 1, 0)]);
    Joined(s1, steps1, steps2 + [GroupDecrement(t, 1, 0)]);
    Joined(s, [zero], steps1 + (steps2 + [GroupDecrement(t, 1, 0)]));
    steps := [zero] + (steps1 + (steps2 + [GroupDecrement(t, 1, 0)]));
  }

  lemma OneBelow(s: State, t: Thread)
    requires Shares(s) && s.limit == 0 && !s.readSuspended && s.Free() && t !in s.pcs
    ensures var steps := [GroupDecrement(t, 1, 0)];
      Possible(s, steps) && Within(s, steps) && After(s, steps).limit == -1 && !After(s, steps).readSuspended && After(s, steps).Free()
  {
    OneStep(s, GroupDecrement(t, 1, 0));
  }

  /** From any state in which an exhausted group is suspended: it stays so, whatever follows, if and only if the minimum
      share is not zero. */
  lemma ShareDecides(s: State)
    requires Inv(s) && Exhausted(s) && s.limit <= s.maximum
    ensures s.minShare > 0 <==>
      forall steps :: Possible(s, steps) && Within(s, steps) && Sharing(steps) ==> Exhausted(After(s, steps))
  {
    hide Within, Sharing, Possible, After;
    if s.minShare > 0 {
      forall steps | Possible(s, steps) && Within(s, steps) && Sharing(steps)
        ensures Exhausted(After(s, steps))
      {
        ShareSuspends(s, steps);
      }
    } else {
      var _ := ZeroShareReleases(s);
    }
  }

  /** The other condition is needed as well: a refund beyond the maximum, and one tick later the sum has wrapped round to
      a deficit, without a suspension. */
  lemma RefundWraps(rate: ssize, maximum: ssize, writeRate: ssize) returns (steps: seq<Step>)
    requires 1 <= rate <= maximum < SSIZE_MAX && 1 <= writeRate
    ensures var s := Initial(rate, maximum, writeRate);
      Possible(s, steps) && Sharing(steps) && s.minShare > 0 && !Exhausted(After(s, steps))
  {
    var s := Initial(rate, maximum, writeRate);
    var refund, refill := GroupDecrement(0, rate - SSIZE_MAX, 0), Refill(0, 1, 0);
    var s1 := Apply(s, refund);
    assert s1 == s.(limit := SSIZE_MAX);
    RefilledIs(SSIZE_MAX, maximum, rate, 1);
    hide Refilled;
    var s2 := Apply(s1, refill);
    assert s2.limit == SSIZE_MAX + rate - U64 && !s2.readSuspended;
    steps := [refund, refill];
    assert steps[1..] == [refill] && [refill][1..] == [];
    assert After(s2, []) == s2 && After(s1, [refill]) == s2;
  }

  function Min3(a: int, b: int, c: int): int {
    Min(Min(a, b), c)
  }

  /** bufferevent_rate_limit_group_set_min_share keeps the share within what one tick brings, so that enough ticks
      bring any limit up to it and the refill callback does unsuspend. */
  lemma ShareIsReached(limit: ssize, cfg: Cfg, configured: ssize, n: int)
    requires cfg.Valid() && limit <= cfg.readMaximum && 0 <= configured && 1 <= n <= INT_MAX
    requires limit + n >= 1
    ensures var share := Min3(configured, cfg.readRate, cfg.writeRate);
      n < INT_MAX ==> Refilled(limit, cfg.readMaximum, cfg.readRate, n + 1) >= share
  {
    RefilledIs(limit, cfg.readMaximum, cfg.readRate, n);
    MulLe(n, 1, cfg.readRate);
    if n < INT_MAX {
      RefilledIs(limit, cfg.readMaximum, cfg.readRate, n + 1);
      assert (n + 1) * cfg.readRate == n * cfg.readRate + cfg.readRate;
    }
  }
}
