/** The groups of bufferevent_ratelim.c as objects. The group lock is held throughout each method; `tryOk` are the members
    whose locks EVLOCK_TRY_LOCK gets. */
module RateLimitGroup {
  import opened TokenBucket
  import opened BevRateLimit
  import RateGroup

  lemma SameFlag(flag: SuspendFlag, other: SuspendFlag, s: set<SuspendFlag>, t: set<SuspendFlag>)
    requires s - {other} == t - {other} && flag != other
    ensures flag in s <==> flag in t
  {
    assert flag in s <==> flag in s - {other};
    assert flag in t <==> flag in t - {other};
  }

  lemma RestSame(s: set<SuspendFlag>, t: set<SuspendFlag>, u: set<SuspendFlag>, flag: SuspendFlag, other: SuspendFlag)
    requires s - {flag} == t - {flag} && t - {other} == u - {other}
    ensures s - {flag, other} == u - {flag, other}
  {
    assert s - {flag, other} == s - {flag} - {other} == t - {flag, other} == t - {other} - {flag} == u - {flag, other};
  }

  ghost predicate NoRepeats(ms: seq<Bufferevent>) {
    forall i, j :: 0 <= i < j < |ms| ==> ms[i] != ms[j]
  }

  /** The flags of a member after its group was suspended, or was released after it had been suspended, or neither: only
      a member whose lock can be had follows the group. */
  ghost function Followed(flags: set<SuspendFlag>, suspends: bool, suspended: bool, locked: bool): set<SuspendFlag> {
    if !locked || (!suspends && !suspended) then flags
    else if suspends then flags + {SuspendBwGroup}
    else flags - {SuspendBwGroup}
  }

  class Group {
    var members: seq<Bufferevent>
    var readSuspended: bool
    var writeSuspended: bool
    var pendingUnsuspendRead: bool
    var pendingUnsuspendWrite: bool
    var cfg: Cfg
    const limit: Bucket
    var minShare: ssize
    var configuredMinShare: ssize
    var totalRead: size
    var totalWrite: size
    /** master_refill_event is pending, with this period. */
    var timerPending: bool
    var period: Timeval

    /** bufferevent_rate_limit_group_new */
    constructor (cfg: Cfg, tick: u32, addOk: bool)
      requires cfg.Valid()
      ensures Inv() && Capped() && Exhausted() && members == [] && fresh(limit) && timerPending == addOk && period == cfg.tickTimeout
      ensures this.cfg == cfg && configuredMinShare == 64 && minShare == RateGroup.Min3(64, cfg.readRate, cfg.writeRate)
      ensures !readSuspended && !writeSuspended && !pendingUnsuspendRead && !pendingUnsuspendWrite && totalRead == totalWrite == 0
      ensures limit.readLimit == cfg.readRate && limit.writeLimit == cfg.writeRate && limit.lastUpdated == tick
    {
      limit := new Bucket();
      members, readSuspended, writeSuspended, pendingUnsuspendRead, pendingUnsuspendWrite := [], false, false, false, false;
      this.cfg, totalRead, totalWrite, timerPending, period := cfg, 0, 0, addOk, cfg.tickTimeout;
      new;
      limit.Init(cfg, tick, false);
      var _ := SetMinShare(64);
    }

    /** A suspended member will be looked at again; what holds whenever the group lock is free. */
    ghost predicate Inv()
      reads this, members
    {
      NoRepeats(members) && cfg.Valid() &&
      !(readSuspended && pendingUnsuspendRead) && !(writeSuspended && pendingUnsuspendWrite) &&
      (forall m <- members :: SuspendBwGroup in m.readSuspended ==> readSuspended || pendingUnsuspendRead) &&
      (forall m <- members :: SuspendBwGroup in m.writeSuspended ==> writeSuspended || pendingUnsuspendWrite) &&
      0 <= configuredMinShare && minShare == RateGroup.Min3(configuredMinShare, cfg.readRate, cfg.writeRate)
    }

    ghost predicate Capped()
      reads this, limit
    {
      limit.readLimit <= cfg.readMaximum && limit.writeLimit <= cfg.writeMaximum
    }

    /** An exhausted direction is suspended: it stays so as long as the minimum share is not zero. */
    ghost predicate Exhausted()
      reads this, limit
    {
      (limit.readLimit <= 0 ==> readSuspended) && (limit.writeLimit <= 0 ==> writeSuspended)
    }

    /** bufferevent_rate_limit_group_set_min_share */
    method SetMinShare(share: nat) returns (r: int)
      requires cfg.Valid()
      modifies this`minShare, this`configuredMinShare
      ensures r == if share > SSIZE_MAX then -1 else 0
      ensures r == 0 ==> configuredMinShare == share && minShare == RateGroup.Min3(share, cfg.readRate, cfg.writeRate)
      ensures r == -1 ==> configuredMinShare == old(configuredMinShare) && minShare == old(minShare)
      ensures old(Inv()) ==> Inv()
    {
      if share > SSIZE_MAX {
        return -1;
      }
      configuredMinShare := share;
      var s := share;
      if s > cfg.readRate {
        s := cfg.readRate;
      }
      if s > cfg.writeRate {
        s := cfg.writeRate;
      }
      minShare := s;
      return 0;
    }

    /** The limits are clipped to the maxima. */
    method Clip()
      requires cfg.Valid()
      modifies limit`readLimit, limit`writeLimit
      ensures Capped() && (old(Exhausted()) ==> Exhausted())
      ensures limit.readLimit == Min(old(limit.readLimit), cfg.readMaximum) && limit.writeLimit == Min(old(limit.writeLimit), cfg.writeMaximum)
    {
      if limit.readLimit > cfg.readMaximum {
        limit.readLimit := cfg.readMaximum;
      }
      if limit.writeLimit > cfg.writeMaximum {
        limit.writeLimit := cfg.writeMaximum;
      }
    }

    /** bufferevent_rate_limit_group_set_cfg: the timer starts again only for another tick length. */
    method SetCfg(cfg': Cfg?, addOk: bool) returns (r: int)
      requires Inv() && (cfg' != null ==> cfg'.Valid())
      modifies this`cfg, this`minShare, this`configuredMinShare, this`timerPending, this`period, limit`readLimit, limit`writeLimit
      ensures Inv() && (r == -1 <==> cfg' == null) && (r == 0 <==> cfg' != null)
      ensures cfg' == null ==> unchanged(this) && unchanged(limit)
      ensures cfg' != null ==> Capped() && (old(Exhausted()) ==> Exhausted()) && cfg == cfg' && configuredMinShare == old(configuredMinShare)
      ensures cfg' != null ==>
        limit.readLimit == Min(old(limit.readLimit), cfg'.readMaximum) && limit.writeLimit == Min(old(limit.writeLimit), cfg'.writeMaximum)
      ensures cfg' != null && cfg'.tickTimeout != old(cfg).tickTimeout ==>
        timerPending == (old(timerPending) || addOk) && period == if addOk then cfg'.tickTimeout else old(period)
      ensures cfg' == null || cfg'.tickTimeout == old(cfg).tickTimeout ==> timerPending == old(timerPending) && period == old(period)
    {
      if cfg' == null {
        return -1;
      }
      var sameTick := cfg.tickTimeout == cfg'.tickTimeout;
      cfg := cfg';
      Clip();
      if !sameTick && addOk {
        timerPending, period := true, cfg.tickTimeout;
      }
      var _ := SetMinShare(configuredMinShare);
      return 0;
    }

    /** _bev_group_suspend_reading: whoever cannot be locked finds out later. */
    method SuspendReading(tryOk: set<Bufferevent>)
      requires NoRepeats(members)
      modifies this`readSuspended, this`pendingUnsuspendRead, members`readSuspended
      ensures readSuspended && !pendingUnsuspendRead
      ensures forall m <- members :: m.readSuspended == old(m.readSuspended) + if m in tryOk then {SuspendBwGroup} else {}
    {
      readSuspended, pendingUnsuspendRead := true, false;
      for i := 0 to |members|
        invariant forall j :: 0 <= j < i ==>
          members[j].readSuspended == old(members[j].readSuspended) + if members[j] in tryOk then {SuspendBwGroup} else {}
        invariant forall j :: i <= j < |members| ==> members[j].readSuspended == old(members[j].readSuspended)
        modifies members`readSuspended
      {
        if members[i] in tryOk {
          members[i].readSuspended := members[i].readSuspended + {SuspendBwGroup};
        }
      }
    }

    /** One of the two loops of FOREACH_RANDOM_ORDER in _bev_group_unsuspend_reading. */
    method UnsuspendReadingFrom(lo: nat, hi: nat, tryOk: set<Bufferevent>, again0: bool) returns (again: bool)
      requires NoRepeats(members) && lo <= hi <= |members|
      modifies members[lo..hi]`readSuspended
      ensures forall j :: lo <= j < hi ==>
        members[j].readSuspended == old(members[j].readSuspended) - if members[j] in tryOk then {SuspendBwGroup} else {}
      ensures again <==> again0 || exists j :: lo <= j < hi && members[j] !in tryOk
    {
      again := again0;
      for i := lo to hi
        invariant forall j :: lo <= j < i ==>
          members[j].readSuspended == old(members[j].readSuspended) - if members[j] in tryOk then {SuspendBwGroup} else {}
        invariant forall j :: i <= j < hi ==> members[j].readSuspended == old(members[j].readSuspended)
        invariant again <==> again0 || exists j :: lo <= j < i && members[j] !in tryOk
        modifies members[lo..hi]`readSuspended
      {
        assert members[i] == members[lo..hi][i - lo];
        if members[i] in tryOk {
          members[i].readSuspended := members[i].readSuspended - {SuspendBwGroup};
        } else {
          again := true;
        }
      }
    }

    /** _bev_group_unsuspend_reading: each member is visited once, from a random one on. */
    method UnsuspendReading(which: nat, tryOk: set<Bufferevent>)
      requires NoRepeats(members)
      modifies this`readSuspended, this`pendingUnsuspendRead, members`readSuspended
      ensures !readSuspended && (pendingUnsuspendRead <==> exists m <- members :: m !in tryOk)
      ensures forall m <- members :: m.readSuspended == old(m.readSuspended) - if m in tryOk then {SuspendBwGroup} else {}
    {
      readSuspended := false;
      var again := false;
      if members != [] {
        var first := which % |members|;
        again := UnsuspendReadingFrom(first, |members|, tryOk, again);
        again := UnsuspendReadingFrom(0, first, tryOk, again);
        assert forall j :: first <= j < |members| ==> members[j] !in members[0..first];
        assert forall j :: 0 <= j < first ==> members[j] !in members[first..];
      }
      pendingUnsuspendRead := again;
    }

    /** What _bufferevent_decrement_read_buckets does to the group. */
    method ChargeRead(bytes: ssize, which: nat, tryOk: set<Bufferevent>)
      requires Inv() && SSIZE_MIN <= limit.readLimit - bytes <= SSIZE_MAX
      modifies this`readSuspended, this`pendingUnsuspendRead, this`totalRead, limit`readLimit, members`readSuspended
      ensures Inv() && limit.readLimit == old(limit.readLimit) - bytes && totalRead == (old(totalRead) + bytes) % U64
      ensures readSuspended <==> limit.readLimit <= 0
      ensures pendingUnsuspendRead <==>
        limit.readLimit > 0 && if old(readSuspended) then exists m <- members :: m !in tryOk else old(pendingUnsuspendRead)
      ensures forall m <- members :: m.readSuspended == Followed(old(m.readSuspended), limit.readLimit <= 0, old(readSuspended), m in tryOk)
    {
      limit.readLimit := limit.readLimit - bytes;
      totalRead := (totalRead + bytes) % U64;
      if limit.readLimit <= 0 {
        SuspendReading(tryOk);
      } else if readSuspended {
        UnsuspendReading(which, tryOk);
      }
    }

    /** bufferevent_rate_limit_group_decrement_read: the program charges the group itself. Nothing is suspended when the
        limit was not positive before. */
    method DecrementRead(decr: ssize, which: nat, tryOk: set<Bufferevent>)
      requires Inv() && SSIZE_MIN <= limit.readLimit - decr <= SSIZE_MAX
      modifies this`readSuspended, this`pendingUnsuspendRead, limit`readLimit, members`readSuspended
      ensures Inv() && limit.readLimit == old(limit.readLimit) - decr
      ensures (old(limit.readLimit) > 0) == (limit.readLimit > 0) ==>
        readSuspended == old(readSuspended) && pendingUnsuspendRead == old(pendingUnsuspendRead) && forall m <- members :: m.readSuspended == old(m.readSuspended)
      ensures (old(limit.readLimit) > 0) != (limit.readLimit > 0) ==>
        (readSuspended <==> limit.readLimit <= 0) && (pendingUnsuspendRead <==> limit.readLimit > 0 && exists m <- members :: m !in tryOk) &&
        forall m <- members :: m.readSuspended == Followed(old(m.readSuspended), limit.readLimit <= 0, true, m in tryOk)
    {
      var oldLimit := limit.readLimit;
      limit.readLimit := limit.readLimit - decr;
      var newLimit := limit.readLimit;
      if oldLimit > 0 && newLimit <= 0 {
        SuspendReading(tryOk);
      } else if oldLimit <= 0 && newLimit > 0 {
        UnsuspendReading(which, tryOk);
      }
    }

    /** _bev_group_suspend_writing: whoever cannot be locked finds out later. */
    method SuspendWriting(tryOk: set<Bufferevent>)
      requires NoRepeats(members)
      modifies this`writeSuspended, this`pendingUnsuspendWrite, members`writeSuspended
      ensures writeSuspended && !pendingUnsuspendWrite
      ensures forall m <- members :: m.writeSuspended == old(m.writeSuspended) + if m in tryOk then {SuspendBwGroup} else {}
    {
      writeSuspended, pendingUnsuspendWrite := true, false;
      for i := 0 to |members|
        invariant forall j :: 0 <= j < i ==>
          members[j].writeSuspended == old(members[j].writeSuspended) + if members[j] in tryOk then {SuspendBwGroup} else {}
        invariant forall j :: i <= j < |members| ==> members[j].writeSuspended == old(members[j].writeSuspended)
        modifies members`writeSuspended
      {
        if members[i] in tryOk {
          members[i].writeSuspended := members[i].writeSuspended + {SuspendBwGroup};
        }
      }
    }

    /** One of the two loops of FOREACH_RANDOM_ORDER in _bev_group_unsuspend_writing. */
    method UnsuspendWritingFrom(lo: nat, hi: nat, tryOk: set<Bufferevent>, again0: bool) returns (again: bool)
      requires NoRepeats(members) && lo <= hi <= |members|
      modifies members[lo..hi]`writeSuspended
      ensures forall j :: lo <= j < hi ==>
        members[j].writeSuspended == old(members[j].writeSuspended) - if members[j] in tryOk then {SuspendBwGroup} else {}
      ensures again <==> again0 || exists j :: lo <= j < hi && members[j] !in tryOk
    {
      again := again0;
      for i := lo to hi
        invariant forall j :: lo <= j < i ==>
          members[j].writeSuspended == old(members[j].writeSuspended) - if members[j] in tryOk then {SuspendBwGroup} else {}
        invariant forall j :: i <= j < hi ==> members[j].writeSuspended == old(members[j].writeSuspended)
        invariant again <==> again0 || exists j :: lo <= j < i && members[j] !in tryOk
        modifies members[lo..hi]`writeSuspended
      {
        assert members[i] == members[lo..hi][i - lo];
        if members[i] in tryOk {
          members[i].writeSuspended := members[i].writeSuspended - {SuspendBwGroup};
        } else {
          again := true;
        }
      }
    }

    /** _bev_group_unsuspend_writing: each member is visited once, from a random one on. */
    method UnsuspendWriting(which: nat, tryOk: set<Bufferevent>)
      requires NoRepeats(members)
      modifies this`writeSuspended, this`pendingUnsuspendWrite, members`writeSuspended
      ensures !writeSuspended && (pendingUnsuspendWrite <==> exists m <- members :: m !in tryOk)
      ensures forall m <- members :: m.writeSuspended == old(m.writeSuspended) - if m in tryOk then {SuspendBwGroup} else {}
    {
      writeSuspended := false;
      var again := false;
      if members != [] {
        var first := which % |members|;
        again := UnsuspendWritingFrom(first, |members|, tryOk, again);
        again := UnsuspendWritingFrom(0, first, tryOk, again);
        assert forall j :: first <= j < |members| ==> members[j] !in members[0..first];
        assert forall j :: 0 <= j < first ==> members[j] !in members[first..];
      }
      pendingUnsuspendWrite := again;
    }

    /** What _bufferevent_decrement_write_buckets does to the group. */
    method ChargeWrite(bytes: ssize, which: nat, tryOk: set<Bufferevent>)
      requires Inv() && SSIZE_MIN <= limit.writeLimit - bytes <= SSIZE_MAX
      modifies this`writeSuspended, this`pendingUnsuspendWrite, this`totalWrite, limit`writeLimit, members`writeSuspended
      ensures Inv() && limit.writeLimit == old(limit.writeLimit) - bytes && totalWrite == (old(totalWrite) + bytes) % U64
      ensures writeSuspended <==> limit.writeLimit <= 0
      ensures pendingUnsuspendWrite <==>
        limit.writeLimit > 0 && if old(writeSuspended) then exists m <- members :: m !in tryOk else old(pendingUnsuspendWrite)
      ensures forall m <- members :: m.writeSuspended == Followed(old(m.writeSuspended), limit.writeLimit <= 0, old(writeSuspended), m in tryOk)
    {
      limit.writeLimit := limit.writeLimit - bytes;
      totalWrite := (totalWrite + bytes) % U64;
      if limit.writeLimit <= 0 {
        SuspendWriting(tryOk);
      } else if writeSuspended {
        UnsuspendWriting(which, tryOk);
      }
    }

    /** bufferevent_rate_limit_group_decrement_write: the program charges the group itself. Nothing is suspended when the
        limit was not positive before. */
    method DecrementWrite(decr: ssize, which: nat, tryOk: set<Bufferevent>)
      requires Inv() && SSIZE_MIN <= limit.writeLimit - decr <= SSIZE_MAX
      modifies this`writeSuspended, this`pendingUnsuspendWrite, limit`writeLimit, members`writeSuspended
      ensures Inv() && limit.writeLimit == old(limit.writeLimit) - decr
      ensures (old(limit.writeLimit) > 0) == (limit.writeLimit > 0) ==>
        writeSuspended == old(writeSuspended) && pendingUnsuspendWrite == old(pendingUnsuspendWrite) && forall m <- members :: m.writeSuspended == old(m.writeSuspended)
      ensures (old(limit.writeLimit) > 0) != (limit.writeLimit > 0) ==>
        (writeSuspended <==> limit.writeLimit <= 0) && (pendingUnsuspendWrite <==> limit.writeLimit > 0 && exists m <- members :: m !in tryOk) &&
        forall m <- members :: m.writeSuspended == Followed(old(m.writeSuspended), limit.writeLimit <= 0, true, m in tryOk)
    {
      var oldLimit := limit.writeLimit;
      limit.writeLimit := limit.writeLimit - decr;
      var newLimit := limit.writeLimit;
      if oldLimit > 0 && newLimit <= 0 {
        SuspendWriting(tryOk);
      } else if oldLimit <= 0 && newLimit > 0 {
        UnsuspendWriting(which, tryOk);
      }
    }

    ghost function ReadDue(tick: u32): int
      reads this, limit
    {
      Due(limit.readLimit, cfg.readMaximum, cfg.readRate, limit.lastUpdated, tick)
    }

    ghost function WriteDue(tick: u32): int
      reads this, limit
    {
      Due(limit.writeLimit, cfg.writeMaximum, cfg.writeRate, limit.lastUpdated, tick)
    }

    /** The part of _bev_group_refill_callback for reading. */
    method ReleaseReading(which: nat, tryOk: set<Bufferevent>)
      requires Inv()
      modifies this`readSuspended, this`pendingUnsuspendRead, members`readSuspended
      ensures Inv() && (readSuspended <==> old(readSuspended) && limit.readLimit < minShare)
      ensures !readSuspended && (old(readSuspended) || old(pendingUnsuspendRead)) ==>
        (pendingUnsuspendRead <==> exists m <- members :: m !in tryOk) &&
        forall m <- members :: m.readSuspended == Followed(old(m.readSuspended), false, true, m in tryOk)
      ensures readSuspended || !(old(readSuspended) || old(pendingUnsuspendRead)) ==>
        pendingUnsuspendRead == old(pendingUnsuspendRead) && forall m <- members :: m.readSuspended == old(m.readSuspended)
    {
      if pendingUnsuspendRead || (readSuspended && limit.readLimit >= minShare) {
        UnsuspendReading(which, tryOk);
      }
    }

    /** The part of _bev_group_refill_callback for writing. */
    method ReleaseWriting(which: nat, tryOk: set<Bufferevent>)
      requires Inv()
      modifies this`writeSuspended, this`pendingUnsuspendWrite, members`writeSuspended
      ensures Inv() && (writeSuspended <==> old(writeSuspended) && limit.writeLimit < minShare)
      ensures !writeSuspended && (old(writeSuspended) || old(pendingUnsuspendWrite)) ==>
        (pendingUnsuspendWrite <==> exists m <- members :: m !in tryOk) &&
        forall m <- members :: m.writeSuspended == Followed(old(m.writeSuspended), false, true, m in tryOk)
      ensures writeSuspended || !(old(writeSuspended) || old(pendingUnsuspendWrite)) ==>
        pendingUnsuspendWrite == old(pendingUnsuspendWrite) && forall m <- members :: m.writeSuspended == old(m.writeSuspended)
    {
      if pendingUnsuspendWrite || (writeSuspended && limit.writeLimit >= minShare) {
        UnsuspendWriting(which, tryOk);
      }
    }

    /** _bev_group_refill_callback: each direction is unsuspended as soon as its limit is up to the minimum share, and an
        unsuspension that could not get all locks goes on. */
    method RefillCallback(tick: u32, which: nat, tryOk: set<Bufferevent>, which': nat, tryOk': set<Bufferevent>)
      requires Inv()
      modifies this`readSuspended, this`writeSuspended, this`pendingUnsuspendRead, this`pendingUnsuspendWrite
      modifies limit, members`readSuspended, members`writeSuspended
      ensures Inv() && limit.readLimit == old(ReadDue(tick)) && limit.writeLimit == old(WriteDue(tick))
      ensures limit.lastUpdated == if 1 <= Ticks(old(limit.lastUpdated), tick) <= INT_MAX then tick else old(limit.lastUpdated)
      ensures readSuspended <==> old(readSuspended) && limit.readLimit < minShare
      ensures writeSuspended <==> old(writeSuspended) && limit.writeLimit < minShare
      ensures old(Capped() && Exhausted()) && minShare > 0 ==> Capped() && Exhausted()
      ensures !readSuspended && (old(readSuspended) || old(pendingUnsuspendRead)) ==>
        (pendingUnsuspendRead <==> exists m <- members :: m !in tryOk) &&
        forall m <- members :: m.readSuspended == Followed(old(m.readSuspended), false, true, m in tryOk)
      ensures readSuspended || !(old(readSuspended) || old(pendingUnsuspendRead)) ==>
        pendingUnsuspendRead == old(pendingUnsuspendRead) && forall m <- members :: m.readSuspended == old(m.readSuspended)
      ensures !writeSuspended && (old(writeSuspended) || old(pendingUnsuspendWrite)) ==>
        (pendingUnsuspendWrite <==> exists m <- members :: m !in tryOk') &&
        forall m <- members :: m.writeSuspended == Followed(old(m.writeSuspended), false, true, m in tryOk')
      ensures writeSuspended || !(old(writeSuspended) || old(pendingUnsuspendWrite)) ==>
        pendingUnsuspendWrite == old(pendingUnsuspendWrite) && forall m <- members :: m.writeSuspended == old(m.writeSuspended)
    {
      hide Due, Followed;
      if Capped() {
        DueIs(limit.readLimit, cfg.readMaximum, cfg.readRate, limit.lastUpdated, tick);
        DueIs(limit.writeLimit, cfg.writeMaximum, cfg.writeRate, limit.lastUpdated, tick);
      }
      var _ := limit.Update(cfg, tick);
      ReleaseReading(which, tryOk);
      ReleaseWriting(which', tryOk');
    }
  }

  /** The division of C, towards zero. */
  function TruncDiv(a: int, n: int): int
    requires n > 0
  {
    if a >= 0 then a / n else -(-a / n)
  }

  /** The share of each of `n` members: what it is worth to them together. */
  lemma TruncDivIs(a: int, n: int)
    requires n > 0
    ensures a >= 0 ==> n * TruncDiv(a, n) <= a < n * (TruncDiv(a, n) + 1)
    ensures a <= 0 ==> n * (TruncDiv(a, n) - 1) < a <= n * TruncDiv(a, n)
    ensures a >= 0 ==> 0 <= TruncDiv(a, n) <= a
    ensures a <= 0 ==> a <= TruncDiv(a, n) <= 0
  {
    DivIs(if a >= 0 then a else -a, n);
  }

  lemma DivIs(b: nat, n: int)
    requires n > 0
    ensures n * (b / n) <= b < n * (b / n + 1) && 0 <= b / n <= b
  {
    var q := b / n;
    assert b == n * q + b % n;
    assert 0 <= q;
    MulLe(q, 1, n);
  }

  /** `bev` is rate limited and in the group `g`. */
  ghost predicate Joined(bev: Bufferevent, g: Group)
    reads bev, g
  {
    bev.limiting && bev in g.members && bev.limit != g.limit
  }

  function Max(a: int, b: int): int {
    if a >= b then a else b
  }

  /** What _bufferevent_get_rlim_max grants a member of the group `g`: its part of the group's limit, but at least the
      minimum share; nothing while the group is suspended. */
  ghost function Share(g: Group, isWrite: bool): int
    requires g.members != []
    reads g, g.limit
  {
    if (if isWrite then g.writeSuspended else g.readSuspended) then 0
    else Max(TruncDiv(if isWrite then g.limit.writeLimit else g.limit.readLimit, |g.members|), g.minShare)
  }

  /** _bufferevent_get_rlim_max: the smaller of what the bufferevent itself and its group allow. A member that missed the
      suspension of its group suspends itself. The constant caps the result exactly if one of the two does. */
  method GetMax(bev: Bufferevent, g: Group?, isWrite: bool, tick: u32) returns (most: ssize)
    requires bev.Sound() && (g != null ==> Joined(bev, g) && g.Inv())
    modifies bev.limit, bev`readSuspended, bev`writeSuspended
    ensures (old(bev.Inv()) ==> bev.Inv()) && (g != null ==> g.Inv())
    ensures if bev.cfg == null then unchanged(bev.limit) else bev.limit.readLimit == old(bev.ReadDue(tick)) && bev.limit.writeLimit == old(bev.WriteDue(tick))
    ensures bev.cfg != null ==>
      bev.limit.lastUpdated == if 1 <= Ticks(old(bev.limit.lastUpdated), tick) <= INT_MAX then tick else old(bev.limit.lastUpdated)
    ensures bev.readSuspended == old(bev.readSuspended) + if g != null && !isWrite && g.readSuspended then {SuspendBwGroup} else {}
    ensures bev.writeSuspended == old(bev.writeSuspended) + if g != null && isWrite && g.writeSuspended then {SuspendBwGroup} else {}
    ensures var own := if bev.cfg == null then MAX_TO_READ_EVER else if isWrite then old(bev.WriteDue(tick)) else old(bev.ReadDue(tick));
      most == Max0(if g == null then own else Min(own, Share(g, isWrite)))
    ensures most <= MAX_TO_READ_EVER <==>
      bev.cfg == null || (if isWrite then old(bev.WriteDue(tick)) else old(bev.ReadDue(tick))) <= MAX_TO_READ_EVER ||
      (g != null && Share(g, isWrite) <= MAX_TO_READ_EVER)
  {
    hide Due;
    most := bev.OwnMax(isWrite, tick);
    if g != null {
      var share: ssize;
      if if isWrite then g.writeSuspended else g.readSuspended {
        if isWrite {
          bev.writeSuspended := bev.writeSuspended + {SuspendBwGroup};
        } else {
          bev.readSuspended := bev.readSuspended + {SuspendBwGroup};
        }
        share := 0;
      } else {
        var lim := if isWrite then g.limit.writeLimit else g.limit.readLimit;
        TruncDivIs(lim, |g.members|);
        share := TruncDiv(lim, |g.members|);
        if share < g.minShare {
          share := g.minShare;
        }
      }
      if most > share {
        most := share;
      }
    }
    if most < 0 {
      most := 0;
    }
  }

  /** Two calls in one tick, as for a bufferevent that is in no group. */
  method GetMaxTwice(bev: Bufferevent, g: Group?, isWrite: bool, tick: u32) returns (most: ssize, most': ssize)
    requires bev.Sound() && (g != null ==> Joined(bev, g) && g.Inv())
    modifies bev.limit, bev`readSuspended, bev`writeSuspended
    ensures most' == most
    ensures if bev.cfg == null then unchanged(bev.limit) else bev.limit.readLimit == old(bev.ReadDue(tick)) && bev.limit.writeLimit == old(bev.WriteDue(tick))
    ensures bev.readSuspended == old(bev.readSuspended) + if g != null && !isWrite && g.readSuspended then {SuspendBwGroup} else {}
    ensures bev.writeSuspended == old(bev.writeSuspended) + if g != null && isWrite && g.writeSuspended then {SuspendBwGroup} else {}
  {
    if bev.cfg != null {
      DueOnce(bev.limit.readLimit, bev.cfg.readMaximum, bev.cfg.readRate, bev.limit.lastUpdated, tick);
      DueOnce(bev.limit.writeLimit, bev.cfg.writeMaximum, bev.cfg.writeRate, bev.limit.lastUpdated, tick);
    }
    hide Due, Ticks;
    most := GetMax(bev, g, isWrite, tick);
    most' := GetMax(bev, g, isWrite, tick);
  }

  /** _bufferevent_decrement_read_buckets: the bufferevent is charged, then its group. */
  method DecrementReadBuckets(bev: Bufferevent, g: Group?, bytes: ssize, which: nat, tryOk: set<Bufferevent>, addOk: bool, stillRuns: bool) returns (r: int)
    requires bev.Charged() && bev.Awaited() && (bev.cfg != null ==> SSIZE_MIN <= bev.limit.readLimit - bytes <= SSIZE_MAX)
    requires g != null ==> Joined(bev, g) && g.Inv() && SSIZE_MIN <= g.limit.readLimit - bytes <= SSIZE_MAX
    modifies bev`readSuspended, bev`timerPending, bev`callbackDue, bev.limit`readLimit
    modifies (if g == null then {} else {g})`readSuspended, (if g == null then {} else {g})`pendingUnsuspendRead
    modifies (if g == null then {} else {g})`totalRead, (if g == null then {} else {g.limit})`readLimit
    modifies (if g == null then [] else g.members)`readSuspended
    ensures bev.Charged() && (r == 0 ==> bev.Awaited()) && (g != null ==> g.Inv())
    ensures r == if bev.cfg != null && bev.limit.readLimit <= 0 && !addOk then -1 else 0
    ensures bev.limit.readLimit == old(bev.limit.readLimit) - if bev.cfg != null then bytes else 0
    ensures (bev.timerPending, bev.callbackDue) == old(bev.TimerAfter(SuspendBw in bev.readSuspended, SuspendBw in bev.writeSuspended,
      bev.cfg != null && bev.limit.readLimit - bytes <= 0, bev.cfg != null && bev.limit.readLimit - bytes > 0, addOk, stillRuns))
    ensures bev.cfg != null ==> (SuspendBw in bev.readSuspended <==> bev.limit.readLimit <= 0)
    ensures bev.readSuspended - {SuspendBw, SuspendBwGroup} == old(bev.readSuspended) - {SuspendBw, SuspendBwGroup}
    ensures g == null ==> bev.readSuspended - {SuspendBw} == old(bev.readSuspended) - {SuspendBw}
    ensures g != null ==> g.limit.readLimit == old(g.limit.readLimit) - bytes && g.totalRead == (old(g.totalRead) + bytes) % U64
    ensures g != null ==> (g.readSuspended <==> g.limit.readLimit <= 0)
    ensures g != null ==> (g.pendingUnsuspendRead <==>
      g.limit.readLimit > 0 && if old(g.readSuspended) then exists m <- g.members :: m !in tryOk else old(g.pendingUnsuspendRead))
    ensures g != null ==> (SuspendBwGroup in bev.readSuspended <==>
      SuspendBwGroup in Followed(old(bev.readSuspended), g.limit.readLimit <= 0, old(g.readSuspended), bev in tryOk))
    ensures g != null ==> forall m <- g.members :: m != bev ==>
      m.readSuspended == Followed(old(m.readSuspended), g.limit.readLimit <= 0, old(g.readSuspended), m in tryOk)
  {
    r := bev.DecrementReadBuckets(bytes, addOk, stillRuns);
    if g != null {
      SameFlag(SuspendBwGroup, SuspendBw, bev.readSuspended, old(bev.readSuspended));
      label Charged:
      g.ChargeRead(bytes, which, tryOk);
      SameFlag(SuspendBw, SuspendBwGroup, bev.readSuspended, old@Charged(bev.readSuspended));
      RestSame(old(bev.readSuspended), old@Charged(bev.readSuspended), bev.readSuspended, SuspendBw, SuspendBwGroup);
    } else {
      RestSame(old(bev.readSuspended), bev.readSuspended, bev.readSuspended, SuspendBw, SuspendBwGroup);
    }
  }

  /** _bufferevent_decrement_write_buckets: the bufferevent is charged, then its group. */
  method DecrementWriteBuckets(bev: Bufferevent, g: Group?, bytes: ssize, which: nat, tryOk: set<Bufferevent>, addOk: bool, stillRuns: bool) returns (r: int)
    requires bev.Charged() && bev.Awaited() && (bev.cfg != null ==> SSIZE_MIN <= bev.limit.writeLimit - bytes <= SSIZE_MAX)
    requires g != null ==> Joined(bev, g) && g.Inv() && SSIZE_MIN <= g.limit.writeLimit - bytes <= SSIZE_MAX
    modifies bev`writeSuspended, bev`timerPending, bev`callbackDue, bev.limit`writeLimit
    modifies (if g == null then {} else {g})`writeSuspended, (if g == null then {} else {g})`pendingUnsuspendWrite
    modifies (if g == null then {} else {g})`totalWrite, (if g == null then {} else {g.limit})`writeLimit
    modifies (if g == null then [] else g.members)`writeSuspended
    ensures bev.Charged() && (r == 0 ==> bev.Awaited()) && (g != null ==> g.Inv())
    ensures r == if bev.cfg != null && bev.limit.writeLimit <= 0 && !addOk then -1 else 0
    ensures bev.limit.writeLimit == old(bev.limit.writeLimit) - if bev.cfg != null then bytes else 0
    ensures (bev.timerPending, bev.callbackDue) == old(bev.TimerAfter(SuspendBw in bev.writeSuspended, SuspendBw in bev.readSuspended,
      bev.cfg != null && bev.limit.writeLimit - bytes <= 0, bev.cfg != null && bev.limit.writeLimit - bytes > 0, addOk, stillRuns))
    ensures bev.cfg != null ==> (SuspendBw in bev.writeSuspended <==> bev.limit.writeLimit <= 0)
    ensures bev.writeSuspended - {SuspendBw, SuspendBwGroup} == old(bev.writeSuspended) - {SuspendBw, SuspendBwGroup}
    ensures g == null ==> bev.writeSuspended - {SuspendBw} == old(bev.writeSuspended) - {SuspendBw}
    ensures g != null ==> g.limit.writeLimit == old(g.limit.writeLimit) - bytes && g.totalWrite == (old(g.totalWrite) + bytes) % U64
    ensures g != null ==> (g.writeSuspended <==> g.limit.writeLimit <= 0)
    ensures g != null ==> (g.pendingUnsuspendWrite <==>
      g.limit.writeLimit > 0 && if old(g.writeSuspended) then exists m <- g.members :: m !in tryOk else old(g.pendingUnsuspendWrite))
    ensures g != null ==> (SuspendBwGroup in bev.writeSuspended <==>
      SuspendBwGroup in Followed(old(bev.writeSuspended), g.limit.writeLimit <= 0, old(g.writeSuspended), bev in tryOk))
    ensures g != null ==> forall m <- g.members :: m != bev ==>
      m.writeSuspended == Followed(old(m.writeSuspended), g.limit.writeLimit <= 0, old(g.writeSuspended), m in tryOk)
  {
    r := bev.DecrementWriteBuckets(bytes, addOk, stillRuns);
    if g != null {
      SameFlag(SuspendBwGroup, SuspendBw, bev.writeSuspended, old(bev.writeSuspended));
      label Charged:
      g.ChargeWrite(bytes, which, tryOk);
      SameFlag(SuspendBw, SuspendBwGroup, bev.writeSuspended, old@Charged(bev.writeSuspended));
      RestSame(old(bev.writeSuspended), old@Charged(bev.writeSuspended), bev.writeSuspended, SuspendBw, SuspendBwGroup);
    } else {
      RestSame(old(bev.writeSuspended), bev.writeSuspended, bev.writeSuspended, SuspendBw, SuspendBwGroup);
    }
  }
}
