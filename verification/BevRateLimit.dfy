/** Rate limiting of a single bufferevent in bufferevent_ratelim.c: charging, suspension and the refill timer. */
module BevRateLimit {
  import opened TokenBucket

  const MAX_TO_READ_EVER := 16384
  const MAX_TO_WRITE_EVER := 16384

  /** bufferevent_suspend_flags */
  datatype SuspendFlag = SuspendWm | SuspendBw | SuspendBwGroup

  /** A bufferevent whose lock is held by the caller of each method. */
  class Bufferevent {
    var limiting: bool
    var cfg: Cfg?
    const limit: Bucket
    var readSuspended: set<SuspendFlag>
    var writeSuspended: set<SuspendFlag>
    /** refill_bucket_event is pending. */
    var timerPending: bool
    /** The timer has fired and its callback has not got the lock yet. */
    var callbackDue: bool

    constructor ()
      ensures Inv() && fresh(limit) && cfg == null && !limiting
    {
      limit := new Bucket();
      limiting, cfg, readSuspended, writeSuspended, timerPending, callbackDue := false, null, {}, {}, false, false;
    }

    /** Some direction is suspended for bandwidth. */
    predicate Throttled()
      reads this
    {
      SuspendBw in readSuspended || SuspendBw in writeSuspended
    }

    /** A configuration is there only with rate limiting, and passed its checks. */
    ghost predicate Sound()
      reads this
    {
      cfg != null ==> limiting && cfg.Valid()
    }

    /** An exhausted direction is suspended; without a configuration none is. */
    ghost predicate Charged()
      reads this, limit
    {
      Sound() && if cfg == null then !Throttled()
      else (limit.readLimit <= 0 ==> SuspendBw in readSuspended) && (limit.writeLimit <= 0 ==> SuspendBw in writeSuspended)
    }

    /** The limits are within the bursts of the configuration. */
    ghost predicate Capped()
      reads this, limit
    {
      cfg != null ==> limit.readLimit <= cfg.readMaximum && limit.writeLimit <= cfg.writeMaximum
    }

    /** A throttled bufferevent has a refill coming. */
    ghost predicate Awaited()
      reads this
    {
      Throttled() ==> timerPending || callbackDue
    }

    ghost predicate Inv()
      reads this, limit
    {
      Charged() && Capped() && Awaited()
    }

    /** The timer, and its callback, after a charge or a refund in one direction: started again when that direction is
        exhausted, and given up when it is released while the other one is not throttled. */
    function TimerAfter(throttled: bool, other: bool, exhausted: bool, positive: bool, addOk: bool, stillRuns: bool): (bool, bool)
      reads this
    {
      if exhausted then (timerPending || addOk, callbackDue)
      else if positive && throttled && !other then (false, callbackDue && stillRuns)
      else (timerPending, callbackDue)
    }

    /** event_add, which may fail. */
    method EventAdd(addOk: bool) returns (r: int)
      modifies this`timerPending
      ensures timerPending == (old(timerPending) || addOk) && r == if addOk then 0 else -1
    {
      if !addOk {
        return -1;
      }
      timerPending := true;
      return 0;
    }

    /** event_del; a callback that already waits for the lock may still run. */
    method EventDel(stillRuns: bool)
      modifies this`timerPending, this`callbackDue
      ensures !timerPending && callbackDue == (old(callbackDue) && stillRuns)
    {
      timerPending, callbackDue := false, callbackDue && stillRuns;
    }

    /** The timer fires. */
    method Fire()
      requires Inv() && timerPending
      modifies this`timerPending, this`callbackDue
      ensures Inv() && !timerPending && callbackDue
    {
      timerPending, callbackDue := false, true;
    }

    /** What is due to this bufferevent in the tick `tick`. */
    ghost function ReadDue(tick: u32): int
      requires cfg != null
      reads this, limit
    {
      Due(limit.readLimit, cfg.readMaximum, cfg.readRate, limit.lastUpdated, tick)
    }

    ghost function WriteDue(tick: u32): int
      requires cfg != null
      reads this, limit
    {
      Due(limit.writeLimit, cfg.writeMaximum, cfg.writeRate, limit.lastUpdated, tick)
    }

    /** With limits within the bursts: what the ticks bring, as far as the bursts allow. */
    lemma DueWithin(tick: u32)
      requires Sound() && Capped() && cfg != null
      ensures var n := Ticks(limit.lastUpdated, tick);
        ReadDue(tick) == if 1 <= n <= INT_MAX then Min(cfg.readMaximum, limit.readLimit + n * cfg.readRate) else limit.readLimit
      ensures var n := Ticks(limit.lastUpdated, tick);
        WriteDue(tick) == if 1 <= n <= INT_MAX then Min(cfg.writeMaximum, limit.writeLimit + n * cfg.writeRate) else limit.writeLimit
      ensures limit.readLimit <= ReadDue(tick) <= cfg.readMaximum && limit.writeLimit <= WriteDue(tick) <= cfg.writeMaximum
      ensures var n := Ticks(limit.lastUpdated, tick);
        1 <= n <= INT_MAX ==> (limit.readLimit + n > 0 ==> ReadDue(tick) > 0) && (limit.writeLimit + n > 0 ==> WriteDue(tick) > 0)
    {
      hide Ticks;
      DueIs(limit.readLimit, cfg.readMaximum, cfg.readRate, limit.lastUpdated, tick);
      DueIs(limit.writeLimit, cfg.writeMaximum, cfg.writeRate, limit.lastUpdated, tick);
    }

    /** bufferevent_update_buckets */
    method UpdateBuckets(tick: u32)
      requires Sound() && cfg != null
      modifies limit
      ensures limit.readLimit == old(ReadDue(tick)) && limit.writeLimit == old(WriteDue(tick))
      ensures limit.lastUpdated == if 1 <= Ticks(old(limit.lastUpdated), tick) <= INT_MAX then tick else old(limit.lastUpdated)
      ensures old(Capped()) ==> Capped() && limit.readLimit >= old(limit.readLimit) && limit.writeLimit >= old(limit.writeLimit)
      ensures old(Capped() && Charged()) ==> Charged()
    {
      hide Due;
      if Capped() {
        DueWithin(tick);
      }
      if tick != limit.lastUpdated {
        var _ := limit.Update(cfg, tick);
      } else {
        SameTick(tick);
      }
    }

    lemma SameTick(tick: u32)
      requires cfg != null && tick == limit.lastUpdated
      ensures ReadDue(tick) == limit.readLimit && WriteDue(tick) == limit.writeLimit
    {
    }

    /** What _bufferevent_get_rlim_max starts from: with a configuration the updated limit, in the place of the constant. */
    method OwnMax(isWrite: bool, tick: u32) returns (most: ssize)
      requires Sound()
      modifies limit
      ensures old(Inv()) ==> Inv()
      ensures if cfg == null then unchanged(limit) else limit.readLimit == old(ReadDue(tick)) && limit.writeLimit == old(WriteDue(tick))
      ensures cfg != null ==>
        limit.lastUpdated == if 1 <= Ticks(old(limit.lastUpdated), tick) <= INT_MAX then tick else old(limit.lastUpdated)
      ensures most == if cfg == null then MAX_TO_READ_EVER else if isWrite then old(WriteDue(tick)) else old(ReadDue(tick))
    {
      hide Due;
      most := if isWrite then MAX_TO_WRITE_EVER else MAX_TO_READ_EVER;
      if limiting && cfg != null {
        UpdateBuckets(tick);
        most := if isWrite then limit.writeLimit else limit.readLimit;
      }
    }

    /** _bufferevent_get_rlim_max for a bufferevent that is in no group. "No matter how big our bucket gets", says the
        comment at the constant, it caps the result; it does exactly without a configuration, or when what is due is no
        more than that. */
    method GetMax(isWrite: bool, tick: u32) returns (most: ssize)
      requires Sound()
      modifies limit
      ensures old(Inv()) ==> Inv()
      ensures if cfg == null then unchanged(limit) else limit.readLimit == old(ReadDue(tick)) && limit.writeLimit == old(WriteDue(tick))
      ensures cfg != null ==>
        limit.lastUpdated == if 1 <= Ticks(old(limit.lastUpdated), tick) <= INT_MAX then tick else old(limit.lastUpdated)
      ensures most == if cfg == null then MAX_TO_READ_EVER else Max0(if isWrite then old(WriteDue(tick)) else old(ReadDue(tick)))
      ensures old(Capped()) && !isWrite ==>
        var n := Ticks(old(limit.lastUpdated), tick);
        (most <= MAX_TO_READ_EVER <==>
          (cfg == null || (if 1 <= n <= INT_MAX then Min(cfg.readMaximum, old(limit.readLimit) + n * cfg.readRate) else old(limit.readLimit)) <= MAX_TO_READ_EVER))
      ensures old(Capped()) && isWrite ==>
        var n := Ticks(old(limit.lastUpdated), tick);
        (most <= MAX_TO_WRITE_EVER <==>
          (cfg == null || (if 1 <= n <= INT_MAX then Min(cfg.writeMaximum, old(limit.writeLimit) + n * cfg.writeRate) else old(limit.writeLimit)) <= MAX_TO_WRITE_EVER))
    {
      hide Due, Ticks;
      if cfg != null && Capped() {
        DueWithin(tick);
      }
      most := OwnMax(isWrite, tick);
      if most < 0 {
        most := 0;
      }
    }

    /** _bufferevent_decrement_read_buckets, as far as this bufferevent is concerned. */
    method DecrementReadBuckets(bytes: ssize, addOk: bool, stillRuns: bool) returns (r: int)
      requires Charged() && Awaited() && (cfg != null ==> SSIZE_MIN <= limit.readLimit - bytes <= SSIZE_MAX)
      modifies this`readSuspended, this`timerPending, this`callbackDue, limit`readLimit
      ensures Charged() && (r == 0 ==> Awaited())
      ensures old(Capped()) ==> (Capped() <==> cfg == null || limit.readLimit <= cfg.readMaximum)
      ensures r == if cfg != null && limit.readLimit <= 0 && !addOk then -1 else 0
      ensures (timerPending, callbackDue) == old(TimerAfter(SuspendBw in readSuspended, SuspendBw in writeSuspended,
        cfg != null && limit.readLimit - bytes <= 0, cfg != null && limit.readLimit - bytes > 0, addOk, stillRuns))
      ensures limit.readLimit == old(limit.readLimit) - if cfg != null then bytes else 0
      ensures cfg != null ==> (SuspendBw in readSuspended <==> limit.readLimit <= 0)
      ensures readSuspended - {SuspendBw} == old(readSuspended) - {SuspendBw}
    {
      r := 0;
      if !limiting {
        return;
      }
      if cfg != null {
        limit.readLimit := limit.readLimit - bytes;
        if limit.readLimit <= 0 {
          readSuspended := readSuspended + {SuspendBw};
          r := EventAdd(addOk);
        } else if SuspendBw in readSuspended {
          if SuspendBw !in writeSuspended {
            EventDel(stillRuns);
          }
          readSuspended := readSuspended - {SuspendBw};
        }
      }
    }

    /** _bufferevent_decrement_write_buckets, as far as this bufferevent is concerned. */
    method DecrementWriteBuckets(bytes: ssize, addOk: bool, stillRuns: bool) returns (r: int)
      requires Charged() && Awaited() && (cfg != null ==> SSIZE_MIN <= limit.writeLimit - bytes <= SSIZE_MAX)
      modifies this`writeSuspended, this`timerPending, this`callbackDue, limit`writeLimit
      ensures Charged() && (r == 0 ==> Awaited())
      ensures old(Capped()) ==> (Capped() <==> cfg == null || limit.writeLimit <= cfg.writeMaximum)
      ensures r == if cfg != null && limit.writeLimit <= 0 && !addOk then -1 else 0
      ensures (timerPending, callbackDue) == old(TimerAfter(SuspendBw in writeSuspended, SuspendBw in readSuspended,
        cfg != null && limit.writeLimit - bytes <= 0, cfg != null && limit.writeLimit - bytes > 0, addOk, stillRuns))
      ensures limit.writeLimit == old(limit.writeLimit) - if cfg != null then bytes else 0
      ensures cfg != null ==> (SuspendBw in writeSuspended <==> limit.writeLimit <= 0)
      ensures writeSuspended - {SuspendBw} == old(writeSuspended) - {SuspendBw}
    {
      r := 0;
      if !limiting {
        return;
      }
      if cfg != null {
        limit.writeLimit := limit.writeLimit - bytes;
        if limit.writeLimit <= 0 {
          writeSuspended := writeSuspended + {SuspendBw};
          r := EventAdd(addOk);
        } else if SuspendBw in writeSuspended {
          if SuspendBw !in readSuspended {
            EventDel(stillRuns);
          }
          writeSuspended := writeSuspended - {SuspendBw};
        }
      }
    }

    /** bufferevent_decrement_read_limit: the program charges the bucket itself, or gives bytes back. */
    method DecrementReadLimit(decr: ssize, addOk: bool, stillRuns: bool) returns (r: int)
      requires Charged() && Awaited() && cfg != null && SSIZE_MIN <= limit.readLimit - decr <= SSIZE_MAX
      modifies this`readSuspended, this`timerPending, this`callbackDue, limit`readLimit
      ensures Charged() && (r == 0 ==> Awaited())
      ensures old(Capped()) ==> (Capped() <==> limit.readLimit <= cfg.readMaximum)
      ensures r == if limit.readLimit <= 0 < old(limit.readLimit) && !addOk then -1 else 0
      ensures (timerPending, callbackDue) == old(TimerAfter(true, SuspendBw in writeSuspended,
        limit.readLimit - decr <= 0 < limit.readLimit, limit.readLimit <= 0 < limit.readLimit - decr, addOk, stillRuns))
      ensures limit.readLimit == old(limit.readLimit) - decr
      ensures SuspendBw in readSuspended <==>
        limit.readLimit <= 0 || (old(limit.readLimit) > 0 && SuspendBw in old(readSuspended))
      ensures readSuspended - {SuspendBw} == old(readSuspended) - {SuspendBw}
    {
      r := 0;
      var oldLimit := limit.readLimit;
      limit.readLimit := limit.readLimit - decr;
      var newLimit := limit.readLimit;
      if oldLimit > 0 && newLimit <= 0 {
        readSuspended := readSuspended + {SuspendBw};
        r := EventAdd(addOk);
      } else if oldLimit <= 0 && newLimit > 0 {
        if SuspendBw !in writeSuspended {
          EventDel(stillRuns);
        }
        readSuspended := readSuspended - {SuspendBw};
      }
    }

    /** bufferevent_decrement_write_limit */
    method DecrementWriteLimit(decr: ssize, addOk: bool, stillRuns: bool) returns (r: int)
      requires Charged() && Awaited() && cfg != null && SSIZE_MIN <= limit.writeLimit - decr <= SSIZE_MAX
      modifies this`writeSuspended, this`timerPending, this`callbackDue, limit`writeLimit
      ensures Charged() && (r == 0 ==> Awaited())
      ensures old(Capped()) ==> (Capped() <==> limit.writeLimit <= cfg.writeMaximum)
      ensures r == if limit.writeLimit <= 0 < old(limit.writeLimit) && !addOk then -1 else 0
      ensures (timerPending, callbackDue) == old(TimerAfter(true, SuspendBw in readSuspended,
        limit.writeLimit - decr <= 0 < limit.writeLimit, limit.writeLimit <= 0 < limit.writeLimit - decr, addOk, stillRuns))
      ensures limit.writeLimit == old(limit.writeLimit) - decr
      ensures SuspendBw in writeSuspended <==>
        limit.writeLimit <= 0 || (old(limit.writeLimit) > 0 && SuspendBw in old(writeSuspended))
      ensures writeSuspended - {SuspendBw} == old(writeSuspended) - {SuspendBw}
    {
      r := 0;
      var oldLimit := limit.writeLimit;
      limit.writeLimit := limit.writeLimit - decr;
      var newLimit := limit.writeLimit;
      if oldLimit > 0 && newLimit <= 0 {
        writeSuspended := writeSuspended + {SuspendBw};
        r := EventAdd(addOk);
      } else if oldLimit <= 0 && newLimit > 0 {
        if SuspendBw !in readSuspended {
          EventDel(stillRuns);
        }
        writeSuspended := writeSuspended - {SuspendBw};
      }
    }

    /** _bev_refill_callback: a direction is released exactly when its refilled limit is positive. Only with limits above
        their maxima may the update exhaust one that is not suspended. */
    method RefillCallback(tick: u32, addOk: bool)
      requires Charged() && Awaited() && callbackDue
      modifies this`readSuspended, this`writeSuspended, this`timerPending, this`callbackDue, limit
      ensures (old(Capped()) ==> Charged() && Capped()) && (addOk || !Throttled() || old(timerPending) ==> Awaited()) && !callbackDue
      ensures timerPending == (old(timerPending) || (Throttled() && addOk))
      ensures if cfg == null then unchanged(limit) else limit.readLimit == old(ReadDue(tick)) && limit.writeLimit == old(WriteDue(tick))
      ensures cfg != null ==>
        limit.lastUpdated == if 1 <= Ticks(old(limit.lastUpdated), tick) <= INT_MAX then tick else old(limit.lastUpdated)
      ensures readSuspended - {SuspendBw} == old(readSuspended) - {SuspendBw} && writeSuspended - {SuspendBw} == old(writeSuspended) - {SuspendBw}
      ensures SuspendBw in readSuspended <==> SuspendBw in old(readSuspended) && limit.readLimit <= 0
      ensures SuspendBw in writeSuspended <==> SuspendBw in old(writeSuspended) && limit.writeLimit <= 0
      ensures old(Capped()) ==> var n := Ticks(old(limit.lastUpdated), tick);
        1 <= n <= INT_MAX && old(limit.readLimit) + n > 0 ==> SuspendBw !in readSuspended
      ensures old(Capped()) ==> var n := Ticks(old(limit.lastUpdated), tick);
        1 <= n <= INT_MAX && old(limit.writeLimit) + n > 0 ==> SuspendBw !in writeSuspended
    {
      hide Due, Ticks;
      var again := false;
      callbackDue := false;
      if !limiting || cfg == null {
        return;
      }
      if Capped() {
        DueWithin(tick);
      }
      var _ := limit.Update(cfg, tick);
      if SuspendBw in readSuspended {
        if limit.readLimit > 0 {
          readSuspended := readSuspended - {SuspendBw};
        } else {
          again := true;
        }
      }
      if SuspendBw in writeSuspended {
        if limit.writeLimit > 0 {
          writeSuspended := writeSuspended - {SuspendBw};
        } else {
          again := true;
        }
      }
      if again {
        var _ := EventAdd(addOk);
      }
    }

    /** bufferevent_set_rate_limit */
    method SetRateLimit(cfg': Cfg?, tick: u32, callocOk: bool, addOk: bool, stillRuns: bool) returns (r: int)
      requires Charged() && Awaited() && (cfg' != null ==> cfg'.Valid())
      modifies this, limit
      ensures Charged() && (old(Capped()) || (r == 0 && cfg' != old(cfg)) ==> Capped()) && (addOk || !Throttled() ==> Awaited())
      ensures r == if cfg' != null && !old(limiting) && !callocOk then -1 else 0
      ensures r == 0 ==> cfg == cfg'
      ensures r == 0 && cfg' != null && cfg' != old(cfg) ==>
        (SuspendBw in readSuspended <==> limit.readLimit <= 0) && (SuspendBw in writeSuspended <==> limit.writeLimit <= 0)
      ensures r == 0 && cfg' != null && old(cfg) == null ==>
        limit.readLimit == cfg'.readRate && limit.writeLimit == cfg'.writeRate && limit.lastUpdated == tick
      ensures cfg' != null && old(cfg) != null && cfg' != old(cfg) ==>
        limit.readLimit == Min(old(limit.readLimit), cfg'.readMaximum) && limit.writeLimit == Min(old(limit.writeLimit), cfg'.writeMaximum)
      ensures cfg' == null || old(cfg) != null ==> limit.lastUpdated == old(limit.lastUpdated)
      ensures limiting == (old(limiting) || (cfg' != null && callocOk))
      ensures r == 0 && cfg' == null && old(limiting) ==> !timerPending && callbackDue == (old(callbackDue) && stillRuns)
      ensures r == 0 && cfg' != null && cfg' != old(cfg) && old(cfg) != null ==>
        timerPending == (Throttled() && addOk) && callbackDue == (old(callbackDue) && stillRuns)
      ensures r == 0 && cfg' != null && old(cfg) == null ==>
        timerPending == (old(timerPending) || (Throttled() && addOk)) && callbackDue == old(callbackDue)
      ensures r != 0 || (cfg' != null && cfg' == old(cfg)) || !limiting ==> timerPending == old(timerPending) && callbackDue == old(callbackDue)
      ensures r != 0 || cfg' == old(cfg) ==> cfg == old(cfg) && unchanged(limit) && readSuspended == old(readSuspended) && writeSuspended == old(writeSuspended)
      ensures readSuspended - {SuspendBw} == old(readSuspended) - {SuspendBw} && writeSuspended - {SuspendBw} == old(writeSuspended) - {SuspendBw}
    {
      if cfg' == null {
        if limiting {
          cfg := null;
          readSuspended, writeSuspended := readSuspended - {SuspendBw}, writeSuspended - {SuspendBw};
          EventDel(stillRuns);
        }
        return 0;
      }
      if limiting && cfg == cfg' {
        return 0;
      }
      if !limiting {
        if !callocOk {
          return -1;
        }
        limiting := true;
      }
      var reinit := cfg != null;
      cfg := cfg';
      limit.Init(cfg, tick, reinit);
      if reinit {
        EventDel(stillRuns);
      }
      SuspendByLimits(addOk);
      return 0;
    }

    /** The end of bufferevent_set_rate_limit. */
    method SuspendByLimits(addOk: bool)
      requires Sound() && cfg != null
      modifies this`readSuspended, this`writeSuspended, this`timerPending
      ensures Charged() && (addOk || !Throttled() ==> Awaited())
      ensures SuspendBw in readSuspended <==> limit.readLimit <= 0
      ensures SuspendBw in writeSuspended <==> limit.writeLimit <= 0
      ensures timerPending == (old(timerPending) || (Throttled() && addOk))
      ensures readSuspended - {SuspendBw} == old(readSuspended) - {SuspendBw} && writeSuspended - {SuspendBw} == old(writeSuspended) - {SuspendBw}
    {
      var suspended := false;
      if limit.readLimit > 0 {
        readSuspended := readSuspended - {SuspendBw};
      } else {
        readSuspended := readSuspended + {SuspendBw};
        suspended := true;
      }
      if limit.writeLimit > 0 {
        writeSuspended := writeSuspended - {SuspendBw};
      } else {
        writeSuspended := writeSuspended + {SuspendBw};
        suspended := true;
      }
      if suspended {
        var _ := EventAdd(addOk);
      }
    }
  }

  /** Nothing more is due in the tick of the last update. */
  lemma DueOnce(limit: int, maximum: int, rate: int, last: u32, tick: u32)
    ensures var last' := if 1 <= Ticks(last, tick) <= INT_MAX then tick else last;
      Due(Due(limit, maximum, rate, last, tick), maximum, rate, last', tick) == Due(limit, maximum, rate, last, tick)
  {
    assert Ticks(tick, tick) == 0;
  }

  /** Two calls in one tick: the second returns the same number and leaves the bucket as it is. */
  method GetMaxTwice(bev: Bufferevent, isWrite: bool, tick: u32) returns (most: ssize, most': ssize)
    requires bev.Sound()
    modifies bev.limit
    ensures most' == most
    ensures if bev.cfg == null then unchanged(bev.limit) else bev.limit.readLimit == old(bev.ReadDue(tick)) && bev.limit.writeLimit == old(bev.WriteDue(tick))
    ensures bev.cfg != null ==>
      bev.limit.lastUpdated == if 1 <= Ticks(old(bev.limit.lastUpdated), tick) <= INT_MAX then tick else old(bev.limit.lastUpdated)
  {
    if bev.cfg != null {
      DueOnce(bev.limit.readLimit, bev.cfg.readMaximum, bev.cfg.readRate, bev.limit.lastUpdated, tick);
      DueOnce(bev.limit.writeLimit, bev.cfg.writeMaximum, bev.cfg.writeRate, bev.limit.lastUpdated, tick);
    }
    hide Due, Ticks;
    most := bev.GetMax(isWrite, tick);
    most' := bev.GetMax(isWrite, tick);
  }

  /** A bufferevent with a configuration of any rate is allowed the whole rate in one read: more than the constant for
      each rate above it. */
  method ReadsRate(rate: size, tickLen: Timeval, tick: u32) returns (bev: Bufferevent, most: ssize)
    requires 1 <= rate <= SSIZE_MAX
    ensures fresh(bev) && fresh(bev.limit) && bev.Inv() && bev.cfg != null && bev.cfg.readRate == bev.cfg.readMaximum == rate
    ensures most == rate && (most > MAX_TO_READ_EVER <==> rate > MAX_TO_READ_EVER)
  {
    hide Due, Ticks;
    bev := new Bufferevent();
    var cfg := CfgNew(rate, rate, rate, rate, tickLen, true);
    var _ := bev.SetRateLimit(cfg, tick, true, true, false);
    bev.SameTick(tick);
    most := bev.GetMax(false, tick);
  }

  function Max0(a: int): nat {
    if a < 0 then 0 else a
  }
}
