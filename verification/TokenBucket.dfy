/** The token bucket of bufferevent_ratelim.c, with its unsigned and signed 64-bit arithmetic written out. */
module TokenBucket {
  const U64 := 0x1_0000_0000_0000_0000
  const U32 := 0x1_0000_0000
  const SSIZE_MAX := 0x7fff_ffff_ffff_ffff
  const SSIZE_MIN := -0x8000_0000_0000_0000
  const INT_MAX := 0x7fff_ffff
  /** The low 20 bits hold the microseconds. */
  const USEC_MASK := 0x10_0000

  type ssize = x: int | SSIZE_MIN <= x <= SSIZE_MAX
  type u32 = x: int | 0 <= x < U32

  function ToSize(x: int): int {
    x % U64
  }

  function ToSsize(x: int): ssize {
    var u := x % U64;
    if u <= SSIZE_MAX then u else u - U64
  }

  /** The type size_t. */
  type size = x: int | 0 <= x < U64

  datatype Timeval = Timeval(sec: nat, usec: nat)

  /** A configuration that ev_token_bucket_cfg_new hands out. */
  class Cfg {
    const readRate: int
    const readMaximum: int
    const writeRate: int
    const writeMaximum: int
    const tickTimeout: Timeval
    const msecPerTick: u32

    constructor (readRate: size, readBurst: size, writeRate: size, writeBurst: size, tickLen: Timeval)
      ensures this.readRate == readRate && readMaximum == readBurst && this.writeRate == writeRate && writeMaximum == writeBurst
      ensures tickTimeout == tickLen && msecPerTick == (tickLen.sec * 1000 + tickLen.usec % USEC_MASK / 1000) % U32
    {
      this.readRate, readMaximum, this.writeRate, writeMaximum := readRate, readBurst, writeRate, writeBurst;
      tickTimeout, msecPerTick := tickLen, (tickLen.sec * 1000 + tickLen.usec % USEC_MASK / 1000) % U32;
    }

    ghost predicate Valid() {
      1 <= readRate <= readMaximum <= SSIZE_MAX && 1 <= writeRate <= writeMaximum <= SSIZE_MAX
    }
  }

  /** ev_token_bucket_cfg_new: null exactly for rates or bursts that a configuration must not have, and when the
      allocation fails. */
  method CfgNew(readRate: size, readBurst: size, writeRate: size, writeBurst: size, tickLen: Timeval, callocOk: bool) returns (cfg: Cfg?)
    ensures cfg != null <==> 1 <= readRate <= readBurst <= SSIZE_MAX && 1 <= writeRate <= writeBurst <= SSIZE_MAX && callocOk
    ensures cfg != null ==> fresh(cfg) && cfg.Valid() && cfg.tickTimeout == tickLen
    ensures cfg != null ==> cfg.readRate == readRate && cfg.readMaximum == readBurst
    ensures cfg != null ==> cfg.writeRate == writeRate && cfg.writeMaximum == writeBurst
  {
    if readRate > readBurst || writeRate > writeBurst || readRate < 1 || writeRate < 1 {
      return null;
    }
    if readRate > SSIZE_MAX || writeRate > SSIZE_MAX || readBurst > SSIZE_MAX || writeBurst > SSIZE_MAX {
      return null;
    }
    if !callocOk {
      return null;
    }
    cfg := new Cfg(readRate, readBurst, writeRate, writeBurst, tickLen);
  }

  /** What ev_token_bucket_update makes of one limit after `n` ticks. */
  function Refilled(limit: ssize, maximum: ssize, rate: ssize, n: int): ssize
    requires n > 0
  {
    if ToSize(ToSize(maximum) - ToSize(limit)) / n < rate then maximum
    else ToSsize(ToSize(limit) + ToSize(n * rate))
  }

  function Min(a: int, b: int): int {
    if a <= b then a else b
  }

  /** a / n < r for the division of unsigned numbers. */
  lemma DivLess(a: nat, n: int, r: nat)
    requires n > 0
    ensures a / n < r <==> a < n * r
  {
    var q := a / n;
    assert a == n * q + a % n;
    if q < r {
      assert n * (q + 1) <= n * r by { MulLe(n, q + 1, r); }
    } else {
      MulLe(n, r, q);
    }
  }

  lemma MulLe(n: int, a: int, b: int)
    requires n >= 0 && a <= b
    ensures n * a <= n * b
  {
  }

  lemma GapIs(limit: ssize, maximum: ssize)
    ensures ToSize(ToSize(maximum) - ToSize(limit)) == if limit <= maximum then maximum - limit else U64 + maximum - limit
  {
  }

  lemma WrapSum(limit: ssize, m: nat)
    ensures m < U64 && limit + m <= SSIZE_MAX ==> ToSsize(ToSize(limit) + ToSize(m)) == limit + m
    ensures m < U64 && limit + m > SSIZE_MAX && limit + m < U64 + SSIZE_MAX ==> ToSsize(ToSize(limit) + ToSize(m)) == limit + m - U64
  {
  }

  /** The limit after `n` ticks: the sum, capped at the maximum; but a limit that lies above its maximum, by so much that
      the unsigned difference is not covered by the refill, grows on and in the end wraps round. */
  function Topped(limit: int, maximum: int, rate: int, n: int): int {
    if limit <= maximum || U64 + maximum - limit <= n * rate then Min(maximum, limit + n * rate) else ToSsize(limit + n * rate)
  }

  /** The two cases of the refill, by the unsigned difference between maximum and limit. */
  lemma SumIs(limit: ssize, maximum: ssize, m: nat)
    requires maximum >= 0
    ensures ToSize(ToSize(maximum) - ToSize(limit)) < m ==>
      (limit <= maximum || U64 + maximum - limit <= m) && Min(maximum, limit + m) == maximum
    ensures ToSize(ToSize(maximum) - ToSize(limit)) >= m ==>
      ToSsize(ToSize(limit) + ToSize(m)) == if limit <= maximum || U64 + maximum - limit <= m then Min(maximum, limit + m) else ToSsize(limit + m)
    ensures limit > maximum && U64 + maximum - limit > m ==> ToSsize(limit + m) != Min(maximum, limit + m)
  {
    GapIs(limit, maximum);
    WrapSum(limit, m);
  }

  /** The division that avoids the overflow computes that. */
  lemma RefilledIs(limit: ssize, maximum: ssize, rate: ssize, n: int)
    requires 1 <= rate <= maximum && 1 <= n <= INT_MAX
    ensures Refilled(limit, maximum, rate, n) == Topped(limit, maximum, rate, n)
    ensures Refilled(limit, maximum, rate, n) == Min(maximum, limit + n * rate) <==> limit <= maximum || U64 + maximum - limit <= n * rate
  {
    var gap := ToSize(ToSize(maximum) - ToSize(limit));
    DivLess(gap, n, rate);
    MulLe(rate, 1, n);
    hide ToSize, ToSsize, Min;
    SumIs(limit, maximum, n * rate);
  }

  /** What is due to a limit in the tick `tick` that was last updated in the tick `last`. A difference of zero ticks or of
      more than INT_MAX counts as no time. */
  function Due(limit: int, maximum: int, rate: int, last: u32, tick: u32): int {
    var n := Ticks(last, tick);
    if 1 <= n <= INT_MAX then Topped(limit, maximum, rate, n) else limit
  }

  /** A limit within its maximum gets what the ticks bring, as far as the maximum allows. */
  lemma DueIs(limit: int, maximum: int, rate: int, last: u32, tick: u32)
    requires 1 <= rate <= maximum && limit <= maximum
    ensures var n := Ticks(last, tick); Due(limit, maximum, rate, last, tick) == if 1 <= n <= INT_MAX then Min(maximum, limit + n * rate) else limit
    ensures limit <= Due(limit, maximum, rate, last, tick) <= maximum
    ensures 1 <= Ticks(last, tick) <= INT_MAX && limit + Ticks(last, tick) > 0 ==> Due(limit, maximum, rate, last, tick) > 0
  {
    hide Ticks;
    MulLe(Ticks(last, tick), 1, rate);
  }

  /** Two refills in a row are one. */
  lemma RefillTwice(limit: ssize, maximum: ssize, rate: ssize, n: int, n': int)
    requires 1 <= rate <= maximum && limit <= maximum && 1 <= n && 1 <= n' && n + n' <= INT_MAX
    ensures Refilled(Refilled(limit, maximum, rate, n), maximum, rate, n') == Refilled(limit, maximum, rate, n + n')
  {
    hide Refilled;
    RefilledIs(limit, maximum, rate, n);
    RefilledIs(Refilled(limit, maximum, rate, n), maximum, rate, n');
    RefilledIs(limit, maximum, rate, n + n');
    assert (n + n') * rate == n * rate + n' * rate;
    MulLe(rate, 1, n);
    MulLe(rate, 1, n');
  }

  /** A limit in deficit is positive again after as many ticks as it is short of tokens, whatever the rate. */
  lemma RefillEnds(limit: ssize, maximum: ssize, rate: ssize, n: int)
    requires 1 <= rate <= maximum && limit <= maximum && 1 <= n <= INT_MAX && limit + n > 0
    ensures Refilled(limit, maximum, rate, n) > 0
  {
    RefilledIs(limit, maximum, rate, n);
    MulLe(n, 1, rate);
  }

  class Bucket {
    var readLimit: ssize
    var writeLimit: ssize
    var lastUpdated: u32

    constructor ()
    {
      readLimit, writeLimit, lastUpdated := 0, 0, 0;
    }

    /** ev_token_bucket_init */
    method Init(cfg: Cfg, currentTick: u32, reinitialize: bool)
      requires cfg.Valid()
      modifies this
      ensures readLimit == if reinitialize then Min(old(readLimit), cfg.readMaximum) else cfg.readRate
      ensures writeLimit == if reinitialize then Min(old(writeLimit), cfg.writeMaximum) else cfg.writeRate
      ensures lastUpdated == if reinitialize then old(lastUpdated) else currentTick
    {
      if reinitialize {
        if readLimit > cfg.readMaximum {
          readLimit := cfg.readMaximum;
        }
        if writeLimit > cfg.writeMaximum {
          writeLimit := cfg.writeMaximum;
        }
      } else {
        readLimit, writeLimit, lastUpdated := cfg.readRate, cfg.writeRate, currentTick;
      }
    }

    /** ev_token_bucket_update */
    method Update(cfg: Cfg, currentTick: u32) returns (updated: bool)
      requires cfg.Valid()
      modifies this
      ensures updated <==> 1 <= Ticks(old(lastUpdated), currentTick) <= INT_MAX
      ensures lastUpdated == if updated then currentTick else old(lastUpdated)
      ensures readLimit == Due(old(readLimit), cfg.readMaximum, cfg.readRate, old(lastUpdated), currentTick)
      ensures writeLimit == Due(old(writeLimit), cfg.writeMaximum, cfg.writeRate, old(lastUpdated), currentTick)
    {
      hide Refilled;
      var nTicks := Ticks(lastUpdated, currentTick);
      if nTicks == 0 || nTicks > INT_MAX {
        return false;
      }
      RefilledIs(readLimit, cfg.readMaximum, cfg.readRate, nTicks);
      RefilledIs(writeLimit, cfg.writeMaximum, cfg.writeRate, nTicks);
      readLimit := Refilled(readLimit, cfg.readMaximum, cfg.readRate, nTicks);
      writeLimit := Refilled(writeLimit, cfg.writeMaximum, cfg.writeRate, nTicks);
      lastUpdated := currentTick;
      return true;
    }
  }

  /** The wrapped tick difference. */
  function Ticks(last: u32, current: u32): (n: int)
    ensures 0 <= n < U32 && (last + n) % U32 == current
  {
    (current - last) % U32
  }

  /** Tick differences add up across a wrap. */
  lemma TicksAdd(a: u32, b: u32, c: u32)
    ensures Ticks(a, b) + Ticks(b, c) == Ticks(a, c) + if Ticks(a, b) + Ticks(b, c) < U32 then 0 else U32
  {
    var m, n := Ticks(a, b), Ticks(b, c);
    assert (a + m) % U32 == b && (b + n) % U32 == c;
    assert a + m == b || a + m == b + U32;
    assert b + n == c || b + n == c + U32;
  }

  /** One limit over a run: the clock, in ticks since some beginning and not wrapped, and charges. */
  datatype Event = Clock(time: nat) | Charge(bytes: nat)
  datatype Limit = Limit(value: ssize, lastUpdated: u32)

  /** One event; a charge past the least ssize value would be undefined behaviour. */
  ghost predicate Happens(l: Limit, e: Event, maximum: ssize, rate: ssize, l': Limit) {
    match e
    case Charge(bytes) => l.value - bytes >= SSIZE_MIN && l' == Limit(l.value - bytes, l.lastUpdated)
    case Clock(time) =>
      var n := Ticks(l.lastUpdated, time % U32);
      l' == if n == 0 || n > INT_MAX then l else Limit(Refilled(l.value, maximum, rate, n), time % U32)
  }

  ghost predicate IsRun(ls: seq<Limit>, es: seq<Event>, maximum: ssize, rate: ssize) {
    |ls| == |es| + 1 && forall i :: 0 <= i < |es| ==> Happens(ls[i], es[i], maximum, rate, ls[i + 1])
  }

  function Charged(es: seq<Event>): nat {
    if es == [] then 0
    else Charged(es[..|es| - 1]) + match es[|es| - 1] case Charge(bytes) => bytes case Clock(_) => 0
  }

  /** The latest time the clock showed, starting from `t0`. */
  function Now(es: seq<Event>, t0: nat): nat {
    if es == [] then t0
    else match es[|es| - 1] case Charge(_) => Now(es[..|es| - 1], t0) case Clock(time) => time
  }

  /** The clock does not go back. */
  ghost predicate Monotone(es: seq<Event>, t0: nat) {
    forall i :: 0 <= i < |es| && es[i].Clock? ==> Now(es[..i], t0) <= es[i].time
  }

  lemma TicksElapsed(last: nat, time: nat)
    requires last <= time
    ensures Ticks(last % U32, time % U32) <= time - last && (last + Ticks(last % U32, time % U32)) % U32 == time % U32
    ensures time - last < U32 ==> Ticks(last % U32, time % U32) == time - last
  {
    var d := time - last;
    assert Ticks(last % U32, time % U32) == d % U32;
  }

  /** Over any run the tokens spent are at most the initial ones plus `rate` for each tick that has passed, less those
      that are left, however often the 32-bit tick wraps round; and the limit stays at most the maximum. */
  lemma {:induction false} Conservation(ls: seq<Limit>, es: seq<Event>, maximum: ssize, rate: ssize, t0: nat)
    requires 1 <= rate <= maximum && IsRun(ls, es, maximum, rate) && Monotone(es, t0)
    requires ls[0].value <= maximum && ls[0].lastUpdated == t0 % U32
    ensures ls[|es|].value <= maximum && t0 <= Now(es, t0)
    ensures Charged(es) <= ls[0].value + rate * (Now(es, t0) - t0) - ls[|es|].value
  {
    var _ := Balance(ls, es, maximum, rate, t0);
  }

  /** The time `last` of the last update, and the balance up to it. */
  lemma {:induction false} Balance(ls: seq<Limit>, es: seq<Event>, maximum: ssize, rate: ssize, t0: nat) returns (last: nat)
    requires 1 <= rate <= maximum && IsRun(ls, es, maximum, rate) && Monotone(es, t0)
    requires ls[0].value <= maximum && ls[0].lastUpdated == t0 % U32
    ensures t0 <= last <= Now(es, t0) && ls[|es|].lastUpdated == last % U32 && ls[|es|].value <= maximum
    ensures Charged(es) <= ls[0].value + rate * (last - t0) - ls[|es|].value
    ensures rate * (last - t0) <= rate * (Now(es, t0) - t0)
  {
    hide Refilled, Ticks, IsRun, Monotone, Happens;
    if es == [] {
      last := t0;
    } else {
      var k := |es| - 1;
      var fs, e := es[..k], es[k];
      RunPrefix(ls, es, maximum, rate);
      MonotonePrefix(es, t0);
      last := Balance(ls[..k + 1], fs, maximum, rate, t0);
      if e.Clock? {
        last := ClockStep(ls[k], maximum, rate, ls[k + 1], last, e.time, t0);
      } else {
        ChargeStep(ls[k], e.bytes, maximum, rate, ls[k + 1]);
      }
      MulLe(rate, last - t0, Now(es, t0) - t0);
    }
  }

  lemma RunPrefix(ls: seq<Limit>, es: seq<Event>, maximum: ssize, rate: ssize)
    requires IsRun(ls, es, maximum, rate)
    ensures |ls| == |es| + 1
    ensures es != [] ==> var k := |es| - 1; IsRun(ls[..k + 1], es[..k], maximum, rate) && Happens(ls[k], es[k], maximum, rate, ls[k + 1])
  {
  }

  lemma MonotonePrefix(es: seq<Event>, t0: nat)
    requires Monotone(es, t0) && es != []
    ensures Monotone(es[..|es| - 1], t0)
    ensures var e := es[|es| - 1]; e.Clock? ==> Now(es[..|es| - 1], t0) <= e.time
  {
    var fs := es[..|es| - 1];
    assert forall i :: 0 <= i < |fs| ==> es[..i] == fs[..i];
  }

  lemma ChargeStep(l: Limit, bytes: nat, maximum: ssize, rate: ssize, l': Limit)
    requires Happens(l, Charge(bytes), maximum, rate, l')
    ensures l'.value == l.value - bytes && l'.lastUpdated == l.lastUpdated
  {
  }

  lemma ClockStep(l: Limit, maximum: ssize, rate: ssize, l': Limit, last: nat, time: nat, t0: nat) returns (last': nat)
    requires 1 <= rate <= maximum && Happens(l, Clock(time), maximum, rate, l') && l.value <= maximum
    requires t0 <= last <= time && l.lastUpdated == last % U32
    ensures t0 <= last' <= time && l'.lastUpdated == last' % U32 && l'.value <= maximum
    ensures l'.value - l.value <= rate * (last' - t0) - rate * (last - t0)
  {
    hide Refilled, Ticks;
    var n := Ticks(l.lastUpdated, time % U32);
    TicksElapsed(last, time);
    last' := last;
    if 1 <= n <= INT_MAX {
      RefilledIs(l.value, maximum, rate, n);
      MulSum(rate, last - t0, n);
      last' := last + n;
    }
  }

  lemma MulSum(a: int, b: int, c: int)
    ensures a * (b + c) == a * b + c * a
  {
  }
}
