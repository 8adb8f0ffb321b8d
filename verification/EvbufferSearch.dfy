/** Searching in buffer.c: matches and line ends that may span any number of chains. */
module EvbufferSearch {
  import opened Flatten
  import opened Evbuffer

  const CR: byte := 13
  const LF: byte := 10
  const CHUNK_SZ := 128
  const EV_SSIZE_MAX := 0x7fff_ffff_ffff_ffff

  /** struct evbuffer_ptr */
  datatype Ptr = Ptr(pos: int, chain: Chain?, posInChain: nat)
  datatype Option<T> = None | Some(value: T)
  datatype PtrHow = PtrSet | PtrAdd
  datatype EolStyle = EolAny | EolCrlf | EolCrlfStrict | EolLf

  /** memchr: the first index at which `c` occurs, or -1. */
  function Memchr(s: seq<byte>, c: byte): (i: int)
    ensures i == -1 || (0 <= i < |s| && s[i] == c)
    ensures forall j :: 0 <= j < (if i == -1 then |s| else i) ==> s[j] != c
  {
    if s == [] then -1
    else if s[0] == c then 0
    else
      var i := Memchr(s[1..], c);
      assert forall j :: 0 < j < |s| ==> s[j] == s[1..][j - 1];
      if i == -1 then -1 else i + 1
  }

  /** memcmp: the sign of the first difference. */
  function Memcmp(a: seq<byte>, b: seq<byte>): (r: int)
    requires |a| == |b|
    ensures r == 0 <==> a == b
  {
    if a == [] then 0
    else if a[0] < b[0] then -1
    else if a[0] > b[0] then 1
    else
      assert a == [a[0]] + a[1..] && b == [b[0]] + b[1..];
      Memcmp(a[1..], b[1..])
  }

  lemma {:induction false} MemcmpConcat(a: seq<byte>, b: seq<byte>, c: seq<byte>, d: seq<byte>)
    requires |a| == |c| && |b| == |d|
    ensures Memcmp(a + b, c + d) == if Memcmp(a, c) != 0 then Memcmp(a, c) else Memcmp(b, d)
  {
    if a == [] {
      assert a + b == b && c + d == d;
    } else {
      MemcmpConcat(a[1..], b, c[1..], d);
      assert (a + b)[1..] == a[1..] + b && (c + d)[1..] == c[1..] + d;
    }
  }

  ghost predicate Occurs(s: seq<byte>, w: seq<byte>, j: int) {
    0 <= j && j + |w| <= |s| && s[j..j + |w|] == w
  }

  /** `p` is a position in the list: in the chain at index `k`, or behind the last one. */
  ghost predicate Points(buf: EvBuffer, p: Ptr, k: nat)
    reads buf`chains, buf`segs
  {
    k <= |buf.chains| == |buf.segs| && p.pos == |Flat(buf.segs[..k])| + p.posInChain &&
    if k < |buf.chains| then p.chain == buf.chains[k] && p.posInChain <= |buf.segs[k]| else p.chain == null && p.posInChain == 0
  }

  lemma ChainAt(buf: EvBuffer, k: nat)
    requires buf.Valid() && k < |buf.chains|
    ensures |buf.segs| == |buf.chains| && buf.chains[k].off == |buf.segs[k]| && buf.chains[k].misalign + buf.chains[k].off <= buf.chains[k].buffer.Length
    ensures buf.chains[k].Live() == buf.segs[k]
    ensures buf.chains[k].next == if k + 1 < |buf.chains| then buf.chains[k + 1] else null
    ensures |Flat(buf.segs[..k + 1])| == |Flat(buf.segs[..k])| + |buf.segs[k]| <= |buf.Bytes()|
    ensures k + 1 < |buf.chains| ==> buf.segs[k + 1] != []
    ensures forall t {:trigger buf.segs[k][t]} :: 0 <= t < |buf.segs[k]| ==> buf.Bytes()[|Flat(buf.segs[..k])| + t] == buf.segs[k][t]
  {
    buf.At(k);
    HoldsLength(buf.chains[k], buf.segs[k]);
    FlatAt(buf.segs, k);
  }

  lemma WholeList(buf: EvBuffer)
    requires buf.Valid()
    ensures |buf.segs| == |buf.chains| && |Flat(buf.segs[..|buf.segs|])| == |buf.Bytes()| == buf.totalLen
    ensures |Flat(buf.segs[..0])| == 0 && buf.first == if buf.chains == [] then null else buf.chains[0]
  {
    buf.BytesAre();
    assert buf.segs[..|buf.segs|] == buf.segs;
  }

  /** A position in the list lies within the bytes. */
  lemma PosInBytes(buf: EvBuffer, p: Ptr, k: nat)
    requires buf.Valid() && Points(buf, p, k)
    ensures 0 <= p.pos <= |buf.Bytes()| && (p.chain == null <==> k == |buf.chains|) && (p.chain == null ==> p.pos == |buf.Bytes()|)
    ensures p.chain != null ==> k < |buf.chains| == |buf.segs| && p.chain == buf.chains[k]
    ensures p.chain != null ==> p.pos == |Flat(buf.segs[..k])| + p.posInChain && p.posInChain <= p.chain.off == |buf.segs[k]|
    ensures p.chain != null ==> p.pos + p.chain.off - p.posInChain <= |buf.Bytes()|
  {
    WholeList(buf);
    if k < |buf.chains| {
      ChainAt(buf, k);
    }
  }

  /** The beginning of the next chain. */
  lemma PointsNext(buf: EvBuffer, p: Ptr, k: nat)
    requires buf.Valid() && Points(buf, p, k) && p.chain != null
    ensures Points(buf, Ptr(p.pos + p.chain.off - p.posInChain, p.chain.next, 0), k + 1)
    ensures p.posInChain <= p.chain.off && k < |buf.chains|
  {
    ChainAt(buf, k);
  }

  /** evbuffer_ptr_memcmp */
  method PtrMemcmp(buf: EvBuffer, p: Ptr, mem: seq<byte>, ghost k0: nat) returns (r: int)
    requires buf.Valid() && Points(buf, p, k0)
    ensures r == if p.pos + |mem| > |buf.Bytes()| then -1 else Memcmp(buf.Bytes()[p.pos..p.pos + |mem|], mem)
    ensures r == 0 <==> Occurs(buf.Bytes(), mem, p.pos)
  {
    hide EvBuffer.Valid, EvBuffer.Bytes, Flat, Memcmp, Points, Window;
    WholeList(buf);
    PosInBytes(buf, p, k0);
    if p.pos + |mem| > buf.totalLen {
      return -1;
    }
    var chain, position: nat, rest := p.chain, p.posInChain, mem;
    ghost var k, at: nat := k0, p.pos;
    ghost var s := buf.Bytes();
    WindowParts(s, at, 0, |mem|);
    while rest != [] && chain != null
      invariant at + |rest| == p.pos + |mem| <= |s| && 0 <= p.pos <= at
      invariant rest != [] ==> Points(buf, Ptr(at, chain, position), k)
      invariant |Window(s, at, |rest|)| == |rest| && Memcmp(Window(s, p.pos, |mem|), mem) == Memcmp(Window(s, at, |rest|), rest)
      decreases |rest|, |buf.chains| - k
    {
      PosInBytes(buf, Ptr(at, chain, position), k);
      ChainAt(buf, k);
      var n := if |rest| + position > chain.off then chain.off - position else |rest|;
      LivePart(buf, k, at, position, n);
      MemcmpAt(s, at, n, rest);
      r := Memcmp(chain.Live()[position..position + n], rest[..n]);
      if r != 0 {
        WindowIs(s, p.pos, |mem|);
        return;
      }
      PointsNext(buf, Ptr(at, chain, position), k);
      rest, position, chain := rest[n..], 0, chain.next;
      at, k := at + n, k + 1;
    }
    if rest != [] {
      PosInBytes(buf, Ptr(at, chain, position), k);
    }
    MemcmpEmpty(Window(s, at, |rest|), rest);
    WindowIs(s, p.pos, |mem|);
    r := 0;
  }

  lemma WindowIs(s: seq<byte>, at: nat, n: nat)
    requires at + n <= |s|
    ensures Window(s, at, n) == s[at..at + n]
  {
  }

  /** What a chain holds is part of the bytes. */
  lemma LivePart(buf: EvBuffer, k: nat, at: nat, position: nat, n: nat)
    requires buf.Valid() && k < |buf.chains| == |buf.segs| && position + n <= |buf.segs[k]|
    requires at == |Flat(buf.segs[..k])| + position
    ensures at + n <= |buf.Bytes()| && buf.segs[k][position..position + n] == buf.Bytes()[at..at + n] == Window(buf.Bytes(), at, n)
  {
    hide EvBuffer.Valid, EvBuffer.Bytes, Flat;
    ChainAt(buf, k);
    var a, b := buf.segs[k][position..position + n], buf.Bytes()[at..at + n];
    forall t | 0 <= t < n
      ensures a[t] == b[t]
    {
      assert buf.segs[k][position + t] == buf.Bytes()[|Flat(buf.segs[..k])| + (position + t)];
    }
  }

  /** A comparison goes on where a first part was the same. */
  lemma MemcmpStep(w: seq<byte>, n: nat, rest: seq<byte>)
    requires n <= |rest| == |w|
    ensures Memcmp(w, rest) == if Memcmp(w[..n], rest[..n]) != 0 then Memcmp(w[..n], rest[..n]) else Memcmp(w[n..], rest[n..])
  {
    MemcmpConcat(w[..n], w[n..], rest[..n], rest[n..]);
    assert w == w[..n] + w[n..] && rest == rest[..n] + rest[n..];
  }

  /** The `n` bytes at `at`. */
  ghost function Window(s: seq<byte>, at: nat, n: nat): seq<byte>
    requires at + n <= |s|
  {
    s[at..at + n]
  }

  lemma WindowParts(s: seq<byte>, at: nat, n: nat, m: nat)
    requires n <= m && at + m <= |s|
    ensures |Window(s, at, m)| == m && |Window(s, at, n)| == n && |Window(s, at + n, m - n)| == m - n
    ensures Window(s, at, m)[..n] == Window(s, at, n) && Window(s, at, m)[n..] == Window(s, at + n, m - n)
  {
  }

  lemma MemcmpAt(s: seq<byte>, at: nat, n: nat, rest: seq<byte>)
    requires n <= |rest| && at + |rest| <= |s|
    ensures |Window(s, at, |rest|)| == |rest| && |Window(s, at, n)| == n && |Window(s, at + n, |rest| - n)| == |rest| - n
    ensures Memcmp(Window(s, at, |rest|), rest) ==
            if Memcmp(Window(s, at, n), rest[..n]) != 0 then Memcmp(Window(s, at, n), rest[..n])
            else Memcmp(Window(s, at + n, |rest| - n), rest[n..])
  {
    hide Memcmp, Window;
    WindowParts(s, at, n, |rest|);
    MemcmpStep(Window(s, at, |rest|), n, rest);
  }

  lemma MemcmpEmpty(a: seq<byte>, b: seq<byte>)
    requires a == [] && |b| == 0
    ensures Memcmp(a, b) == 0
  {
  }

  /** Where a search starts. */
  function From(buf: EvBuffer, start: Option<Ptr>): Ptr
    reads buf`first
  {
    if start.Some? then start.value else Ptr(0, buf.first, 0)
  }

  /** A pointer that may be handed in: one that points into the list, or one that says "not found". */
  ghost predicate Usable(buf: EvBuffer, start: Option<Ptr>, k: nat)
    reads buf`chains, buf`segs
  {
    start.Some? ==> start.value.chain == null || Points(buf, start.value, k)
  }

  ghost predicate NoMatch(s: seq<byte>, w: seq<byte>, lo: int, hi: int) {
    forall j :: lo <= j < hi ==> !Occurs(s, w, j)
  }

  /** `pos` is the least index from `lo` on at which `w` occurs, if it ends before `hi`; otherwise -1. */
  ghost predicate Least(s: seq<byte>, w: seq<byte>, lo: int, hi: int, pos: int) {
    if pos >= 0 then lo <= pos && pos + |w| <= hi && Occurs(s, w, pos) && NoMatch(s, w, lo, pos)
    else pos == -1 && NoMatch(s, w, lo, hi - |w| + 1)
  }

  /** Where the first character does not occur, the pattern does not. */
  lemma SkipBytes(s: seq<byte>, w: seq<byte>, lo: nat, live: seq<byte>, d: nat)
    requires w != [] && d <= |live| && lo + |live| <= |s| && live == s[lo..lo + |live|]
    requires forall j :: 0 <= j < d ==> live[j] != w[0]
    ensures NoMatch(s, w, lo, lo + d)
  {
    forall j | lo <= j < lo + d
      ensures !Occurs(s, w, j)
    {
      assert live[j - lo] == s[j];
    }
  }

  lemma NoMatchJoin(s: seq<byte>, w: seq<byte>, lo: int, mid: int, hi: int)
    requires NoMatch(s, w, lo, mid) && NoMatch(s, w, mid, hi)
    ensures NoMatch(s, w, lo, hi)
  {
  }

  lemma NoMatchMore(s: seq<byte>, w: seq<byte>, lo: int, hi: int, hi': int)
    requires NoMatch(s, w, lo, hi) && hi' <= hi
    ensures NoMatch(s, w, lo, hi')
  {
  }

  lemma NoMatchOne(s: seq<byte>, w: seq<byte>, j: int)
    ensures NoMatch(s, w, j, j) && (!Occurs(s, w, j) ==> NoMatch(s, w, j, j + 1))
    ensures w != [] ==> NoMatch(s, w, |s|, |s| + 1)
  {
  }

  /** The next byte, in the same chain or at the start of the next one. */
  method NextByte(buf: EvBuffer, p: Ptr, ghost k0: nat) returns (q: Ptr, ghost k: nat)
    requires buf.Valid() && Points(buf, p, k0) && p.chain != null && p.posInChain < p.chain.off
    ensures Points(buf, q, k) && q.pos == p.pos + 1 <= |buf.Bytes()|
  {
    ChainAt(buf, k0);
    q, k := p.(pos := p.pos + 1, posInChain := p.posInChain + 1), k0;
    if q.posInChain == p.chain.off {
      PointsNext(buf, q, k0);
      q, k := q.(chain := p.chain.next, posInChain := 0), k0 + 1;
    }
    PosInBytes(buf, q, k);
  }

  /** One round of the search: the next candidate in the chain, and whether it matches. */
  method Candidate(buf: EvBuffer, p: Ptr, what: seq<byte>, ghost k: nat) returns (q: Option<Ptr>, hit: bool)
    requires buf.Valid() && Points(buf, p, k) && p.chain != null && what != []
    ensures q.Some? ==> Points(buf, q.value, k) && q.value.chain == p.chain && q.value.posInChain < p.chain.off && p.pos <= q.value.pos
    ensures q.Some? ==> NoMatch(buf.Bytes(), what, p.pos, q.value.pos) && (hit <==> Occurs(buf.Bytes(), what, q.value.pos))
    ensures q.None? ==> NoMatch(buf.Bytes(), what, p.pos, p.pos + p.chain.off - p.posInChain)
  {
    hide EvBuffer.Valid, EvBuffer.Bytes, Flat, Occurs, NoMatch;
    ChainAt(buf, k);
    PosInBytes(buf, p, k);
    var n := p.chain.off - p.posInChain;
    var live := p.chain.Live()[p.posInChain..];
    LivePart(buf, k, p.pos, p.posInChain, n);
    var d := Memchr(live, what[0]);
    SkipBytes(buf.Bytes(), what, p.pos, live, if d == -1 then n else d);
    if d == -1 {
      return None, false;
    }
    var p' := Ptr(p.pos + d, p.chain, p.posInChain + d);
    var r := PtrMemcmp(buf, p', what, k);
    return Some(p'), r == 0;
  }

  lemma NoMatchEnd(s: seq<byte>, w: seq<byte>, lo: int, hi: int)
    requires NoMatch(s, w, lo, |s|) && w != []
    ensures NoMatch(s, w, lo, hi)
  {
  }

  lemma OccursFits(s: seq<byte>, w: seq<byte>, j: int)
    requires Occurs(s, w, j)
    ensures 0 <= j && j + |w| <= |s|
  {
  }

  lemma StartPoints(buf: EvBuffer, start: Option<Ptr>, k: nat)
    requires buf.Valid() && Usable(buf, start, k) && (start.None? ==> k == 0)
    ensures From(buf, start).chain != null ==> Points(buf, From(buf, start), k)
    ensures start.None? ==> Points(buf, From(buf, start), 0) && (From(buf, start).chain == null ==> buf.Bytes() == [])
  {
    WholeList(buf);
  }

  /** The end lies in the chain that is being searched. */
  lemma EndInChain(buf: EvBuffer, p: Ptr, k: nat, end: Ptr, ke: nat)
    requires buf.Valid() && Points(buf, p, k) && Points(buf, end, ke) && p.chain == end.chain && p.chain != null
    ensures end.pos <= p.pos + p.chain.off - p.posInChain
  {
    buf.BytesAre();
    buf.At(k);
    PosInBytes(buf, p, k);
    PosInBytes(buf, end, ke);
  }

  /** evbuffer_search_range */
  method SearchRange(buf: EvBuffer, what: seq<byte>, start: Option<Ptr>, end: Option<Ptr>, ghost ks: nat, ghost ke: nat)
    returns (pos: Ptr, ghost k: nat)
    requires buf.Valid() && Usable(buf, start, ks) && Usable(buf, end, ke)
    ensures what == [] || |what| > EV_SSIZE_MAX ==> pos == From(buf, start)
    ensures 0 < |what| <= EV_SSIZE_MAX ==>
      Least(buf.Bytes(), what, From(buf, start).pos, if end.Some? then end.value.pos else |buf.Bytes()|, pos.pos) ||
      (start.Some? && start.value.chain == null && pos.pos == -1)
    ensures 0 < |what| <= EV_SSIZE_MAX && pos.pos >= 0 ==> Points(buf, pos, k) && pos.chain != null
  {
    hide EvBuffer.Valid, EvBuffer.Bytes, Flat, Occurs, NoMatch, Points;
    WholeList(buf);
    pos := From(buf, start);
    k := if start.Some? then ks else 0;
    StartPoints(buf, start, k);
    if what == [] || |what| > EV_SSIZE_MAX {
      return;
    }
    ghost var s, lo := buf.Bytes(), pos.pos;
    ghost var hi := if end.Some? then end.value.pos else |s|;
    NoMatchOne(s, what, lo);
    while pos.chain != null
      invariant pos.chain != null ==> Points(buf, pos, k)
      invariant lo <= pos.pos && NoMatch(s, what, lo, pos.pos)
      invariant pos.chain == null ==> (start.Some? && start.value.chain == null) || pos.pos == |s|
      decreases |s| - pos.pos, |buf.chains| - k
    {
      PosInBytes(buf, pos, k);
      var q, hit := Candidate(buf, pos, what, k);
      NoMatchJoin(s, what, lo, pos.pos, if q.Some? then q.value.pos else pos.pos + pos.chain.off - pos.posInChain);
      if q.Some? {
        if hit {
          if end.Some? && q.value.pos + |what| > end.value.pos {
            NoMatchMore(s, what, lo, q.value.pos, hi - |what| + 1);
            return Ptr(-1, null, 0), k;
          }
          OccursFits(s, what, q.value.pos);
          return q.value, k;
        }
        NoMatchOne(s, what, q.value.pos);
        NoMatchJoin(s, what, lo, q.value.pos, q.value.pos + 1);
        pos, k := NextByte(buf, q.value, k);
      } else {
        if end.Some? && pos.chain == end.value.chain {
          EndInChain(buf, pos, k, end.value, ke);
          NoMatchMore(s, what, lo, pos.pos + pos.chain.off - pos.posInChain, hi - |what| + 1);
          return Ptr(-1, null, 0), k;
        }
        PointsNext(buf, pos, k);
        pos := Ptr(pos.pos + pos.chain.off - pos.posInChain, pos.chain.next, 0);
        k := k + 1;
      }
      PosInBytes(buf, pos, k);
    }
    if start.None? || start.value.chain != null {
      NoMatchEnd(s, what, lo, hi - |what| + 1);
    }
    return Ptr(-1, null, 0), k;
  }

  predicate EolChar(c: byte) {
    c == CR || c == LF
  }

  /** The first index from `lo` on at which one of the characters `cs` stands; `hi` if there is none before. */
  ghost predicate FirstIn(s: seq<byte>, cs: set<byte>, lo: int, hi: int) {
    0 <= lo <= hi <= |s| && forall j :: lo <= j < hi ==> s[j] !in cs
  }

  lemma FirstInJoin(s: seq<byte>, cs: set<byte>, lo: int, mid: int, hi: int)
    requires FirstIn(s, cs, lo, mid) && FirstIn(s, cs, mid, hi)
    ensures FirstIn(s, cs, lo, hi)
  {
  }

  lemma FirstInNone(s: seq<byte>, cs: set<byte>, lo: int)
    requires 0 <= lo <= |s|
    ensures FirstIn(s, cs, lo, lo)
  {
  }

  lemma FirstInLive(s: seq<byte>, cs: set<byte>, lo: nat, live: seq<byte>, d: nat)
    requires d <= |live| && lo + |live| <= |s| && live == s[lo..lo + |live|]
    requires forall j :: 0 <= j < d ==> live[j] !in cs
    ensures FirstIn(s, cs, lo, lo + d) && (d < |live| ==> s[lo + d] == live[d])
  {
    forall j | lo <= j < lo + d
      ensures s[j] !in cs
    {
      assert live[j - lo] == s[j];
    }
  }

  /** find_eol_char: the memory is searched in blocks. */
  method FindEolChar(s: seq<byte>) returns (i: int)
    ensures i == -1 ==> forall j :: 0 <= j < |s| ==> !EolChar(s[j])
    ensures i != -1 ==> 0 <= i < |s| && EolChar(s[i]) && forall j :: 0 <= j < i ==> !EolChar(s[j])
  {
    var at := 0;
    while at < |s|
      invariant 0 <= at && forall j :: 0 <= j < at && j < |s| ==> !EolChar(s[j])
    {
      var chunk := if at + CHUNK_SZ < |s| then CHUNK_SZ else |s| - at;
      var cr, lf := Memchr(s[at..at + chunk], CR), Memchr(s[at..at + chunk], LF);
      assert forall j :: at <= j < at + chunk ==> s[j] == s[at..at + chunk][j - at];
      if cr != -1 {
        if lf != -1 && lf < cr {
          return at + lf;
        }
        return at + cr;
      } else if lf != -1 {
        return at + lf;
      }
      at := at + CHUNK_SZ;
    }
    return -1;
  }

  /** evbuffer_find_eol_char */
  method EvFindEolChar(buf: EvBuffer, it: Ptr, ghost k0: nat) returns (it': Option<Ptr>, ghost k: nat)
    requires buf.Valid() && Points(buf, it, k0)
    ensures it'.None? ==> FirstIn(buf.Bytes(), {CR, LF}, it.pos, |buf.Bytes()|)
    ensures it'.Some? ==> Points(buf, it'.value, k) && OnByte(buf, it'.value, {CR, LF}) && FirstIn(buf.Bytes(), {CR, LF}, it.pos, it'.value.pos)
  {
    hide EvBuffer.Valid, EvBuffer.Bytes, Flat, Points, FirstIn, OnByte;
    var p := it;
    k := k0;
    PosInBytes(buf, p, k);
    FirstInNone(buf.Bytes(), {CR, LF}, p.pos);
    while p.chain != null
      invariant Points(buf, p, k) && FirstIn(buf.Bytes(), {CR, LF}, it.pos, p.pos)
      decreases |buf.chains| - k
    {
      PosInBytes(buf, p, k);
      ChainAt(buf, k);
      var n := p.chain.off - p.posInChain;
      var live := p.chain.Live()[p.posInChain..];
      LivePart(buf, k, p.pos, p.posInChain, n);
      var d := FindEolChar(live);
      FirstInLive(buf.Bytes(), {CR, LF}, p.pos, live, if d == -1 then n else d);
      FirstInJoin(buf.Bytes(), {CR, LF}, it.pos, p.pos, p.pos + if d == -1 then n else d);
      if d != -1 {
        PointsOn(buf, p, k, d);
        OnByteHere(buf, Ptr(p.pos + d, p.chain, p.posInChain + d), {CR, LF});
        return Some(Ptr(p.pos + d, p.chain, p.posInChain + d)), k;
      }
      PointsNext(buf, p, k);
      p, k := Ptr(p.pos + n, p.chain.next, 0), k + 1;
    }
    PosInBytes(buf, p, k);
    return None, k;
  }

  /** `p` stands on a byte, and that is one of `cs`. */
  ghost predicate OnByte(buf: EvBuffer, p: Ptr, cs: set<byte>)
    reads buf`segs, if p.chain == null then {} else {p.chain}
  {
    p.chain != null && p.posInChain < p.chain.off && 0 <= p.pos < |buf.Bytes()| && buf.Bytes()[p.pos] in cs
  }

  lemma OnByteHere(buf: EvBuffer, p: Ptr, cs: set<byte>)
    requires p.chain != null && p.posInChain < p.chain.off && 0 <= p.pos < |buf.Bytes()| && buf.Bytes()[p.pos] in cs
    ensures OnByte(buf, p, cs)
  {
  }

  lemma PointsOn(buf: EvBuffer, p: Ptr, k: nat, d: nat)
    requires buf.Valid() && Points(buf, p, k) && p.chain != null && p.posInChain + d < p.chain.off
    ensures Points(buf, Ptr(p.pos + d, p.chain, p.posInChain + d), k) && p.pos + d < |buf.Bytes()|
  {
    PosInBytes(buf, p, k);
  }

  /** evbuffer_strchr */
  method Strchr(buf: EvBuffer, it: Ptr, chr: byte, ghost k0: nat) returns (it': Option<Ptr>, ghost k: nat)
    requires buf.Valid() && Points(buf, it, k0)
    ensures it'.None? ==> FirstIn(buf.Bytes(), {chr}, it.pos, |buf.Bytes()|)
    ensures it'.Some? ==> Points(buf, it'.value, k) && OnByte(buf, it'.value, {chr}) && FirstIn(buf.Bytes(), {chr}, it.pos, it'.value.pos)
  {
    hide EvBuffer.Valid, EvBuffer.Bytes, Flat, Points, FirstIn, OnByte;
    var p := it;
    k := k0;
    PosInBytes(buf, p, k);
    FirstInNone(buf.Bytes(), {chr}, p.pos);
    while p.chain != null
      invariant Points(buf, p, k) && FirstIn(buf.Bytes(), {chr}, it.pos, p.pos)
      decreases |buf.chains| - k
    {
      PosInBytes(buf, p, k);
      ChainAt(buf, k);
      var n := p.chain.off - p.posInChain;
      var live := p.chain.Live()[p.posInChain..];
      LivePart(buf, k, p.pos, p.posInChain, n);
      var d := Memchr(live, chr);
      FirstInLive(buf.Bytes(), {chr}, p.pos, live, if d == -1 then n else d);
      FirstInJoin(buf.Bytes(), {chr}, it.pos, p.pos, p.pos + if d == -1 then n else d);
      if d != -1 {
        PointsOn(buf, p, k, d);
        OnByteHere(buf, Ptr(p.pos + d, p.chain, p.posInChain + d), {chr});
        return Some(Ptr(p.pos + d, p.chain, p.posInChain + d)), k;
      }
      PointsNext(buf, p, k);
      p, k := Ptr(p.pos + n, p.chain.next, 0), k + 1;
    }
    PosInBytes(buf, p, k);
    return None, k;
  }

  /** The bytes from `lo` to `hi` are all in `cs`, the one at `hi`, if any, is not. */
  ghost predicate Run(s: seq<byte>, cs: set<byte>, lo: int, hi: int) {
    AllIn(s, cs, lo, hi) && (hi < |s| ==> s[hi] !in cs)
  }

  ghost predicate AllIn(s: seq<byte>, cs: set<byte>, lo: int, hi: int) {
    0 <= lo <= hi <= |s| && forall j :: lo <= j < hi ==> s[j] in cs
  }

  ghost function CharSet(chrset: seq<byte>): set<byte> {
    set c <- chrset :: c
  }

  lemma AllInJoin(s: seq<byte>, cs: set<byte>, lo: int, mid: int, hi: int)
    requires AllIn(s, cs, lo, mid)
    requires AllIn(s, cs, mid, hi) || (hi == mid + 1 && mid < |s| && s[mid] in cs)
    ensures AllIn(s, cs, lo, hi)
  {
  }

  lemma LiveByte(buf: EvBuffer, p: Ptr, k: nat)
    requires buf.Valid() && Points(buf, p, k) && p.chain != null && p.posInChain < p.chain.off
    ensures p.chain.misalign + p.chain.off <= p.chain.buffer.Length && 0 <= p.pos < |buf.Bytes()|
    ensures p.chain.Live()[p.posInChain] == buf.Bytes()[p.pos]
  {
    PosInBytes(buf, p, k);
    ChainAt(buf, k);
    assert buf.segs[k][p.posInChain] == p.chain.Live()[p.posInChain];
  }

  /** evbuffer_strspn within one chain. */
  method SpanChain(buf: EvBuffer, p: Ptr, chrset: seq<byte>, ghost k: nat) returns (q: Ptr)
    requires buf.Valid() && Points(buf, p, k) && p.chain != null
    ensures Points(buf, q, k) && q.chain == p.chain && AllIn(buf.Bytes(), CharSet(chrset), p.pos, q.pos)
    ensures q.posInChain <= p.chain.off && 0 <= p.pos <= q.pos <= |buf.Bytes()|
    ensures q.posInChain < p.chain.off ==> q.pos < |buf.Bytes()| && buf.Bytes()[q.pos] !in chrset
  {
    hide EvBuffer.Valid, EvBuffer.Bytes, Flat, Points;
    ghost var s, cs := buf.Bytes(), CharSet(chrset);
    q := p;
    PosInBytes(buf, p, k);
    while q.posInChain < q.chain.off
      invariant q.chain == p.chain && Points(buf, q, k) && q.posInChain <= q.chain.off && AllIn(s, cs, p.pos, q.pos)
      decreases q.chain.off - q.posInChain
    {
      LiveByte(buf, q, k);
      if q.chain.Live()[q.posInChain] !in chrset {
        return;
      }
      AllInJoin(s, cs, p.pos, q.pos, q.pos + 1);
      PointsOn1(buf, q, k);
      q := q.(pos := q.pos + 1, posInChain := q.posInChain + 1);
    }
    PosInBytes(buf, q, k);
  }

  /** evbuffer_strspn: how many bytes from `p` on are in `chrset`. */
  method Strspn(buf: EvBuffer, p: Ptr, chrset: seq<byte>, ghost k0: nat) returns (count: nat)
    requires buf.Valid() && Points(buf, p, k0) && p.chain != null
    ensures Run(buf.Bytes(), CharSet(chrset), p.pos, p.pos + count)
  {
    hide EvBuffer.Valid, EvBuffer.Bytes, Flat, Points, AllIn;
    ghost var s, cs := buf.Bytes(), CharSet(chrset);
    var q := p;
    ghost var k := k0;
    PosInBytes(buf, p, k0);
    AllInNone(s, cs, p.pos);
    while true
      invariant q.chain != null && Points(buf, q, k) && AllIn(s, cs, p.pos, q.pos) && p.pos <= q.pos
      decreases |buf.chains| - k
    {
      ghost var from := q.pos;
      q := SpanChain(buf, q, chrset, k);
      AllInJoin(s, cs, p.pos, from, q.pos);
      if q.posInChain < q.chain.off {
        return q.pos - p.pos;
      }
      PosInBytes(buf, q, k);
      PointsNext(buf, q, k);
      if q.chain.next == null {
        PosInBytes(buf, Ptr(q.pos, null, 0), k + 1);
        return q.pos - p.pos;
      }
      q, k := q.(chain := q.chain.next, posInChain := 0), k + 1;
    }
  }

  lemma AllInNone(s: seq<byte>, cs: set<byte>, lo: int)
    requires 0 <= lo <= |s|
    ensures AllIn(s, cs, lo, lo)
  {
  }

  lemma PointsOn1(buf: EvBuffer, p: Ptr, k: nat)
    requires buf.Valid() && Points(buf, p, k) && p.chain != null && p.posInChain < p.chain.off
    ensures Points(buf, Ptr(p.pos + 1, p.chain, p.posInChain + 1), k)
  {
    PosInBytes(buf, p, k);
  }

  /** evbuffer_ptr_set */
  method SetPtr(buf: EvBuffer, pos: Ptr, position: nat, how: PtrHow, ghost k0: nat) returns (pos': Ptr, result: int, ghost k: nat)
    requires buf.Valid() && (how == PtrAdd ==> Points(buf, pos, k0))
    ensures var to := if how == PtrSet then position else pos.pos + position;
      if to < |buf.Bytes()| then result == 0 && Points(buf, pos', k) && pos'.pos == to && pos'.chain != null && pos'.posInChain < pos'.chain.off
      else result == -1 && pos'.pos == -1 && pos'.chain == null
  {
    hide EvBuffer.Valid, EvBuffer.Bytes, Flat, Points;
    WholeList(buf);
    StartPoints(buf, None, 0);
    var left, chain, at, base: nat := position, buf.first, position, 0;
    k := 0;
    if how == PtrAdd {
      chain, at, base := pos.chain, pos.pos + position, pos.posInChain;
      k := k0;
      PosInBytes(buf, pos, k0);
    }
    while chain != null && base + left >= chain.off
      invariant Points(buf, Ptr(at - left, chain, base), k) && 0 <= left
      decreases |buf.chains| - k
    {
      PosInBytes(buf, Ptr(at - left, chain, base), k);
      PointsNext(buf, Ptr(at - left, chain, base), k);
      left := left - (chain.off - base);
      chain, base := chain.next, 0;
      k := k + 1;
    }
    PosInBytes(buf, Ptr(at - left, chain, base), k);
    if chain != null {
      PointsOn(buf, Ptr(at - left, chain, base), k, left);
      return Ptr(at, chain, base + left), 0, k;
    }
    return Ptr(-1, null, pos.posInChain), -1, k;
  }

  /** The first line end of the style from `lo` on is the `n` bytes at `j`. For EolCrlf it is the first LF, with a CR
      right before it if there is one. */
  ghost predicate IsEol(style: EolStyle, s: seq<byte>, lo: nat, j: int, n: nat) {
    match style
    case EolLf => FirstIn(s, {LF}, lo, j) && j < |s| && s[j] == LF && n == 1
    case EolAny => FirstIn(s, {CR, LF}, lo, j) && j < |s| && s[j] in {CR, LF} && Run(s, {CR, LF}, j, j + n)
    case EolCrlfStrict => NoMatch(s, [CR, LF], lo, j) && lo <= j && Occurs(s, [CR, LF], j) && n == 2
    case EolCrlf =>
      var l := j + n - 1;
      FirstIn(s, {LF}, lo, l) && l < |s| && s[l] == LF && n == if l > lo && s[l - 1] == CR then 2 else 1
  }

  /** There is no line end of the style from `lo` on. */
  ghost predicate NoEol(style: EolStyle, s: seq<byte>, lo: nat) {
    match style
    case EolLf => FirstIn(s, {LF}, lo, |s|)
    case EolAny => FirstIn(s, {CR, LF}, lo, |s|)
    case EolCrlfStrict => NoMatch(s, [CR, LF], lo, |s|)
    case EolCrlf => FirstIn(s, {LF}, lo, |s|)
  }

  /** A line end lies within the bytes and is not empty. */
  lemma EolFits(style: EolStyle, s: seq<byte>, lo: nat, j: int, n: nat)
    requires IsEol(style, s, lo, j, n)
    ensures lo <= j && j + n <= |s| && n > 0
  {
  }

  lemma RunUnique(s: seq<byte>, cs: set<byte>, lo: int, hi: int, hi': int)
    requires Run(s, cs, lo, hi) && Run(s, cs, lo, hi')
    ensures hi == hi'
  {
  }

  /** There is at most one first line end, and none where NoEol says so. */
  lemma EolUnique(style: EolStyle, s: seq<byte>, lo: nat, j: int, n: nat, j': int, n': nat)
    requires IsEol(style, s, lo, j, n)
    ensures !NoEol(style, s, lo)
    ensures IsEol(style, s, lo, j', n') ==> j == j' && n == n'
  {
    EolFits(style, s, lo, j, n);
    if IsEol(style, s, lo, j', n') {
      EolFits(style, s, lo, j', n');
      match style
      case EolLf =>
        assert s[j] in {LF} && s[j'] in {LF};
      case EolAny =>
        assert s[j] in {CR, LF} && s[j'] in {CR, LF};
        assert j == j';
        RunUnique(s, {CR, LF}, j, j + n, j + n');
      case EolCrlfStrict =>
        assert Occurs(s, [CR, LF], j) && Occurs(s, [CR, LF], j');
      case EolCrlf =>
        var l, l' := j + n - 1, j' + n' - 1;
        assert s[l] in {LF} && s[l'] in {LF};
        assert l == l';
    }
  }

  /** A line without LF, written with CR LF behind it, is found again for EolCrlf, whatever follows. */
  lemma WrittenLine(line: seq<byte>, rest: seq<byte>)
    requires LF !in line
    ensures IsEol(EolCrlf, line + [CR, LF] + rest, 0, |line|, 2)
    ensures IsEol(EolCrlf, line + [LF] + rest, 0, |line|, 1) <==> line == [] || line[|line| - 1] != CR
  {
    var s, t := line + [CR, LF] + rest, line + [LF] + rest;
    assert forall j :: 0 <= j < |line| ==> s[j] == line[j] && t[j] == line[j];
  }

  lemma StartLine(style: EolStyle, s: seq<byte>, lo: nat)
    ensures lo <= |s| ==> FirstIn(s, {LF}, lo, lo)
    ensures lo == |s| ==> NoEol(style, s, lo)
  {
  }

  /** One round of the search for EolCrlf: what stands at the CR or LF that was found. */
  lemma CrlfRound(s: seq<byte>, lo: nat, at: int, j: int)
    requires lo <= at && FirstIn(s, {LF}, lo, at) && FirstIn(s, {CR, LF}, at, j)
    requires at > lo && at < |s| && s[at - 1] == CR ==> s[at] != LF
    ensures at <= j && (j == |s| ==> NoEol(EolCrlf, s, lo))
    ensures j < |s| && s[j] == LF ==> IsEol(EolCrlf, s, lo, j, 1)
    ensures Occurs(s, [CR, LF], j) ==> IsEol(EolCrlf, s, lo, j, 2)
    ensures j < |s| && s[j] == CR && !Occurs(s, [CR, LF], j) ==> FirstIn(s, {LF}, lo, j + 1) && (j + 1 < |s| ==> s[j + 1] != LF)
  {
    assert forall i :: at <= i < j ==> s[i] !in {CR, LF};
    if Occurs(s, [CR, LF], j) {
      assert s[j] == s[j..j + 2][0] && s[j + 1] == s[j..j + 2][1];
    }
    if j + 1 < |s| && s[j] == CR && s[j + 1] == LF {
      assert s[j..j + 2] == [CR, LF];
    }
  }

  /** evbuffer_getchr */
  function GetChr(it: Ptr): byte
    requires it.chain != null && it.chain.misalign + it.posInChain < it.chain.buffer.Length
    reads it.chain, if it.chain == null then {} else {it.chain.buffer}
  {
    it.chain.buffer[it.chain.misalign + it.posInChain]
  }

  lemma GetChrIs(buf: EvBuffer, p: Ptr, k: nat)
    requires buf.Valid() && Points(buf, p, k) && p.chain != null && p.posInChain < p.chain.off
    ensures p.chain.misalign + p.posInChain < p.chain.buffer.Length && 0 <= p.pos < |buf.Bytes()|
    ensures GetChr(p) == buf.Bytes()[p.pos]
  {
    LiveByte(buf, p, k);
  }

  lemma OnByteIs(buf: EvBuffer, p: Ptr, cs: set<byte>)
    requires OnByte(buf, p, cs)
    ensures p.chain != null && p.posInChain < p.chain.off && 0 <= p.pos < |buf.Bytes()| && buf.Bytes()[p.pos] in cs
  {
  }

  /** evbuffer_search_eol for EVBUFFER_EOL_CRLF */
  method SearchCrlf(buf: EvBuffer, start: Ptr, ghost ks: nat) returns (it: Option<Ptr>, extraDrain: nat, ghost k: nat)
    requires buf.Valid() && Points(buf, start, ks)
    ensures it.None? ==> start.pos >= 0 && NoEol(EolCrlf, buf.Bytes(), start.pos) && extraDrain == 0
    ensures it.Some? ==> start.pos >= 0 && Points(buf, it.value, k) && IsEol(EolCrlf, buf.Bytes(), start.pos, it.value.pos, extraDrain)
  {
    hide EvBuffer.Valid, EvBuffer.Bytes, Flat, Points, OnByte, FirstIn, Occurs, IsEol, NoEol;
    var p := start;
    k := ks;
    PosInBytes(buf, p, k);
    ghost var s, lo := buf.Bytes(), p.pos;
    StartLine(EolCrlf, s, lo);
    while true
      invariant Points(buf, p, k) && lo <= p.pos <= |s| && FirstIn(s, {LF}, lo, p.pos)
      invariant p.pos > lo && p.pos < |s| && s[p.pos - 1] == CR ==> s[p.pos] != LF
      decreases |s| - p.pos
    {
      var q;
      ghost var at := p.pos;
      q, k := EvFindEolChar(buf, p, k);
      CrlfRound(s, lo, at, if q.None? then |s| else q.value.pos);
      if q.None? {
        return None, 0, k;
      }
      OnByteIs(buf, q.value, {CR, LF});
      GetChrIs(buf, q.value, k);
      if GetChr(q.value) == LF {
        return q, 1, k;
      }
      var r := PtrMemcmp(buf, q.value, [CR, LF], k);
      if r == 0 {
        return q, 2, k;
      }
      var result;
      p, result, k := SetPtr(buf, q.value, 1, PtrAdd, k);
      if result < 0 {
        StartLine(EolCrlf, s, |s|);
        CrlfNone(s, lo);
        return None, 0, k;
      }
    }
  }

  lemma CrlfNone(s: seq<byte>, lo: nat)
    requires FirstIn(s, {LF}, lo, |s|)
    ensures NoEol(EolCrlf, s, lo)
  {
  }

  /** evbuffer_search_eol */
  method SearchEol(buf: EvBuffer, start: Option<Ptr>, style: EolStyle, ghost ks: nat) returns (it: Ptr, extraDrain: nat, ghost k: nat)
    requires buf.Valid() && (start.Some? ==> Points(buf, start.value, ks))
    ensures From(buf, start).pos >= 0
    ensures it.pos < 0 ==> it.pos == -1 && extraDrain == 0 && NoEol(style, buf.Bytes(), From(buf, start).pos)
    ensures it.pos >= 0 ==> Points(buf, it, k) && IsEol(style, buf.Bytes(), From(buf, start).pos, it.pos, extraDrain)
  {
    hide EvBuffer.Valid, EvBuffer.Bytes, Flat, Points, OnByte, FirstIn, Occurs, Run, NoMatch;
    it := From(buf, start);
    k := if start.Some? then ks else 0;
    StartPoints(buf, start, k);
    PosInBytes(buf, it, k);
    ghost var lo := it.pos;
    var found: Option<Ptr>;
    extraDrain := 0;
    match style {
      case EolAny =>
        found, k := EvFindEolChar(buf, it, k);
        if found.Some? {
          OnByteIs(buf, found.value, {CR, LF});
          extraDrain := Strspn(buf, found.value, [CR, LF], k);
          CrLfSet();
        }
      case EolCrlfStrict =>
        StrictStart(buf.Bytes(), lo);
        var p;
        p, k := SearchRange(buf, [CR, LF], Some(it), None, k, 0);
        StrictIs(buf.Bytes(), lo, p.pos);
        found := if p.pos < 0 then None else Some(p);
        extraDrain := if p.pos < 0 then 0 else 2;
      case EolCrlf =>
        found, extraDrain, k := SearchCrlf(buf, it, k);
      case EolLf =>
        found, k := Strchr(buf, it, LF, k);
        if found.Some? {
          OnByteIs(buf, found.value, {LF});
          extraDrain := 1;
        }
    }
    if found.None? {
      return it.(pos := -1), extraDrain, k;
    }
    PosInBytes(buf, found.value, k);
    return found.value, extraDrain, k;
  }

  lemma CrLfSet()
    ensures CharSet([CR, LF]) == {CR, LF}
  {
    var w: seq<byte> := [CR, LF];
    assert w[0] == CR && w[1] == LF;
    assert CR in w && LF in w;
  }

  lemma StrictStart(s: seq<byte>, lo: nat)
    ensures lo == |s| ==> NoMatch(s, [CR, LF], lo, |s|)
  {
  }

  lemma StrictIs(s: seq<byte>, lo: nat, pos: int)
    requires lo <= |s| && (Least(s, [CR, LF], lo, |s|, pos) || (lo == |s| && pos == -1))
    ensures pos < 0 ==> pos == -1 && NoMatch(s, [CR, LF], lo, |s|)
    ensures pos >= 0 ==> lo <= pos && Occurs(s, [CR, LF], pos) && NoMatch(s, [CR, LF], lo, pos)
  {
  }

  /** evbuffer_readln: the bytes before the first line end, which is drained with them. */
  method ReadLn(buf: EvBuffer, style: EolStyle, mallocOk: bool) returns (line: array?<byte>, nRead: nat, ghost n: nat)
    requires buf.Valid()
    modifies buf.Repr
    ensures buf.Valid() && buf.Repr == old(buf.Repr)
    ensures line == null <==> NoEol(style, old(buf.Bytes()), 0) || !mallocOk
    ensures line == null ==> buf.Bytes() == old(buf.Bytes()) && nRead == 0
    ensures line != null ==> fresh(line) && line.Length == nRead + 1 && line[nRead] == 0
    ensures line != null ==> IsEol(style, old(buf.Bytes()), 0, nRead, n)
    ensures line != null ==> nRead + n <= |old(buf.Bytes())| && line[..nRead] == old(buf.Bytes())[..nRead] && buf.Bytes() == old(buf.Bytes())[nRead + n..]
  {
    hide EvBuffer.Valid, EvBuffer.Bytes, Flat, Points, IsEol, NoEol;
    var it;
    ghost var k: nat;
    var extraDrain: nat;
    it, extraDrain, k := SearchEol(buf, None, style, 0);
    n := extraDrain;
    if it.pos < 0 {
      return null, 0, n;
    }
    EolUnique(style, buf.Bytes(), 0, it.pos, n, it.pos, n);
    EolFits(style, buf.Bytes(), 0, it.pos, n);
    if !mallocOk {
      return null, 0, n;
    }
    nRead := it.pos;
    line := new byte[nRead + 1](_ => 0);
    var got := buf.Remove(line, nRead);
    line[nRead] := 0;
    ghost var s := old(buf.Bytes());
    assert line[..nRead] + buf.Bytes() == s;
    assert buf.Bytes() == s[nRead..];
    ghost var copied := line[..];
    buf.Drain(extraDrain);
    assert s[nRead..][n..] == s[nRead + n..];
    assert line[..] == copied;
  }
}
