/** evbuffer_pullup of buffer.c: the first bytes are made contiguous in the first chain. */
module EvbufferPullup {
  import opened Flatten
  import opened Evbuffer

  /** The copying loop: chains that are pulled in whole are copied behind `pre` and freed. */
  method Gather(tmp: Chain, at: nat, left0: nat, chain0: Chain?, lastWithData: Chain, datap: Link,
                ghost es: seq<Chain>, ghost fegs: seq<seq<byte>>, ghost pre: seq<byte>, ghost base: nat)
    returns (chain: Chain?, left: nat, removedLast: bool, removedDatap: bool, ghost k: nat)
    requires NextLinked(es) && HoldAll(es, fegs) && Distinct(es) && es != [] && |es| == |fegs| && chain0 == es[0]
    requires forall i :: 0 <= i < |es| ==> es[i].buffer != tmp.buffer && fegs[i] != []
    requires base + |pre| == at && at + left0 <= tmp.buffer.Length && tmp.buffer[base..at] == pre
    requires left0 <= |Flat(fegs)| && lastWithData == es[|es| - 1]
    modifies tmp.buffer
    ensures HoldAll(es, fegs) && k <= |es| && chain == (if k < |es| then es[k] else null)
    ensures left + |Flat(fegs[..k])| == left0 && (if k < |es| then left < |fegs[k]| else left == 0)
    ensures base <= at + left0 - left <= tmp.buffer.Length
    ensures tmp.buffer[base..at + left0 - left] == pre + Flat(fegs[..k])
    ensures removedLast <==> k == |es|
    ensures removedDatap <==> exists j :: 0 <= j < k && datap == NextOf(es[j])
  {
    hide Flat, Chain.Holds, NextLinked, HoldAll, Distinct;
    FlatEmpty(fegs[..0]);
    var buffer := at;
    chain, left, removedLast, removedDatap, k := chain0, left0, false, false, 0;
    ghost var n := |es|;
    LinkOf(es, fegs, 0);
    while chain != null && left >= chain.off
      invariant HoldAll(es, fegs) && 0 <= k <= n && chain == (if k < n then es[k] else null)
      invariant chain != null ==> chain.off == |fegs[k]|
      invariant 0 <= left && left + |Flat(fegs[..k])| == left0 && buffer == at + left0 - left
      invariant tmp.buffer[base..buffer] == pre + Flat(fegs[..k])
      invariant removedLast <==> k == n
      invariant removedDatap <==> exists j :: 0 <= j < k && datap == NextOf(es[j])
      modifies tmp.buffer
      decreases n - k
    {
      LinkOf(es, fegs, k);
      FlatAt(fegs, k);
      PullPart(tmp, chain, chain.off, base, buffer, es, fegs, k);
      left, buffer := left - chain.off, buffer + chain.off;
      if chain == lastWithData {
        removedLast := true;
      }
      if NextOf(chain) == datap {
        removedDatap := true;
      }
      assert chain == lastWithData <==> k == n - 1 by { DistinctAt(es, k); }
      chain := chain.next;
      k := k + 1;
      if k < n { LinkOf(es, fegs, k); }
    }
    if k == n {
      assert fegs[..k] == fegs;
    }
  }

  /** memcpy of the first `len` bytes of one chain behind what `tmp` holds from `base` on. */
  method PullPart(tmp: Chain, chain: Chain, len: nat, ghost base: nat, at: nat,
                  ghost es: seq<Chain>, ghost fegs: seq<seq<byte>>, ghost k: nat)
    requires HoldAll(es, fegs) && k < |es| && chain == es[k] && len <= chain.off == |fegs[k]|
    requires forall i :: 0 <= i < |es| ==> es[i].buffer != tmp.buffer
    requires base <= at && at + len <= tmp.buffer.Length
    modifies tmp.buffer
    ensures HoldAll(es, fegs)
    ensures tmp.buffer[base..at + len] == old(tmp.buffer[base..at]) + fegs[k][..len]
  {
    hide Chain.Holds;
    HoldsLength(chain, fegs[k]);
    CopyInto(tmp.buffer, at, chain.Live()[..len]);
    assert tmp.buffer[base..at] == old(tmp.buffer[base..at]) by {
      assert tmp.buffer[..at][base..] == old(tmp.buffer[..at])[base..];
    }
    assert tmp.buffer[base..at + len] == tmp.buffer[base..at] + tmp.buffer[at..at + len];
  }

  lemma LinkOf(es: seq<Chain>, fegs: seq<seq<byte>>, i: nat)
    requires NextLinked(es) && HoldAll(es, fegs) && i < |es|
    ensures es[i].Holds(fegs[i]) && es[i].off == |fegs[i]| && es[i].misalign + es[i].off <= es[i].buffer.Length
    ensures es[i].next == (if i + 1 < |es| then es[i + 1] else null) && es[i].Live() == fegs[i]
  {
    HoldsLength(es[i], fegs[i]);
  }

  /** The list being pulled up: `tmp` holds `pre` and takes bytes from the chains `es` that follow. */
  ghost predicate Pulling(buf: EvBuffer, tmp: Chain, es: seq<Chain>, fegs: seq<seq<byte>>)
    reads buf, es, set c <- es :: c.buffer
  {
    NextLinked(es) && HoldAll(es, fegs) && Distinct([tmp] + es) && Within([tmp] + es, buf.Repr) && buf in buf.Repr &&
    es != [] && (forall i :: 0 <= i < |fegs| ==> fegs[i] != []) &&
    buf.first == tmp && buf.last == es[|es| - 1] &&
    buf.lastWithDatap == (if |es| == 1 then NextOf(tmp) else NextOf(es[|es| - 2]))
  }

  /** What follows `tmp` when `left` bytes of the chain at index `k` have gone as well. */
  ghost function RestSegs(fegs: seq<seq<byte>>, k: nat, left: nat): seq<seq<byte>>
    requires k <= |fegs| && (k < |fegs| ==> left < |fegs[k]|)
  {
    if k == |fegs| then [] else fegs[k..][0 := fegs[k][left..]]
  }

  lemma Glue(a: seq<byte>, b: seq<byte>, r: seq<byte>, left: nat)
    requires left <= |r|
    ensures a + b + r[..left] + r[left..] == a + (b + r)
  {
    assert r == r[..left] + r[left..];
  }

  lemma RestFlat(pre: seq<byte>, fegs: seq<seq<byte>>, k: nat, left: nat)
    requires k <= |fegs| && (if k < |fegs| then left < |fegs[k]| else left == 0)
    ensures var s := pre + Flat(fegs[..k]) + (if k < |fegs| then fegs[k][..left] else []);
      Flat([s] + RestSegs(fegs, k, left)) == pre + Flat(fegs)
  {
    FlatEmpty(fegs[|fegs|..]);
    hide Flat;
    FlatSplit(fegs, k);
    var s := pre + Flat(fegs[..k]) + (if k < |fegs| then fegs[k][..left] else []);
    FlatConcat([s], RestSegs(fegs, k, left));
    FlatSingle(s);
    var r := Flat(fegs[k..]);
    if k < |fegs| {
      FlatDropFirst(fegs[k..], left);
    } else {
      assert RestSegs(fegs, k, left) == fegs[k..];
    }
    Glue(pre, Flat(fegs[..k]), r, left);
  }

  /** What `tmp` holds once `left` bytes of the chain at index `k` have been copied as well. */
  ghost function Pulled(pre: seq<byte>, fegs: seq<seq<byte>>, k: nat, left: nat): seq<byte>
    requires k <= |fegs| && (k < |fegs| ==> left <= |fegs[k]|)
  {
    pre + Flat(fegs[..k]) + (if k < |fegs| then fegs[k][..left] else [])
  }

  /** The last copy, and the rest of that chain. */
  method TakePart(tmp: Chain, chain: Chain, left: nat, at: nat,
                  ghost es: seq<Chain>, ghost fegs: seq<seq<byte>>, ghost base: nat, ghost k: nat)
    requires HoldAll(es, fegs) && Distinct(es) && k < |es| && chain == es[k] && left < |fegs[k]|
    requires forall i :: 0 <= i < |es| ==> es[i].buffer != tmp.buffer && es[i] != tmp
    requires base <= at && at + left <= tmp.buffer.Length
    modifies tmp.buffer, chain`misalign, chain`off
    ensures HoldAll(es[k..], RestSegs(fegs, k, left)) && chain.off == old(chain.off) - left == |fegs[k]| - left
    ensures tmp.buffer[base..at + left] == old(tmp.buffer[base..at]) + fegs[k][..left]
  {
    hide Flat, Chain.Holds;
    HoldsLength(chain, fegs[k]);
    PullPart(tmp, chain, left, base, at, es, fegs, k);
    DistinctAt(es, k);
    HoldsLength(chain, fegs[k]);
    chain.DropFront(left, fegs[k]);
    HoldsLength(chain, fegs[k][left..]);
    ghost var rest := RestSegs(fegs, k, left);
    forall i | 0 <= i < |es| - k
      ensures es[k..][i].Holds(rest[i])
    {
      assert es[k + i].Holds(if i == 0 then fegs[k][left..] else fegs[k + i]);
    }
  }

  /** The mark after the pull-up. */
  lemma MarkAfter(tmp: Chain, es: seq<Chain>, k: nat, datap: Link, removedDatap: bool)
    requires es != [] && k <= |es| && Distinct([tmp] + es)
    requires datap == if |es| == 1 then NextOf(tmp) else NextOf(es[|es| - 2])
    requires removedDatap <==> exists j :: 0 <= j < k && datap == NextOf(es[j])
    ensures var cs := [tmp] + es[k..];
      k == |es| || NextOf(cs[|cs| - 2]) == if removedDatap then NextOf(tmp) else datap
  {
    if k < |es| && |es| > 1 {
      assert datap == NextOf(es[|es| - 2]);
      forall j | 0 <= j < k && datap == NextOf(es[j])
        ensures j == |es| - 2
      {
        assert ([tmp] + es)[j + 1] == ([tmp] + es)[|es| - 1];
      }
      assert removedDatap <==> k == |es| - 1;
    } else if |es| == 1 && removedDatap {
      var j :| 0 <= j < k && datap == NextOf(es[j]);
      assert ([tmp] + es)[0] != ([tmp] + es)[j + 1];
    }
  }

  lemma SkipSome(tmp: Chain, es: seq<Chain>, k: nat, repr: set<object>)
    requires Distinct([tmp] + es) && Within([tmp] + es, repr) && k <= |es|
    ensures Distinct([tmp] + es[k..]) && Within([tmp] + es[k..], repr) && Distinct(es) && Within(es, repr)
    ensures forall i :: 0 <= i < |es| ==> es[i] != tmp && es[i].buffer != tmp.buffer
  {
    var a, b := [tmp] + es, [tmp] + es[k..];
    forall i | 0 <= i < |es|
      ensures es[i] != tmp && es[i].buffer != tmp.buffer && es[i] in repr && es[i].buffer in repr
    {
      assert a[i + 1] == es[i] && a[0] == tmp;
    }
    forall i, j | 0 <= i < j < |es|
      ensures es[i] != es[j] && es[i].buffer != es[j].buffer
    {
      assert a[i + 1] == es[i] && a[j + 1] == es[j];
    }
    forall i | 0 <= i < |b|
      ensures b[i] in repr && b[i].buffer in repr
    {
      assert b[i] == if i == 0 then a[0] else es[k + i - 1];
    }
    forall i, j | 0 <= i < j < |b|
      ensures b[i] != b[j] && b[i].buffer != b[j].buffer
    {
      assert b[j] == es[k + j - 1] && b[i] == if i == 0 then tmp else es[k + i - 1];
    }
  }

  /** tmp->next = chain */
  method LinkRest(tmp: Chain, chain: Chain?, ghost es: seq<Chain>, ghost k: nat)
    requires NextLinked(es) && k <= |es| && chain == if k < |es| then es[k] else null
    requires forall i :: 0 <= i < |es| ==> es[i] != tmp
    modifies tmp`next
    ensures NextLinked([tmp] + es[k..]) && tmp.next == chain
  {
    tmp.next := chain;
    ghost var b := [tmp] + es[k..];
    forall i {:trigger b[i].next} | 0 <= i < |b|
      ensures b[i].next == if i + 1 < |b| then b[i + 1] else null
    {
      if i > 0 {
        assert b[i] == es[k + i - 1] && es[k + i - 1].next == if k + i < |es| then es[k + i] else null;
      }
    }
  }

  lemma PullingIs(buf: EvBuffer, tmp: Chain, es: seq<Chain>, fegs: seq<seq<byte>>)
    requires Pulling(buf, tmp, es, fegs)
    ensures NextLinked(es) && HoldAll(es, fegs) && Distinct([tmp] + es) && Within([tmp] + es, buf.Repr) && buf in buf.Repr
    ensures es != [] && |es| == |fegs| && (forall i :: 0 <= i < |fegs| ==> fegs[i] != [])
    ensures buf.first == tmp && buf.last == es[|es| - 1] && buf.lastWithDatap == if |es| == 1 then NextOf(tmp) else NextOf(es[|es| - 2])
    ensures tmp in buf.Repr && tmp.buffer in buf.Repr
  {
    assert ([tmp] + es)[0] == tmp;
  }

  lemma DenseRest(s: seq<byte>, fegs: seq<seq<byte>>, k: nat, left: nat)
    requires k <= |fegs| && (k < |fegs| ==> left < |fegs[k]|) && s != []
    requires forall i :: 0 <= i < |fegs| ==> fegs[i] != []
    ensures Dense([s] + RestSegs(fegs, k, left))
  {
    var r := RestSegs(fegs, k, left);
    forall i | 0 <= i < |r|
      ensures r[i] != []
    {
      assert r[i] == if i == 0 then fegs[k][left..] else fegs[k + i];
    }
  }

  /** The repair of last_with_datap. */
  method FixMark(buf: EvBuffer, tmp: Chain, removedLast: bool, removedDatap: bool)
    requires buf.first == tmp && (tmp.next != null ==> tmp.next.off != 0) && (removedLast <==> tmp.next == null)
    modifies buf`lastWithDatap
    ensures buf.lastWithDatap == if removedLast then ToFirst else if removedDatap then NextOf(tmp) else old(buf.lastWithDatap)
  {
    if removedLast {
      buf.lastWithDatap := ToFirst;
    } else if removedDatap {
      buf.lastWithDatap :=
        if buf.first.next != null && buf.first.next.off != 0 then NextOf(buf.first) else ToFirst;
    }
  }

  /** The end of the copying: the chain that gives only a part, and what follows `tmp` from now on. */
  method TakeRest(buf: EvBuffer, tmp: Chain, chain: Chain?, left: nat, at: nat,
                  ghost es: seq<Chain>, ghost fegs: seq<seq<byte>>, ghost base: nat, ghost k: nat)
    requires NextLinked(es) && HoldAll(es, fegs) && Distinct([tmp] + es) && k <= |es| == |fegs|
    requires chain == (if k < |es| then es[k] else null) && (if k < |es| then left < |fegs[k]| else left == 0)
    requires base <= at && at + left <= tmp.buffer.Length
    modifies tmp.buffer, tmp`next, buf`last, (if chain == null then {} else {chain})`misalign, (if chain == null then {} else {chain})`off
    ensures HoldAll(es[k..], RestSegs(fegs, k, left)) && NextLinked([tmp] + es[k..]) && tmp.next == chain
    ensures chain != null ==> chain.off == |fegs[k]| - left && buf.last == old(buf.last)
    ensures chain == null ==> buf.last == tmp
    ensures tmp.buffer[base..at + left] == old(tmp.buffer[base..at]) + (if k < |fegs| then fegs[k][..left] else [])
  {
    hide HoldAll, NextLinked, Distinct, RestSegs;
    Parted(tmp, es);
    if chain != null {
      TakePart(tmp, chain, left, at, es, fegs, base, k);
    } else {
      buf.last := tmp;
      NothingLeft(es, fegs, k);
    }
    LinkRest(tmp, chain, es, k);
  }

  lemma Parted(tmp: Chain, es: seq<Chain>)
    requires Distinct([tmp] + es)
    ensures Distinct(es) && forall i :: 0 <= i < |es| ==> es[i] != tmp && es[i].buffer != tmp.buffer
  {
    var cs := [tmp] + es;
    forall i | 0 <= i < |es|
      ensures es[i] != tmp && es[i].buffer != tmp.buffer
    {
      assert cs[0] == tmp && cs[i + 1] == es[i];
    }
    forall i, j | 0 <= i < j < |es|
      ensures es[i] != es[j] && es[i].buffer != es[j].buffer
    {
      assert cs[i + 1] == es[i] && cs[j + 1] == es[j];
    }
  }

  /** evbuffer_pullup once `tmp` is chosen: `left` bytes are missing behind the bytes `pre` it already has. */
  method PullInto(buf: EvBuffer, tmp: Chain, chain0: Chain, left0: nat,
                  ghost es: seq<Chain>, ghost fegs: seq<seq<byte>>, ghost pre: seq<byte>)
    requires Pulling(buf, tmp, es, fegs) && chain0 == es[0] && buf.Deref(buf.lastWithDatap) == es[|es| - 1]
    requires tmp.off == |pre| + left0 > 0 && tmp.misalign + tmp.off <= tmp.buffer.Length
    requires tmp.buffer[tmp.misalign..tmp.misalign + |pre|] == pre
    requires left0 <= |Flat(fegs)| && buf.totalLen == |pre| + |Flat(fegs)|
    modifies buf.Repr
    ensures buf.Valid() && buf.Repr == old(buf.Repr) && buf.Bytes() == pre + Flat(fegs)
    ensures buf.first == tmp && tmp.off == |pre| + left0
  {
    hide *;
    PullingIs(buf, tmp, es, fegs);
    SkipSome(tmp, es, 0, buf.Repr);
    var at := tmp.misalign + tmp.off - left0;
    var lastWithData := buf.Deref(buf.lastWithDatap);
    ghost var base, k := tmp.misalign, 0;
    var chain, left, removedLast, removedDatap;
    chain, left, removedLast, removedDatap, k :=
      Gather(tmp, at, left0, chain0, lastWithData, buf.lastWithDatap, es, fegs, pre, base);
    SkipSome(tmp, es, k, buf.Repr);
    ghost var s := Pulled(pre, fegs, k, left);
    PulledIs(pre, fegs, k, left);
    TakeRest(buf, tmp, chain, left, at + left0 - left, es, fegs, base, k);
    RestFlat(pre, fegs, k, left);
    DenseRest(s, fegs, k, left);
    Finish(buf, tmp, removedLast, removedDatap, es, k, s, RestSegs(fegs, k, left));
  }

  /** The end of evbuffer_pullup. */
  method Finish(buf: EvBuffer, tmp: Chain, removedLast: bool, removedDatap: bool,
                ghost es: seq<Chain>, ghost k: nat, ghost s: seq<byte>, ghost tegs: seq<seq<byte>>)
    requires es != [] && k <= |es| && buf in buf.Repr
    requires Within([tmp] + es[k..], buf.Repr) && Distinct([tmp] + es[k..]) && NextLinked([tmp] + es[k..]) && Distinct([tmp] + es)
    requires HoldAll(es[k..], tegs) && Dense([s] + tegs)
    requires 0 < |s| == tmp.off && tmp.misalign + tmp.off <= tmp.buffer.Length
    requires tmp.buffer[tmp.misalign..tmp.misalign + tmp.off] == s
    requires buf.first == tmp && buf.last == (if k == |es| then tmp else es[|es| - 1]) && buf.totalLen == |Flat([s] + tegs)|
    requires tmp.next == (if k < |es| then es[k] else null) && (tmp.next != null ==> tmp.next.off != 0)
    requires buf.lastWithDatap == if |es| == 1 then NextOf(tmp) else NextOf(es[|es| - 2])
    requires removedLast <==> k == |es|
    requires removedDatap <==> exists j :: 0 <= j < k && buf.lastWithDatap == NextOf(es[j])
    modifies buf`lastWithDatap, buf`chains, buf`segs, buf`Repr
    ensures buf.Valid() && buf.Repr == old(buf.Repr) && buf.Bytes() == Flat([s] + tegs)
  {
    hide *;
    MarkAfter(tmp, es, k, buf.lastWithDatap, removedDatap);
    FixMark(buf, tmp, removedLast, removedDatap);
    Conclude(buf, tmp, es[k..], s, tegs);
  }

  /** The ghost fields catch up with the list that starts with `tmp`. */
  ghost method Conclude(buf: EvBuffer, tmp: Chain, es: seq<Chain>, s: seq<byte>, fegs: seq<seq<byte>>)
    requires buf in buf.Repr && Within([tmp] + es, buf.Repr) && Distinct([tmp] + es) && NextLinked([tmp] + es)
    requires HoldAll(es, fegs) && Dense([s] + fegs)
    requires 0 < |s| == tmp.off && tmp.misalign + tmp.off <= tmp.buffer.Length
    requires tmp.buffer[tmp.misalign..tmp.misalign + tmp.off] == s
    requires buf.first == tmp && buf.last == (if es == [] then tmp else es[|es| - 1]) && buf.totalLen == |Flat([s] + fegs)|
    requires buf.lastWithDatap == if es == [] then ToFirst else NextOf(([tmp] + es)[|es| - 1])
    modifies buf`chains, buf`segs, buf`Repr
    ensures buf.Valid() && buf.Repr == old(buf.Repr) && buf.Bytes() == Flat([s] + fegs)
  {
    hide *;
    FillHolds(tmp, s);
    HoldAllPrepend(es, fegs, tmp, s);
    buf.Settle([tmp] + es, [s] + fegs, buf.Repr);
    buf.BytesIs();
  }

  lemma PulledIs(pre: seq<byte>, fegs: seq<seq<byte>>, k: nat, left: nat)
    requires k <= |fegs| && (if k < |fegs| then left < |fegs[k]| else left == 0)
    ensures Pulled(pre, fegs, k, left) == pre + Flat(fegs[..k]) + (if k < |fegs| then fegs[k][..left] else [])
    ensures |Pulled(pre, fegs, k, left)| == |pre| + |Flat(fegs[..k])| + left
  {
  }

  lemma NothingLeft(es: seq<Chain>, fegs: seq<seq<byte>>, k: nat)
    requires k == |es| == |fegs|
    ensures HoldAll(es[k..], RestSegs(fegs, k, 0))
  {
  }

  lemma FillHolds(tmp: Chain, s: seq<byte>)
    requires 0 < |s| == tmp.off && tmp.misalign + tmp.off <= tmp.buffer.Length
    requires tmp.buffer[tmp.misalign..tmp.misalign + tmp.off] == s
    ensures tmp.Holds(s)
  {
  }

  /** More bytes are wanted than the first chain has: there are several chains, all with data. */
  lemma Several(buf: EvBuffer, n: nat)
    requires buf.Valid() && buf.first != null && buf.first.off < n <= buf.totalLen
    ensures |buf.chains| == |buf.segs| > 1 && forall i :: 0 <= i < |buf.segs| ==> buf.segs[i] != []
    ensures buf.lastWithDatap == NextOf(buf.chains[|buf.chains| - 2]) && buf.chains[|buf.chains| - 2].next == buf.last
    ensures Flat(buf.segs) == buf.segs[0] + Flat(buf.segs[1..]) && buf.first.off == |buf.segs[0]|
    ensures buf.first == buf.chains[0] && buf.last == buf.chains[|buf.chains| - 1]
    ensures Within(buf.chains, buf.Repr) && Distinct(buf.chains) && NextLinked(buf.chains) && HoldAll(buf.chains, buf.segs)
    ensures buf in buf.Repr && buf.chains[0].Holds(buf.segs[0]) && buf.totalLen == |Flat(buf.segs)|
  {
    var m := |buf.chains|;
    FlatEmpty(buf.segs);
    FlatEmpty(buf.segs[1..]);
    buf.At(0);
    if m > 1 {
      buf.At(m - 2);
    }
  }

  lemma TailHolds(es: seq<Chain>, fegs: seq<seq<byte>>)
    requires HoldAll(es, fegs) && es != [] && NextLinked(es)
    ensures HoldAll(es[1..], fegs[1..]) && NextLinked(es[1..])
  {
    TailLinked(es, 1);
  }

  lemma FirstPart(c: Chain, s: seq<byte>)
    requires c.Holds(s)
    ensures c.buffer[c.misalign..c.misalign + |s|] == s && c.off == |s|
  {
  }

  /** evbuffer_pullup into the first chain, which has room for all `n` bytes. */
  method PullHere(buf: EvBuffer, n: nat)
    requires buf.Valid() && buf.first != null && buf.first.off < n <= buf.totalLen
    requires n <= buf.first.buffer.Length - buf.first.misalign
    modifies buf.Repr
    ensures buf.Valid() && buf.Repr == old(buf.Repr) && buf.Bytes() == old(buf.Bytes())
    ensures buf.first != null && buf.first.off >= n
  {
    hide *;
    Several(buf, n);
    ghost var es, fegs, pre := buf.chains[1..], buf.segs[1..], buf.segs[0];
    var tmp := buf.first;
    buf.BytesIs();
    TailHolds(buf.chains, buf.segs);
    FirstPart(tmp, pre);
    assert [tmp] + es == buf.chains;
    buf.At(0);
    var left, chain := n - tmp.off, tmp.next;
    ReuseFirst(buf, tmp, n, es, fegs);
    DerefNext(buf, buf.lastWithDatap.chain);
    PullInto(buf, tmp, chain, left, es, fegs, pre);
  }

  /** The first chain counts the bytes it is about to get. */
  method ReuseFirst(buf: EvBuffer, tmp: Chain, n: nat, ghost es: seq<Chain>, ghost fegs: seq<seq<byte>>)
    requires NextLinked(es) && HoldAll(es, fegs) && Distinct([tmp] + es) && Within([tmp] + es, buf.Repr) && buf in buf.Repr
    requires es != [] && (forall i :: 0 <= i < |fegs| ==> fegs[i] != []) && buf.first == tmp && buf.last == es[|es| - 1]
    requires buf.lastWithDatap == if |es| == 1 then NextOf(tmp) else NextOf(es[|es| - 2])
    modifies tmp`off
    ensures Pulling(buf, tmp, es, fegs) && tmp.off == n
  {
    hide Chain.Holds;
    assert forall i :: 0 <= i < |es| ==> es[i] != tmp by { SkipSome(tmp, es, 0, buf.Repr); }
    hide Distinct, Within, NextLinked;
    tmp.off := n;
    assert forall i :: 0 <= i < |es| ==> es[i].Holds(fegs[i]);
  }

  /** evbuffer_pullup into a new chain. */
  method PullNew(buf: EvBuffer, tmp: Chain, n: nat)
    requires buf.Valid() && buf.first != null && buf.first.off < n <= buf.totalLen
    requires tmp !in buf.Repr && tmp.buffer !in buf.Repr && tmp.misalign == 0 && n <= tmp.buffer.Length
    modifies buf.Repr, tmp, tmp.buffer
    ensures buf.Valid() && buf.Repr == old(buf.Repr) + {tmp, tmp.buffer} && buf.Bytes() == old(buf.Bytes())
    ensures buf.first != null && buf.first.off >= n
  {
    hide *;
    Several(buf, n);
    ghost var es, fegs := buf.chains, buf.segs;
    var chain := buf.first;
    buf.BytesIs();
    DistinctPrepend(es, buf.Repr, tmp);
    EmptySlice(tmp.buffer, 0);
    SkipSome(tmp, es, 0, buf.Repr + {tmp, tmp.buffer});
    UseNew(buf, tmp, n, es, fegs);
    DerefNext(buf, buf.lastWithDatap.chain);
    PullInto(buf, tmp, chain, n, es, fegs, []);
    assert [] + Flat(fegs) == Flat(fegs);
  }

  lemma DerefNext(buf: EvBuffer, c: Chain)
    ensures buf.Deref(NextOf(c)) == c.next
  {
  }

  /** The new chain goes before the others and counts the bytes it is about to get. */
  method UseNew(buf: EvBuffer, tmp: Chain, n: nat, ghost es: seq<Chain>, ghost fegs: seq<seq<byte>>)
    requires NextLinked(es) && HoldAll(es, fegs) && Distinct([tmp] + es)
    requires Within([tmp] + es, buf.Repr + {tmp, tmp.buffer}) && buf in buf.Repr && forall i :: 0 <= i < |es| ==> es[i] != tmp
    requires |es| > 1 && (forall i :: 0 <= i < |fegs| ==> fegs[i] != []) && buf.last == es[|es| - 1]
    requires buf.lastWithDatap == NextOf(es[|es| - 2])
    modifies buf`first, buf`Repr, tmp`off
    ensures buf.Repr == old(buf.Repr) + {tmp, tmp.buffer} && Pulling(buf, tmp, es, fegs) && tmp.off == n
  {
    hide Chain.Holds, Distinct, Within, NextLinked;
    tmp.off := n;
    buf.first := tmp;
    buf.Repr := buf.Repr + {tmp, tmp.buffer};
    assert forall i :: 0 <= i < |es| ==> es[i].Holds(fegs[i]);
  }

  lemma EmptySlice(a: array<byte>, i: nat)
    requires i <= a.Length
    ensures a[i..i] == []
  {
  }

  /** What the first chain holds is the beginning of the bytes. */
  lemma FirstBytes(buf: EvBuffer, n: nat)
    requires buf.Valid() && buf.first != null && n <= buf.first.off
    ensures buf.first.misalign + buf.first.off <= buf.first.buffer.Length && n <= |buf.Bytes()|
    ensures buf.first.Live()[..n] == buf.Bytes()[..n]
  {
    buf.At(0);
    HoldsLength(buf.first, buf.segs[0]);
    assert buf.Bytes() == buf.segs[0] + Flat(buf.segs[1..]);
  }

  /** The memory of the first chain from its first byte on. */
  ghost function FirstSpace(buf: EvBuffer): int
    reads buf`first, if buf.first == null then {} else {buf.first}
  {
    if buf.first == null then 0 else buf.first.buffer.Length - buf.first.misalign
  }

  lemma FirstSpaceIs(buf: EvBuffer)
    ensures FirstSpace(buf) == if buf.first == null then 0 else buf.first.buffer.Length - buf.first.misalign
  {
  }

  /** evbuffer_pullup: the first bytes become contiguous in the first chain; a negative size stands for all of them. */
  method PullUp(buf: EvBuffer, size: int, allocOk: bool) returns (result: Chain?)
    requires buf.Valid()
    modifies buf.Repr
    ensures buf.Valid() && fresh(buf.Repr - old(buf.Repr)) && old(buf.Repr) <= buf.Repr
    ensures buf.Bytes() == old(buf.Bytes()) && buf.totalLen == old(buf.totalLen)
    ensures var n := if size < 0 then |buf.Bytes()| else size;
      result == null <==> n == 0 || n > |buf.Bytes()| || (!allocOk && old(FirstSpace(buf)) < n)
    ensures result != null ==>
      var n := if size < 0 then |buf.Bytes()| else size;
      result == buf.first && n <= result.off <= result.buffer.Length - result.misalign && result.Live()[..n] == buf.Bytes()[..n]
  {
    hide *;
    buf.WholeLength();
    buf.Ends();
    FirstSpaceIs(buf);
    var chain := buf.first;
    var n := if size < 0 then buf.totalLen else size;
    if n == 0 || n > buf.totalLen {
      return null;
    }
    assert |buf.Bytes()| > 0;
    if chain.off >= n {
      FirstBytes(buf, n);
      return chain;
    }
    if chain.buffer.Length - chain.misalign >= n {
      PullHere(buf, n);
    } else {
      var tmp := ChainNew(n, allocOk);
      if tmp == null {
        return null;
      }
      PullNew(buf, tmp, n);
    }
    buf.WholeLength();
    FirstBytes(buf, n);
    return buf.first;
  }
}
