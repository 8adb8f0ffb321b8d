/** The byte queue of buffer.c: a linked list of partly filled chains. */
module Evbuffer {
  import opened Flatten

  const MIN_BUFFER_SIZE := 1024
  const EVBUFFER_CHAIN_SIZE := 48
  const EVBUFFER_CHAIN_MAX_AUTO_SIZE := 4096
  const MAX_TO_REALIGN_IN_EXPAND := 2048

  /** memcpy and memmove into a chain's memory. */
  method CopyInto(dst: array<byte>, at: nat, src: seq<byte>)
    requires at + |src| <= dst.Length
    modifies dst
    ensures dst[at..at + |src|] == src
    ensures dst[..at] == old(dst[..at]) && dst[at + |src|..] == old(dst[at + |src|..])
  {
    forall i | 0 <= i < |src| {
      dst[at + i] := src[i];
    }
  }

  class Chain {
    const buffer: array<byte>
    var misalign: nat
    var off: nat
    var next: Chain?

    constructor (length: nat)
      requires length > 0
      ensures fresh(buffer) && buffer.Length == length && Holds([]) && misalign == 0 && next == null
    {
      buffer := new byte[length](_ => 0);
      misalign, off, next := 0, 0, null;
    }

    /** The bytes stored in this chain are `s`. */
    ghost predicate Holds(s: seq<byte>)
      reads this`misalign, this`off, buffer
    {
      0 < buffer.Length && misalign + off <= buffer.Length && off == |s| && buffer[misalign..misalign + off] == s
    }

    /** Bytes go behind the stored ones. */
    method Append(data: seq<byte>, ghost s: seq<byte>)
      requires Holds(s) && misalign + off + |data| <= buffer.Length
      modifies this`off, buffer
      ensures Holds(s + data) && off == old(off) + |data|
    {
      CopyInto(buffer, misalign + off, data);
      assert buffer[misalign..misalign + off] == s by {
        assert buffer[..misalign + off][misalign..] == old(buffer[..misalign + off])[misalign..];
      }
      off := off + |data|;
    }

    /** Bytes go into the free space before the stored ones. */
    method PutBefore(data: seq<byte>, ghost s: seq<byte>)
      requires Holds(s) && |data| <= misalign
      modifies this`off, this`misalign, buffer
      ensures Holds(data + s) && misalign == old(misalign) - |data| && off == old(off) + |data|
    {
      CopyInto(buffer, misalign - |data|, data);
      assert buffer[misalign..misalign + off] == s by {
        assert buffer[misalign..][..off] == old(buffer[misalign..])[..off];
      }
      misalign, off := misalign - |data|, off + |data|;
    }

    /** evbuffer_chain_align: the stored bytes move to the start of the memory. */
    method Align(ghost s: seq<byte>)
      requires Holds(s)
      modifies this`misalign, buffer
      ensures Holds(s) && misalign == 0
    {
      CopyInto(buffer, 0, buffer[misalign..misalign + off]);
      misalign := 0;
    }

    /** An empty chain is filled from its end. */
    method Rewind()
      requires Holds([])
      modifies this`misalign
      ensures Holds([]) && misalign == buffer.Length
    {
      misalign := buffer.Length;
    }

    /** The first `k` stored bytes are forgotten. */
    method DropFront(k: nat, ghost s: seq<byte>)
      requires Holds(s) && k <= |s|
      modifies this`misalign, this`off
      ensures Holds(s[k..])
    {
      misalign, off := misalign + k, off - k;
    }

    /** The stored bytes. */
    function Live(): seq<byte>
      requires misalign + off <= buffer.Length
      reads this, buffer
    {
      buffer[misalign..misalign + off]
    }
  }

  /** A pointer to a chain pointer: &buf->first or &chain->next. */
  datatype Link = ToFirst | NextOf(chain: Chain)

  /** `a` doubled until it is at least `n`, and no further. */
  function Doubled(a: nat, n: nat): (r: nat)
    requires a > 0
    ensures r >= a && r >= n && (r == a || r < 2 * n)
    decreases n - a
  {
    if a >= n then a else Doubled(2 * a, n)
  }

  /** The room for data in a new chain that is asked for with `size`. */
  function RoomFor(size: nat): (room: nat)
    ensures size <= room
  {
    Doubled(MIN_BUFFER_SIZE, size + EVBUFFER_CHAIN_SIZE) - EVBUFFER_CHAIN_SIZE
  }

  /** What evbuffer_add asks for behind a chain with room for `length` bytes: twice as much, up to a bound, and at least the
      data. */
  function NextSize(length: nat, datlen: nat): (size: nat)
    ensures datlen <= size && length <= size
    ensures length <= EVBUFFER_CHAIN_MAX_AUTO_SIZE / 2 ==> 2 * length <= size
    ensures size == datlen || size == length || size == 2 * length <= EVBUFFER_CHAIN_MAX_AUTO_SIZE
  {
    var grown := if length <= EVBUFFER_CHAIN_MAX_AUTO_SIZE / 2 then 2 * length else length;
    if datlen > grown then datlen else grown
  }

  lemma NextSizeIs(length: nat, datlen: nat)
    ensures var grown := if length <= EVBUFFER_CHAIN_MAX_AUTO_SIZE / 2 then 2 * length else length;
      NextSize(length, datlen) == if datlen > grown then datlen else grown
  {
  }

  /** evbuffer_chain_new: the allocation is doubled until `size` bytes fit behind the header. */
  method ChainNew(size: nat, allocOk: bool) returns (chain: Chain?)
    ensures chain != null <==> allocOk
    ensures chain != null ==> fresh(chain) && fresh(chain.buffer) && chain.Holds([]) && chain.misalign == 0
    ensures chain != null ==> chain.buffer.Length == RoomFor(size) >= size && chain.next == null
  {
    var total := size + EVBUFFER_CHAIN_SIZE;
    var toAlloc := MIN_BUFFER_SIZE;
    while toAlloc < total
      invariant toAlloc >= MIN_BUFFER_SIZE && Doubled(toAlloc, total) == Doubled(MIN_BUFFER_SIZE, total)
    {
      toAlloc := 2 * toAlloc;
    }
    if !allocOk {
      return null;
    }
    chain := new Chain(toAlloc - EVBUFFER_CHAIN_SIZE);
  }

  lemma EmptyPrefix<T>(s: seq<T>, t: seq<T>)
    ensures s[0..] == s && t + s[..0] == t
  {
  }

  lemma WholePrefix<T>(s: seq<T>)
    ensures s[|s|..] == [] && s[..|s|] == s
  {
  }

  lemma HoldsLength(c: Chain, s: seq<byte>)
    requires c.Holds(s)
    ensures c.off == |s| && c.misalign + c.off <= c.buffer.Length && c.Live() == s
  {
  }

  lemma JoinPrefix(a: array<byte>, i: nat, s: seq<byte>)
    requires i + |s| <= a.Length && a[i..i + |s|] == s
    ensures a[..i + |s|] == a[..i] + s
  {
    assert a[..i + |s|] == a[..i] + a[i..i + |s|];
  }

  /** No chain and no memory block occurs twice. */
  ghost predicate Distinct(cs: seq<Chain>) {
    forall i, j :: 0 <= i < j < |cs| ==> cs[i] != cs[j] && cs[i].buffer != cs[j].buffer
  }

  lemma DistinctAt(cs: seq<Chain>, i: nat)
    requires Distinct(cs) && i < |cs|
    ensures forall j :: 0 <= j < |cs| && j != i ==> cs[j] != cs[i] && cs[j].buffer != cs[i].buffer
  {
  }

  /** Only a list of a single chain may have an empty chain. */
  ghost predicate Dense(segs: seq<seq<byte>>) {
    |segs| <= 1 || forall i :: 0 <= i < |segs| ==> segs[i] != []
  }

  lemma DensePrepend(segs: seq<seq<byte>>, s: seq<byte>)
    requires Dense(segs) && Flat(segs) != [] && s != []
    ensures Dense([s] + segs)
  {
    FlatEmpty(segs);
  }

  lemma DenseJoin(segs: seq<seq<byte>>, tegs: seq<seq<byte>>)
    requires Dense(segs) && Dense(tegs) && Flat(segs) != [] && Flat(tegs) != []
    ensures Dense(segs + tegs)
  {
    FlatEmpty(segs);
    FlatEmpty(tegs);
  }

  ghost predicate Within(cs: seq<Chain>, repr: set<object>) {
    forall i :: 0 <= i < |cs| ==> cs[i] in repr && cs[i].buffer in repr
  }

  ghost predicate NextLinked(cs: seq<Chain>)
    reads cs`next
  {
    forall i {:trigger cs[i].next} :: 0 <= i < |cs| ==> cs[i].next == if i + 1 < |cs| then cs[i + 1] else null
  }

  ghost predicate HoldAll(cs: seq<Chain>, segs: seq<seq<byte>>)
    reads cs`misalign, cs`off, set c <- cs :: c.buffer
  {
    |cs| == |segs| && forall i :: 0 <= i < |cs| ==> cs[i].Holds(segs[i])
  }

  lemma HoldAllAppend(cs: seq<Chain>, segs: seq<seq<byte>>, c: Chain, s: seq<byte>)
    requires HoldAll(cs, segs) && c.Holds(s)
    ensures HoldAll(cs + [c], segs + [s])
  {
  }

  lemma SliceOk(cs: seq<Chain>, segs: seq<seq<byte>>, repr: set<object>, i: nat, j: nat)
    requires Within(cs, repr) && Distinct(cs) && HoldAll(cs, segs) && i <= j <= |cs|
    ensures Within(cs[i..j], repr) && Distinct(cs[i..j]) && HoldAll(cs[i..j], segs[i..j])
  {
  }

  lemma TailLinked(cs: seq<Chain>, i: nat)
    requires NextLinked(cs) && i <= |cs|
    ensures NextLinked(cs[i..])
  {
  }

  /** The lists of two buffers hold different chains; together they are distinct again. */
  lemma JoinOk(cs: seq<Chain>, segs: seq<seq<byte>>, repr: set<object>, ds: seq<Chain>, tegs: seq<seq<byte>>, repr': set<object>, owner: EvBuffer)
    requires Within(cs, repr) && Distinct(cs) && HoldAll(cs, segs)
    requires Within(ds, repr') && Distinct(ds) && HoldAll(ds, tegs) && repr !! repr'
    ensures Distinct(cs + ds) && HoldAll(cs + ds, segs + tegs) && Within(cs + ds, repr + (repr' - {owner}))
    ensures forall c <- cs :: c !in ds
  {
  }

  lemma WithinMoved(ds: seq<Chain>, repr': set<object>, owner: EvBuffer, repr: set<object>)
    requires Within(ds, repr')
    ensures Within(ds, repr + (repr' - {owner}))
  {
  }

  lemma WithinBoth(cs: seq<Chain>, ds: seq<Chain>, repr: set<object>, repr': set<object>, owner: EvBuffer, owner': EvBuffer)
    requires Within(cs, repr) && Within(ds, repr') && repr !! repr'
    ensures Within(cs + ds, repr' + (repr - {owner}))
  {
  }

  lemma AllOff(cs: seq<Chain>, fegs: seq<seq<byte>>, ds: seq<Chain>, tegs: seq<seq<byte>>)
    requires HoldAll(cs, fegs) && HoldAll(ds, tegs)
    requires (forall i :: 0 <= i < |fegs| ==> fegs[i] != []) && forall i :: 0 <= i < |tegs| ==> tegs[i] != []
    ensures forall i :: 0 <= i < |cs + ds| ==> (cs + ds)[i].off != 0
  {
    forall i | 0 <= i < |cs + ds|
      ensures (cs + ds)[i].off != 0
    {
      if i < |cs| {
        assert cs[i].Holds(fegs[i]);
      } else {
        assert ds[i - |cs|].Holds(tegs[i - |cs|]);
      }
    }
  }

  /** Two lists of chains with data, the first possibly a buffer that was empty. */
  lemma AllFull(cs: seq<Chain>, fegs: seq<seq<byte>>, ds: seq<Chain>, tegs: seq<seq<byte>>, segs: seq<seq<byte>>)
    requires HoldAll(cs, fegs) && HoldAll(ds, tegs) && Dense(segs) && ds != []
    requires forall i :: 0 <= i < |tegs| ==> tegs[i] != []
    requires if Flat(segs) == [] then fegs == [] else fegs == segs
    ensures forall i :: 0 <= i < |cs + ds| ==> (cs + ds)[i].off != 0
    ensures Dense(fegs + tegs) && Flat(fegs + tegs) == Flat(segs) + Flat(tegs)
  {
    hide Chain.Holds, Flat;
    FlatEmpty(segs);
    FlatEmpty(tegs);
    FlatConcat(fegs, tegs);
    if Flat(segs) != [] {
      assert tegs[0] != [];
      DenseJoin(segs, tegs);
    } else {
      assert fegs + tegs == tegs;
    }
    AllOff(cs, fegs, ds, tegs);
  }

  ghost function Objects(cs: seq<Chain>): set<object> {
    (set c <- cs :: c as object) + (set c <- cs :: c.buffer as object)
  }

  lemma WithinObjects(cs: seq<Chain>)
    ensures Within(cs, Objects(cs))
  {
    assert forall i :: 0 <= i < |cs| ==> cs[i] in cs;
  }

  /** The first `k` chains can be given away: the others keep what is theirs. */
  lemma GiveAway(cs: seq<Chain>, segs: seq<seq<byte>>, repr: set<object>, k: nat, owner: EvBuffer)
    requires Within(cs, repr) && Distinct(cs) && HoldAll(cs, segs) && k <= |cs| && owner in repr
    ensures Within(cs[..k], Objects(cs[..k])) && Distinct(cs[..k]) && HoldAll(cs[..k], segs[..k])
    ensures Within(cs[k..], repr - Objects(cs[..k])) && Distinct(cs[k..]) && HoldAll(cs[k..], segs[k..])
    ensures Objects(cs[..k]) <= repr && owner !in Objects(cs[..k])
  {
    SliceOk(cs, segs, repr, 0, k);
    SliceOk(cs, segs, repr, k, |cs|);
    assert cs[k..|cs|] == cs[k..] && segs[k..|cs|] == segs[k..] && cs[0..k] == cs[..k] && segs[0..k] == segs[..k];
    WithinObjects(cs[..k]);
    forall c: Chain | c in cs[..k]
      ensures c in repr && c.buffer in repr
    {
      var i :| 0 <= i < k && cs[i] == c;
    }
    forall i | 0 <= i < |cs| - k
      ensures cs[k..][i] !in Objects(cs[..k]) && cs[k..][i].buffer !in Objects(cs[..k])
    {
      assert forall j :: 0 <= j < k ==> cs[j] != cs[k + i] && cs[j].buffer != cs[k + i].buffer;
    }
  }

  /** Two lists, the first ending in the head of the second, are one list. */
  lemma Joined(cs: seq<Chain>, ds: seq<Chain>)
    requires cs != [] && ds != [] && NextLinked(ds)
    requires forall i {:trigger cs[i].next} :: 0 <= i < |cs| ==> cs[i].next == if i + 1 < |cs| then cs[i + 1] else ds[0]
    ensures NextLinked(cs + ds)
  {
  }

  lemma HoldAllPrepend(cs: seq<Chain>, segs: seq<seq<byte>>, c: Chain, s: seq<byte>)
    requires HoldAll(cs, segs) && c.Holds(s)
    ensures HoldAll([c] + cs, [s] + segs)
  {
  }

  lemma DistinctPrepend(cs: seq<Chain>, repr: set<object>, c: Chain)
    requires Within(cs, repr) && Distinct(cs) && c !in repr && c.buffer !in repr
    ensures Within([c] + cs, repr + {c, c.buffer}) && Distinct([c] + cs)
    ensures c !in cs
  {
  }

  lemma DistinctAppend(cs: seq<Chain>, repr: set<object>, c: Chain)
    requires Within(cs, repr) && Distinct(cs) && c !in repr && c.buffer !in repr
    ensures Within(cs + [c], repr + {c, c.buffer}) && Distinct(cs + [c])
    ensures Within([c], repr + {c, c.buffer}) && Distinct([c])
  {
  }

  /** How many whole segments `n` bytes make up. */
  ghost function Whole(segs: seq<seq<byte>>, n: nat): (k: nat)
    ensures k <= |segs|
  {
    if segs == [] || |segs[0]| > n then 0 else 1 + Whole(segs[1..], n - |segs[0]|)
  }

  /** The bytes behind them. */
  ghost function Beyond(segs: seq<seq<byte>>, n: nat): (rest: nat)
    ensures rest <= n
  {
    if segs == [] || |segs[0]| > n then n else Beyond(segs[1..], n - |segs[0]|)
  }

  lemma {:induction false} WholeIs(segs: seq<seq<byte>>, n: nat, k: nat)
    requires k < |segs| && |Flat(segs[..k])| <= n < |Flat(segs[..k])| + |segs[k]|
    ensures Whole(segs, n) == k && Beyond(segs, n) == n - |Flat(segs[..k])|
  {
    if k > 0 {
      assert segs[..k][0] == segs[0] && segs[..k][1..] == segs[1..][..k - 1];
      WholeIs(segs[1..], n - |segs[0]|, k - 1);
    }
  }

  /** The stored bytes of several chains, one after the other. */
  ghost function LiveAll(cs: seq<Chain>): seq<byte>
    requires forall c <- cs :: c.misalign + c.off <= c.buffer.Length
    reads cs, set c <- cs :: c.buffer
  {
    if cs == [] then [] else cs[0].Live() + LiveAll(cs[1..])
  }

  lemma {:induction false} LiveIsFlat(cs: seq<Chain>, segs: seq<seq<byte>>)
    requires HoldAll(cs, segs)
    ensures forall c <- cs :: c.misalign + c.off <= c.buffer.Length
    ensures LiveAll(cs) == Flat(segs)
  {
    if cs != [] {
      HoldsLength(cs[0], segs[0]);
      assert forall i :: 0 <= i < |cs| - 1 ==> cs[1..][i].Holds(segs[1..][i]);
      LiveIsFlat(cs[1..], segs[1..]);
      assert cs == [cs[0]] + cs[1..];
    }
  }

  /** last->next = head, for the last chain of one list and the head of another. */
  method JoinLists(last: Chain, head: Chain, ghost cs: seq<Chain>, ghost ds: seq<Chain>)
    requires cs != [] && ds != [] && last == cs[|cs| - 1] && head == ds[0] && last !in ds
    requires NextLinked(cs) && NextLinked(ds) && Distinct(cs)
    modifies last`next
    ensures NextLinked(cs + ds)
  {
    last.next := head;
    Joined(cs, ds);
  }

  class EvBuffer {
    var first: Chain?
    var last: Chain?
    var lastWithDatap: Link
    var totalLen: nat
    ghost var chains: seq<Chain>
    ghost var segs: seq<seq<byte>>
    ghost var Repr: set<object>

    /** evbuffer_new */
    constructor ()
      ensures Valid() && fresh(Repr) && Bytes() == [] && chains == []
    {
      first, last, lastWithDatap, totalLen := null, null, ToFirst, 0;
      chains, segs, Repr := [], [], {this};
    }

    /** The contents, as one byte sequence. */
    ghost function Bytes(): seq<byte>
      reads this`segs
    {
      Flat(segs)
    }

    /** The list from `first` to `last` is `chains`, the bytes in the chains are `segs`. */
    ghost predicate Linked()
      reads this`first, this`last, this`chains, this`segs, chains`next, chains`misalign, chains`off, set c <- chains :: c.buffer
    {
      Distinct(chains) && NextLinked(chains) && HoldAll(chains, segs) &&
      first == (if chains == [] then null else chains[0]) &&
      last == (if chains == [] then null else chains[|chains| - 1])
    }

    /** lastWithDatap is the link to the last chain. */
    ghost predicate Marked()
      reads this`chains, this`lastWithDatap
    {
      lastWithDatap == if |chains| <= 1 then ToFirst else NextOf(chains[|chains| - 2])
    }

    ghost predicate Valid()
      reads this, Repr
    {
      this in Repr && Within(chains, Repr) && Linked() && Dense(segs) && Marked() && totalLen == |Bytes()|
    }

    function Deref(l: Link): Chain?
      reads this, if l.NextOf? then {l.chain} else {}
    {
      if l.ToFirst? then first else l.chain.next
    }

    method SetLink(l: Link, c: Chain?)
      modifies this`first, (if l.NextOf? then {l.chain} else {})`next
      ensures Deref(l) == c
      ensures l.NextOf? ==> first == old(first)
    {
      match l
      case ToFirst => first := c;
      case NextOf(chain) => chain.next := c;
    }

    /** What is known of the chain at index `i`. */
    lemma At(i: nat)
      requires Within(chains, Repr) && Linked() && i < |chains|
      ensures chains[i] in Repr && chains[i].buffer in Repr && chains[i].Holds(segs[i]) && chains[i].off == |segs[i]|
      ensures chains[i].next == (if i + 1 < |chains| then chains[i + 1] else null)
      ensures forall j :: 0 <= j < |chains| && j != i ==> chains[j] != chains[i] && chains[j].buffer != chains[i].buffer
      ensures totalLen == |Bytes()| && segs[i] != [] ==> totalLen > 0
    {
      FlatAt(segs, i);
    }

    lemma Ends()
      requires Valid()
      ensures first == null <==> chains == []
      ensures last == null <==> chains == []
      ensures first != null ==> first in Repr && first.buffer in Repr && first.misalign + first.off <= first.buffer.Length
      ensures last != null ==> last in Repr && last.buffer in Repr && last.misalign + last.off <= last.buffer.Length
      ensures first != null ==> |segs| == |chains| && first == chains[0] && last == chains[|chains| - 1] && first.off == |segs[0]|
      ensures first != null ==> 0 < first.buffer.Length
      ensures this in Repr
      ensures first != null && first.off != 0 ==> Bytes() != []
      ensures Bytes() != [] ==> first != null
    {
      FlatEmpty(segs);
      if chains != [] {
        At(0);
        At(|chains| - 1);
      }
    }

    lemma SegsMatch()
      requires Linked()
      ensures |segs| == |chains|
    {
    }

    /** Bytes go behind the data of the last chain, which has room for them. */
    method FillLast(data: seq<byte>)
      requires Valid() && last != null && last.misalign + last.off + |data| <= last.buffer.Length
      modifies Repr
      ensures Valid() && Repr == old(Repr) && chains == old(chains)
      ensures Bytes() == old(Bytes()) + data
      ensures last == old(last) && last.misalign == old(last.misalign) && last.off == old(last.off) + |data|
    {
      hide Flat, Distinct, Chain.Holds, Within, NextLinked;
      ghost var n := |chains| - 1;
      At(n);
      last.Append(data, segs[n]);
      totalLen := totalLen + |data|;
      FlatExtendLast(segs, data);
      segs := segs[n := segs[n] + data];
    }

    /** Bytes go before the data of the first chain, which has room for them. */
    method FillFirst(data: seq<byte>)
      requires Valid() && first != null && |data| <= first.misalign
      modifies Repr
      ensures Valid() && Repr == old(Repr) && chains == old(chains)
      ensures Bytes() == data + old(Bytes())
      ensures first == old(first) && first.misalign == old(first.misalign) - |data| && first.off == old(first.off) + |data|
    {
      hide Flat, Distinct, Chain.Holds, Within, NextLinked;
      At(0);
      first.PutBefore(data, segs[0]);
      totalLen := totalLen + |data|;
      FlatExtendFirst(segs, data);
      segs := segs[0 := data + segs[0]];
    }

    /** The end of evbuffer_chain_insert when `chain` is now the only one. */
    ghost method OnlyChain(chain: Chain, s: seq<byte>)
      requires chain.Holds(s) && chain.next == null && first == last == chain && lastWithDatap == ToFirst && this in Repr
      requires totalLen == |s|
      modifies this`chains, this`segs, this`Repr
      ensures Valid() && Bytes() == s && Repr == old(Repr) + {chain, chain.buffer} && chains == [chain]
    {
      chains, segs, Repr := [chain], [s], Repr + {chain, chain.buffer};
      FlatSingle(s);
    }

    /** evbuffer_chain_insert with no empty chain to replace. */
    method LinkLast(chain: Chain, ghost s: seq<byte>)
      requires Valid() && chain !in Repr && chain.buffer !in Repr && chain.Holds(s) && chain.next == null
      requires s != [] && chains != [] && segs != [[]]
      modifies Repr
      ensures Valid() && Repr == old(Repr) + {chain, chain.buffer}
      ensures Bytes() == old(Bytes()) + s && chains == old(chains) + [chain] && last == chain
    {
      hide Flat, Distinct, Chain.Holds, Within, HoldAll;
      ghost var n := |chains|;
      SegsMatch();
      At(n - 1);
      HoldsLength(chain, s);
      DistinctAppend(chains, Repr, chain);
      FlatAppend(segs, s);
      last.next := chain;
      if chain.off != 0 {
        lastWithDatap := NextOf(last);
      }
      last := chain;
      totalLen := totalLen + chain.off;
      Repr := Repr + {chain, chain.buffer};
      assert NextLinked(chains + [chain]);
      hide NextLinked;
      HoldAllAppend(chains, segs, chain, s);
      chains, segs := chains + [chain], segs + [s];
    }

    /** evbuffer_chain_insert: a chain with data goes to the end, in place of an empty chain if there is one. */
    method ChainInsert(chain: Chain, ghost s: seq<byte>)
      requires Valid() && chain !in Repr && chain.buffer !in Repr && chain.Holds(s) && chain.next == null
      requires s != [] || chains == []
      modifies Repr
      ensures Valid() && Repr == old(Repr) + {chain, chain.buffer}
      ensures Bytes() == old(Bytes()) + s && last == chain && (old(chains) == [] ==> first == chain && chains == [chain])
      ensures chain.misalign == old(chain.misalign) && chain.off == old(chain.off)
    {
      hide Flat, Distinct, Within;
      HoldsLength(chain, s);
      FlatEmpty(segs);
      if chains != [] { At(|chains| - 1); }
      if |chains| > 1 { At(|chains| - 2); }
      if Deref(lastWithDatap) == null {
        first, last := chain, chain;
        totalLen := totalLen + chain.off;
        OnlyChain(chain, s);
      } else {
        var ch := lastWithDatap;
        while Deref(ch) != null && Deref(ch).off != 0
          invariant ch == lastWithDatap || (ch == NextOf(last) && last.off != 0)
          modifies {}
          decreases ch == lastWithDatap
        {
          ch := NextOf(Deref(ch));
        }
        if Deref(ch) == null {
          LinkLast(chain, s);
        } else {
          SetLink(ch, chain);
          last := chain;
          totalLen := totalLen + chain.off;
          OnlyChain(chain, s);
        }
      }
    }

    /** The room evbuffer_add finds in the buffer without a new chain. */
    static predicate ShouldRealign(length: nat, off: nat, datlen: nat) {
      length >= off + datlen && off < length / 2 && off <= MAX_TO_REALIGN_IN_EXPAND
    }

    /** A chain has room for `n` more bytes, behind its data or after moving them. */
    static predicate RoomIn(c: Chain, n: nat)
      reads c`misalign, c`off
    {
      c.buffer.Length - c.misalign - c.off >= n || ShouldRealign(c.buffer.Length, c.off, n)
    }

    /** evbuffer_add finds room for all `n` bytes in the last chain. */
    predicate HasRoom(n: nat)
      reads this`last, if last == null then {} else {last}
    {
      last != null && RoomIn(last, n)
    }

    lemma HasRoomIs(n: nat)
      ensures HasRoom(n) <==>
        last != null && (last.buffer.Length - last.misalign - last.off >= n || ShouldRealign(last.buffer.Length, last.off, n))
    {
    }

    lemma HasRoomAt(n: nat)
      requires last != null
      ensures HasRoom(n) <==> RoomIn(last, n)
    {
    }

    /** evbuffer_add; `allocOk` says whether mm_malloc succeeds. */
    method Add(data: seq<byte>, allocOk: bool) returns (result: int)
      requires Valid()
      modifies Repr
      ensures Valid() && fresh(Repr - old(Repr)) && old(Repr) <= Repr
      ensures result == if allocOk || old(HasRoom(|data|)) then 0 else -1
      ensures result == 0 ==> Bytes() == old(Bytes()) + data && chains != []
      ensures result == 0 && old(last) == null ==> |chains| == 1
      ensures result == -1 ==> Bytes() == old(Bytes())
      ensures result == 0 ==> old(last) != null ==> if old(HasRoom(|data|)) then last == old(last) else
        fresh(last) && last.buffer.Length == RoomFor(NextSize(old(last.buffer.Length), |data|))
    {
      hide Flat, Linked, Dense, Marked, Chain.Holds, HasRoom, RoomFor, NextSize;
      Ends();
      HasRoomIs(|data|);
      if last == null {
        var chain := ChainNew(|data|, allocOk);
        if chain == null {
          return -1;
        }
        HoldsLength(chain, []);
        ChainInsert(chain, []);
        assert Bytes() == old(Bytes()) + [] == old(Bytes());
      }
      Ends();
      var chain := last;
      var remain := chain.buffer.Length - chain.misalign - chain.off;
      if remain >= |data| {
        FillLast(data);
        result := 0;
      } else if ShouldRealign(chain.buffer.Length, chain.off, |data|) {
        AlignLast();
        FillLast(data);
        result := 0;
      } else {
        result := AddChain(data, remain, allocOk);
      }
      Ends();
    }

    /** evbuffer_add when the last chain has room for only `remain` of the bytes. */
    method AddChain(data: seq<byte>, remain: nat, allocOk: bool) returns (result: int)
      requires Valid() && last != null && remain == last.buffer.Length - last.misalign - last.off && remain < |data|
      modifies Repr
      ensures Valid() && fresh(Repr - old(Repr)) && old(Repr) <= Repr
      ensures result == if allocOk then 0 else -1
      ensures Bytes() == old(Bytes()) + (if allocOk then data else [])
      ensures last != null
      ensures allocOk ==> fresh(last) && last.off == |data| - remain && last.buffer.Length == RoomFor(NextSize(old(last.buffer.Length), |data|))
    {
      hide *;
      Ends();
      var toAlloc := last.buffer.Length;
      NextSizeIs(toAlloc, |data|);
      if toAlloc <= EVBUFFER_CHAIN_MAX_AUTO_SIZE / 2 {
        toAlloc := 2 * toAlloc;
      }
      if |data| > toAlloc {
        toAlloc := |data|;
      }
      var tmp := ChainNew(toAlloc, allocOk);
      if tmp == null {
        return -1;
      }
      Spill(tmp, data, remain);
      return 0;
    }

    /** evbuffer_add: `remain` bytes fill the last chain, the others go into the new chain `tmp`. */
    method Spill(tmp: Chain, data: seq<byte>, remain: nat)
      requires Valid() && last != null && remain == last.buffer.Length - last.misalign - last.off && remain < |data|
      requires tmp !in Repr && tmp.buffer !in Repr && tmp.Holds([]) && tmp.misalign == 0 && tmp.next == null
      requires |data| <= tmp.buffer.Length
      modifies Repr, tmp, tmp.buffer
      ensures Valid() && Repr == old(Repr) + {tmp, tmp.buffer} && Bytes() == old(Bytes()) + data
      ensures last == tmp && tmp.off == |data| - remain
    {
      hide *;
      Ends();
      HoldsLength(tmp, []);
      ghost var s0 := Bytes();
      if remain != 0 {
        FillLast(data[..remain]);
      }
      assert Bytes() == s0 + data[..remain];
      var rest := data[remain..];
      tmp.Append(rest, []);
      assert [] + rest == rest;
      ChainInsert(tmp, rest);
      assert (s0 + data[..remain]) + rest == s0 + data;
    }

    method AlignLast()
      requires Valid() && last != null
      modifies Repr
      ensures Valid() && Repr == old(Repr) && chains == old(chains) && Bytes() == old(Bytes())
      ensures last == old(last) && last.misalign == 0 && last.off == old(last.off)
    {
      hide Flat, Distinct, Chain.Holds, Within, NextLinked;
      ghost var n := |chains| - 1;
      At(n);
      HoldsLength(last, segs[n]);
      last.Align(segs[n]);
      HoldsLength(last, segs[n]);
    }

    /** The room evbuffer_prepend finds before the data of the first chain. */
    ghost function FrontRoom(): nat
      reads this`first, if first == null then {} else {first}
    {
      if first == null then 0 else if first.off == 0 then first.buffer.Length else first.misalign
    }

    lemma FrontRoomIs()
      ensures FrontRoom() == if first == null then 0 else if first.off == 0 then first.buffer.Length else first.misalign
    {
    }

    /** evbuffer_prepend. When the allocation of a new chain fails, the bytes that fit are already in. */
    method Prepend(data: seq<byte>, allocOk: bool) returns (result: int)
      requires Valid()
      modifies Repr
      ensures Valid() && fresh(Repr - old(Repr)) && old(Repr) <= Repr
      ensures result == if allocOk || (old(first) != null && |data| <= old(FrontRoom())) then 0 else -1
      ensures result == 0 ==> Bytes() == data + old(Bytes())
      ensures result == -1 ==> |data| >= old(FrontRoom()) && Bytes() == data[|data| - old(FrontRoom())..] + old(Bytes())
    {
      hide *;
      FrontRoomIs();
      Ends();
      if first == null {
        var chain := ChainNew(|data|, allocOk);
        if chain == null {
          assert data[|data|..] + Bytes() == Bytes();
          return -1;
        }
        HoldsLength(chain, []);
        ChainInsert(chain, []);
        assert Bytes() == old(Bytes()) + [] == old(Bytes());
        HoldsLength(chain, []);
      }
      Ends();
      ghost var s0 := Bytes();
      var chain := first;
      if chain.off == 0 {
        RewindFirst();
      }
      Ends();
      if chain.misalign >= |data| {
        FillFirst(data);
        return 0;
      }
      result := PrependChain(data, allocOk);
    }

    /** evbuffer_prepend when only `first.misalign` of the bytes fit before the first chain. */
    method PrependChain(data: seq<byte>, allocOk: bool) returns (result: int)
      requires Valid() && first != null && first.misalign < |data| && (first.off == 0 ==> first.misalign > 0)
      modifies Repr
      ensures Valid() && fresh(Repr - old(Repr)) && old(Repr) <= Repr
      ensures result == if allocOk then 0 else -1
      ensures allocOk ==> Bytes() == data + old(Bytes())
      ensures !allocOk ==> Bytes() == data[|data| - old(first.misalign)..] + old(Bytes())
    {
      hide *;
      Ends();
      ghost var s0 := Bytes();
      var fit := first.misalign;
      var datlen := |data| - fit;
      if fit != 0 {
        FillFirst(data[datlen..]);
      }
      assert Bytes() == data[datlen..] + s0;
      Ends();
      var tmp := ChainNew(datlen, allocOk);
      if tmp == null {
        return -1;
      }
      HoldsLength(tmp, []);
      tmp.Rewind();
      HoldsLength(tmp, []);
      tmp.PutBefore(data[..datlen], []);
      assert data[..datlen] + [] == data[..datlen];
      LinkFirst(tmp, data[..datlen]);
      assert data[..datlen] + (data[datlen..] + s0) == data + s0;
      return 0;
    }

    /** An empty first chain counts as empty at the beginning. */
    method RewindFirst()
      requires Valid() && first != null && first.off == 0
      modifies Repr
      ensures Valid() && Repr == old(Repr) && chains == old(chains) && Bytes() == old(Bytes())
      ensures first == old(first) && first.off == 0 && first.misalign == first.buffer.Length
    {
      hide Flat, Distinct, Chain.Holds, Within, NextLinked;
      At(0);
      HoldsLength(first, segs[0]);
      first.Rewind();
    }

    /** evbuffer_prepend: a new chain goes before all others. */
    method LinkFirst(tmp: Chain, ghost s: seq<byte>)
      requires Valid() && Bytes() != [] && s != []
      requires tmp !in Repr && tmp.buffer !in Repr && tmp.Holds(s)
      modifies Repr, tmp
      ensures Valid() && Repr == old(Repr) + {tmp, tmp.buffer}
      ensures Bytes() == s + old(Bytes())
    {
      hide Flat, Distinct, Chain.Holds, Within, HoldAll;
      Ends();
      HoldsLength(tmp, s);
      DistinctPrepend(chains, Repr, tmp);
      FlatConcat([s], segs);
      FlatSingle(s);
      var chain := first;
      first := tmp;
      if lastWithDatap == ToFirst {
        lastWithDatap := NextOf(tmp);
      }
      tmp.next := chain;
      totalLen := totalLen + tmp.off;
      assert NextLinked(chains);
      assert NextLinked([tmp] + chains);
      HoldAllPrepend(chains, segs, tmp, s);
      DensePrepend(segs, s);
      hide *;
      Settle([tmp] + chains, [s] + segs, Repr + {tmp, tmp.buffer});
    }

    /** ZERO_CHAIN */
    method ZeroChain()
      requires this in Repr
      modifies this
      ensures Valid() && Repr == old(Repr) && Bytes() == [] && chains == []
    {
      first, last, lastWithDatap, totalLen := null, null, ToFirst, 0;
      chains, segs := [], [];
    }

    /** evbuffer_drain: the first `len` bytes are dropped, or all of them if there are not so many. */
    method Drain(len: nat)
      requires Valid()
      modifies Repr
      ensures Valid() && Repr == old(Repr)
      ensures Bytes() == old(Bytes())[if len < |old(Bytes())| then len else |old(Bytes())|..]
    {
      hide Flat, Linked, Dense, Marked, Chain.Holds;
      if totalLen == 0 {
        assert Bytes()[0..] == Bytes();
        return;
      }
      if len >= totalLen {
        ZeroChain();
      } else {
        DrainFront(len);
      }
    }

    /** The loop of evbuffer_drain: chains that are used up are freed. */
    method SkipChains(len: nat) returns (chain: Chain, remaining: nat, ghost k: nat)
      requires Valid() && len < totalLen
      modifies this`lastWithDatap
      ensures k < |chains| && chain == chains[k] && remaining < |segs[k]| && |Flat(segs[..k])| + remaining == len
      ensures lastWithDatap == if k < |chains| - 1 then NextOf(chains[|chains| - 2]) else ToFirst
    {
      hide Flat, Distinct, Within, HoldAll, NextLinked, Chain.Holds;
      SegsMatch();
      FlatEmpty(segs);
      FlatEmpty(segs[..0]);
      At(0);
      ghost var n := |chains|;
      chain, remaining, k := first, len, 0;
      if n > 1 { At(n - 2); }
      LastSeg(0);
      while remaining >= chain.off
        invariant 0 <= k < n && chain == chains[k] && remaining + |Flat(segs[..k])| == len && chain.off == |segs[k]|
        invariant k == n - 1 ==> remaining < chain.off
        invariant lastWithDatap == if k < n - 1 then NextOf(chains[n - 2]) else ToFirst
        modifies this`lastWithDatap
        decreases n - k
      {
        At(k);
        At(k + 1);
        FlatAt(segs, k);
        var next := chain.next;
        remaining := remaining - chain.off;
        lastWithDatap :=
          if chain == Deref(lastWithDatap) || NextOf(chain) == lastWithDatap then ToFirst else lastWithDatap;
        chain := next;
        k := k + 1;
        LastSeg(k);
      }
    }

    /** Nothing follows the last segment. */
    lemma LastSeg(k: nat)
      ensures k + 1 == |segs| ==> Flat(segs) == Flat(segs[..k]) + segs[k]
    {
      if k + 1 == |segs| {
        FlatAt(segs, k);
        assert segs[..k + 1] == segs;
      }
    }

    /** The list from the chain at index `k` on, when `first` points there. */
    lemma CutFront(k: nat)
      requires Within(chains, Repr) && Distinct(chains) && NextLinked(chains) && HoldAll(chains, segs) && k < |chains|
      ensures Within(chains[k..], Repr) && Distinct(chains[k..]) && NextLinked(chains[k..]) && HoldAll(chains[k..], segs[k..])
      ensures Flat(segs) == Flat(segs[..k]) + Flat(segs[k..])
    {
      SliceOk(chains, segs, Repr, k, |chains|);
      TailLinked(chains, k);
      FlatSplit(segs, k);
      assert chains[k..|chains|] == chains[k..] && segs[k..|segs|] == segs[k..];
    }

    /** Valid, except that totalLen is not up to date. */
    ghost predicate Loose()
      reads this, Repr
    {
      this in Repr && Within(chains, Repr) && Linked() && Dense(segs) && Marked() && chains != []
    }

    ghost predicate SameCount()
      reads this`chains, this`segs
    {
      |chains| == |segs|
    }

    /** `first` moves on to the chain at index `k`. */
    method AdvanceFirst(chain: Chain, ghost k: nat)
      requires this in Repr && Within(chains, Repr) && Linked() && Dense(segs) && k < |chains| && chain == chains[k]
      requires lastWithDatap == if k < |chains| - 1 then NextOf(chains[|chains| - 2]) else ToFirst
      modifies this`first, this`chains, this`segs
      ensures Loose() && SameCount() && chains == old(chains)[k..] && segs == old(segs)[k..] && first == chain
    {
      hide Flat, Distinct, Within, HoldAll, NextLinked, Chain.Holds;
      SegsMatch();
      CutFront(k);
      first := chain;
      chains, segs := chains[k..], segs[k..];
    }

    /** The second branch of evbuffer_drain: whole chains go while they are used up, then part of one. */
    method DrainFront(len: nat)
      requires Valid() && len < totalLen
      modifies Repr
      ensures Valid() && Repr == old(Repr) && Bytes() == old(Bytes())[len..]
    {
      hide Flat, Distinct, Within, HoldAll, NextLinked, Chain.Holds, Linked, Marked, Dense;
      SegsMatch();
      ghost var k: nat;
      var chain, remaining;
      chain, remaining, k := SkipChains(len);
      totalLen := totalLen - len;
      FlatPrefix(segs, k, remaining);
      FlatSplit(segs, k);
      AdvanceFirst(chain, k);
      CutFirst(remaining);
    }

    /** The end of evbuffer_drain and of evbuffer_remove_buffer: the first `remaining` bytes of the first chain go. */
    method CutFirst(remaining: nat)
      requires Loose() && SameCount() && remaining < |segs[0]| && remaining + totalLen == |Bytes()|
      modifies Repr
      ensures Valid() && Repr == old(Repr) && Bytes() == old(Bytes())[remaining..]
    {
      hide Flat, Distinct, Within, NextLinked, Chain.Holds;
      At(0);
      FlatDropFirst(segs, remaining);
      HoldsLength(first, segs[0]);
      first.DropFront(remaining, segs[0]);
      segs := segs[0 := segs[0][remaining..]];
    }

    /** memcpy of the first `len` bytes of one chain; `rest` is what was in the memory before. */
    method CopyRest(dataOut: array<byte>, at: nat, chain: Chain, len: nat, ghost k: nat, ghost rest: seq<byte>)
      requires Valid() && k < |chains| && chain == chains[k] && len <= chain.off
      requires dataOut !in Repr && at + len <= dataOut.Length == |rest|
      requires forall i :: at <= i < dataOut.Length ==> dataOut[i] == rest[i]
      modifies dataOut
      ensures Valid() && len <= |segs[k]|
      ensures dataOut[..at + len] == old(dataOut[..at]) + segs[k][..len]
      ensures forall i :: at + len <= i < dataOut.Length ==> dataOut[i] == rest[i]
    {
      hide Flat, Distinct, HoldAll, NextLinked, Chain.Holds, Dense, Marked, Linked;
      SegsMatch();
      At(k);
      HoldsLength(chain, segs[k]);
      CopyInto(dataOut, at, chain.Live()[..len]);
      JoinPrefix(dataOut, at, segs[k][..len]);
      forall i | at + len <= i < dataOut.Length
        ensures dataOut[i] == rest[i]
      {
        assert dataOut[i] == dataOut[at + len..][i - at - len];
      }
    }

    lemma BytesAre()
      requires Valid()
      ensures totalLen == |Bytes()| && |segs| == |chains| && Within(chains, Repr) && Linked()
      ensures chains != [] ==> first == chains[0]
      ensures Flat(segs[..0]) == [] && (totalLen > 0 ==> segs != [])
    {
      FlatEmpty(segs);
      FlatEmpty(segs[..0]);
    }

    /** The loop of evbuffer_copyout: whole chains, while they fit. */
    method CopyChains(dataOut: array<byte>, nread: nat) returns (chain: Chain?, left: nat, ghost k: nat)
      requires Valid() && nread <= dataOut.Length && nread <= |Bytes()| && dataOut !in Repr
      modifies dataOut
      ensures Valid() && k <= |chains| == |segs| && nread == |Flat(segs[..k])| + left
      ensures left > 0 ==> k < |chains| && chain == chains[k] && left < chain.off == |segs[k]|
      ensures dataOut[..nread - left] == Flat(segs[..k])
      ensures forall i :: nread - left <= i < dataOut.Length ==> dataOut[i] == old(dataOut[i])
    {
      hide Flat, Valid, Chain.Holds;
      BytesAre();
      var data := 0;
      chain, left, k := first, nread, 0;
      ghost var n, rest := |chains|, dataOut[..];
      if n > 0 { At(0); }
      while left > 0 && left >= chain.off
        invariant Valid() && 0 <= k <= n == |segs| && chain == (if k < n then chains[k] else null)
        invariant left >= 0 && data + left == nread && data == |Flat(segs[..k])|
        invariant left > 0 ==> k < n && chain.off == |segs[k]|
        invariant dataOut[..data] == Flat(segs[..k])
        invariant forall i :: data <= i < dataOut.Length ==> dataOut[i] == rest[i]
        modifies dataOut
        decreases n - k
      {
        BytesAre();
        At(k);
        FlatAt(segs, k);
        CopyRest(dataOut, data, chain, chain.off, k, rest);
        data, left := data + chain.off, left - chain.off;
        chain := chain.next;
        k := k + 1;
        assert k == n ==> segs[..k] == segs;
        BytesAre();
        if k < n { At(k); }
      }
    }

    /** evbuffer_copyout: the first bytes are copied to `dataOut`, as many as there are up to `datlen`. */
    method CopyOut(dataOut: array<byte>, datlen: nat) returns (nread: nat)
      requires Valid() && datlen <= dataOut.Length && dataOut !in Repr
      modifies dataOut
      ensures Valid() && nread == if datlen < |Bytes()| then datlen else |Bytes()|
      ensures dataOut[..nread] == Bytes()[..nread] && dataOut[nread..] == old(dataOut[nread..])
    {
      hide Flat, Valid, Chain.Holds;
      BytesAre();
      nread := if datlen >= totalLen then totalLen else datlen;
      if nread == 0 {
        return;
      }
      ghost var k: nat;
      ghost var rest := dataOut[..];
      var chain, left;
      chain, left, k := CopyChains(dataOut, nread);
      if left > 0 {
        FlatPrefix(segs, k, left);
        CopyRest(dataOut, nread - left, chain, left, k, rest);
      } else {
        FlatSplit(segs, k);
      }
    }

    /** evbuffer_remove: copy out, then drain what was copied. */
    method Remove(dataOut: array<byte>, datlen: nat) returns (n: nat)
      requires Valid() && datlen <= dataOut.Length && dataOut !in Repr
      modifies Repr, dataOut
      ensures Valid() && Repr == old(Repr)
      ensures n == (if datlen < |old(Bytes())| then datlen else |old(Bytes())|)
      ensures dataOut[..n] + Bytes() == old(Bytes()) && dataOut[n..] == old(dataOut[n..])
    {
      hide Flat, Linked, Dense, Marked;
      n := CopyOut(dataOut, datlen);
      if n > 0 {
        ghost var got := dataOut[..];
        Drain(n);
        assert dataOut[..] == got;
      } else {
        assert Bytes()[..0] + Bytes() == Bytes();
      }
    }

    /** evbuffer_add_buffer: all bytes of `inbuf` move to the end of this buffer. */
    method AddBuffer(inbuf: EvBuffer)
      requires Valid() && inbuf.Valid() && (inbuf != this ==> Repr !! inbuf.Repr)
      modifies Repr, inbuf.Repr
      ensures Valid() && inbuf.Valid()
      ensures inbuf == this ==> Bytes() == old(Bytes()) && Repr == old(Repr)
      ensures inbuf != this ==> Bytes() == old(Bytes() + inbuf.Bytes()) && inbuf.Bytes() == []
      ensures inbuf != this ==> Repr !! inbuf.Repr && Repr + inbuf.Repr <= old(Repr + inbuf.Repr)
    {
      hide Flat, Linked, Dense, Marked;
      if inbuf.totalLen == 0 || this == inbuf {
        assert inbuf != this ==> Bytes() + inbuf.Bytes() == Bytes();
        return;
      }
      if totalLen == 0 {
        CopyChain(inbuf);
        assert Bytes() == old(Bytes()) + old(inbuf.Bytes());
      } else {
        AppendChain(inbuf);
      }
      inbuf.Repr := {inbuf};
      inbuf.ZeroChain();
    }

    /** COPY_CHAIN: this buffer, emptied before, takes over the list of `src`. */
    method CopyChain(src: EvBuffer)
      requires Valid() && src.Valid() && src != this && Repr !! src.Repr
      modifies this
      ensures Valid() && Bytes() == src.Bytes() && Repr == {this} + (src.Repr - {src})
      ensures chains == src.chains
    {
      hide Flat, Distinct, Within, HoldAll, NextLinked;
      WithinMoved(src.chains, src.Repr, src, {this});
      first := src.first;
      if src.lastWithDatap == ToFirst {
        lastWithDatap := ToFirst;
      } else {
        lastWithDatap := src.lastWithDatap;
      }
      last, totalLen := src.last, src.totalLen;
      chains, segs, Repr := src.chains, src.segs, {this} + (src.Repr - {src});
    }

    /** APPEND_CHAIN: the list of `src` is hung behind the last chain. */
    method AppendChain(src: EvBuffer)
      requires Valid() && src.Valid() && src != this && Repr !! src.Repr && totalLen > 0 && src.totalLen > 0
      modifies Repr
      ensures Valid() && Bytes() == old(Bytes()) + src.Bytes() && Repr == old(Repr) + (src.Repr - {src})
      ensures unchanged(src)
    {
      hide Flat, Distinct, Within, HoldAll, Chain.Holds, Dense;
      Ends();
      src.Ends();
      FlatEmpty(segs);
      FlatEmpty(src.segs);
      DenseJoin(segs, src.segs);
      JoinOk(chains, segs, Repr, src.chains, src.segs, src.Repr, src);
      FlatConcat(segs, src.segs);
      At(|chains| - 1);
      assert last in chains;
      last.next := src.first;
      if src.lastWithDatap == ToFirst {
        lastWithDatap := NextOf(last);
      } else {
        lastWithDatap := src.lastWithDatap;
      }
      last := src.last;
      totalLen := totalLen + src.totalLen;
      Joined(chains, src.chains);
      hide *;
      Settle(chains + src.chains, segs + src.segs, Repr + (src.Repr - {src}));
    }

    /** evbuffer_prepend_buffer: all bytes of `inbuf` move to the front of this buffer. */
    method PrependBuffer(inbuf: EvBuffer)
      requires Valid() && inbuf.Valid() && (inbuf != this ==> Repr !! inbuf.Repr)
      modifies Repr, inbuf.Repr
      ensures Valid() && inbuf.Valid()
      ensures inbuf == this ==> Bytes() == old(Bytes()) && Repr == old(Repr)
      ensures inbuf != this ==> Bytes() == old(inbuf.Bytes() + Bytes()) && inbuf.Bytes() == []
      ensures inbuf != this ==> Repr !! inbuf.Repr && Repr + inbuf.Repr <= old(Repr + inbuf.Repr)
    {
      hide Flat, Linked, Dense, Marked;
      if inbuf.totalLen == 0 || inbuf == this {
        assert inbuf != this ==> inbuf.Bytes() + Bytes() == Bytes();
        return;
      }
      if totalLen == 0 {
        CopyChain(inbuf);
        assert Bytes() == old(inbuf.Bytes()) + old(Bytes());
      } else {
        HangBefore(inbuf);
      }
      inbuf.Repr := {inbuf};
      inbuf.ZeroChain();
    }

    /** The mark of PREPEND_CHAIN. */
    method MarkPrepended(src: EvBuffer)
      requires src.last != null
      modifies this`lastWithDatap
      ensures lastWithDatap == (if old(Deref(lastWithDatap)) == null then src.lastWithDatap
        else if old(lastWithDatap) == ToFirst then NextOf(src.last) else old(lastWithDatap))
    {
      if Deref(lastWithDatap) == null {
        if src.lastWithDatap == ToFirst {
          lastWithDatap := ToFirst;
        } else {
          lastWithDatap := src.lastWithDatap;
        }
      } else if lastWithDatap == ToFirst {
        lastWithDatap := NextOf(src.last);
      }
    }

    /** A list with data: all its chains have some, and the mark is the link to the last. */
    lemma Filled()
      requires Valid() && totalLen > 0
      ensures chains != [] && first == chains[0] && last == chains[|chains| - 1] && last in chains && Flat(segs) != []
      ensures Within(chains, Repr) && Distinct(chains) && NextLinked(chains) && HoldAll(chains, segs) && Dense(segs) && this in Repr
      ensures lastWithDatap == if |chains| == 1 then ToFirst else NextOf(chains[|chains| - 2])
      ensures |chains| > 1 ==> chains[|chains| - 2].next == last
      ensures totalLen == |Flat(segs)| && Bytes() == Flat(segs)
    {
      FlatEmpty(segs);
      if |chains| > 1 {
        At(|chains| - 2);
      }
    }

    lemma DerefIs(l: Link)
      ensures Deref(l) == if l.ToFirst? then first else l.chain.next
    {
    }

    /** PREPEND_CHAIN: the first chain is hung behind the list of `src`. */
    method HangBefore(src: EvBuffer)
      requires Valid() && src.Valid() && src != this && Repr !! src.Repr && totalLen > 0 && src.totalLen > 0
      modifies this, src.Repr
      ensures Valid() && Bytes() == src.Bytes() + old(Bytes()) && Repr == old(Repr) + (src.Repr - {src})
      ensures unchanged(src)
    {
      hide *;
      Filled();
      src.Filled();
      DenseJoin(src.segs, segs);
      JoinOk(src.chains, src.segs, src.Repr, chains, segs, Repr, this);
      WithinBoth(src.chains, chains, src.Repr, Repr, src, this);
      FlatConcat(src.segs, segs);
      JoinLists(src.last, first, src.chains, chains);
      first := src.first;
      totalLen := totalLen + src.totalLen;
      DerefIs(lastWithDatap);
      MarkPrepended(src);
      Settle(src.chains + chains, src.segs + segs, Repr + (src.Repr - {src}));
      BytesIs();
    }

    lemma BytesIs()
      ensures Bytes() == Flat(segs)
    {
    }

    /** The ghost fields catch up with the list. */
    ghost method Settle(cs: seq<Chain>, tegs: seq<seq<byte>>, repr: set<object>)
      requires this in repr && Within(cs, repr) && Distinct(cs) && NextLinked(cs) && HoldAll(cs, tegs) && Dense(tegs)
      requires cs != [] && first == cs[0] && last == cs[|cs| - 1] && totalLen == |Flat(tegs)|
      requires lastWithDatap == if |cs| == 1 then ToFirst else NextOf(cs[|cs| - 2])
      modifies this`chains, this`segs, this`Repr
      ensures Valid() && chains == cs && segs == tegs && Repr == repr
    {
      hide Flat, Distinct, Within, HoldAll, NextLinked, Dense;
      chains, segs, Repr := cs, tegs, repr;
    }

    /** evbuffer_free_trailing_empty_chains: a lone empty chain is given up; the link where a new chain goes. */
    method FreeTrailingEmptyChains() returns (ch: Link)
      requires Valid()
      modifies this`first
      ensures Bytes() == [] ==> first == null && ch == ToFirst
      ensures Bytes() != [] ==> first == old(first) && chains != [] && ch == NextOf(last)
    {
      hide Flat, Distinct, Within;
      SegsMatch();
      FlatEmpty(segs);
      if chains != [] { At(|chains| - 1); }
      if |chains| > 1 { At(|chains| - 2); }
      ch := lastWithDatap;
      while Deref(ch) != null && Deref(ch).off != 0
        invariant ch == lastWithDatap || (last != null && ch == NextOf(last) && last.off != 0)
        modifies {}
        decreases ch == lastWithDatap
      {
        ch := NextOf(Deref(ch));
      }
      if Deref(ch) != null {
        assert ch == ToFirst && |chains| == 1;
        first := null;
      }
    }

    /** The link to the chain at index `d` of the list `cs`. */
    ghost function LinkTo(cs: seq<Chain>, d: nat): Link
      requires d < |cs|
    {
      if d == 0 then ToFirst else NextOf(cs[d - 1])
    }

    /** advance_last_with_data: the mark moves to the end of the chains with data. */
    method AdvanceLastWithData(ghost cs: seq<Chain>, ghost d0: nat)
      requires NextLinked(cs) && d0 < |cs| && first == cs[0] && lastWithDatap == LinkTo(cs, d0)
      requires forall i :: 0 <= i < |cs| ==> cs[i].off != 0
      modifies this`lastWithDatap
      ensures lastWithDatap == LinkTo(cs, |cs| - 1)
    {
      ghost var d := d0;
      while Deref(lastWithDatap).next != null && Deref(lastWithDatap).next.off != 0
        invariant d < |cs| && lastWithDatap == LinkTo(cs, d) && first == cs[0] && Deref(lastWithDatap) == cs[d]
        modifies this`lastWithDatap
        decreases |cs| - d
      {
        assert cs[d].next == cs[d + 1];
        lastWithDatap := NextOf(Deref(lastWithDatap));
        d := d + 1;
      }
    }

    /** What the splice of evbuffer_remove_buffer will make of the two lists. */
    lemma TakeReady(ds: seq<Chain>, tegs: seq<seq<byte>>) returns (cs: seq<Chain>, fegs: seq<seq<byte>>, d: nat)
      requires Valid() && Repr !! Objects(ds) && ds != []
      requires Distinct(ds) && HoldAll(ds, tegs) && forall i :: 0 <= i < |tegs| ==> tegs[i] != []
      ensures Bytes() == [] <==> cs == []
      ensures cs != [] ==> cs == chains && last == cs[|cs| - 1] && last !in ds
      ensures Within(cs + ds, Repr + Objects(ds)) && Distinct(cs + ds) && HoldAll(cs + ds, fegs + tegs) && Dense(fegs + tegs)
      ensures Flat(fegs + tegs) == Bytes() + Flat(tegs)
      ensures forall i :: 0 <= i < |cs + ds| ==> (cs + ds)[i].off != 0
      ensures d < |cs + ds| && lastWithDatap == LinkTo(cs + ds, d)
      ensures NextLinked(cs) && Distinct(cs)
    {
      hide Flat, Distinct, Within, Chain.Holds;
      SegsMatch();
      FlatEmpty(segs);
      var m := if Bytes() == [] then 0 else |chains|;
      cs, fegs, d := chains[..m], segs[..m], if m == 0 then 0 else m - 1;
      SliceOk(chains, segs, Repr, 0, m);
      assert chains[0..m] == cs && segs[0..m] == fegs;
      WithinObjects(ds);
      JoinOk(cs, fegs, Repr, ds, tegs, Objects(ds), this);
      assert Repr + (Objects(ds) - {this}) == Repr + Objects(ds);
      AllFull(cs, fegs, ds, tegs, segs);
      assert m > 0 ==> last in cs;
    }

    /** The list `ds` is hung behind the list `cs`, which ends at `link`. */
    method Hook(link: Link, head: Chain, ghost cs: seq<Chain>, ghost ds: seq<Chain>)
      requires ds != [] && head == ds[0] && NextLinked(ds) && NextLinked(cs) && Distinct(cs)
      requires first == if cs == [] then null else cs[0]
      requires link == if cs == [] then ToFirst else NextOf(cs[|cs| - 1])
      requires cs != [] ==> cs[|cs| - 1] !in ds
      modifies this`first, (if link.NextOf? then {link.chain} else {})`next
      ensures NextLinked(cs + ds) && first == (cs + ds)[0]
    {
      if first == null {
        first := head;
        assert cs + ds == ds;
      } else {
        SetLink(link, head);
        Joined(cs, ds);
      }
    }

    /** The splice of evbuffer_remove_buffer: the chains from `head` to `previous` go to the end of this buffer. */
    method TakeChains(head: Chain, previous: Chain, nread: nat, ghost ds: seq<Chain>, ghost tegs: seq<seq<byte>>)
      requires Valid() && Repr !! Objects(ds)
      requires ds != [] && head == ds[0] && previous == ds[|ds| - 1] && nread == |Flat(tegs)|
      requires Distinct(ds) && NextLinked(ds) && HoldAll(ds, tegs)
      requires forall i :: 0 <= i < |tegs| ==> tegs[i] != []
      modifies Repr
      ensures Valid() && Repr == old(Repr) + Objects(ds) && Bytes() == old(Bytes()) + Flat(tegs) && last == previous
    {
      hide Flat, Distinct, Within, HoldAll, Chain.Holds, Dense, Marked;
      Ends();
      ghost var cs, fegs, d := TakeReady(ds, tegs);
      var chp := FreeTrailingEmptyChains();
      hide NextLinked;
      Hook(chp, head, cs, ds);
      last := previous;
      FinishTake(nread, cs + ds, fegs + tegs, Repr + Objects(ds), d);
    }

    /** The end of the splice, once the list is linked. */
    method FinishTake(nread: nat, ghost cs: seq<Chain>, ghost tegs: seq<seq<byte>>, ghost repr: set<object>, ghost d: nat)
      requires this in repr && Within(cs, repr) && Distinct(cs) && NextLinked(cs) && HoldAll(cs, tegs) && Dense(tegs)
      requires d < |cs| && first == cs[0] && last == cs[|cs| - 1] && totalLen + nread == |Flat(tegs)|
      requires lastWithDatap == LinkTo(cs, d) && forall i :: 0 <= i < |cs| ==> cs[i].off != 0
      modifies this
      ensures Valid() && Repr == repr && Bytes() == Flat(tegs) && last == old(last)
    {
      hide Flat, Distinct, Within, HoldAll, NextLinked, Dense, Linked;
      AdvanceLastWithData(cs, d);
      totalLen := totalLen + nread;
      Settle(cs, tegs, repr);
    }

    /** The loop of evbuffer_remove_buffer: whole chains are counted off. */
    method CountChains(datlen: nat) returns (chain: Chain, previous: Chain, nread: nat, ghost k: nat)
      requires Valid() && datlen < totalLen
      modifies this`lastWithDatap
      ensures k < |chains| == |segs| && chain == chains[k] && nread == |Flat(segs[..k])| <= datlen < nread + |segs[k]|
      ensures previous == chains[if k == 0 then 0 else k - 1] && (nread == 0 <==> k == 0)
      ensures lastWithDatap == if k < |chains| - 1 then NextOf(chains[|chains| - 2]) else ToFirst
    {
      hide Flat, Distinct, Within, HoldAll, NextLinked, Chain.Holds;
      SegsMatch();
      FlatEmpty(segs);
      FlatEmpty(segs[..0]);
      At(0);
      ghost var n := |chains|;
      chain, previous, nread, k := first, first, 0, 0;
      var left := datlen;
      if n > 1 { At(n - 2); }
      LastSeg(0);
      while chain.off <= left
        invariant 0 <= k < n && chain == chains[k] && nread == |Flat(segs[..k])| && left + nread == datlen && 0 <= left
        invariant chain.off == |segs[k]| && previous == chains[if k == 0 then 0 else k - 1] && (nread == 0 <==> k == 0)
        invariant k == n - 1 ==> left < chain.off
        invariant lastWithDatap == if k < n - 1 then NextOf(chains[n - 2]) else ToFirst
        modifies this`lastWithDatap
        decreases n - k
      {
        At(k);
        At(k + 1);
        FlatAt(segs, k);
        nread, left := nread + chain.off, left - chain.off;
        previous := chain;
        if lastWithDatap == NextOf(chain) {
          lastWithDatap := ToFirst;
        }
        chain := chain.next;
        k := k + 1;
        LastSeg(k);
      }
    }

    /** The link from the end of `ds` to the head of `es` is cut. */
    method Unlink(previous: Chain, ghost ds: seq<Chain>, ghost es: seq<Chain>)
      requires ds != [] && previous == ds[|ds| - 1] && previous !in es && NextLinked(es)
      requires forall i {:trigger ds[i].next} :: 0 <= i < |ds| - 1 ==> ds[i].next == ds[i + 1] && ds[i] != previous
      modifies previous`next
      ensures NextLinked(ds) && NextLinked(es)
    {
      previous.next := null;
    }

    /** evbuffer_remove_buffer: the first `k` chains leave the list. */
    method DetachFront(chain: Chain, previous: Chain, ghost k: nat) returns (ghost ds: seq<Chain>, ghost tegs: seq<seq<byte>>)
      requires this in Repr && Within(chains, Repr) && Linked() && Dense(segs)
      requires 0 < k < |chains| && chain == chains[k] && previous == chains[k - 1]
      requires lastWithDatap == if k < |chains| - 1 then NextOf(chains[|chains| - 2]) else ToFirst
      modifies this`first, this`chains, this`segs, this`Repr, previous`next
      ensures Loose() && SameCount() && ds == old(chains)[..k] && tegs == old(segs)[..k] && chains == old(chains)[k..] && segs == old(segs)[k..]
      ensures Repr == old(Repr) - Objects(ds) && Objects(ds) <= old(Repr) && this !in Objects(ds)
      ensures Distinct(ds) && NextLinked(ds) && HoldAll(ds, tegs) && forall i :: 0 <= i < |tegs| ==> tegs[i] != []
    {
      hide Flat, Distinct, Within, HoldAll, Objects;
      SegsMatch();
      At(k - 1);
      GiveAway(chains, segs, Repr, k, this);
      TailLinked(chains, k);
      ds, tegs := chains[..k], segs[..k];
      Unlink(previous, ds, chains[k..]);
      hide NextLinked;
      first := chain;
      chains, segs, Repr := chains[k..], segs[k..], Repr - Objects(ds);
    }

    /** What evbuffer_remove_buffer loses when the allocation of its inner evbuffer_add fails: nothing if the two buffers
        are one or all bytes move; otherwise the bytes behind the whole chains, unless there is room for them, in the
        last of those chains or, without any, in the last chain of `dst`. */
    ghost function LostBytes(dst: EvBuffer, datlen: nat): nat
      requires |chains| == |segs|
      reads this`chains, this`segs, chains`misalign, chains`off, dst`last, if dst.last == null then {} else {dst.last}
    {
      var k := Whole(segs, datlen);
      var rest := Beyond(segs, datlen);
      if dst == this || datlen >= |Bytes()| || (if k == 0 then dst.HasRoom(rest) else RoomIn(chains[k - 1], rest)) then 0 else rest
    }

    lemma Counts()
      requires Valid()
      ensures |chains| == |segs|
    {
    }

    lemma NoneLost(dst: EvBuffer, datlen: nat)
      requires |chains| == |segs|
      ensures LostBytes(dst, datlen) <= datlen
      ensures dst == this || datlen >= |Bytes()| ==> LostBytes(dst, datlen) == 0
    {
    }

    lemma Unused()
      requires Valid() && chains == []
      ensures last == null && Bytes() == []
    {
    }

    /** One chain, of which a part is to go to a buffer without chains. */
    lemma OneChain(dst: EvBuffer, n: nat)
      requires Valid() && |chains| == 1 && n < |Bytes()| && dst != this && dst.last == null
      ensures |chains| == |segs| && LostBytes(dst, n) == n
    {
      FlatSingle(segs[0]);
      assert segs == [segs[0]];
      WholeIs(segs, n, 0);
    }

    lemma LostIs(dst: EvBuffer, datlen: nat, k: nat)
      requires k < |chains| == |segs| && |Flat(segs[..k])| <= datlen < |Flat(segs[..k])| + |segs[k]| && datlen < |Bytes()| && dst != this
      ensures var rest := datlen - |Flat(segs[..k])|;
        LostBytes(dst, datlen) == if (if k == 0 then dst.HasRoom(rest) else RoomIn(chains[k - 1], rest)) then 0 else rest
    {
      WholeIs(segs, datlen, k);
    }

    /** evbuffer_remove_buffer: the first `datlen` bytes, or all there are, move to the end of `dst`. The result of the
        inner evbuffer_add is not looked at: when it fails, the `lost` bytes it should have added are gone. */
    method RemoveBuffer(dst: EvBuffer, datlen: nat, allocOk: bool) returns (result: nat, ghost lost: nat)
      requires Valid() && dst.Valid() && (dst != this ==> Repr !! dst.Repr)
      modifies Repr, dst.Repr
      ensures Valid() && dst.Valid() && (dst != this ==> Repr !! dst.Repr)
      ensures fresh(Repr + dst.Repr - old(Repr + dst.Repr))
      ensures dst == this ==> result == 0 && Bytes() == old(Bytes())
      ensures dst != this ==> result == (if datlen < |old(Bytes())| then datlen else |old(Bytes())|)
      ensures |old(chains)| == |old(segs)| && lost == (if allocOk then 0 else old(LostBytes(dst, datlen))) <= result
      ensures dst != this ==> Bytes() == old(Bytes())[result..]
      ensures dst != this ==> dst.Bytes() == old(dst.Bytes()) + old(Bytes())[..result - lost]
    {
      hide *;
      lost := 0;
      Counts();
      NoneLost(dst, datlen);
      if datlen == 0 || dst == this {
        EmptyPrefix(Bytes(), dst.Bytes());
        return 0, 0;
      }
      WholeLength();
      if datlen >= totalLen {
        result := totalLen;
        dst.AddBuffer(this);
        WholePrefix(old(Bytes()));
        return;
      }
      result, lost := MovePrefix(dst, datlen, allocOk);
    }

    lemma WholeLength()
      requires Valid()
      ensures totalLen == |Bytes()|
    {
    }

    /** evbuffer_remove_buffer when some bytes stay behind. */
    method MovePrefix(dst: EvBuffer, datlen: nat, allocOk: bool) returns (result: nat, ghost lost: nat)
      requires Valid() && dst.Valid() && dst != this && Repr !! dst.Repr && datlen < totalLen
      modifies Repr, dst.Repr
      ensures Valid() && dst.Valid() && Repr !! dst.Repr
      ensures fresh(Repr + dst.Repr - old(Repr + dst.Repr))
      ensures |old(chains)| == |old(segs)| && lost == (if allocOk then 0 else old(LostBytes(dst, datlen)))
      ensures result == datlen && lost <= result
      ensures Bytes() == old(Bytes())[result..] && dst.Bytes() == old(dst.Bytes()) + old(Bytes())[..result - lost]
    {
      hide Flat, Distinct, Within, HoldAll, NextLinked, Dense, Chain.Holds, Linked, Marked, HasRoom, LostBytes;
      ghost var k: nat;
      ghost var s0, t0, pre := Bytes(), dst.Bytes(), [];
      Counts();
      ghost var lostBytes := LostBytes(dst, datlen);
      var chain, previous, nread;
      chain, previous, nread, k := CountChains(datlen);
      var rest := datlen - nread;
      LostIs(dst, datlen, k);
      assert lostBytes == LostBytes(dst, datlen);
      ghost var room := if k == 0 then dst.HasRoom(rest) else RoomIn(previous, rest);
      FlatPrefix(segs, k, rest);
      FlatPrefix(segs, k, 0);
      if nread > 0 {
        pre := SpliceOut(dst, chain, previous, nread, k);
        dst.HasRoomAt(rest);
      } else {
        AdvanceFirst(chain, k);
      }
      assert dst.HasRoom(rest) == room;
      lost := MoveRest(dst, chain, rest, datlen, allocOk);
      result := datlen;
    }

    /** The end of evbuffer_remove_buffer: part of a chain is copied, then drained. */
    method MoveRest(dst: EvBuffer, chain: Chain, rest: nat, datlen: nat, allocOk: bool) returns (ghost lost: nat)
      requires Loose() && SameCount() && dst.Valid() && dst != this && Repr !! dst.Repr
      requires chain == chains[0] && rest < |segs[0]| && datlen <= totalLen && rest + (totalLen - datlen) == |Bytes()|
      modifies Repr, dst.Repr
      ensures Valid() && dst.Valid() && Repr == old(Repr) && Repr !! dst.Repr && fresh(dst.Repr - old(dst.Repr))
      ensures Bytes() == old(Bytes())[rest..] && lost == if allocOk || old(dst.HasRoom(rest)) then 0 else rest
      ensures dst.Bytes() == old(dst.Bytes()) + old(segs[0])[..rest - lost]
    {
      hide Flat, Distinct, Within, HoldAll, NextLinked, Dense, Chain.Holds, Linked, Marked;
      At(0);
      HoldsLength(chain, segs[0]);
      var result := dst.Add(chain.Live()[..rest], allocOk);
      lost := if result == 0 then 0 else rest;
      assert Loose();
      assert Linked();
      assert Marked();
      totalLen := totalLen - datlen;
      assert Marked();
      assert Linked();
      CutFirst(rest);
    }

    /** The middle of evbuffer_remove_buffer: the first `k` chains go over to `dst`. */
    method SpliceOut(dst: EvBuffer, chain: Chain, previous: Chain, nread: nat, ghost k: nat) returns (ghost pre: seq<byte>)
      requires this in Repr && Within(chains, Repr) && Linked() && Dense(segs)
      requires dst.Valid() && dst != this && Repr !! dst.Repr
      requires k < |chains| == |segs| && chain == chains[k] && previous == chains[if k == 0 then 0 else k - 1]
      requires 0 < nread == |Flat(segs[..k])|
      requires lastWithDatap == if k < |chains| - 1 then NextOf(chains[|chains| - 2]) else ToFirst
      modifies Repr, dst.Repr
      ensures Loose() && SameCount() && dst.Valid() && Repr !! dst.Repr && Repr + dst.Repr == old(Repr + dst.Repr)
      ensures chains == old(chains)[k..] && segs == old(segs)[k..] && totalLen == old(totalLen)
      ensures pre == old(Flat(segs[..k])) && dst.Bytes() == old(dst.Bytes()) + pre
      ensures dst.last == previous && previous.misalign == old(previous.misalign) && previous.off == old(previous.off)
    {
      hide Flat, Distinct, Within, HoldAll, NextLinked, Dense, Chain.Holds, Linked, Marked;
      FlatEmpty(segs[..0]);
      At(k - 1);
      HeadIs();
      var head := first;
      pre := Flat(segs[..k]);
      ghost var ds, tegs := DetachFront(chain, previous, k);
      dst.TakeChains(head, previous, nread, ds, tegs);
    }

    /** What a valid queue promises, said of the fields themselves: following the links from `first` one meets chains
        whose stored bytes are the contents and ends in `last`; the mark is the link to the last chain with data. */
    lemma Laws()
      requires Valid()
      ensures first == (if chains == [] then null else chains[0]) && last == (if chains == [] then null else chains[|chains| - 1])
      ensures forall i {:trigger chains[i].next} :: 0 <= i < |chains| ==> chains[i].next == if i + 1 < |chains| then chains[i + 1] else null
      ensures forall c <- chains :: c.misalign + c.off <= c.buffer.Length
      ensures Bytes() == LiveAll(chains) && totalLen == |LiveAll(chains)|
      ensures Deref(lastWithDatap) == last && (totalLen > 0 ==> last != null && last.off > 0) && (totalLen == 0 ==> lastWithDatap == ToFirst)
    {
      LiveIsFlat(chains, segs);
      FlatEmpty(segs);
      if |chains| > 1 {
        At(|chains| - 2);
      }
      if chains != [] {
        At(|chains| - 1);
      }
    }

    lemma HeadIs()
      requires Linked() && chains != []
      ensures first == chains[0] && last == chains[|chains| - 1]
    {
    }
  }

  /** Bytes that are lost: `n` bytes of a buffer of one chain are to move to a new buffer, which has no chain yet,
      and the allocation of one fails. They are reported as moved, and are in neither buffer. */
  method LosesBytes(data: seq<byte>, n: nat) returns (src: EvBuffer, dst: EvBuffer, result: nat)
    requires 0 < n < |data|
    ensures src.Valid() && dst.Valid() && src != dst && fresh(src) && fresh(dst)
    ensures result == n && src.Bytes() == data[n..] && dst.Bytes() == []
  {
    hide *;
    src := new EvBuffer();
    dst := new EvBuffer();
    src.Unused();
    dst.Unused();
    var added := src.Add(data, true);
    src.OneChain(dst, n);
    ghost var lost;
    result, lost := src.RemoveBuffer(dst, n, false);
    assert data[..result - lost] == [];
  }
}
