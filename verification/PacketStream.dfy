/** Cutting a byte stream into packets, as ClientIOSocket::recv does. */
module PacketStream {
  import opened Flatten

  const HEADLEN := 4
  const MAX_BUFFER_SIZE := 8192

  /** ProtocolHead::len: two bytes, the low one first. */
  function LenOf(s: seq<byte>): nat
    requires |s| >= HEADLEN
  {
    s[0] as int + 256 * (s[1] as int)
  }

  /** The loop in recv goes round: a whole packet is there. */
  predicate Continues(s: seq<byte>) {
    |s| >= HEADLEN && LenOf(s) <= |s|
  }

  /** What is left after `n` rounds of the loop, or fewer if it ends before. */
  function Rounds(s: seq<byte>, n: nat): seq<byte> {
    if n == 0 || !Continues(s) then s else Rounds(s[LenOf(s)..], n - 1)
  }

  /** The loop comes to a header with length zero. */
  predicate ZeroAhead(s: seq<byte>)
    decreases |s|
  {
    Continues(s) && (LenOf(s) == 0 || ZeroAhead(s[LenOf(s)..]))
  }

  /** The loop ends if and only if it comes to no header with length zero. */
  lemma LoopEnds(s: seq<byte>)
    ensures (exists n :: !Continues(Rounds(s, n))) <==> !ZeroAhead(s)
  {
    if ZeroAhead(s) {
      forall n: nat
        ensures Continues(Rounds(s, n))
      {
        Diverges(s, n);
      }
    } else {
      var n := Ends(s);
    }
  }

  lemma {:induction false} Diverges(s: seq<byte>, n: nat)
    requires ZeroAhead(s)
    ensures Continues(Rounds(s, n))
    decreases n
  {
    if n > 0 {
      assert LenOf(s) == 0 ==> s[LenOf(s)..] == s;
      Diverges(s[LenOf(s)..], n - 1);
    }
  }

  lemma {:induction false} Ends(s: seq<byte>) returns (n: nat)
    requires !ZeroAhead(s)
    ensures !Continues(Rounds(s, n))
    decreases |s|
  {
    if Continues(s) {
      var m := Ends(s[LenOf(s)..]);
      n := m + 1;
    } else {
      n := 0;
    }
  }

  /** The whole packets at the front of a stream, and what comes behind them. */
  function Packets(s: seq<byte>): seq<seq<byte>>
    decreases |s|
  {
    if Continues(s) && LenOf(s) > 0 then [s[..LenOf(s)]] + Packets(s[LenOf(s)..]) else []
  }

  function Rest(s: seq<byte>): seq<byte>
    decreases |s|
  {
    if Continues(s) && LenOf(s) > 0 then Rest(s[LenOf(s)..]) else s
  }

  /** One round of the loop. */
  lemma OneRound(t: seq<byte>)
    requires !ZeroAhead(t)
    ensures |t| < HEADLEN || LenOf(t) > |t| ==> Packets(t) == [] && Rest(t) == t
    ensures |t| >= HEADLEN && LenOf(t) <= |t| ==>
      var n := LenOf(t);
      n > 0 && Packets(t) == [t[..n]] + Packets(t[n..]) && Rest(t) == Rest(t[n..]) && !ZeroAhead(t[n..])
  {
  }

  lemma NoBytes()
    ensures Packets([]) == [] && Rest([]) == []
  {
  }

  /** Nothing is lost, invented or reordered. */
  lemma {:induction false} NothingLost(s: seq<byte>)
    ensures Flat(Packets(s)) + Rest(s) == s
    decreases |s|
  {
    if Continues(s) && LenOf(s) > 0 {
      var n := LenOf(s);
      NothingLost(s[n..]);
      assert Packets(s)[1..] == Packets(s[n..]);
      assert s == s[..n] + s[n..];
      assert s[..n] + (Flat(Packets(s[n..])) + Rest(s[n..])) == (s[..n] + Flat(Packets(s[n..]))) + Rest(s[n..]);
    }
  }

  /** Cutting a stream that arrives in two parts: the rest of the first part goes before the second. */
  lemma {:induction false} TwoParts(a: seq<byte>, b: seq<byte>)
    ensures Packets(a + b) == Packets(a) + Packets(Rest(a) + b)
    ensures Rest(a + b) == Rest(Rest(a) + b)
    ensures ZeroAhead(a + b) <==> ZeroAhead(Rest(a) + b)
    decreases |a|
  {
    if Continues(a) && LenOf(a) > 0 {
      var n := LenOf(a);
      assert (a + b)[..n] == a[..n] && (a + b)[n..] == a[n..] + b;
      assert LenOf(a + b) == n;
      TwoParts(a[n..], b);
      assert [a[..n]] + (Packets(a[n..]) + Packets(Rest(a) + b)) == ([a[..n]] + Packets(a[n..])) + Packets(Rest(a) + b);
    }
  }

  /** A packet as ProtocolHead describes it. */
  ghost predicate IsPacket(p: seq<byte>) {
    HEADLEN <= |p| <= MAX_BUFFER_SIZE && LenOf(p) == |p|
  }

  ghost predicate ArePackets(ps: seq<seq<byte>>) {
    forall i :: 0 <= i < |ps| ==> IsPacket(ps[i])
  }

  /** A stream of packets is cut into just these packets. */
  lemma {:induction false} CutStream(ps: seq<seq<byte>>)
    requires ArePackets(ps)
    ensures Packets(Flat(ps)) == ps && Rest(Flat(ps)) == [] && !ZeroAhead(Flat(ps))
  {
    if ps != [] {
      var s, p := Flat(ps), ps[0];
      CutStream(ps[1..]);
      assert s == p + Flat(ps[1..]);
      assert s[..|p|] == p && s[|p|..] == Flat(ps[1..]);
      assert LenOf(s) == LenOf(p);
      assert ps == [p] + ps[1..];
    }
  }

  /** Some first part of a stream of packets leaves less than one packet, so that there is room for a further byte. */
  lemma {:induction false} RoomLeft(ps: seq<seq<byte>>, s: seq<byte>)
    requires ArePackets(ps) && s <= Flat(ps)
    ensures |Rest(s)| < MAX_BUFFER_SIZE && !ZeroAhead(s) && Packets(s) <= ps
  {
    if ps != [] {
      var p := ps[0];
      if |s| >= |p| {
        assert s[..|p|] == p by {
          assert Flat(ps)[..|p|] == p;
        }
        assert s[|p|..] <= Flat(ps[1..]) by {
          assert Flat(ps)[|p|..] == Flat(ps[1..]);
          assert s == Flat(ps)[..|s|];
        }
        assert LenOf(s) == |p|;
        RoomLeft(ps[1..], s[|p|..]);
        assert ps == [p] + ps[1..];
      } else if |s| >= HEADLEN {
        assert s[0] == Flat(ps)[0] == p[0] && s[1] == Flat(ps)[1] == p[1];
      }
    }
  }

  /** All the reads of a connection together. */
  lemma {:induction false} AnySplit(chunks: seq<seq<byte>>, ps: seq<seq<byte>>, i: nat)
    requires ArePackets(ps) && Flat(chunks) == Flat(ps) && i <= |chunks|
    ensures |Rest(Flat(chunks[..i]))| < MAX_BUFFER_SIZE && !ZeroAhead(Flat(chunks[..i]))
    ensures i < |chunks| ==>
      !ZeroAhead(Rest(Flat(chunks[..i])) + chunks[i]) &&
      Packets(Flat(chunks[..i + 1])) == Packets(Flat(chunks[..i])) + Packets(Rest(Flat(chunks[..i])) + chunks[i]) &&
      Rest(Flat(chunks[..i + 1])) == Rest(Rest(Flat(chunks[..i])) + chunks[i])
    ensures i == |chunks| ==> Packets(Flat(chunks[..i])) == ps && Rest(Flat(chunks[..i])) == []
  {
    hide Packets, Rest, ZeroAhead, Flat;
    FlatSplit(chunks, i);
    RoomLeft(ps, Flat(chunks[..i]));
    if i < |chunks| {
      FlatAt(chunks, i);
      FlatSplit(chunks, i + 1);
      RoomLeft(ps, Flat(chunks[..i + 1]));
      TwoParts(Flat(chunks[..i]), chunks[i]);
    } else {
      assert chunks[..i] == chunks;
      CutStream(ps);
    }
  }

  lemma StillTooLong(rest: seq<byte>, chunk: seq<byte>)
    requires HEADLEN <= |rest| && LenOf(rest) > MAX_BUFFER_SIZE && |rest + chunk| <= MAX_BUFFER_SIZE
    ensures Packets(rest + chunk) == [] && Rest(rest + chunk) == rest + chunk
    ensures LenOf(rest + chunk) == LenOf(rest) && !ZeroAhead(rest + chunk)
  {
    assert LenOf(rest + chunk) == LenOf(rest);
  }

  /** What the reads `chunks` make of the buffer: the packets they deliver and what they leave. */
  function Reads(rest: seq<byte>, chunks: seq<seq<byte>>): (seq<seq<byte>>, seq<byte>)
    decreases |chunks|
  {
    if chunks == [] then ([], rest)
    else
      var more := Reads(Rest(rest + chunks[0]), chunks[1..]);
      (Packets(rest + chunks[0]) + more.0, more.1)
  }

  /** A header that announces more than the buffer holds: no sequence of reads that still fit in makes recv deliver
      anything any more, and once the buffer is full only reads of nothing are left. */
  lemma {:induction false} TooLong(rest: seq<byte>, chunks: seq<seq<byte>>)
    requires HEADLEN <= |rest| && LenOf(rest) > MAX_BUFFER_SIZE && |rest + Flat(chunks)| <= MAX_BUFFER_SIZE
    ensures Reads(rest, chunks) == ([], rest + Flat(chunks))
    decreases |chunks|
  {
    hide Packets, Rest, LenOf, ZeroAhead;
    if chunks == [] {
      assert rest + Flat(chunks) == rest;
    } else {
      var rest' := rest + chunks[0];
      assert rest + Flat(chunks) == rest' + Flat(chunks[1..]);
      StillTooLong(rest, chunks[0]);
      TooLong(rest', chunks[1..]);
      var more := Reads(Rest(rest'), chunks[1..]);
      assert Packets(rest') + more.0 == [];
    }
  }

  /** The buffer is full after a call only if it begins with such a header. */
  lemma FullOnly(s: seq<byte>)
    requires |s| <= MAX_BUFFER_SIZE && !ZeroAhead(s)
    ensures |Rest(s)| <= MAX_BUFFER_SIZE
    ensures |Rest(s)| == MAX_BUFFER_SIZE ==> LenOf(Rest(s)) > MAX_BUFFER_SIZE
    decreases |s|
  {
    if Continues(s) {
      FullOnly(s[LenOf(s)..]);
    }
  }
}
