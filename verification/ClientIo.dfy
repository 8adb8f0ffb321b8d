/** ClientIOSocket and the sending part of ClientSocketIOThread in libsocket. */
module ClientIo {
  import opened Flatten
  import opened PacketStream

  const U32 := 0x1_0000_0000

  /** memcpy to `at`. */
  method CopyTo(dst: array<byte>, at: nat, src: seq<byte>)
    requires at + |src| <= dst.Length
    modifies dst
    ensures dst[..at] == old(dst[..at]) && dst[at..at + |src|] == src && dst[..at + |src|] == old(dst[..at]) + src
  {
    forall i | 0 <= i < |src| {
      dst[at + i] := src[i];
    }
    assert dst[..at + |src|] == dst[..at] + dst[at..at + |src|];
  }

  lemma HeadAt(a: array<byte>, n: nat, i: nat)
    requires n <= a.Length && i + HEADLEN <= n
    ensures LenOf(a[..n][i..]) == a[i] as int + 256 * (a[i + 1] as int)
  {
  }

  lemma PieceAt(a: array<byte>, n: nat, i: nat, len: nat)
    requires n <= a.Length && i + len <= n
    ensures a[i..i + len] == a[..n][i..][..len]
  {
  }

  lemma TailAt(s: seq<byte>, i: nat, len: nat)
    requires i + len <= |s|
    ensures s[i..][len..] == s[i + len..]
  {
  }

  class ClientIOSocket {
    const recvBuf: array<byte>
    var recvLen: nat
    const sendBuf: array<byte>
    var sendLen: nat
    /** All bytes handed to bufferevent_write so far. */
    ghost var sent: seq<byte>

    constructor ()
      ensures Receiving([]) && Sending([]) && sent == [] && fresh(recvBuf) && fresh(sendBuf) && recvBuf != sendBuf
    {
      recvBuf, recvLen := new byte[MAX_BUFFER_SIZE](_ => 0), 0;
      sendBuf, sendLen := new byte[MAX_BUFFER_SIZE](_ => 0), 0;
      sent := [];
    }

    /** The receive buffer holds `s`. */
    ghost predicate Receiving(s: seq<byte>)
      reads this`recvLen, recvBuf
    {
      recvBuf.Length == MAX_BUFFER_SIZE && recvLen == |s| <= MAX_BUFFER_SIZE && recvBuf[..recvLen] == s
    }

    /** The send buffer holds `s`. */
    ghost predicate Sending(s: seq<byte>)
      reads this`sendLen, sendBuf
    {
      sendBuf.Length == MAX_BUFFER_SIZE && sendLen == |s| < MAX_BUFFER_SIZE && sendBuf[..sendLen] == s
    }

    /** recv, when bufferevent_read yields `chunk`. The loop ends exactly if it comes to no header of length zero. */
    method Recv(chunk: seq<byte>, ghost before: seq<byte>) returns (packets: seq<seq<byte>>)
      requires Receiving(before) && |before| + |chunk| <= MAX_BUFFER_SIZE && !ZeroAhead(before + chunk)
      modifies this`recvLen, recvBuf
      ensures packets == Packets(before + chunk) && Receiving(Rest(before + chunk))
    {
      hide Packets, Rest, ZeroAhead, LenOf;
      CopyTo(recvBuf, recvLen, chunk);
      recvLen := recvLen + |chunk|;
      ghost var s := before + chunk;
      ghost var t := s;
      var tmpIndex := 0;
      packets := [];
      assert s[0..] == s;
      while true
        invariant 0 <= tmpIndex <= recvLen == |s| && recvBuf[..recvLen] == s && t == s[tmpIndex..] && !ZeroAhead(t)
        invariant packets + Packets(t) == Packets(s) && Rest(t) == Rest(s)
        decreases recvLen - tmpIndex
        modifies {}
      {
        OneRound(t);
        if recvLen - tmpIndex < HEADLEN {
          break;
        }
        HeadAt(recvBuf, recvLen, tmpIndex);
        var len := recvBuf[tmpIndex] as int + 256 * (recvBuf[tmpIndex + 1] as int);
        if len > recvLen - tmpIndex {
          break;
        }
        TailAt(s, tmpIndex, len);
        PieceAt(recvBuf, recvLen, tmpIndex, len);
        packets := packets + [recvBuf[tmpIndex..tmpIndex + len]];
        tmpIndex := tmpIndex + len;
        t := t[len..];
      }
      assert packets + [] == packets;
      if tmpIndex > 0 {
        Shift(tmpIndex, s);
      }
    }

    /** The end of recv: what is left moves to the front. */
    method Shift(tmpIndex: nat, ghost s: seq<byte>)
      requires Receiving(s) && tmpIndex <= |s|
      modifies this`recvLen, recvBuf
      ensures Receiving(s[tmpIndex..])
    {
      PieceAt(recvBuf, recvLen, tmpIndex, recvLen - tmpIndex);
      var left := recvBuf[tmpIndex..recvLen];
      CopyTo(recvBuf, 0, left);
      recvLen := recvLen - tmpIndex;
    }

    /** expandSendBuf; the sum is one of 32-bit unsigned numbers, and one that wraps would let the copy run over the end
        of the buffer. */
    method ExpandSendBuf(buf: seq<byte>, ghost pending: seq<byte>) returns (ok: bool)
      requires Sending(pending) && |pending| + |buf| < U32
      modifies this`sendLen, sendBuf
      ensures ok <==> |pending| + |buf| < MAX_BUFFER_SIZE
      ensures Sending(if ok then pending + buf else pending)
    {
      if (|buf| + sendLen) % U32 >= MAX_BUFFER_SIZE {
        return false;
      }
      CopyTo(sendBuf, sendLen, buf);
      sendLen := sendLen + |buf|;
      return true;
    }

    /** consumeSendBuf */
    method ConsumeSendBuf(ghost pending: seq<byte>)
      requires Sending(pending)
      modifies this`sendLen, this`sent
      ensures Sending([]) && sent == old(sent) + pending
    {
      if !HadSendBufData() {
        assert sent + pending == sent;
        return;
      }
      ToSend(sendBuf[..sendLen]);
      sendLen := 0;
    }

    /** hadSendBufData */
    predicate HadSendBufData()
      reads this`sendLen
    {
      sendLen > 0
    }

    /** toSend hands the bytes to bufferevent_write. */
    method ToSend(buf: seq<byte>)
      modifies this`sent
      ensures sent == old(sent) + buf
    {
      sent := sent + buf;
    }
  }

  /** The reads of a whole connection, each no longer than the room there is: the packets that were sent are delivered,
      however the stream was split, and nothing is left over. */
  method ReceiveAll(chunks: seq<seq<byte>>, ghost ps: seq<seq<byte>>) returns (packets: seq<seq<byte>>)
    requires ArePackets(ps) && Flat(chunks) == Flat(ps)
    requires forall i :: 0 <= i < |chunks| ==> |Rest(Flat(chunks[..i]))| + |chunks[i]| <= MAX_BUFFER_SIZE
    ensures packets == ps
  {
    hide Packets, Rest, ZeroAhead, ArePackets, ClientIOSocket.Receiving;
    var socket := new ClientIOSocket();
    packets := [];
    FlatEmpty(chunks[..0]);
    NoBytes();
    hide Flat;
    var i := 0;
    while i < |chunks|
      invariant 0 <= i <= |chunks| && fresh(socket) && fresh(socket.recvBuf)
      invariant packets == Packets(Flat(chunks[..i])) && socket.Receiving(Rest(Flat(chunks[..i])))
    {
      AnySplit(chunks, ps, i);
      var got := socket.Recv(chunks[i], Rest(Flat(chunks[..i])));
      packets := packets + got;
      i := i + 1;
    }
    AnySplit(chunks, ps, i);
  }

  /** threadPackage; the source looks for a null socket and for commands it does not know. */
  datatype Package = Connect(id: int) | Send(socket: ClientIOSocket?, buf: seq<byte>) | Unknown(cmd: int)

  /** The payload is for this socket and not too long to be sent. */
  predicate Sends(p: Package, c: ClientIOSocket) {
    p.Send? && p.socket == c && |p.buf| < MAX_BUFFER_SIZE
  }

  /** What is to reach one socket: its payloads in order, but those that do not fit into an empty buffer. */
  ghost function SentTo(c: ClientIOSocket, ps: seq<Package>): seq<byte> {
    if ps == [] then []
    else
      var p := ps[|ps| - 1];
      SentTo(c, ps[..|ps| - 1]) + if Sends(p, c) then p.buf else []
  }

  lemma PrefixOfSum<T>(ps: seq<T>, qs: seq<T>, k: nat)
    requires k < |qs|
    ensures (ps + qs)[..|ps| + k] == ps + qs[..k] && (ps + qs)[|ps| + k] == qs[k]
  {
  }

  lemma SentSum(a: seq<byte>, b: seq<byte>, d: seq<byte>)
    ensures (a + b) + d == a + (b + d)
  {
  }

  /** Over several callbacks: what the batches bring together is what the whole queue brings. */
  lemma {:induction false} SentSplit(c: ClientIOSocket, ps: seq<Package>, qs: seq<Package>)
    ensures SentTo(c, ps + qs) == SentTo(c, ps) + SentTo(c, qs)
  {
    if qs == [] {
      assert ps + qs == ps;
    } else {
      var k := |qs| - 1;
      SentSplit(c, ps, qs[..k]);
      PrefixOfSum(ps, qs, k);
      SentSum(SentTo(c, ps), SentTo(c, qs[..k]), if Sends(qs[k], c) then qs[k].buf else []);
    }
  }

  /** With payloads shorter than the buffer, that is all of them. */
  lemma {:induction false} AllSent(c: ClientIOSocket, ps: seq<Package>)
    requires forall i :: 0 <= i < |ps| && ps[i].Send? ==> |ps[i].buf| < MAX_BUFFER_SIZE
    ensures SentTo(c, ps) == Flat(Payloads(c, ps))
  {
    if ps != [] {
      var k := |ps| - 1;
      AllSent(c, ps[..k]);
      if ps[k].Send? {
        FlatAppend(Payloads(c, ps[..k]), ps[k].buf);
      }
      assert Payloads(c, ps[..k]) + [] == Payloads(c, ps[..k]);
    }
  }

  ghost function Payloads(c: ClientIOSocket, ps: seq<Package>): seq<seq<byte>> {
    if ps == [] then []
    else
      var p := ps[|ps| - 1];
      Payloads(c, ps[..|ps| - 1]) + if p.Send? && p.socket == c then [p.buf] else []
  }

  /** The sockets of a thread, none sharing a buffer with another; `pending` is what is in their send buffers. */
  ghost predicate Apart(cs: set<ClientIOSocket>) {
    forall c, d :: c in cs && d in cs && c != d ==> c.sendBuf != d.sendBuf
  }

  ghost predicate AllSending(cs: set<ClientIOSocket>, pending: map<ClientIOSocket, seq<byte>>)
    reads cs`sendLen, set c <- cs :: c.sendBuf
  {
    pending.Keys == cs && forall c <- cs :: c.Sending(pending[c])
  }

  /** What is buffered belongs to a socket that is listed. */
  ghost predicate Listed(pending: map<ClientIOSocket, seq<byte>>, needSendList: seq<ClientIOSocket>) {
    forall c <- pending :: pending[c] != [] ==> c in needSendList
  }

  ghost predicate AllBuffered(cs: set<ClientIOSocket>, pending: map<ClientIOSocket, seq<byte>>, start: map<ClientIOSocket, seq<byte>>, ps: seq<Package>)
    reads cs`sent
  {
    pending.Keys == cs == start.Keys && forall c <- cs :: c.sent + pending[c] == start[c] + SentTo(c, ps)
  }

  /** In the middle of pairCallback, after the packages `ps`. */
  ghost predicate Buffering(cs: set<ClientIOSocket>, pending: map<ClientIOSocket, seq<byte>>, needSendList: seq<ClientIOSocket>,
      start: map<ClientIOSocket, seq<byte>>, ps: seq<Package>)
    reads cs`sendLen, cs`sent, set c <- cs :: c.sendBuf
  {
    Apart(cs) && AllSending(cs, pending) && Listed(pending, needSendList) && (forall c <- needSendList :: c in cs) &&
    AllBuffered(cs, pending, start, ps)
  }

  lemma BufferingIs(cs: set<ClientIOSocket>, pending: map<ClientIOSocket, seq<byte>>, needSendList: seq<ClientIOSocket>,
      start: map<ClientIOSocket, seq<byte>>, ps: seq<Package>)
    requires Buffering(cs, pending, needSendList, start, ps)
    ensures Apart(cs) && AllSending(cs, pending) && Listed(pending, needSendList) && AllBuffered(cs, pending, start, ps)
    ensures (forall c <- needSendList :: c in cs) && pending.Keys == cs == start.Keys
  {
  }

  /** Send packages name sockets of the thread. */
  ghost predicate Known(cs: set<ClientIOSocket>, ps: seq<Package>) {
    forall p <- ps :: p.Send? ==> (p.socket != null ==> p.socket in cs) && |p.buf| + MAX_BUFFER_SIZE <= U32
  }

  /** A socket that no package names gets nothing. */
  lemma {:induction false} NotNamed(cs: set<ClientIOSocket>, ps: seq<Package>, c: ClientIOSocket)
    requires Known(cs, ps) && c !in cs
    ensures SentTo(c, ps) == []
  {
    if ps != [] {
      var k := |ps| - 1;
      assert ps[k] in ps && forall p <- ps[..k] :: p in ps;
      NotNamed(cs, ps[..k], c);
    }
  }

  lemma KnownParts(cs: set<ClientIOSocket>, ps: seq<Package>, qs: seq<Package>)
    ensures Known(cs, ps + qs) <==> Known(cs, ps) && Known(cs, qs)
  {
    if Known(cs, ps + qs) {
      assert forall p <- ps :: p in ps + qs;
      assert forall p <- qs :: p in ps + qs;
    }
  }

  class ClientSocketIOThread {
    var list: seq<Package>
    const pairDealCount: int
    ghost var sockets: set<ClientIOSocket>

    constructor (sockets: set<ClientIOSocket>, pairDealCount: int)
      ensures list == [] && this.sockets == sockets && this.pairDealCount == pairDealCount
    {
      list, this.sockets, this.pairDealCount := [], sockets, pairDealCount;
    }

    /** asynSend */
    method AsynSend(socket: ClientIOSocket?, buf: seq<byte>)
      modifies this`list
      ensures list == old(list) + [Send(socket, buf)]
    {
      list := list + [Send(socket, buf)];
    }

    /** One send package and its socket. When the buffer is full and the payload does not fit after it was sent either,
        the payload is dropped. */
    method Buffer(socket: ClientIOSocket, buf: seq<byte>, ghost had: seq<byte>) returns (list: bool, ghost now: seq<byte>)
      requires socket.Sending(had) && |buf| + MAX_BUFFER_SIZE <= U32
      modifies socket`sendLen, socket`sent, socket.sendBuf
      ensures socket.Sending(now) && socket.sent + now == old(socket.sent) + had + if |buf| < MAX_BUFFER_SIZE then buf else []
      ensures now != [] ==> list || had != []
    {
      var ok := socket.ExpandSendBuf(buf, had);
      if !ok {
        socket.ConsumeSendBuf(had);
        var ok' := socket.ExpandSendBuf(buf, []);
        return false, if ok' then [] + buf else [];
      }
      return true, had + buf;
    }

    /** The next send package. */
    method Deal(p: Package, needSendList: seq<ClientIOSocket>, ghost pending: map<ClientIOSocket, seq<byte>>,
                ghost start: map<ClientIOSocket, seq<byte>>, ghost ps: seq<Package>)
      returns (needSendList': seq<ClientIOSocket>, ghost pending': map<ClientIOSocket, seq<byte>>)
      requires Apart(sockets) && AllSending(sockets, pending) && Listed(pending, needSendList) && p.Send? && Known(sockets, [p])
      requires AllBuffered(sockets, pending, start, ps) && forall c <- needSendList :: c in sockets
      modifies sockets`sendLen, sockets`sent, set c <- sockets :: c.sendBuf
      ensures AllSending(sockets, pending') && Listed(pending', needSendList') && forall c <- needSendList' :: c in sockets
      ensures AllBuffered(sockets, pending', start, ps + [p])
    {
      hide ClientIOSocket.Sending, SentTo, Listed;
      needSendList', pending' := needSendList, pending;
      var socket := p.socket;
      forall c | c in sockets
        ensures SentTo(c, ps + [p]) == SentTo(c, ps) + if Sends(p, c) then p.buf else []
      {
        SentMore(c, ps, p);
      }
      if socket != null {
        assert p in [p];
        var list;
        ghost var now;
        ghost var put := if |p.buf| < MAX_BUFFER_SIZE then p.buf else [];
        list, now := Buffer(socket, p.buf, pending[socket]);
        assert AllBuffered(sockets, pending[socket := now], start, ps + [p]) by {
          assert (old(socket.sent) + pending[socket]) + put == start[socket] + (SentTo(socket, ps) + put);
          forall c | c in sockets && c != socket
            ensures c.sent + pending[c] == start[c] + SentTo(c, ps + [p])
          {
            assert SentTo(c, ps) + [] == SentTo(c, ps);
          }
        }
        pending' := pending[socket := now];
        ListMore(pending, needSendList, socket, now, list);
        if list {
          needSendList' := needSendList + [socket];
        }
      } else {
        assert forall c <- sockets :: SentTo(c, ps) + [] == SentTo(c, ps);
      }
    }

    /** One socket of needSendList. */
    method FlushOne(c: ClientIOSocket, ghost pending: map<ClientIOSocket, seq<byte>>,
                    ghost start: map<ClientIOSocket, seq<byte>>, ghost ps: seq<Package>)
      requires AllSending(sockets, pending) && AllBuffered(sockets, pending, start, ps) && c in sockets
      modifies c`sendLen, c`sent
      ensures AllSending(sockets, pending[c := []]) && AllBuffered(sockets, pending[c := []], start, ps)
    {
      hide ClientIOSocket.Sending, SentTo;
      ghost var had := pending[c];
      LenIs(c, had);
      if c.HadSendBufData() {
        c.ConsumeSendBuf(had);
        assert (old(c.sent) + had) + [] == old(c.sent) + had;
      }
    }

    /** The last loop of pairCallback: what is still buffered is sent. */
    method Flush(needSendList: seq<ClientIOSocket>, ghost pending: map<ClientIOSocket, seq<byte>>,
                 ghost start: map<ClientIOSocket, seq<byte>>, ghost ps: seq<Package>)
      requires AllSending(sockets, pending) && Listed(pending, needSendList) && forall c <- needSendList :: c in sockets
      requires AllBuffered(sockets, pending, start, ps)
      modifies sockets`sendLen, sockets`sent
      ensures Idle() && forall c <- sockets :: c in start && c.sent == start[c] + SentTo(c, ps)
    {
      hide ClientIOSocket.Sending, SentTo, AllSending, AllBuffered;
      ghost var now := pending;
      for i := 0 to |needSendList|
        invariant AllSending(sockets, now) && Listed(now, needSendList[i..]) && AllBuffered(sockets, now, start, ps)
        invariant now.Keys == pending.Keys
      {
        var c := needSendList[i];
        KeysAre(sockets, now, start, ps);
        FlushOne(c, now, start, ps);
        now := now[c := []];
        assert needSendList[i..] == [c] + needSendList[i + 1..];
      }
      AllFlushed(sockets, now, start, ps);
    }

    /** Between callbacks every send buffer is empty. */
    ghost predicate Idle()
      reads this`sockets, sockets`sendLen, set c <- sockets :: c.sendBuf
    {
      forall c <- sockets :: c.Sending([])
    }

    /** A connect package: a socket with empty buffers, which then connects. */
    method MakeSocket(ghost pending: map<ClientIOSocket, seq<byte>>, ghost start: map<ClientIOSocket, seq<byte>>,
                      ghost ps: seq<Package>, ghost cs: set<ClientIOSocket>) returns (socket: ClientIOSocket)
      requires Apart(sockets) && AllSending(sockets, pending) && AllBuffered(sockets, pending, start, ps) && cs <= sockets && Known(cs, ps)
      modifies this`sockets
      ensures fresh(socket) && fresh(socket.sendBuf) && fresh(socket.recvBuf) && socket.Receiving([])
      ensures sockets == old(sockets) + {socket} && Apart(sockets)
      ensures AllSending(sockets, pending[socket := []]) && AllBuffered(sockets, pending[socket := []], start[socket := []], ps)
    {
      hide SentTo, Known;
      socket := new ClientIOSocket();
      NotNamed(cs, ps, socket);
      sockets := sockets + {socket};
    }

    /** The next package; `cs` are the sockets there were at first. */
    method Dispatch(p: Package, needSendList: seq<ClientIOSocket>, ghost pending: map<ClientIOSocket, seq<byte>>,
                    ghost start: map<ClientIOSocket, seq<byte>>, ghost ps: seq<Package>, ghost cs: set<ClientIOSocket>)
      returns (needSendList': seq<ClientIOSocket>, ghost pending': map<ClientIOSocket, seq<byte>>, ghost start': map<ClientIOSocket, seq<byte>>)
      requires Buffering(sockets, pending, needSendList, start, ps) && cs <= sockets && Known(cs, ps + [p])
      modifies this`sockets, sockets`sendLen, sockets`sent, set c <- sockets :: c.sendBuf
      ensures Buffering(sockets, pending', needSendList', start', ps + [p]) && old(sockets) <= sockets
      ensures forall c <- sockets :: c in old(sockets) || (fresh(c) && fresh(c.sendBuf) && c in start' && start'[c] == [])
      ensures forall c <- old(sockets) :: c in start && c in start' && start'[c] == start[c]
      ensures |sockets| == |old(sockets)| + if p.Connect? then 1 else 0
    {
      hide ClientIOSocket.Sending, ClientIOSocket.Receiving, SentTo, Listed, Known, AllSending, AllBuffered;
      KeysAre(sockets, pending, start, ps);
      KnownParts(cs, ps, [p]);
      needSendList', pending', start' := needSendList, pending, start;
      match p {
        case Connect(id) =>
          var socket := MakeSocket(pending, start, ps, cs);
          ListNew(pending, needSendList, socket);
          pending', start' := pending[socket := []], start[socket := []];
          NothingSent(sockets, pending', start', ps, p);
        case Send(_, _) =>
          KnownMore(cs, sockets, [p]);
          needSendList', pending' := Deal(p, needSendList, pending, start, ps);
        case Unknown(_) =>
          NothingSent(sockets, pending, start, ps, p);
      }
    }

    /** The first loop of pairCallback. Before its round `i` looks at the queue, the packages `arrivals[i]` come in. */
    method DealAll(arrivals: seq<seq<Package>>)
      returns (needSendList: seq<ClientIOSocket>, ghost handled: seq<Package>, ghost rounds: nat,
               ghost pending: map<ClientIOSocket, seq<byte>>, ghost start: map<ClientIOSocket, seq<byte>>)
      requires |arrivals| == if pairDealCount < 0 then 0 else pairDealCount + 1
      requires Apart(sockets) && Idle() && Known(sockets, list) && forall ps <- arrivals :: Known(sockets, ps)
      modifies this`list, this`sockets, sockets`sendLen, sockets`sent, set c <- sockets :: c.sendBuf
      ensures |handled| <= |arrivals| && rounds == |handled| + if |handled| < |arrivals| then 1 else 0
      ensures handled + list == old(list) + Flat(arrivals[..rounds])
      ensures (list == [] || |handled| == |arrivals|) && |sockets| == |old(sockets)| + Connects(handled)
      ensures Buffering(sockets, pending, needSendList, start, handled) && old(sockets) <= sockets && Known(old(sockets), handled + list)
      ensures forall c <- sockets :: c in old(sockets) || (fresh(c) && fresh(c.sendBuf) && c in start && start[c] == [])
      ensures forall c <- old(sockets) :: c in start && start[c] == old(c.sent)
    {
      hide *;
      ghost var cs := sockets;
      pending, start := NothingPending();
      needSendList, handled, rounds := [], [], 0;
      var dealCount := 0;
      AtFirst(cs, list, arrivals);
      while dealCount <= pairDealCount
        invariant rounds == dealCount && Taken(cs, handled, list, arrivals, rounds, old(list)) && cs <= sockets
        invariant Buffering(sockets, pending, needSendList, start, handled)
        invariant forall c <- sockets :: c in cs || (fresh(c) && fresh(c.sendBuf) && c in start && start[c] == [])
        invariant forall c <- cs :: c in start && start[c] == old(c.sent)
        invariant |handled| == rounds && |sockets| == |cs| + Connects(handled)
      {
        MoreCame(cs, handled, list, arrivals, rounds, old(list));
        list := list + arrivals[dealCount];
        rounds := rounds + 1;
        dealCount := dealCount + 1;
        if list == [] {
          break;
        }
        var p := list[0];
        FrontTaken(cs, handled, list, arrivals, rounds, old(list));
        list := list[1..];
        needSendList, pending, start := Dispatch(p, needSendList, pending, start, handled, cs);
        handled := handled + [p];
      }
      TakenIs(cs, handled, list, arrivals, rounds, old(list));
    }

    /** At first nothing is buffered. */
    lemma NothingPending() returns (pending: map<ClientIOSocket, seq<byte>>, start: map<ClientIOSocket, seq<byte>>)
      requires Apart(sockets) && Idle()
      ensures Buffering(sockets, pending, [], start, [])
      ensures forall c <- sockets :: c in start && start[c] == c.sent
    {
      start := map c: ClientIOSocket | c in sockets :: c.sent;
      pending := map c: ClientIOSocket | c in sockets :: [];
      NothingBuffered(sockets, pending, start);
    }

    /** pairCallback: each socket gets, in the order of the queue, the payloads of the packages that are handled, and
        nothing stays behind in a buffer; each connect package makes a socket. */
    method PairCallback(arrivals: seq<seq<Package>>) returns (ghost handled: seq<Package>, ghost rounds: nat, again: bool)
      requires |arrivals| == if pairDealCount < 0 then 0 else pairDealCount + 1
      requires Apart(sockets) && Idle() && Known(sockets, list) && forall ps <- arrivals :: Known(sockets, ps)
      modifies this`list, this`sockets, sockets`sendLen, sockets`sent, set c <- sockets :: c.sendBuf
      ensures Idle() && Apart(sockets) && Known(sockets, list) && old(sockets) <= sockets
      ensures |handled| <= |arrivals| && rounds == |handled| + if |handled| < |arrivals| then 1 else 0
      ensures handled + list == old(list) + Flat(arrivals[..rounds])
      ensures (list == [] || |handled| == |arrivals|) && (again <==> list != [])
      ensures forall c <- old(sockets) :: c.sent == old(c.sent) + SentTo(c, handled)
      ensures forall c <- sockets - old(sockets) :: fresh(c) && c.sent == []
      ensures |sockets| == |old(sockets)| + Connects(handled)
    {
      hide *;
      ghost var cs := sockets;
      var needSendList;
      ghost var pending, start;
      needSendList, handled, rounds, pending, start := DealAll(arrivals);
      BufferingIs(sockets, pending, needSendList, start, handled);
      Flush(needSendList, pending, start, handled);
      KnownParts(cs, handled, list);
      KnownMore(cs, sockets, list);
      forall c | c in sockets - cs
        ensures c.sent == []
      {
        NotNamed(cs, handled, c);
      }
      again := list != [];
    }
  }

  lemma KnownMore(cs: set<ClientIOSocket>, ds: set<ClientIOSocket>, ps: seq<Package>)
    requires Known(cs, ps) && cs <= ds
    ensures Known(ds, ps)
  {
  }

  /** Of the packages `before` and those of the first `rounds` arrivals, `handled` have been taken and `list` are left. */
  ghost predicate Taken(cs: set<ClientIOSocket>, handled: seq<Package>, list: seq<Package>, arrivals: seq<seq<Package>>, rounds: nat, before: seq<Package>) {
    rounds <= |arrivals| && handled + list == before + Flat(arrivals[..rounds]) &&
    Known(cs, handled + list) && forall ps <- arrivals :: Known(cs, ps)
  }

  lemma TakenIs(cs: set<ClientIOSocket>, handled: seq<Package>, list: seq<Package>, arrivals: seq<seq<Package>>, rounds: nat, before: seq<Package>)
    requires Taken(cs, handled, list, arrivals, rounds, before)
    ensures rounds <= |arrivals| && handled + list == before + Flat(arrivals[..rounds]) && Known(cs, handled + list)
  {
  }

  lemma AtFirst(cs: set<ClientIOSocket>, list: seq<Package>, arrivals: seq<seq<Package>>)
    requires Known(cs, list) && forall ps <- arrivals :: Known(cs, ps)
    ensures Taken(cs, [], list, arrivals, 0, list) && Connects([]) == 0
  {
    assert Flat(arrivals[..0]) == [];
    assert [] + list == list == list + [];
  }

  lemma MoreCame(cs: set<ClientIOSocket>, handled: seq<Package>, list: seq<Package>, arrivals: seq<seq<Package>>, rounds: nat, before: seq<Package>)
    requires Taken(cs, handled, list, arrivals, rounds, before) && rounds < |arrivals|
    ensures Taken(cs, handled, list + arrivals[rounds], arrivals, rounds + 1, before)
  {
    hide Known, Flat;
    FlatUpTo(arrivals, rounds);
    KnownParts(cs, handled + list, arrivals[rounds]);
    assert handled + (list + arrivals[rounds]) == (handled + list) + arrivals[rounds];
  }

  lemma FrontTaken(cs: set<ClientIOSocket>, handled: seq<Package>, list: seq<Package>, arrivals: seq<seq<Package>>, rounds: nat, before: seq<Package>)
    requires Taken(cs, handled, list, arrivals, rounds, before) && list != []
    ensures Taken(cs, handled + [list[0]], list[1..], arrivals, rounds, before) && Known(cs, handled + [list[0]])
    ensures Connects(handled + [list[0]]) == Connects(handled) + if list[0].Connect? then 1 else 0
  {
    assert handled + list == (handled + [list[0]]) + list[1..];
    KnownParts(cs, handled + [list[0]], list[1..]);
    assert (handled + [list[0]])[..|handled|] == handled;
  }

  lemma ListNew(pending: map<ClientIOSocket, seq<byte>>, needSendList: seq<ClientIOSocket>, socket: ClientIOSocket)
    requires Listed(pending, needSendList)
    ensures Listed(pending[socket := []], needSendList)
  {
  }

  /** A package that is not for sending. */
  lemma NothingSent(cs: set<ClientIOSocket>, pending: map<ClientIOSocket, seq<byte>>, start: map<ClientIOSocket, seq<byte>>, ps: seq<Package>, p: Package)
    requires AllBuffered(cs, pending, start, ps) && !p.Send?
    ensures AllBuffered(cs, pending, start, ps + [p])
  {
    forall c | c in cs
      ensures SentTo(c, ps + [p]) == SentTo(c, ps)
    {
      SentMore(c, ps, p);
      assert SentTo(c, ps) + [] == SentTo(c, ps);
    }
  }

  /** How many sockets the packages ask for. */
  function Connects(ps: seq<Package>): nat {
    if ps == [] then 0 else Connects(ps[..|ps| - 1]) + if ps[|ps| - 1].Connect? then 1 else 0
  }

  lemma KeysAre(cs: set<ClientIOSocket>, pending: map<ClientIOSocket, seq<byte>>, start: map<ClientIOSocket, seq<byte>>, ps: seq<Package>)
    requires AllBuffered(cs, pending, start, ps)
    ensures pending.Keys == cs == start.Keys
  {
  }

  /** No socket is left to list: nothing is buffered. */
  lemma AllFlushed(cs: set<ClientIOSocket>, pending: map<ClientIOSocket, seq<byte>>, start: map<ClientIOSocket, seq<byte>>, ps: seq<Package>)
    requires AllSending(cs, pending) && Listed(pending, []) && AllBuffered(cs, pending, start, ps)
    ensures forall c <- cs :: c.Sending([]) && c in start && c.sent == start[c] + SentTo(c, ps)
  {
    assert forall c <- cs :: pending[c] == [];
    assert forall c <- cs :: c.sent + [] == c.sent;
  }

  lemma LenIs(c: ClientIOSocket, s: seq<byte>)
    requires c.Sending(s)
    ensures c.sendLen == |s|
  {
  }

  lemma NothingBuffered(cs: set<ClientIOSocket>, pending: map<ClientIOSocket, seq<byte>>, start: map<ClientIOSocket, seq<byte>>)
    requires forall c <- cs :: c.Sending([])
    requires pending.Keys == cs == start.Keys && forall c <- cs :: pending[c] == [] && start[c] == c.sent
    ensures AllSending(cs, pending) && Listed(pending, []) && AllBuffered(cs, pending, start, [])
  {
  }

  lemma SentMore(c: ClientIOSocket, ps: seq<Package>, p: Package)
    ensures SentTo(c, ps + [p]) == SentTo(c, ps) + if Sends(p, c) then p.buf else []
  {
    assert (ps + [p])[..|ps|] == ps;
  }

  /** A socket whose buffer was not empty is listed already. */
  lemma ListMore(pending: map<ClientIOSocket, seq<byte>>, needSendList: seq<ClientIOSocket>, socket: ClientIOSocket, now: seq<byte>, list: bool)
    requires Listed(pending, needSendList) && socket in pending && (now != [] ==> list || pending[socket] != [])
    ensures Listed(pending[socket := now], if list then needSendList + [socket] else needSendList)
  {
  }
}
