/** The proxy's code over its mutable state: the fetch list, the response callback, the pin, and the TCP
    server it calls back into. Every callback does exactly what the state machine says. */
module Proxies {
  import opened Bytes
  import opened Framing
  import opened TcpServers
  import opened TcpClients
  import opened AddressLists
  import opened Pinning
  import opened Ledgers
  import opened Machines
  import opened Invariants

  /** The verdict on a finished transfer. */
  method ProcessResponse(curlOk: bool, status: StatusInfo, ctype: TypeInfo) returns (faulty: bool)
    ensures faulty <==> !Acceptable(Finished(curlOk, status, ctype))
  {
    faulty := true;
    if curlOk {
      faulty := false;
    }
    if status.StatusUnread? {
      faulty := true;
    } else if status.code != 200 {
      faulty := true;
    }
    if !faulty {
      if ctype.TypeUnread? {
        // only logged
      } else if ctype.TypeUnset? || !(DOH_CONTENT_TYPE <= ctype.text) {
        faulty := true;
      }
    }
  }

  // ---- The splitting loop, round by round ----

  /** One round: a wrapped look, no whole request, one too short, or one that arrives. */
  ghost function SplitRound(cfg: Config, s: State, at: nat, add: AddResult, stale: byte): State
    requires at < |s.clients|
  {
    var c := s.clients[at];
    if LookWraps(c.tail, stale) then s.(wrapped := true)
    else if !Complete(c.tail) then s
    else if U16(c.tail) < HEADER_LENGTH then s.(clients := WithoutClient(s.clients, at))
    else
      Arrive(cfg, s.(clients := s.clients[at := c.(tail := Rest(c.tail))]), TcpRequest(c.raddr, Payload(c.tail)), add)
  }

  ghost predicate GoesOn(tail: seq<byte>, stale: byte) {
    !LookWraps(tail, stale) && Complete(tail) && U16(tail) >= HEADER_LENGTH
  }

  /** From `s0` the messages `split` have arrived off the front of one client's input. */
  ghost predicate Splitting(cfg: Config, s0: State, at: nat, adds: seq<AddResult>, stale0: byte,
                            s: State, split: seq<Message>, stale: byte)
  {
    && at < |s0.clients| && at < |s.clients| && !s0.wrapped && |s0.clients[at].tail| <= MAX_BUFFERED
    && var c := s0.clients[at];
    && var t := s.clients[at].tail;
    && |t| <= MAX_BUFFERED && SplitSoFar(c.tail, stale0, split, t, stale)
    && s == ArriveAll(cfg, s0, c.raddr, split, adds).(clients := s0.clients[at := c.(tail := t)])
  }

  lemma SplittingStarts(cfg: Config, s: State, at: nat, adds: seq<AddResult>, stale: byte)
    requires at < |s.clients| && !s.wrapped && |s.clients[at].tail| <= MAX_BUFFERED
    ensures Splitting(cfg, s, at, adds, stale, s, [], stale)
  {
    SplitStart(s.clients[at].tail, stale);
    assert s.clients[at := s.clients[at]] == s.clients;
  }

  lemma SplittingGoesOn(cfg: Config, s0: State, at: nat, adds: seq<AddResult>, stale0: byte,
                        s: State, split: seq<Message>, stale: byte)
    requires Splitting(cfg, s0, at, adds, stale0, s, split, stale) && GoesOn(s.clients[at].tail, stale)
    ensures var t := s.clients[at].tail;
            var next := SplitRound(cfg, s, at, AddAt(adds, |split|), stale);
            && Splitting(cfg, s0, at, adds, stale0, next, split + [Payload(t)], t[1])
            && |next.clients[at].tail| < |t|
  {
    var c, t := s0.clients[at], s.clients[at].tail;
    var m, add := Payload(t), AddAt(adds, |split|);
    SplitNext(c.tail, stale0, split, t, stale);
    var u := ArriveAll(cfg, s0, c.raddr, split, adds);
    var clients := s0.clients[at := c.(tail := Rest(t))];
    assert s.clients[at := s.clients[at].(tail := Rest(t))] == clients;
    ArriveTouches(cfg, u, TcpRequest(c.raddr, m), add, clients);
    assert (split + [m])[..|split|] == split;
  }

  lemma SplittingEnds(cfg: Config, s0: State, at: nat, adds: seq<AddResult>, stale0: byte,
                      s: State, split: seq<Message>, stale: byte)
    requires Splitting(cfg, s0, at, adds, stale0, s, split, stale) && !GoesOn(s.clients[at].tail, stale)
    ensures SplitRound(cfg, s, at, AddAt(adds, |split|), stale) == SplitPending(cfg, s0, at, adds, stale0)
  {
    var c, t := s0.clients[at], s.clients[at].tail;
    assert !(Complete(t) && U16(t) >= HEADER_LENGTH);
    SplitEnd(c.tail, stale0, split, t, stale);
    hide Parse, SplitSoFar, WrapFree;
    ArriveAllTouches(cfg, s0, c.raddr, split, adds);
    assert WithoutClient(s.clients, at) == WithoutClient(s0.clients, at);
  }

  class Proxy {
    const tcp: TcpServer
    const cfg: Config
    var tcpFreed: bool
    var wrapped: bool        // a 16-bit length has wrapped; nothing after that is modelled
    var resolv: Pin
    var fetches: seq<Fetch>  // newest first
    var nextTicket: nat

    ghost var submitted: seq<Request>
    ghost var callbacks: seq<Callback>
    ghost var replies: seq<Reply>  // as handed to a transport
    ghost var pinned: seq<string>
    ghost var latest: seq<string>

    /** The fields represent a state: Snap(). */
    ghost predicate Valid()
      reads this, tcp
    {
      && (!tcpFreed ==> tcp.Valid() && tcp.limit == cfg.limit)
      && nextTicket == |submitted| && |cfg.host| <= MAX_HOST
    }

    ghost function Snap(): State
      reads this, tcp
    {
      State(tcp.clients, tcp.clientId, tcp.stopped, wrapped, resolv, pinned, latest, fetches,
            submitted, callbacks, replies)
    }

    constructor (tcp: TcpServer, cfg: Config)
      requires tcp.Valid() && tcp.limit == cfg.limit && tcp.clients == [] && tcp.clientId == 0 && !tcp.stopped
      requires |cfg.host| <= MAX_HOST
      ensures Valid() && this.tcp == tcp && this.cfg == cfg && !tcpFreed && Snap() == START
    {
      this.tcp, this.cfg := tcp, cfg;
      tcpFreed, wrapped, resolv, fetches, nextTicket := false, false, NoPin, [], 0;
      submitted, callbacks, replies, pinned, latest := [], [], [], [], [];
    }

    /** The response callback: hands a fitting response to the transport of its request. With a NULL
        buffer it touches no transport, so it may run inside one, or after one is gone. */
    method HttpsRespCb(ticket: nat, req: Request, buf: Body, sends: Sends) returns (ghost handed: seq<Reply>)
      requires if tcpFreed then buf.NoBody? else tcp.Valid()
      modifies tcp
      ensures !tcpFreed ==> tcp.Valid()
      ensures buf.NoBody? ==> unchanged(tcp)
      ensures tcp.clientId == old(tcp.clientId) && tcp.stopped == old(tcp.stopped)
      ensures handed == ReplyTo(Callback(ticket, Finished(true, Status(200), TypeUnread), buf), req)
      ensures tcp.clients == Delivered(old(tcp.clients), handed, sends.header, sends.body)
    {
      handed := [];
      if buf.Body? {
        if |buf.bytes| >= HEADER_LENGTH {
          var responseId := U16(buf.bytes);
          if req.txId == responseId {
            if req.isTcp {
              tcp.Respond(req.raddr, buf.bytes, sends.header, sends.body);
            }
            handed := [Reply(ticket, req.isTcp, req.raddr, buf.bytes)];
          }
        }
      }
    }

    /** Ends one fetch: judges it, runs its callback, then unlinks it. */
    method FetchCtxCleanup(at: nat, outcome: Outcome, sends: Sends)
      requires Valid() && at < |fetches| && (tcpFreed ==> outcome.Aborted?)
      modifies this, tcp
      ensures Valid() && tcpFreed == old(tcpFreed)
      ensures Snap() == Settle(old(Snap()), at, outcome, sends)
      ensures !Acceptable(outcome) ==> unchanged(tcp)
    {
      var ctx := fetches[at];
      var dropReply := false;
      if outcome.Aborted? {
        dropReply := true;
      } else {
        var faulty := ProcessResponse(outcome.curlOk, outcome.status, outcome.ctype);
        if faulty {
          dropReply := true;
        }
      }
      var buf := if dropReply then NoBody else ctx.body;
      ghost var handed := HttpsRespCb(ctx.ticket, ctx.request, buf, sends);
      callbacks := callbacks + [Callback(ctx.ticket, outcome, ctx.body)];
      replies := replies + handed;
      fetches := fetches[..at] + fetches[at + 1..];
    }

    /** Aborts every fetch in flight. A reset is this and a new, equally empty, curl handle. */
    method Cleanup()
      requires Valid()
      modifies this, tcp
      ensures Valid() && tcpFreed == old(tcpFreed) && unchanged(tcp)
      ensures Snap() == AbortAll(old(Snap()))
    {
      while fetches != []
        invariant Valid() && tcpFreed == old(tcpFreed) && unchanged(tcp)
        invariant AbortAll(Snap()) == AbortAll(old(Snap()))
        decreases |fetches|
      {
        AbortFirst(Snap(), Sends(Again, []));
        FetchCtxCleanup(0, Aborted, Sends(Again, []));
      }
      assert callbacks + [] == callbacks;
    }

    /** A request has arrived: discard it before bootstrapping, else start a fetch. A fetch that fails
        at once is settled here, without a reply and without touching the TCP server. */
    method DnsServerCb(isTcp: bool, raddr: Address, dnsReq: Message, add: AddResult)
      requires Valid() && |dnsReq| >= HEADER_LENGTH
      modifies this, tcp
      ensures Valid() && tcpFreed == old(tcpFreed) && unchanged(tcp)
      ensures Snap() == Arrive(cfg, old(Snap()), Request(isTcp, raddr, TxId(dnsReq), dnsReq), add)
    {
      hide Delivered, Abortions;
      var txId := U16(dnsReq);
      if cfg.usingPoller && resolv.NoPin? {
        return;
      }
      var f := Fetch(nextTicket, Request(isTcp, raddr, txId, dnsReq), resolv, NoBody);
      nextTicket := nextTicket + 1;
      submitted := submitted + [f.request];
      fetches := [f] + fetches;
      if add.AddAborted? {
        Cleanup();
      } else if add.AddFailed? {
        AbortFirst(Snap(), Sends(Again, []));
        FetchCtxCleanup(0, Aborted, Sends(Again, []));
        assert fetches == old(fetches);
      }
    }

    /** Walks the list for the fetch with this handle. */
    method FindFetch(ticket: nat) returns (cur: nat)
      ensures cur == FindTicket(fetches, ticket)
    {
      cur := 0;
      while cur < |fetches| && fetches[cur].ticket != ticket
        invariant cur <= |fetches| && forall i :: 0 <= i < cur ==> fetches[i].ticket != ticket
      {
        cur := cur + 1;
      }
    }

    /** A piece of a response body; a body that would exceed 65535 bytes is refused. */
    method WriteBuffer(at: nat, bytes: seq<byte>) returns (taken: nat)
      requires Valid() && at < |fetches|
      modifies this`fetches
      ensures Valid()
      ensures var b := old(fetches[at]).body;
              && fetches == old(fetches)[at := old(fetches[at]).(body := WithBody(b, bytes))]
              && (taken == |bytes| || (taken == 0 && WithBody(b, bytes) == b))
    {
      var f := fetches[at];
      var was := if f.body.Body? then f.body.bytes else [];
      if |was| + |bytes| > MAX_BODY {
        return 0;
      }
      fetches := fetches[at := f.(body := Body(was + bytes))];
      taken := |bytes|;
    }

    /** Looks a finished transfer up in the list and ends it. */
    method HandleDone(msg: CurlMsg)
      requires Valid() && !tcpFreed
      modifies this, tcp
      ensures Valid() && !tcpFreed && Snap() == HandleMsg(old(Snap()), msg)
    {
      hide Settle;
      if msg.Done? {
        var cur := FindFetch(msg.ticket);
        if cur < |fetches| {
          FetchCtxCleanup(cur, Finished(msg.curlOk, msg.status, msg.ctype), msg.sends);
        }
      }
    }

    /** Reads curl's messages and ends the transfers they finish. */
    method CheckMultiInfo(msgs: seq<CurlMsg>)
      requires Valid() && !tcpFreed
      modifies this, tcp
      ensures Valid() && !tcpFreed && Snap() == HandleMsgs(old(Snap()), msgs)
    {
      hide HandleMsg;
      for m := 0 to |msgs|
        invariant Valid() && !tcpFreed && Snap() == HandleMsgs(old(Snap()), msgs[..m])
      {
        assert msgs[..m + 1][..m] == msgs[..m];
        HandleDone(msgs[m]);
      }
      assert msgs[..|msgs|] == msgs;
    }

    /** The current pin can stay. */
    method Covered(addrs: seq<string>) returns (covered: bool)
      ensures covered <==> Covers(addrs, resolv)
    {
      covered := false;
      if resolv.Pinned? {
        var oldList := CutOut(resolv.text);
        if oldList.Pinned? {
          var reduced := AddrListReduced(Join(addrs), oldList.text);
          covered := !reduced;
        }
      }
    }

    /** A lookup has brought a list: keep the pin when it is still covered, else replace it and abort
        whatever was started with the old one. */
    method DnsPollCb(addrs: seq<string>)
      requires Valid() && !tcpFreed
      modifies this, tcp
      ensures Valid() && !tcpFreed && unchanged(tcp) && Snap() == LookUp(cfg, old(Snap()), addrs)
    {
      hide Covers, PinText, AbortAll;
      var covered := Covered(addrs);
      latest := addrs;
      if !covered {
        pinned := addrs;
        resolv := Pinned(PinText(cfg.host, Join(addrs)));
        Cleanup();
      }
    }

    /** One round of the splitting loop. Whatever the fetch started here does at once, the client list and
        this client's buffer are touched only by taking the request out. */
    method SplitOne(at: nat, add: AddResult, stale: byte) returns (more: bool)
      requires Valid() && !tcpFreed && at < |tcp.clients|
      modifies this, tcp
      ensures Valid() && !tcpFreed && Snap() == SplitRound(cfg, old(Snap()), at, add, stale)
      ensures more <==> GoesOn(old(tcp.clients[at]).tail, stale)
    {
      hide Arrive;
      var r := tcp.NextRequest(at, stale);
      more := false;
      match r
      case Wrapped => wrapped := true;
      case NoneYet =>
      case Whole(request) =>
        if |request| < HEADER_LENGTH {
          ghost var now := tcp.clients;
          tcp.RemoveClient(at);
          assert WithoutClient(now, at) == WithoutClient(old(tcp.clients), at);
        } else {
          more := true;
          DnsServerCb(true, tcp.clients[at].raddr, request, add);
        }
    }

    /** The splitting loop, re-entered by the callback of any fetch that fails at once. */
    method SplitRequests(at: nat, adds: seq<AddResult>, stale: byte)
      requires Valid() && !tcpFreed && at < |tcp.clients| && !wrapped && |tcp.clients[at].tail| <= MAX_BUFFERED
      modifies this, tcp
      ensures Valid() && !tcpFreed && Snap() == SplitPending(cfg, old(Snap()), at, adds, stale)
    {
      ghost var s0 := Snap();
      SplittingStarts(cfg, s0, at, adds, stale);
      hide Splitting, SplitPending, SplitRound, GoesOn;
      var k, more, behind := 0, true, stale;
      ghost var split: seq<Message> := [];
      while more
        invariant Valid() && !tcpFreed
        invariant more ==> k == |split| && at < |tcp.clients|
        invariant more ==> Splitting(cfg, s0, at, adds, stale, Snap(), split, behind)
        invariant !more ==> Snap() == SplitPending(cfg, s0, at, adds, stale)
        decreases more, if more then |tcp.clients[at].tail| else 0
      {
        ghost var s := Snap();
        var tail := tcp.clients[at].tail;
        if GoesOn(tail, behind) {
          SplittingGoesOn(cfg, s0, at, adds, stale, s, split, behind);
        } else {
          SplittingEnds(cfg, s0, at, adds, stale, s, split, behind);
        }
        more := SplitOne(at, AddAt(adds, k), behind);
        if more {
          split := split + [Payload(tail)];
          behind := tail[1];
        }
        k := k + 1;
      }
    }

    /** A TCP socket is readable. */
    method TcpReadCb(at: nat, recv: Recv, adds: seq<AddResult>, stale: byte)
      requires Valid() && !tcpFreed && at < |tcp.clients| && !wrapped
      modifies this, tcp
      ensures Valid() && !tcpFreed && Snap() == ReadFrom(cfg, old(Snap()), at, recv, adds, stale)
    {
      hide SplitPending;
      if !recv.Data? || recv.bytes == [] {
        if !recv.WouldBlock? {
          tcp.RemoveClient(at);
        }
        return;
      }
      var kept := tcp.Receive(at, recv.bytes);
      if kept {
        SplitRequests(at, adds, stale);
      }
    }

    /** A UDP datagram, with its full length even if longer than the buffer. */
    method UdpReadCb(raddr: Address, datagram: Message, add: AddResult)
      requires Valid() && !tcpFreed
      modifies this, tcp
      ensures Valid() && !tcpFreed && unchanged(tcp)
      ensures Snap() == if HEADER_LENGTH <= |datagram| <= READ_SIZE
                        then Arrive(cfg, old(Snap()), Request(false, raddr, TxId(datagram), datagram), add)
                        else old(Snap())
    {
      hide Arrive;
      if |datagram| > READ_SIZE || |datagram| < HEADER_LENGTH {
        return;
      }
      DnsServerCb(false, raddr, datagram, add);
    }

    /** A piece of a body has come for some transfer. */
    method BodyCb(ticket: nat, bytes: seq<byte>)
      requires Valid() && !tcpFreed && !wrapped
      modifies this
      ensures Valid() && !tcpFreed && Snap() == Next(cfg, old(Snap()), BodyData(ticket, bytes))
    {
      hide WithBody;
      var at := FindFetch(ticket);
      if at < |fetches| {
        var taken := WriteBuffer(at, bytes);
      }
    }

    /** A TCP connection waits, a TCP client has been idle for too long, or the TCP server is to stop. */
    method TcpServerCb(e: Event)
      requires Valid() && !tcpFreed && !wrapped && (e.TcpAccept? || e.TcpIdle? || e.TcpStop?)
      modifies tcp
      ensures Valid() && Snap() == Next(cfg, old(Snap()), e)
    {
      match e
      case TcpAccept(r, raddr) =>
        if tcp.accepting {
          tcp.AcceptCb(r, raddr);
        }
      case TcpIdle(at) =>
        if at < |tcp.clients| {
          tcp.RemoveClient(at);
        }
      case TcpStop => tcp.Stop();
      case _ =>
    }

    /** One event, as the machine has it. */
    method HandleEvent(e: Event)
      requires Valid() && !tcpFreed
      modifies this, tcp
      ensures Valid() && !tcpFreed && Snap() == Next(cfg, old(Snap()), e)
    {
      hide Arrive, ReadFrom, HandleMsgs, AbortAll, LookUp;
      if wrapped {
        return;
      }
      match e {
        case UdpData(raddr, datagram, add) => UdpReadCb(raddr, datagram, add);
        case TcpAccept(_, _) => TcpServerCb(e);
        case TcpData(at, recv, adds, stale) => if at < |tcp.clients| { TcpReadCb(at, recv, adds, stale); }
        case TcpIdle(_) => TcpServerCb(e);
        case TcpStop => TcpServerCb(e);
        case BodyData(ticket, bytes) => BodyCb(ticket, bytes);
        case CurlMsgs(msgs) => CheckMultiInfo(msgs);
        case ResetTimer => Cleanup();
        case LookedUp(addrs) => DnsPollCb(addrs);
      }
    }

    /** Any run of events. */
    method Run(events: seq<Event>)
      requires Valid() && !tcpFreed
      modifies this, tcp
      ensures Valid() && !tcpFreed && Snap() == After(cfg, old(Snap()), events)
    {
      hide Next;
      for i := 0 to |events|
        invariant Valid() && !tcpFreed && Snap() == After(cfg, old(Snap()), events[..i])
      {
        assert events[..i + 1][..i] == events[..i];
        HandleEvent(events[i]);
      }
      assert events[..|events|] == events;
    }

    /** The order of events at exit: stop the TCP server, run what is left of the loop, free the server,
        then abort the rest, without using the freed server. */
    method Shutdown(rest: seq<Event>)
      requires Valid() && !tcpFreed
      modifies this, tcp
      ensures Valid() && tcpFreed && Snap() == AbortAll(After(cfg, Next(cfg, old(Snap()), TcpStop), rest))
    {
      hide Next, After, AbortAll;
      HandleEvent(TcpStop);
      Run(rest);
      tcpFreed := true;
      Cleanup();
    }
  }

  lemma WholeLife(cfg: Config, events: seq<Event>, rest: seq<Event>)
    requires |cfg.host| <= MAX_HOST
    ensures Life(cfg, events, rest) == AbortAll(After(cfg, Next(cfg, After(cfg, START, events), TcpStop), rest))
  {
    hide Next, AbortAll;
    AfterConcat(cfg, START, events + [TcpStop], rest);
    assert (events + [TcpStop])[..|events|] == events;
  }

  /** A whole life of the proxy reaches the state that the machine's runs are proved about. */
  method Lifetime(cfg: Config, events: seq<Event>, rest: seq<Event>) returns (ghost last: State)
    requires |cfg.host| <= MAX_HOST && cfg.limit >= 1
    ensures last == Life(cfg, events, rest)
    ensures Books(last) && last.fetches == []
    ensures forall k :: 0 <= k < |last.submitted| ==> CalledBackOnce(last.callbacks, k)
  {
    var tcp := new TcpServer(cfg.limit);
    var proxy := new Proxy(tcp, cfg);
    proxy.Run(events);
    proxy.Shutdown(rest);
    last := proxy.Snap();
    WholeLife(cfg, events, rest);
    LifeSettles(cfg, events, rest);
  }
}
