/** What every event of the proxy keeps, and every run: exactly-once completion, current pins, admission. */
module Invariants {
  import opened Bytes
  import opened Framing
  import opened TcpServers
  import opened TcpClients
  import opened AddressLists
  import opened Pinning
  import opened Ledgers
  import opened Machines

  ghost predicate Books(s: State) {
    && ExactlyOnce(s.fetches, s.callbacks, s.submitted)
    && s.replies == RepliesOf(s.callbacks, s.submitted)
  }

  /** Fetches started with this pin, their bodies within the limit. */
  ghost predicate AllCurrent(fetches: seq<Fetch>, pin: Pin) {
    forall i :: 0 <= i < |fetches| ==>
      fetches[i].pin == pin && (fetches[i].body.Body? ==> |fetches[i].body.bytes| <= MAX_BODY)
  }

  /** Nothing is fetched before the first pin; all that is in flight uses the current pin; and the pin
      lists addresses of the latest lookup. */
  ghost predicate Pins(cfg: Config, s: State) {
    && (cfg.usingPoller && s.submitted != [] ==> s.resolv.Pinned?)
    && AllCurrent(s.fetches, s.resolv)
    && (s.resolv.Pinned? ==>
          && s.resolv.text == cfg.host + MARK + Join(s.pinned)
          && Listable(s.pinned) && Included(s.pinned, s.latest))
  }

  /** Clients are within the limit and in order, and their sockets have taken whole frames only. */
  ghost predicate Peers(cfg: Config, s: State) {
    && Listed(s.clients, s.clientId) && |s.clients| <= cfg.limit
    && (s.stopped ==> s.clients == [])
  }

  ghost predicate Inv(cfg: Config, s: State) {
    Books(s) && Pins(cfg, s) && Peers(cfg, s) && AnswersOwed(s.clients, s.replies)
  }

  // ---- Exactly-once completion ----

  lemma BookedRequest(s: State, at: nat)
    requires Books(s) && at < |s.fetches|
    ensures s.fetches[at].ticket < |s.submitted| && s.submitted[s.fetches[at].ticket] == s.fetches[at].request
  {
  }

  lemma SettleBooks(s: State, at: nat, outcome: Outcome, sends: Sends)
    requires Books(s) && at < |s.fetches|
    ensures Books(Settle(s, at, outcome, sends))
  {
    hide ExactlyOnce, RepliesOf;
    var f := s.fetches[at];
    BookedRequest(s, at);
    SettleKeeps(s.fetches, s.callbacks, s.submitted, at, Callback(f.ticket, outcome, f.body));
  }

  lemma {:induction false} AbortAllBooks(s: State)
    requires Books(s)
    ensures Books(AbortAll(s))
    decreases |s.fetches|
  {
    if s.fetches == [] {
      assert s.callbacks + [] == s.callbacks;
    } else {
      var sends := Sends(Again, []);
      SettleBooks(s, 0, Aborted, sends);
      AbortFirst(s, sends);
      AbortAllBooks(Settle(s, 0, Aborted, sends));
    }
  }

  lemma SubmitBooks(s: State, f: Fetch)
    requires Books(s) && f.ticket == |s.submitted|
    ensures Books(s.(submitted := s.submitted + [f.request], fetches := [f] + s.fetches))
  {
    SubmitKeeps(s.fetches, s.callbacks, s.submitted, f);
    RepliesUnaffected(s.callbacks, s.submitted, f.request);
  }

  lemma ArriveBooks(cfg: Config, s: State, request: Request, add: AddResult)
    requires Books(s)
    ensures Books(Arrive(cfg, s, request, add))
  {
    hide ExactlyOnce, RepliesOf;
    if Ready(cfg, s) {
      var f := Fetch(|s.submitted|, request, s.resolv, NoBody);
      var t := s.(submitted := s.submitted + [request], fetches := [f] + s.fetches);
      SubmitBooks(s, f);
      match add
      case AddOk =>
      case AddFailed =>
        SettleBooks(t, 0, Aborted, Sends(Again, []));
        assert WithoutFetch(t.fetches, 0) == s.fetches;
      case AddAborted => AbortAllBooks(t);
    }
  }

  lemma {:induction false} ArriveAllBooks(cfg: Config, s: State, raddr: Address, ms: seq<Message>, adds: seq<AddResult>)
    requires Books(s)
    ensures Books(ArriveAll(cfg, s, raddr, ms, adds))
  {
    hide ExactlyOnce, RepliesOf;
    if ms == [] {
    } else {
      var k := |ms| - 1;
      ArriveAllBooks(cfg, s, raddr, ms[..k], adds);
      ArriveBooks(cfg, ArriveAll(cfg, s, raddr, ms[..k], adds), TcpRequest(raddr, ms[k]), AddAt(adds, k));
    }
  }

  lemma {:induction false} MsgsBooks(s: State, msgs: seq<CurlMsg>)
    requires Books(s)
    ensures Books(HandleMsgs(s, msgs))
  {
    hide ExactlyOnce, RepliesOf;
    if msgs == [] {
    } else {
      var k := |msgs| - 1;
      MsgsBooks(s, msgs[..k]);
      var t, msg := HandleMsgs(s, msgs[..k]), msgs[k];
      if msg.Done? && FindTicket(t.fetches, msg.ticket) < |t.fetches| {
        SettleBooks(t, FindTicket(t.fetches, msg.ticket), Finished(msg.curlOk, msg.status, msg.ctype), msg.sends);
      }
    }
  }

  /** Exactly-once completion and the replies that go with it survive every event. */
  lemma NextBooks(cfg: Config, s: State, e: Event)
    requires |cfg.host| <= MAX_HOST && Books(s)
    ensures Books(Next(cfg, s, e))
  {
    hide ExactlyOnce, RepliesOf, Parse, Covers, PinText, Delivered;
    if !s.wrapped {
      match e
      case UdpData(raddr, d, add) => ArriveBooks(cfg, s, Request(false, raddr, TxId(d), d), add);
      case TcpData(at, recv, adds, stale) =>
        if at < |s.clients| && recv.Data? {
          var c := s.clients[at];
          var t := s.(clients := s.clients[at := c.(tail := c.tail + recv.bytes)]);
          ArriveAllBooks(cfg, t, c.raddr, Parse(c.tail + recv.bytes).requests, adds);
        }
      case BodyData(ticket, bytes) =>
        var at := FindTicket(s.fetches, ticket);
        if at < |s.fetches| {
          SameTickets(s.fetches, s.callbacks, s.submitted, at, WithBody(s.fetches[at].body, bytes));
        }
      case CurlMsgs(msgs) => MsgsBooks(s, msgs);
      case ResetTimer => AbortAllBooks(s);
      case LookedUp(addrs) =>
        AbortAllBooks(s.(latest := addrs, resolv := Pinned(PinText(cfg.host, Join(addrs))), pinned := addrs));
      case _ =>
    }
  }

  // ---- Clients and what they were sent ----

  /** A read changes one client's buffer or takes the client off the list; it changes no reply and no pin. */
  lemma ReadTouches(cfg: Config, s: State, at: nat, recv: Recv, adds: seq<AddResult>, stale: byte)
    requires at < |s.clients|
    ensures var t := ReadFrom(cfg, s, at, recv, adds, stale);
            && SameElse(s, t.(clients := s.clients, wrapped := s.wrapped))
            && (t.clients == s.clients || t.clients == WithoutClient(s.clients, at)
                || exists tail :: t.clients == s.clients[at := s.clients[at].(tail := tail)])
  {
    hide Parse, WrapFree;
    var c := s.clients[at];
    if recv.Data? {
      var all := c.tail + recv.bytes;
      var u := s.(clients := s.clients[at := c.(tail := all)]);
      ArriveAllTouches(cfg, u, c.raddr, Parse(all).requests, adds);
      assert WithoutClient(u.clients, at) == WithoutClient(s.clients, at);
      assert u.clients[at := u.clients[at].(tail := Parse(all).rest)] == s.clients[at := c.(tail := Parse(all).rest)];
    }
  }

  /** What a read of data does to the clients and the requests. */
  lemma DataRead(cfg: Config, s: State, at: nat, recv: Recv, adds: seq<AddResult>, stale: byte)
    requires at < |s.clients| && recv.Data?
    ensures var t, c := ReadFrom(cfg, s, at, recv, adds, stale), s.clients[at];
            var q := Parse(c.tail + recv.bytes);
            if recv.bytes == [] || |c.tail| + |recv.bytes| > MAX_BUFFERED then
              t == s.(clients := WithoutClient(s.clients, at))
            else
              && t.clients == (if Blocked(q.rest) then WithoutClient(s.clients, at)
                               else s.clients[at := c.(tail := q.rest)])
              && t.submitted == s.submitted + (if Ready(cfg, s) then TcpRequests(c.raddr, q.requests) else [])
              && t.wrapped == (s.wrapped || !WrapFree(c.tail + recv.bytes, stale))
  {
    hide Parse, WrapFree;
    var c := s.clients[at];
    var all := c.tail + recv.bytes;
    var u := s.(clients := s.clients[at := c.(tail := all)]);
    ArriveAllTouches(cfg, u, c.raddr, Parse(all).requests, adds);
    assert WithoutClient(u.clients, at) == WithoutClient(s.clients, at);
    assert u.clients[at := u.clients[at].(tail := Parse(all).rest)] == s.clients[at := c.(tail := Parse(all).rest)];
  }

  lemma {:induction false} MsgsPeers(cfg: Config, s: State, msgs: seq<CurlMsg>)
    requires Peers(cfg, s)
    ensures Peers(cfg, HandleMsgs(s, msgs)) && SameReaders(s.clients, HandleMsgs(s, msgs).clients)
    ensures AnswersOwed(s.clients, s.replies) ==> AnswersOwed(HandleMsgs(s, msgs).clients, HandleMsgs(s, msgs).replies)
  {
    if msgs == [] {
    } else {
      hide Listed, AnswersOwed, Delivered;
      var k := |msgs| - 1;
      MsgsPeers(cfg, s, msgs[..k]);
      var t, msg := HandleMsgs(s, msgs[..k]), msgs[k];
      var at := FindTicket(t.fetches, if msg.Done? then msg.ticket else 0);
      if msg.Done? && at < |t.fetches| {
        var cb := Callback(t.fetches[at].ticket, Finished(msg.curlOk, msg.status, msg.ctype), t.fetches[at].body);
        var reply := ReplyTo(cb, t.fetches[at].request);
        DeliveredListed(t.clients, t.clientId, reply, msg.sends.header, msg.sends.body);
        DeliveredReaders(t.clients, reply, msg.sends.header, msg.sends.body);
        ReadersOfReaders(s.clients, t.clients, HandleMsgs(s, msgs).clients);
        if AnswersOwed(t.clients, t.replies) {
          OwedDelivered(t.clients, t.replies, reply, msg.sends.header, msg.sends.body);
        }
      }
    }
  }

  lemma WithoutKeepsPeers(cfg: Config, s: State, at: nat)
    requires Peers(cfg, s) && at < |s.clients|
    ensures Peers(cfg, s.(clients := WithoutClient(s.clients, at)))
    ensures AnswersOwed(s.clients, s.replies) ==> AnswersOwed(WithoutClient(s.clients, at), s.replies)
  {
    hide Listed, AnswersOwed;
    ListedWithout(s.clients, s.clientId, at);
    if AnswersOwed(s.clients, s.replies) {
      OwedWithout(s.clients, s.replies, at);
    }
  }

  lemma TailKeepsPeers(cfg: Config, s: State, at: nat, tail: seq<byte>)
    requires Peers(cfg, s) && at < |s.clients|
    ensures var clients := s.clients[at := s.clients[at].(tail := tail)];
            && Peers(cfg, s.(clients := clients))
            && (AnswersOwed(s.clients, s.replies) ==> AnswersOwed(clients, s.replies))
  {
    hide Listed, AnswersOwed;
    ListedWithTail(s.clients, s.clientId, at, tail);
    if AnswersOwed(s.clients, s.replies) {
      OwedWithTail(s.clients, s.replies, at, tail);
    }
  }

  lemma NoClients(newest: nat, replies: seq<Reply>)
    ensures Listed([], newest) && AnswersOwed([], replies)
  {
  }

  /** Admission, order and whole frames survive every event, and so does that TCP clients are sent only
      replies to requests from their address. */
  lemma NextPeers(cfg: Config, s: State, e: Event)
    requires |cfg.host| <= MAX_HOST && Peers(cfg, s)
    ensures Peers(cfg, Next(cfg, s, e))
    ensures AnswersOwed(s.clients, s.replies) ==> AnswersOwed(Next(cfg, s, e).clients, Next(cfg, s, e).replies)
  {
    hide Listed, AnswersOwed, Parse, Abortions, Covers, PinText, ReadFrom;
    if !s.wrapped {
      match e
      case TcpAccept(r, raddr) =>
        var c := Client(s.clientId + 1, if r.Accepted? then r.sock else -1, raddr, [], [], []);
        ListedWithNew(s.clients, s.clientId, c);
        if AnswersOwed(s.clients, s.replies) {
          OwedWithNew(s.clients, s.replies, c);
        }
      case TcpData(at, recv, adds, stale) =>
        if at < |s.clients| {
          ReadTouches(cfg, s, at, recv, adds, stale);
          var t := ReadFrom(cfg, s, at, recv, adds, stale);
          WithoutKeepsPeers(cfg, s, at);
          if tail :| t.clients == s.clients[at := s.clients[at].(tail := tail)] {
            TailKeepsPeers(cfg, s, at, tail);
          }
        }
      case TcpIdle(at) =>
        if at < |s.clients| {
          WithoutKeepsPeers(cfg, s, at);
        }
      case TcpStop => NoClients(s.clientId, s.replies);
      case CurlMsgs(msgs) => MsgsPeers(cfg, s, msgs);
      case _ =>
    }
  }

  // ---- Pins ----

  lemma ArrivePins(cfg: Config, s: State, request: Request, add: AddResult)
    requires Pins(cfg, s)
    ensures Pins(cfg, Arrive(cfg, s, request, add))
  {
  }

  lemma {:induction false} ArriveAllPins(cfg: Config, s: State, raddr: Address, ms: seq<Message>, adds: seq<AddResult>)
    requires Pins(cfg, s)
    ensures Pins(cfg, ArriveAll(cfg, s, raddr, ms, adds))
  {
    if ms == [] {
    } else {
      var k := |ms| - 1;
      ArriveAllPins(cfg, s, raddr, ms[..k], adds);
      ArrivePins(cfg, ArriveAll(cfg, s, raddr, ms[..k], adds), TcpRequest(raddr, ms[k]), AddAt(adds, k));
    }
  }

  lemma {:induction false} MsgsPins(cfg: Config, s: State, msgs: seq<CurlMsg>)
    requires Pins(cfg, s)
    ensures Pins(cfg, HandleMsgs(s, msgs))
  {
    hide Delivered, ReplyTo, Included;
    if msgs == [] {
    } else {
      MsgsPins(cfg, s, msgs[..|msgs| - 1]);
      var t := HandleMsgs(s, msgs[..|msgs| - 1]);
      var u := HandleMsgs(s, msgs);
      assert forall i :: 0 <= i < |u.fetches| ==> u.fetches[i] in t.fetches;
    }
  }

  lemma {:induction false} AbortionsLength(fetches: seq<Fetch>)
    ensures |Abortions(fetches)| == |fetches|
  {
    if fetches == [] {
    } else {
      AbortionsLength(fetches[1..]);
    }
  }

  lemma LookUpPins(cfg: Config, s: State, addrs: seq<string>)
    requires Proper(cfg) && Pins(cfg, s) && Listable(addrs)
    ensures Pins(cfg, LookUp(cfg, s, addrs))
  {
    hide AllPresent, PinText, CutOut;
    PinTextNotCut(cfg.host, Join(addrs));
    if s.resolv.Pinned? {
      CutOutPutIn(cfg.host, Join(s.pinned));
      CoveredMeansIncluded(addrs, s.pinned);
    }
  }

  /** No fetch before the first pin, none with an old pin, and the pin inside the latest lookup. */
  lemma NextPins(cfg: Config, s: State, e: Event)
    requires Proper(cfg) && Pins(cfg, s) && (e.LookedUp? ==> Listable(e.addrs))
    ensures Pins(cfg, Next(cfg, s, e))
  {
    hide Parse, LookUp, Included, Delivered;
    if !s.wrapped {
      match e
      case UdpData(raddr, d, add) => ArrivePins(cfg, s, Request(false, raddr, TxId(d), d), add);
      case TcpData(at, recv, adds, stale) =>
        if at < |s.clients| && recv.Data? {
          var c := s.clients[at];
          var t := s.(clients := s.clients[at := c.(tail := c.tail + recv.bytes)]);
          ArriveAllPins(cfg, t, c.raddr, Parse(c.tail + recv.bytes).requests, adds);
        }
      case CurlMsgs(msgs) => MsgsPins(cfg, s, msgs);
      case LookedUp(addrs) => LookUpPins(cfg, s, addrs);
      case _ =>
    }
  }

  // ---- Over whole runs ----

  ghost predicate LookupsListable(events: seq<Event>) {
    forall i :: 0 <= i < |events| && events[i].LookedUp? ==> Listable(events[i].addrs)
  }

  /** Every run keeps every invariant. */
  lemma {:induction false} InvAlways(cfg: Config, s: State, events: seq<Event>)
    requires Proper(cfg) && Inv(cfg, s) && LookupsListable(events)
    ensures Inv(cfg, After(cfg, s, events))
    decreases |events|
  {
    hide Books, Pins, Peers, AnswersOwed, Next;
    if events == [] {
    } else {
      var n := |events| - 1;
      InvAlways(cfg, s, events[..n]);
      var t := After(cfg, s, events[..n]);
      NextBooks(cfg, t, events[n]);
      NextPins(cfg, t, events[n]);
      NextPeers(cfg, t, events[n]);
    }
  }

  lemma StartInv(cfg: Config)
    ensures Inv(cfg, START)
  {
  }

  lemma {:induction false} PeersAlways(cfg: Config, events: seq<Event>)
    requires |cfg.host| <= MAX_HOST
    ensures Peers(cfg, After(cfg, START, events))
    decreases |events|
  {
    if events == [] {
    } else {
      hide Peers, Next;
      PeersAlways(cfg, events[..|events| - 1]);
      NextPeers(cfg, After(cfg, START, events[..|events| - 1]), events[|events| - 1]);
    }
  }

  lemma StartBooks()
    ensures Books(START)
  {
  }

  lemma {:induction false} BooksAlways(cfg: Config, s: State, events: seq<Event>)
    requires |cfg.host| <= MAX_HOST && Books(s)
    ensures Books(After(cfg, s, events))
    decreases |events|
  {
    if events == [] {
    } else {
      hide Books, Next;
      BooksAlways(cfg, s, events[..|events| - 1]);
      NextBooks(cfg, After(cfg, s, events[..|events| - 1]), events[|events| - 1]);
    }
  }

  /** Over a whole life every request gets its callback exactly once, none is left in flight, and the
      replies are exactly those the callbacks call for. */
  lemma LifeSettles(cfg: Config, events: seq<Event>, rest: seq<Event>)
    requires |cfg.host| <= MAX_HOST
    ensures var t := Life(cfg, events, rest);
            && Books(t) && t.fetches == []
            && forall k :: 0 <= k < |t.submitted| ==> CalledBackOnce(t.callbacks, k)
  {
    hide After, RepliesOf, Abortions, CalledBackOnce;
    StartBooks();
    var u := After(cfg, START, events + [TcpStop] + rest);
    BooksAlways(cfg, START, events + [TcpStop] + rest);
    AbortAllBooks(u);
    var t := AbortAll(u);
    forall k | 0 <= k < |t.submitted| ensures CalledBackOnce(t.callbacks, k) {
      AllSettled(t.callbacks, t.submitted, k);
    }
  }

  /** The pinned addresses all count as listed: each has under 50 characters, and the first listed address
      that contains it is it. */
  ghost predicate AllStillListed(addrs: seq<string>, pinned: seq<string>) {
    forall i :: 0 <= i < |pinned| ==> |pinned[i]| < 50 && FirstHolder(addrs, pinned[i])
  }

  /** The new list is pinned and nothing is left in flight. */
  ghost predicate PinnedAnew(cfg: Config, s: State, t: State, addrs: seq<string>) {
    && t.resolv == Pinned(cfg.host + ":443:" + Join(addrs)) && t.pinned == addrs && t.latest == addrs
    && t.fetches == [] && |t.callbacks| == |s.callbacks| + |s.fetches|
    && t.replies == s.replies && t.submitted == s.submitted && t.clients == s.clients
  }

  lemma LookUpIs(cfg: Config, s: State, addrs: seq<string>)
    requires Proper(cfg) && Pins(cfg, s) && Listable(addrs)
    ensures if s.resolv.Pinned? && AllStillListed(addrs, s.pinned) then LookUp(cfg, s, addrs) == s.(latest := addrs)
            else PinnedAnew(cfg, s, LookUp(cfg, s, addrs), addrs)
  {
    hide PinText, CutOut, AllPresent, FirstHolder, Included;
    PinTextNotCut(cfg.host, Join(addrs));
    AbortionsLength(s.fetches);
    if s.resolv.Pinned? {
      CutOutPutIn(cfg.host, Join(s.pinned));
      CoveredExactly(addrs, s.pinned);
    }
  }

  /** After every run, a lookup keeps the pin and everything in flight if and only if all pinned addresses
      count as listed. Otherwise the new list is pinned and everything in flight is aborted. */
  lemma LookUpExactly(cfg: Config, events: seq<Event>, addrs: seq<string>)
    requires Proper(cfg) && LookupsListable(events) && Listable(addrs) && !After(cfg, START, events).wrapped
    ensures var s, t := After(cfg, START, events), After(cfg, START, events + [LookedUp(addrs)]);
            if s.resolv.Pinned? && AllStillListed(addrs, s.pinned) then t == s.(latest := addrs)
            else PinnedAnew(cfg, s, t, addrs)
  {
    hide Books, Pins, Peers, AnswersOwed, LookUp, AllStillListed, PinnedAnew, Listable;
    assert (events + [LookedUp(addrs)])[..|events|] == events;
    StartInv(cfg);
    InvAlways(cfg, START, events);
    LookUpIs(cfg, After(cfg, START, events), addrs);
  }

  // ---- Histories only grow ----

  lemma {:induction false} ArriveAllGrows(cfg: Config, s: State, raddr: Address, ms: seq<Message>, adds: seq<AddResult>)
    ensures s.callbacks <= ArriveAll(cfg, s, raddr, ms, adds).callbacks
  {
    if ms == [] {
    } else {
      ArriveAllGrows(cfg, s, raddr, ms[..|ms| - 1], adds);
    }
  }

  lemma {:induction false} MsgsGrow(s: State, msgs: seq<CurlMsg>)
    ensures var t := HandleMsgs(s, msgs);
            && s.callbacks <= t.callbacks && s.replies <= t.replies
            && t == s.(clients := t.clients, fetches := t.fetches, callbacks := t.callbacks, replies := t.replies)
  {
    if msgs == [] {
    } else {
      MsgsGrow(s, msgs[..|msgs| - 1]);
    }
  }

  /** Requests, callbacks and replies are never taken back; replies come only with finished transfers,
      requests only with data from a transport; a pin is never lost and no client id reused. */
  lemma NextGrows(cfg: Config, s: State, e: Event)
    requires |cfg.host| <= MAX_HOST
    ensures var t := Next(cfg, s, e);
            && s.submitted <= t.submitted && s.callbacks <= t.callbacks && s.replies <= t.replies
            && (s.resolv.Pinned? ==> t.resolv.Pinned?) && s.clientId <= t.clientId && (s.wrapped ==> t.wrapped)
            && (t.replies != s.replies ==> e.CurlMsgs?)
            && (t.submitted != s.submitted ==> e.UdpData? || e.TcpData?)
  {
    hide Parse, Covers, PinText, WrapFree;
    if !s.wrapped {
      match e
      case TcpData(at, recv, adds, stale) =>
        if at < |s.clients| && recv.Data? {
          var c := s.clients[at];
          var t := s.(clients := s.clients[at := c.(tail := c.tail + recv.bytes)]);
          ArriveAllTouches(cfg, t, c.raddr, Parse(c.tail + recv.bytes).requests, adds);
          ArriveAllGrows(cfg, t, c.raddr, Parse(c.tail + recv.bytes).requests, adds);
        }
      case CurlMsgs(msgs) => MsgsGrow(s, msgs);
      case _ =>
    }
  }

  lemma {:induction false} AfterGrows(cfg: Config, s: State, events: seq<Event>)
    requires |cfg.host| <= MAX_HOST
    ensures var t := After(cfg, s, events);
            && s.submitted <= t.submitted && s.callbacks <= t.callbacks && s.replies <= t.replies
            && (s.resolv.Pinned? ==> t.resolv.Pinned?)
            && ((forall i :: 0 <= i < |events| ==> !events[i].CurlMsgs?) ==> t.replies == s.replies)
            && ((forall i :: 0 <= i < |events| ==> !events[i].UdpData? && !events[i].TcpData?)
                ==> t.submitted == s.submitted)
    decreases |events|
  {
    if events == [] {
    } else {
      hide Next;
      var n := |events| - 1;
      AfterGrows(cfg, s, events[..n]);
      NextGrows(cfg, After(cfg, s, events[..n]), events[n]);
    }
  }
}
