/** Where the bytes of a reply come from, over whole runs. */
module Replies {
  import opened Bytes
  import opened Framing
  import opened TcpServers
  import opened TcpClients
  import opened AddressLists
  import opened Pinning
  import opened Ledgers
  import opened Machines
  import opened Invariants
  import opened Requests

  /** The pieces of body accepted for a request over a run: those that come while it is in flight and do not
      take the sum of their lengths over 65535. */
  ghost function Pieces(cfg: Config, events: seq<Event>, ticket: nat): seq<seq<byte>>
    requires |cfg.host| <= MAX_HOST
  {
    if events == [] then []
    else
      var n := |events| - 1;
      var s, e, taken := After(cfg, START, events[..n]), events[n], Pieces(cfg, events[..n], ticket);
      if !s.wrapped && e.BodyData? && e.ticket == ticket && InFlight(s.fetches, ticket)
         && |Flatten(taken)| + |e.bytes| <= 65535
      then taken + [e.bytes] else taken
  }

  /** Those pieces one behind the other; nothing was received without one. */
  ghost function Received(cfg: Config, events: seq<Event>, ticket: nat): Body
    requires |cfg.host| <= MAX_HOST
  {
    var taken := Pieces(cfg, events, ticket);
    if taken == [] then NoBody else Body(Flatten(taken))
  }

  /** Every body in flight, and every body handed to a callback, is what was received for its request. */
  ghost predicate BodiesAre(s: State, received: nat -> Body) {
    && (forall i :: 0 <= i < |s.fetches| ==> s.fetches[i].body == received(s.fetches[i].ticket))
    && (forall i :: 0 <= i < |s.callbacks| ==> s.callbacks[i].received == received(s.callbacks[i].ticket))
    && (forall k: nat :: k >= |s.submitted| ==> received(k) == NoBody)
  }

  lemma SettleBodies(s: State, at: nat, outcome: Outcome, sends: Sends, r: nat -> Body)
    requires BodiesAre(s, r) && at < |s.fetches|
    ensures BodiesAre(Settle(s, at, outcome, sends), r)
  {
    var t := Settle(s, at, outcome, sends);
    assert forall i :: 0 <= i < |t.fetches| ==> t.fetches[i] == s.fetches[if i < at then i else i + 1];
  }

  lemma {:induction false} AbortAllBodies(s: State, r: nat -> Body)
    requires BodiesAre(s, r)
    ensures BodiesAre(AbortAll(s), r)
    decreases |s.fetches|
  {
    if s.fetches == [] {
      assert s.callbacks + [] == s.callbacks;
    } else {
      hide BodiesAre;
      var sends := Sends(Again, []);
      SettleBodies(s, 0, Aborted, sends, r);
      AbortFirst(s, sends);
      AbortAllBodies(Settle(s, 0, Aborted, sends), r);
    }
  }

  lemma ArriveBodies(cfg: Config, s: State, request: Request, add: AddResult, r: nat -> Body)
    requires BodiesAre(s, r)
    ensures BodiesAre(Arrive(cfg, s, request, add), r)
  {
    if Ready(cfg, s) && add.AddAborted? {
      var f := Fetch(|s.submitted|, request, s.resolv, NoBody);
      AbortAllBodies(s.(submitted := s.submitted + [request], fetches := [f] + s.fetches), r);
    }
  }

  lemma {:induction false} ArriveAllBodies(cfg: Config, s: State, raddr: Address, ms: seq<Message>,
                                           adds: seq<AddResult>, r: nat -> Body)
    requires BodiesAre(s, r)
    ensures BodiesAre(ArriveAll(cfg, s, raddr, ms, adds), r)
  {
    if ms == [] {
    } else {
      hide BodiesAre, Arrive;
      var k := |ms| - 1;
      ArriveAllBodies(cfg, s, raddr, ms[..k], adds, r);
      ArriveBodies(cfg, ArriveAll(cfg, s, raddr, ms[..k], adds), TcpRequest(raddr, ms[k]), AddAt(adds, k), r);
    }
  }

  lemma {:induction false} MsgsBodies(s: State, msgs: seq<CurlMsg>, r: nat -> Body)
    requires BodiesAre(s, r)
    ensures BodiesAre(HandleMsgs(s, msgs), r)
  {
    if msgs == [] {
    } else {
      hide BodiesAre, Settle;
      var k := |msgs| - 1;
      MsgsBodies(s, msgs[..k], r);
      var t, msg := HandleMsgs(s, msgs[..k]), msgs[k];
      if msg.Done? && FindTicket(t.fetches, msg.ticket) < |t.fetches| {
        SettleBodies(t, FindTicket(t.fetches, msg.ticket), Finished(msg.curlOk, msg.status, msg.ctype), msg.sends, r);
      }
    }
  }

  lemma NextBodies(cfg: Config, s: State, e: Event, r: nat -> Body)
    requires |cfg.host| <= MAX_HOST && BodiesAre(s, r) && !e.BodyData?
    ensures BodiesAre(Next(cfg, s, e), r)
  {
    hide Parse, Covers, PinText, WrapFree, Delivered, Abortions;
    if !s.wrapped {
      match e
      case UdpData(raddr, d, add) => ArriveBodies(cfg, s, Request(false, raddr, TxId(d), d), add, r);
      case TcpData(at, recv, adds, stale) =>
        if at < |s.clients| && recv.Data? {
          var c := s.clients[at];
          var t := s.(clients := s.clients[at := c.(tail := c.tail + recv.bytes)]);
          ArriveAllBodies(cfg, t, c.raddr, Parse(c.tail + recv.bytes).requests, adds, r);
        }
      case CurlMsgs(msgs) => MsgsBodies(s, msgs, r);
      case ResetTimer => AbortAllBodies(s, r);
      case LookedUp(addrs) =>
        AbortAllBodies(s.(latest := addrs, resolv := Pinned(PinText(cfg.host, Join(addrs))), pinned := addrs), r);
      case _ =>
    }
  }

  /** A piece of body reaches the one fetch it is for, which has not been called back. */
  lemma PieceBodies(s: State, at: nat, bytes: seq<byte>, r: nat -> Body, r2: nat -> Body)
    requires Books(s) && BodiesAre(s, r) && at < |s.fetches|
    requires forall k: nat :: r2(k) == if k == s.fetches[at].ticket then WithBody(r(k), bytes) else r(k)
    ensures BodiesAre(s.(fetches := s.fetches[at := s.fetches[at].(body := WithBody(s.fetches[at].body, bytes))]), r2)
  {
    hide RepliesOf;
    assert InFlight(s.fetches, s.fetches[at].ticket);
    assert !CalledBack(s.callbacks, s.fetches[at].ticket);
    assert forall i :: 0 <= i < |s.callbacks| ==> s.callbacks[i].ticket != s.fetches[at].ticket;
  }

  ghost function ReceivedIn(cfg: Config, events: seq<Event>): nat -> Body
    requires |cfg.host| <= MAX_HOST
  {
    (k: nat) => Received(cfg, events, k)
  }

  lemma SameBodies(s: State, r: nat -> Body, r2: nat -> Body)
    requires BodiesAre(s, r) && forall k: nat :: r2(k) == r(k)
    ensures BodiesAre(s, r2)
  {
  }

  lemma BodiesStep(cfg: Config, s: State, e: Event, r: nat -> Body, r2: nat -> Body)
    requires |cfg.host| <= MAX_HOST && Books(s) && BodiesAre(s, r)
    requires forall k: nat :: r2(k) ==
               if !s.wrapped && e.BodyData? && e.ticket == k && FindTicket(s.fetches, k) < |s.fetches|
               then WithBody(r(k), e.bytes) else r(k)
    ensures BodiesAre(Next(cfg, s, e), r2)
  {
    hide Books, BodiesAre, WithBody;
    if e.BodyData? && !s.wrapped && FindTicket(s.fetches, e.ticket) < |s.fetches| {
      PieceBodies(s, FindTicket(s.fetches, e.ticket), e.bytes, r, r2);
    } else {
      SameBodies(s, r, r2);
      if !e.BodyData? {
        NextBodies(cfg, s, e, r2);
      }
    }
  }

  /** Taking a piece behind others. */
  lemma OneMorePiece(taken: seq<seq<byte>>, bytes: seq<byte>)
    ensures Flatten(taken + [bytes]) == Flatten(taken) + bytes
    ensures WithBody(if taken == [] then NoBody else Body(Flatten(taken)), bytes)
            == if |Flatten(taken)| + |bytes| <= 65535 then Body(Flatten(taken + [bytes]))
               else if taken == [] then NoBody else Body(Flatten(taken))
  {
    assert (taken + [bytes])[..|taken|] == taken;
  }

  /** The last event adds at most its own piece. */
  lemma ReceivedLast(cfg: Config, events: seq<Event>, k: nat)
    requires |cfg.host| <= MAX_HOST && events != []
    ensures var n := |events| - 1;
            var s, e, was := After(cfg, START, events[..n]), events[n], ReceivedIn(cfg, events[..n])(k);
            ReceivedIn(cfg, events)(k) ==
              if !s.wrapped && e.BodyData? && e.ticket == k && FindTicket(s.fetches, k) < |s.fetches|
              then WithBody(was, e.bytes) else was
  {
    hide Next, WithBody, Flatten;
    var n := |events| - 1;
    var s, e := After(cfg, START, events[..n]), events[n];
    assert InFlight(s.fetches, k) <==> FindTicket(s.fetches, k) < |s.fetches|;
    if e.BodyData? {
      OneMorePiece(Pieces(cfg, events[..n], k), e.bytes);
    }
  }

  lemma NothingReceived(cfg: Config)
    requires |cfg.host| <= MAX_HOST
    ensures BodiesAre(START, ReceivedIn(cfg, []))
  {
    assert forall k: nat :: Pieces(cfg, [], k) == [];
  }

  /** The body pieces of a run reach the fetches and, whole, the callbacks. */
  lemma {:induction false} BodiesAlways(cfg: Config, events: seq<Event>)
    requires |cfg.host| <= MAX_HOST
    ensures BodiesAre(After(cfg, START, events), ReceivedIn(cfg, events))
    decreases |events|
  {
    hide Next, Books, BodiesAre, WithBody, Pieces, Received, ReceivedIn;
    if events == [] {
      NothingReceived(cfg);
    } else {
      var n := |events| - 1;
      var s, e := After(cfg, START, events[..n]), events[n];
      var r, r2 := ReceivedIn(cfg, events[..n]), ReceivedIn(cfg, events);
      BodiesAlways(cfg, events[..n]);
      StartBooks();
      BooksAlways(cfg, START, events[..n]);
      forall k: nat
        ensures r2(k) == if !s.wrapped && e.BodyData? && e.ticket == k && FindTicket(s.fetches, k) < |s.fetches|
                         then WithBody(r(k), e.bytes) else r(k)
      {
        ReceivedLast(cfg, events, k);
      }
      BodiesStep(cfg, s, e, r, r2);
    }
  }

  ghost predicate PassesOn(msg: CurlMsg, cb: Callback) {
    msg.Done? && cb.ticket == msg.ticket && cb.outcome == Finished(msg.curlOk, msg.status, msg.ctype)
  }

  /** Some message of the run says what this callback was told. */
  ghost predicate ReportedIn(events: seq<Event>, cb: Callback) {
    exists i, m :: 0 <= i < |events| && events[i].CurlMsgs? && 0 <= m < |events[i].msgs|
                   && PassesOn(events[i].msgs[m], cb)
  }

  /** All callbacks since then came from aborted fetches. */
  ghost predicate AbortsOnly(before: seq<Callback>, after: seq<Callback>) {
    before <= after && forall i :: |before| <= i < |after| ==> after[i].outcome == Aborted
  }

  lemma {:induction false} AbortionsAbort(callbacks: seq<Callback>, fetches: seq<Fetch>)
    ensures AbortsOnly(callbacks, callbacks + Abortions(fetches))
    decreases |fetches|
  {
    if fetches == [] {
    } else {
      var cb := Callback(fetches[0].ticket, Aborted, fetches[0].body);
      AbortionsAbort(callbacks + [cb], fetches[1..]);
      assert callbacks + [cb] + Abortions(fetches[1..]) == callbacks + ([cb] + Abortions(fetches[1..]));
    }
  }

  /** Whatever a request's arrival settles at once is settled as aborted. */
  lemma ArriveAborts(cfg: Config, s: State, request: Request, add: AddResult)
    ensures AbortsOnly(s.callbacks, Arrive(cfg, s, request, add).callbacks)
  {
    AbortionsAbort(s.callbacks, [Fetch(|s.submitted|, request, s.resolv, NoBody)] + s.fetches);
  }

  lemma {:induction false} ArriveAllAborts(cfg: Config, s: State, raddr: Address, ms: seq<Message>,
                                           adds: seq<AddResult>)
    ensures AbortsOnly(s.callbacks, ArriveAll(cfg, s, raddr, ms, adds).callbacks)
  {
    if ms == [] {
    } else {
      var k := |ms| - 1;
      ArriveAllAborts(cfg, s, raddr, ms[..k], adds);
      var t := ArriveAll(cfg, s, raddr, ms[..k], adds);
      ArriveAborts(cfg, t, TcpRequest(raddr, ms[k]), AddAt(adds, k));
    }
  }

  lemma {:induction false} MsgsReport(s: State, msgs: seq<CurlMsg>)
    ensures var t := HandleMsgs(s, msgs);
            && s.callbacks <= t.callbacks
            && forall i :: |s.callbacks| <= i < |t.callbacks| ==>
                 exists m :: 0 <= m < |msgs| && PassesOn(msgs[m], t.callbacks[i])
  {
    if msgs == [] {
    } else {
      var k := |msgs| - 1;
      MsgsReport(s, msgs[..k]);
      var u, t := HandleMsgs(s, msgs[..k]), HandleMsgs(s, msgs);
      forall i | |s.callbacks| <= i < |t.callbacks|
        ensures exists m :: 0 <= m < |msgs| && PassesOn(msgs[m], t.callbacks[i])
      {
        if i < |u.callbacks| {
          var m :| 0 <= m < k && PassesOn(msgs[..k][m], u.callbacks[i]);
          assert PassesOn(msgs[m], t.callbacks[i]);
        } else {
          assert PassesOn(msgs[k], t.callbacks[i]);
        }
      }
    }
  }

  lemma StillReported(events: seq<Event>, n: nat, cb: Callback)
    requires n <= |events|
    ensures ReportedIn(events[..n], cb) ==> ReportedIn(events, cb)
  {
    if ReportedIn(events[..n], cb) {
      var i, m :| 0 <= i < n && events[..n][i].CurlMsgs? && 0 <= m < |events[..n][i].msgs|
                  && PassesOn(events[..n][i].msgs[m], cb);
      assert PassesOn(events[i].msgs[m], cb);
    }
  }

  /** A new callback is one of an abort, or passes on a message of this event. */
  lemma NextReports(cfg: Config, s: State, e: Event, i: nat)
    requires |cfg.host| <= MAX_HOST && |s.callbacks| <= i < |Next(cfg, s, e).callbacks|
    ensures var cb := Next(cfg, s, e).callbacks[i];
            || cb.outcome == Aborted
            || (e.CurlMsgs? && exists m :: 0 <= m < |e.msgs| && PassesOn(e.msgs[m], cb))
  {
    hide Parse, Covers, PinText, WrapFree, Delivered, Abortions;
    match e
    case UdpData(raddr, d, add) => ArriveAborts(cfg, s, Request(false, raddr, TxId(d), d), add);
    case TcpData(at, recv, adds, stale) =>
      if at < |s.clients| && recv.Data? {
        var c := s.clients[at];
        var t := s.(clients := s.clients[at := c.(tail := c.tail + recv.bytes)]);
        ArriveAllAborts(cfg, t, c.raddr, Parse(c.tail + recv.bytes).requests, adds);
      }
    case CurlMsgs(msgs) => MsgsReport(s, msgs);
    case ResetTimer => AbortionsAbort(s.callbacks, s.fetches);
    case LookedUp(addrs) => AbortionsAbort(s.callbacks, s.fetches);
    case _ =>
  }

  /** Every callback of a run was told of an abort, or what curl reported for its transfer. */
  lemma {:induction false} OutcomesAreReported(cfg: Config, events: seq<Event>, i: nat)
    requires |cfg.host| <= MAX_HOST && i < |After(cfg, START, events).callbacks|
    ensures var cb := After(cfg, START, events).callbacks[i];
            cb.outcome == Aborted || ReportedIn(events, cb)
    decreases |events|
  {
    if events == [] {
    } else {
      var n := |events| - 1;
      var s, e, t := After(cfg, START, events[..n]), events[n], After(cfg, START, events);
      NextGrows(cfg, s, e);
      var cb := t.callbacks[i];
      if i < |s.callbacks| {
        OutcomesAreReported(cfg, events[..n], i);
        StillReported(events, n, cb);
      } else {
        NextReports(cfg, s, e, i);
        if cb.outcome != Aborted {
          var m :| 0 <= m < |e.msgs| && PassesOn(e.msgs[m], cb);
          assert PassesOn(events[n].msgs[m], cb);
        }
      }
    }
  }

  lemma SameStart(a: seq<byte>, b: seq<byte>)
    requires |a| >= 2 && |b| >= 2
    ensures a[..2] == b[..2] <==> U16(a) == b[0] as int * 256 + b[1] as int
  {
    assert a[..2] == [a[0], a[1]] && b[..2] == [b[0], b[1]];
  }

  /** Over every run and for every callback: there is a reply under its ticket if and only if curl reported
      success, status 200 and a Content-Type that is unread or starts as asked, and the body received has at
      least 12 bytes and starts with the two bytes that its request starts with. */
  lemma AnsweredIff(cfg: Config, events: seq<Event>, c: nat)
    requires |cfg.host| <= MAX_HOST && c < |After(cfg, START, events).callbacks|
    ensures var s := After(cfg, START, events);
            var cb := s.callbacks[c];
            && cb.ticket < |s.submitted| && |s.submitted[cb.ticket].dnsReq| >= 12
            && (Replied(s.replies, cb.ticket) <==>
                  && cb.outcome.Finished? && cb.outcome.curlOk && cb.outcome.status == Status(200)
                  && (cb.outcome.ctype.TypeUnread?
                      || (cb.outcome.ctype.Type? && "application/dns-message" <= cb.outcome.ctype.text))
                  && cb.received.Body? && |cb.received.bytes| >= 12
                  && cb.received.bytes[..2] == s.submitted[cb.ticket].dnsReq[..2])
  {
    hide After, RepliesOf, Replied;
    StartBooks();
    BooksAlways(cfg, START, events);
    RequestsAreGenuine(cfg, events);
    var s := After(cfg, START, events);
    RepliedIff(s.callbacks, s.submitted, c);
    var cb, q := s.callbacks[c], s.submitted[s.callbacks[c].ticket];
    if cb.received.Body? && |cb.received.bytes| >= 12 {
      SameStart(cb.received.bytes, q.dnsReq);
    }
  }

  ghost predicate Good(msg: CurlMsg, k: nat) {
    && msg.Done? && msg.ticket == k && msg.curlOk && msg.status == Status(200)
    && (msg.ctype.TypeUnread? || (msg.ctype.Type? && "application/dns-message" <= msg.ctype.text))
  }

  /** The callback of this reply was told of success, status 200 and no wrong Content-Type, as curl reported. */
  ghost predicate ReportedGood(events: seq<Event>, k: nat) {
    exists i, m :: 0 <= i < |events| && events[i].CurlMsgs? && 0 <= m < |events[i].msgs| && Good(events[i].msgs[m], k)
  }

  lemma GoodReport(events: seq<Event>, cb: Callback)
    requires ReportedIn(events, cb) && Acceptable(cb.outcome)
    ensures ReportedGood(events, cb.ticket)
  {
    var i, m :| 0 <= i < |events| && events[i].CurlMsgs? && 0 <= m < |events[i].msgs|
                && PassesOn(events[i].msgs[m], cb);
    assert Good(events[i].msgs[m], cb.ticket);
  }

  /** Reply safety over whole runs: a reply answers one earlier request by transport, peer and the two bytes
      that both start with; no other reply does; its bytes are the pieces of body accepted for that request,
      one behind the other, at least 12 in all; and curl reported the transfer done, with success, status 200
      and no wrong Content-Type. */
  lemma ReplyIsSafe(cfg: Config, events: seq<Event>, i: nat)
    requires |cfg.host| <= MAX_HOST && i < |After(cfg, START, events).replies|
    ensures var s := After(cfg, START, events);
            var r := s.replies[i];
            && r.ticket < |s.submitted|
            && var q := s.submitted[r.ticket];
            && r.isTcp == q.isTcp && r.raddr == q.raddr
            && |r.bytes| >= 12 && |q.dnsReq| >= 12 && r.bytes[..2] == q.dnsReq[..2]
            && Pieces(cfg, events, r.ticket) != [] && r.bytes == Flatten(Pieces(cfg, events, r.ticket))
            && (forall j :: 0 <= j < |s.replies| && j != i ==> s.replies[j].ticket != r.ticket)
            && ReportedGood(events, r.ticket)
  {
    hide After, Pieces, Flatten, RepliesOf;
    StartBooks();
    BooksAlways(cfg, START, events);
    BodiesAlways(cfg, events);
    RequestsAreGenuine(cfg, events);
    var s := After(cfg, START, events);
    var c := EachReplyIsOwed(s.callbacks, s.submitted, i);
    OutcomesAreReported(cfg, events, c);
    GoodReport(events, s.callbacks[c]);
    assert s.callbacks[c].received == ReceivedIn(cfg, events)(s.callbacks[c].ticket);
    SameStart(s.replies[i].bytes, s.submitted[s.replies[i].ticket].dnsReq);
    forall j | 0 <= j < |s.replies| && j != i ensures s.replies[j].ticket != s.replies[i].ticket {
      if j < i {
        NoSecondReply(s.callbacks, s.submitted, j, i);
      } else {
        NoSecondReply(s.callbacks, s.submitted, i, j);
      }
    }
  }

  lemma ToldAfter(cfg: Config, s: State, msgs: seq<CurlMsg>, m: nat, k: nat)
    requires |cfg.host| <= MAX_HOST && !s.wrapped && Books(s) && InFlight(s.fetches, k)
    requires m < |msgs| && Good(msgs[m], k) && !Reports(msgs[..m], k)
    ensures Told(Next(cfg, s, CurlMsgs(msgs)).callbacks, k, Finished(msgs[m].curlOk, msgs[m].status, msgs[m].ctype))
  {
    FirstReportCounts(s, msgs, m);
  }

  lemma CallbackBody(s: State, r: nat -> Body, c: nat)
    requires BodiesAre(s, r) && c < |s.callbacks|
    ensures s.callbacks[c].received == r(s.callbacks[c].ticket)
  {
  }

  /** A reply over TCP goes to the first client with its address, behind what that was answered before; if its
      socket does not take all of it the client goes. In every other case no client changes. */
  ghost predicate ReachesClient(before: seq<Client>, after: seq<Client>, r: Reply, sends: Sends) {
    var i := FirstWith(before, r.raddr);
    if !r.isTcp || |r.bytes| > 65533 || i == |before| then after == before
    else if sends.header == Sent(2) && Delivers(sends.body, |r.bytes|) then
      && |after| == |before| && (forall j :: 0 <= j < |before| && j != i ==> after[j] == before[j])
      && after[i].answered == before[i].answered + [r.bytes] && after[i].wire == before[i].wire + Frame(r.bytes)
      && after[i].id == before[i].id && after[i].tail == before[i].tail
    else after == before[..i] + before[i + 1..]
  }

  lemma MsgReaches(s: State, msg: CurlMsg)
    requires msg.Done?
    ensures var t := HandleMsg(s, msg);
            && s.replies <= t.replies && |t.replies| <= |s.replies| + 1
            && if t.replies == s.replies then t.clients == s.clients
               else ReachesClient(s.clients, t.clients, t.replies[|s.replies|], msg.sends)
  {
    hide Delivers, Frame;
    var at := FindTicket(s.fetches, msg.ticket);
    if at < |s.fetches| {
      var f, t := s.fetches[at], HandleMsg(s, msg);
      var reply := ReplyTo(Callback(f.ticket, Finished(msg.curlOk, msg.status, msg.ctype), f.body), f.request);
      assert t.replies == s.replies + reply;
      if reply != [] && reply[0].isTcp {
        var i := FirstWith(s.clients, reply[0].raddr);
        if i < |s.clients| {
          RespondedExactly(s.clients, reply[0].raddr, reply[0].bytes, msg.sends.header, msg.sends.body, i);
        }
      }
    }
  }

  /** After every run, what a report does to the TCP clients. */
  lemma ReplyReachesClient(cfg: Config, events: seq<Event>, msg: CurlMsg)
    requires |cfg.host| <= MAX_HOST && !After(cfg, START, events).wrapped && msg.Done?
    ensures var s, t := After(cfg, START, events), After(cfg, START, events + [CurlMsgs([msg])]);
            && s.replies <= t.replies && |t.replies| <= |s.replies| + 1
            && if t.replies == s.replies then t.clients == s.clients
               else ReachesClient(s.clients, t.clients, t.replies[|s.replies|], msg.sends)
  {
    hide HandleMsg, ReachesClient;
    var s := After(cfg, START, events);
    MsgReaches(s, msg);
    assert (events + [CurlMsgs([msg])])[..|events|] == events;
    assert HandleMsgs(s, [msg]) == HandleMsg(HandleMsgs(s, [msg][..0]), msg);
  }

  /** A good first report for a request in flight is answered: when at least 12 bytes were received and they
      start as the request does, the reply is handed to its transport. */
  lemma ReplyIsSent(cfg: Config, events: seq<Event>, msgs: seq<CurlMsg>, m: nat, k: nat) returns (j: nat)
    requires |cfg.host| <= MAX_HOST && !After(cfg, START, events).wrapped
    requires m < |msgs| && Good(msgs[m], k) && !Reports(msgs[..m], k)
    requires InFlight(After(cfg, START, events).fetches, k) && k < |After(cfg, START, events).submitted|
    requires var b, q := Flatten(Pieces(cfg, events, k)), After(cfg, START, events).submitted[k];
             |b| >= 12 && |q.dnsReq| >= 12 && b[..2] == q.dnsReq[..2]
    ensures var q, t := After(cfg, START, events).submitted[k], After(cfg, START, events + [CurlMsgs(msgs)]);
            j < |t.replies| && t.replies[j] == Reply(k, q.isTcp, q.raddr, Flatten(Pieces(cfg, events, k)))
  {
    assert Pieces(cfg, events, k) != [];
    hide Next, Flatten, InFlight, Reports, Books, BodiesAre;
    var all, o := events + [CurlMsgs(msgs)], Finished(msgs[m].curlOk, msgs[m].status, msgs[m].ctype);
    assert all[..|events|] == events;
    var s, t := After(cfg, START, events), After(cfg, START, all);
    StartBooks();
    BooksAlways(cfg, START, events);
    ToldAfter(cfg, s, msgs, m, k);
    var c :| 0 <= c < |t.callbacks| && t.callbacks[c].ticket == k && t.callbacks[c].outcome == o;
    NextGrows(cfg, s, CurlMsgs(msgs));
    BodiesAlways(cfg, all);
    CallbackBody(t, ReceivedIn(cfg, all), c);
    assert Pieces(cfg, all, k) == Pieces(cfg, events, k);
    assert t.callbacks[c].received == Body(Flatten(Pieces(cfg, events, k)));
    AnsweredIff(cfg, all, c);
    j :| 0 <= j < |t.replies| && t.replies[j].ticket == k;
    ReplyIsSafe(cfg, all, j);
  }
}
