/** Which requests are submitted, and how long each stays in flight, over whole runs. */
module Requests {
  import opened Bytes
  import opened Framing
  import opened TcpServers
  import opened TcpClients
  import opened AddressLists
  import opened Pinning
  import opened Ledgers
  import opened Machines
  import opened Invariants

  // ---- What is submitted ----

  /** Requests have a whole DNS header, and their ID is its first two bytes in network order. */
  ghost predicate Genuine(submitted: seq<Request>) {
    forall i :: 0 <= i < |submitted| ==>
      var q := submitted[i];
      |q.dnsReq| >= 12 && q.txId == q.dnsReq[0] as int * 256 + q.dnsReq[1] as int
  }

  lemma {:induction false} TcpGenuine(raddr: Address, ms: seq<Message>)
    requires forall i :: 0 <= i < |ms| ==> |ms[i]| >= 12
    ensures Genuine(TcpRequests(raddr, ms))
  {
    if ms == [] {
    } else {
      TcpGenuine(raddr, ms[..|ms| - 1]);
    }
  }

  lemma ReadsNothing(cfg: Config, s: State, e: Event)
    requires e.TcpData? && e.at < |s.clients| && !e.recv.Data?
    ensures ReadFrom(cfg, s, e.at, e.recv, e.adds, e.stale).submitted == s.submitted
  {
  }

  lemma NextGenuine(cfg: Config, s: State, e: Event)
    requires |cfg.host| <= MAX_HOST && Genuine(s.submitted)
    ensures Genuine(Next(cfg, s, e).submitted)
  {
    hide Parse, ReadFrom, WrapFree, TcpRequests;
    NextGrows(cfg, s, e);
    if !s.wrapped && e.TcpData? && e.at < |s.clients| {
      if e.recv.Data? {
        var c := s.clients[e.at];
        DataRead(cfg, s, e.at, e.recv, e.adds, e.stale);
        ParseIsSplit(c.tail + e.recv.bytes);
        TcpGenuine(c.raddr, Parse(c.tail + e.recv.bytes).requests);
      } else {
        ReadsNothing(cfg, s, e);
      }
    }
  }

  /** Every request of every run is genuine. */
  lemma {:induction false} RequestsAreGenuine(cfg: Config, events: seq<Event>)
    requires |cfg.host| <= MAX_HOST
    ensures Genuine(After(cfg, START, events).submitted)
    decreases |events|
  {
    if events == [] {
    } else {
      hide Next, Genuine;
      RequestsAreGenuine(cfg, events[..|events| - 1]);
      NextGenuine(cfg, After(cfg, START, events[..|events| - 1]), events[|events| - 1]);
    }
  }

  ghost predicate SomeLookup(events: seq<Event>) {
    exists j :: 0 <= j < |events| && events[j].LookedUp?
  }

  ghost predicate SomeStop(events: seq<Event>) {
    exists j :: 0 <= j < |events| && events[j].TcpStop?
  }

  lemma NextFlags(cfg: Config, s: State, e: Event)
    requires |cfg.host| <= MAX_HOST && !s.wrapped
    ensures Next(cfg, s, e).resolv.Pinned? <==> s.resolv.Pinned? || e.LookedUp?
    ensures Next(cfg, s, e).stopped <==> s.stopped || e.TcpStop?
  {
    hide Parse, WrapFree, ReadFrom, PinText;
    if e.TcpData? && e.at < |s.clients| {
      ReadTouches(cfg, s, e.at, e.recv, e.adds, e.stale);
    } else if e.CurlMsgs? {
      MsgsGrow(s, e.msgs);
    }
  }

  lemma SomeNext(events: seq<Event>)
    requires events != []
    ensures var n := |events| - 1;
            && (SomeLookup(events) <==> SomeLookup(events[..n]) || events[n].LookedUp?)
            && (SomeStop(events) <==> SomeStop(events[..n]) || events[n].TcpStop?)
  {
    var init := events[..|events| - 1];
    assert forall j :: 0 <= j < |init| ==> init[j] == events[j];
  }

  /** There is a pin once a lookup has come, and the TCP server is stopped once it was told to. */
  lemma {:induction false} FlagsAre(cfg: Config, events: seq<Event>)
    requires |cfg.host| <= MAX_HOST && !After(cfg, START, events).wrapped
    ensures After(cfg, START, events).resolv.Pinned? <==> SomeLookup(events)
    ensures After(cfg, START, events).stopped <==> SomeStop(events)
    decreases |events|
  {
    if events == [] {
    } else {
      hide Next, SomeLookup, SomeStop;
      var n := |events| - 1;
      var init := events[..n];
      NextGrows(cfg, After(cfg, START, init), events[n]);
      FlagsAre(cfg, init);
      NextFlags(cfg, After(cfg, START, init), events[n]);
      SomeNext(events);
    }
  }

  /** A datagram of 12 to 4096 bytes is submitted as it came, with the poller in use once a lookup has come
      and without it always; any other is dropped. */
  lemma UdpSubmitted(cfg: Config, events: seq<Event>, i: nat)
    requires |cfg.host| <= MAX_HOST && i < |events| && events[i].UdpData?
    requires !After(cfg, START, events[..i]).wrapped
    ensures var d, before := events[i].datagram, After(cfg, START, events[..i]).submitted;
            After(cfg, START, events[..i + 1]).submitted ==
              if 12 <= |d| <= 4096 && (!cfg.usingPoller || SomeLookup(events[..i]))
              then before + [Request(false, events[i].raddr, d[0] as int * 256 + d[1] as int, d)] else before
  {
    hide SomeLookup, SomeStop, Abortions;
    FlagsAre(cfg, events[..i]);
    assert events[..i + 1][..i] == events[..i];
  }

  // ---- How long a request is in flight ----

  lemma MsgEnds(s: State, msg: CurlMsg, k: nat)
    requires Books(s)
    ensures InFlight(HandleMsg(s, msg).fetches, k) <==> InFlight(s.fetches, k) && !(msg.Done? && msg.ticket == k)
  {
    hide RepliesOf, Delivered, ReplyTo;
    if msg.Done? {
      var at := FindTicket(s.fetches, msg.ticket);
      if at < |s.fetches| {
        OneSettled(s.fetches, [], at, Callback(msg.ticket, Aborted, NoBody), k);
      }
    }
  }

  ghost predicate Reports(msgs: seq<CurlMsg>, k: nat) {
    exists m :: 0 <= m < |msgs| && msgs[m].Done? && msgs[m].ticket == k
  }

  lemma {:induction false} MsgsEnd(s: State, msgs: seq<CurlMsg>, k: nat)
    requires Books(s)
    ensures InFlight(HandleMsgs(s, msgs).fetches, k) <==> InFlight(s.fetches, k) && !Reports(msgs, k)
  {
    if msgs == [] {
    } else {
      hide Books, HandleMsg, InFlight;
      var n := |msgs| - 1;
      var init := msgs[..n];
      MsgsEnd(s, init, k);
      MsgsBooks(s, init);
      MsgEnds(HandleMsgs(s, init), msgs[n], k);
      assert forall m :: 0 <= m < n ==> init[m] == msgs[m];
    }
  }

  /** A request that arrives is in flight at once exactly if it could be added; the others stay in flight
      unless adding it aborts them all. */
  lemma ArriveEnds(cfg: Config, s: State, request: Request, add: AddResult, k: nat)
    requires Books(s) && Ready(cfg, s)
    ensures var t := Arrive(cfg, s, request, add);
            && (k < |s.submitted| ==> (InFlight(t.fetches, k) <==> InFlight(s.fetches, k) && !add.AddAborted?))
            && (k == |s.submitted| ==> (InFlight(t.fetches, k) <==> add.AddOk?))
  {
    hide RepliesOf, Abortions;
    var f := Fetch(|s.submitted|, request, s.resolv, NoBody);
    assert ([f] + s.fetches)[0].ticket == |s.submitted|;
    if i :| 0 <= i < |s.fetches| && s.fetches[i].ticket == k {
      assert ([f] + s.fetches)[i + 1].ticket == k;
    }
  }

  ghost predicate SomeAborts(adds: seq<AddResult>, from: nat, to: nat) {
    exists m: nat :: from <= m < to && AddAt(adds, m).AddAborted?
  }

  lemma {:induction false} TcpRequestsLength(raddr: Address, ms: seq<Message>)
    ensures |TcpRequests(raddr, ms)| == |ms|
  {
    if ms == [] {
    } else {
      TcpRequestsLength(raddr, ms[..|ms| - 1]);
    }
  }

  lemma SomeAbortsNext(adds: seq<AddResult>, from: nat, n: nat)
    ensures SomeAborts(adds, from, n + 1) <==> SomeAborts(adds, from, n) || (from <= n && AddAt(adds, n).AddAborted?)
  {
  }

  lemma NoneBetween(adds: seq<AddResult>, n: nat)
    ensures !SomeAborts(adds, n, n)
  {
  }

  /** A request already in flight stays so unless some later one aborts all. */
  lemma {:induction false} OthersStay(cfg: Config, s: State, raddr: Address, ms: seq<Message>, adds: seq<AddResult>,
                                      k: nat)
    requires Books(s) && Ready(cfg, s) && k < |s.submitted|
    ensures InFlight(ArriveAll(cfg, s, raddr, ms, adds).fetches, k)
            <==> InFlight(s.fetches, k) && !SomeAborts(adds, 0, |ms|)
  {
    if ms == [] {
    } else {
      hide Books, Arrive, InFlight, SomeAborts, AddAt, TcpRequest, TcpRequests;
      var n := |ms| - 1;
      OthersStay(cfg, s, raddr, ms[..n], adds, k);
      ArriveAllBooks(cfg, s, raddr, ms[..n], adds);
      ArriveAllTouches(cfg, s, raddr, ms[..n], adds);
      ArriveEnds(cfg, ArriveAll(cfg, s, raddr, ms[..n], adds), TcpRequest(raddr, ms[n]), AddAt(adds, n), k);
      SomeAbortsNext(adds, 0, n);
    }
  }

  /** Of the requests of one read, those are in flight that could be added, with no later one aborting all. */
  lemma {:induction false} NewInFlight(cfg: Config, s: State, raddr: Address, ms: seq<Message>, adds: seq<AddResult>,
                                       m: nat)
    requires Books(s) && Ready(cfg, s) && m < |ms|
    ensures InFlight(ArriveAll(cfg, s, raddr, ms, adds).fetches, |s.submitted| + m)
            <==> AddAt(adds, m).AddOk? && !SomeAborts(adds, m, |ms|)
    decreases |ms|
  {
    hide Books, Arrive, InFlight, SomeAborts, AddAt, TcpRequest, TcpRequests;
    var n := |ms| - 1;
    var u := ArriveAll(cfg, s, raddr, ms[..n], adds);
    ArriveAllBooks(cfg, s, raddr, ms[..n], adds);
    ArriveAllTouches(cfg, s, raddr, ms[..n], adds);
    TcpRequestsLength(raddr, ms[..n]);
    ArriveEnds(cfg, u, TcpRequest(raddr, ms[n]), AddAt(adds, n), |s.submitted| + m);
    SomeAbortsNext(adds, m, n);
    if m < n {
      NewInFlight(cfg, s, raddr, ms[..n], adds, m);
    } else {
      NoneBetween(adds, n);
    }
  }

  /** The messages that a read brings to the splitting loop's end. */
  ghost function Brought(s: State, e: Event): seq<Message> {
    if e.TcpData? && e.at < |s.clients| && e.recv.Data? && e.recv.bytes != []
       && |s.clients[e.at].tail| + |e.recv.bytes| <= MAX_BUFFERED
    then Parse(s.clients[e.at].tail + e.recv.bytes).requests else []
  }

  /** The event settles a request that was in flight: its transfer is reported done, or all are aborted, by the
      reset timer, by a lookup that does not cover the pin, or by a new request that curl refuses in this way. */
  ghost predicate Ends(cfg: Config, s: State, e: Event, k: nat) {
    && !s.wrapped
    && match e
       case CurlMsgs(msgs) => Reports(msgs, k)
       case ResetTimer => true
       case LookedUp(addrs) => !Covers(addrs, s.resolv)
       case UdpData(_, d, add) => Ready(cfg, s) && 12 <= |d| <= 4096 && add.AddAborted?
       case TcpData(_, _, adds, _) => Ready(cfg, s) && SomeAborts(adds, 0, |Brought(s, e)|)
       case _ => false
  }

  lemma ReadFetches(cfg: Config, s: State, e: Event)
    requires e.TcpData? && e.at < |s.clients|
    ensures var c := s.clients[e.at];
            var u := s.(clients := s.clients[e.at := c.(tail := if e.recv.Data? then c.tail + e.recv.bytes else [])]);
            ReadFrom(cfg, s, e.at, e.recv, e.adds, e.stale).fetches
            == if Brought(s, e) == [] then s.fetches
               else ArriveAll(cfg, u, c.raddr, Brought(s, e), e.adds).fetches
  {
    hide Parse, WrapFree;
  }

  lemma NothingBrought(s: State, e: Event)
    requires e.TcpData? && e.at >= |s.clients|
    ensures Brought(s, e) == []
  {
  }

  lemma {:induction false} NotReadyNothing(cfg: Config, s: State, raddr: Address, ms: seq<Message>,
                                           adds: seq<AddResult>)
    requires !Ready(cfg, s)
    ensures ArriveAll(cfg, s, raddr, ms, adds) == s
  {
    if ms == [] {
    } else {
      NotReadyNothing(cfg, s, raddr, ms[..|ms| - 1], adds);
    }
  }

  lemma BookedTicket(s: State, k: nat)
    requires Books(s) && InFlight(s.fetches, k)
    ensures k < |s.submitted|
  {
  }

  lemma ReadEnds(cfg: Config, s: State, e: Event, k: nat)
    requires |cfg.host| <= MAX_HOST && Books(s) && !s.wrapped && e.TcpData? && InFlight(s.fetches, k)
    ensures InFlight(Next(cfg, s, e).fetches, k) <==> !Ends(cfg, s, e, k)
  {
    hide Parse, WrapFree, ReadFrom, Brought, ExactlyOnce, RepliesOf;
    BookedTicket(s, k);
    NoneBetween(e.adds, 0);
    if e.at < |s.clients| {
      ReadFetches(cfg, s, e);
      var c := s.clients[e.at];
      var u := s.(clients := s.clients[e.at := c.(tail := if e.recv.Data? then c.tail + e.recv.bytes else [])]);
      if Ready(cfg, s) {
        OthersStay(cfg, u, c.raddr, Brought(s, e), e.adds, k);
      } else {
        NotReadyNothing(cfg, u, c.raddr, Brought(s, e), e.adds);
      }
    } else {
      NothingBrought(s, e);
    }
  }

  /** One event settles a request in flight exactly for these reasons. */
  lemma NextEnds(cfg: Config, s: State, e: Event, k: nat)
    requires |cfg.host| <= MAX_HOST && Books(s) && InFlight(s.fetches, k)
    ensures InFlight(Next(cfg, s, e).fetches, k) <==> !Ends(cfg, s, e, k)
  {
    hide ReadFrom, Covers, PinText, Abortions, HandleMsgs, ExactlyOnce, RepliesOf;
    BookedTicket(s, k);
    if !s.wrapped {
      match e
      case UdpData(raddr, d, add) =>
        if Ready(cfg, s) {
          ArriveEnds(cfg, s, Request(false, raddr, TxId(d), d), add, k);
        }
      case TcpData(_, _, _, _) => ReadEnds(cfg, s, e, k);
      case CurlMsgs(msgs) => MsgsEnd(s, msgs, k);
      case BodyData(ticket, bytes) =>
        var i :| 0 <= i < |s.fetches| && s.fetches[i].ticket == k;
        assert Next(cfg, s, e).fetches[i].ticket == k;
      case _ =>
    }
  }

  ghost predicate EndsAt(cfg: Config, events: seq<Event>, i: nat, k: nat)
    requires |cfg.host| <= MAX_HOST && i < |events|
  {
    Ends(cfg, After(cfg, START, events[..i]), events[i], k)
  }

  /** What is settled is never in flight again. */
  lemma StaysSettled(cfg: Config, s: State, e: Event, k: nat)
    requires |cfg.host| <= MAX_HOST && Books(s) && k < |s.submitted| && !InFlight(s.fetches, k)
    ensures var t := Next(cfg, s, e);
            k < |t.submitted| && !InFlight(t.fetches, k)
  {
    hide Next, RepliesOf, InFlight;
    NextGrows(cfg, s, e);
    NextBooks(cfg, s, e);
    var t := Next(cfg, s, e);
    var i :| 0 <= i < |s.callbacks| && s.callbacks[i].ticket == k;
    assert t.callbacks[i].ticket == k;
  }

  /** The last event of a run settles a request in flight, or leaves it as it was. */
  lemma LastEnds(cfg: Config, events: seq<Event>, k: nat)
    requires |cfg.host| <= MAX_HOST && events != []
    requires k < |After(cfg, START, events[..|events| - 1]).submitted|
    ensures var n := |events| - 1;
            && k < |After(cfg, START, events).submitted|
            && (InFlight(After(cfg, START, events).fetches, k) <==>
                  InFlight(After(cfg, START, events[..n]).fetches, k) && !EndsAt(cfg, events, n, k))
  {
    hide Next, Books, InFlight, Ends;
    var n := |events| - 1;
    var s, e := After(cfg, START, events[..n]), events[n];
    StartBooks();
    BooksAlways(cfg, START, events[..n]);
    NextGrows(cfg, s, e);
    if InFlight(s.fetches, k) {
      NextEnds(cfg, s, e, k);
    } else {
      StaysSettled(cfg, s, e, k);
    }
  }

  ghost predicate EndedSince(cfg: Config, events: seq<Event>, n: nat, k: nat)
    requires |cfg.host| <= MAX_HOST
  {
    exists i :: n <= i < |events| && EndsAt(cfg, events, i, k)
  }

  lemma EndedSinceNext(cfg: Config, events: seq<Event>, n: nat, k: nat)
    requires |cfg.host| <= MAX_HOST && n < |events|
    ensures var last := |events| - 1;
            EndedSince(cfg, events, n, k) <==> EndedSince(cfg, events[..last], n, k) || EndsAt(cfg, events, last, k)
  {
    hide Ends, After;
    var init := events[..|events| - 1];
    if i :| n <= i < |events| && EndsAt(cfg, events, i, k) {
      if i < |init| {
        assert init[..i] == events[..i];
        assert EndsAt(cfg, init, i, k);
      }
    }
    if i :| n <= i < |init| && EndsAt(cfg, init, i, k) {
      assert init[..i] == events[..i];
      assert EndsAt(cfg, events, i, k);
    }
  }

  /** Over every run, a request that was in flight at some point is in flight at the end exactly if no event
      since has settled it. */
  lemma {:induction false} InFlightExactly(cfg: Config, events: seq<Event>, n: nat, k: nat)
    requires |cfg.host| <= MAX_HOST && n <= |events| && InFlight(After(cfg, START, events[..n]).fetches, k)
    ensures k < |After(cfg, START, events).submitted|
    ensures InFlight(After(cfg, START, events).fetches, k) <==> !EndedSince(cfg, events, n, k)
    decreases |events|
  {
    hide After, InFlight, Ends;
    if n == |events| {
      assert events[..n] == events;
      StartBooks();
      BooksAlways(cfg, START, events);
      BookedTicket(After(cfg, START, events), k);
    } else {
      hide EndedSince;
      var init := events[..|events| - 1];
      assert init[..n] == events[..n];
      InFlightExactly(cfg, init, n, k);
      LastEnds(cfg, events, k);
      EndedSinceNext(cfg, events, n, k);
    }
  }

  // ---- What a callback is told ----

  ghost predicate Told(callbacks: seq<Callback>, k: nat, outcome: Outcome) {
    exists c :: 0 <= c < |callbacks| && callbacks[c].ticket == k && callbacks[c].outcome == outcome
  }

  lemma StillTold(a: seq<Callback>, b: seq<Callback>, k: nat, outcome: Outcome)
    requires Told(a, k, outcome) && a <= b
    ensures Told(b, k, outcome)
  {
    var c :| 0 <= c < |a| && a[c].ticket == k && a[c].outcome == outcome;
    assert b[c] == a[c];
  }

  lemma Findable(fetches: seq<Fetch>, k: nat)
    requires InFlight(fetches, k)
    ensures FindTicket(fetches, k) < |fetches|
  {
  }

  /** The first report for a transfer in flight is what its callback is told. */
  lemma {:induction false} FirstReportCounts(s: State, msgs: seq<CurlMsg>, m: nat)
    requires Books(s) && m < |msgs| && msgs[m].Done? && InFlight(s.fetches, msgs[m].ticket)
    requires !Reports(msgs[..m], msgs[m].ticket)
    ensures Told(HandleMsgs(s, msgs).callbacks, msgs[m].ticket,
                 Finished(msgs[m].curlOk, msgs[m].status, msgs[m].ctype))
    decreases |msgs|
  {
    hide Books, InFlight, Reports, ReplyTo, Delivered;
    var n, k := |msgs| - 1, msgs[m].ticket;
    var o := Finished(msgs[m].curlOk, msgs[m].status, msgs[m].ctype);
    var u, t := HandleMsgs(s, msgs[..n]), HandleMsgs(s, msgs);
    if m < n {
      assert msgs[..n][..m] == msgs[..m];
      FirstReportCounts(s, msgs[..n], m);
      StillTold(u.callbacks, t.callbacks, k, o);
    } else {
      MsgsEnd(s, msgs[..n], k);
      Findable(u.fetches, k);
      assert t.callbacks[|u.callbacks|].ticket == k && t.callbacks[|u.callbacks|].outcome == o;
    }
  }

  lemma {:induction false} MsgsConcat(s: State, a: seq<CurlMsg>, b: seq<CurlMsg>)
    ensures HandleMsgs(s, a + b) == HandleMsgs(HandleMsgs(s, a), b)
    decreases |b|
  {
    if b == [] {
      assert a + b == a;
    } else {
      hide HandleMsg;
      MsgsConcat(s, a, b[..|b| - 1]);
      assert (a + b)[..|a + b| - 1] == a + b[..|b| - 1];
    }
  }

  /** Messages read together do what they do when they come one after another. */
  lemma MessagesOneByOne(cfg: Config, events: seq<Event>, a: seq<CurlMsg>, b: seq<CurlMsg>)
    requires |cfg.host| <= MAX_HOST
    ensures After(cfg, START, events + [CurlMsgs(a + b)]) == After(cfg, START, events + [CurlMsgs(a), CurlMsgs(b)])
  {
    hide HandleMsgs;
    var s := After(cfg, START, events);
    MsgsConcat(s, a, b);
    MsgsGrow(s, a);
    assert (events + [CurlMsgs(a + b)])[..|events|] == events;
    assert (events + [CurlMsgs(a), CurlMsgs(b)])[..|events| + 1] == events + [CurlMsgs(a)];
    assert (events + [CurlMsgs(a)])[..|events|] == events;
  }
}
