/** A TCP client in the middle of everything: over any run of the whole proxy, what is submitted for it
    is the one-shot parse of the bytes it sent, and it goes only for reasons of its own. */
module Streams {
  import opened Bytes
  import opened Framing
  import opened TcpServers
  import opened TcpClients
  import opened Ledgers
  import opened Pinning
  import opened Machines
  import opened Invariants

  /** This event reads data from the client with this id. */
  ghost predicate ReadsFrom(s: State, e: Event, id: nat) {
    !s.wrapped && e.TcpData? && e.recv.Data? && e.at < |s.clients| && s.clients[e.at].id == id
  }

  /** The bytes read from the client over a run. */
  ghost function StreamOf(cfg: Config, events: seq<Event>, id: nat): seq<byte>
    requires |cfg.host| <= MAX_HOST
  {
    if events == [] then []
    else
      var n := |events| - 1;
      var s, e := After(cfg, START, events[..n]), events[n];
      StreamOf(cfg, events[..n], id) + if ReadsFrom(s, e, id) then e.recv.bytes else []
  }

  /** Those of them read while requests were still discarded, before the first pin. */
  ghost function EarlyStreamOf(cfg: Config, events: seq<Event>, id: nat): seq<byte>
    requires |cfg.host| <= MAX_HOST
  {
    if events == [] then []
    else
      var n := |events| - 1;
      var s, e := After(cfg, START, events[..n]), events[n];
      EarlyStreamOf(cfg, events[..n], id) + if ReadsFrom(s, e, id) && !Ready(cfg, s) then e.recv.bytes else []
  }

  /** The requests submitted by the client's reads. */
  ghost function SubmittedFor(cfg: Config, events: seq<Event>, id: nat): seq<Request>
    requires |cfg.host| <= MAX_HOST
  {
    if events == [] then []
    else
      var n := |events| - 1;
      var s, e := After(cfg, START, events[..n]), events[n];
      NextGrows(cfg, s, e);
      SubmittedFor(cfg, events[..n], id)
      + if ReadsFrom(s, e, id) then Next(cfg, s, e).submitted[|s.submitted|..] else []
  }

  // ---- The other clients ----

  /** An id that was not handed out yet has read and submitted nothing. */
  lemma {:induction false} FutureIdIsSilent(cfg: Config, events: seq<Event>, id: nat)
    requires |cfg.host| <= MAX_HOST && id > After(cfg, START, events).clientId
    ensures StreamOf(cfg, events, id) == [] && EarlyStreamOf(cfg, events, id) == []
    ensures SubmittedFor(cfg, events, id) == []
    decreases |events|
  {
    if events == [] {
    } else {
      hide Next;
      var n := |events| - 1;
      NextGrows(cfg, After(cfg, START, events[..n]), events[n]);
      PeersAlways(cfg, events[..n]);
      FutureIdIsSilent(cfg, events[..n], id);
    }
  }

  /** A client still listed after one went was listed before. */
  lemma StillListed(clients: seq<Client>, at: nat, c: Client)
    requires at < |clients| && c in WithoutClient(clients, at)
    ensures Reader(clients, c)
  {
    var j :| 0 <= j < |WithoutClient(clients, at)| && WithoutClient(clients, at)[j] == c;
    assert clients[if j < at then j else j + 1] == c;
  }

  lemma RemovedIdIsGone(clients: seq<Client>, newest: nat, at: nat)
    requires Listed(clients, newest) && at < |clients|
    ensures var rest := WithoutClient(clients, at);
            forall j :: 0 <= j < |rest| ==> rest[j].id != clients[at].id
  {
    var rest := WithoutClient(clients, at);
    assert forall j :: 0 <= j < |rest| ==> rest[j] == clients[if j < at then j else j + 1];
  }

  /** Reading from one client leaves the others' input alone. */
  lemma ReadKeepsOthers(cfg: Config, s: State, e: Event, c: Client)
    requires e.TcpData? && e.at < |s.clients|
    requires c in ReadFrom(cfg, s, e.at, e.recv, e.adds, e.stale).clients
    requires !(e.recv.Data? && s.clients[e.at].id == c.id)
    ensures Reader(s.clients, c)
  {
    hide Parse, WrapFree, SplitPending;
    if e.recv.Data? {
      DataRead(cfg, s, e.at, e.recv, e.adds, e.stale);
    }
    var t := ReadFrom(cfg, s, e.at, e.recv, e.adds, e.stale);
    if t.clients == WithoutClient(s.clients, e.at) {
      StillListed(s.clients, e.at, c);
    } else {
      var j :| 0 <= j < |t.clients| && t.clients[j] == c;
      assert s.clients[j] == c;
    }
  }

  lemma SameClients(cfg: Config, s: State, e: Event)
    requires |cfg.host| <= MAX_HOST && !e.CurlMsgs? && !e.TcpAccept? && !e.TcpStop?
    requires (e.TcpData? || e.TcpIdle?) ==> e.at >= |s.clients|
    ensures Next(cfg, s, e).clients == s.clients
  {
  }

  /** A client that the event does not read from was there before, with the same input, or is new. */
  lemma NextKeepsReader(cfg: Config, s: State, e: Event, c: Client)
    requires |cfg.host| <= MAX_HOST && Peers(cfg, s)
    requires c in Next(cfg, s, e).clients && !ReadsFrom(s, e, c.id)
    ensures Reader(s.clients, c) || (c.id > s.clientId && c.tail == [])
  {
    hide ReadFrom, HandleMsgs, Arrive, LookUp, WithBody;
    var t := Next(cfg, s, e);
    var j :| 0 <= j < |t.clients| && t.clients[j] == c;
    if s.wrapped {
      assert s.clients[j] == c;
    } else if e.TcpData? && e.at < |s.clients| {
      ReadKeepsOthers(cfg, s, e, c);
    } else if e.TcpIdle? && e.at < |s.clients| {
      StillListed(s.clients, e.at, c);
    } else if e.CurlMsgs? {
      MsgsPeers(cfg, s, e.msgs);
      assert Reader(s.clients, t.clients[j]);
    } else if e.TcpAccept? || e.TcpStop? {
      if t.clients == s.clients {
        assert s.clients[j] == c;
      } else if j > 0 {
        assert s.clients[j - 1] == c;
      }
    } else {
      SameClients(cfg, s, e);
      assert s.clients[j] == c;
    }
  }

  // ---- In step with the stream ----

  /** These requests carry these messages, in order, for a TCP client with this address. */
  ghost predicate Carry(submitted: seq<Request>, raddr: Address, ms: seq<Message>) {
    && |submitted| == |ms|
    && forall i :: 0 <= i < |ms| ==> submitted[i].isTcp && submitted[i].raddr == raddr && submitted[i].dnsReq == ms[i]
  }

  lemma {:induction false} TcpRequestsCarry(raddr: Address, ms: seq<Message>)
    ensures Carry(TcpRequests(raddr, ms), raddr, ms)
  {
    if ms == [] {
    } else {
      TcpRequestsCarry(raddr, ms[..|ms| - 1]);
    }
  }

  /** The client's record is its stream's parse: the buffer is the rest, and submitted is every request
      but those of the bytes that came early. */
  ghost predicate InStep(c: Client, stream: seq<byte>, early: seq<byte>, submitted: seq<Request>) {
    var p, discarded := Parse(stream), Parse(early).requests;
    && c.tail == p.rest && !Blocked(p.rest)
    && discarded <= p.requests
    && Carry(submitted, c.raddr, p.requests[|discarded|..])
  }

  lemma NewInStep(c: Client)
    requires c.tail == []
    ensures InStep(c, [], [], [])
  {
  }

  lemma MoreCarried(submitted: seq<Request>, more: seq<Request>, raddr: Address, a: seq<Message>, b: seq<Message>,
                    k: nat)
    requires k <= |a| && Carry(submitted, raddr, a[k..])
    ensures Carry(more, raddr, b) ==> Carry(submitted + more, raddr, (a + b)[k..])
    ensures k == |a| ==> Carry(submitted + [], raddr, (a + b)[|a + b|..])
  {
    assert (a + b)[k..] == a[k..] + b;
  }

  /** A read of data that leaves the client registered keeps its record in step. */
  lemma ReadKeepsStep(cfg: Config, s: State, e: Event, c: Client,
                      stream: seq<byte>, early: seq<byte>, submitted: seq<Request>)
    requires |cfg.host| <= MAX_HOST && Peers(cfg, s)
    requires ReadsFrom(s, e, c.id) && c in Next(cfg, s, e).clients
    requires InStep(s.clients[e.at], stream, early, submitted) && (!Ready(cfg, s) ==> early == stream)
    ensures var t := Next(cfg, s, e);
            && |s.submitted| <= |t.submitted|
            && InStep(c, stream + e.recv.bytes, if Ready(cfg, s) then early else stream + e.recv.bytes,
                      submitted + t.submitted[|s.submitted|..])
  {
    hide Parse, WrapFree, TcpRequests, ReadFrom, WholeFrames, Carry;
    var c0, t := s.clients[e.at], Next(cfg, s, e);
    var p, q := Parse(stream), Parse(c0.tail + e.recv.bytes);
    DataRead(cfg, s, e.at, e.recv, e.adds, e.stale);
    RemovedIdIsGone(s.clients, s.clientId, e.at);
    var j :| 0 <= j < |t.clients| && t.clients[j] == c;
    assert t.clients == s.clients[e.at := c0.(tail := q.rest)];
    assert t.clients[e.at].id == c.id && j == e.at;
    ParseAppend(stream, e.recv.bytes, p, q);
    TcpRequestsCarry(c0.raddr, q.requests);
    MoreCarried(submitted, t.submitted[|s.submitted|..], c0.raddr, p.requests, q.requests, |Parse(early).requests|);
  }

  lemma SameInStep(c: Client, d: Client, stream: seq<byte>, early: seq<byte>, submitted: seq<Request>)
    requires InStep(c, stream, early, submitted) && c.tail == d.tail && c.raddr == d.raddr
    ensures InStep(d, stream, early, submitted)
  {
  }

  /** In every run, for every registered client, whatever else happens, and up to the moment when a 16-bit
      length wraps: its buffer holds exactly the unparsed tail of what it sent, and the requests submitted
      for it are those of the one-shot parse, less the ones that were complete before the first pin. */
  lemma {:induction false} ClientInStep(cfg: Config, events: seq<Event>, c: Client)
    requires |cfg.host| <= MAX_HOST && c in After(cfg, START, events).clients
    ensures InStep(c, StreamOf(cfg, events, c.id), EarlyStreamOf(cfg, events, c.id), SubmittedFor(cfg, events, c.id))
    ensures !Ready(cfg, After(cfg, START, events)) ==>
              EarlyStreamOf(cfg, events, c.id) == StreamOf(cfg, events, c.id)
    decreases |events|
  {
    hide Next, Peers, InStep;
    if events == [] {
    } else {
      var n := |events| - 1;
      var s, e := After(cfg, START, events[..n]), events[n];
      var stream, early := StreamOf(cfg, events[..n], c.id), EarlyStreamOf(cfg, events[..n], c.id);
      var submitted := SubmittedFor(cfg, events[..n], c.id);
      NextGrows(cfg, s, e);
      PeersAlways(cfg, events[..n]);
      if ReadsFrom(s, e, c.id) {
        ClientInStep(cfg, events[..n], s.clients[e.at]);
        ReadKeepsStep(cfg, s, e, c, stream, early, submitted);
        assert early + [] == early;
      } else {
        assert stream + [] == stream && early + [] == early && submitted + [] == submitted;
        NextKeepsReader(cfg, s, e, c);
        if Reader(s.clients, c) {
          var i :| 0 <= i < |s.clients| && s.clients[i].id == c.id && s.clients[i].raddr == c.raddr
                   && s.clients[i].tail == c.tail;
          ClientInStep(cfg, events[..n], s.clients[i]);
          SameInStep(s.clients[i], c, stream, early, submitted);
        } else {
          FutureIdIsSilent(cfg, events[..n], c.id);
          NewInStep(c);
        }
      }
    }
  }

  lemma OnlyReadsWrap(cfg: Config, s: State, e: Event)
    requires |cfg.host| <= MAX_HOST && !s.wrapped && Next(cfg, s, e).wrapped
    ensures e.TcpData? && e.recv.Data? && e.at < |s.clients|
  {
    if e.CurlMsgs? {
      MsgsGrow(s, e.msgs);
    }
  }

  /** No run wraps a length unless some client declares one with a high byte of 0xFF. */
  lemma {:induction false} WrapNeedsLongLength(cfg: Config, events: seq<Event>) returns (id: nat)
    requires |cfg.host| <= MAX_HOST && After(cfg, START, events).wrapped
    ensures !LengthsAtMost(StreamOf(cfg, events, id), MAX_UNWRAPPED)
    decreases |events|
  {
    var n := |events| - 1;
    var s, e := After(cfg, START, events[..n]), events[n];
    if s.wrapped {
      id := WrapNeedsLongLength(cfg, events[..n]);
      assert StreamOf(cfg, events[..n], id) + [] == StreamOf(cfg, events[..n], id);
    } else {
      hide Parse, WrapFree, ReadFrom, HandleMsgs, Arrive, LookUp, LengthsAtMost;
      OnlyReadsWrap(cfg, s, e);
      var c := s.clients[e.at];
      id := c.id;
      var stream := StreamOf(cfg, events[..n], id);
      ClientInStep(cfg, events[..n], c);
      DataRead(cfg, s, e.at, e.recv, e.adds, e.stale);
      if LengthsAtMost(stream + e.recv.bytes, MAX_UNWRAPPED) {
        LeftoverLengths(stream, e.recv.bytes, MAX_UNWRAPPED);
        BoundedIsWrapFree(c.tail + e.recv.bytes, e.stale);
      }
    }
  }

  /** A read that stays within the limit meets a wrap exactly when the parse of the stream so far is left with
      a declared length of 65534 or more; with one byte left, only if that is 0xFF. */
  lemma WrapsExactly(cfg: Config, events: seq<Event>, e: Event)
    requires |cfg.host| <= MAX_HOST && e.TcpData? && e.recv.Data? && e.recv.bytes != []
    requires var s := After(cfg, START, events);
             !s.wrapped && e.at < |s.clients| && |s.clients[e.at].tail| + |e.recv.bytes| <= MAX_BUFFERED
    ensures var s, t := After(cfg, START, events), After(cfg, START, events + [e]);
            var rest := Parse(StreamOf(cfg, events, s.clients[e.at].id) + e.recv.bytes).rest;
            if |rest| >= 2 then t.wrapped <==> rest[0] as int * 256 + rest[1] as int >= 65534
            else t.wrapped ==> |rest| == 1 && rest[0] == 255
  {
    hide Parse, StaleAfter, ReadFrom;
    assert (events + [e])[..|events|] == events;
    var s := After(cfg, START, events);
    var c := s.clients[e.at];
    var stream := StreamOf(cfg, events, c.id);
    ClientInStep(cfg, events, c);
    DataRead(cfg, s, e.at, e.recv, e.adds, e.stale);
    ParseAppend(stream, e.recv.bytes, Parse(stream), Parse(c.tail + e.recv.bytes));
  }

  // ---- Why a client goes ----

  ghost predicate HasId(clients: seq<Client>, id: nat) {
    exists i :: 0 <= i < |clients| && clients[i].id == id
  }

  /** Ending this transfer sends a reply to the client, and its socket does not take all of it. */
  ghost predicate ReplyFails(s: State, msg: CurlMsg, id: nat) {
    && msg.Done?
    && var at := FindTicket(s.fetches, msg.ticket);
    && at < |s.fetches|
    && var f := s.fetches[at];
    && var reply := ReplyTo(Callback(f.ticket, Finished(msg.curlOk, msg.status, msg.ctype), f.body), f.request);
    && reply != [] && reply[0].isTcp && |reply[0].bytes| <= MAX_BUFFERED
    && var i := FirstWith(s.clients, f.request.raddr);
    && i < |s.clients| && s.clients[i].id == id
    && !(msg.sends.header == Sent(2) && Delivers(msg.sends.body, |reply[0].bytes|))
  }

  ghost predicate SomeReplyFails(s: State, msgs: seq<CurlMsg>, id: nat) {
    exists m :: 0 <= m < |msgs| && ReplyFails(HandleMsgs(s, msgs[..m]), msgs[m], id)
  }

  /** The client is gone after this event for a reason other than the size of what it has pending. */
  ghost predicate Goes(s: State, e: Event, id: nat, stream: seq<byte>) {
    && !s.wrapped
    && match e
       case TcpData(at, recv, _, _) =>
         && at < |s.clients| && s.clients[at].id == id && !recv.WouldBlock?
         && (recv.Data? && recv.bytes != [] ==> Blocked(Parse(stream + recv.bytes).rest))
       case TcpIdle(at) => at < |s.clients| && s.clients[at].id == id
       case TcpStop => true
       case CurlMsgs(msgs) => SomeReplyFails(s, msgs, id)
       case _ => false
  }

  /** What is pending of the stream and what was read now exceed the limit. */
  ghost predicate Overfull(s: State, e: Event, id: nat, stream: seq<byte>) {
    ReadsFrom(s, e, id) && |Parse(stream).rest| + |e.recv.bytes| > MAX_BUFFERED
  }

  ghost predicate GoesAt(cfg: Config, events: seq<Event>, i: nat, id: nat)
    requires |cfg.host| <= MAX_HOST && i < |events|
  {
    Goes(After(cfg, START, events[..i]), events[i], id, StreamOf(cfg, events[..i], id))
  }

  ghost predicate OverfullAt(cfg: Config, events: seq<Event>, i: nat, id: nat)
    requires |cfg.host| <= MAX_HOST && i < |events|
  {
    Overfull(After(cfg, START, events[..i]), events[i], id, StreamOf(cfg, events[..i], id))
  }

  lemma HasIdWithout(clients: seq<Client>, newest: nat, at: nat, id: nat)
    requires Listed(clients, newest) && at < |clients| && HasId(clients, id)
    ensures HasId(WithoutClient(clients, at), id) <==> clients[at].id != id
  {
    RemovedIdIsGone(clients, newest, at);
    if clients[at].id != id {
      var i :| 0 <= i < |clients| && clients[i].id == id;
      assert WithoutClient(clients, at)[if i < at then i else i - 1].id == id;
    }
  }

  lemma SameIds(before: seq<Client>, after: seq<Client>, id: nat)
    requires HasId(before, id) && |before| == |after|
    requires forall i :: 0 <= i < |before| ==> before[i].id == after[i].id
    ensures HasId(after, id)
  {
  }

  lemma MsgRemoves(cfg: Config, s: State, msg: CurlMsg, id: nat)
    requires Peers(cfg, s) && HasId(s.clients, id)
    ensures HasId(HandleMsg(s, msg).clients, id) <==> !ReplyFails(s, msg, id)
  {
    hide Delivers, Listed;
    var at := FindTicket(s.fetches, if msg.Done? then msg.ticket else 0);
    if msg.Done? && at < |s.fetches| {
      var f, t := s.fetches[at], HandleMsg(s, msg);
      var reply := ReplyTo(Callback(f.ticket, Finished(msg.curlOk, msg.status, msg.ctype), f.body), f.request);
      var i := FirstWith(s.clients, f.request.raddr);
      if reply != [] && i < |s.clients| && t.clients == WithoutClient(s.clients, i) {
        HasIdWithout(s.clients, s.clientId, i, id);
      } else {
        SameIds(s.clients, t.clients, id);
      }
    }
  }

  lemma GoneStaysGone(before: seq<Client>, after: seq<Client>, id: nat)
    requires SameReaders(before, after) && HasId(after, id)
    ensures HasId(before, id)
  {
    var j :| 0 <= j < |after| && after[j].id == id;
    assert Reader(before, after[j]);
  }

  lemma {:induction false} MsgsRemove(cfg: Config, s: State, msgs: seq<CurlMsg>, id: nat)
    requires Peers(cfg, s) && HasId(s.clients, id)
    ensures HasId(HandleMsgs(s, msgs).clients, id) <==> !SomeReplyFails(s, msgs, id)
    decreases |msgs|
  {
    hide Peers, HandleMsg, HasId, ReplyFails;
    if msgs == [] {
    } else {
      var k := |msgs| - 1;
      var u := HandleMsgs(s, msgs[..k]);
      MsgsRemove(cfg, s, msgs[..k], id);
      MsgsPeers(cfg, s, msgs[..k]);
      assert forall m :: 0 <= m < k ==> msgs[..k][..m] == msgs[..m];
      if HasId(u.clients, id) {
        MsgRemoves(cfg, u, msgs[k], id);
      } else {
        MsgsPeers(cfg, u, [msgs[k]]);
        assert HandleMsgs(u, [msgs[k]]) == HandleMsg(HandleMsgs(u, [msgs[k]][..0]), msgs[k]);
        if HasId(HandleMsgs(s, msgs).clients, id) {
          GoneStaysGone(u.clients, HandleMsgs(s, msgs).clients, id);
        }
        var m :| 0 <= m < k && ReplyFails(HandleMsgs(s, msgs[..k][..m]), msgs[..k][m], id);
        assert ReplyFails(HandleMsgs(s, msgs[..m]), msgs[m], id);
      }
    }
  }

  lemma ReadRemoves(cfg: Config, s: State, e: Event, at: nat, stream: seq<byte>)
    requires |cfg.host| <= MAX_HOST && Peers(cfg, s) && !s.wrapped && at < |s.clients|
    requires s.clients[at].tail == Parse(stream).rest && !Blocked(Parse(stream).rest)
    requires e.TcpData? && e.at < |s.clients|
    ensures var id := s.clients[at].id;
            HasId(Next(cfg, s, e).clients, id) <==> !Goes(s, e, id, stream) && !Overfull(s, e, id, stream)
  {
    hide Parse, WrapFree, WholeFrames, SplitPending;
    var id, t := s.clients[at].id, Next(cfg, s, e);
    assert HasId(s.clients, id);
    HasIdWithout(s.clients, s.clientId, e.at, id);
    if e.recv.Data? {
      DataRead(cfg, s, e.at, e.recv, e.adds, e.stale);
      ParseAppend(stream, e.recv.bytes, Parse(stream), Parse(Parse(stream).rest + e.recv.bytes));
      if |t.clients| == |s.clients| {
        SameIds(s.clients, t.clients, id);
      }
    }
  }

  /** One event takes the client off the list exactly for these reasons. */
  lemma NextRemoves(cfg: Config, s: State, e: Event, at: nat, stream: seq<byte>)
    requires |cfg.host| <= MAX_HOST && Peers(cfg, s) && !s.wrapped && at < |s.clients|
    requires s.clients[at].tail == Parse(stream).rest && !Blocked(Parse(stream).rest)
    ensures var id := s.clients[at].id;
            HasId(Next(cfg, s, e).clients, id) <==> !Goes(s, e, id, stream) && !Overfull(s, e, id, stream)
  {
    hide Parse, WholeFrames, ReadFrom, HandleMsgs, LookUp, Arrive;
    var id, t := s.clients[at].id, Next(cfg, s, e);
    assert HasId(s.clients, id);
    if e.CurlMsgs? {
      MsgsRemove(cfg, s, e.msgs, id);
    } else if e.TcpIdle? && e.at < |s.clients| {
      HasIdWithout(s.clients, s.clientId, e.at, id);
    } else if e.TcpData? && e.at < |s.clients| {
      ReadRemoves(cfg, s, e, at, stream);
    } else if e.TcpAccept? {
      assert t.clients == s.clients || t.clients[at + 1].id == id;
    } else if e.TcpStop? {
      assert t.clients == [];
    } else {
      SameClients(cfg, s, e);
    }
  }

  lemma FrozenWhenWrapped(cfg: Config, s: State, e: Event, id: nat, stream: seq<byte>)
    requires |cfg.host| <= MAX_HOST && s.wrapped
    ensures Next(cfg, s, e) == s && !Goes(s, e, id, stream)
  {
  }

  lemma IdsInOrder(clients: seq<Client>, newest: nat, j: nat)
    requires Listed(clients, newest) && j < |clients|
    ensures clients[j].id <= newest
  {
  }

  lemma SameClientId(cfg: Config, s: State, e: Event)
    requires |cfg.host| <= MAX_HOST && !e.TcpAccept?
    ensures Next(cfg, s, e).clientId == s.clientId
  {
    hide ReadFrom, Parse;
    if e.CurlMsgs? {
      MsgsGrow(s, e.msgs);
    } else if e.TcpData? && e.at < |s.clients| {
      ReadTouches(cfg, s, e.at, e.recv, e.adds, e.stale);
    }
  }

  /** A client enters the list only by a connection that is accepted below the limit, or that would block after
      all, before the server stops, and always under the next id. */
  lemma EntersExactly(cfg: Config, s: State, e: Event, id: nat)
    requires |cfg.host| <= MAX_HOST && Peers(cfg, s) && !HasId(s.clients, id)
    ensures HasId(Next(cfg, s, e).clients, id) <==>
              && e.TcpAccept? && (e.r.Accepted? || e.r.NothingYet?) && id == s.clientId + 1
              && !s.wrapped && !s.stopped && |s.clients| < cfg.limit
    ensures HasId(Next(cfg, s, e).clients, id) ==>
              var t := Next(cfg, s, e);
              && t.clients[1..] == s.clients && t.clients[0].id == id && t.clients[0].raddr == e.raddr
              && (e.r.Accepted? ==> t.clients[0].sock == e.r.sock)
              && t.clients[0].tail == [] && t.clients[0].answered == []
  {
    hide ReadFrom, HandleMsgs, Arrive, LookUp, WithBody, Listed;
    var t := Next(cfg, s, e);
    if e.TcpAccept? {
      if t.clients != s.clients {
        assert t.clients[0].id == s.clientId + 1;
        assert forall j :: 1 <= j < |t.clients| ==> t.clients[j] == s.clients[j - 1];
      }
    } else if HasId(t.clients, id) {
      var j :| 0 <= j < |t.clients| && t.clients[j].id == id;
      NextKeepsReader(cfg, s, e, t.clients[j]);
      NextPeers(cfg, s, e);
      IdsInOrder(t.clients, t.clientId, j);
      SameClientId(cfg, s, e);
    }
  }

  /** The last event of a run removes the client, or leaves it as it was. */
  lemma LastEvent(cfg: Config, events: seq<Event>, id: nat)
    requires |cfg.host| <= MAX_HOST && events != [] && id <= After(cfg, START, events[..|events| - 1]).clientId
    ensures var n := |events| - 1;
            && id <= After(cfg, START, events).clientId
            && (HasId(After(cfg, START, events).clients, id) <==>
                  && HasId(After(cfg, START, events[..n]).clients, id)
                  && !GoesAt(cfg, events, n, id) && !OverfullAt(cfg, events, n, id))
  {
    hide Next, Peers, Parse, Goes, Carry;
    var n := |events| - 1;
    var s, e, t := After(cfg, START, events[..n]), events[n], After(cfg, START, events);
    PeersAlways(cfg, events[..n]);
    NextGrows(cfg, s, e);
    if HasId(s.clients, id) {
      var at :| 0 <= at < |s.clients| && s.clients[at].id == id;
      ClientInStep(cfg, events[..n], s.clients[at]);
      if s.wrapped {
        FrozenWhenWrapped(cfg, s, e, id, StreamOf(cfg, events[..n], id));
      } else {
        NextRemoves(cfg, s, e, at, StreamOf(cfg, events[..n], id));
      }
    } else if HasId(t.clients, id) {
      var j :| 0 <= j < |t.clients| && t.clients[j].id == id;
      NextKeepsReader(cfg, s, e, t.clients[j]);
    }
  }

  ghost predicate LeftSince(cfg: Config, events: seq<Event>, n: nat, id: nat)
    requires |cfg.host| <= MAX_HOST
  {
    exists i :: n <= i < |events| && (GoesAt(cfg, events, i, id) || OverfullAt(cfg, events, i, id))
  }

  lemma LeftSinceNext(cfg: Config, events: seq<Event>, n: nat, id: nat)
    requires |cfg.host| <= MAX_HOST && n < |events|
    ensures var last := |events| - 1;
            LeftSince(cfg, events, n, id) <==>
              || LeftSince(cfg, events[..last], n, id)
              || GoesAt(cfg, events, last, id) || OverfullAt(cfg, events, last, id)
  {
    hide Goes, Overfull, After, StreamOf;
    var init := events[..|events| - 1];
    if i :| n <= i < |events| && (GoesAt(cfg, events, i, id) || OverfullAt(cfg, events, i, id)) {
      if i < |init| {
        assert init[..i] == events[..i];
        assert GoesAt(cfg, init, i, id) || OverfullAt(cfg, init, i, id);
      }
    }
    if i :| n <= i < |init| && (GoesAt(cfg, init, i, id) || OverfullAt(cfg, init, i, id)) {
      assert init[..i] == events[..i];
      assert GoesAt(cfg, events, i, id) || OverfullAt(cfg, events, i, id);
    }
  }

  /** Over any run, a client that was registered at some point is registered at the end exactly if nothing
      since has stopped the server, closed, failed or idled its connection, brought it a message under 12
      bytes, failed to send it a whole reply, or pushed what it has pending over the limit. */
  lemma {:induction false} LeavesExactly(cfg: Config, events: seq<Event>, n: nat, id: nat)
    requires |cfg.host| <= MAX_HOST && n <= |events| && HasId(After(cfg, START, events[..n]).clients, id)
    ensures id <= After(cfg, START, events).clientId
    ensures HasId(After(cfg, START, events).clients, id) <==> !LeftSince(cfg, events, n, id)
    decreases |events|
  {
    hide After, Goes, Overfull, StreamOf;
    PeersAlways(cfg, events[..n]);
    if n == |events| {
      assert events[..n] == events;
    } else {
      hide LeftSince, HasId;
      assert events[..|events| - 1][..n] == events[..n];
      LeavesExactly(cfg, events[..|events| - 1], n, id);
      LastEvent(cfg, events, id);
      LeftSinceNext(cfg, events, n, id);
    }
  }

  lemma {:induction false} StreamPrefix(cfg: Config, events: seq<Event>, n: nat, id: nat)
    requires |cfg.host| <= MAX_HOST && n <= |events|
    ensures StreamOf(cfg, events[..n], id) <= StreamOf(cfg, events, id)
    decreases |events|
  {
    if n == |events| {
      assert events[..n] == events;
    } else {
      assert events[..|events| - 1][..n] == events[..n];
      StreamPrefix(cfg, events[..|events| - 1], n, id);
    }
  }

  lemma NeverOverfull(cfg: Config, events: seq<Event>, i: nat, id: nat)
    requires |cfg.host| <= MAX_HOST && i < |events|
    requires events[i].TcpData? && events[i].recv.Data? ==> |events[i].recv.bytes| <= READ_SIZE
    requires LengthsAtMost(StreamOf(cfg, events, id), SAFE_PAYLOAD)
    ensures !OverfullAt(cfg, events, i, id)
  {
    hide Parse, LengthsAtMost, Carry, After, StreamOf, Next;
    var s, stream := After(cfg, START, events[..i]), StreamOf(cfg, events[..i], id);
    if ReadsFrom(s, events[i], id) {
      ClientInStep(cfg, events[..i], s.clients[events[i].at]);
      StreamPrefix(cfg, events, i, id);
      var all := StreamOf(cfg, events, id);
      assert all == stream + all[|stream|..];
      LengthsOfPrefix(stream, all[|stream|..], SAFE_PAYLOAD);
      UnfinishedIsShort(stream, SAFE_PAYLOAD);
    }
  }

  /** A client whose declared lengths stay within 61436 is never dropped for the size of what it has
      pending: it goes only by a message under 12 bytes, a closed or failed socket, idling, a reply that its
      socket did not take, or the server's stop. */
  lemma LeavesOnlyFor(cfg: Config, events: seq<Event>, n: nat, id: nat)
    requires |cfg.host| <= MAX_HOST && n <= |events| && HasId(After(cfg, START, events[..n]).clients, id)
    requires forall i :: 0 <= i < |events| && events[i].TcpData? && events[i].recv.Data? ==>
               |events[i].recv.bytes| <= READ_SIZE
    requires LengthsAtMost(StreamOf(cfg, events, id), SAFE_PAYLOAD)
    ensures HasId(After(cfg, START, events).clients, id) <==>
              !exists i :: n <= i < |events| && GoesAt(cfg, events, i, id)
  {
    LeavesExactly(cfg, events, n, id);
    forall i | n <= i < |events| ensures !OverfullAt(cfg, events, i, id) {
      NeverOverfull(cfg, events, i, id);
    }
  }
}
