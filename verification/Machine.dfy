/** The proxy as a state machine: what each event does, exactly. */
module Machines {
  import opened Bytes
  import opened Framing
  import opened TcpServers
  import opened TcpClients
  import opened AddressLists
  import opened Pinning
  import opened Ledgers

  const MAX_BODY: nat := 65535  // DOH_MAX_RESPONSE_SIZE

  /** curl_multi_add_handle: fine, aborted by a callback, or another error. */
  datatype AddResult = AddOk | AddAborted | AddFailed

  /** The outcomes of the sends that a TCP reply may need. */
  datatype Sends = Sends(header: SendResult, body: seq<SendResult>)

  /** A message from curl: a transfer is done, or something not handled. */
  datatype CurlMsg = Done(ticket: nat, curlOk: bool, status: StatusInfo, ctype: TypeInfo, sends: Sends)
                   | OtherMsg

  /** What the event loop can deliver. A TCP read comes with the result of starting each fetch it leads to
      and with the byte that lies in the buffer behind a lone one. */
  datatype Event =
    | UdpData(raddr: Address, datagram: Message, add: AddResult)
    | TcpAccept(r: AcceptResult, raddr: Address)
    | TcpData(at: nat, recv: Recv, adds: seq<AddResult>, stale: byte)
    | TcpIdle(at: nat)
    | TcpStop
    | BodyData(ticket: nat, bytes: seq<byte>)
    | CurlMsgs(msgs: seq<CurlMsg>)
    | ResetTimer
    | LookedUp(addrs: seq<string>)

  datatype Config = Config(usingPoller: bool, host: string, limit: nat)

  ghost predicate Proper(cfg: Config) {
    |cfg.host| <= MAX_HOST && ':' !in cfg.host && cfg.limit >= 1
  }

  /** The proxy at one moment. Once a 16-bit length has wrapped (`wrapped`) the run is not followed. */
  datatype State = State(clients: seq<Client>, clientId: nat, stopped: bool, wrapped: bool,
                         resolv: Pin, pinned: seq<string>, latest: seq<string>, fetches: seq<Fetch>,
                         submitted: seq<Request>, callbacks: seq<Callback>, replies: seq<Reply>)

  const START := State([], 0, false, false, NoPin, [], [], [], [], [], [])

  // ---- What each event does ----

  function TxId(m: Message): nat {
    if |m| >= 2 then U16(m) else 0
  }

  /** Requests are accepted: bootstrapping is done or not needed. */
  predicate Ready(cfg: Config, s: State) {
    !cfg.usingPoller || s.resolv.Pinned?
  }

  function WithoutClient(clients: seq<Client>, at: nat): seq<Client>
    requires at < |clients|
  {
    clients[..at] + clients[at + 1..]
  }

  function WithoutFetch(fetches: seq<Fetch>, at: nat): seq<Fetch>
    requires at < |fetches|
  {
    fetches[..at] + fetches[at + 1..]
  }

  /** The position of the fetch with this handle, or the number of fetches. */
  function FindTicket(fetches: seq<Fetch>, k: nat): (i: nat)
    ensures i <= |fetches|
    ensures i < |fetches| ==> fetches[i].ticket == k
    ensures forall j :: 0 <= j < i ==> fetches[j].ticket != k
  {
    if fetches == [] || fetches[0].ticket == k then 0 else 1 + FindTicket(fetches[1..], k)
  }

  /** Ending one fetch: its callback gets its body, its reply goes out, it leaves the list. */
  ghost function Settle(s: State, at: nat, outcome: Outcome, sends: Sends): State
    requires at < |s.fetches|
  {
    var f := s.fetches[at];
    var cb := Callback(f.ticket, outcome, f.body);
    var reply := ReplyTo(cb, f.request);
    s.(fetches := WithoutFetch(s.fetches, at), callbacks := s.callbacks + [cb], replies := s.replies + reply,
       clients := Delivered(s.clients, reply, sends.header, sends.body))
  }

  /** The callbacks that aborting these fetches one by one leads to. */
  ghost function Abortions(fetches: seq<Fetch>): seq<Callback> {
    if fetches == [] then []
    else [Callback(fetches[0].ticket, Aborted, fetches[0].body)] + Abortions(fetches[1..])
  }

  ghost function AbortAll(s: State): State {
    s.(fetches := [], callbacks := s.callbacks + Abortions(s.fetches))
  }

  /** A request arrives: discarded before bootstrapping; else submitted, and a fetch that cannot be added
      is aborted, alone or with all the others. */
  ghost function Arrive(cfg: Config, s: State, request: Request, add: AddResult): State {
    if !Ready(cfg, s) then s
    else
      var f := Fetch(|s.submitted|, request, s.resolv, NoBody);
      var t := s.(submitted := s.submitted + [request], fetches := [f] + s.fetches);
      match add
      case AddOk => t
      case AddFailed => t.(fetches := s.fetches, callbacks := s.callbacks + [Callback(f.ticket, Aborted, NoBody)])
      case AddAborted => AbortAll(t)
  }

  function AddAt(adds: seq<AddResult>, k: nat): AddResult {
    if k < |adds| then adds[k] else AddOk
  }

  function TcpRequest(raddr: Address, m: Message): Request {
    Request(true, raddr, TxId(m), m)
  }

  /** The messages of one TCP client arrive one after another. */
  ghost function ArriveAll(cfg: Config, s: State, raddr: Address, ms: seq<Message>, adds: seq<AddResult>): State {
    if ms == [] then s
    else
      var k := |ms| - 1;
      Arrive(cfg, ArriveAll(cfg, s, raddr, ms[..k], adds), TcpRequest(raddr, ms[k]), AddAt(adds, k))
  }

  /** The whole requests pending at a client arrive; what is left stays, or the client goes. */
  ghost function SplitPending(cfg: Config, s: State, at: nat, adds: seq<AddResult>, stale: byte): State
    requires at < |s.clients|
  {
    var c := s.clients[at];
    var p := Parse(c.tail);
    ArriveAll(cfg, s, c.raddr, p.requests, adds).(
      clients := if Blocked(p.rest) then WithoutClient(s.clients, at) else s.clients[at := c.(tail := p.rest)],
      wrapped := s.wrapped || !WrapFree(c.tail, stale))
  }

  ghost function ReadFrom(cfg: Config, s: State, at: nat, recv: Recv, adds: seq<AddResult>, stale: byte): State
    requires at < |s.clients|
  {
    var c := s.clients[at];
    if recv.WouldBlock? then s
    else if !recv.Data? || recv.bytes == [] || |c.tail| + |recv.bytes| > MAX_BUFFERED then
      s.(clients := WithoutClient(s.clients, at))
    else
      SplitPending(cfg, s.(clients := s.clients[at := c.(tail := c.tail + recv.bytes)]), at, adds, stale)
  }

  /** A piece of a body is taken up to 65535 bytes in all, or refused. */
  function WithBody(b: Body, bytes: seq<byte>): Body {
    var was := if b.Body? then b.bytes else [];
    if |was| + |bytes| > MAX_BODY then b else Body(was + bytes)
  }

  ghost function HandleMsg(s: State, msg: CurlMsg): State {
    if msg.OtherMsg? then s
    else
      var at := FindTicket(s.fetches, msg.ticket);
      if at == |s.fetches| then s
      else Settle(s, at, Finished(msg.curlOk, msg.status, msg.ctype), msg.sends)
  }

  ghost function HandleMsgs(s: State, msgs: seq<CurlMsg>): State {
    if msgs == [] then s else HandleMsg(HandleMsgs(s, msgs[..|msgs| - 1]), msgs[|msgs| - 1])
  }

  /** The current pin may stay: all its addresses are seen in the list. */
  ghost predicate Covers(addrs: seq<string>, pin: Pin) {
    pin.Pinned? && CutOut(pin.text).Pinned? && AllPresent(Join(addrs), Tokens(CutOut(pin.text).text))
  }

  ghost function LookUp(cfg: Config, s: State, addrs: seq<string>): State
    requires |cfg.host| <= MAX_HOST
  {
    var t := s.(latest := addrs);
    if Covers(addrs, s.resolv) then t
    else AbortAll(t.(resolv := Pinned(PinText(cfg.host, Join(addrs))), pinned := addrs))
  }

  /** One event. Those that no registered watcher can raise change nothing. */
  ghost function Next(cfg: Config, s: State, e: Event): State
    requires |cfg.host| <= MAX_HOST
  {
    if s.wrapped then s
    else
      match e
      case UdpData(raddr, d, add) =>
        if HEADER_LENGTH <= |d| <= READ_SIZE then Arrive(cfg, s, Request(false, raddr, TxId(d), d), add) else s
      case TcpAccept(r, raddr) =>
        if s.stopped || |s.clients| >= cfg.limit || r.AcceptFailed? then s
        else
          var c := Client(s.clientId + 1, if r.Accepted? then r.sock else -1, raddr, [], [], []);
          s.(clientId := s.clientId + 1, clients := [c] + s.clients)
      case TcpData(at, recv, adds, stale) => if at < |s.clients| then ReadFrom(cfg, s, at, recv, adds, stale) else s
      case TcpIdle(at) => if at < |s.clients| then s.(clients := WithoutClient(s.clients, at)) else s
      case TcpStop => s.(clients := [], stopped := true)
      case BodyData(ticket, bytes) =>
        var at := FindTicket(s.fetches, ticket);
        if at == |s.fetches| then s
        else s.(fetches := s.fetches[at := s.fetches[at].(body := WithBody(s.fetches[at].body, bytes))])
      case CurlMsgs(msgs) => HandleMsgs(s, msgs)
      case ResetTimer => AbortAll(s)
      case LookedUp(addrs) => LookUp(cfg, s, addrs)
  }

  ghost function After(cfg: Config, s: State, events: seq<Event>): State
    requires |cfg.host| <= MAX_HOST
  {
    if events == [] then s else Next(cfg, After(cfg, s, events[..|events| - 1]), events[|events| - 1])
  }

  /** A whole life: events, the TCP server stops, the loop runs on, and what is left is aborted. */
  ghost function Life(cfg: Config, events: seq<Event>, rest: seq<Event>): State
    requires |cfg.host| <= MAX_HOST
  {
    AbortAll(After(cfg, START, events + [TcpStop] + rest))
  }

  lemma {:induction false} AfterConcat(cfg: Config, s: State, a: seq<Event>, b: seq<Event>)
    requires |cfg.host| <= MAX_HOST
    ensures After(cfg, s, a + b) == After(cfg, After(cfg, s, a), b)
    decreases |b|
  {
    if b == [] {
      assert a + b == a;
    } else {
      hide Next;
      AfterConcat(cfg, s, a, b[..|b| - 1]);
      assert (a + b)[..|a + b| - 1] == a + b[..|b| - 1];
    }
  }

  // ---- How the pieces act on the parts of the state ----

  /** All but the fetches, requests and callbacks. */
  ghost predicate SameElse(s: State, t: State) {
    t == s.(fetches := t.fetches, submitted := t.submitted, callbacks := t.callbacks)
  }

  lemma ArriveTouches(cfg: Config, s: State, request: Request, add: AddResult, clients: seq<Client>)
    ensures SameElse(s, Arrive(cfg, s, request, add))
    ensures Arrive(cfg, s.(clients := clients), request, add) == Arrive(cfg, s, request, add).(clients := clients)
    ensures Arrive(cfg, s, request, add).submitted == s.submitted + if Ready(cfg, s) then [request] else []
  {
  }

  ghost function TcpRequests(raddr: Address, ms: seq<Message>): seq<Request> {
    if ms == [] then [] else TcpRequests(raddr, ms[..|ms| - 1]) + [TcpRequest(raddr, ms[|ms| - 1])]
  }

  lemma {:induction false} ArriveAllTouches(cfg: Config, s: State, raddr: Address, ms: seq<Message>,
                                            adds: seq<AddResult>)
    ensures var t := ArriveAll(cfg, s, raddr, ms, adds);
            SameElse(s, t) && t.submitted == s.submitted + if Ready(cfg, s) then TcpRequests(raddr, ms) else []
  {
    if ms == [] {
    } else {
      var k := |ms| - 1;
      ArriveAllTouches(cfg, s, raddr, ms[..k], adds);
      var t := ArriveAll(cfg, s, raddr, ms[..k], adds);
      ArriveTouches(cfg, t, TcpRequest(raddr, ms[k]), AddAt(adds, k), []);
      assert Ready(cfg, t) == Ready(cfg, s);
    }
  }

  lemma AbortFirst(s: State, sends: Sends)
    requires s.fetches != []
    ensures AbortAll(Settle(s, 0, Aborted, sends)) == AbortAll(s)
    ensures Settle(s, 0, Aborted, sends).clients == s.clients && Settle(s, 0, Aborted, sends).replies == s.replies
  {
    var cb := Callback(s.fetches[0].ticket, Aborted, s.fetches[0].body);
    assert WithoutFetch(s.fetches, 0) == s.fetches[1..];
    assert s.callbacks + ([cb] + Abortions(s.fetches[1..])) == s.callbacks + [cb] + Abortions(s.fetches[1..]);
  }
}
