/** Requests, fetches, callbacks and replies: what the proxy owes and what it has settled. */
module Ledgers {
  import opened Bytes
  import opened Framing
  import opened TcpServers
  import opened Pinning

  datatype Request = Request(isTcp: bool, raddr: Address, txId: nat, dnsReq: Message)

  /** A response body as the client holds it: NULL, or the bytes received so far. */
  datatype Body = NoBody | Body(bytes: seq<byte>)

  /** An in-flight fetch. The ticket stands for its curl handle: it is the request's number. */
  datatype Fetch = Fetch(ticket: nat, request: Request, pin: Pin, body: Body)

  datatype StatusInfo = StatusUnread | Status(code: int)
  datatype TypeInfo = TypeUnread | TypeUnset | Type(text: string)

  /** How a transfer ended: aborted by us, or with curl's result and what it reports. */
  datatype Outcome = Aborted | Finished(curlOk: bool, status: StatusInfo, ctype: TypeInfo)

  const DOH_CONTENT_TYPE: string := "application/dns-message"

  /** Good enough to answer from: curl succeeded, status 200, and a Content-Type that, if it could
      be read, starts with the one asked for. */
  predicate Acceptable(o: Outcome) {
    && o.Finished? && o.curlOk && o.status == Status(200)
    && match o.ctype
       case TypeUnread => true
       case TypeUnset => false
       case Type(text) => DOH_CONTENT_TYPE <= text
  }

  /** One run of the response callback: whose, how the transfer ended, and the body received. */
  datatype Callback = Callback(ticket: nat, outcome: Outcome, received: Body)

  datatype Reply = Reply(ticket: nat, isTcp: bool, raddr: Address, bytes: Message)

  ghost predicate InFlight(fetches: seq<Fetch>, k: nat) {
    exists i :: 0 <= i < |fetches| && fetches[i].ticket == k
  }

  ghost predicate CalledBack(callbacks: seq<Callback>, k: nat) {
    exists i :: 0 <= i < |callbacks| && callbacks[i].ticket == k
  }

  /** Every request ever submitted is in flight once and not called back, or called back once and
      not in flight. */
  ghost predicate ExactlyOnce(fetches: seq<Fetch>, callbacks: seq<Callback>, submitted: seq<Request>) {
    && (forall i, j :: 0 <= i < j < |fetches| ==> fetches[i].ticket > fetches[j].ticket)
    && (forall i :: 0 <= i < |fetches| ==>
          fetches[i].ticket < |submitted| && fetches[i].request == submitted[fetches[i].ticket])
    && (forall i, j :: 0 <= i < j < |callbacks| ==> callbacks[i].ticket != callbacks[j].ticket)
    && (forall i :: 0 <= i < |callbacks| ==> callbacks[i].ticket < |submitted|)
    && (forall k :: 0 <= k < |submitted| ==> (InFlight(fetches, k) <==> !CalledBack(callbacks, k)))
  }

  lemma SubmitKeeps(fetches: seq<Fetch>, callbacks: seq<Callback>, submitted: seq<Request>, f: Fetch)
    requires ExactlyOnce(fetches, callbacks, submitted) && f.ticket == |submitted|
    ensures ExactlyOnce([f] + fetches, callbacks, submitted + [f.request])
  {
    var fs, s := [f] + fetches, submitted + [f.request];
    assert fs[0].ticket == |submitted|;
    forall k | 0 <= k < |s|
      ensures InFlight(fs, k) <==> !CalledBack(callbacks, k)
    {
      if InFlight(fetches, k) {
        var i :| 0 <= i < |fetches| && fetches[i].ticket == k;
        assert fs[i + 1].ticket == k;
      }
    }
  }

  /** One fetch less in flight, one more called back; all others as before. */
  lemma OneSettled(fetches: seq<Fetch>, callbacks: seq<Callback>, at: nat, cb: Callback, k: nat)
    requires at < |fetches| && cb.ticket == fetches[at].ticket
    requires forall i :: 0 <= i < |fetches| && i != at ==> fetches[i].ticket != cb.ticket
    ensures InFlight(fetches[..at] + fetches[at + 1..], k) <==> InFlight(fetches, k) && k != cb.ticket
    ensures CalledBack(callbacks + [cb], k) <==> CalledBack(callbacks, k) || k == cb.ticket
  {
    var fs, cs := fetches[..at] + fetches[at + 1..], callbacks + [cb];
    assert forall i :: 0 <= i < |fs| ==> fs[i] == fetches[if i < at then i else i + 1];
    assert cs[|callbacks|] == cb;
    if i :| 0 <= i < |fetches| && fetches[i].ticket == k && k != cb.ticket {
      assert fs[if i < at then i else i - 1].ticket == k;
    }
    if i :| 0 <= i < |callbacks| && callbacks[i].ticket == k {
      assert cs[i].ticket == k;
    }
  }

  lemma CompleteKeeps(fetches: seq<Fetch>, callbacks: seq<Callback>, submitted: seq<Request>, at: nat, cb: Callback)
    requires ExactlyOnce(fetches, callbacks, submitted) && at < |fetches| && cb.ticket == fetches[at].ticket
    ensures ExactlyOnce(fetches[..at] + fetches[at + 1..], callbacks + [cb], submitted)
  {
    var fs, cs := fetches[..at] + fetches[at + 1..], callbacks + [cb];
    assert forall i :: 0 <= i < |fs| ==> fs[i] == fetches[if i < at then i else i + 1];
    assert InFlight(fetches, cb.ticket);
    forall k | 0 <= k < |submitted| ensures InFlight(fs, k) <==> !CalledBack(cs, k) {
      OneSettled(fetches, callbacks, at, cb, k);
    }
  }

  /** A change of one body leaves the balance alone. */
  lemma SameTickets(fetches: seq<Fetch>, callbacks: seq<Callback>, submitted: seq<Request>, at: nat, body: Body)
    requires at < |fetches| && ExactlyOnce(fetches, callbacks, submitted)
    ensures ExactlyOnce(fetches[at := fetches[at].(body := body)], callbacks, submitted)
  {
    var fs := fetches[at := fetches[at].(body := body)];
    assert forall i :: 0 <= i < |fs| ==> fs[i].ticket == fetches[i].ticket && fs[i].request == fetches[i].request;
    forall k | 0 <= k < |submitted| ensures InFlight(fs, k) <==> InFlight(fetches, k) {
      if InFlight(fetches, k) {
        var i :| 0 <= i < |fetches| && fetches[i].ticket == k;
        assert fs[i].ticket == k;
      }
    }
  }

  ghost predicate CalledBackOnce(callbacks: seq<Callback>, k: nat) {
    exists i :: 0 <= i < |callbacks| && callbacks[i].ticket == k
                && forall j :: 0 <= j < |callbacks| && j != i ==> callbacks[j].ticket != k
  }

  /** Once nothing is in flight every request has had its callback, exactly one. */
  lemma AllSettled(callbacks: seq<Callback>, submitted: seq<Request>, k: nat)
    requires ExactlyOnce([], callbacks, submitted) && k < |submitted|
    ensures CalledBackOnce(callbacks, k)
  {
    assert !InFlight([], k);
    var i :| 0 <= i < |callbacks| && callbacks[i].ticket == k;
  }

  // ---- Replies ----

  function ReplyTo(cb: Callback, r: Request): seq<Reply> {
    if Acceptable(cb.outcome) && cb.received.Body? && |cb.received.bytes| >= HEADER_LENGTH
       && U16(cb.received.bytes) == r.txId
    then [Reply(cb.ticket, r.isTcp, r.raddr, cb.received.bytes)]
    else []
  }

  /** The replies that a history of callbacks calls for, in order. */
  ghost function RepliesOf(callbacks: seq<Callback>, submitted: seq<Request>): seq<Reply>
    requires forall i :: 0 <= i < |callbacks| ==> callbacks[i].ticket < |submitted|
  {
    if callbacks == [] then []
    else
      var last := callbacks[|callbacks| - 1];
      RepliesOf(callbacks[..|callbacks| - 1], submitted) + ReplyTo(last, submitted[last.ticket])
  }

  lemma {:induction false} RepliesUnaffected(callbacks: seq<Callback>, submitted: seq<Request>, r: Request)
    requires forall i :: 0 <= i < |callbacks| ==> callbacks[i].ticket < |submitted|
    ensures RepliesOf(callbacks, submitted + [r]) == RepliesOf(callbacks, submitted)
  {
    if callbacks == [] {
    } else {
      RepliesUnaffected(callbacks[..|callbacks| - 1], submitted, r);
    }
  }

  /** One more callback calls for its own reply, if any, and settles its fetch. */
  lemma SettleKeeps(fetches: seq<Fetch>, callbacks: seq<Callback>, submitted: seq<Request>, at: nat, cb: Callback)
    requires ExactlyOnce(fetches, callbacks, submitted) && at < |fetches| && cb.ticket == fetches[at].ticket
    ensures ExactlyOnce(fetches[..at] + fetches[at + 1..], callbacks + [cb], submitted)
    ensures RepliesOf(callbacks + [cb], submitted)
            == RepliesOf(callbacks, submitted) + ReplyTo(cb, fetches[at].request)
  {
    CompleteKeeps(fetches, callbacks, submitted, at, cb);
    assert (callbacks + [cb])[..|callbacks|] == callbacks;
  }

  ghost predicate Owed(raddr: Address, m: Message, replies: seq<Reply>) {
    exists k :: 0 <= k < |replies| && replies[k].isTcp && replies[k].raddr == raddr && replies[k].bytes == m
  }

  /** What a TCP client was sent are replies to requests from its address. */
  ghost predicate AnswersOwed(clients: seq<Client>, replies: seq<Reply>) {
    forall i, j :: 0 <= i < |clients| && 0 <= j < |clients[i].answered| ==>
      Owed(clients[i].raddr, clients[i].answered[j], replies)
  }

  lemma OwedWithout(clients: seq<Client>, replies: seq<Reply>, at: nat)
    requires AnswersOwed(clients, replies) && at < |clients|
    ensures AnswersOwed(clients[..at] + clients[at + 1..], replies)
  {
    var cs := clients[..at] + clients[at + 1..];
    assert forall i :: 0 <= i < |cs| ==> cs[i] == clients[if i < at then i else i + 1];
  }

  lemma OwedWithTail(clients: seq<Client>, replies: seq<Reply>, at: nat, tail: seq<byte>)
    requires AnswersOwed(clients, replies) && at < |clients|
    ensures AnswersOwed(clients[at := clients[at].(tail := tail)], replies)
  {
    var cs := clients[at := clients[at].(tail := tail)];
    assert forall i :: 0 <= i < |cs| ==> cs[i].raddr == clients[i].raddr && cs[i].answered == clients[i].answered;
  }

  lemma OwedWithNew(clients: seq<Client>, replies: seq<Reply>, c: Client)
    requires AnswersOwed(clients, replies) && c.answered == []
    ensures AnswersOwed([c] + clients, replies)
  {
    var cs := [c] + clients;
    assert forall i :: 1 <= i < |cs| ==> cs[i] == clients[i - 1];
  }

  lemma OwedStill(clients: seq<Client>, replies: seq<Reply>, more: seq<Reply>)
    requires AnswersOwed(clients, replies)
    ensures AnswersOwed(clients, replies + more)
  {
    forall i, j | 0 <= i < |clients| && 0 <= j < |clients[i].answered|
      ensures Owed(clients[i].raddr, clients[i].answered[j], replies + more)
    {
      assert Owed(clients[i].raddr, clients[i].answered[j], replies);
      var k :| 0 <= k < |replies| && replies[k].isTcp && replies[k].raddr == clients[i].raddr
               && replies[k].bytes == clients[i].answered[j];
      assert (replies + more)[k] == replies[k];
    }
  }

  /** The client list once a reply, if it goes to TCP, has been sent. */
  ghost function Delivered(clients: seq<Client>, reply: seq<Reply>, header: SendResult,
                           sends: seq<SendResult>): seq<Client>
  {
    if reply != [] && reply[0].isTcp
    then Responded(clients, reply[0].raddr, reply[0].bytes, header, sends)
    else clients
  }

  ghost predicate Reader(clients: seq<Client>, c: Client) {
    exists i :: 0 <= i < |clients| && clients[i].id == c.id && clients[i].raddr == c.raddr && clients[i].tail == c.tail
  }

  /** Clients may have gone and may have been sent more, but none is new and no input was touched. */
  ghost predicate SameReaders(before: seq<Client>, after: seq<Client>) {
    forall j :: 0 <= j < |after| ==> Reader(before, after[j])
  }

  lemma DeliveredListed(clients: seq<Client>, newest: nat, reply: seq<Reply>, header: SendResult,
                        sends: seq<SendResult>)
    requires Listed(clients, newest)
    ensures Listed(Delivered(clients, reply, header, sends), newest)
    ensures |Delivered(clients, reply, header, sends)| <= |clients|
  {
    hide Listed, Delivers;
    if reply != [] && reply[0].isTcp {
      var i := FirstWith(clients, reply[0].raddr);
      if HEADER_LENGTH <= |reply[0].bytes| <= MAX_BUFFERED && i < |clients| {
        ListedAfterReply(clients, newest, i, reply[0].bytes);
        ListedWithout(clients, newest, i);
      }
    }
  }

  lemma DeliveredReaders(clients: seq<Client>, reply: seq<Reply>, header: SendResult, sends: seq<SendResult>)
    ensures SameReaders(clients, Delivered(clients, reply, header, sends))
  {
    var after := Delivered(clients, reply, header, sends);
    forall j | 0 <= j < |after| ensures Reader(clients, after[j]) {
      var i := if |after| == |clients| || j < FirstWith(clients, reply[0].raddr) then j else j + 1;
      assert clients[i].id == after[j].id && clients[i].raddr == after[j].raddr && clients[i].tail == after[j].tail;
    }
  }

  lemma ReadersOfReaders(a: seq<Client>, b: seq<Client>, c: seq<Client>)
    requires SameReaders(a, b) && SameReaders(b, c)
    ensures SameReaders(a, c)
  {
    forall k | 0 <= k < |c| ensures Reader(a, c[k]) {
      assert Reader(b, c[k]);
      var j :| 0 <= j < |b| && b[j].id == c[k].id && b[j].raddr == c[k].raddr && b[j].tail == c[k].tail;
      assert Reader(a, b[j]);
    }
  }

  lemma OwedDelivered(clients: seq<Client>, replies: seq<Reply>, reply: seq<Reply>, header: SendResult,
                      sends: seq<SendResult>)
    requires AnswersOwed(clients, replies)
    ensures AnswersOwed(Delivered(clients, reply, header, sends), replies + reply)
  {
    OwedStill(clients, replies, reply);
    if reply != [] && reply[0].isTcp {
      var i := FirstWith(clients, reply[0].raddr);
      assert (replies + reply)[|replies|] == reply[0];
      assert Owed(reply[0].raddr, reply[0].bytes, replies + reply);
      if i < |clients| {
        OwedWithout(clients, replies + reply, i);
      }
    }
  }

  /** Reply safety: a reply answers one earlier request by transport, peer and ID, and stems from
      the one callback of that request, whose transfer was acceptable and brought these bytes. */
  lemma {:induction false} EachReplyIsOwed(callbacks: seq<Callback>, submitted: seq<Request>, i: nat)
    returns (c: nat)
    requires forall i :: 0 <= i < |callbacks| ==> callbacks[i].ticket < |submitted|
    requires i < |RepliesOf(callbacks, submitted)|
    ensures c < |callbacks|
    ensures var r := RepliesOf(callbacks, submitted)[i];
            var q := submitted[callbacks[c].ticket];
            && r.ticket == callbacks[c].ticket && r.isTcp == q.isTcp && r.raddr == q.raddr
            && |r.bytes| >= HEADER_LENGTH && U16(r.bytes) == q.txId
            && Acceptable(callbacks[c].outcome) && callbacks[c].received == Body(r.bytes)
    decreases |callbacks|
  {
    c := |callbacks| - 1;
    var init := callbacks[..c];
    if i < |RepliesOf(init, submitted)| {
      c := EachReplyIsOwed(init, submitted, i);
    }
  }

  ghost predicate Replied(replies: seq<Reply>, k: nat) {
    exists j :: 0 <= j < |replies| && replies[j].ticket == k
  }

  lemma RepliedConcat(a: seq<Reply>, b: seq<Reply>, k: nat)
    ensures Replied(a + b, k) <==> Replied(a, k) || Replied(b, k)
  {
    if j :| 0 <= j < |a| && a[j].ticket == k {
      assert (a + b)[j].ticket == k;
    }
    if j :| 0 <= j < |b| && b[j].ticket == k {
      assert (a + b)[|a| + j].ticket == k;
    }
  }

  /** A callback leads to a reply under its ticket if and only if its own outcome and body call for one. */
  lemma {:induction false} RepliedIff(callbacks: seq<Callback>, submitted: seq<Request>, c: nat)
    requires forall i :: 0 <= i < |callbacks| ==> callbacks[i].ticket < |submitted|
    requires forall i, j :: 0 <= i < j < |callbacks| ==> callbacks[i].ticket != callbacks[j].ticket
    requires c < |callbacks|
    ensures Replied(RepliesOf(callbacks, submitted), callbacks[c].ticket)
            <==> ReplyTo(callbacks[c], submitted[callbacks[c].ticket]) != []
    decreases |callbacks|
  {
    var n, k := |callbacks| - 1, callbacks[c].ticket;
    var init := RepliesOf(callbacks[..n], submitted);
    var last := ReplyTo(callbacks[n], submitted[callbacks[n].ticket]);
    RepliedConcat(init, last, k);
    if c < n {
      RepliedIff(callbacks[..n], submitted, c);
    } else {
      forall j | 0 <= j < |init| ensures init[j].ticket != k {
        var d := EachReplyIsOwed(callbacks[..n], submitted, j);
      }
      assert last != [] ==> last[0].ticket == k;
    }
  }

  /** No request gets two replies. */
  lemma {:induction false} NoSecondReply(callbacks: seq<Callback>, submitted: seq<Request>, i: nat, j: nat)
    requires forall i :: 0 <= i < |callbacks| ==> callbacks[i].ticket < |submitted|
    requires forall i, j :: 0 <= i < j < |callbacks| ==> callbacks[i].ticket != callbacks[j].ticket
    requires i < j < |RepliesOf(callbacks, submitted)|
    ensures RepliesOf(callbacks, submitted)[i].ticket != RepliesOf(callbacks, submitted)[j].ticket
    decreases |callbacks|
  {
    var init := callbacks[..|callbacks| - 1];
    var c := EachReplyIsOwed(init, submitted, i);
    if j < |RepliesOf(init, submitted)| {
      NoSecondReply(init, submitted, i, j);
    }
  }
}
