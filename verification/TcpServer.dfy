/** The TCP listener: admission of clients, their list, and replies under partial sends. */
module TcpServers {
  import opened Bytes
  import opened Framing

  type Address = seq<byte>

  datatype AcceptResult = Accepted(sock: int) | NothingYet | AcceptFailed

  /** A look into a client's buffer: no whole request, one taken out, or a length that wraps. */
  datatype Look = NoneYet | Whole(request: Message) | Wrapped

  /** What one send() reports: bytes taken, a full socket buffer, or an error. */
  datatype SendResult = Sent(n: nat) | Again | Broken

  /** A registered client. `tail` is what its input buffer holds; `wire` are the bytes its socket
      has taken, and `answered` the responses they came from. */
  datatype Client = Client(id: nat, sock: int, raddr: Address, tail: seq<byte>,
                           wire: seq<byte>, answered: seq<Message>)

  const SEND_ATTEMPTS: nat := 50

  ghost predicate NoBreak(sends: seq<SendResult>) {
    forall i :: 0 <= i < |sends| ==> !sends[i].Broken?
  }

  ghost function Total(sends: seq<SendResult>): nat {
    if sends == [] then 0
    else
      var last := sends[|sends| - 1];
      Total(sends[..|sends| - 1]) + (if last.Sent? then last.n else 0)
  }

  /** Within 50 attempts and before any error the socket takes `len` bytes. */
  ghost predicate Delivers(sends: seq<SendResult>, len: nat) {
    exists k :: 0 <= k <= |sends| && k <= 50 && NoBreak(sends[..k]) && Total(sends[..k]) >= len
  }

  lemma {:induction false} TotalGrows(sends: seq<SendResult>, j: nat, k: nat)
    requires j <= k <= |sends|
    ensures Total(sends[..j]) <= Total(sends[..k])
    decreases k
  {
    if j == k {
    } else {
      TotalGrows(sends, j, k - 1);
      assert sends[..k][..k - 1] == sends[..k - 1];
    }
  }

  /** The position of the first client with this peer address, or the number of clients. */
  ghost function FirstWith(clients: seq<Client>, raddr: Address): (i: nat)
    ensures i <= |clients|
    ensures i < |clients| ==> clients[i].raddr == raddr
    ensures forall j :: 0 <= j < i ==> clients[j].raddr != raddr
  {
    if clients == [] || clients[0].raddr == raddr then 0
    else 1 + FirstWith(clients[1..], raddr)
  }

  /** The socket has taken complete length-prefixed responses and nothing else. */
  ghost predicate WholeFrames(c: Client) {
    && (forall i :: 0 <= i < |c.answered| ==> HEADER_LENGTH <= |c.answered[i]| <= MAX_BUFFERED)
    && c.wire == Frames(c.answered)
  }

  /** Ids strictly decrease along the list, and every socket has taken whole responses. */
  ghost predicate Listed(clients: seq<Client>, newest: nat) {
    && (forall i, j :: 0 <= i < j < |clients| ==> clients[i].id > clients[j].id)
    && (forall i :: 0 <= i < |clients| ==> clients[i].id <= newest && WholeFrames(clients[i]))
  }

  lemma ListedWithout(clients: seq<Client>, newest: nat, at: nat)
    requires Listed(clients, newest) && at < |clients|
    ensures Listed(clients[..at] + clients[at + 1..], newest)
  {
    var rest := clients[..at] + clients[at + 1..];
    forall i | 0 <= i < |rest|
      ensures rest[i].id <= newest && WholeFrames(rest[i])
    {
      assert rest[i] == clients[if i < at then i else i + 1];
    }
    forall i, j | 0 <= i < j < |rest|
      ensures rest[i].id > rest[j].id
    {
      assert rest[i] == clients[if i < at then i else i + 1];
      assert rest[j] == clients[if j < at then j else j + 1];
    }
  }

  /** The list after a response was sent: to the first client with this peer address, if any, and
      that client either took all of it or is gone. */
  ghost function Responded(clients: seq<Client>, raddr: Address, resp: Message, header: SendResult,
                           sends: seq<SendResult>): seq<Client>
  {
    var i := FirstWith(clients, raddr);
    if !(HEADER_LENGTH <= |resp| <= MAX_BUFFERED) || i == |clients| then
      clients
    else if header == Sent(2) && Delivers(sends, |resp|) then
      clients[i := clients[i].(wire := clients[i].wire + Frame(resp), answered := clients[i].answered + [resp])]
    else
      clients[..i] + clients[i + 1..]
  }

  /** A response goes to the first client with its peer address and to no other: at the end of what that
      client was answered if its socket takes all of it, else the client goes. Without such a client, or with
      a response under 12 or over 65533 bytes, nothing changes. */
  lemma RespondedExactly(clients: seq<Client>, raddr: Address, resp: Message, header: SendResult,
                         sends: seq<SendResult>, i: nat)
    requires i < |clients| && clients[i].raddr == raddr && forall j :: 0 <= j < i ==> clients[j].raddr != raddr
    ensures var after := Responded(clients, raddr, resp, header, sends);
            if !(12 <= |resp| <= 65533) then after == clients
            else if header == Sent(2) && Delivers(sends, |resp|) then
              && |after| == |clients| && (forall j :: 0 <= j < |clients| && j != i ==> after[j] == clients[j])
              && after[i].answered == clients[i].answered + [resp] && after[i].wire == clients[i].wire + Frame(resp)
              && after[i].id == clients[i].id && after[i].raddr == raddr && after[i].tail == clients[i].tail
            else
              after == clients[..i] + clients[i + 1..]
  {
    hide Delivers, Frame;
    assert FirstWith(clients, raddr) == i;
  }

  lemma OneMoreFrame(ms: seq<Message>, m: Message)
    requires Encodable(ms) && |m| < 65536
    ensures Frames(ms + [m]) == Frames(ms) + Frame(m)
  {
    FramesConcat(ms, [m]);
    FramesCons(m, []);
    assert [m] + [] == [m];
  }

  lemma ListedWithNew(clients: seq<Client>, newest: nat, c: Client)
    requires Listed(clients, newest) && c.id > newest && c.wire == [] && c.answered == []
    ensures Listed([c] + clients, c.id)
  {
    var cs := [c] + clients;
    assert forall i :: 1 <= i < |cs| ==> cs[i] == clients[i - 1];
  }

  lemma ListedWithTail(clients: seq<Client>, newest: nat, at: nat, tail: seq<byte>)
    requires Listed(clients, newest) && at < |clients|
    ensures Listed(clients[at := clients[at].(tail := tail)], newest)
  {
  }

  lemma ListedAfterReply(clients: seq<Client>, newest: nat, at: nat, resp: Message)
    requires Listed(clients, newest) && at < |clients| && HEADER_LENGTH <= |resp| <= MAX_BUFFERED
    ensures var c := clients[at];
            Listed(clients[at := c.(wire := c.wire + Frame(resp), answered := c.answered + [resp])], newest)
  {
    OneMoreFrame(clients[at].answered, resp);
  }

  class TcpServer {
    const limit: nat          // client_limit
    var clientId: nat
    var clientCount: nat
    var clients: seq<Client>  // newest first
    var accepting: bool       // accept_watcher is active
    var stopped: bool

    /** The counter is the list's length and within the limit; accepting is on exactly below it. */
    ghost predicate Admission()
      reads this
    {
      && 1 <= limit
      && clientCount == |clients| <= limit
      && (!stopped ==> (accepting <==> clientCount < limit))
      && (stopped ==> clients == [] && !accepting)
    }

    ghost predicate Valid()
      reads this
    {
      Admission() && Listed(clients, clientId)
    }

    constructor (limit: nat)
      requires limit >= 1
      ensures Valid() && this.limit == limit && clients == [] && clientId == 0 && accepting && !stopped
    {
      this.limit := limit;
      clientId, clientCount, clients, accepting, stopped := 0, 0, [], true, false;
    }

    /** A connection waits. When accept() would block after all, the code goes on with socket -1. */
    method AcceptCb(r: AcceptResult, raddr: Address)
      requires Valid() && accepting
      modifies this
      ensures Valid() && !stopped
      ensures r.AcceptFailed? ==> clients == old(clients) && clientId == old(clientId)
      ensures !r.AcceptFailed? ==>
                && clientId == old(clientId) + 1
                && clients == [Client(clientId, if r.Accepted? then r.sock else -1, raddr, [], [], [])] + old(clients)
    {
      hide Listed;
      if r.AcceptFailed? {
        return;
      }
      clientId := clientId + 1;
      clientCount := clientCount + 1;
      if clientCount == limit {
        accepting := false;
      }
      ListedWithNew(clients, clientId - 1, Client(clientId, if r.Accepted? then r.sock else -1, raddr, [], [], []));
      var sock := if r.Accepted? then r.sock else -1;
      clients := [Client(clientId, sock, raddr, [], [], [])] + clients;
    }

    /** Takes the client out of the list, found by walking it. */
    method Unlink(at: nat)
      requires Listed(clients, clientId) && at < |clients|
      modifies this`clients
      ensures clients == old(clients)[..at] + old(clients)[at + 1..]
    {
      hide WholeFrames;
      var id := clients[at].id;
      if clients[0].id == id {
        assert at == 0;
        clients := clients[1..];
      } else {
        var cur := 0;
        while clients[cur + 1].id != id
          invariant cur < at
        {
          cur := cur + 1;
        }
        assert cur + 1 == at;
        clients := clients[..cur + 1] + clients[cur + 2..];
      }
    }

    /** Removes one client; there is room for another now. */
    method RemoveClient(at: nat)
      requires Valid() && at < |clients|
      modifies this
      ensures Valid() && !stopped
      ensures clients == old(clients)[..at] + old(clients)[at + 1..] && clientId == old(clientId)
    {
      hide Listed;
      if clientCount == limit {
        accepting := true;
      }
      clientCount := clientCount - 1;
      ListedWithout(clients, clientId, at);
      Unlink(at);
    }

    /** Data was received: append it, or drop the client when too much is pending. */
    method Receive(at: nat, bytes: seq<byte>) returns (kept: bool)
      requires Valid() && at < |clients|
      modifies this
      ensures Valid() && clientId == old(clientId) && stopped == old(stopped)
      ensures kept <==> |old(clients[at]).tail| + |bytes| <= MAX_BUFFERED
      ensures kept ==> clients == old(clients)[at := old(clients[at]).(tail := old(clients[at]).tail + bytes)]
      ensures !kept ==> clients == old(clients)[..at] + old(clients)[at + 1..]
    {
      var c := clients[at];
      if |c.tail| + |bytes| > MAX_BUFFERED {
        RemoveClient(at);
        return false;
      }
      clients := clients[at := c.(tail := c.tail + bytes)];
      kept := true;
    }

    /** Looks for the next whole request in the client's buffer and takes it out; `stale` lies behind a
        lone byte. With nothing in use the look is at the header just taken, which was not yet complete
        again. A 16-bit sum that wraps is reported. */
    method NextRequest(at: nat, stale: byte) returns (r: Look)
      requires Valid() && at < |clients|
      modifies this
      ensures Valid() && clientId == old(clientId) && stopped == old(stopped)
      ensures var tail := old(clients[at]).tail;
              && (r.Wrapped? <==> LookWraps(tail, stale))
              && (r.Whole? <==> !r.Wrapped? && Complete(tail))
              && (r.Whole? ==> r.request == Payload(tail))
              && clients == if r.Whole? then old(clients)[at := old(clients[at]).(tail := Rest(tail))] else old(clients)
    {
      hide DataSize;
      var c := clients[at];
      if |c.tail| == 0 {
        return NoneYet;
      }
      var n := c.tail[0] as int * 256 + (if |c.tail| >= 2 then c.tail[1] else stale) as int;
      if DataSize(n) > |c.tail| {
        return NoneYet;
      }
      if DataSize(n) != 2 + n {
        return Wrapped;
      }
      clients := clients[at := c.(tail := Rest(c.tail))];
      return Whole(Payload(c.tail));
    }

    method NoteReply(at: nat, bytes: seq<byte>, resp: Message)
      requires Valid() && at < |clients| && HEADER_LENGTH <= |resp| <= MAX_BUFFERED && bytes == Frame(resp)
      modifies this`clients
      ensures Valid()
      ensures var c := old(clients[at]);
              clients == old(clients)[at := c.(wire := c.wire + Frame(resp), answered := c.answered + [resp])]
    {
      var c := clients[at];
      ListedAfterReply(clients, clientId, at, resp);
      clients := clients[at := c.(wire := c.wire + bytes, answered := c.answered + [resp])];
    }

    /** Walks the list for the peer address. */
    method FindClient(raddr: Address) returns (i: nat)
      ensures i == FirstWith(clients, raddr)
    {
      i := 0;
      while i < |clients| && clients[i].raddr != raddr
        invariant i <= |clients| && forall j :: 0 <= j < i ==> clients[j].raddr != raddr
      {
        i := i + 1;
      }
    }

    static lemma BrokenSend(sends: seq<SendResult>, at: nat, len: nat)
      requires at < |sends| && sends[at].Broken? && Total(sends[..at]) < len
      ensures !Delivers(sends, len)
    {
      forall k | 0 <= k <= |sends|
        ensures !(NoBreak(sends[..k]) && Total(sends[..k]) >= len)
      {
        if k <= at {
          TotalGrows(sends, k, at);
        } else {
          assert sends[..k][at].Broken?;
        }
      }
    }

    static lemma ShortSends(sends: seq<SendResult>, n: nat, len: nat)
      requires n <= |sends| && (n == SEND_ATTEMPTS || n == |sends|) && Total(sends[..n]) < len
      ensures !Delivers(sends, len)
    {
      forall k | 0 <= k <= |sends| && k <= SEND_ATTEMPTS
        ensures Total(sends[..k]) < len
      {
        TotalGrows(sends, k, n);
      }
    }

    /** The loop around send(): at most 50 attempts, a pause or a retry after each short one. */
    static method SendBody(resp: Message, sends: seq<SendResult>) returns (done: bool, taken: seq<byte>)
      requires resp != []
      ensures done <==> Delivers(sends, |resp|)
      ensures taken <= resp && (done <==> taken == resp)
    {
      taken := [];
      var attempts := 0;
      while attempts < SEND_ATTEMPTS && attempts < |sends|
        invariant attempts <= SEND_ATTEMPTS && attempts <= |sends|
        invariant NoBreak(sends[..attempts]) && |taken| == Total(sends[..attempts]) < |resp|
        invariant taken <= resp
      {
        ghost var now := sends[..attempts + 1];
        assert now[..attempts] == sends[..attempts];
        match sends[attempts] {
          case Broken =>
            BrokenSend(sends, attempts, |resp|);
            return false, taken;
          case Again =>
          case Sent(n) =>
            if |taken| + n >= |resp| {
              assert NoBreak(now) && Total(now) >= |resp|;
              return true, resp;
            }
            taken := taken + resp[|taken|..|taken| + n];
        }
        attempts := attempts + 1;
      }
      ShortSends(sends, attempts, |resp|);
      done := false;
    }

    /** Sends one response, length first. A client whose socket cannot take all of it is removed. */
    method Respond(raddr: Address, resp: Message, header: SendResult, sends: seq<SendResult>)
      requires Valid()
      modifies this
      ensures Valid() && clientId == old(clientId)
      ensures clients == Responded(old(clients), raddr, resp, header, sends) && stopped == old(stopped)
    {
      if |resp| < HEADER_LENGTH || |resp| > MAX_BUFFERED {
        return;
      }
      hide Delivers, Listed;
      var i := FindClient(raddr);
      if i == |clients| {
        return;
      }
      var done, taken := false, [];
      if header == Sent(2) {
        done, taken := SendBody(resp, sends);
      }
      if done {
        NoteReply(i, PutU16(|resp|) + taken, resp);
      } else {
        RemoveClient(i);
      }
    }

    /** Closes every client, then stops accepting. */
    method Stop()
      requires Valid()
      modifies this
      ensures Valid() && stopped && clients == [] && clientCount == 0 && !accepting
      ensures clientId == old(clientId)
    {
      while clients != []
        invariant Valid() && clientId == old(clientId)
        decreases |clients|
      {
        RemoveClient(0);
      }
      accepting := false;
      stopped := true;
    }
  }
}
