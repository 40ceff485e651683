/** The input buffer of one TCP client: growth, appending and in-place splitting. */
module TcpClients {
  import opened Bytes
  import opened Framing

  /** What recv() reports. */
  datatype Recv = Data(bytes: seq<byte>) | Closed | WouldBlock | Failed

  /** What one read callback does to the client. */
  datatype ReadOutcome = Kept | RemovedClosed | RemovedOversized | RemovedMalformed | LengthWraps

  datatype Extracted = Partial | Taken(payload: Message) | Wraps

  /** Sizes the buffer can have once it is allocated: 64 times a power of two. */
  predicate IsCapacity(n: nat) {
    n in {64, 128, 256, 512, 1024, 2048, 4096, 8192, 16384, 32768, 65536}
  }

  /** The least of these sizes that holds `needed` bytes. */
  ghost predicate LeastCapacity(n: nat, needed: nat) {
    IsCapacity(n) && needed <= n && forall c: nat :: IsCapacity(c) && needed <= c ==> n <= c
  }

  function OutcomeOf(s: Status): ReadOutcome {
    match s
    case Open => Kept
    case Malformed => RemovedMalformed
    case Oversized => RemovedOversized
  }

  class TcpClient {
    var buffer: array<byte>  // input_buffer; no elements stand for NULL
    var size: nat            // input_buffer_size
    var used: nat            // input_buffer_used

    ghost predicate Valid()
      reads this
    {
      && buffer.Length == size
      && used <= size <= 65536
      && used <= MAX_BUFFERED
      && (size == 0 || IsCapacity(size))
    }

    /** The bytes received and not yet handed on. */
    ghost function Tail(): seq<byte>
      reads this, buffer
      requires Valid()
    {
      buffer[..used]
    }

    constructor ()
      ensures Valid() && Tail() == [] && fresh(buffer)
    {
      buffer := new byte[0];
      size, used := 0, 0;
    }

    /** Resizes so that `needed` bytes fit; the contents stay, the bytes gained are arbitrary. */
    method Grow(needed: nat)
      requires Valid() && size < needed <= MAX_BUFFERED
      modifies this`buffer, this`size
      ensures Valid() && fresh(buffer) && Tail() == old(Tail())
      ensures LeastCapacity(size, needed) && old(size) < size <= 65536
    {
      var n := 64;
      while n < needed
        invariant IsCapacity(n) && forall c: nat :: IsCapacity(c) && needed <= c ==> n <= c
      {
        if n > MAX_BUFFERED {
          assert false;  // "Unrealistic input buffer size" cannot happen
        }
        n := n * 2;
      }
      var b := new byte[n];
      forall i | 0 <= i < size {
        b[i] := buffer[i];
      }
      buffer, size := b, n;
    }

    /** Drops the first `n` bytes in use; what is not overwritten stays where it is. */
    method MoveDown(n: nat)
      requires Valid() && n <= used
      modifies this`used, buffer
      ensures Valid() && Tail() == old(Tail())[n..]
      ensures forall i :: used <= i < size ==> buffer[i] == old(buffer[i])
    {
      used := used - n;
      forall i | 0 <= i < used {
        buffer[i] := buffer[i + n];
      }
      assert Tail() == old(Tail())[n..];
    }

    /** Takes the first whole request off the buffer and moves the rest to its front. The two length
        bytes are looked at even when fewer than two are in use, and their sum with two is taken in 16
        bits. Where that sum wraps to something in use, a request is taken that is not there: `Wraps`. */
    method GetDnsRequest() returns (r: Extracted)
      requires Valid() && size >= 2
      modifies this`used, buffer
      ensures Valid()
      ensures r.Wraps? <==> var n := U16(old(buffer[..2])); n >= 65534 && n - 65534 <= old(used)
      ensures r.Taken? <==> !r.Wraps? && Complete(old(Tail()))
      ensures r.Taken? ==> r.payload == Payload(old(Tail())) && Tail() == Rest(old(Tail()))
      ensures !r.Taken? ==> Tail() == old(Tail())
      ensures used <= 1 ==> buffer[1] == old(buffer[1])
      ensures used == 0 ==> buffer[0] == old(buffer[0])
    {
      hide IsCapacity, DataSize;
      var reqSize := buffer[0] as int * 256 + buffer[1] as int;
      var dataSize := DataSize(reqSize);
      if dataSize > used {
        return Partial;
      }
      if dataSize != 2 + reqSize {
        return Wraps;
      }
      assert U16(Tail()) == reqSize && Tail()[2..dataSize] == buffer[2..dataSize];
      r := Taken(buffer[2..2 + reqSize]);
      MoveDown(dataSize);
    }

    /** Puts received bytes behind those in use, growing first when they do not fit. */
    method Append(bytes: seq<byte>)
      requires Valid() && bytes != [] && used + |bytes| <= MAX_BUFFERED
      modifies this, buffer
      ensures Valid() && (buffer == old(buffer) || fresh(buffer))
      ensures Tail() == old(Tail()) + bytes
      ensures size == old(size) ==> forall i :: used <= i < size ==> buffer[i] == old(buffer[i])
      ensures size == old(size) || (old(size) < size && LeastCapacity(size, used))
    {
      var needed := used + |bytes|;
      if size - used < |bytes| {
        Grow(needed);
      }
      forall i | 0 <= i < |bytes| {
        buffer[used + i] := bytes[i];
      }
      used := needed;
      assert Tail() == old(Tail()) + bytes;
    }

    /** Hands on every whole request in the buffer, and stops early at a look that wraps: exactly when
        the look after the last whole request does, the byte behind a lone one included. */
    method SplitRequests() returns (outcome: ReadOutcome, requests: seq<Message>)
      requires Valid() && used > 0
      modifies this`used, buffer
      ensures Valid()
      ensures size >= 2 && requests == Parse(old(Tail())).requests
      ensures outcome == if !WrapFree(old(Tail()), old(buffer[1])) then LengthWraps
                         else if Blocked(Parse(old(Tail())).rest) then RemovedMalformed else Kept
      ensures outcome != RemovedMalformed ==> Tail() == Parse(old(Tail())).rest
    {
      assert size >= 64;
      ghost var all, stale := Tail(), buffer[1];
      SplitStart(all, stale);
      hide IsCapacity, Parse, StaleAfter, WrapFree, SplitSoFar;
      outcome, requests := Kept, [];
      while true
        invariant Valid() && outcome == Kept && size >= 64
        invariant used == 0 ==> U16(buffer[..2]) < 65534  // bytes no longer in use still steer the next look
        invariant used <= 1 ==> buffer[1] == stale
        invariant SplitSoFar(all, old(buffer[1]), requests, Tail(), stale)
        decreases used
      {
        ghost var before := Tail();
        if Complete(before) && U16(before) >= HEADER_LENGTH {
          SplitNext(all, old(buffer[1]), requests, before, stale);
        } else {
          SplitEnd(all, old(buffer[1]), requests, before, stale);
        }
        assert used >= 2 ==> U16(before) == U16(buffer[..2]);
        var r := GetDnsRequest();
        match r
        case Wraps => return LengthWraps, requests;
        case Partial => return;
        case Taken(payload) =>
          if |payload| < HEADER_LENGTH {
            return RemovedMalformed, requests;
          }
          requests := requests + [payload];
          stale := before[1];
      }
    }

    /** The callback for a readable socket; `requests` are the messages handed on, in order. It does
        what ReadStep says, up to a look that wraps. The byte behind a lone one, which only a client
        with one byte pending has looked at, is old, or arbitrary after growth. */
    method ReadCb(recv: Recv) returns (outcome: ReadOutcome, requests: seq<Message>)
      requires Valid()
      requires recv.Data? ==> 1 <= |recv.bytes| <= READ_SIZE
      modifies this, buffer
      ensures Valid() && (buffer == old(buffer) || fresh(buffer))
      ensures !recv.Data? ==>
                && requests == [] && Tail() == old(Tail())
                && outcome == (if recv.WouldBlock? then Kept else RemovedClosed)
      ensures recv.Data? ==>
                var all := old(Tail()) + recv.bytes;
                var c := ReadStep(Conn([], old(Tail()), Open), recv.bytes);
                && requests == c.delivered
                && (!outcome.LengthWraps? ==> outcome == OutcomeOf(c.status))
                && (outcome.Kept? || outcome.LengthWraps? ==> Tail() == c.tail)
                && (size == old(size) || (old(size) < size && LeastCapacity(size, |all|)))
      ensures recv.Data? ==>
                var all := old(Tail()) + recv.bytes;
                && (outcome.LengthWraps? ==> |all| <= MAX_BUFFERED && !LengthsAtMost(all, MAX_UNWRAPPED))
                && (2 <= |all| <= MAX_BUFFERED ==> (outcome.LengthWraps? <==> !WrapFree(all, 0)))
                && (|all| == 1 && old(size) >= 2 ==> (outcome.LengthWraps? <==> !WrapFree(all, old(buffer[1]))))
    {
      if !recv.Data? {
        return if recv.WouldBlock? then Kept else RemovedClosed, [];
      }
      var len := |recv.bytes|;
      if len > 65535 || used > 65535 - len {
        return RemovedOversized, [];
      }
      if used + len > MAX_BUFFERED {
        return RemovedOversized, [];
      }
      Append(recv.bytes);
      ghost var all, stale := Tail(), buffer[1];
      outcome, requests := SplitRequests();
      if |all| >= 2 {
        StaleRarelyMatters(all, stale, 0);
      }
      if LengthsAtMost(all, MAX_UNWRAPPED) {
        BoundedIsWrapFree(all, stale);
      }
    }
  }

  // ---- The splitting loop as the code runs it, on the whole buffer ----

  /** The loop takes another request. */
  predicate Takes(buf: seq<byte>, used: nat)
    requires |buf| >= 2
  {
    DataSize(U16(buf)) <= used
  }

  function MovedDown(buf: seq<byte>, used: nat, n: nat): (b: seq<byte>)
    requires n <= used <= |buf|
    ensures |b| == |buf| && b[..used - n] == buf[n..used] && b[used - n..] == buf[used - n..]
  {
    buf[n..used] + buf[used - n..]
  }

  /** The loop hands on exactly `p.requests`, each a whole frame, and then ends on `p.rest`. */
  ghost predicate CodeSplits(buf: seq<byte>, used: nat, p: Split)
    requires 2 <= |buf| && used <= |buf|
    decreases |p.requests|
  {
    if p.requests == [] then
      && buf[..used] == p.rest && (Takes(buf, used) <==> Blocked(p.rest))
      && (Takes(buf, used) ==> U16(buf) < HEADER_LENGTH)
    else
      && Takes(buf, used) && U16(buf) < 65534 && U16(buf) >= HEADER_LENGTH
      && buf[2..2 + U16(buf)] == p.requests[0]
      && CodeSplits(MovedDown(buf, used, 2 + U16(buf)), used - 2 - U16(buf), Split(p.requests[1..], p.rest))
  }

  /** Taking the first frame out of the bytes in use. */
  lemma FrontTaken(buf: seq<byte>, used: nat)
    requires 2 <= |buf| && used <= |buf| && Complete(buf[..used])
    ensures var t, b, n := buf[..used], MovedDown(buf, used, 2 + U16(buf)), used - 2 - U16(buf);
            && U16(t) == U16(buf) && t[1] == buf[1] && Payload(t) == buf[2..2 + U16(buf)] && Rest(t) == b[..n]
            && (n <= 1 ==> b[1] == buf[1]) && (n == 0 ==> b[0] == buf[0])
  {
  }

  /** The loop ends and agrees with the parse if and only if the look after the last whole request,
      the byte behind a lone one included, does not wrap. */
  lemma {:induction false} SplittingAgreesIff(buf: seq<byte>, used: nat)
    requires 2 <= |buf| && used <= |buf| && used <= MAX_BUFFERED
    requires used == 0 ==> U16(buf) < 65534
    ensures CodeSplits(buf, used, Parse(buf[..used])) <==> WrapFree(buf[..used], buf[1])
    decreases used
  {
    hide Parse, StaleAfter, DataSize, MovedDown;
    var t := buf[..used];
    SplitOff(t, buf[1]);
    if !Complete(t) || U16(t) < HEADER_LENGTH {
      assert used >= 2 ==> U16(t) == U16(buf);
    } else {
      FrontTaken(buf, used);
      var b, n := MovedDown(buf, used, 2 + U16(buf)), used - 2 - U16(buf);
      SplittingAgreesIff(b, n);
      assert Parse(t).requests[1..] == Parse(Rest(t)).requests;
      assert WrapFree(t, buf[1]) <==> WrapFree(Rest(t), t[1]);
      if n >= 2 {
        StaleRarelyMatters(Rest(t), b[1], t[1]);
      }
    }
  }

  /** The buffer and the bytes in use after `k` rounds, all of which took something. */
  ghost function Rounds(buf: seq<byte>, used: nat, k: nat): (r: (seq<byte>, nat))
    requires 2 <= |buf| && used <= |buf|
    ensures |r.0| == |buf| && r.1 <= |r.0|
  {
    if k == 0 then (buf, used)
    else
      var (b, n) := Rounds(buf, used, k - 1);
      if Takes(b, n) then (MovedDown(b, n, DataSize(U16(b))), n - DataSize(U16(b))) else (b, n)
  }

  /** A declared length of 65534 is taken again and again: the loop never ends. */
  lemma {:induction false} LoopsForever(buf: seq<byte>, used: nat, k: nat)
    requires 2 <= |buf| && used <= |buf| && U16(buf) == 65534
    ensures Rounds(buf, used, k) == (buf, used) && Takes(buf, used)
  {
    if k == 0 {
    } else {
      LoopsForever(buf, used, k - 1);
      assert MovedDown(buf, used, 0) == buf;
    }
  }

  lemma PrefixOfStream(chunks: seq<seq<byte>>, i: nat)
    requires i <= |chunks| && LengthsAtMost(Flatten(chunks), SAFE_PAYLOAD)
    ensures LengthsAtMost(Flatten(chunks[..i]), SAFE_PAYLOAD)
  {
    assert chunks == chunks[..i] + chunks[i..];
    FlattenConcat(chunks[..i], chunks[i..]);
    LengthsOfPrefix(Flatten(chunks[..i]), Flatten(chunks[i..]), SAFE_PAYLOAD);
  }

  lemma KeptLengths(init: seq<seq<byte>>, chunk: seq<byte>, tail: seq<byte>)
    requires LegalReads(init) && LengthsAtMost(Flatten(init + [chunk]), SAFE_PAYLOAD)
    requires ReadAll(init).status == Open && ReadAll(init).tail == tail
    ensures LengthsAtMost(tail + chunk, MAX_UNWRAPPED)
  {
    var s := Flatten(init);
    assert (init + [chunk])[..|init|] == init;
    LengthsOfPrefix(s, chunk, SAFE_PAYLOAD);
    ChunkingDoesNotMatter(init);
    LeftoverLengths(s, chunk, SAFE_PAYLOAD);
    LengthsMonotone(tail + chunk, SAFE_PAYLOAD, MAX_UNWRAPPED);
  }

  lemma NextRead(init: seq<seq<byte>>, chunk: seq<byte>, c: Conn)
    requires ReadAll(init) == c && c.status == Open
    ensures var d := ReadStep(Conn([], c.tail, Open), chunk);
            ReadAll(init + [chunk]) == Conn(c.delivered + d.delivered, d.tail, d.status)
  {
    assert (init + [chunk])[..|init|] == init;
    assert ReadAll(init + [chunk]) == ReadStep(c, chunk);
  }

  lemma StoppedStream(chunks: seq<seq<byte>>, i: nat)
    requires i <= |chunks| && ReadAll(chunks[..i]).status != Open
    ensures ReadAll(chunks) == ReadAll(chunks[..i])
  {
    hide ReadAll;
    assert chunks == chunks[..i] + chunks[i..];
    DeliveredGrows(chunks[..i], chunks[i..]);
  }

  /** One more piece for a client that has read the pieces before it. */
  method FeedOne(client: TcpClient, ghost init: seq<seq<byte>>, chunk: seq<byte>, ghost delivered: seq<Message>)
    returns (outcome: ReadOutcome, requests: seq<Message>)
    requires client.Valid() && ReadAll(init) == Conn(delivered, client.Tail(), Open)
    requires LegalReads(init + [chunk]) && LengthsAtMost(Flatten(init + [chunk]), SAFE_PAYLOAD)
    modifies client, client.buffer
    ensures client.Valid() && (client.buffer == old(client.buffer) || fresh(client.buffer))
    ensures var c := ReadAll(init + [chunk]);
            && c.delivered == delivered + requests && outcome == OutcomeOf(c.status)
            && (outcome == Kept ==> c == Conn(delivered + requests, client.Tail(), Open))
  {
    assert (init + [chunk])[|init|] == chunk;
    assert forall i :: 0 <= i < |init| ==> init[i] == (init + [chunk])[i];
    KeptLengths(init, chunk, client.Tail());
    NextRead(init, chunk, Conn(delivered, client.Tail(), Open));
    hide Parse, LengthsAtMost, WrapFree, ReadAll, ReadStep, Flatten;
    outcome, requests := client.ReadCb(Data(chunk));
  }

  /** A fresh client fed a whole stream: chunking does not matter to the buffer code either. */
  method ServeStream(chunks: seq<seq<byte>>) returns (outcome: ReadOutcome, delivered: seq<Message>, kept: seq<byte>)
    requires LegalReads(chunks)
    requires LengthsAtMost(Flatten(chunks), SAFE_PAYLOAD)
    ensures var p := Parse(Flatten(chunks));
            && delivered == p.requests
            && outcome == (if Blocked(p.rest) then RemovedMalformed else Kept)
            && (outcome == Kept ==> kept == p.rest)
  {
    var client := new TcpClient();
    outcome, delivered := Kept, [];
    assert ReadAll(chunks[..0]) == FRESH;
    hide Parse, LengthsAtMost, WrapFree, ReadAll, ReadStep, Flatten;
    for i := 0 to |chunks|
      invariant client.Valid() && fresh(client) && fresh(client.buffer)
      invariant outcome == Kept && ReadAll(chunks[..i]) == Conn(delivered, client.Tail(), Open)
    {
      assert chunks[..i + 1] == chunks[..i] + [chunks[i]];
      PrefixOfStream(chunks, i + 1);
      var requests;
      outcome, requests := FeedOne(client, chunks[..i], chunks[i], delivered);
      delivered := delivered + requests;
      if outcome != Kept {
        StoppedStream(chunks, i + 1);
        ChunkingDoesNotMatter(chunks);
        return outcome, delivered, [];
      }
    }
    assert chunks[..|chunks|] == chunks;
    ChunkingDoesNotMatter(chunks);
    kept := client.buffer[..client.used];
  }
}
